/**
 The volume event feed: mapping raw events, draining pages, and the polling loop
 with its resume cursor.
 */
module EventFeed {
  import opened Results

  /** An opaque event id. An honest server's ids are positions in its log. */
  type EventId = nat

  datatype NodeUid = NodeUid(volume: string, node: string)

  datatype EventKind = Created | Updated | Trashed | Deleted

  datatype DriveEvent =
    | Node(uid: NodeUid, kind: EventKind)
    | TreeRefresh(root: NodeUid)
    | TreeRemoval(root: NodeUid)
    | FastForward(newEventId: EventId)

  datatype RawEvent = RawEvent(eventType: nat, link: string, isTrashed: bool)

  datatype Page = Page(eventId: EventId, events: seq<RawEvent>, more: bool, refresh: bool)

  datatype FeedError = NotFound | Transient

  type Response = Result<Page, FeedError>

  function MapVolumeEvent(volume: string, e: RawEvent): DriveEvent {
    var kind :=
      if e.eventType == 0 then Deleted
      else if e.eventType == 1 then Created
      else if e.isTrashed then Trashed
      else Updated;
    Node(NodeUid(volume, e.link), kind)
  }

  function MapAll(volume: string, es: seq<RawEvent>): seq<DriveEvent> {
    seq(|es|, i requires 0 <= i < |es| => MapVolumeEvent(volume, es[i]))
  }

  // ----- One page -------------------------------------------------------------------

  datatype Verdict = Continue(cursor: EventId) | Stop(cursor: EventId, refreshed: bool)

  /** What one page makes the listener see. */
  function PageEvents(volume: string, request: EventId, page: Page): seq<DriveEvent> {
    if page.refresh then [TreeRefresh(NodeUid(volume, volume))]
    else if page.events == [] then
      if page.eventId != request then [FastForward(page.eventId)] else []
    else MapAll(volume, page.events)
  }

  function PageVerdict(request: EventId, page: Page): Verdict {
    if page.refresh then Stop(page.eventId, true)
    else if page.events == [] || !page.more || page.eventId == request then Stop(page.eventId, false)
    else Continue(page.eventId)
  }

  // ----- One drain -------------------------------------------------------------------

  /** `Waiting`: the server has not answered the request at `cursor` yet. */
  datatype DrainEnd = Done(cursor: EventId, refreshed: bool) | Failed(error: FeedError) | Waiting(cursor: EventId)

  datatype Drain = Drain(end: DrainEnd, delivered: seq<DriveEvent>)

  /** The drain that starts at `cursor` and gets `responses`, in that order. */
  function DrainOf(volume: string, cursor: EventId, responses: seq<Response>): Drain
    decreases |responses|
  {
    if responses == [] then Drain(Waiting(cursor), [])
    else match responses[0]
      case Err(e) => Drain(Failed(e), [])
      case Ok(page) =>
        var shown := PageEvents(volume, cursor, page);
        match PageVerdict(cursor, page)
        case Stop(c, r) => Drain(Done(c, r), shown)
        case Continue(c) =>
          var rest := DrainOf(volume, c, responses[1..]);
          Drain(rest.end, shown + rest.delivered)
  }

  /** With `delivered` shown, `rest` is what remains of the whole drain. */
  predicate Continues(whole: Drain, delivered: seq<DriveEvent>, rest: Drain) {
    whole == Drain(rest.end, delivered + rest.delivered)
  }

  lemma DrainMeetsPage(volume: string, cursor: EventId, responses: seq<Response>, whole: Drain,
      delivered: seq<DriveEvent>)
    requires responses != [] && Continues(whole, delivered, DrainOf(volume, cursor, responses))
    ensures responses[0].Err? ==> whole == Drain(Failed(responses[0].error), delivered)
    ensures responses[0].Ok? ==>
      var page := responses[0].value; var verdict := PageVerdict(cursor, page);
      var shown := delivered + PageEvents(volume, cursor, page);
      if verdict.Stop? then whole == Drain(Done(verdict.cursor, verdict.refreshed), shown)
      else Continues(whole, shown, DrainOf(volume, verdict.cursor, responses[1..]))
  {
    if responses[0].Ok? && PageVerdict(cursor, responses[0].value).Continue? {
      var page := responses[0].value;
      var rest := DrainOf(volume, page.eventId, responses[1..]);
      var shown := PageEvents(volume, cursor, page);
      assert delivered + (shown + rest.delivered) == (delivered + shown) + rest.delivered;
    }
  }

  method DrainVolumeEvents(volume: string, start: EventId, responses: seq<Response>)
      returns (end: DrainEnd, delivered: seq<DriveEvent>)
    ensures Drain(end, delivered) == DrainOf(volume, start, responses)
  {
    var cursor := start;
    delivered := [];
    var next := 0;
    ghost var whole := DrainOf(volume, start, responses);
    while next < |responses|
      invariant 0 <= next <= |responses|
      invariant Continues(whole, delivered, DrainOf(volume, cursor, responses[next..]))
    {
      var requestCursor := cursor;
      DrainMeetsPage(volume, cursor, responses[next..], whole, delivered);
      assert responses[next..][0] == responses[next] && responses[next..][1..] == responses[next + 1..];
      if responses[next].Err? {
        return Failed(responses[next].error), delivered;
      }
      var page := responses[next].value;
      next := next + 1;
      cursor := page.eventId;
      if page.refresh {
        return Done(cursor, true), delivered + [TreeRefresh(NodeUid(volume, volume))];
      }
      if page.events == [] {
        if page.eventId != requestCursor {
          delivered := delivered + [FastForward(page.eventId)];
        }
        return Done(cursor, false), delivered;
      }
      var i := 0;
      ghost var before := delivered;
      while i < |page.events|
        invariant 0 <= i <= |page.events|
        invariant delivered == before + MapAll(volume, page.events[..i])
      {
        assert MapAll(volume, page.events[..i + 1]) ==
               MapAll(volume, page.events[..i]) + [MapVolumeEvent(volume, page.events[i])];
        delivered := delivered + [MapVolumeEvent(volume, page.events[i])];
        i := i + 1;
      }
      assert page.events[..i] == page.events;
      assert delivered == before + PageEvents(volume, requestCursor, page);
      if !page.more {
        return Done(cursor, false), delivered;
      }
      if cursor == requestCursor {
        return Done(cursor, false), delivered;
      }
    }
    end := Waiting(cursor);
  }

  // ----- An honest server ------------------------------------------------------------

  /** An entry of the volume's log; silent ones move the cursor but show nothing. */
  datatype LogEntry = Visible(event: RawEvent) | Silent

  type Log = seq<LogEntry>

  function VisibleOf(log: Log): seq<RawEvent> {
    if log == [] then []
    else
      var k := |log| - 1;
      VisibleOf(log[..k]) + (if log[k].Visible? then [log[k].event] else [])
  }

  /** A page is a stretch of the log that starts at the request. */
  predicate HonestStretch(log: Log, request: EventId, page: Page) {
    && request <= page.eventId <= |log|
    && page.events == VisibleOf(log[request..page.eventId])
  }

  /** Every page that is read from the log and not a refresh is honest. */
  predicate HonestScript(log: Log, cursor: EventId, responses: seq<Response>)
    decreases |responses|
  {
    && cursor <= |log|
    && (responses == [] || responses[0].Err? || (
          var page := responses[0].value;
          if page.refresh then cursor <= page.eventId <= |log|
          else HonestStretch(log, cursor, page) &&
               HonestScript(log, page.eventId, responses[1..])))
  }

  /** A page stays honest while the log grows behind it. */
  lemma HonestWhileGrowing(log: Log, more: Log, request: EventId, page: Page)
    requires HonestStretch(log, request, page)
    ensures HonestStretch(log + more, request, page)
  {
    assert (log + more)[request..page.eventId] == log[request..page.eventId];
  }

  /** The mapped events of a stretch of the log. */
  function Segment(volume: string, log: Log, a: EventId, b: EventId): seq<DriveEvent>
    requires a <= b <= |log|
  {
    MapAll(volume, VisibleOf(log[a..b]))
  }

  lemma {:induction false} VisibleOfConcat(a: Log, b: Log)
    ensures VisibleOf(a + b) == VisibleOf(a) + VisibleOf(b)
  {
    if b == [] {
      assert a + b == a;
    } else {
      var k := |b| - 1;
      assert (a + b)[..|a + b| - 1] == a + b[..k];
      VisibleOfConcat(a, b[..k]);
    }
  }

  lemma MapAllConcat(volume: string, a: seq<RawEvent>, b: seq<RawEvent>)
    ensures MapAll(volume, a + b) == MapAll(volume, a) + MapAll(volume, b)
  {
  }

  lemma SegmentsJoin(volume: string, log: Log, a: EventId, b: EventId, c: EventId)
    requires a <= b <= c <= |log|
    ensures Segment(volume, log, a, c) == Segment(volume, log, a, b) + Segment(volume, log, b, c)
  {
    assert log[a..c] == log[a..b] + log[b..c];
    VisibleOfConcat(log[a..b], log[b..c]);
    MapAllConcat(volume, VisibleOf(log[a..b]), VisibleOf(log[b..c]));
  }

  /** One drain against an honest server, the log growing meanwhile or not. A
      finished drain showed exactly the log from the old cursor to the new one, in
      order, apart from one trailing FastForward; a refreshed or broken one showed
      a prefix of the log from the old cursor, then at most the TreeRefresh. */
  lemma {:induction false} HonestDrain(volume: string, log: Log, cursor: EventId, responses: seq<Response>)
      returns (reached: EventId)
    requires HonestScript(log, cursor, responses)
    ensures cursor <= reached <= |log|
    ensures
      var d := DrainOf(volume, cursor, responses);
      var shown := Segment(volume, log, cursor, reached);
      match d.end
      case Done(c, false) => c == reached && (d.delivered == shown || d.delivered == shown + [FastForward(c)])
      case Done(c, true) => reached <= c <= |log| && d.delivered == shown + [TreeRefresh(NodeUid(volume, volume))]
      case Failed(_) => d.delivered == shown
      case Waiting(c) => c == reached && d.delivered == shown
    decreases |responses|
  {
    reached := cursor;
    assert Segment(volume, log, cursor, cursor) == [];
    if responses != [] && responses[0].Ok? {
      var page := responses[0].value;
      if !page.refresh {
        assert PageEvents(volume, cursor, page) ==
          Segment(volume, log, cursor, page.eventId) +
          (if page.events == [] && page.eventId != cursor then [FastForward(page.eventId)] else []);
        reached := page.eventId;
        if PageVerdict(cursor, page).Continue? {
          reached := HonestDrain(volume, log, page.eventId, responses[1..]);
          SegmentsJoin(volume, log, cursor, page.eventId, reached);
        }
      }
    }
  }

  /** Advancing cursors end the drain: an honest server is asked for at most one
      page more than there are entries left. */
  lemma {:induction false} HonestDrainEnds(volume: string, log: Log, cursor: EventId, responses: seq<Response>)
    requires HonestScript(log, cursor, responses)
    requires |responses| > |log| - cursor
    ensures !DrainOf(volume, cursor, responses).end.Waiting?
    decreases |responses|
  {
    if responses[0].Ok? && PageVerdict(cursor, responses[0].value).Continue? {
      HonestDrainEnds(volume, log, responses[0].value.eventId, responses[1..]);
    }
  }

  /** A page that does not advance the cursor ends the drain, whatever it says and whatever
      else the server has to answer: its events are shown and the cursor is kept. */
  lemma RepeatedCursorEndsTheDrain(volume: string, cursor: EventId, page: Page, more: seq<Response>)
    requires page.eventId == cursor
    ensures DrainOf(volume, cursor, [Ok(page)] + more) ==
      Drain(Done(cursor, page.refresh),
            if page.refresh then [TreeRefresh(NodeUid(volume, volume))] else MapAll(volume, page.events))
  {
    assert page.events == [] ==> MapAll(volume, page.events) == [];
  }

  /** The guard stops a repeated cursor only: two alternating ones keep any number
      of pages coming. */
  function PingPong(e: RawEvent, at: EventId, n: nat): seq<Response>
    decreases n
  {
    if n == 0 then [] else [Ok(Page(1 - at % 2, [e], true, false))] + PingPong(e, 1 - at % 2, n - 1)
  }

  lemma {:induction false} DrainNeedNotEnd(volume: string, e: RawEvent, at: EventId, n: nat)
    requires at <= 1
    ensures |PingPong(e, at, n)| == n
    ensures DrainOf(volume, at, PingPong(e, at, n)).end.Waiting?
    decreases n
  {
    if n > 0 {
      DrainNeedNotEnd(volume, e, 1 - at % 2, n - 1);
      assert PingPong(e, at, n)[1..] == PingPong(e, 1 - at % 2, n - 1);
    }
  }

  // ----- Delivering again does no harm ---------------------------------------------------

  /** What a listener that keeps the last event of each node knows. */
  function Apply(view: map<NodeUid, EventKind>, events: seq<DriveEvent>): map<NodeUid, EventKind> {
    if events == [] then view
    else
      var k := |events| - 1;
      var before := Apply(view, events[..k]);
      if events[k].Node? then before[events[k].uid := events[k].kind] else before
  }

  lemma {:induction false} ApplyConcat(view: map<NodeUid, EventKind>, a: seq<DriveEvent>, b: seq<DriveEvent>)
    ensures Apply(view, a + b) == Apply(Apply(view, a), b)
  {
    if b == [] {
      assert a + b == a;
    } else {
      var k := |b| - 1;
      assert (a + b)[..|a + b| - 1] == a + b[..k];
      ApplyConcat(view, a, b[..k]);
    }
  }

  /** Events overwrite what they mention and nothing else. */
  lemma {:induction false} ApplyOverlays(view: map<NodeUid, EventKind>, events: seq<DriveEvent>)
    ensures Apply(view, events) == view + Apply(map[], events)
  {
    if events != [] {
      ApplyOverlays(view, events[..|events| - 1]);
    }
  }

  lemma {:induction false} LaterEventsMentionMore(a: seq<DriveEvent>, b: seq<DriveEvent>)
    requires a <= b
    ensures Apply(map[], a).Keys <= Apply(map[], b).Keys
    decreases |b|
  {
    if |a| < |b| {
      LaterEventsMentionMore(a, b[..|b| - 1]);
    } else {
      assert a == b;
    }
  }

  function Flat(attempts: seq<seq<DriveEvent>>): seq<DriveEvent> {
    if attempts == [] then [] else attempts[0] + Flat(attempts[1..])
  }

  /** After any number of broken attempts, each a prefix of what is delivered in
      the end, the last event per node is as if they had never happened. */
  lemma {:induction false} RedeliveryIsIdempotent(view: map<NodeUid, EventKind>, attempts: seq<seq<DriveEvent>>,
                                                  final: seq<DriveEvent>)
    requires forall i :: 0 <= i < |attempts| ==> attempts[i] <= final
    ensures Apply(view, Flat(attempts) + final) == Apply(view, final)
    decreases |attempts|
  {
    if attempts == [] {
      assert Flat(attempts) + final == final;
    } else {
      var first, rest := attempts[0], Flat(attempts[1..]);
      assert Flat(attempts) + final == first + (rest + final);
      ApplyConcat(view, first, rest + final);
      RedeliveryIsIdempotent(Apply(view, first), attempts[1..], final);
      ApplyOverlays(view, first);
      ApplyOverlays(view, final);
      ApplyOverlays(Apply(view, first), final);
      LaterEventsMentionMore(first, final);
    }
  }

  // ----- What the listener knows --------------------------------------------------------

  /** Entry `i` is the last visible one for `link` in the stretch. */
  predicate IsLast(log: Log, a: nat, b: nat, link: string, i: nat) {
    a <= i < b && Mentions(log, link, i) && forall k :: i < k < b ==> !Mentions(log, link, k)
  }

  predicate Mentions(log: Log, link: string, i: int) {
    0 <= i < |log| && log[i].Visible? && log[i].event.link == link
  }

  /** What the log's fields say about the node. */
  predicate Tells(kind: EventKind, eventType: nat, isTrashed: bool) {
    && (kind == Deleted <==> eventType == 0)
    && (kind == Created <==> eventType == 1)
    && (kind == Trashed <==> eventType > 1 && isTrashed)
    && (kind == Updated <==> eventType > 1 && !isTrashed)
  }

  /** `after` differs from `before` by what the stretch says about this node. */
  predicate Knows(volume: string, log: Log, a: nat, b: nat, uid: NodeUid,
                  before: map<NodeUid, EventKind>, after: map<NodeUid, EventKind>)
  {
    && (forall i :: a <= i < b && uid.volume == volume && IsLast(log, a, b, uid.node, i) ==>
          uid in after && Tells(after[uid], log[i].event.eventType, log[i].event.isTrashed))
    && ((uid.volume != volume || forall i :: a <= i < b ==> !Mentions(log, uid.node, i)) ==>
          (uid in after <==> uid in before) && (uid in before ==> uid in after && after[uid] == before[uid]))
  }

  lemma KnowsFromMention(volume: string, log: Log, a: nat, b: nat, uid: NodeUid,
      before: map<NodeUid, EventKind>, after: map<NodeUid, EventKind>)
    requires a < b <= |log| && uid.volume == volume && Mentions(log, uid.node, b - 1)
    requires uid in after && Tells(after[uid], log[b - 1].event.eventType, log[b - 1].event.isTrashed)
    ensures Knows(volume, log, a, b, uid, before, after)
  {
    var last := b - 1;
    assert forall i :: a <= i < last && IsLast(log, a, b, uid.node, i) ==> !Mentions(log, uid.node, last);
  }

  lemma KnowsWithoutMention(volume: string, log: Log, a: nat, b: nat, uid: NodeUid,
      before: map<NodeUid, EventKind>, mid: map<NodeUid, EventKind>, after: map<NodeUid, EventKind>)
    requires a < b <= |log| && (uid.volume != volume || !Mentions(log, uid.node, b - 1))
    requires Knows(volume, log, a, b - 1, uid, before, mid)
    requires (uid in after <==> uid in mid) && (uid in mid ==> uid in after && after[uid] == mid[uid])
    ensures Knows(volume, log, a, b, uid, before, after)
  {
    forall i | a <= i < b && uid.volume == volume && IsLast(log, a, b, uid.node, i)
      ensures IsLast(log, a, b - 1, uid.node, i)
    {
      assert i != b - 1;
    }
  }

  lemma MappedKindTells(volume: string, e: RawEvent)
    ensures var event := MapVolumeEvent(volume, e);
      event.Node? && event.uid == NodeUid(volume, e.link) && Tells(event.kind, e.eventType, e.isTrashed)
  {
  }

  lemma ApplyOne(view: map<NodeUid, EventKind>, events: seq<DriveEvent>, e: DriveEvent)
    ensures Apply(view, events + [e]) ==
      if e.Node? then Apply(view, events)[e.uid := e.kind] else Apply(view, events)
  {
    assert (events + [e])[..|events|] == events;
  }

  lemma ViewOneMore(volume: string, log: Log, a: nat, b: nat, view: map<NodeUid, EventKind>)
    requires a < b <= |log|
    ensures
      var mid := Apply(view, Segment(volume, log, a, b - 1));
      var e := MapVolumeEvent(volume, if log[b - 1].Visible? then log[b - 1].event else RawEvent(0, "", false));
      Apply(view, Segment(volume, log, a, b)) == if log[b - 1].Visible? && e.Node? then mid[e.uid := e.kind] else mid
  {
    LastOfSegment(volume, log, a, b);
    var front := Segment(volume, log, a, b - 1);
    if log[b - 1].Visible? {
      ApplyOne(view, front, MapVolumeEvent(volume, log[b - 1].event));
    } else {
      assert front + [] == front;
    }
  }

  lemma {:induction false} SegmentTells(volume: string, log: Log, a: nat, b: nat, view: map<NodeUid, EventKind>,
      uid: NodeUid)
    requires a <= b <= |log|
    ensures Knows(volume, log, a, b, uid, view, Apply(view, Segment(volume, log, a, b)))
    decreases b - a
  {
    if a == b {
      assert Segment(volume, log, a, b) == [];
      KnowsAtOnce(volume, log, a, uid, view);
    } else {
      SegmentTells(volume, log, a, b - 1, view, uid);
      KnowsOneMore(volume, log, a, b, view, uid);
    }
  }

  lemma KnowsAtOnce(volume: string, log: Log, a: nat, uid: NodeUid, view: map<NodeUid, EventKind>)
    ensures Knows(volume, log, a, a, uid, view, view)
  {
  }

  lemma KnowsOneMore(volume: string, log: Log, a: nat, b: nat, view: map<NodeUid, EventKind>, uid: NodeUid)
    requires a < b <= |log| && Knows(volume, log, a, b - 1, uid, view, Apply(view, Segment(volume, log, a, b - 1)))
    ensures Knows(volume, log, a, b, uid, view, Apply(view, Segment(volume, log, a, b)))
  {
    var mid, after := Apply(view, Segment(volume, log, a, b - 1)), Apply(view, Segment(volume, log, a, b));
    ViewOneMore(volume, log, a, b, view);
    if log[b - 1].Visible? {
      MappedKindTells(volume, log[b - 1].event);
    }
    if uid.volume == volume && Mentions(log, uid.node, b - 1) {
      KnowsFromMention(volume, log, a, b, uid, view, after);
    } else {
      KnowsWithoutMention(volume, log, a, b, uid, view, mid, after);
    }
  }

  lemma LastOfSegment(volume: string, log: Log, a: nat, b: nat)
    requires a < b <= |log|
    ensures Segment(volume, log, a, b) == Segment(volume, log, a, b - 1) +
      (if log[b - 1].Visible? then [MapVolumeEvent(volume, log[b - 1].event)] else [])
  {
    assert log[a..b][..b - a - 1] == log[a..b - 1];
  }

  /** After an honest drain, the last event per node says what the log says: a node is
      known as deleted exactly when the last visible entry for its link, between the two
      cursors, has type 0, as created exactly for type 1, and else as trashed or updated
      by the flag; nothing else has changed. */
  lemma ListenerKnowsTheLog(volume: string, log: Log, cursor: EventId, responses: seq<Response>,
      view: map<NodeUid, EventKind>, uid: NodeUid) returns (reached: EventId)
    requires HonestScript(log, cursor, responses)
    ensures cursor <= reached <= |log|
    ensures
      var d := DrainOf(volume, cursor, responses);
      && (d.end.Done? && !d.end.refreshed ==> d.end.cursor == reached)
      && (d.end.Waiting? ==> d.end.cursor == reached)
      && Knows(volume, log, cursor, reached, uid, view, Apply(view, d.delivered))
  {
    reached := HonestDrain(volume, log, cursor, responses);
    var d := DrainOf(volume, cursor, responses);
    var shown := Segment(volume, log, cursor, reached);
    SegmentTells(volume, log, cursor, reached, view, uid);
    if d.end.Done? {
      ApplyOne(view, shown, FastForward(d.end.cursor));
      ApplyOne(view, shown, TreeRefresh(NodeUid(volume, volume)));
    }
  }

  // ----- The polling loop ---------------------------------------------------------------

  const POLL_INTERVAL_SECS := 30
  const BACKOFF_FIB: seq<nat> := [1, 1, 2, 3, 5, 8, 13]

  datatype LoopState = LoopState(cursor: EventId, retry: nat, stored: Option<EventId>,
                                 delivered: seq<DriveEvent>, stopped: bool)

  function NextWait(retry: nat): nat {
    POLL_INTERVAL_SECS * BACKOFF_FIB[if retry < |BACKOFF_FIB| - 1 then retry else |BACKOFF_FIB| - 1]
  }

  /** One tick: drain, then move and store the cursor, or stop, or back off.
      A loop cancelled while it waits, or found cancelled after, stops at once. */
  function AfterTick(volume: string, s: LoopState, cancelled: bool, responses: seq<Response>, stores: bool): LoopState {
    if cancelled then s.(stopped := true) else AfterDrain(volume, s, responses, stores)
  }

  function AfterDrain(volume: string, s: LoopState, responses: seq<Response>, stores: bool): LoopState {
    var d := DrainOf(volume, s.cursor, responses);
    var shown := s.delivered + d.delivered;
    match d.end
    case Done(c, _) => LoopState(c, 0, if stores then Some(c) else s.stored, shown, false)
    case Failed(NotFound) =>
      s.(delivered := shown + [TreeRemoval(NodeUid(volume, volume))], stopped := true)
    case Failed(Transient) => s.(delivered := shown, retry := s.retry + 1)
    case Waiting(_) => s.(delivered := shown)
  }

  class VolumeEventLoop {
    const volume: string
    var cursor: EventId
    var retry: nat
    var stored: Option<EventId>
    var delivered: seq<DriveEvent>
    var stopped: bool

    function Snapshot(): LoopState
      reads this
    {
      LoopState(cursor, retry, stored, delivered, stopped)
    }

    constructor (volume: string, start: EventId, stored: Option<EventId>)
      ensures this.volume == volume
      ensures Snapshot() == LoopState(start, 0, stored, [], false)
    {
      this.volume := volume;
      this.cursor := start;
      this.stored := stored;
      retry, delivered, stopped := 0, [], false;
    }

    method Tick(cancelled: bool, responses: seq<Response>, stores: bool) returns (waited: nat)
      requires !stopped
      modifies this
      ensures Snapshot() == AfterTick(volume, old(Snapshot()), cancelled, responses, stores)
      ensures if cancelled then waited <= NextWait(old(retry)) else waited == NextWait(old(retry))
      ensures cancelled ==>
        stopped && cursor == old(cursor) && retry == old(retry) && stored == old(stored) && delivered == old(delivered)
    {
      waited := POLL_INTERVAL_SECS * BACKOFF_FIB[if retry < 6 then retry else 6];
      if cancelled {
        waited :| 0 <= waited <= NextWait(retry);
        stopped := true;
        return;
      }
      var end, shown := DrainVolumeEvents(volume, cursor, responses);
      delivered := delivered + shown;
      match end
      case Done(c, _) =>
        cursor := c;
        if stores {
          stored := Some(c);
        }
        retry := 0;
      case Failed(NotFound) =>
        delivered := delivered + [TreeRemoval(NodeUid(volume, volume))];
        stopped := true;
      case Failed(Transient) =>
        retry := retry + 1;
      case Waiting(_) =>
    }
  }

  /** A tick that does not finish its drain leaves the cursor where it was and has
      shown only a prefix of what the next one shows again. */
  lemma BrokenTickKeepsCursor(volume: string, log: Log, s: LoopState, responses: seq<Response>, stores: bool)
      returns (reached: EventId)
    requires HonestScript(log, s.cursor, responses)
    requires DrainOf(volume, s.cursor, responses).end == Failed(Transient)
    ensures s.cursor <= reached <= |log|
    ensures
      var after := AfterTick(volume, s, false, responses, stores);
      && after.cursor == s.cursor && after.stored == s.stored
      && after.delivered == s.delivered + Segment(volume, log, s.cursor, reached)
      && Segment(volume, log, s.cursor, reached) <= Segment(volume, log, s.cursor, |log|)
  {
    reached := HonestDrain(volume, log, s.cursor, responses);
    SegmentsJoin(volume, log, s.cursor, reached, |log|);
  }

  /** The waits are the Fibonacci numbers times the poll interval, up to the sixth failure. */
  lemma WaitsAreFibonacci(retry: nat)
    ensures NextWait(0) == NextWait(1) == 30
    ensures retry < 5 ==> NextWait(retry + 2) == NextWait(retry + 1) + NextWait(retry)
  {
  }

  /** The wait grows with consecutive failures and levels off at 390 seconds. */
  lemma WaitsLevelOff(retry: nat, more: nat)
    requires retry <= more
    ensures POLL_INTERVAL_SECS <= NextWait(retry) <= NextWait(more) <= 390
    ensures NextWait(retry) == 390 <==> retry >= 6
  {
  }
}
