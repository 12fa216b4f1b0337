/**
 Whole runs of the event feed. The log grows, cursors expire, requests and
 cursor writes fail, and the client crashes and restarts, in any order. What was
 delivered is judged from the emissions themselves.
 */
module EventRuns {
  import opened Results
  import opened EventFeed

  /** Where an emission comes from: a log position, a refreshed stretch, or none. */
  datatype Origin = At(pos: nat) | Span(lo: nat, hi: nat) | Nowhere

  datatype Emission = Emission(event: DriveEvent, origin: Origin)

  datatype Phase =
    | Off
    | Resolved(latest: EventId)
    | Idle(cursor: EventId)
    | Draining(base: EventId, at: EventId)
    | Storing(cursor: EventId)

  /** Cursors below `horizon` have expired. `start` is the first cursor the
      client ever stored. A `sparing` server sends a refresh for expired cursors only,
      any other also when it likes. */
  datatype World = World(log: Log, horizon: nat, sparing: bool, stored: Option<EventId>, start: Option<EventId>,
                         phase: Phase, out: seq<Emission>)

  datatype Action =
    | Grow(entries: Log)
    | Expire(horizon: nat)
    | Boot
    | StoreStart(ok: bool)
    | BeginTick
    | Answer(page: Page)
    | AnswerThenCrash(page: Page, shown: nat)
    | Fail(error: FeedError)
    | StoreCursor(ok: bool)
    | Crash

  // ----- Steps -------------------------------------------------------------------------

  /** What an honest server answers to a request at `c`. */
  predicate HonestAnswer(log: Log, horizon: nat, sparing: bool, c: EventId, page: Page) {
    if page.refresh then page.eventId == |log| && (sparing ==> c < horizon)
    else c >= horizon && HonestStretch(log, c, page)
  }

  predicate Enabled(w: World, a: Action) {
    match a
    case Grow(_) => true
    case Expire(h) => w.horizon <= h <= |w.log|
    case Boot => w.phase.Off?
    case StoreStart(_) => w.phase.Resolved?
    case BeginTick => w.phase.Idle?
    case Answer(page) => w.phase.Draining? && HonestAnswer(w.log, w.horizon, w.sparing, w.phase.at, page)
    case AnswerThenCrash(page, shown) =>
      && w.phase.Draining?
      && HonestAnswer(w.log, w.horizon, w.sparing, w.phase.at, page)
      && shown <= |PageEvents("", w.phase.at, page)|
    case Fail(_) => w.phase.Draining?
    case StoreCursor(_) => w.phase.Storing?
    case Crash => true
  }

  /** The positions of the visible entries in a stretch of the log. */
  function Positions(log: Log, a: nat, b: nat): seq<nat>
    requires a <= b <= |log|
    decreases b - a
  {
    if a == b then []
    else Positions(log, a, b - 1) + (if log[b - 1].Visible? then [b - 1] else [])
  }

  /** The emissions of an honest page: the events of `PageEvents`, labelled. */
  function Emissions(volume: string, w: World, c: EventId, page: Page): seq<Emission>
    requires HonestAnswer(w.log, w.horizon, w.sparing, c, page) && c <= |w.log|
  {
    var events := PageEvents(volume, c, page);
    if page.refresh then [Emission(events[0], Span(c, page.eventId))]
    else if page.events == [] then seq(|events|, i requires 0 <= i < |events| => Emission(events[i], Nowhere))
    else
      var ps := Positions(w.log, c, page.eventId);
      PositionsMatch(volume, w.log, c, page.eventId);
      seq(|events|, i requires 0 <= i < |events| => Emission(events[i], At(ps[i])))
  }

  function Step(volume: string, w: World, a: Action): World
    requires Enabled(w, a) && CursorsInLog(w)
  {
    match a
    case Grow(entries) => w.(log := w.log + entries)
    case Expire(h) => w.(horizon := h)
    case Boot =>
      (match w.stored
       case Some(c) => w.(phase := Idle(c))
       case None => w.(phase := Resolved(|w.log|)))
    case StoreStart(ok) =>
      if ok then w.(stored := Some(w.phase.latest), start := Some(w.phase.latest), phase := Idle(w.phase.latest))
      else w.(phase := Off)
    case BeginTick => w.(phase := Draining(w.phase.cursor, w.phase.cursor))
    case Answer(page) =>
      var shown := w.(out := w.out + Emissions(volume, w, w.phase.at, page));
      (match PageVerdict(w.phase.at, page)
       case Continue(c) => shown.(phase := Draining(w.phase.base, c))
       case Stop(c, _) => shown.(phase := Storing(c)))
    case AnswerThenCrash(page, n) =>
      var es := Emissions(volume, w, w.phase.at, page);
      w.(out := w.out + es[..if n <= |es| then n else |es|], phase := Off)
    case Fail(e) =>
      if e.NotFound?
      then w.(out := w.out + [Emission(TreeRemoval(NodeUid(volume, volume)), Nowhere)], phase := Off)
      else w.(phase := Idle(w.phase.base))
    case StoreCursor(ok) =>
      w.(stored := if ok then Some(w.phase.cursor) else w.stored, phase := Idle(w.phase.cursor))
    case Crash => w.(phase := Off)
  }

  // ----- Cursors ---------------------------------------------------------------------------

  /** The in-memory cursor of a running client, and the drain's own cursor. */
  predicate CursorsInLog(w: World) {
    && w.horizon <= |w.log|
    && (w.start.Some? <==> w.stored.Some?)
    && (w.stored.Some? ==> w.start.value <= w.stored.value <= |w.log|)
    && match w.phase
       case Off => true
       case Resolved(l) => l <= |w.log| && w.stored.None?
       case Idle(c) => w.stored.Some? && w.stored.value <= c <= |w.log|
       case Draining(b, c) => w.stored.Some? && w.stored.value <= b <= c <= |w.log|
       case Storing(c) => w.stored.Some? && w.stored.value <= c <= |w.log|
  }

  lemma {:induction false} PositionsMatch(volume: string, log: Log, a: nat, b: nat)
    requires a <= b <= |log|
    ensures |Positions(log, a, b)| == |VisibleOf(log[a..b])|
    ensures forall i :: 0 <= i < |Positions(log, a, b)| ==>
      var p := Positions(log, a, b)[i];
      a <= p < b && log[p].Visible? && VisibleOf(log[a..b])[i] == log[p].event
    decreases b - a
  {
    if a < b {
      PositionsMatch(volume, log, a, b - 1);
      assert log[a..b][..b - a - 1] == log[a..b - 1];
      assert log[a..b][b - a - 1] == log[b - 1];
    }
  }

  // ----- What the emissions tell -------------------------------------------------------------

  /** Positions delivered so far. */
  function Seen(out: seq<Emission>): set<nat> {
    if out == [] then {}
    else
      var k := |out| - 1;
      Seen(out[..k]) + (if out[k].origin.At? then {out[k].origin.pos} else {})
  }

  predicate Between(lo: nat, p: nat, hi: nat) {
    lo <= p < hi
  }

  function Range(lo: nat, hi: nat): set<nat> {
    set p: nat | p < hi && Between(lo, p, hi)
  }

  /** Positions covered by a TreeRefresh. */
  function Refreshed(out: seq<Emission>): set<nat> {
    if out == [] then {}
    else
      var k := |out| - 1;
      Refreshed(out[..k]) +
      (if out[k].origin.Span? then Range(out[k].origin.lo, out[k].origin.hi) else {})
  }

  /** Position `p` was shown, or covered, or has nothing to show. */
  predicate Told(log: Log, out: seq<Emission>, p: nat) {
    p < |log| && (log[p].Silent? || p in Seen(out) || p in Refreshed(out))
  }

  predicate Truthful(volume: string, log: Log, start: nat, e: Emission) {
    match e.origin
    case At(p) => start <= p < |log| && log[p].Visible? && e.event == MapVolumeEvent(volume, log[p].event)
    case Span(lo, hi) => start <= lo <= hi <= |log| && e.event == TreeRefresh(NodeUid(volume, volume))
    case Nowhere => !e.event.Node?
  }

  /** After `before`, `e` shows no entry past a gap and, if `ordered`, none that a
      refresh has covered. */
  ghost predicate InTurn(ordered: bool, log: Log, start: nat, before: seq<Emission>, e: Emission) {
    e.origin.At? ==>
      && (forall p: nat :: start <= p < e.origin.pos ==> Told(log, before, p))
      && (ordered ==> e.origin.pos !in Refreshed(before))
  }

  ghost predicate Faithful(volume: string, ordered: bool, log: Log, start: nat, before: seq<Emission>, e: Emission) {
    Truthful(volume, log, start, e) && InTurn(ordered, log, start, before, e)
  }

  /** Everything from `start` to `reach` is told, and each emission was true and in
      turn when it was shown. */
  ghost predicate Story(volume: string, ordered: bool, log: Log, start: nat, reach: nat, out: seq<Emission>) {
    && start <= reach <= |log|
    && (forall p: nat :: start <= p < reach ==> Told(log, out, p))
    && (forall i :: 0 <= i < |out| ==> Faithful(volume, ordered, log, start, out[..i], out[i]))
  }

  lemma Snoc(out: seq<Emission>, e: Emission)
    ensures Seen(out + [e]) == Seen(out) + (if e.origin.At? then {e.origin.pos} else {})
    ensures Refreshed(out + [e]) ==
      Refreshed(out) + (if e.origin.Span? then Range(e.origin.lo, e.origin.hi) else {})
  {
    assert (out + [e])[..|out|] == out;
  }

  /** What has been told stays told, and one more emission may tell more. */
  lemma StoryAppends(volume: string, ordered: bool, log: Log, start: nat, reach: nat, out: seq<Emission>, e: Emission)
    requires Story(volume, ordered, log, start, reach, out) && Faithful(volume, ordered, log, start, out, e)
    ensures Story(volume, ordered, log, start, reach, out + [e])
  {
    Snoc(out, e);
    forall p: nat | start <= p < reach ensures Told(log, out + [e], p) {
      assert Told(log, out, p);
    }
    forall i | 0 <= i <= |out|
      ensures Faithful(volume, ordered, log, start, (out + [e])[..i], (out + [e])[i])
    {
      assert (out + [e])[..i] == out[..i];
      assert i == |out| ==> out[..i] == out;
    }
  }

  lemma {:induction false} RefreshedInLog(volume: string, log: Log, start: nat, out: seq<Emission>)
    requires forall i :: 0 <= i < |out| ==> Truthful(volume, log, start, out[i])
    ensures forall p :: p in Refreshed(out) ==> start <= p < |log|
  {
    if out != [] {
      assert Truthful(volume, log, start, out[|out| - 1]);
      RefreshedInLog(volume, log, start, out[..|out| - 1]);
    }
  }

  /** The next entry is told: it is shown if there is something to show. */
  lemma StoryContinues(volume: string, ordered: bool, log: Log, start: nat, m: nat, out: seq<Emission>, e: Emission)
    requires Story(volume, ordered, log, start, m, out) && m < |log| && (ordered ==> m !in Refreshed(out))
    requires e.origin == At(m) && log[m].Visible? && e.event == MapVolumeEvent(volume, log[m].event)
    ensures Story(volume, ordered, log, start, m + 1, out + [e])
    ensures Refreshed(out + [e]) == Refreshed(out)
  {
    Snoc(out, e);
    StoryAppends(volume, ordered, log, start, m, out, e);
    forall p: nat | start <= p < m + 1 ensures Told(log, out + [e], p) {
      assert p < m ==> Told(log, out + [e], p);
    }
  }

  lemma StorySkips(volume: string, ordered: bool, log: Log, start: nat, m: nat, out: seq<Emission>)
    requires Story(volume, ordered, log, start, m, out) && m < |log| && log[m].Silent?
    ensures Story(volume, ordered, log, start, m + 1, out)
  {
    forall p: nat | start <= p < m + 1 ensures Told(log, out, p) {
      assert p < m ==> Told(log, out, p);
    }
  }

  lemma StoryAside(volume: string, ordered: bool, log: Log, start: nat, reach: nat, out: seq<Emission>, e: Emission)
    requires Story(volume, ordered, log, start, reach, out) && e.origin.Nowhere? && !e.event.Node?
    ensures Story(volume, ordered, log, start, reach, out + [e])
    ensures Refreshed(out + [e]) == Refreshed(out)
  {
    Snoc(out, e);
    StoryAppends(volume, ordered, log, start, reach, out, e);
  }

  /** A refresh covers everything from the request to the end of the log. */
  lemma StoryRefreshes(volume: string, ordered: bool, log: Log, start: nat, c: nat, out: seq<Emission>, e: Emission)
    requires Story(volume, ordered, log, start, c, out)
    requires e == Emission(TreeRefresh(NodeUid(volume, volume)), Span(c, |log|))
    ensures Story(volume, ordered, log, start, |log|, out + [e])
    ensures Refreshed(out + [e]) == Refreshed(out) + Range(c, |log|)
  {
    Snoc(out, e);
    StoryAppends(volume, ordered, log, start, c, out, e);
    forall p: nat | start <= p < |log| ensures Told(log, out + [e], p) {
      assert p < c ==> Told(log, out + [e], p);
    }
  }

  lemma StoryShortens(volume: string, ordered: bool, log: Log, start: nat, reach: nat, shorter: nat, out: seq<Emission>)
    requires Story(volume, ordered, log, start, reach, out) && start <= shorter <= reach
    ensures Story(volume, ordered, log, start, shorter, out)
  {
  }

  lemma StoryGrows(volume: string, ordered: bool, log: Log, more: Log, start: nat, reach: nat, out: seq<Emission>)
    requires Story(volume, ordered, log, start, reach, out)
    ensures Story(volume, ordered, log + more, start, reach, out)
  {
    forall p: nat | start <= p < reach ensures Told(log + more, out, p) {
      assert Told(log, out, p);
    }
    forall i | 0 <= i < |out| ensures Faithful(volume, ordered, log + more, start, out[..i], out[i]) {
      FaithfulWhileGrowing(volume, ordered, log, more, start, out[..i], out[i]);
    }
  }

  lemma FaithfulWhileGrowing(volume: string, ordered: bool, log: Log, more: Log, start: nat, before: seq<Emission>,
      e: Emission)
    requires Faithful(volume, ordered, log, start, before, e)
    ensures Faithful(volume, ordered, log + more, start, before, e)
  {
    if e.origin.At? {
      forall p: nat | start <= p < e.origin.pos ensures Told(log + more, before, p) {
        assert Told(log, before, p);
      }
    }
  }

  // ----- A stretch of the log, entry by entry ------------------------------------------------------

  function Stretch(volume: string, log: Log, a: nat, b: nat): seq<Emission>
    requires a <= b <= |log|
    decreases b - a
  {
    if a == b then []
    else Stretch(volume, log, a, b - 1) +
         (if log[b - 1].Visible? then [Emission(MapVolumeEvent(volume, log[b - 1].event), At(b - 1))] else [])
  }

  lemma {:induction false} StoryOfStretch(volume: string, ordered: bool, log: Log, start: nat, a: nat, b: nat,
      out: seq<Emission>)
    requires Story(volume, ordered, log, start, a, out) && a <= b <= |log|
    requires ordered ==> forall p :: a <= p < b ==> p !in Refreshed(out)
    ensures Story(volume, ordered, log, start, b, out + Stretch(volume, log, a, b))
    ensures Refreshed(out + Stretch(volume, log, a, b)) == Refreshed(out)
    decreases b - a
  {
    if a == b {
      assert out + [] == out;
    } else {
      StoryOfStretch(volume, ordered, log, start, a, b - 1, out);
      var before := out + Stretch(volume, log, a, b - 1);
      if log[b - 1].Visible? {
        var e := Emission(MapVolumeEvent(volume, log[b - 1].event), At(b - 1));
        StoryContinues(volume, ordered, log, start, b - 1, before, e);
        assert before + [e] == out + Stretch(volume, log, a, b);
      } else {
        StorySkips(volume, ordered, log, start, b - 1, before);
        assert before == out + Stretch(volume, log, a, b);
      }
    }
  }

  lemma {:induction false} StretchIsLabelled(volume: string, log: Log, a: nat, b: nat)
    requires a <= b <= |log|
    ensures
      var ps := Positions(log, a, b);
      var s := Stretch(volume, log, a, b);
      && |s| == |ps| == |VisibleOf(log[a..b])|
      && forall i :: 0 <= i < |s| ==> s[i] == Emission(MapVolumeEvent(volume, VisibleOf(log[a..b])[i]), At(ps[i]))
    decreases b - a
  {
    PositionsMatch(volume, log, a, b);
    if a < b {
      StretchIsLabelled(volume, log, a, b - 1);
      assert log[a..b][..b - a - 1] == log[a..b - 1];
      assert log[a..b][b - a - 1] == log[b - 1];
    }
  }

  /** An honest, unexpired answer emits a stretch of the log, or only an aside. */
  lemma EmissionsAreStretch(volume: string, w: World, c: EventId, page: Page)
    requires HonestAnswer(w.log, w.horizon, w.sparing, c, page) && c <= |w.log| && !page.refresh
    ensures page.events != [] ==> Emissions(volume, w, c, page) == Stretch(volume, w.log, c, page.eventId)
    ensures page.events == [] ==> Stretch(volume, w.log, c, page.eventId) == []
    ensures page.events == [] ==>
      Emissions(volume, w, c, page) == if page.eventId != c then [Emission(FastForward(page.eventId), Nowhere)] else []
  {
    StretchIsLabelled(volume, w.log, c, page.eventId);
  }

  /** What is shown before a crash inside a page is a shorter stretch. */
  lemma {:induction false} StretchPrefix(volume: string, log: Log, a: nat, b: nat, n: nat) returns (m: nat)
    requires a <= b <= |log| && n <= |Stretch(volume, log, a, b)|
    ensures a <= m <= b && Stretch(volume, log, a, b)[..n] == Stretch(volume, log, a, m)
    decreases b - a
  {
    if n == |Stretch(volume, log, a, b)| {
      m := b;
    } else {
      m := StretchPrefix(volume, log, a, b - 1, n);
    }
  }

  // ----- The invariant -----------------------------------------------------------------------------

  /** A request from `x` could not be answered past a refreshed position. */
  ghost predicate Sealed(w: World, x: nat) {
    forall p :: p in Refreshed(w.out) && x <= p ==> x < w.horizon
  }

  /** Up to where the client, if it runs, knows the log. */
  function Reach(w: World): nat
    requires w.stored.Some?
  {
    match w.phase
    case Idle(c) => c
    case Draining(_, c) => c
    case Storing(c) => c
    case _ => w.stored.value
  }

  ghost predicate Inv(volume: string, w: World) {
    && CursorsInLog(w)
    && (w.stored.None? ==> w.out == [])
    && (w.stored.Some? ==>
          && Story(volume, w.sparing, w.log, w.start.value, Reach(w), w.out)
          && (w.sparing ==> Sealed(w, w.stored.value) && Sealed(w, Reach(w)))
          && (w.sparing && w.phase.Draining? ==> Sealed(w, w.phase.base)))
  }

  lemma RefreshKeepsInv(volume: string, w: World, page: Page)
    requires Inv(volume, w) && Enabled(w, Answer(page)) && page.refresh
    ensures Inv(volume, Step(volume, w, Answer(page)))
  {
    var c := w.phase.at;
    var e := Emission(TreeRefresh(NodeUid(volume, volume)), Span(c, |w.log|));
    assert Emissions(volume, w, c, page) == [e];
    StoryRefreshes(volume, w.sparing, w.log, w.start.value, c, w.out, e);
    var w' := Step(volume, w, Answer(page));
    assert w'.out == w.out + [e] && w'.phase == Storing(|w.log|);
    forall p | w.sparing && p in Refreshed(w'.out) && w.stored.value <= p ensures w.stored.value < w.horizon {
      assert p in Refreshed(w.out) || c <= p;
    }
    RefreshedInLog(volume, w.log, w.start.value, w'.out);
  }

  lemma PageTells(volume: string, w: World, c: EventId, page: Page)
    requires HonestAnswer(w.log, w.horizon, w.sparing, c, page) && !page.refresh && w.start.Some?
    requires Story(volume, w.sparing, w.log, w.start.value, c, w.out) && (w.sparing ==> Sealed(w, c))
    ensures
      var out := w.out + Emissions(volume, w, c, page);
      && Story(volume, w.sparing, w.log, w.start.value, page.eventId, out)
      && Refreshed(out) == Refreshed(w.out)
  {
    EmissionsAreStretch(volume, w, c, page);
    StoryOfStretch(volume, w.sparing, w.log, w.start.value, c, page.eventId, w.out);
    if page.events == [] {
      assert w.out + [] == w.out;
      if page.eventId != c {
        StoryAside(volume, w.sparing, w.log, w.start.value, page.eventId, w.out,
            Emission(FastForward(page.eventId), Nowhere));
      }
    }
  }

  lemma AnswerKeepsInv(volume: string, w: World, page: Page)
    requires Inv(volume, w) && Enabled(w, Answer(page))
    ensures Inv(volume, Step(volume, w, Answer(page)))
  {
    if page.refresh {
      RefreshKeepsInv(volume, w, page);
    } else {
      PageTells(volume, w, w.phase.at, page);
      AnswerMoves(volume, w, page);
      var w' := Step(volume, w, Answer(page));
      assert Story(volume, w.sparing, w'.log, w'.start.value, Reach(w'), w'.out);
      if w.sparing {
        SealedLater(w, w', w.phase.at, page.eventId);
      }
    }
  }

  /** What an unexpired answer changes. */
  lemma AnswerMoves(volume: string, w: World, page: Page)
    requires CursorsInLog(w) && Enabled(w, Answer(page)) && !page.refresh
    ensures var w' := Step(volume, w, Answer(page));
      && w'.log == w.log
      && w'.horizon == w.horizon
      && w'.sparing == w.sparing
      && w'.stored == w.stored
      && w'.start == w.start
      && w'.out == w.out + Emissions(volume, w, w.phase.at, page)
      && (w'.phase == Draining(w.phase.base, page.eventId) || w'.phase == Storing(page.eventId))
      && w.phase.at <= page.eventId <= |w.log|
  {
  }

  lemma SealedLater(w: World, w': World, x: nat, y: nat)
    requires w'.horizon == w.horizon && Refreshed(w'.out) == Refreshed(w.out)
    requires Sealed(w, x) && x <= y && x >= w.horizon
    ensures Sealed(w', y)
    ensures forall z :: Sealed(w, z) ==> Sealed(w', z)
  {
  }

  /** What a page showed before a crash inside it is still a story. */
  lemma PartOfPageTells(volume: string, w: World, c: EventId, page: Page, n: nat) returns (m: nat)
    requires HonestAnswer(w.log, w.horizon, w.sparing, c, page) && !page.refresh && w.start.Some?
    requires Story(volume, w.sparing, w.log, w.start.value, c, w.out) && (w.sparing ==> Sealed(w, c))
    requires n <= |Emissions(volume, w, c, page)|
    ensures c <= m <= |w.log|
    ensures
      var out := w.out + Emissions(volume, w, c, page)[..n];
      Story(volume, w.sparing, w.log, w.start.value, m, out) && Refreshed(out) == Refreshed(w.out)
  {
    EmissionsAreStretch(volume, w, c, page);
    var es := Emissions(volume, w, c, page);
    if page.events != [] {
      m := StretchPrefix(volume, w.log, c, page.eventId, n);
      StoryOfStretch(volume, w.sparing, w.log, w.start.value, c, m, w.out);
    } else {
      m := c;
      if n == 0 {
        assert w.out + es[..0] == w.out;
      } else {
        assert es[..n] == [es[0]];
        StoryAside(volume, w.sparing, w.log, w.start.value, c, w.out, es[0]);
      }
    }
  }

  lemma AnswerThenCrashKeepsInv(volume: string, w: World, page: Page, shown: nat)
    requires Inv(volume, w) && Enabled(w, AnswerThenCrash(page, shown))
    ensures Inv(volume, Step(volume, w, AnswerThenCrash(page, shown)))
  {
    var c := w.phase.at;
    var es := Emissions(volume, w, c, page);
    var n := if shown <= |es| then shown else |es|;
    if !page.refresh {
      var m := PartOfPageTells(volume, w, c, page, n);
      StoryShortens(volume, w.sparing, w.log, w.start.value, m, w.stored.value, w.out + es[..n]);
    } else if n == 0 {
      assert w.out + es[..0] == w.out;
      StoryShortens(volume, w.sparing, w.log, w.start.value, c, w.stored.value, w.out);
    } else {
      assert es[..n] == [es[0]];
      StoryRefreshes(volume, w.sparing, w.log, w.start.value, c, w.out, es[0]);
      StoryShortens(volume, w.sparing, w.log, w.start.value, |w.log|, w.stored.value, w.out + es[..n]);
      forall p | w.sparing && p in Refreshed(w.out + es[..n]) && w.stored.value <= p
        ensures w.stored.value < w.horizon
      {
        assert p in Refreshed(w.out) || c <= p;
      }
    }
  }

  lemma StepKeepsInv(volume: string, w: World, a: Action)
    requires Inv(volume, w) && Enabled(w, a)
    ensures Inv(volume, Step(volume, w, a))
  {
    match a
    case Grow(entries) =>
      if w.stored.Some? {
        StoryGrows(volume, w.sparing, w.log, entries, w.start.value, Reach(w), w.out);
      }
    case Answer(page) => AnswerKeepsInv(volume, w, page);
    case AnswerThenCrash(page, shown) => AnswerThenCrashKeepsInv(volume, w, page, shown);
    case Fail(e) => FailKeepsInv(volume, w, e);
    case Crash =>
      if w.stored.Some? {
        StoryShortens(volume, w.sparing, w.log, w.start.value, Reach(w), w.stored.value, w.out);
      }
    case _ => QuietStepKeepsInv(volume, w, a);
  }

  lemma FailKeepsInv(volume: string, w: World, e: FeedError)
    requires Inv(volume, w) && Enabled(w, Fail(e))
    ensures Inv(volume, Step(volume, w, Fail(e)))
  {
    if e.NotFound? {
      var gone := Emission(TreeRemoval(NodeUid(volume, volume)), Nowhere);
      StoryAside(volume, w.sparing, w.log, w.start.value, Reach(w), w.out, gone);
      StoryShortens(volume, w.sparing, w.log, w.start.value, Reach(w), w.stored.value, w.out + [gone]);
    } else {
      StoryShortens(volume, w.sparing, w.log, w.start.value, Reach(w), w.phase.base, w.out);
    }
  }

  lemma QuietStepKeepsInv(volume: string, w: World, a: Action)
    requires Inv(volume, w) && Enabled(w, a)
    requires a.Expire? || a.Boot? || a.StoreStart? || a.BeginTick? || a.StoreCursor?
    ensures Inv(volume, Step(volume, w, a))
  {
  }

  // ----- Runs ----------------------------------------------------------------------------------------

  /** A world in which the client has never run. */
  predicate Fresh(w: World) {
    w.horizon <= |w.log| && w.stored.None? && w.start.None? && w.phase.Off? && w.out == []
  }

  ghost predicate PossibleRun(volume: string, w: World, run: seq<Action>)
    decreases |run|
  {
    run == [] || (CursorsInLog(w) && Enabled(w, run[0]) && PossibleRun(volume, Step(volume, w, run[0]), run[1..]))
  }

  ghost function Run(volume: string, w: World, run: seq<Action>): World
    requires PossibleRun(volume, w, run)
    decreases |run|
  {
    if run == [] then w else Run(volume, Step(volume, w, run[0]), run[1..])
  }

  lemma {:induction false} RunKeepsInv(volume: string, w: World, run: seq<Action>)
    requires Inv(volume, w) && PossibleRun(volume, w, run)
    ensures Inv(volume, Run(volume, w, run))
    decreases |run|
  {
    if run != [] {
      StepKeepsInv(volume, w, run[0]);
      RunKeepsInv(volume, Step(volume, w, run[0]), run[1..]);
    }
  }

  // ----- The guarantees, read off the emissions ---------------------------------------------------------

  lemma {:induction false} SeenWasEmitted(out: seq<Emission>, p: nat)
    ensures p in Seen(out) <==> exists i :: 0 <= i < |out| && out[i].origin == At(p)
  {
    if out != [] {
      var k := |out| - 1;
      SeenWasEmitted(out[..k], p);
      if p in Seen(out[..k]) {
        var i :| 0 <= i < k && out[..k][i].origin == At(p);
        assert out[i].origin == At(p);
      }
      forall i | 0 <= i < |out| && out[i].origin == At(p) ensures p in Seen(out) {
        assert i < k ==> out[..k][i].origin == At(p);
      }
    }
  }

  lemma {:induction false} RefreshedWasEmitted(out: seq<Emission>, p: nat)
    requires p in Refreshed(out)
    ensures exists i :: 0 <= i < |out| && out[i].origin.Span? && out[i].origin.lo <= p < out[i].origin.hi
  {
    var k := |out| - 1;
    if p in Refreshed(out[..k]) {
      RefreshedWasEmitted(out[..k], p);
      var i :| 0 <= i < k && out[..k][i].origin.Span? && out[..k][i].origin.lo <= p < out[..k][i].origin.hi;
      assert out[i] == out[..k][i];
    } else {
      assert out[k].origin.Span? && p in Range(out[k].origin.lo, out[k].origin.hi);
    }
  }

  predicate WasShown(out: seq<Emission>, e: Emission) {
    exists i :: 0 <= i < |out| && out[i] == e
  }

  predicate WasRefreshed(out: seq<Emission>, event: DriveEvent, p: nat) {
    exists i :: 0 <= i < |out| && out[i].origin.Span? && out[i].origin.lo <= p < out[i].origin.hi
      && out[i].event == event
  }

  /** What is told was shown as the event it maps to, or covered by a TreeRefresh. */
  lemma ToldByEmissions(volume: string, log: Log, start: nat, out: seq<Emission>, p: nat)
    requires forall i :: 0 <= i < |out| ==> Truthful(volume, log, start, out[i])
    requires Told(log, out, p) && log[p].Visible?
    ensures p in Seen(out) ==> WasShown(out, Emission(MapVolumeEvent(volume, log[p].event), At(p)))
    ensures p in Refreshed(out) ==> WasRefreshed(out, TreeRefresh(NodeUid(volume, volume)), p)
  {
    if p in Seen(out) {
      SeenWasEmitted(out, p);
      var i :| 0 <= i < |out| && out[i].origin == At(p);
      assert Truthful(volume, log, start, out[i]);
      assert out[i] == Emission(MapVolumeEvent(volume, log[p].event), At(p));
    }
    if p in Refreshed(out) {
      RefreshedWasEmitted(out, p);
      var i :| 0 <= i < |out| && out[i].origin.Span? && out[i].origin.lo <= p < out[i].origin.hi;
      assert Truthful(volume, log, start, out[i]);
    }
  }

  /** No gap, at least once: in every reachable state of a running client, each
      visible log entry between the first stored cursor and the client's cursor
      was shown, as the event it maps to, or lies in a stretch whose TreeRefresh
      was shown. */
  lemma NoEntryIsLost(volume: string, w: World, run: seq<Action>, p: nat)
    requires Fresh(w) && PossibleRun(volume, w, run)
    requires BehindTheCursor(Run(volume, w, run), p)
    ensures var v := Run(volume, w, run);
      || WasShown(v.out, Emission(MapVolumeEvent(volume, v.log[p].event), At(p)))
      || WasRefreshed(v.out, TreeRefresh(NodeUid(volume, volume)), p)
  {
    RunKeepsInv(volume, w, run);
    var v := Run(volume, w, run);
    assert Told(v.log, v.out, p);
    ToldByEmissions(volume, v.log, v.start.value, v.out, p);
  }

  /** A visible entry between the first stored cursor and the client's. */
  predicate BehindTheCursor(v: World, p: nat) {
    && v.stored.Some? && v.start.Some? && v.start.value <= p < Reach(v)
    && p < |v.log| && v.log[p].Visible?
  }

  /** The stored cursor never passes the one in memory, and neither moves back
      before the first one. */
  lemma StoredNeverPassesMemory(volume: string, w: World, run: seq<Action>)
    requires Fresh(w) && PossibleRun(volume, w, run)
    ensures var v := Run(volume, w, run);
      v.stored.Some? ==> v.start.Some? && v.start.value <= v.stored.value <= Reach(v) <= |v.log|
  {
    RunKeepsInv(volume, w, run);
  }

  /** The order of deliveries, for any server: when an entry is shown, every visible
      entry before it, from the first stored cursor on, has been shown or covered by a
      TreeRefresh already. */
  lemma NothingIsShownAhead(volume: string, w: World, run: seq<Action>, i: nat, q: nat, p: nat)
    requires Fresh(w) && PossibleRun(volume, w, run)
    requires var v := Run(volume, w, run);
      && i < |v.out| && v.out[i].origin == At(q) && v.start.Some? && v.start.value <= p < q
      && p < |v.log| && v.log[p].Visible?
    ensures var v := Run(volume, w, run);
      || WasShown(v.out[..i], Emission(MapVolumeEvent(volume, v.log[p].event), At(p)))
      || WasRefreshed(v.out[..i], TreeRefresh(NodeUid(volume, volume)), p)
  {
    RunKeepsInv(volume, w, run);
    var v := Run(volume, w, run);
    assert Faithful(volume, v.sparing, v.log, v.start.value, v.out[..i], v.out[i]);
    assert Told(v.log, v.out[..i], p);
    ToldByEmissions(volume, v.log, v.start.value, v.out[..i], p);
  }

  lemma {:induction false} RefreshedGrows(out: seq<Emission>, i: nat, j: nat)
    requires i <= j <= |out|
    ensures Refreshed(out[..i]) <= Refreshed(out[..j])
    decreases j
  {
    if i < j {
      RefreshedGrows(out, i, j - 1);
      assert out[..j][..j - 1] == out[..j - 1];
    }
  }

  /** The log only grows, and the client starts from its end. */
  lemma {:induction false} StartIsLate(volume: string, w: World, run: seq<Action>, n: nat)
    requires PossibleRun(volume, w, run) && n <= |w.log|
    requires (w.start.Some? ==> w.start.value >= n) && (w.phase.Resolved? ==> w.phase.latest >= n)
    ensures Run(volume, w, run).start.Some? ==> Run(volume, w, run).start.value >= n
    decreases |run|
  {
    if run != [] {
      StartIsLate(volume, Step(volume, w, run[0]), run[1..], n);
    }
  }

  /** What was in the log before the client first ran is never shown. */
  lemma OldEntriesAreNotShown(volume: string, w: World, run: seq<Action>, i: nat, p: nat)
    requires Fresh(w) && PossibleRun(volume, w, run)
    requires i < |Run(volume, w, run).out| && Run(volume, w, run).out[i].origin == At(p)
    ensures p >= |w.log|
  {
    RunKeepsInv(volume, w, run);
    StartIsLate(volume, w, run, |w.log|);
    var v := Run(volume, w, run);
    assert Faithful(volume, v.sparing, v.log, v.start.value, v.out[..i], v.out[i]);
  }

  lemma {:induction false} SparingIsFixed(volume: string, w: World, run: seq<Action>)
    requires PossibleRun(volume, w, run)
    ensures Run(volume, w, run).sparing == w.sparing
    decreases |run|
  {
    if run != [] {
      SparingIsFixed(volume, Step(volume, w, run[0]), run[1..]);
    }
  }

  /** So with a sparing server, which never refreshes what it shows later, first deliveries
      follow the order of the log, restarts included. */
  lemma FirstDeliveriesFollowTheLog(volume: string, w: World, run: seq<Action>, i: nat, j: nat, q: nat, p: nat)
    requires Fresh(w) && PossibleRun(volume, w, run) && w.sparing
    requires var out := Run(volume, w, run).out;
      i < j < |out| && p < q && out[i].origin == At(q) && out[j].origin == At(p)
    ensures exists k :: 0 <= k < i && Run(volume, w, run).out[k].origin == At(p)
  {
    RunKeepsInv(volume, w, run);
    SparingIsFixed(volume, w, run);
    var v := Run(volume, w, run);
    assert Faithful(volume, true, v.log, v.start.value, v.out[..j], v.out[j]);
    RefreshedGrows(v.out, i, j);
    assert Faithful(volume, true, v.log, v.start.value, v.out[..i], v.out[i]);
    assert Told(v.log, v.out[..i], p);
    SeenWasEmitted(v.out[..i], p);
    var k :| 0 <= k < i && v.out[..i][k].origin == At(p);
    assert v.out[k].origin == At(p);
  }

  lemma {:induction false} OneMoreStep(volume: string, w: World, run: seq<Action>, a: Action)
    requires PossibleRun(volume, w, run)
    requires var v := Run(volume, w, run); CursorsInLog(v) && Enabled(v, a)
    ensures PossibleRun(volume, w, run + [a])
    ensures Run(volume, w, run + [a]) == Step(volume, Run(volume, w, run), a)
    decreases |run|
  {
    if run == [] {
      assert run + [a] == [a] && [a][1..] == [];
    } else {
      assert (run + [a])[0] == run[0] && (run + [a])[1..] == run[1..] + [a];
      OneMoreStep(volume, Step(volume, w, run[0]), run[1..], a);
    }
  }

  lemma Extend(volume: string, w: World, run: seq<Action>, v: World, a: Action) returns (longer: seq<Action>, v': World)
    requires PossibleRun(volume, w, run) && v == Run(volume, w, run) && CursorsInLog(v) && Enabled(v, a)
    ensures longer == run + [a] && PossibleRun(volume, w, longer) && v' == Run(volume, w, longer)
    ensures v' == Step(volume, v, a)
  {
    OneMoreStep(volume, w, run, a);
    longer := run + [a];
    v' := Step(volume, v, a);
  }

  /** A tick with one page shows its stretch and leaves its cursor to be stored. */
  lemma ExtendByTick(volume: string, w: World, run: seq<Action>, v: World, page: Page)
      returns (longer: seq<Action>, v': World)
    requires PossibleRun(volume, w, run) && v == Run(volume, w, run) && CursorsInLog(v) && v.phase.Idle?
    requires !page.refresh && page.events != [] && !page.more
    requires v.horizon <= v.phase.cursor && HonestStretch(v.log, v.phase.cursor, page)
    ensures PossibleRun(volume, w, longer) && v' == Run(volume, w, longer) && CursorsInLog(v')
    ensures v' ==
      v.(out := v.out + Stretch(volume, v.log, v.phase.cursor, page.eventId), phase := Storing(page.eventId))
  {
    longer, v' := Extend(volume, w, run, v, BeginTick);
    EmissionsAreStretch(volume, v', v.phase.cursor, page);
    longer, v' := Extend(volume, w, longer, v', Answer(page));
  }

  lemma LastEntryOf(volume: string, log: Log, a: nat, b: nat)
    requires a < b <= |log| && log[b - 1].Visible?
    ensures VisibleOf(log[a..b]) == VisibleOf(log[a..b - 1]) + [log[b - 1].event]
    ensures Stretch(volume, log, a, b) ==
      Stretch(volume, log, a, b - 1) + [Emission(MapVolumeEvent(volume, log[b - 1].event), At(b - 1))]
  {
    assert log[a..b][..b - a - 1] == log[a..b - 1];
  }

  /** The first two entries of a feed are visible, the first refreshed but its cursor lost. */
  lemma RefreshedAndNotStored(volume: string, first: RawEvent, second: RawEvent)
      returns (w: World, run: seq<Action>, v: World)
    ensures Fresh(w) && PossibleRun(volume, w, run) && v == Run(volume, w, run)
    ensures v == World([Visible(first), Visible(second)], 0, false, Some(0), Some(0), Idle(1),
                       [Emission(TreeRefresh(NodeUid(volume, volume)), Span(0, 1))])
  {
    w := World([], 0, false, None, None, Off, []);
    run, v := [], w;
    run, v := Extend(volume, w, run, v, Boot);
    run, v := Extend(volume, w, run, v, StoreStart(true));
    run, v := Extend(volume, w, run, v, Grow([Visible(first)]));
    run, v := Extend(volume, w, run, v, BeginTick);
    run, v := Extend(volume, w, run, v, Answer(Page(1, [], false, true)));
    run, v := Extend(volume, w, run, v, StoreCursor(false));
    run, v := Extend(volume, w, run, v, Grow([Visible(second)]));
  }

  /** A server that refreshes at will can break that order: what a refresh covered is
      shown for the first time behind a later entry, after a failed cursor write and a
      restart. */
  lemma RefreshAtWillBreaksTheOrder(volume: string, first: RawEvent, second: RawEvent)
      returns (w: World, run: seq<Action>)
    ensures Fresh(w) && PossibleRun(volume, w, run)
    ensures var out := Run(volume, w, run).out;
      |out| == 4 && out[0].origin == Span(0, 1) && out[1].origin == At(1)
      && out[2].origin == At(0) && out[3].origin == At(1)
  {
    var v;
    w, run, v := RefreshedAndNotStored(volume, first, second);
    LastEntryOf(volume, v.log, 1, 2);
    LastEntryOf(volume, v.log, 0, 1);
    LastEntryOf(volume, v.log, 0, 2);
    run, v := ExtendByTick(volume, w, run, v, Page(2, [second], false, false));
    run, v := Extend(volume, w, run, v, Crash);
    run, v := Extend(volume, w, run, v, Boot);
    run, v := ExtendByTick(volume, w, run, v, Page(2, [first, second], false, false));
  }

  // ----- One drain inside a run ----------------------------------------------------------------------

  function EventsOf(out: seq<Emission>): seq<DriveEvent> {
    seq(|out|, i requires 0 <= i < |out| => out[i].event)
  }

  /** What happens before a request is answered, and the answer. */
  datatype Served = Served(growth: Log, horizon: nat, response: Response)

  function ResponsesOf(script: seq<Served>): seq<Response> {
    seq(|script|, i requires 0 <= i < |script| => script[i].response)
  }

  /** Before each answer the log may grow and cursors may expire. */
  predicate AllHonest(log: Log, horizon: nat, sparing: bool, c: EventId, script: seq<Served>)
    decreases |script|
  {
    script == [] || (
      var now := log + script[0].growth;
      && horizon <= script[0].horizon <= |now|
      && (script[0].response.Ok? ==>
            var page := script[0].response.value;
            && HonestAnswer(now, script[0].horizon, sparing, c, page)
            && (PageVerdict(c, page).Continue? ==>
                  AllHonest(now, script[0].horizon, sparing, page.eventId, script[1..]))))
  }

  function BeforeAnswer(volume: string, w: World, served: Served): World
    requires CursorsInLog(w) && w.horizon <= served.horizon <= |w.log + served.growth|
  {
    Step(volume, Step(volume, w, Grow(served.growth)), Expire(served.horizon))
  }

  /** The run that serves a draining client until it stops. */
  function Play(volume: string, w: World, script: seq<Served>): World
    requires CursorsInLog(w) && w.phase.Draining? && AllHonest(w.log, w.horizon, w.sparing, w.phase.at, script)
    decreases |script|
  {
    if script == [] then w
    else
      var v := BeforeAnswer(volume, w, script[0]);
      match script[0].response
      case Err(e) => Step(volume, v, Fail(e))
      case Ok(page) =>
        var w' := Step(volume, v, Answer(page));
        if w'.phase.Draining? then Play(volume, w', script[1..]) else w'
  }

  /** The steps of a run show what the drain method shows, and leave the client where the
      method's result sends the polling loop, while the log grows and cursors expire. */
  lemma {:induction false} DrainIsARun(volume: string, w: World, script: seq<Served>)
    requires CursorsInLog(w) && w.phase.Draining? && AllHonest(w.log, w.horizon, w.sparing, w.phase.at, script)
    ensures
      var d := DrainOf(volume, w.phase.at, ResponsesOf(script));
      var v := Play(volume, w, script);
      && EventsOf(v.out) == EventsOf(w.out) + d.delivered +
           (if d.end == Failed(NotFound) then [TreeRemoval(NodeUid(volume, volume))] else [])
      && v.stored == w.stored
      && match d.end
         case Done(c, _) => v.phase == Storing(c)
         case Failed(NotFound) => v.phase == Off
         case Failed(Transient) => v.phase == Idle(w.phase.base)
         case Waiting(c) => v.phase == Draining(w.phase.base, c)
    decreases |script|
  {
    if script != [] {
      assert ResponsesOf(script)[1..] == ResponsesOf(script[1..]);
      if script[0].response.Ok? {
        var page := script[0].response.value;
        var w' := Step(volume, BeforeAnswer(volume, w, script[0]), Answer(page));
        AnswerShows(volume, w, script[0]);
        if w'.phase.Draining? {
          DrainIsARun(volume, w', script[1..]);
          ShownInTurn(EventsOf(w.out), PageEvents(volume, w.phase.at, page),
                      DrainOf(volume, page.eventId, ResponsesOf(script[1..])).delivered);
        }
      }
    }
  }

  /** A tick of the polling loop is a run: what it shows, the cursor it goes on from, the
      stored cursor and whether it stops are those of the steps. So what holds of runs holds
      of the loop. */
  lemma TickIsARun(volume: string, w: World, s: LoopState, script: seq<Served>, stores: bool)
      returns (drained: World, shown: seq<DriveEvent>)
    requires CursorsInLog(w) && w.phase == Idle(s.cursor) && w.stored == s.stored && !s.stopped
    requires AllHonest(w.log, w.horizon, w.sparing, s.cursor, script)
    ensures drained == Play(volume, Step(volume, w, BeginTick), script) && CursorsInLog(drained)
    ensures
      var s' := AfterTick(volume, s, false, ResponsesOf(script), stores);
      var v := if drained.phase.Storing? then Step(volume, drained, StoreCursor(stores)) else drained;
      && s'.delivered == s.delivered + shown && EventsOf(v.out) == EventsOf(w.out) + shown
      && v.stored == s'.stored && (s'.stopped <==> v.phase.Off?)
      && (v.phase.Idle? ==> v.phase.cursor == s'.cursor)
      && s'.retry == (if drained.phase.Storing? then 0 else if drained.phase.Idle? then s.retry + 1 else s.retry)
  {
    var begun := Step(volume, w, BeginTick);
    DrainIsARun(volume, begun, script);
    PlayKeepsCursors(volume, begun, script);
    drained := Play(volume, begun, script);
    var d := DrainOf(volume, s.cursor, ResponsesOf(script));
    shown := d.delivered + if d.end == Failed(NotFound) then [TreeRemoval(NodeUid(volume, volume))] else [];
    ShownInTurn(s.delivered, d.delivered, [TreeRemoval(NodeUid(volume, volume))]);
    ShownInTurn(EventsOf(w.out), d.delivered, [TreeRemoval(NodeUid(volume, volume))]);
    ShownInTurn(s.delivered, d.delivered, []);
    ShownInTurn(EventsOf(w.out), d.delivered, []);
  }

  lemma {:induction false} PlayKeepsCursors(volume: string, w: World, script: seq<Served>)
    requires CursorsInLog(w) && w.phase.Draining? && AllHonest(w.log, w.horizon, w.sparing, w.phase.at, script)
    ensures CursorsInLog(Play(volume, w, script))
    decreases |script|
  {
    if script != [] && script[0].response.Ok? {
      AnswerShows(volume, w, script[0]);
      var w' := Step(volume, BeforeAnswer(volume, w, script[0]), Answer(script[0].response.value));
      if w'.phase.Draining? {
        PlayKeepsCursors(volume, w', script[1..]);
      }
    }
  }

  /** One answer shows its page and moves the drain as the page says. */
  lemma AnswerShows(volume: string, w: World, served: Served)
    requires CursorsInLog(w) && w.phase.Draining? && w.horizon <= served.horizon <= |w.log + served.growth|
    requires served.response.Ok?
    requires HonestAnswer(w.log + served.growth, served.horizon, w.sparing, w.phase.at, served.response.value)
    ensures
      var page := served.response.value;
      var w' := Step(volume, BeforeAnswer(volume, w, served), Answer(page));
      && EventsOf(w'.out) == EventsOf(w.out) + PageEvents(volume, w.phase.at, page)
      && w'.stored == w.stored && w'.log == w.log + served.growth
      && w'.horizon == served.horizon && w'.sparing == w.sparing
      && CursorsInLog(w')
      && var verdict := PageVerdict(w.phase.at, page);
         w'.phase == if verdict.Continue? then Draining(w.phase.base, verdict.cursor) else Storing(verdict.cursor)
  {
    var v := BeforeAnswer(volume, w, served);
    EmissionsShowThePage(volume, v, v.phase.at, served.response.value);
    EventsOfJoin(w.out, Emissions(volume, v, v.phase.at, served.response.value));
  }

  lemma EventsOfJoin(a: seq<Emission>, b: seq<Emission>)
    ensures EventsOf(a + b) == EventsOf(a) + EventsOf(b)
  {
  }

  lemma ShownInTurn(a: seq<DriveEvent>, b: seq<DriveEvent>, c: seq<DriveEvent>)
    ensures (a + b) + c == a + (b + c)
  {
  }

  lemma EmissionsShowThePage(volume: string, w: World, c: EventId, page: Page)
    requires HonestAnswer(w.log, w.horizon, w.sparing, c, page) && c <= |w.log|
    ensures EventsOf(Emissions(volume, w, c, page)) == PageEvents(volume, c, page)
  {
    if !page.refresh && page.events != [] {
      PositionsMatch(volume, w.log, c, page.eventId);
    }
  }
}
