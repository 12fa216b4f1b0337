/**
 The refresh as the program runs it: one request through the transport, which may send the
 same token again, and then the writes.
 */
module SessionRefresh {
  import opened Results
  import opened HttpRetry
  import opened SessionLosses
  import opened SessionProtocol

  // ----- One call of the refresh endpoint ------------------------------------------------------------

  const TOKEN_BODY: Body := "token"

  /** A reply from which the client learns what the server decided. */
  predicate IsDecision(r: Reply) {
    r.Response? && r.body.Some? && (r.status in {401, 422} || r.body.value == TOKEN_BODY)
  }

  /** What becomes of one send: the server never acts on it, it acts and its answer is
      lost, or its answer arrives. In the first two cases the client sees any reply that
      decides nothing: a timeout, a server error, a broken body or an unreadable one. A
      refusal that arrives has status 422 or 401. */
  datatype Delivery = Missed(seen: Reply) | Unanswered(seen: Reply) | Answered(unprocessable: bool)

  /** No decision can be seen where none arrived. */
  function Undecided(r: Reply): Reply {
    if IsDecision(r) then TimeoutOrConnect else r
  }

  type Deliveries = nat -> Delivery

  predicate ActedBefore(ds: Deliveries, n: nat) {
    exists i :: 0 <= i < n && !ds(i).Missed?
  }

  /** The reply to the `i`-th send. The server takes the token once, if it is current. */
  function ReplyTo(ds: Deliveries, current: bool, i: nat): Reply {
    match ds(i)
    case Missed(seen) => Undecided(seen)
    case Unanswered(seen) => Undecided(seen)
    case Answered(unprocessable) =>
      if current && !ActedBefore(ds, i) then Response(200, Some(TOKEN_BODY), None)
      else Response(if unprocessable then 422 else 401, Some(""), None)
  }

  ghost function RepliesOf(ds: Deliveries, current: bool): Replies {
    (i: nat) => ReplyTo(ds, current, i)
  }

  /** The first `n` sends whose answer was lost. */
  function LostCount(ds: Deliveries, n: nat): nat {
    if n == 0 then 0 else LostCount(ds, n - 1) + (if ds(n - 1).Unanswered? then 1 else 0)
  }

  lemma {:induction false} LostMeansActed(ds: Deliveries, n: nat)
    requires forall i :: 0 <= i < n ==> !ds(i).Answered?
    ensures LostCount(ds, n) > 0 <==> ActedBefore(ds, n)
  {
    if n > 0 {
      LostMeansActed(ds, n - 1);
      assert !ds(n - 1).Missed? ==> ActedBefore(ds, n);
      if ActedBefore(ds, n - 1) {
        var i :| 0 <= i < n - 1 && !ds(i).Missed?;
        assert 0 <= i < n && !ds(i).Missed?;
      }
    }
  }

  // ----- The refresh as the program runs it -----------------------------------------------------

  datatype RefreshError = SessionExpired | HttpFailure | WriteFailure

  /** Which of the writes of a refresh succeed, and whether clearing the keyring does. */
  datatype Writes = Writes(clearing: bool, keyring: bool, secret: bool, session: bool)

  /** What a refresh meets outside. */
  datatype Circumstances = Circumstances(deliveries: Deliveries, writes: Writes)

  /** After `sends` sends the answer arrives and says no: the token was old, or an earlier
      send of the same request had been acted on. */
  ghost predicate Rejects(ds: Deliveries, current: bool, sends: nat) {
    sends > 0 && ds(sends - 1).Answered? && (!current || ActedBefore(ds, sends - 1))
  }

  /** ... and says yes: the token was current and no earlier send had been acted on. */
  ghost predicate Accepts(ds: Deliveries, current: bool, sends: nat) {
    sends > 0 && ds(sends - 1).Answered? && current && !ActedBefore(ds, sends - 1)
  }

  class Session {
    const maxAttempts: nat
    var server: Generation
    var keyring: Option<Generation>
    var secret: Generation
    var session: Generation
    var memory: Generation
    ghost var tried: seq<Generation>

    constructor (maxAttempts: nat, generation: Generation, keyring: Option<Generation>)
      ensures this.maxAttempts == maxAttempts
      ensures Now() == World(generation, keyring, generation, generation, Some(generation), Idle, [])
    {
      this.maxAttempts := maxAttempts;
      server, secret, session, memory := generation, generation, generation, generation;
      this.keyring := keyring;
      tried := [];
    }

    ghost function Now(): World
      reads this
    {
      World(server, keyring, secret, session, Some(memory), Idle, tried)
    }

    /** One request to the refresh endpoint, sent as often as the transport sends it:
        Some(next) on success, None when rejected. `lost` sends reached the server and
        were not answered. */
    method Exchange(token: Generation, ds: Deliveries)
        returns (r: Result<Option<Generation>, RefreshError>, sends: nat, slept: nat, ghost lost: nat)
      modifies this`server, this`tried
      ensures sends <= maxAttempts && WithinBudget(slept, sends)
      ensures maxAttempts > 0 ==> StopsAfter(maxAttempts, RepliesOf(ds, token == old(server)), sends)
      ensures r.Ok? <==> sends > 0 && ds(sends - 1).Answered?
      ensures r.Ok? ==> (r.value.Some? <==> token == old(server) && !ActedBefore(ds, sends - 1))
      ensures r.Ok? ==> (lost > 0 <==> ActedBefore(ds, sends - 1))
      ensures match r
        case Ok(Some(next)) => lost == 0 && next == server == old(server) + 1 && tried == old(tried) + [token]
        case Ok(None) =>
          && (token != old(server) || lost > 0)
          && server == Advanced(old(server), token, lost) && tried == old(tried) + Shown(token, lost) + [token]
        case Err(e) =>
          && e == HttpFailure
          && server == Advanced(old(server), token, lost) && tried == old(tried) + Shown(token, lost)
    {
      var current := token == server;
      var answer;
      answer, sends, slept := SendWithRetry(maxAttempts, (i: nat) => ReplyTo(ds, current, i));
      assert SameReplies(RepliesOf(ds, current), (i: nat) => ReplyTo(ds, current, i));
      SendsBeforeTheLast(maxAttempts, ds, current, sends);
      ghost var answered := sends > 0 && ds(sends - 1).Answered?;
      lost := LostCount(ds, sends);
      LostMeansActed(ds, if answered then sends - 1 else sends);
      tried := tried + Shown(token, lost);
      if answer.Ok? && (answer.value.status == 401 || answer.value.status == 422) {
        tried := tried + [token];
        server := Advanced(server, token, LostCount(ds, sends));
        return Ok(None), sends, slept, lost;
      }
      if answer.Err? || answer.value.body != TOKEN_BODY {
        server := Advanced(server, token, LostCount(ds, sends));
        return Err(HttpFailure), sends, slept, lost;
      }
      tried := tried + [token];
      server := server + 1;
      r := Ok(Some(server));
    }

    /** A refresh under the lock. `run` is what happened, as steps of the protocol. It
        reports an expired session exactly when an answer arrives and the token was old,
        or had been taken by an earlier send of the same request whose answer was lost; a
        failed request exactly when no answer arrives; and it succeeds exactly when the
        answer is a token and the two files are written. */
    method DoRefresh(ds: Deliveries, writes: Writes)
        returns (r: Result<Generation, RefreshError>, sends: nat, slept: nat, ghost run: seq<Event>)
      modifies this
      ensures IsRun(old(Now()), run, Now())
      ensures sends <= maxAttempts && WithinBudget(slept, sends)
      ensures maxAttempts > 0 ==> StopsAfter(maxAttempts, RepliesOf(ds, old(memory) == old(server)), sends)
      ensures r.Ok? ==> r.value == memory == secret == session == server == old(server) + 1
      ensures r.Ok? ==> old(memory) == old(server)
      ensures r.Err? ==> memory == old(memory)
      ensures r == Err(SessionExpired) <==> Rejects(ds, old(memory) == old(server), sends)
      ensures r == Err(HttpFailure) <==> sends == 0 || !ds(sends - 1).Answered?
      ensures r.Ok? <==> Accepts(ds, old(memory) == old(server), sends) && writes.secret && writes.session
      ensures keyring ==
        if Rejects(ds, old(memory) == old(server), sends) && writes.clearing then None
        else if Accepts(ds, old(memory) == old(server), sends) && writes.keyring then Some(server)
        else old(keyring)
      ensures secret ==
        if Accepts(ds, old(memory) == old(server), sends) && writes.secret then server else old(secret)
      ensures session == if r.Ok? then server else old(session)
      ensures r == Err(SessionExpired) ==>
        && secret == old(secret) && memory != server
        && (old(memory) == old(server) <==> RotatesUnseen(old(Now()), run))
    {
      ghost var start, at := Now(), Now();
      run := [];
      run, at := Extend(start, run, at, Begin);
      var reply;
      ghost var lost;
      reply, sends, slept, lost := Exchange(memory, ds);
      run, at := LoseReplies(start, run, at, lost);
      if reply.Err? {
        run, at := Extend(start, run, at, GiveUp);
        return Err(HttpFailure), sends, slept, run;
      }
      if reply.value.None? {
        run := Expire(writes.clearing, start, lost, run, at);
        return Err(SessionExpired), sends, slept, run;
      }
      run, at := Extend(start, run, at, Accept);
      r, run := Persist(reply.value.value, writes, start, run, at);
    }

    /** The rejected refresh forgets the keyring entry if it can. */
    method Expire(clearing: bool, ghost start: World, ghost lost: nat, ghost before: seq<Event>,
                  ghost reached: World)
        returns (ghost run: seq<Event>)
      requires reached == Now().(phase := reached.phase, tried := reached.tried) && start.phase.Idle?
      requires before == [Begin] + LostReplies(lost) && IsRun(start, before, reached)
      requires reached.phase.Asking? && reached.phase.token != server && tried == reached.tried + [reached.phase.token]
      modifies this`keyring
      ensures IsRun(start, run, Now())
      ensures keyring == if clearing then None else old(keyring)
      ensures start.memory == Some(start.server) <==> RotatesUnseen(start, run)
    {
      ghost var at;
      run, at := Extend(start, before, reached, Reject(clearing));
      assert run == RejectedRun(lost, clearing);
      RejectedThoughCurrentExactlyWhen(start, lost, clearing, at);
      if clearing {
        keyring := None;
      }
    }

    /** The writes after a successful exchange, and then the memory. */
    method Persist(next: Generation, writes: Writes, ghost start: World, ghost before: seq<Event>, ghost reached: World)
        returns (r: Result<Generation, RefreshError>, ghost run: seq<Event>)
      requires reached == Now().(phase := Rotated(next)) && IsRun(start, before, reached)
      modifies this`keyring, this`secret, this`session, this`memory
      ensures IsRun(start, run, Now())
      ensures r.Ok? ==> r.value == memory == session == next
      ensures r.Err? ==> r == Err(WriteFailure) && memory == old(memory) && session == old(session)
      ensures r.Ok? <==> writes.secret && writes.session
      ensures keyring == (if writes.keyring then Some(next) else old(keyring))
      ensures secret == if writes.secret then next else old(secret)
    {
      ghost var at := reached;
      run, at := Extend(start, before, at, SaveKeyring(writes.keyring));
      if writes.keyring {
        keyring := Some(next);
      }
      run, at := Extend(start, run, at, SaveSecret(writes.secret));
      if !writes.secret {
        return Err(WriteFailure), run;
      }
      secret := next;
      run, at := Extend(start, run, at, SaveSession(writes.session));
      if !writes.session {
        return Err(WriteFailure), run;
      }
      session := next;
      run, at := Extend(start, run, at, Adopt);
      memory := next;
      r := Ok(next);
    }
  }

  /** The number of sends of a refresh that begins in `w`. */
  ghost predicate Sends(maxAttempts: nat, ds: Deliveries, w: World, n: nat) {
    StopsAfter(maxAttempts, RepliesOf(ds, w.memory == Some(w.server)), n)
  }

  /** A refresh that begins in `w` is rejected. */
  ghost predicate EndsExpired(maxAttempts: nat, c: Circumstances, w: World) {
    exists n: nat :: Sends(maxAttempts, c.deliveries, w, n) && Rejects(c.deliveries, w.memory == Some(w.server), n)
  }

  /** A refresh that begins in `w` ends with a new token in memory. */
  ghost predicate EndsRenewed(maxAttempts: nat, c: Circumstances, w: World) {
    c.writes.secret && c.writes.session &&
    exists n: nat :: Sends(maxAttempts, c.deliveries, w, n) && Accepts(c.deliveries, w.memory == Some(w.server), n)
  }

  lemma RefreshEnds(maxAttempts: nat, c: Circumstances, w: World, n: nat)
    ensures Sends(maxAttempts, c.deliveries, w, n) ==>
      && (EndsExpired(maxAttempts, c, w) <==> Rejects(c.deliveries, w.memory == Some(w.server), n))
      && (EndsRenewed(maxAttempts, c, w) <==>
            Accepts(c.deliveries, w.memory == Some(w.server), n) && c.writes.secret && c.writes.session)
  {
    if Sends(maxAttempts, c.deliveries, w, n) {
      forall m: nat | Sends(maxAttempts, c.deliveries, w, m) ensures m == n {
        SendsAreDetermined(maxAttempts, RepliesOf(c.deliveries, w.memory == Some(w.server)), m, n);
      }
    }
  }

  ghost predicate SameReplies(a: Replies, b: Replies) {
    forall i: nat :: a(i) == b(i)
  }

  /** An answer ends the sends, so no send before the last was answered. */
  lemma SendsBeforeTheLast(maxAttempts: nat, ds: Deliveries, current: bool, sends: nat)
    requires maxAttempts == 0 ==> sends == 0
    requires maxAttempts > 0 ==> StopsAfter(maxAttempts, RepliesOf(ds, current), sends)
    ensures forall i :: 0 <= i < sends - 1 ==> !ds(i).Answered?
  {
    forall i | 0 <= i < sends - 1 ensures !ds(i).Answered? {
      assert Retryable(RepliesOf(ds, current)(i));
    }
  }
}
