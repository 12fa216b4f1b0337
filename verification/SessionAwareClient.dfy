/**
 The client that adds the session's token to each request, refreshes once on a 401, and
 replays the request once. Other handlers and the background loop may refresh between its
 steps.
 */
module SessionAwareClient {
  import opened Results
  import opened HttpRetry
  import opened SessionProtocol
  import opened SessionRefresh

  datatype ClientError =
    | FromTransport(cause: HttpError) | InsecureUrl | LoginExpired | RefreshFailed(reason: RefreshError)

  type Outcomes = Result<Answer, ClientError>

  /** A blob goes to an absolute link, which must not be plain http. */
  predicate Refused(path: string, blob: bool) {
    blob && "http://" <= path
  }

  function FromReply(r: Result<Answer, HttpError>): Outcomes {
    match r
    case Ok(answer) => Ok(answer)
    case Err(e) => Err(FromTransport(e))
  }

  /** `r` is what one transport call with these replies comes to. */
  ghost predicate CallEnds(maxAttempts: nat, replies: Replies, r: Outcomes) {
    exists answer :: Outcome(maxAttempts, replies, answer) && r == FromReply(answer)
  }

  class SessionClient {
    const session: Session
    /** The tokens of the transport calls made, in order. */
    ghost var calls: seq<Generation>

    constructor (session: Session)
      ensures this.session == session && calls == []
    {
      this.session := session;
      calls := [];
    }

    /** One transport call with the token of this moment. */
    method Call(replies: Replies, path: string, blob: bool) returns (r: Outcomes, sends: nat, slept: nat)
      modifies this`calls
      ensures calls == old(calls) + [session.memory]
      ensures r == Err(InsecureUrl) <==> blob && "http://" <= path
      ensures r == Err(InsecureUrl) ==> sends == 0
      ensures sends <= session.maxAttempts && 2 * slept <= 3 * Pauses(session.maxAttempts)
      ensures !(blob && "http://" <= path) && session.maxAttempts > 0 ==> CallEnds(session.maxAttempts, replies, r)
      ensures session.maxAttempts == 0 ==> r.Err?
      ensures r.Err? ==> r.error.FromTransport? || r.error.InsecureUrl?
    {
      calls := calls + [session.memory];
      if Refused(path, blob) {
        return Err(InsecureUrl), 0, 0;
      }
      var answer;
      answer, sends, slept := SendWithRetry(session.maxAttempts, replies);
      PausesGrow(sends, session.maxAttempts);
      r := FromReply(answer);
    }

    /** Refreshes by others, one after the other under the lock. */
    method Others(rounds: seq<Circumstances>)
      modifies session
      ensures old(session.memory) <= session.memory
    {
      for i := 0 to |rounds|
        invariant old(session.memory) <= session.memory
      {
        var _, _, _, _ := session.DoRefresh(rounds[i].deliveries, rounds[i].writes);
      }
    }

    /** A JSON request, or a blob request: the same protocol in both. There is a refresh of
        its own exactly when the first call answers 401, at most one, and exactly when it
        succeeds the request is replayed once, with a newer token than the first, however
        many refreshes others squeeze in. What the replay answers is returned, a second 401
        included. `held` is the session as its own refresh found it: the login is reported as
        expired exactly when that refresh is rejected. */
    method Request(first: Replies, before: seq<Circumstances>, refresh: Circumstances, after: seq<Circumstances>,
                   second: Replies, path: string, blob: bool)
        returns (r: Outcomes, sends: nat, slept: nat, ghost refreshed: bool, ghost held: World)
      modifies this, session
      ensures !(blob && "http://" <= path) && session.maxAttempts > 0 ==>
        (refreshed <==> exists a :: Outcome(session.maxAttempts, first, a) && a.Ok? && a.value.status == 401)
      ensures blob && "http://" <= path ==> r == Err(InsecureUrl) && !refreshed && sends == 0
      ensures !refreshed ==>
        && calls == old(calls) + [old(session.memory)] && session.Now() == old(session.Now())
        && (!(blob && "http://" <= path) && session.maxAttempts > 0 ==> CallEnds(session.maxAttempts, first, r))
      ensures r == Err(LoginExpired) <==> refreshed && EndsExpired(session.maxAttempts, refresh, held)
      ensures refreshed ==> held.memory.Some? && old(session.memory) <= held.memory.value
      ensures refreshed && !EndsRenewed(session.maxAttempts, refresh, held) ==>
        calls == old(calls) + [old(session.memory)] && r.Err? && (r.error.LoginExpired? || r.error.RefreshFailed?)
      ensures refreshed && EndsRenewed(session.maxAttempts, refresh, held) ==>
        && calls == old(calls) + [old(session.memory), session.memory] && old(session.memory) < session.memory
        && CallEnds(session.maxAttempts, second, r)
      ensures sends <= 3 * session.maxAttempts && 2 * slept <= 9 * Pauses(session.maxAttempts)
    {
      refreshed, held := false, session.Now();
      r, sends, slept := Call(first, path, blob);
      OnlyOneOutcome(session.maxAttempts, first, r);
      if r.Err? || r.value.status != 401 {
        return;
      }
      refreshed := true;
      Others(before);
      held := session.Now();
      var token, moreSends, moreSleep, _ := session.DoRefresh(refresh.deliveries, refresh.writes);
      RefreshEnds(session.maxAttempts, refresh, held, moreSends);
      PausesGrow(moreSends, session.maxAttempts);
      sends, slept := sends + moreSends, slept + moreSleep;
      if token.Err? {
        r := Err(if token.error.SessionExpired? then LoginExpired else RefreshFailed(token.error));
        return;
      }
      Others(after);
      r, moreSends, moreSleep := Call(second, path, blob);
      sends, slept := sends + moreSends, slept + moreSleep;
    }
  }

  lemma OnlyOneOutcome(maxAttempts: nat, replies: Replies, r: Outcomes)
    ensures CallEnds(maxAttempts, replies, r) ==>
      forall a :: Outcome(maxAttempts, replies, a) ==> r == FromReply(a)
  {
    if CallEnds(maxAttempts, replies, r) {
      var answer :| Outcome(maxAttempts, replies, answer) && r == FromReply(answer);
      forall a | Outcome(maxAttempts, replies, a) ensures r == FromReply(a) {
        OutcomeIsDetermined(maxAttempts, replies, a, answer);
      }
    }
  }
}
