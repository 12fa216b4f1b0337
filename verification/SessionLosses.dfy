/**
 Replies lost on the way: what becomes of the token that a refresh shows again.
 */
module SessionLosses {
  import opened Results
  import opened SessionProtocol

  lemma {:induction false} LoseReplies(w: World, run: seq<Event>, at: World, n: nat)
      returns (run': seq<Event>, at': World)
    requires IsRun(w, run, at) && at.phase.Asking?
    ensures run' == run + LostReplies(n) && IsRun(w, run', at')
    ensures at' == AfterLosses(at, n)
    decreases n
  {
    if n == 0 {
      run', at' := run, at;
      assert run + LostReplies(0) == run && at.tried + Shown(at.phase.token, 0) == at.tried;
    } else {
      run', at' := Extend(w, run, at, LoseReply);
      run', at' := LoseReplies(w, run', at', n - 1);
      assert run + LostReplies(n) == run + [LoseReply] + LostReplies(n - 1);
      assert at.tried + Shown(at.phase.token, n) == at.tried + [at.phase.token] + Shown(at.phase.token, n - 1);
    }
  }

  /** A refresh whose first `lost` sends were not answered and that was then rejected. */
  function RejectedRun(lost: nat, cleared: bool): seq<Event> {
    [Begin] + LostReplies(lost) + [Reject(cleared)]
  }

  /** A refresh that is rejected had shown the current token if and only if an earlier
      send of it was taken by the server and its reply lost. */
  lemma RejectedThoughCurrentExactlyWhen(w: World, lost: nat, cleared: bool, end: World)
    requires w.phase.Idle? && IsRun(w, RejectedRun(lost, cleared), end)
    ensures w.memory == Some(w.server) <==> RotatesUnseen(w, RejectedRun(lost, cleared))
    ensures w.memory == Some(w.server) ==> lost > 0
  {
    var run := RejectedRun(lost, cleared);
    var rest := run[1..];
    assert run[0] == Begin && rest == LostReplies(lost) + [Reject(cleared)];
    var asking := After(w, Begin);
    assert IsRun(asking, rest, end);
    assert rest[0] == if lost == 0 then Reject(cleared) else LoseReply;
    if asking.phase.token != asking.server {
      StaleNeverRotates(asking, lost, cleared);
    }
  }

  lemma {:induction false} StaleNeverRotates(w: World, lost: nat, cleared: bool)
    requires w.phase.Asking? && w.phase.token != w.server
    ensures !RotatesUnseen(w, LostReplies(lost) + [Reject(cleared)])
    decreases lost
  {
    var run := LostReplies(lost) + [Reject(cleared)];
    if lost > 0 {
      assert run[1..] == LostReplies(lost - 1) + [Reject(cleared)];
      StaleNeverRotates(After(w, LoseReply), lost - 1, cleared);
    } else {
      assert run[1..] == [];
    }
  }
}
