/**
 What holds along every run of the refresh protocol, with crashes and failed writes.
 */
module SessionRuns {
  import opened Results
  import opened SessionLosses
  import opened SessionProtocol

  /** No store is ahead of the server, and a refresh under way holds what it says. */
  predicate Inv(w: World) {
    && w.secret <= w.server && w.session <= w.server
    && (w.keyring.Some? ==> w.keyring.value <= w.server)
    && (w.memory.Some? ==> w.memory.value <= w.server)
    && (w.memory.None? ==> w.phase.Idle?)
    && match w.phase
       case Idle => true
       case Asking(token) => w.memory == Some(token)
       case Rotated(next) => next == w.server && w.memory == Some(next - 1)
       case KeyringDone(next) => next == w.server && w.memory == Some(next - 1)
       case SecretDone(next) => next == w.server == w.secret && w.memory == Some(next - 1)
       case SessionDone(next) => next == w.server == w.secret == w.session && w.memory == Some(next - 1)
  }

  predicate MemoryWithinSecret(w: World) {
    w.memory.Some? ==> w.memory.value <= w.secret
  }

  lemma StepKeepsInv(w: World, e: Event)
    requires Inv(w) && Enabled(w, e)
    ensures Inv(After(w, e))
  {
  }

  lemma {:induction false} RunKeepsInv(w: World, run: seq<Event>, w': World)
    requires Inv(w) && IsRun(w, run, w')
    ensures Inv(w')
    decreases |run|
  {
    if run != [] {
      StepKeepsInv(w, run[0]);
      RunKeepsInv(After(w, run[0]), run[1..], w');
    }
  }

  /** A restart that takes a token from the keyring which the secret file never got. */
  predicate OvertakesSecret(w: World, e: Event) {
    e.Restart? && w.keyring.Some? && w.keyring.value > w.secret
  }

  /** memory <= secret file <= server survives every step except exactly a restart from
      a keyring that is ahead of the secret file. */
  lemma StepKeepsOrderExactlyWhen(w: World, e: Event)
    requires Inv(w) && MemoryWithinSecret(w) && Enabled(w, e)
    ensures Inv(After(w, e)) && (MemoryWithinSecret(After(w, e)) <==> !OvertakesSecret(w, e))
  {
    StepKeepsInv(w, e);
  }

  predicate NeverOvertakes(w: World, run: seq<Event>)
    decreases |run|
  {
    run == [] || (Enabled(w, run[0]) && !OvertakesSecret(w, run[0]) && NeverOvertakes(After(w, run[0]), run[1..]))
  }

  lemma {:induction false} RunKeepsOrder(w: World, run: seq<Event>, w': World)
    requires Inv(w) && MemoryWithinSecret(w) && IsRun(w, run, w') && NeverOvertakes(w, run)
    ensures MemoryWithinSecret(w') && w'.secret <= w'.server
    decreases |run|
  {
    RunKeepsInv(w, run, w');
    if run != [] {
      StepKeepsOrderExactlyWhen(w, run[0]);
      RunKeepsOrder(After(w, run[0]), run[1..], w');
    }
  }

  /** The exception is reachable: a crash between the keyring and the secret file. */
  lemma CrashBetweenTheWrites(w: World) returns (run: seq<Event>, w': World)
    requires LoggedIn(w)
    ensures IsRun(w, run, w') && Inv(w') && !MemoryWithinSecret(w')
  {
    run, w' := [], w;
    run, w' := Extend(w, run, w', Begin);
    run, w' := Extend(w, run, w', Accept);
    run, w' := Extend(w, run, w', SaveKeyring(true));
    run, w' := Extend(w, run, w', Crash(true));
    run, w' := Extend(w, run, w', Restart);
  }

  // ----- Falling behind -------------------------------------------------------------------------

  /** The process holds an old token and no refresh is about to replace it. */
  predicate Stale(w: World, token: Generation) {
    && w.memory == Some(token) && token < w.server
    && (w.phase.Idle? || w.phase == Asking(token))
  }

  lemma StaleStep(w: World, e: Event, token: Generation)
    requires Stale(w, token) && Enabled(w, e) && !e.Crash?
    ensures Stale(After(w, e), token) && After(w, e).server == w.server && !e.Accept?
  {
  }

  /** Once behind the server, the process stays behind: no refresh of its is accepted
      again before it restarts. */
  lemma {:induction false} StaleIsStuck(w: World, run: seq<Event>, w': World, token: Generation)
    requires Stale(w, token) && IsRun(w, run, w') && forall i :: 0 <= i < |run| ==> !run[i].Crash?
    ensures Stale(w', token) && w'.server == w.server
    ensures forall i :: 0 <= i < |run| ==> !run[i].Accept?
    decreases |run|
  {
    if run != [] {
      StaleStep(w, run[0], token);
      StaleIsStuck(After(w, run[0]), run[1..], w', token);
      assert forall i :: 0 < i < |run| ==> run[i] == run[1..][i - 1];
    }
  }

  /** The ways of falling behind without a restart: a lost reply, a failed write of the
      secret file or of the session file. */
  predicate Drops(w: World, e: Event) {
    (e.LoseReply? && w.phase == Asking(w.server)) || (e.SaveSecret? && !e.ok) || (e.SaveSession? && !e.ok)
  }

  /** The process holds the current token, or a refresh is about to give it to it. */
  predicate Current(w: World) {
    && Inv(w) && w.memory.Some?
    && (w.phase.Idle? || w.phase.Asking? ==> w.memory == Some(w.server))
  }

  lemma CurrentIsLostExactlyBy(w: World, e: Event)
    requires Current(w) && Enabled(w, e) && !e.Crash?
    ensures Current(After(w, e)) <==> !Drops(w, e)
    ensures Drops(w, e) ==> Stale(After(w, e), w.memory.value)
  {
    StepKeepsInv(w, e);
  }

  // ----- The chain of tokens ------------------------------------------------------------------------

  predicate Smooth(w: World, run: seq<Event>)
    decreases |run|
  {
    run == [] ||
    (Enabled(w, run[0]) && !run[0].Crash? && !Drops(w, run[0]) && Smooth(After(w, run[0]), run[1..]))
  }

  function Consecutive(first: Generation, end: Generation): seq<Generation>
    requires first <= end
  {
    seq(end - first, i requires 0 <= i < end - first => first + i)
  }

  /** Without lost replies and failed writes (of the keyring's they may fail), the tokens
      shown to the server by all the handlers and the loop are consecutive, each the one
      issued by the success before, and none is rejected. */
  lemma {:induction false} TokensFormAChain(w: World, run: seq<Event>, w': World)
    requires Current(w) && IsRun(w, run, w') && Smooth(w, run)
    ensures Current(w')
    ensures forall i :: 0 <= i < |run| ==> !run[i].Reject? && !run[i].LoseReply?
    ensures w.server <= w'.server
    ensures w'.tried == w.tried + Consecutive(w.server, w'.server)
    decreases |run|
  {
    if run != [] {
      var next := After(w, run[0]);
      CurrentIsLostExactlyBy(w, run[0]);
      TokensFormAChain(next, run[1..], w');
      assert forall i :: 0 < i < |run| ==> run[i] == run[1..][i - 1];
      ServerGrows(next, run[1..], w');
      ChainStep(w, run[0], w'.server);
    }
  }

  lemma {:induction false} ServerGrows(w: World, run: seq<Event>, w': World)
    requires IsRun(w, run, w')
    ensures w.server <= w'.server
    decreases |run|
  {
    if run != [] {
      ServerGrows(After(w, run[0]), run[1..], w');
    }
  }

  lemma ChainStep(w: World, e: Event, last: Generation)
    requires Current(w) && Enabled(w, e) && !e.Crash? && !Drops(w, e) && After(w, e).server <= last
    ensures var next := After(w, e);
      next.tried + Consecutive(next.server, last) == w.tried + Consecutive(w.server, last)
  {
    var next := After(w, e);
    if e.Accept? {
      assert Consecutive(w.server, last) == [w.server] + Consecutive(next.server, last);
    }
  }

  // ----- Restarting --------------------------------------------------------------------------------------

  /** The keyring holds the current token, except between the reply and its write. */
  predicate KeyringCurrent(w: World) {
    && Inv(w)
    && (w.keyring == Some(w.server) || w.phase.Rotated?)
    && (w.memory.Some? && (w.phase.Idle? || w.phase.Asking?) ==> w.memory == Some(w.server))
  }

  /** Any step but a lost reply, a failed write, or a crash between the reply and the
      keyring write. */
  predicate Harmless(w: World, e: Event) {
    && !Drops(w, e) && (e.SaveKeyring? ==> e.ok)
    && (e.Crash? ==> e.keyringSurvives && !w.phase.Rotated?)
  }

  predicate AllHarmless(w: World, run: seq<Event>)
    decreases |run|
  {
    run == [] || (Enabled(w, run[0]) && Harmless(w, run[0]) && AllHarmless(After(w, run[0]), run[1..]))
  }

  /** Crashes after the keyring write do no harm: every restart resumes with the current
      token, and no refresh is ever rejected. */
  lemma {:induction false} CrashesAfterTheKeyringAreHarmless(w: World, run: seq<Event>, w': World)
    requires KeyringCurrent(w) && IsRun(w, run, w') && AllHarmless(w, run)
    ensures KeyringCurrent(w')
    ensures forall i :: 0 <= i < |run| ==> !run[i].Reject?
    ensures w'.memory.None? ==> Resumed(w') == w'.server
    decreases |run|
  {
    if run != [] {
      StepKeepsInv(w, run[0]);
      assert KeyringCurrent(After(w, run[0]));
      CrashesAfterTheKeyringAreHarmless(After(w, run[0]), run[1..], w');
      assert forall i :: 0 < i < |run| ==> run[i] == run[1..][i - 1];
    }
  }

  /** A restart resumes with the newest stored token if and only if the keyring is empty
      or not behind the secret file. */
  lemma ResumesNewestExactlyWhen(w: World)
    requires Inv(w) && Enabled(w, Restart)
    ensures var newest := if w.keyring.Some? && w.keyring.value > w.secret then w.keyring.value else w.secret;
      After(w, Restart).memory == Some(newest) <==> w.keyring.None? || w.keyring.value >= w.secret
  {
  }

  /** The keyring holds a token older than the one in the secret file. */
  predicate Behind(w: World) {
    w.keyring.Some? && w.keyring.value < w.secret
  }

  predicate KeyringNeverSaved(run: seq<Event>) {
    run == [] || (run[0] != SaveKeyring(true) && KeyringNeverSaved(run[1..]))
  }

  predicate SecretSaved(run: seq<Event>) {
    run != [] && (run[0] == SaveSecret(true) || SecretSaved(run[1..]))
  }

  /** A keyring write failed, a later write of the secret file did not, and no keyring write
      since the failed one has succeeded. */
  predicate SecretOvertakes(run: seq<Event>) {
    run != [] &&
    ((run[0] == SaveKeyring(false) && KeyringNeverSaved(run[1..]) && SecretSaved(run[1..]))
     || SecretOvertakes(run[1..]))
  }

  /** The refresh under way has failed to write the keyring. */
  predicate Missed(w: World) {
    w.phase.KeyringDone? && w.keyring != Some(w.phase.next)
  }

  lemma {:induction false} EmptyStaysEmpty(w: World, run: seq<Event>, w': World)
    requires w.keyring.None? && IsRun(w, run, w') && KeyringNeverSaved(run)
    ensures w'.keyring.None?
    decreases |run|
  {
    if run != [] {
      EmptyStaysEmpty(After(w, run[0]), run[1..], w');
    }
  }

  /** The secret file is written after the keyring was, well or badly. */
  lemma {:induction false} KeyringComesFirst(w: World, run: seq<Event>, w': World)
    requires !w.phase.KeyringDone? && IsRun(w, run, w') && KeyringNeverSaved(run) && SecretSaved(run)
    ensures SecretOvertakes(run)
    decreases |run|
  {
    if !After(w, run[0]).phase.KeyringDone? {
      KeyringComesFirst(After(w, run[0]), run[1..], w');
    }
  }

  lemma {:induction false} BehindAfter(w: World, run: seq<Event>, w': World)
    requires Inv(w) && (w.phase.Rotated? ==> w.keyring != Some(w.server)) && IsRun(w, run, w')
    ensures Behind(w') <==>
      (w'.keyring.Some? &&
       (SecretOvertakes(run) || (KeyringNeverSaved(run) && (Behind(w) || (Missed(w) && SecretSaved(run))))))
    decreases |run|
  {
    if run != [] {
      var v, rest := After(w, run[0]), run[1..];
      StepKeepsInv(w, run[0]);
      BehindAfter(v, rest, w');
      if KeyringNeverSaved(rest) {
        if v.keyring.None? {
          EmptyStaysEmpty(v, rest, w');
        }
        if !v.phase.KeyringDone? && SecretSaved(rest) {
          KeyringComesFirst(v, rest, w');
        }
      }
    }
  }

  /** Over every run from a login, a restart resumes with a token older than the secret
      file's if and only if the keyring is not empty, a write of it failed before a write
      of the secret file succeeded, and none has succeeded since. */
  lemma ResumesBehindExactlyWhen(w: World, run: seq<Event>, w': World)
    requires LoggedIn(w) && IsRun(w, run, w')
    ensures Resumed(w') < w'.secret <==> w'.keyring.Some? && SecretOvertakes(run)
  {
    BehindAfter(w, run, w');
  }

  /** ... and it can be behind: one failed keyring write, and the session resumes with a
      token the server no longer takes although the secret file holds the current one. */
  lemma KeyringCanBeBehind(w: World) returns (run: seq<Event>, w': World)
    requires LoggedIn(w) && w.keyring.Some?
    ensures IsRun(w, run, w') && w'.secret == w'.server && Stale(w', 0)
  {
    run, w' := [], w;
    run, w' := Extend(w, run, w', Begin);
    run, w' := Extend(w, run, w', Accept);
    run, w' := Extend(w, run, w', SaveKeyring(false));
    run, w' := Extend(w, run, w', SaveSecret(true));
    run, w' := Extend(w, run, w', SaveSession(true));
    run, w' := Extend(w, run, w', Adopt);
    run, w' := Extend(w, run, w', Crash(true));
    run, w' := Extend(w, run, w', Restart);
  }

  /** No store holds the current token, and no refresh is about to write it. */
  predicate Lost(w: World) {
    && (w.keyring.Some? ==> w.keyring.value < w.server) && w.secret < w.server
    && (w.memory.Some? ==> w.memory.value < w.server)
    && (w.phase.Idle? || (w.phase.Asking? && w.phase.token < w.server))
  }

  /** Then the session is gone for good: no later step, crash or restart recovers it. */
  lemma {:induction false} LostForever(w: World, run: seq<Event>, w': World)
    requires Lost(w) && IsRun(w, run, w')
    ensures Lost(w') && w'.server == w.server
    ensures forall i :: 0 <= i < |run| ==> !run[i].Accept?
    decreases |run|
  {
    if run != [] {
      LostForever(After(w, run[0]), run[1..], w');
      assert forall i :: 0 < i < |run| ==> run[i] == run[1..][i - 1];
    }
  }

  /** A single lost reply is fatal: once the server has taken the token and its answer is
      lost, no store holds the current token any more. */
  lemma LostReplyLosesTheSession(w: World)
    requires Inv(w) && w.phase == Asking(w.server)
    ensures Lost(After(w, LoseReply))
  {
  }

  /** The transport's own retry then shows the old token again, and the refresh ends as
      an expired session although it began with the current token. */
  lemma LostReplyAndRetry(w: World, cleared: bool) returns (run: seq<Event>, w': World)
    requires Inv(w) && w.phase.Idle? && w.memory == Some(w.server)
    ensures run == RejectedRun(1, cleared) && IsRun(w, run, w')
    ensures Lost(w') && RotatesUnseen(w, run) && w'.tried == w.tried + [w.server, w.server]
  {
    run, w' := [], w;
    run, w' := Extend(w, run, w', Begin);
    run, w' := Extend(w, run, w', LoseReply);
    run, w' := Extend(w, run, w', Reject(cleared));
    assert run == RejectedRun(1, cleared);
    RejectedThoughCurrentExactlyWhen(w, 1, cleared, w');
  }

  /** A failed secret-file write is enough, although the keyring was updated: the next
      refresh still shows the old token, is rejected, and clears the keyring. */
  lemma FailedWriteCanLoseTheSession(w: World) returns (run: seq<Event>, w': World)
    requires LoggedIn(w)
    ensures IsRun(w, run, w') && Lost(w') && w'.tried == [0, 0]
  {
    run, w' := [], w;
    run, w' := Extend(w, run, w', Begin);
    run, w' := Extend(w, run, w', Accept);
    run, w' := Extend(w, run, w', SaveKeyring(true));
    run, w' := Extend(w, run, w', SaveSecret(false));
    run, w' := Extend(w, run, w', Begin);
    run, w' := Extend(w, run, w', Reject(true));
  }
}
