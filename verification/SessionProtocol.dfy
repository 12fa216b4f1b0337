/**
 Rotating refresh tokens over four stores: the server, the OS keyring, the secret file
 and the memory of the process. A token is its generation; the server takes only the
 current one and answers with the next. A refresh holds the session lock from start
 to end, so at most one is under way, but the process may die between any two writes, and
 the transport may show the same token again after a lost reply.
 */
module SessionProtocol {
  import opened Results

  type Generation = nat

  /** How far the refresh under the lock has come. */
  datatype Phase =
    | Idle
    | Asking(token: Generation)
    | Rotated(next: Generation)
    | KeyringDone(next: Generation)
    | SecretDone(next: Generation)
    | SessionDone(next: Generation)

  /** `memory` is None while no process runs; `tried` are the tokens the server has
      been shown, in order. */
  datatype World = World(server: Generation, keyring: Option<Generation>, secret: Generation, session: Generation,
                         memory: Option<Generation>, phase: Phase, tried: seq<Generation>)

  datatype Event =
    | Begin                       // a 401 handler or the background loop takes the lock
    | Accept                      // the server rotates and its reply arrives
    | LoseReply                   // the server is reached, its reply is not
    | GiveUp                      // the request fails
    | Reject(cleared: bool)       // 401 or 422; clearing the keyring is best-effort
    | SaveKeyring(ok: bool)       // best-effort
    | SaveSecret(ok: bool)
    | SaveSession(ok: bool)
    | Adopt                       // the new token replaces the one in memory
    | Crash(keyringSurvives: bool)
    | Restart

  predicate Enabled(w: World, e: Event) {
    match e
    case Begin => w.phase.Idle? && w.memory.Some?
    case Accept => w.phase == Asking(w.server)
    case LoseReply => w.phase.Asking?
    case GiveUp => w.phase.Asking?
    case Reject(_) => w.phase.Asking? && w.phase.token != w.server
    case SaveKeyring(_) => w.phase.Rotated?
    case SaveSecret(_) => w.phase.KeyringDone?
    case SaveSession(_) => w.phase.SecretDone?
    case Adopt => w.phase.SessionDone?
    case Crash(_) => w.memory.Some?
    case Restart => w.memory.None?
  }

  /** The keyring is preferred to the secret file. */
  function Resumed(w: World): Generation {
    if w.keyring.Some? then w.keyring.value else w.secret
  }

  function After(w: World, e: Event): World
    requires Enabled(w, e)
  {
    match e
    case Begin => w.(phase := Asking(w.memory.value))
    case Accept => w.(server := w.server + 1, phase := Rotated(w.server + 1), tried := w.tried + [w.phase.token])
    case LoseReply =>
      w.(server := if w.phase.token == w.server then w.server + 1 else w.server, tried := w.tried + [w.phase.token])
    case GiveUp => w.(phase := Idle)
    case Reject(cleared) =>
      w.(keyring := if cleared then None else w.keyring, phase := Idle, tried := w.tried + [w.phase.token])
    case SaveKeyring(ok) =>
      w.(keyring := if ok then Some(w.phase.next) else w.keyring, phase := KeyringDone(w.phase.next))
    case SaveSecret(ok) =>
      if ok then w.(secret := w.phase.next, phase := SecretDone(w.phase.next)) else w.(phase := Idle)
    case SaveSession(ok) =>
      if ok then w.(session := w.phase.next, phase := SessionDone(w.phase.next)) else w.(phase := Idle)
    case Adopt => w.(memory := Some(w.phase.next), phase := Idle)
    case Crash(keyringSurvives) =>
      w.(keyring := if keyringSurvives then w.keyring else None, memory := None, phase := Idle)
    case Restart => w.(memory := Some(Resumed(w)))
  }

  predicate IsRun(w: World, run: seq<Event>, w': World)
    decreases |run|
  {
    if run == [] then w == w' else Enabled(w, run[0]) && IsRun(After(w, run[0]), run[1..], w')
  }

  /** After a login; its keyring write is best-effort too. */
  predicate LoggedIn(w: World) {
    w == World(0, w.keyring, 0, 0, Some(0), Idle, []) && (w.keyring.Some? ==> w.keyring.value == 0)
  }

  /** Some reply of the run was lost after the server had taken the current token. */
  predicate RotatesUnseen(w: World, run: seq<Event>)
    decreases |run|
  {
    run != [] && Enabled(w, run[0]) &&
    ((run[0].LoseReply? && w.phase == Asking(w.server)) || RotatesUnseen(After(w, run[0]), run[1..]))
  }

  function LostReplies(n: nat): seq<Event> {
    if n == 0 then [] else [LoseReply] + LostReplies(n - 1)
  }

  function Shown(token: Generation, n: nat): seq<Generation> {
    if n == 0 then [] else [token] + Shown(token, n - 1)
  }

  /** The server's generation after `lost` unanswered sends of `token`. */
  function Advanced(server: Generation, token: Generation, lost: nat): Generation {
    if lost > 0 && token == server then server + 1 else server
  }

  function AfterLosses(w: World, n: nat): World
    requires w.phase.Asking?
  {
    w.(server := Advanced(w.server, w.phase.token, n), tried := w.tried + Shown(w.phase.token, n))
  }

  lemma {:induction false} OneMoreStep(w: World, run: seq<Event>, at: World, e: Event)
    requires IsRun(w, run, at) && Enabled(at, e)
    ensures IsRun(w, run + [e], After(at, e))
    decreases |run|
  {
    if run == [] {
      assert [e][1..] == [];
    } else {
      OneMoreStep(After(w, run[0]), run[1..], at, e);
      assert (run + [e])[1..] == run[1..] + [e];
    }
  }

  lemma Extend(w: World, run: seq<Event>, at: World, e: Event) returns (run': seq<Event>, at': World)
    requires IsRun(w, run, at) && Enabled(at, e)
    ensures run' == run + [e] && at' == After(at, e) && IsRun(w, run', at')
  {
    OneMoreStep(w, run, at, e);
    run', at' := run + [e], After(at, e);
  }
}
