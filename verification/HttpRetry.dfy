/**
 The transport: a request is sent again, after growing delays, while the answers are
 server errors, timeouts or failures to connect.
 */
module HttpRetry {
  import opened Results

  type Body = string

  /** What one send comes to. The body may fail to arrive after the status has. */
  datatype Reply =
    | Response(status: nat, body: Option<Body>, retryAfter: Option<nat>)
    | TimeoutOrConnect
    | OtherFailure

  datatype Answer = Answer(status: nat, body: Body)

  datatype HttpError =
    | RateLimited(retryAfterSecs: nat) | BodyRead | Transport(attempts: nat) | NotSent
    | MaxRetriesExhausted

  const FIRST_DELAY: nat := 250
  const LONGEST_DELAY: nat := 8000

  function Capped(ms: nat): nat {
    if ms < LONGEST_DELAY then ms else LONGEST_DELAY
  }

  /** The base delay after `n` doublings. */
  function Delay(n: nat): nat {
    if n == 0 then FIRST_DELAY else Capped(2 * Delay(n - 1))
  }

  /** The base delays of the first `n` pauses together. */
  function Delays(n: nat): nat {
    if n == 0 then 0 else Delays(n - 1) + Delay(n - 1)
  }

  /** A reply that is worth another attempt: a server error read to its end, a timeout
      or a failure to connect. */
  predicate Retryable(reply: Reply) {
    reply.TimeoutOrConnect? || (reply.Response? && 500 <= reply.status < 600 && reply.body.Some?)
  }

  /** What the caller is told when this reply is the last. */
  function Conclusion(reply: Reply, attempts: nat): Result<Answer, HttpError> {
    match reply
    case Response(status, body, retryAfter) =>
      if status == 429 then Err(RateLimited(if retryAfter.Some? then retryAfter.value else 5))
      else if body.None? then Err(BodyRead)
      else Ok(Answer(status, body.value))
    case TimeoutOrConnect => Err(Transport(attempts))
    case OtherFailure => Err(NotSent)
  }

  /** The answers to the successive sends. */
  type Replies = nat -> Reply

  /** The number of sends: up to the first reply not worth another attempt. */
  predicate StopsAfter(maxAttempts: nat, replies: Replies, sends: nat) {
    && 1 <= sends <= maxAttempts
    && (forall i :: 0 <= i < sends - 1 ==> Retryable(replies(i)))
    && (sends < maxAttempts ==> !Retryable(replies(sends - 1)))
  }

  /** `r` is what sending, with these replies, comes to. */
  ghost predicate Outcome(maxAttempts: nat, replies: Replies, r: Result<Answer, HttpError>) {
    exists n: nat :: StopsAfter(maxAttempts, replies, n) && r == Conclusion(replies(n - 1), n)
  }

  method SleepWithJitter(baseMs: nat) returns (ms: nat)
    ensures baseMs <= ms <= baseMs + baseMs / 2
  {
    var jitter: nat :| jitter < baseMs / 2 + 1;
    ms := baseMs + jitter;
  }

  /** The base delays between `sends` sends. */
  function Pauses(sends: nat): nat {
    if sends == 0 then 0 else Delays(sends - 1)
  }

  /** Whether the budget of pauses for `n` sends was kept. */
  predicate WithinBudget(slept: nat, sends: nat) {
    Pauses(sends) <= slept && 2 * slept <= 3 * Pauses(sends)
  }

  /** What the caller learns from the last reply: the status and body that arrived, unless
      the status is 429, the body was lost, or nothing arrived. Server errors and failures to
      connect are reported only after the last attempt. */
  predicate Reported(maxAttempts: nat, replies: Replies, sends: nat, r: Result<Answer, HttpError>) {
    && sends > 0
    && var last := replies(sends - 1);
    && (r.Ok? <==> last.Response? && last.status != 429 && last.body.Some?)
    && (r.Ok? ==> r.value.status == last.status && r.value.body == last.body.value)
    && (r.Err? && r.error.RateLimited? <==> last.Response? && last.status == 429)
    && (r.Err? && r.error.RateLimited? ==>
          r.error.retryAfterSecs == if last.retryAfter.Some? then last.retryAfter.value else 5)
    && (r == Err(BodyRead) <==> last.Response? && last.status != 429 && last.body.None?)
    && (r == Err(NotSent) <==> last.OtherFailure?)
    && (r == Err(Transport(maxAttempts)) <==> last.TimeoutOrConnect?)
    && (r.Ok? && 500 <= r.value.status < 600 ==> sends == maxAttempts)
    && (last.TimeoutOrConnect? ==> sends == maxAttempts)
  }

  /** Another attempt follows exactly a timeout, a failure to connect, or a server error
      whose body arrived, and only while attempts are left. */
  lemma RetriedExactlyWhen(maxAttempts: nat, replies: Replies, sends: nat, i: nat)
    requires StopsAfter(maxAttempts, replies, sends) && i < sends
    ensures i < sends - 1 <==>
      && i + 1 < maxAttempts
      && match replies(i)
         case Response(status, body, _) => 500 <= status <= 599 && body.Some?
         case TimeoutOrConnect => true
         case OtherFailure => false
  {
  }

  lemma ConclusionReports(maxAttempts: nat, replies: Replies, sends: nat)
    requires StopsAfter(maxAttempts, replies, sends)
    ensures Reported(maxAttempts, replies, sends, Conclusion(replies(sends - 1), sends))
  {
    assert sends < maxAttempts ==> !Retryable(replies(sends - 1));
  }

  method SendWithRetry(maxAttempts: nat, replies: Replies)
      returns (r: Result<Answer, HttpError>, sends: nat, slept: nat)
    ensures maxAttempts == 0 <==> r == Err(MaxRetriesExhausted)
    ensures maxAttempts == 0 ==> sends == 0
    ensures maxAttempts > 0 ==> StopsAfter(maxAttempts, replies, sends) && r == Conclusion(replies(sends - 1), sends)
    ensures WithinBudget(slept, sends)
    ensures maxAttempts > 0 ==> Reported(maxAttempts, replies, sends, r)
  {
    var delayMs := FIRST_DELAY;
    sends, slept := 0, 0;
    for attempt := 1 to maxAttempts + 1
      invariant sends == attempt - 1
      invariant delayMs == Delay(sends)
      invariant forall i :: 0 <= i < sends ==> Retryable(replies(i))
      invariant Delays(sends) <= slept && 2 * slept <= 3 * Delays(sends)
      invariant maxAttempts > 0 ==> attempt <= maxAttempts
    {
      var reply := replies(sends);
      sends := sends + 1;
      match reply {
        case Response(status, body, retryAfter) =>
          if status == 429 {
            return Err(RateLimited(if retryAfter.Some? then retryAfter.value else 5)), sends, slept;
          }
          if body.None? {
            return Err(BodyRead), sends, slept;
          }
          if !(500 <= status < 600 && attempt < maxAttempts) {
            return Ok(Answer(status, body.value)), sends, slept;
          }
        case TimeoutOrConnect =>
          if attempt >= maxAttempts {
            return Err(Transport(attempt)), sends, slept;
          }
        case OtherFailure =>
          return Err(NotSent), sends, slept;
      }
      var pause := SleepWithJitter(delayMs);
      slept := slept + pause;
      delayMs := Capped(delayMs * 2);
    }
    r := Err(MaxRetriesExhausted);
  }

  /** So each outcome is that of the first reply not worth another attempt. */
  lemma OutcomeIsReported(maxAttempts: nat, replies: Replies, r: Result<Answer, HttpError>) returns (sends: nat)
    requires Outcome(maxAttempts, replies, r)
    ensures StopsAfter(maxAttempts, replies, sends) && Reported(maxAttempts, replies, sends, r)
  {
    sends :| StopsAfter(maxAttempts, replies, sends) && r == Conclusion(replies(sends - 1), sends);
    ConclusionReports(maxAttempts, replies, sends);
  }

  lemma OutcomeIsDetermined(maxAttempts: nat, replies: Replies,
                            r: Result<Answer, HttpError>, s: Result<Answer, HttpError>)
    requires Outcome(maxAttempts, replies, r) && Outcome(maxAttempts, replies, s)
    ensures r == s
  {
    var m: nat :| StopsAfter(maxAttempts, replies, m) && r == Conclusion(replies(m - 1), m);
    var n: nat :| StopsAfter(maxAttempts, replies, n) && s == Conclusion(replies(n - 1), n);
    SendsAreDetermined(maxAttempts, replies, m, n);
  }

  /** How many sends there are is decided by the replies alone. */
  lemma SendsAreDetermined(maxAttempts: nat, replies: Replies, a: nat, b: nat)
    requires StopsAfter(maxAttempts, replies, a) && StopsAfter(maxAttempts, replies, b)
    ensures a == b
  {
  }

  lemma {:induction false} DelayIsCappedDoubling(n: nat)
    ensures Delay(n) == Capped(FIRST_DELAY * Power2(n))
  {
    if n > 0 {
      DelayIsCappedDoubling(n - 1);
    }
  }

  function Power2(n: nat): nat {
    if n == 0 then 1 else 2 * Power2(n - 1)
  }

  /** From the sixth pause on the delay stays at its longest. */
  lemma {:induction false} DelaysInTotal(n: nat)
    ensures n >= 5 ==> Delay(n) == LONGEST_DELAY && Delays(n) == 7750 + (n - 5) * LONGEST_DELAY
  {
    if n > 5 {
      DelaysInTotal(n - 1);
    } else if n == 5 {
      FirstDelays();
    }
  }

  lemma FirstDelays()
    ensures Delay(1) == 500 && Delay(2) == 1000 && Delay(3) == 2000 && Delay(4) == 4000 && Delay(5) == 8000
    ensures Delays(1) == 250 && Delays(2) == 750 && Delays(3) == 1750 && Delays(4) == 3750 && Delays(5) == 7750
  {
    assert Delay(0) == 250 && Delays(0) == 0;
    assert Delay(1) == 500 && Delays(1) == 250;
    assert Delay(2) == 1000 && Delays(2) == 750;
    assert Delay(3) == 2000 && Delays(3) == 1750;
    assert Delay(4) == 4000 && Delays(4) == 3750;
  }

  lemma {:induction false} PausesGrow(m: nat, n: nat)
    requires m <= n
    ensures Pauses(m) <= Pauses(n)
  {
    if m < n {
      PausesGrow(m, n - 1);
    }
  }

  /** With the program's limit of five attempts, a request never pauses for more than
      5625 ms in total. */
  lemma FiveAttemptsPauseAtMost(slept: nat, sends: nat)
    requires sends <= 5 && WithinBudget(slept, sends)
    ensures slept <= 5625
  {
    FirstDelays();
    PausesGrow(sends, 5);
  }
}
