/** The retry loop around the send to the model (app.py:109-131). The hosted
    model is an oracle given as the sequence of outcomes of successive sends;
    sleeping is recorded as the wait it would take, and what the page shows
    is recorded as a list of notices. */
module Retry {
  import opened Text

  datatype Option<T> = None | Some(value: T)

  /** What one `send_message` call does: return a reply, or raise an
      exception whose `str(e)` is the message. */
  datatype Outcome = Reply(text: string) | Raised(message: string)

  /** The three ways app.py:119-131 treats an exception. */
  datatype ErrorKind = RateLimited | InvalidArgument | OtherError

  /** What the page shows after an attempt. */
  datatype Notice =
    | Shown(text: string)          // the reply, rendered as markdown
    | RetryWarning(wait: nat)      // "Rate limit hit. Retrying in {wait} seconds..."
    | StillRateLimited             // "Still rate limited. Please wait 1 minute ..."
    | InvalidRequest               // "Invalid request. Please rephrase your message."
    | SomethingWentWrong           // "Something went wrong. Please try again."

  /** Everything the loop does: the messages sent, the waits slept, the
      notices shown, and the final value of `response`. */
  datatype Trace = Trace(sent: seq<string>, waits: seq<nat>, notices: seq<Notice>, response: Option<string>)

  const MaxAttempts: nat := 3

  /** The classification of app.py:119 and 126: the rate-limit test comes
      first, so a message naming both a rate limit and an invalid argument
      counts as rate-limited. */
  function Classify(message: string): (k: ErrorKind)
    ensures k == RateLimited <==> Occurs("ResourceExhausted", message) || Occurs("429", message)
    ensures k == InvalidArgument <==>
      !Occurs("ResourceExhausted", message) && !Occurs("429", message) && Occurs("InvalidArgument", message)
  {
    if Contains(message, "ResourceExhausted") || Contains(message, "429") then RateLimited
    else if Contains(message, "InvalidArgument") then InvalidArgument
    else OtherError
  }

  /** The wait before retrying after a rate limit on `attempt` (app.py:121). */
  function Backoff(attempt: nat): nat
  {
    (attempt + 1) * 10
  }

  /** Whether an outcome is a rate-limited failure, the only one retried. */
  predicate IsRateLimited(o: Outcome)
  {
    o.Raised? && Classify(o.message) == RateLimited
  }

  /** The notice shown for outcome `o` on attempt `attempt`. */
  function NoticeFor(attempt: nat, o: Outcome): Notice
  {
    match o
    case Reply(t) => Shown(t)
    case Raised(m) =>
      match Classify(m)
      case RateLimited => if attempt < 2 then RetryWarning(Backoff(attempt)) else StillRateLimited
      case InvalidArgument => InvalidRequest
      case OtherError => SomethingWentWrong
  }

  /** A trace `done` followed by a trace `rest`. */
  function Then(done: Trace, rest: Trace): Trace
  {
    Trace(done.sent + rest.sent, done.waits + rest.waits, done.notices + rest.notices, rest.response)
  }

  /** Reference definition of the loop from attempt `attempt` on: send, stop
      on a reply or on an error that is not a rate limit, and after a rate
      limit wait (except on the last attempt) and go on. */
  function Policy(message: string, outcomes: seq<Outcome>, attempt: nat): Trace
    requires |outcomes| >= MaxAttempts
    decreases MaxAttempts - attempt
  {
    if attempt >= MaxAttempts then Trace([], [], [], None)
    else
      var o := outcomes[attempt];
      var notice := NoticeFor(attempt, o);
      match o
      case Reply(t) => Trace([message], [], [notice], Some(t))
      case Raised(m) =>
        if Classify(m) == RateLimited then
          var waits := if attempt < 2 then [Backoff(attempt)] else [];
          Then(Trace([message], waits, [notice], None), Policy(message, outcomes, attempt + 1))
        else
          Trace([message], [], [notice], None)
  }

  /** One step of the policy on a rate limit: this attempt's send, wait and
      notice, followed by the rest of the loop. */
  lemma PolicyRetries(m: string, o: seq<Outcome>, a: nat)
    requires |o| >= MaxAttempts && a < MaxAttempts && IsRateLimited(o[a])
    ensures Policy(m, o, a) ==
      Then(Trace([m], if a < 2 then [Backoff(a)] else [], [NoticeFor(a, o[a])], None), Policy(m, o, a + 1))
  {
  }

  /** One step of the policy on a reply or another error: the loop ends here. */
  lemma PolicyStops(m: string, o: seq<Outcome>, a: nat)
    requires |o| >= MaxAttempts && a < MaxAttempts && !IsRateLimited(o[a])
    ensures Policy(m, o, a) ==
      Trace([m], [], [NoticeFor(a, o[a])], if o[a].Reply? then Some(o[a].text) else None)
  {
  }

  /** The loop of app.py:112-131 over the given outcomes; what it does is
      exactly the reference policy from attempt 0. */
  method SendWithRetry(message: string, outcomes: seq<Outcome>) returns (t: Trace)
    requires |outcomes| >= MaxAttempts
    ensures t == Policy(message, outcomes, 0)
  {
    var sent: seq<string> := [];
    var waits: seq<nat> := [];
    var notices: seq<Notice> := [];
    var response: Option<string> := None;
    ghost var whole := Policy(message, outcomes, 0);
    for attempt := 0 to MaxAttempts
      invariant response == None
      invariant Then(Trace(sent, waits, notices, None), Policy(message, outcomes, attempt)) == whole
    {
      ghost var before := Trace(sent, waits, notices, None);
      sent := sent + [message];
      match outcomes[attempt]
      case Reply(text) =>
        PolicyStops(message, outcomes, attempt);
        response := Some(text);
        notices := notices + [Shown(text)];
        break;
      case Raised(errorMsg) =>
        match Classify(errorMsg)
        case RateLimited =>
          PolicyRetries(message, outcomes, attempt);
          if attempt < 2 {
            var waitTime := (attempt + 1) * 10;
            notices := notices + [RetryWarning(waitTime)];
            waits := waits + [waitTime];
          } else {
            notices := notices + [StillRateLimited];
          }
          ThenAssociates(before, Trace([message], if attempt < 2 then [Backoff(attempt)] else [], [NoticeFor(attempt, outcomes[attempt])], None),
                         Policy(message, outcomes, attempt + 1));
        case InvalidArgument =>
          PolicyStops(message, outcomes, attempt);
          notices := notices + [InvalidRequest];
          break;
        case OtherError =>
          PolicyStops(message, outcomes, attempt);
          notices := notices + [SomethingWentWrong];
          break;
    }
    t := Trace(sent, waits, notices, response);
  }

  /** Appending traces is associative. */
  lemma ThenAssociates(x: Trace, y: Trace, z: Trace)
    ensures Then(x, Then(y, z)) == Then(Then(x, y), z)
  {
    assert x.sent + (y.sent + z.sent) == (x.sent + y.sent) + z.sent;
    assert x.waits + (y.waits + z.waits) == (x.waits + y.waits) + z.waits;
    assert x.notices + (y.notices + z.notices) == (x.notices + y.notices) + z.notices;
  }

  /** From attempt `a`, the loop sends at least once and at most the attempts
      that remain, and always the same message. */
  lemma {:induction false} SendsBounded(m: string, o: seq<Outcome>, a: nat)
    requires |o| >= MaxAttempts && a < MaxAttempts
    ensures 1 <= |Policy(m, o, a).sent| <= MaxAttempts - a
    ensures forall i :: 0 <= i < |Policy(m, o, a).sent| ==> Policy(m, o, a).sent[i] == m
    decreases MaxAttempts - a
  {
    if o[a].Raised? && Classify(o[a].message) == RateLimited && a + 1 < MaxAttempts {
      SendsBounded(m, o, a + 1);
    }
  }

  /** Every send but the last met a rate limit, and the loop stops early only
      on a reply or on an error that is not a rate limit: the loop stops at
      the first success and never resends after another error. */
  lemma {:induction false} StopsAtFirstNonRateLimit(m: string, o: seq<Outcome>, a: nat)
    requires |o| >= MaxAttempts && a < MaxAttempts
    ensures var n := |Policy(m, o, a).sent|;
      n >= 1
      && (forall i :: a <= i < a + n - 1 ==> IsRateLimited(o[i]))
      && (a + n < MaxAttempts ==> !IsRateLimited(o[a + n - 1]))
    decreases MaxAttempts - a
  {
    SendsBounded(m, o, a);
    if IsRateLimited(o[a]) && a + 1 < MaxAttempts {
      StopsAtFirstNonRateLimit(m, o, a + 1);
      var n := |Policy(m, o, a).sent|;
      assert n == 1 + |Policy(m, o, a + 1).sent|;
    }
  }

  /** `response` holds a reply exactly when the last send was answered, and
      then it is that reply. */
  lemma {:induction false} ResponseIsLastReply(m: string, o: seq<Outcome>, a: nat)
    requires |o| >= MaxAttempts && a < MaxAttempts
    ensures var p := Policy(m, o, a);
      1 <= |p.sent| <= MaxAttempts - a
      && p.response == (if o[a + |p.sent| - 1].Reply? then Some(o[a + |p.sent| - 1].text) else None)
    decreases MaxAttempts - a
  {
    SendsBounded(m, o, a);
    if IsRateLimited(o[a]) && a + 1 < MaxAttempts {
      ResponseIsLastReply(m, o, a + 1);
    }
  }

  /** One notice per send, the one `NoticeFor` gives for that attempt. */
  lemma {:induction false} NoticesPerAttempt(m: string, o: seq<Outcome>, a: nat)
    requires |o| >= MaxAttempts && a <= MaxAttempts
    ensures var p := Policy(m, o, a);
      |p.notices| == |p.sent|
      && forall i :: 0 <= i < |p.notices| ==> a + i < |o| && p.notices[i] == NoticeFor(a + i, o[a + i])
    decreases MaxAttempts - a
  {
    if a < MaxAttempts && IsRateLimited(o[a]) {
      NoticesPerAttempt(m, o, a + 1);
      var p := Policy(m, o, a);
      var q := Policy(m, o, a + 1);
      forall i | 0 <= i < |p.notices|
        ensures a + i < |o| && p.notices[i] == NoticeFor(a + i, o[a + i])
      {
        if i > 0 {
          assert p.notices[i] == q.notices[i - 1];
          assert (a + 1) + (i - 1) == a + i;
        }
      }
    }
  }

  /** The waits are 10 s, then 20 s: one fewer than the sends, the i-th being
      `Backoff(i)`, and never a wait after the last attempt. */
  lemma {:induction false} WaitsAreBackoffs(m: string, o: seq<Outcome>, a: nat)
    requires |o| >= MaxAttempts && a < MaxAttempts
    ensures var p := Policy(m, o, a);
      |p.waits| == |p.sent| - 1
      && forall i :: 0 <= i < |p.waits| ==> p.waits[i] == Backoff(a + i)
    decreases MaxAttempts - a
  {
    SendsBounded(m, o, a);
    if IsRateLimited(o[a]) && a + 1 < MaxAttempts {
      WaitsAreBackoffs(m, o, a + 1);
      var p := Policy(m, o, a);
      var q := Policy(m, o, a + 1);
      forall i | 0 <= i < |p.waits|
        ensures p.waits[i] == Backoff(a + i)
      {
        if i > 0 {
          assert p.waits[i] == q.waits[i - 1];
          assert (a + 1) + (i - 1) == a + i;
        }
      }
    }
  }

  /** The sum of a list of waits. */
  function Total(waits: seq<nat>): nat
  {
    if waits == [] then 0 else waits[0] + Total(waits[1..])
  }

  /** A whole run sends at most three times, and sleeps at most 30 s in all. */
  lemma RunIsBounded(m: string, o: seq<Outcome>)
    requires |o| >= MaxAttempts
    ensures 1 <= |Policy(m, o, 0).sent| <= 3
    ensures |Policy(m, o, 0).waits| <= 2
    ensures Total(Policy(m, o, 0).waits) <= 30
  {
    SendsBounded(m, o, 0);
    WaitsAreBackoffs(m, o, 0);
    var w := Policy(m, o, 0).waits;
    if |w| == 2 {
      assert w[1..] == [w[1]];
      assert Total(w) == w[0] + w[1] + Total([]);
    } else if |w| == 1 {
      assert Total(w) == w[0] + Total([]);
    }
  }

  /** Three rate limits in a row: three sends, waits of 10 s and 20 s, two
      retry warnings and the final "still rate limited", and no response. */
  lemma AlwaysRateLimited(m: string, o: seq<Outcome>)
    requires |o| >= MaxAttempts
    requires IsRateLimited(o[0]) && IsRateLimited(o[1]) && IsRateLimited(o[2])
    ensures Policy(m, o, 0) == Trace([m, m, m], [10, 20], [RetryWarning(10), RetryWarning(20), StillRateLimited], None)
  {
  }

  /** "429" anywhere in the message makes it a rate limit, whatever else the
      message says. */
  lemma {:induction false} Code429IsRateLimit(message: string, i: nat)
    requires i + 3 <= |message| && message[i..i + 3] == "429"
    ensures Classify(message) == RateLimited
  {
    assert OccursAt("429", message, i);
  }
}
