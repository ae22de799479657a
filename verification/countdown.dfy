/**
  The detail page's countdown: a one-second interval over `timeLeft`, which
  starts at the configured dwell time. Each tick either decrements the
  remaining seconds (triggering the midway correction on the tick that sees
  30), or, on the first tick that sees 0, stops the interval and hands off to
  the submit loop. Visibility only changes the message shown, so ticks do not
  depend on it.
 */
module Countdown {
  import opened Config

  datatype State = Running(timeLeft: nat) | Expired

  /** What a tick asks of the rest of the page. */
  datatype Action = NoAction | Correct | StartSubmit

  const Initial: State := Running(BaseWaitSeconds)

  /** Ticks left before the interval is cleared. */
  function Rank(s: State): nat {
    match s
    case Running(n) => n + 1
    case Expired => 0
  }

  /** One firing of the interval callback. */
  function Tick(s: State): (r: (State, Action))
    ensures s.Running? ==> Rank(r.0) == Rank(s) - 1
    ensures s.Expired? ==> r == (Expired, NoAction)
    ensures r.1 == Correct <==> s == Running(CorrectionSecond)
    ensures r.1 == StartSubmit <==> s.Running? && r.0.Expired?
  {
    match s
    case Running(n) =>
      if n > 0 then (Running(n - 1), if n == CorrectionSecond then Correct else NoAction)
      else (Expired, StartSubmit)
    case Expired => (Expired, NoAction)
  }

  /** `k` ticks from `s`: the state reached and the actions emitted, in order. */
  function Run(s: State, k: nat): (r: (State, seq<Action>))
    ensures |r.1| == k
    decreases k
  {
    if k == 0 then (s, [])
    else
      var (s1, a) := Tick(s);
      var (sk, acts) := Run(s1, k - 1);
      (sk, [a] + acts)
  }

  /** The action the tick with 0-based number `i` emits when counting down from `n`. */
  function Scheduled(n: nat, i: nat): Action {
    if i + CorrectionSecond == n then Correct
    else if i == n then StartSubmit
    else NoAction
  }

  /** Once expired, the countdown stays expired and emits nothing. */
  lemma {:induction false} RunExpired(k: nat)
    ensures Run(Expired, k).0 == Expired
    ensures forall i :: 0 <= i < k ==> Run(Expired, k).1[i] == NoAction
  {
    if k > 0 {
      RunExpired(k - 1);
    }
  }

  /** Counting down from `n`: after `k <= n` ticks `timeLeft` is `n - k`, after
      more the countdown has expired, and tick `i` emits `Scheduled(n, i)`. */
  lemma {:induction false} RunSchedule(n: nat, k: nat)
    ensures Run(Running(n), k).0 == if k <= n then Running(n - k) else Expired
    ensures forall i :: 0 <= i < k ==> Run(Running(n), k).1[i] == Scheduled(n, i)
  {
    if k > 0 {
      var acts := Run(Running(n), k).1;
      if n == 0 {
        RunExpired(k - 1);
        assert acts == [StartSubmit] + Run(Expired, k - 1).1;
        forall i | 0 <= i < k
          ensures acts[i] == Scheduled(n, i)
        {
          if i > 0 {
            assert acts[i] == Run(Expired, k - 1).1[i - 1];
          }
        }
      } else {
        RunSchedule(n - 1, k - 1);
        var a := if n == CorrectionSecond then Correct else NoAction;
        assert acts == [a] + Run(Running(n - 1), k - 1).1;
        forall i | 0 <= i < k
          ensures acts[i] == Scheduled(n, i)
        {
          if i > 0 {
            assert acts[i] == Run(Running(n - 1), k - 1).1[i - 1];
          }
        }
      }
    }
  }

  /** An action that occurs at exactly one index occurs exactly once. */
  lemma {:induction false} OccursOnce(acts: seq<Action>, a: Action, j: nat)
    requires j < |acts|
    requires forall i :: 0 <= i < |acts| ==> (acts[i] == a <==> i == j)
    ensures multiset(acts)[a] == 1
  {
    assert acts == acts[..j] + [acts[j]] + acts[j + 1..];
    assert a !in acts[..j];
    assert a !in acts[j + 1..];
    assert multiset(acts) == multiset(acts[..j]) + multiset{acts[j]} + multiset(acts[j + 1..]);
  }

  /** Counting down from `n >= 30`, the correction is requested on exactly one
      tick, the one that sees 30 seconds left, once that tick has happened. */
  lemma CorrectionFiresOnce(n: nat, k: nat)
    requires n >= CorrectionSecond
    ensures forall i :: 0 <= i < k ==>
      (Run(Running(n), k).1[i] == Correct <==> Run(Running(n), i).0 == Running(CorrectionSecond))
    ensures multiset(Run(Running(n), k).1)[Correct] == if k > n - CorrectionSecond then 1 else 0
  {
    var acts := Run(Running(n), k).1;
    RunSchedule(n, k);
    forall i | 0 <= i < k
      ensures acts[i] == Correct <==> Run(Running(n), i).0 == Running(CorrectionSecond)
    {
      RunSchedule(n, i);
    }
    if k > n - CorrectionSecond {
      OccursOnce(acts, Correct, n - CorrectionSecond);
    } else {
      assert Correct !in acts;
    }
  }

  /** Counting down from `n`, tick `n + 1` is the first to see 0 seconds left:
      it expires the countdown and starts the submit loop, exactly once. */
  lemma SubmitStartsOnce(n: nat, k: nat)
    ensures forall i :: 0 <= i < k ==>
      (Run(Running(n), k).1[i] == StartSubmit <==> Run(Running(n), i).0 == Running(0))
    ensures Run(Running(n), k).0 == Expired <==> k > n
    ensures multiset(Run(Running(n), k).1)[StartSubmit] == if k > n then 1 else 0
  {
    var acts := Run(Running(n), k).1;
    RunSchedule(n, k);
    forall i | 0 <= i < k
      ensures acts[i] == StartSubmit <==> Run(Running(n), i).0 == Running(0)
    {
      RunSchedule(n, i);
    }
    if k > n {
      OccursOnce(acts, StartSubmit, n);
    } else {
      assert StartSubmit !in acts;
    }
  }
}
