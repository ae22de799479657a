/**
  The submit retry loop entered when the countdown expires. Without a submit
  button it stops at once with an error. Otherwise it submits immediately and
  then checks every five seconds: if the URL still names the detail page and
  the status overlay still exists, the attempt is taken as failed and
  `retryCount` grows; at `MaxRetries` the loop gives up, below it submits
  again. Any other observation is taken as success and stops the loop.
 */
module SubmitLoop {
  import opened Config
  import opened Strings

  datatype State = Attempting(retryCount: nat) | Succeeded | Failed | NoButton

  predicate Terminal(s: State) {
    !s.Attempting?
  }

  /** The loop's state with the submit clicks issued and the checks made so far. */
  datatype Loop = Loop(state: State, submits: nat, checks: nat)

  /** What a check can see: the current URL and whether the status overlay exists. */
  datatype Observation = Observation(url: string, overlayPresent: bool)

  /** The success heuristic: an attempt failed when the page still looks like the detail page. */
  function StillOnPage(o: Observation): (b: bool)
    ensures b <==> Contains(o.url, DetailMarker) && o.overlayPresent
  {
    IndexOf(o.url, DetailMarker) != -1 && o.overlayPresent
  }

  /** The heuristic's verdict on each observation, in order. */
  function Verdicts(obs: seq<Observation>): (v: seq<bool>)
    ensures |v| == |obs|
    ensures forall i :: 0 <= i < |obs| ==> v[i] == StillOnPage(obs[i])
  {
    if obs == [] then [] else [StillOnPage(obs[0])] + Verdicts(obs[1..])
  }

  /** How the counters relate to the state in every reachable loop. */
  predicate Consistent(l: Loop) {
    match l.state
    case Attempting(n) => n < MaxRetries && l.submits == n + 1 && l.checks == n
    case Succeeded => 1 <= l.checks <= MaxRetries && l.submits == l.checks
    case Failed => l.submits == MaxRetries && l.checks == MaxRetries
    case NoButton => l.submits == 0 && l.checks == 0
  }

  /** The loop as it stands after `n` failed checks. */
  function Attempt(n: nat): Loop {
    Loop(Attempting(n), n + 1, n)
  }

  /** Entering the loop: an error without a button, else the first submit. */
  function Start(hasButton: bool): (l: Loop)
    ensures Consistent(l)
    ensures l.state == NoButton <==> !hasButton
    ensures l.submits == 0 <==> !hasButton
    ensures hasButton ==> l.state == Attempting(0)
  {
    if hasButton then Attempt(0) else Loop(NoButton, 0, 0)
  }

  /** One firing of the check interval; `stillOnPage` is the heuristic's
      verdict. While attempting it counts one more check; a success verdict
      ends the loop with no new submit; a failure gives up exactly when the
      retry count reaches `MaxRetries`, and otherwise submits once more and
      counts one more retry; a stopped loop is unchanged. */
  function Check(l: Loop, stillOnPage: bool): (r: Loop)
    ensures Terminal(l.state) ==> r == l
    ensures l.state.Attempting? ==> r.checks == l.checks + 1
    ensures l.state.Attempting? && !stillOnPage ==> r.state == Succeeded && r.submits == l.submits
    ensures l.state.Attempting? && stillOnPage && l.state.retryCount + 1 >= MaxRetries ==>
      r.state == Failed && r.submits == l.submits
    ensures l.state.Attempting? && stillOnPage && l.state.retryCount + 1 < MaxRetries ==>
      r.state == Attempting(l.state.retryCount + 1) && r.submits == l.submits + 1
  {
    match l.state
    case Attempting(n) =>
      if stillOnPage then
        if n + 1 >= MaxRetries then Loop(Failed, l.submits, l.checks + 1)
        else Loop(Attempting(n + 1), l.submits + 1, l.checks + 1)
      else Loop(Succeeded, l.submits, l.checks + 1)
    case _ => l
  }

  /** A check after `n` failed ones, in the consistent loop. */
  lemma CheckAttempt(n: nat, stillOnPage: bool)
    requires n < MaxRetries
    ensures Check(Attempt(n), stillOnPage) ==
      if !stillOnPage then Loop(Succeeded, n + 1, n + 1)
      else if n + 1 < MaxRetries then Attempt(n + 1)
      else Loop(Failed, MaxRetries, MaxRetries)
  {
  }

  /** The checks with verdicts `obs[k..]`, in order; checks after the loop has
      stopped change nothing, as the interval is cleared. */
  function Run(l: Loop, obs: seq<bool>, k: nat): (r: Loop)
    requires k <= |obs|
    ensures Terminal(l.state) ==> r == l
    decreases |obs| - k
  {
    if k == |obs| then l else Run(Check(l, obs[k]), obs, k + 1)
  }

  /** A check keeps the counters consistent with the state. */
  lemma CheckConsistent(l: Loop, stillOnPage: bool)
    requires Consistent(l)
    ensures Consistent(Check(l, stillOnPage))
    ensures Check(l, stillOnPage).state == NoButton <==> l.state == NoButton
  {
  }

  /** Every run of checks keeps the counters consistent with the state. */
  lemma {:induction false} RunConsistent(l: Loop, obs: seq<bool>, k: nat)
    requires Consistent(l) && k <= |obs|
    ensures Consistent(Run(l, obs, k))
    ensures Run(l, obs, k).state == NoButton <==> l.state == NoButton
    decreases |obs| - k
  {
    if k < |obs| {
      CheckConsistent(l, obs[k]);
      RunConsistent(Check(l, obs[k]), obs, k + 1);
    }
  }

  /** The whole loop as `startSubmitLoop` runs it, its checks returning the
      verdicts `obs` in turn. */
  function Session(hasButton: bool, obs: seq<bool>): (r: Loop)
    ensures r.submits <= MaxRetries && r.checks <= MaxRetries
    ensures !hasButton ==> r == Loop(NoButton, 0, 0)
    ensures hasButton ==> r.submits >= 1 && r.state != NoButton
  {
    RunConsistent(Start(hasButton), obs, 0);
    Run(Start(hasButton), obs, 0)
  }

  /** After `n` failed checks, `MaxRetries - n` more checks always stop the loop. */
  lemma {:induction false} TerminatesFrom(n: nat, obs: seq<bool>, k: nat)
    requires n < MaxRetries && k <= |obs|
    requires |obs| - k >= MaxRetries - n
    ensures Terminal(Run(Attempt(n), obs, k).state)
    decreases |obs| - k
  {
    CheckAttempt(n, obs[k]);
    if obs[k] && n + 1 < MaxRetries {
      TerminatesFrom(n + 1, obs, k + 1);
    }
  }

  /** After `n` failed checks, the loop gives up once the remaining
      `MaxRetries - n` checks, from position `k`, have all failed. */
  lemma {:induction false} FailedWhen(n: nat, obs: seq<bool>, k: nat)
    requires n < MaxRetries && k <= |obs|
    requires |obs| - k >= MaxRetries - n
    requires forall i :: k <= i < k + MaxRetries - n ==> obs[i]
    ensures Run(Attempt(n), obs, k) == Loop(Failed, MaxRetries, MaxRetries)
    decreases |obs| - k
  {
    CheckAttempt(n, obs[k]);
    if n + 1 < MaxRetries {
      FailedWhen(n + 1, obs, k + 1);
    }
  }

  /** The loop only gives up after each of those checks failed. */
  lemma {:induction false} FailedOnlyWhen(n: nat, obs: seq<bool>, k: nat, i: nat)
    requires n < MaxRetries && k <= |obs|
    requires k <= i < k + MaxRetries - n
    ensures Run(Attempt(n), obs, k).state == Failed ==> i < |obs| && obs[i]
    decreases |obs| - k
  {
    if k < |obs| {
      CheckAttempt(n, obs[k]);
      if i > k && obs[k] && n + 1 < MaxRetries {
        FailedOnlyWhen(n + 1, obs, k + 1, i);
      }
    }
  }

  /** The loop gives up exactly when each of the remaining `MaxRetries - n` checks fails. */
  lemma FailedIff(n: nat, obs: seq<bool>, k: nat)
    requires n < MaxRetries && k <= |obs|
    ensures Run(Attempt(n), obs, k).state == Failed <==>
      |obs| - k >= MaxRetries - n && forall i :: k <= i < k + MaxRetries - n ==> obs[i]
  {
    if Run(Attempt(n), obs, k).state == Failed {
      FailedOnlyWhen(n, obs, k, k + MaxRetries - n - 1);
      forall i | k <= i < k + MaxRetries - n
        ensures obs[i]
      {
        FailedOnlyWhen(n, obs, k, i);
      }
    } else if |obs| - k >= MaxRetries - n && forall i :: k <= i < k + MaxRetries - n ==> obs[i] {
      FailedWhen(n, obs, k);
    }
  }

  /** When check `j` is the first to see the page gone, the loop ends with
      success, its counters fixed by how many checks that took. */
  lemma {:induction false} SucceededAt(n: nat, obs: seq<bool>, k: nat, j: nat)
    requires k <= j < |obs| && n + (j - k) < MaxRetries
    requires !obs[j]
    requires forall i :: k <= i < j ==> obs[i]
    ensures Run(Attempt(n), obs, k) == Loop(Succeeded, n + (j - k) + 1, n + (j - k) + 1)
    decreases j - k
  {
    CheckAttempt(n, obs[k]);
    if k < j {
      SucceededAt(n + 1, obs, k + 1, j);
    }
  }

  /** A success verdict within the allowance ends the loop with success. */
  lemma {:induction false} SucceededWhen(n: nat, obs: seq<bool>, k: nat, i: nat)
    requires n < MaxRetries
    requires k <= i < |obs| && i < k + MaxRetries - n && !obs[i]
    ensures Run(Attempt(n), obs, k).state == Succeeded
    decreases i - k
  {
    CheckAttempt(n, obs[k]);
    if obs[k] {
      SucceededWhen(n + 1, obs, k + 1, i);
    }
  }

  /** The loop only reports success after such a verdict. */
  lemma {:induction false} SucceededOnlyWhen(n: nat, obs: seq<bool>, k: nat)
    requires n < MaxRetries && k <= |obs|
    ensures Run(Attempt(n), obs, k).state == Succeeded ==>
      exists i :: k <= i < |obs| && i < k + MaxRetries - n && !obs[i]
    decreases |obs| - k
  {
    if k < |obs| {
      CheckAttempt(n, obs[k]);
      if obs[k] && n + 1 < MaxRetries {
        SucceededOnlyWhen(n + 1, obs, k + 1);
      }
    }
  }

  /** Success is reported exactly when a check within the allowance sees the page gone. */
  lemma SucceededIff(n: nat, obs: seq<bool>, k: nat)
    requires n < MaxRetries && k <= |obs|
    ensures Run(Attempt(n), obs, k).state == Succeeded <==>
      exists i :: k <= i < |obs| && i < k + MaxRetries - n && !obs[i]
  {
    if exists i :: k <= i < |obs| && i < k + MaxRetries - n && !obs[i] {
      var i :| k <= i < |obs| && i < k + MaxRetries - n && !obs[i];
      SucceededWhen(n, obs, k, i);
    }
    SucceededOnlyWhen(n, obs, k);
  }

  /** With a button, `MaxRetries` checks (50 seconds) always end the loop. */
  lemma SessionTerminates(obs: seq<bool>)
    requires |obs| >= MaxRetries
    ensures Terminal(Session(true, obs).state)
  {
    TerminatesFrom(0, obs, 0);
  }

  /** The session gives up exactly when its first `MaxRetries` checks all fail,
      and it then has issued exactly `MaxRetries` submits. */
  lemma SessionFailedIff(obs: seq<bool>)
    ensures Session(true, obs).state == Failed <==>
      |obs| >= MaxRetries && forall i :: 0 <= i < MaxRetries ==> obs[i]
    ensures Session(true, obs).state == Failed ==> Session(true, obs).submits == MaxRetries
  {
    FailedIff(0, obs, 0);
    RunConsistent(Attempt(0), obs, 0);
  }

  /** The session succeeds exactly when one of its first `MaxRetries` checks
      sees the page gone, and then it has issued one submit per check made. */
  lemma SessionSucceededIff(obs: seq<bool>)
    ensures Session(true, obs).state == Succeeded <==>
      exists i :: 0 <= i < |obs| && i < MaxRetries && !obs[i]
    ensures Session(true, obs).state == Succeeded ==>
      Session(true, obs).submits == Session(true, obs).checks
  {
    SucceededIff(0, obs, 0);
    RunConsistent(Attempt(0), obs, 0);
  }

  /** When every check fails, exactly `MaxRetries` submits happen and the loop gives up. */
  lemma AllChecksFail(obs: seq<bool>)
    requires |obs| >= MaxRetries
    requires forall i :: 0 <= i < |obs| ==> obs[i]
    ensures Session(true, obs) == Loop(Failed, MaxRetries, MaxRetries)
  {
    FailedWhen(0, obs, 0);
  }

  /** When the first check already sees the page gone, one submit was enough. */
  lemma FirstCheckSucceeds(obs: seq<bool>)
    requires obs != [] && !obs[0]
    ensures Session(true, obs) == Loop(Succeeded, 1, 1)
  {
    SucceededAt(0, obs, 0, 0);
  }
}
