/**
  The detail page end to end with the configured constants: the countdown's
  schedule, then the submit loop under the two extreme server behaviours.
 */
module Scenarios {
  import opened Config
  import opened Strings
  import opened Countdown
  import opened SubmitLoop

  /** With the 63-second dwell, tick 34 (0-based 33) requests the correction,
      tick 64 (0-based 63) expires the countdown and starts the submit loop,
      and every other tick only counts down. */
  lemma DwellSchedule()
    ensures Countdown.Run(Initial, BaseWaitSeconds).0 == Running(0)
    ensures Countdown.Run(Initial, BaseWaitSeconds + 1).0 == Expired
    ensures var acts := Countdown.Run(Initial, BaseWaitSeconds + 1).1;
      forall i :: 0 <= i < |acts| ==>
        acts[i] == if i == 33 then Correct else if i == 63 then StartSubmit else NoAction
  {
    RunSchedule(BaseWaitSeconds, BaseWaitSeconds);
    RunSchedule(BaseWaitSeconds, BaseWaitSeconds + 1);
  }

  /** A check made after the page has navigated away (the overlay is gone)
      reports success whatever the URL; one submit was issued. */
  lemma AcceptedAtFirstCheck(url: string, later: seq<Observation>)
    ensures Session(true, [StillOnPage(Observation(url, false))] + Verdicts(later)) == Loop(Succeeded, 1, 1)
  {
    FirstCheckSucceeds([StillOnPage(Observation(url, false))] + Verdicts(later));
  }

  /** When every check still sees the detail URL and the overlay, the loop
      submits exactly ten times and then gives up. */
  lemma RejectedEveryTime(url: string, obs: seq<Observation>)
    requires Contains(url, DetailMarker)
    requires |obs| >= MaxRetries
    requires forall i :: 0 <= i < |obs| ==> obs[i] == Observation(url, true)
    ensures Session(true, Verdicts(obs)) == Loop(Failed, 10, 10)
  {
    AllChecksFail(Verdicts(obs));
  }

  /** A typical detail-page URL is recognised as still on the page. */
  lemma DetailUrlStillOnPage()
    ensures StillOnPage(Observation("https://v.hbu.cn/xx/student/teachingEvaluation/evaluationPage", true))
  {
    var url := "https://v.hbu.cn/xx/student/teachingEvaluation/evaluationPage";
    assert OccursAt(url, DetailMarker, 47);
  }
}
