/**
  The midway correction, run on the countdown tick that sees 30 seconds left.
  When the page is hidden it does nothing. Otherwise it clears the last
  editable text input and, after a pause, writes the target score back; then
  it cuts the last character off the first text area and, after a pause,
  writes back the original text, with a full stop appended when the original
  did not end with one. Each half is skipped when its field is missing.
 */
module Midway {
  import opened Optional
  import opened Config
  import opened Strings
  import opened Form
  import opened Fill

  /** The text area's final value, written from the text it held before the correction. */
  function Restore(original: string): (r: string)
    ensures EndsWith(r, FullStop)
    ensures |original| <= |r| <= |original| + 1 && r[..|original|] == original
    ensures r == original <==> EndsWith(original, FullStop)
  {
    if EndsWith(original, FullStop) then original else original + FullStop
  }

  /** The page after each of the correction's four writes. */
  datatype Correction = Correction(cleared: Page, rescored: Page, trimmed: Page, final: Page)

  /** Writes `v` into the last editable input, if there is one. */
  function WriteLastInput(p: Page, v: string): (q: Page)
    ensures SameShape(p.inputs, q.inputs) && q.textareas == p.textareas
    ensures LastEditable(p.inputs).Some? ==> q.inputs[LastEditable(p.inputs).value].value == v
    ensures forall i :: 0 <= i < |p.inputs| && LastEditable(p.inputs) != Some(i) ==> q.inputs[i] == p.inputs[i]
  {
    match LastEditable(p.inputs)
    case None => p
    case Some(k) => p.(inputs := SetValue(p.inputs, k, v))
  }

  /** Writes `v` into the first text area, if there is one. */
  function WriteFirstTextarea(p: Page, v: string): (q: Page)
    ensures q.inputs == p.inputs && |q.textareas| == |p.textareas|
    ensures |p.textareas| > 0 ==> q.textareas[0] == v
    ensures forall i :: 0 < i < |p.textareas| ==> q.textareas[i] == p.textareas[i]
  {
    if |p.textareas| == 0 then p else p.(textareas := p.textareas[0 := v])
  }

  /** `performMidwayCorrection` on page `p`, `hidden` being `document.hidden`. */
  function Correct(p: Page, hidden: bool): (c: Correction)
    ensures hidden ==> c == Correction(p, p, p, p)
    ensures SameShape(p.inputs, c.cleared.inputs) && SameShape(p.inputs, c.final.inputs)
    ensures c.cleared.textareas == p.textareas
    ensures forall i :: 0 <= i < |p.inputs| && LastEditable(p.inputs) != Some(i) ==> c.cleared.inputs[i] == p.inputs[i]
    ensures |c.trimmed.textareas| == |p.textareas| && |c.final.textareas| == |p.textareas|
    ensures c.rescored.inputs == c.final.inputs && c.rescored.textareas == p.textareas
    ensures c.trimmed.inputs == c.final.inputs
    ensures !hidden ==> forall i :: 0 <= i < |p.inputs| ==>
      c.final.inputs[i] == if LastEditable(p.inputs) == Some(i) then p.inputs[i].(value := TargetScore) else p.inputs[i]
    ensures !hidden && LastEditable(p.inputs).Some? ==>
      c.cleared.inputs[LastEditable(p.inputs).value].value == ""
    ensures !hidden && |p.textareas| > 0 ==>
      c.trimmed.textareas[0] == DropLast(p.textareas[0]) && c.final.textareas[0] == Restore(p.textareas[0])
    ensures forall i :: 0 < i < |p.textareas| ==>
      c.trimmed.textareas[i] == p.textareas[i] && c.final.textareas[i] == p.textareas[i]
  {
    if hidden then Correction(p, p, p, p)
    else
      var cleared := WriteLastInput(p, "");
      var rescored := WriteLastInput(cleared, TargetScore);
      LastEditableIgnoresValues(p.inputs, cleared.inputs);
      if |rescored.textareas| == 0 then Correction(cleared, rescored, rescored, rescored)
      else
        var original := rescored.textareas[0];
        var trimmed := WriteFirstTextarea(rescored, DropLast(original));
        Correction(cleared, rescored, trimmed, WriteFirstTextarea(trimmed, Restore(original)))
  }

  /** A second correction changes nothing: the final values are a fixed point. */
  lemma CorrectIdempotent(p: Page)
    ensures Correct(Correct(p, false).final, false).final == Correct(p, false).final
  {
    var q := Correct(p, false).final;
    LastEditableIgnoresValues(p.inputs, q.inputs);
    ValueNeutralIff(q);
  }

  /** The correction leaves the page as it was exactly when the last editable
      input already holds the target score and the first text area already
      ends with a full stop (each when present). */
  lemma ValueNeutralIff(p: Page)
    ensures Correct(p, false).final == p <==>
      (LastEditable(p.inputs).Some? ==> p.inputs[LastEditable(p.inputs).value].value == TargetScore)
      && (|p.textareas| > 0 ==> EndsWith(p.textareas[0], FullStop))
  {
    var q := Correct(p, false).final;
    if (LastEditable(p.inputs).Some? ==> p.inputs[LastEditable(p.inputs).value].value == TargetScore)
      && (|p.textareas| > 0 ==> EndsWith(p.textareas[0], FullStop))
    {
      assert q.inputs == p.inputs;
      assert q.textareas == p.textareas;
    }
  }

  /** After a completed fill the correction is value-neutral, provided the
      input it rewrites is one the fill edited. */
  lemma NeutralAfterFill(p: Page)
    requires ScoresFilled(p.inputs) && CommentsFilled(p.textareas)
    requires LastEditable(p.inputs).Some? ==> Fillable(p.inputs[LastEditable(p.inputs).value])
    ensures Correct(p, false).final == p
  {
    CommentsEndWithFullStop();
    ValueNeutralIff(p);
  }

  /** An editable input hidden by its inline style is skipped by the fill but
      rewritten by the correction, so a filled page can still change. */
  lemma HiddenInputRewritten()
    ensures var p := Page([Input("", false, false, true)], []);
      ScoresFilled(p.inputs) && Correct(p, false).final != p
  {
    var p := Page([Input("", false, false, true)], []);
    assert LastEditable(p.inputs) == Some(0);
    assert Correct(p, false).final.inputs[0].value == TargetScore;
  }

  /** A comment without a final full stop gets exactly one appended. */
  lemma FullStopAppended(s: string)
    requires !EndsWith(s, FullStop)
    ensures Restore(s) == s + FullStop
  {
  }
}
