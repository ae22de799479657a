/**
  The detail page's fill: every fillable text input, in document order, is set
  to the target score (one edit, with its event triple, per input), then every
  text area gets a comment chosen by `Math.random()` from the canned list. The
  pauses between edits are left to the caller.
 */
module Fill {
  import opened Config
  import opened Strings
  import opened Form

  /** Number of inputs the fill edits. */
  function CountFillable(xs: seq<Input>): (n: nat)
    ensures n <= |xs|
  {
    if xs == [] then 0
    else CountFillable(xs[..|xs| - 1]) + (if Fillable(xs[|xs| - 1]) then 1 else 0)
  }

  /** The fill edits no input exactly when none is fillable, and every input
      exactly when all are. */
  lemma {:induction false} CountFillableExtremes(xs: seq<Input>)
    ensures CountFillable(xs) == 0 <==> forall i :: 0 <= i < |xs| ==> !Fillable(xs[i])
    ensures CountFillable(xs) == |xs| <==> forall i :: 0 <= i < |xs| ==> Fillable(xs[i])
  {
    if xs != [] {
      var ys := xs[..|xs| - 1];
      CountFillableExtremes(ys);
      assert forall i :: 0 <= i < |ys| ==> ys[i] == xs[i];
    }
  }

  /** Every input the fill edits holds the target score. */
  predicate ScoresFilled(xs: seq<Input>) {
    forall i :: 0 <= i < |xs| && Fillable(xs[i]) ==> xs[i].value == TargetScore
  }

  /** Every text area holds one of the canned comments. */
  predicate CommentsFilled(ts: seq<string>) {
    forall i :: 0 <= i < |ts| ==> ts[i] in Comments
  }

  /** The scores loop; `edits` counts the `setInputValue` calls. */
  method FillScores(xs: seq<Input>) returns (r: seq<Input>, edits: nat)
    ensures SameShape(xs, r)
    ensures ScoresFilled(r)
    ensures forall i :: 0 <= i < |xs| && !Fillable(xs[i]) ==> r[i] == xs[i]
    ensures edits == CountFillable(xs)
  {
    r := xs;
    edits := 0;
    var i := 0;
    while i < |xs|
      invariant 0 <= i <= |xs|
      invariant SameShape(xs, r)
      invariant forall j :: 0 <= j < i && Fillable(xs[j]) ==> r[j].value == TargetScore
      invariant forall j :: 0 <= j < |xs| && (j >= i || !Fillable(xs[j])) ==> r[j] == xs[j]
      invariant edits == CountFillable(xs[..i])
    {
      assert xs[..i + 1][..i] == xs[..i];
      if Fillable(xs[i]) {
        r := SetValue(r, i, TargetScore);
        edits := edits + 1;
      }
      i := i + 1;
    }
    assert xs[..i] == xs;
  }

  /** `Math.floor(draw * comments.length)` for a draw of `Math.random()`. */
  function CommentIndex(draw: real): (k: nat)
    requires 0.0 <= draw < 1.0
    ensures k < |Comments|
  {
    var x := draw * |Comments| as real;
    assert 0.0 <= x < |Comments| as real;
    x.Floor
  }

  /** The comments loop: text area `i` takes the comment picked by `draws[i]`. */
  function FillComments(ts: seq<string>, draws: seq<real>): (r: seq<string>)
    requires |draws| == |ts|
    requires forall i :: 0 <= i < |draws| ==> 0.0 <= draws[i] < 1.0
    ensures |r| == |ts|
    ensures CommentsFilled(r)
  {
    seq(|ts|, i requires 0 <= i < |ts| => Comments[CommentIndex(draws[i])])
  }

  /** Every canned comment already ends with the full stop the correction restores. */
  lemma CommentsEndWithFullStop()
    ensures forall c :: c in Comments ==> EndsWith(c, FullStop)
  {
    forall c | c in Comments
      ensures EndsWith(c, FullStop)
    {
      var k :| 0 <= k < |Comments| && Comments[k] == c;
      assert c[|c| - 1] == '。';
      assert c[|c| - 1..] == FullStop;
    }
  }

  /** The page once the fill has run to completion. */
  method FillPage(p: Page, draws: seq<real>) returns (q: Page, edits: nat)
    requires |draws| == |p.textareas|
    requires forall i :: 0 <= i < |draws| ==> 0.0 <= draws[i] < 1.0
    ensures SameShape(p.inputs, q.inputs) && |q.textareas| == |p.textareas|
    ensures ScoresFilled(q.inputs) && CommentsFilled(q.textareas)
    ensures forall i :: 0 <= i < |p.inputs| && !Fillable(p.inputs[i]) ==> q.inputs[i] == p.inputs[i]
    ensures edits == CountFillable(p.inputs)
  {
    var xs;
    xs, edits := FillScores(p.inputs);
    q := Page(xs, FillComments(p.textareas, draws));
  }
}
