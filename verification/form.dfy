/**
  The detail page's form as the script sees it: the text inputs (in document
  order) with the attributes its filters read, and the text areas.
 */
module Form {
  import opened Optional

  /** A text input: its value, and the attributes the filters test
      (`displayNone` is an inline `style.display` of `none`). */
  datatype Input = Input(value: string, readOnly: bool, disabled: bool, displayNone: bool)

  datatype Page = Page(inputs: seq<Input>, textareas: seq<string>)

  /** The correction's filter: neither read-only nor disabled. */
  predicate Editable(x: Input) {
    !x.readOnly && !x.disabled
  }

  /** The fill's filter, which also skips inputs hidden by their inline style. */
  predicate Fillable(x: Input) {
    Editable(x) && !x.displayNone
  }

  /** Two input lists that differ at most in the values held. */
  predicate SameShape(xs: seq<Input>, ys: seq<Input>) {
    |xs| == |ys| && forall i :: 0 <= i < |xs| ==> xs[i].(value := "") == ys[i].(value := "")
  }

  /** The position of the last editable input, if there is one. */
  function LastEditable(xs: seq<Input>): (r: Option<nat>)
    ensures r.None? <==> forall i :: 0 <= i < |xs| ==> !Editable(xs[i])
    ensures r.Some? ==> r.value < |xs| && Editable(xs[r.value])
    ensures r.Some? ==> forall i :: r.value < i < |xs| ==> !Editable(xs[i])
  {
    if xs == [] then None
    else if Editable(xs[|xs| - 1]) then Some(|xs| - 1)
    else LastEditable(xs[..|xs| - 1])
  }

  /** Changing values never changes which input is the last editable one. */
  lemma {:induction false} LastEditableIgnoresValues(xs: seq<Input>, ys: seq<Input>)
    requires SameShape(xs, ys)
    ensures LastEditable(xs) == LastEditable(ys)
    decreases |xs|
  {
    if xs != [] {
      var k := |xs| - 1;
      assert xs[k].(value := "") == ys[k].(value := "");
      assert Editable(xs[k]) <==> Editable(ys[k]);
      if !Editable(xs[k]) {
        assert SameShape(xs[..k], ys[..k]) by {
          forall i | 0 <= i < k
            ensures xs[..k][i].(value := "") == ys[..k][i].(value := "")
          {
            assert xs[..k][i] == xs[i] && ys[..k][i] == ys[i];
          }
        }
        LastEditableIgnoresValues(xs[..k], ys[..k]);
      }
    }
  }

  /** `xs` with the value of input `k` replaced by `v`. */
  function SetValue(xs: seq<Input>, k: nat, v: string): (r: seq<Input>)
    requires k < |xs|
    ensures SameShape(xs, r)
    ensures r[k].value == v
    ensures forall i :: 0 <= i < |xs| && i != k ==> r[i] == xs[i]
  {
    xs[k := xs[k].(value := v)]
  }
}
