/**
  The JavaScript string operations the script relies on, over `seq<char>`:
  `indexOf`, `endsWith`, `slice(0, -1)` and `trim`.
 */
module Strings {

  /** `t` occurs in `s` starting at position `i`. */
  predicate OccursAt(s: string, t: string, i: nat) {
    i + |t| <= |s| && s[i..i + |t|] == t
  }

  /** `t` is a substring of `s`. */
  predicate Contains(s: string, t: string) {
    exists i: nat :: i <= |s| && OccursAt(s, t, i)
  }

  /** `s.indexOf(t, from)` for `from <= |s|`: the first occurrence at or after `from`, or -1. */
  function IndexOfFrom(s: string, t: string, from: nat): (r: int)
    requires from <= |s|
    ensures r == -1 || (from <= r && OccursAt(s, t, r))
    ensures r == -1 ==> forall i: nat :: from <= i ==> !OccursAt(s, t, i)
    ensures r != -1 ==> forall i: nat :: from <= i < r ==> !OccursAt(s, t, i)
    decreases |s| - from
  {
    if OccursAt(s, t, from) then from
    else if from == |s| then -1
    else IndexOfFrom(s, t, from + 1)
  }

  /** `s.indexOf(t)`: the position of the first occurrence of `t`, or -1 when there is none. */
  function IndexOf(s: string, t: string): (r: int)
    ensures r != -1 <==> Contains(s, t)
    ensures r != -1 ==> 0 <= r && OccursAt(s, t, r) && forall i: nat :: i < r ==> !OccursAt(s, t, i)
  {
    IndexOfFrom(s, t, 0)
  }

  /** `s.endsWith(t)`: the last `|t|` characters of `s` are those of `t`. */
  predicate EndsWith(s: string, t: string) {
    |t| <= |s| && s[|s| - |t|..] == t
  }

  /** `s` ends with `t` exactly when it is some text followed by `t`. */
  lemma EndsWithIff(s: string, t: string)
    ensures EndsWith(s, t) <==> exists u: string :: s == u + t
  {
    if EndsWith(s, t) {
      assert s == s[..|s| - |t|] + t;
    }
    if exists u: string :: s == u + t {
      var u: string :| s == u + t;
      assert s[|s| - |t|..] == t;
    }
  }

  /** `s.slice(0, -1)`: everything but the last character; the empty string stays empty. */
  function DropLast(s: string): (r: string)
    ensures |s| == 0 ==> r == []
    ensures |s| > 0 ==> |r| == |s| - 1 && r + [s[|s| - 1]] == s
  {
    if |s| == 0 then s else s[..|s| - 1]
  }

  /** The characters `String.prototype.trim` removes: WhiteSpace (including every
      Unicode space separator) and LineTerminator. */
  predicate IsJsSpace(c: char) {
    || c == '\t' || c == '\n' || c == '\U{000B}' || c == '\U{000C}' || c == '\r'
    || c == ' ' || c == '\U{00A0}' || c == '\U{1680}'
    || ('\U{2000}' <= c <= '\U{200A}')
    || c == '\U{2028}' || c == '\U{2029}' || c == '\U{202F}' || c == '\U{205F}'
    || c == '\U{3000}' || c == '\U{FEFF}'
  }

  predicate AllSpace(s: string) {
    forall i :: 0 <= i < |s| ==> IsJsSpace(s[i])
  }

  /** `s.trimStart()`: the suffix of `s` left after its leading white space. */
  function TrimStart(s: string): (r: string)
    ensures |r| <= |s| && r == s[|s| - |r|..]
    ensures AllSpace(s[..|s| - |r|])
    ensures r == [] || !IsJsSpace(r[0])
  {
    if s != [] && IsJsSpace(s[0]) then TrimStart(s[1..]) else s
  }

  /** `s.trimEnd()`: the prefix of `s` left before its trailing white space. */
  function TrimEnd(s: string): (r: string)
    ensures |r| <= |s| && r == s[..|r|]
    ensures AllSpace(s[|r|..])
    ensures r == [] || !IsJsSpace(r[|r| - 1])
  {
    if s != [] && IsJsSpace(s[|s| - 1]) then TrimEnd(s[..|s| - 1]) else s
  }

  /** `s.trim()`: `s` without its leading and trailing white space. */
  function Trim(s: string): (r: string)
    ensures |r| <= |s|
    ensures r == [] || (!IsJsSpace(r[0]) && !IsJsSpace(r[|r| - 1]))
  {
    TrimEnd(TrimStart(s))
  }

  /** Leading white space is all `trimStart` removes. */
  lemma {:induction false} TrimStartPadded(a: string, s: string)
    requires AllSpace(a) && (s == [] || !IsJsSpace(s[0]))
    ensures TrimStart(a + s) == s
    decreases |a|
  {
    if a != [] {
      assert (a + s)[1..] == a[1..] + s;
      TrimStartPadded(a[1..], s);
    }
  }

  /** Trailing white space is all `trimEnd` removes. */
  lemma {:induction false} TrimEndPadded(s: string, b: string)
    requires AllSpace(b) && (s == [] || !IsJsSpace(s[|s| - 1]))
    ensures TrimEnd(s + b) == s
    decreases |b|
  {
    if b != [] {
      assert (s + b)[..|s + b| - 1] == s + b[..|b| - 1];
      TrimEndPadded(s, b[..|b| - 1]);
    } else {
      assert s + b == s;
    }
  }

  /** Any white space around a text that neither starts nor ends with white
      space is exactly what `trim` removes. */
  lemma TrimPadded(a: string, s: string, b: string)
    requires AllSpace(a) && AllSpace(b)
    requires s == [] || (!IsJsSpace(s[0]) && !IsJsSpace(s[|s| - 1]))
    ensures Trim(a + s + b) == s
  {
    if s == [] {
      assert a + s + b == a + b;
      assert AllSpace(a + b);
      TrimStartPadded(a + b, []);
      assert a + b + [] == a + b;
    } else {
      assert a + s + b == a + (s + b);
      TrimStartPadded(a, s + b);
      TrimEndPadded(s, b);
    }
  }

  /** `t` is `s` with only white space added on either side. */
  predicate Padded(t: string, s: string) {
    exists i: nat :: i <= |t| && OccursAt(t, s, i) && AllSpace(t[..i]) && AllSpace(t[i + |s|..])
  }

  /** Every text is its trimmed form padded with white space. */
  lemma TrimPads(t: string)
    ensures Padded(t, Trim(t))
  {
    var a := TrimStart(t);
    var r := TrimEnd(a);
    var i := |t| - |a|;
    assert t[i..i + |r|] == r;
    assert t[i + |r|..] == a[|r|..];
    assert OccursAt(t, r, i);
  }

  /** For a text that neither starts nor ends with white space, trimming
      yields it exactly from the texts that pad it with white space. */
  lemma TrimIff(t: string, s: string)
    requires s == [] || (!IsJsSpace(s[0]) && !IsJsSpace(s[|s| - 1]))
    ensures Trim(t) == s <==> Padded(t, s)
  {
    TrimPads(t);
    if Padded(t, s) {
      var i: nat :| i <= |t| && OccursAt(t, s, i) && AllSpace(t[..i]) && AllSpace(t[i + |s|..]);
      TrimPaddedAt(t, s, i);
    }
  }

  /** `TrimPadded` with the padding given by the position of `s` in `t`. */
  lemma TrimPaddedAt(t: string, s: string, i: nat)
    requires s == [] || (!IsJsSpace(s[0]) && !IsJsSpace(s[|s| - 1]))
    requires OccursAt(t, s, i) && AllSpace(t[..i]) && AllSpace(t[i + |s|..])
    ensures Trim(t) == s
  {
    assert t == t[..i] + s + t[i + |s|..];
    TrimPadded(t[..i], s, t[i + |s|..]);
  }

  /** Trimming is idempotent. */
  lemma TrimIdempotent(s: string)
    ensures Trim(Trim(s)) == Trim(s)
  {
    var t := Trim(s);
    if t != [] {
      assert TrimStart(t) == t;
      assert TrimEnd(t) == t;
    }
  }
}
