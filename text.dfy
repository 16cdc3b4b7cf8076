/** Character classes, Python's `str.strip()` and `" ".join(...)` over Dafny strings. */
module Text {

  /** Python's `str.isspace()`, which is also what the regular expression class `\s`
      matches in a `str` pattern: the characters of bidirectional class WS, B or S
      and those of general category Zs. */
  predicate IsSpace(c: char) {
    ('\t' <= c <= '\r') || ('\U{1C}' <= c <= '\U{1F}') || c == ' ' ||
    c == '\U{85}' || c == '\U{A0}' || c == '\U{1680}' ||
    ('\U{2000}' <= c <= '\U{200A}') || c == '\U{2028}' || c == '\U{2029}' ||
    c == '\U{202F}' || c == '\U{205F}' || c == '\U{3000}'
  }

  predicate AllSpace(s: string) {
    forall i :: 0 <= i < |s| ==> IsSpace(s[i])
  }

  /** Neither the first nor the last character is whitespace (the empty string is stripped). */
  predicate IsStripped(s: string) {
    s == [] || (!IsSpace(s[0]) && !IsSpace(s[|s| - 1]))
  }

  /** Every character of `s` from index `lo` up to `hi` is whitespace. */
  predicate SpacesBetween(s: string, lo: int, hi: int) {
    forall k :: lo <= k < hi && 0 <= k < |s| ==> IsSpace(s[k])
  }

  /** Where `lstrip` stops, scanning right from `i`: the first non-whitespace
      character at or after `i`, or the end. */
  function SkipSpaces(s: string, i: nat): (j: nat)
    requires i <= |s|
    ensures i <= j <= |s| && SpacesBetween(s, i, j)
    ensures j == |s| || !IsSpace(s[j])
    decreases |s| - i
  {
    if i < |s| && IsSpace(s[i]) then SkipSpaces(s, i + 1) else i
  }

  /** Where `rstrip` stops, scanning left from `j` but not past `lo`: just after the
      last non-whitespace character before `j`, or `lo`. */
  function SkipSpacesBack(s: string, lo: nat, j: nat): (i: nat)
    requires lo <= j <= |s|
    ensures lo <= i <= j && SpacesBetween(s, i, j)
    ensures i == lo || !IsSpace(s[i - 1])
    decreases j
  {
    if j > lo && IsSpace(s[j - 1]) then SkipSpacesBack(s, lo, j - 1) else j
  }

  /** `s.strip()`: the part of `s` left between a whitespace prefix and a whitespace
      suffix, which neither starts nor ends with whitespace. */
  function Strip(s: string): (r: string)
    ensures IsStripped(r)
    ensures exists i, j :: 0 <= i <= j <= |s| && r == s[i..j] && SpacesBetween(s, 0, i) && SpacesBetween(s, j, |s|)
  {
    var i := SkipSpaces(s, 0);
    var j := SkipSpacesBack(s, i, |s|);
    var r := s[i..j];
    assert r != [] ==> r[0] == s[i] && r[|r| - 1] == s[j - 1];
    r
  }

  /** Strip leaves a string that is already stripped unchanged. */
  lemma StripStripped(s: string)
    requires IsStripped(s)
    ensures Strip(s) == s
  {
    assert s[0..|s|] == s;
  }

  /** A stripped string followed by whitespace strips back to itself. */
  lemma StripTrailing(t: string, w: string)
    requires IsStripped(t) && AllSpace(w)
    ensures Strip(t + w) == t
  {
    var s := t + w;
    assert forall k :: |t| <= k < |s| ==> s[k] == w[k - |t|];
    if t == [] {
      assert s == w;
    } else {
      assert s[0] == t[0] && s[|t| - 1] == t[|t| - 1];
      assert s[0..|t|] == t;
    }
  }

  /** `" ".join(ps)`, defined from the back, which is where the chunker appends. */
  function Join(ps: seq<string>): string
    decreases |ps|
  {
    if ps == [] then ""
    else if |ps| == 1 then ps[0]
    else Join(ps[..|ps| - 1]) + " " + ps[|ps| - 1]
  }

  /** Every element is non-empty and stripped. */
  predicate AllTrimmed(ps: seq<string>) {
    forall k :: 0 <= k < |ps| ==> ps[k] != [] && IsStripped(ps[k])
  }

  /** Joining non-empty stripped strings gives a non-empty stripped string that
      starts with the first one and ends with the last one. */
  lemma {:induction false} JoinTrimmed(ps: seq<string>)
    requires ps != [] && AllTrimmed(ps)
    ensures Join(ps) != [] && IsStripped(Join(ps))
    ensures ps[0] <= Join(ps)
    ensures Join(ps)[|Join(ps)| - 1] == ps[|ps| - 1][|ps[|ps| - 1]| - 1]
    decreases |ps|
  {
    if |ps| > 1 {
      var init := ps[..|ps| - 1];
      JoinTrimmed(init);
      assert init[0] == ps[0];
    }
  }

  /** Joining `a + b` puts one space between the joins of the two non-empty halves. */
  lemma {:induction false} JoinAppend(a: seq<string>, b: seq<string>)
    requires a != [] && b != []
    ensures Join(a + b) == Join(a) + " " + Join(b)
    decreases |b|
  {
    var ab := a + b;
    var last := b[|b| - 1];
    assert ab[|ab| - 1] == last;
    if |b| == 1 {
      assert ab[..|ab| - 1] == a;
    } else {
      var b' := b[..|b| - 1];
      assert ab[..|ab| - 1] == a + b';
      JoinAppend(a, b');
      assert Join(b) == Join(b') + " " + last;
      var x, y := Join(a), Join(b');
      assert Join(ab) == (x + " " + y) + " " + last;
      assert (x + " " + y) + " " + last == x + " " + (y + " " + last);
    }
  }
}
