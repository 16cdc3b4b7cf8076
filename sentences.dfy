/** The sentence split of `chunk_text`: `re.split(r'(?<=[.!?])\s+', s)`.

    The pattern matches a run of whitespace whose preceding character is `.`, `!`
    or `?`. The matcher scans left to right and `\s+` is greedy, so every match is a
    maximal run of whitespace: inside a run the preceding character is whitespace,
    so no match can start there. */
module Sentences {
  import opened Text

  predicate IsTerminal(c: char) {
    c == '.' || c == '!' || c == '?'
  }

  /** Number of whitespace characters at the front of `s`: where `lstrip` stops. */
  function LeadingSpaces(s: string): (n: nat)
    ensures n <= |s| && AllSpace(s[..n])
    ensures n == |s| || !IsSpace(s[n])
  {
    var n := SkipSpaces(s, 0);
    assert forall k :: 0 <= k < n ==> s[..n][k] == s[k];
    n
  }

  /** The pieces of `re.split(r'(?<=[.!?])\s+', s)`, in order. Like `re.split`, the
      result is never empty: the empty string splits into `[""]`. */
  function SplitSentences(s: string): (r: seq<string>)
    ensures r != [] && r[0] <= s
    decreases |s|
  {
    if s == [] then [""]
    else if |s| >= 2 && IsTerminal(s[0]) && IsSpace(s[1]) then
      var n := LeadingSpaces(s[1..]);
      [s[..1]] + SplitSentences(s[1 + n..])
    else
      var r := SplitSentences(s[1..]);
      PrefixCons(s, r[0]);
      [s[..1] + r[0]] + r[1..]
  }

  /** A prefix of the tail, after the first character, is a prefix. */
  lemma PrefixCons(s: string, p: string)
    requires s != [] && p <= s[1..]
    ensures s[..1] + p <= s
  {
    assert s[..1] + p == s[..1 + |p|];
  }

  /** The whitespace runs that `SplitSentences` cuts out, in order. */
  ghost function Separators(s: string): seq<string>
    decreases |s|
  {
    if s == [] then []
    else if |s| >= 2 && IsTerminal(s[0]) && IsSpace(s[1]) then
      var n := LeadingSpaces(s[1..]);
      [s[1..1 + n]] + Separators(s[1 + n..])
    else
      Separators(s[1..])
  }

  /** `ps[0] + gs[0] + ps[1] + gs[1] + ... + ps[|gs|]` */
  function Weave(ps: seq<string>, gs: seq<string>): string
    requires |ps| == |gs| + 1
    decreases |gs|
  {
    if gs == [] then ps[0] else ps[0] + gs[0] + Weave(ps[1..], gs[1..])
  }

  /** `p` holds no place where the pattern could match. */
  predicate NoCutInside(p: string) {
    forall j :: 0 < j < |p| ==> !(IsTerminal(p[j - 1]) && IsSpace(p[j]))
  }

  /** `ps` and `gs` are a split of `s` at exactly the maximal whitespace runs that
      follow a sentence-ending character: woven together they give back `s`; each
      separator is a non-empty whitespace run preceded by `.`, `!` or `?` and not
      followed by whitespace; no piece contains a further match. */
  ghost predicate IsSplitOf(s: string, ps: seq<string>, gs: seq<string>) {
    && |ps| == |gs| + 1
    && Weave(ps, gs) == s
    && (forall k :: 0 <= k < |gs| ==> gs[k] != [] && AllSpace(gs[k]))
    && (forall k :: 0 <= k < |gs| ==> ps[k] != [] && IsTerminal(ps[k][|ps[k]| - 1]))
    && (forall k :: 1 <= k < |ps| ==> ps[k] == [] || !IsSpace(ps[k][0]))
    && (forall k :: 0 <= k < |ps| ==> NoCutInside(ps[k]))
  }

  lemma {:induction false} LeadingSpacesOf(w: string, x: string)
    requires AllSpace(w) && (x == [] || !IsSpace(x[0]))
    ensures LeadingSpaces(w + x) == |w|
  {
    var s, n := w + x, LeadingSpaces(w + x);
    assert forall k :: 0 <= k < |w| ==> s[k] == w[k];
    assert forall k :: 0 <= k < n ==> s[..n][k] == s[k];
    assert x != [] ==> s[|w|] == x[0];
  }

  /** A split of `rest`, preceded by one more sentence `p` and one more separator `g`. */
  lemma {:induction false} SplitOfCons(p: string, g: string, rest: string, ps: seq<string>, gs: seq<string>)
    requires IsSplitOf(rest, ps, gs)
    requires p != [] && IsTerminal(p[|p| - 1]) && NoCutInside(p)
    requires g != [] && AllSpace(g)
    requires rest == [] || !IsSpace(rest[0])
    ensures IsSplitOf(p + g + rest, [p] + ps, [g] + gs)
  {
    var ps', gs' := [p] + ps, [g] + gs;
    assert ps'[1..] == ps && gs'[1..] == gs;
    assert ps[0] <= rest by {
      if gs != [] {
        assert rest == ps[0] + gs[0] + Weave(ps[1..], gs[1..]);
      }
    }
    assert ps[0] != [] ==> ps[0][0] == rest[0];
  }

  /** A split of `t` with one more character `c` at the front of its first sentence,
      where `c` and `t` do not form a match. */
  lemma {:induction false} SplitOfExtend(c: char, t: string, ps: seq<string>, gs: seq<string>)
    requires IsSplitOf(t, ps, gs)
    requires !(t != [] && IsTerminal(c) && IsSpace(t[0]))
    ensures IsSplitOf([c] + t, [[c] + ps[0]] + ps[1..], gs)
  {
    var p0 := [c] + ps[0];
    var ps' := [p0] + ps[1..];
    assert ps'[1..] == ps[1..];
    assert ps[0] <= t by {
      if gs != [] {
        assert t == ps[0] + gs[0] + Weave(ps[1..], gs[1..]);
      }
    }
    assert NoCutInside(p0) by {
      forall j | 0 < j < |p0|
        ensures !(IsTerminal(p0[j - 1]) && IsSpace(p0[j]))
      {
        if j == 1 {
          assert p0[1] == ps[0][0] == t[0];
        } else {
          assert p0[j - 1] == ps[0][j - 2] && p0[j] == ps[0][j - 1];
        }
      }
    }
    if gs == [] {
      assert Weave(ps', gs) == p0;
    } else {
      assert Weave(ps', gs) == p0 + gs[0] + Weave(ps[1..], gs[1..]);
      assert p0[|p0| - 1] == ps[0][|ps[0]| - 1];
    }
  }

  /** `SplitSentences` cuts `s` exactly as `IsSplitOf` describes. */
  lemma {:induction false} SplitCharacterised(s: string)
    ensures |SplitSentences(s)| == |Separators(s)| + 1
    ensures IsSplitOf(s, SplitSentences(s), Separators(s))
    decreases |s|, 1
  {
    if s == [] {
    } else if |s| >= 2 && IsTerminal(s[0]) && IsSpace(s[1]) {
      CharacteriseCut(s);
    } else {
      CharacteriseStep(s);
    }
  }

  lemma {:induction false} CharacteriseCut(s: string)
    requires |s| >= 2 && IsTerminal(s[0]) && IsSpace(s[1])
    ensures |SplitSentences(s)| == |Separators(s)| + 1
    ensures IsSplitOf(s, SplitSentences(s), Separators(s))
    decreases |s|, 0
  {
    var n := LeadingSpaces(s[1..]);
    var p, g, rest := s[..1], s[1..1 + n], s[1 + n..];
    assert g == s[1..][..n] && rest == s[1..][n..];
    assert s == p + g + rest;
    SplitCharacterised(rest);
    var ps', gs' := SplitSentences(rest), Separators(rest);
    SplitOfCons(p, g, rest, ps', gs');
    assert SplitSentences(s) == [p] + ps';
    assert Separators(s) == [g] + gs';
  }

  lemma {:induction false} CharacteriseStep(s: string)
    requires s != [] && !(|s| >= 2 && IsTerminal(s[0]) && IsSpace(s[1]))
    ensures |SplitSentences(s)| == |Separators(s)| + 1
    ensures IsSplitOf(s, SplitSentences(s), Separators(s))
    decreases |s|, 0
  {
    SplitCharacterised(s[1..]);
    var r := SplitSentences(s[1..]);
    SplitOfExtend(s[0], s[1..], r, Separators(s[1..]));
    assert s == [s[0]] + s[1..];
    assert s[..1] == [s[0]];
    assert SplitSentences(s) == [s[..1] + r[0]] + r[1..];
    assert Separators(s) == Separators(s[1..]);
  }

  /** The first sentence of a split that starts at a match is the single character before it. */
  lemma {:induction false} SplitOfUncons(s: string, ps: seq<string>, gs: seq<string>)
    requires IsSplitOf(s, ps, gs)
    requires |s| >= 2 && IsTerminal(s[0]) && IsSpace(s[1])
    ensures gs != [] && ps[0] == s[..1]
    ensures s[1..] == gs[0] + Weave(ps[1..], gs[1..])
    ensures IsSplitOf(Weave(ps[1..], gs[1..]), ps[1..], gs[1..])
    ensures Weave(ps[1..], gs[1..]) == [] || !IsSpace(Weave(ps[1..], gs[1..])[0])
    ensures LeadingSpaces(s[1..]) == |gs[0]|
    ensures s[1..1 + |gs[0]|] == gs[0] && s[1 + |gs[0]|..] == Weave(ps[1..], gs[1..])
  {
    var w := Weave(ps[1..], gs[1..]);
    assert s == ps[0] + gs[0] + w;
    if gs[1..] == [] {
      assert w == ps[1];
    } else {
      assert ps[1..][1..] == ps[2..] && gs[1..][1..] == gs[2..];
      assert w == ps[1] + gs[1..][0] + Weave(ps[2..], gs[2..]);
      assert ps[1] != [];
    }
    LeadingSpacesOf(gs[0], w);
    var n := |gs[0]|;
    assert s[1..][..n] == gs[0] && s[1..][n..] == w;
  }

  /** Without a match at the front, dropping the first character drops it from the
      first sentence. */
  lemma {:induction false} SplitOfTail(s: string, ps: seq<string>, gs: seq<string>)
    requires IsSplitOf(s, ps, gs) && s != []
    requires !(|s| >= 2 && IsTerminal(s[0]) && IsSpace(s[1]))
    ensures ps[0] != [] && ps[0][0] == s[0]
    ensures IsSplitOf(s[1..], [ps[0][1..]] + ps[1..], gs)
  {
    if gs != [] {
      assert s == ps[0] + gs[0] + Weave(ps[1..], gs[1..]);
      if |ps[0]| == 1 {
        assert s[1] == gs[0][0];
      }
    }
    var p0 := ps[0][1..];
    var ps' := [p0] + ps[1..];
    assert ps'[1..] == ps[1..];
    if gs == [] {
      assert Weave(ps', gs) == p0;
    } else {
      assert Weave(ps', gs) == p0 + gs[0] + Weave(ps[1..], gs[1..]);
    }
    assert NoCutInside(p0) by {
      forall j | 0 < j < |p0|
        ensures !(IsTerminal(p0[j - 1]) && IsSpace(p0[j]))
      {
        assert p0[j - 1] == ps[0][j] && p0[j] == ps[0][j + 1];
      }
    }
  }

  /** Conversely, a split with the properties of `IsSplitOf` is the one `SplitSentences`
      computes: together the two lemmas say that `SplitSentences` cuts at exactly the
      maximal whitespace runs that follow `.`, `!` or `?`, and nowhere else. */
  lemma {:induction false} SplitUnique(s: string, ps: seq<string>, gs: seq<string>)
    requires IsSplitOf(s, ps, gs)
    ensures ps == SplitSentences(s) && gs == Separators(s)
    decreases |s|
  {
    if s == [] {
    } else if |s| >= 2 && IsTerminal(s[0]) && IsSpace(s[1]) {
      SplitOfUncons(s, ps, gs);
      SplitUnique(Weave(ps[1..], gs[1..]), ps[1..], gs[1..]);
      UniqueAtMatch(s, ps, gs);
    } else {
      SplitOfTail(s, ps, gs);
      SplitUnique(s[1..], [ps[0][1..]] + ps[1..], gs);
      UniqueInside(s, ps, gs);
    }
  }

  /** The step of `SplitUnique` at a match: the first sentence is the terminal
      character and the first separator is the whole whitespace run after it. */
  lemma UniqueAtMatch(s: string, ps: seq<string>, gs: seq<string>)
    requires |s| >= 2 && IsTerminal(s[0]) && IsSpace(s[1])
    requires |ps| == |gs| + 1 && gs != [] && ps[0] == s[..1]
    requires LeadingSpaces(s[1..]) == |gs[0]| && s[1..1 + |gs[0]|] == gs[0]
    requires ps[1..] == SplitSentences(s[1 + |gs[0]|..]) && gs[1..] == Separators(s[1 + |gs[0]|..])
    ensures ps == SplitSentences(s) && gs == Separators(s)
  {
    var n := |gs[0]|;
    SentencesAtMatch(s, n);
    SeparatorsAtMatch(s, n);
    HeadTail(ps);
    HeadTail(gs);
  }

  lemma HeadTail(x: seq<string>)
    requires x != []
    ensures x == [x[0]] + x[1..]
  {
  }

  lemma SentencesAtMatch(s: string, n: nat)
    requires |s| >= 2 && IsTerminal(s[0]) && IsSpace(s[1]) && n == LeadingSpaces(s[1..])
    ensures SplitSentences(s) == [s[..1]] + SplitSentences(s[1 + n..])
  {
  }

  lemma SeparatorsAtMatch(s: string, n: nat)
    requires |s| >= 2 && IsTerminal(s[0]) && IsSpace(s[1]) && n == LeadingSpaces(s[1..])
    ensures Separators(s) == [s[1..1 + n]] + Separators(s[1 + n..])
  {
  }

  lemma SentencesInside(s: string, r: seq<string>)
    requires s != [] && !(|s| >= 2 && IsTerminal(s[0]) && IsSpace(s[1]))
    requires r == SplitSentences(s[1..])
    ensures SplitSentences(s) == [s[..1] + r[0]] + r[1..]
    ensures Separators(s) == Separators(s[1..])
  {
  }

  /** The step of `SplitUnique` away from a match: the first character belongs to the
      first sentence. */
  lemma UniqueInside(s: string, ps: seq<string>, gs: seq<string>)
    requires s != [] && !(|s| >= 2 && IsTerminal(s[0]) && IsSpace(s[1]))
    requires ps != [] && ps[0] != [] && ps[0][0] == s[0]
    requires [ps[0][1..]] + ps[1..] == SplitSentences(s[1..]) && gs == Separators(s[1..])
    ensures ps == SplitSentences(s) && gs == Separators(s)
  {
    var r := SplitSentences(s[1..]);
    SentencesInside(s, r);
    RestoreFirst(s[..1], ps, r);
  }

  /** Putting the first character back in front of the first piece. */
  lemma RestoreFirst(c: string, ps: seq<string>, r: seq<string>)
    requires |c| == 1 && ps != [] && ps[0] != [] && ps[0][0] == c[0]
    requires [ps[0][1..]] + ps[1..] == r
    ensures ps == [c + r[0]] + r[1..]
  {
    assert r[0] == ps[0][1..] && r[1..] == ps[1..];
    assert c == ps[0][..1];
    assert ps[0] == c + r[0];
    assert ps == [ps[0]] + ps[1..];
  }

  /** The last piece is what follows the last separator. */
  lemma {:induction false} WeaveSnoc(ps: seq<string>, gs: seq<string>)
    requires |ps| == |gs| + 1 && gs != []
    ensures Weave(ps, gs) == Weave(ps[..|ps| - 1], gs[..|gs| - 1]) + gs[|gs| - 1] + ps[|ps| - 1]
    decreases |gs|
  {
    var init, seps := ps[..|ps| - 1], gs[..|gs| - 1];
    var last, sep := ps[|ps| - 1], gs[|gs| - 1];
    if |gs| == 1 {
      assert Weave(init, seps) == ps[0];
    } else {
      var ps', gs' := ps[1..], gs[1..];
      WeaveSnoc(ps', gs');
      assert init[1..] == ps'[..|ps'| - 1] && seps[1..] == gs'[..|gs'| - 1];
      assert ps'[|ps'| - 1] == last && gs'[|gs'| - 1] == sep;
      var w := Weave(init[1..], seps[1..]);
      assert Weave(ps', gs') == w + sep + last;
      assert Weave(init, seps) == ps[0] + gs[0] + w;
      assert Weave(ps, gs) == ps[0] + gs[0] + (w + sep + last);
    }
  }

  /** The pieces of a stripped, non-empty text are non-empty and stripped. */
  lemma {:induction false} SplitOfStripped(s: string, ps: seq<string>, gs: seq<string>)
    requires IsSplitOf(s, ps, gs) && IsStripped(s) && s != []
    ensures AllTrimmed(ps)
  {
    var last := |ps| - 1;
    if gs == [] {
      assert ps[0] == s;
    } else {
      WeaveSnoc(ps, gs);
      var g := gs[|gs| - 1];
      if ps[last] == [] {
        assert false;
      }
      assert s[|s| - 1] == ps[last][|ps[last]| - 1];
      assert ps[0] <= s by {
        assert s == ps[0] + gs[0] + Weave(ps[1..], gs[1..]);
      }
    }
    forall k | 0 <= k < |ps| ensures ps[k] != [] && IsStripped(ps[k]) {
      if k == 0 && gs != [] {
        assert ps[0][0] == s[0];
      }
    }
  }

  /** The split of a stripped text, as `chunk_text` uses it: the empty text gives
      exactly `[""]`, and otherwise every piece is non-empty and neither starts nor
      ends with whitespace. */
  lemma SentencesOfStripped(s: string)
    requires IsStripped(s)
    ensures s == [] <==> SplitSentences(s) == [""]
    ensures s != [] ==> AllTrimmed(SplitSentences(s))
  {
    if s != [] {
      SplitCharacterised(s);
      SplitOfStripped(s, SplitSentences(s), Separators(s));
    }
  }

  /** `n` single-space separators. */
  function Spaces(n: nat): (gs: seq<string>)
    ensures |gs| == n && forall k :: 0 <= k < n ==> gs[k] == " "
  {
    seq(n, k => " ")
  }

  /** Sentences woven with single spaces are their `" ".join`. */
  lemma {:induction false} WeaveSpaces(ps: seq<string>)
    requires ps != []
    ensures Weave(ps, Spaces(|ps| - 1)) == Join(ps)
    decreases |ps|
  {
    if |ps| > 1 {
      var gs := Spaces(|ps| - 1);
      WeaveSnoc(ps, gs);
      var init := ps[..|ps| - 1];
      WeaveSpaces(init);
      assert gs[..|gs| - 1] == Spaces(|init| - 1);
    }
  }

  /** Splitting undoes `" ".join` for sentences that end in `.`, `!` or `?` (all but
      the last), start with a non-whitespace character and hold no further match:
      `re.split` gives back exactly those sentences. */
  lemma SplitOfJoin(ps: seq<string>)
    requires ps != []
    requires forall k :: 0 <= k < |ps| ==> ps[k] != [] && !IsSpace(ps[k][0]) && NoCutInside(ps[k])
    requires forall k :: 0 <= k < |ps| - 1 ==> IsTerminal(ps[k][|ps[k]| - 1])
    ensures SplitSentences(Join(ps)) == ps
  {
    var gs := Spaces(|ps| - 1);
    WeaveSpaces(ps);
    assert IsSpace(' ');
    assert forall k :: 0 <= k < |gs| ==> gs[k] != [] && AllSpace(gs[k]);
    SplitUnique(Join(ps), ps, gs);
  }
}
