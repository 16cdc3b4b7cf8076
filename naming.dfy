/** The name of the file a document is written to: POSIX `os.path.basename`, then
    `os.path.splitext`, then `"_speech.wav"` appended to the root; and `os.path.join`
    of the output directory with that name. */
module Naming {

  const Sep: char := '/'
  const ExtSep: char := '.'
  const Suffix: string := "_speech.wav"

  /** `s.rfind(c)`: the index of the last `c` in `s`, or -1 when there is none. */
  function LastIndexOf(s: string, c: char): (k: int)
    ensures -1 <= k < |s|
    ensures k >= 0 ==> s[k] == c
    ensures forall j :: k < j < |s| ==> s[j] != c
    decreases |s|
  {
    if s == [] then -1
    else if s[|s| - 1] == c then |s| - 1
    else LastIndexOf(s[..|s| - 1], c)
  }

  /** The last `c` is at `k` when `s[k]` is `c` and none follows it. */
  lemma LastIndexOfIs(s: string, c: char, k: int)
    requires -1 <= k < |s| && (k >= 0 ==> s[k] == c)
    requires forall j :: k < j < |s| ==> s[j] != c
    ensures LastIndexOf(s, c) == k
  {
  }

  /** `posixpath.basename(p)`: what follows the last `/`. The result is a suffix of `p`
      holding no `/`, and what precedes it is empty or ends with `/`. */
  function Basename(p: string): (r: string)
    ensures |r| <= |p| && r == p[|p| - |r|..]
    ensures Sep !in r
    ensures |r| == |p| || p[|p| - |r| - 1] == Sep
  {
    var i := LastIndexOf(p, Sep) + 1;
    assert forall j :: 0 <= j < |p[i..]| ==> p[i..][j] == p[i + j];
    p[i..]
  }

  /** Every character of `s` from index `lo` up to `hi` is a `.`. */
  predicate DotsBetween(s: string, lo: int, hi: int) {
    forall j :: lo <= j < hi && 0 <= j < |s| ==> s[j] == ExtSep
  }

  /** No `/` and no `.` at or after index `k` of `s`. */
  predicate NoneAfter(s: string, k: int) {
    forall j :: k <= j < |s| && 0 <= j ==> s[j] != Sep && s[j] != ExtSep
  }

  /** No `/` at or after index `k` of `s`: `k` lies in the last component. */
  predicate InLastComponent(s: string, k: int) {
    forall j :: k <= j < |s| && 0 <= j ==> s[j] != Sep
  }

  /** `k` is the last `.` of `s`, and no `/` follows it. */
  predicate IsLastDot(s: string, k: int) {
    0 <= k < |s| && s[k] == ExtSep && NoneAfter(s, k + 1)
  }

  /** In the last component of `s`, only dots come before index `k`. */
  predicate OnlyDotsBefore(s: string, k: int) {
    forall j :: 0 <= j < k && j < |s| && InLastComponent(s, j) ==> s[j] == ExtSep
  }

  /** `posixpath.splitext(p)`: the cut is at the last `.` of the last component, kept only
      when something other than dots precedes that `.` in the component (so a leading
      dot, as in `.txt`, starts no extension). The root and the extension make `p`
      again; a non-empty extension is one `.` followed by neither `.` nor `/`; the
      root of a non-empty extension has a non-dot in its last component; and an empty
      extension means only dots precede the last `.`, if any, in the last component. */
  function SplitExt(p: string): (r: (string, string))
    ensures r.0 + r.1 == p
    ensures r.1 != [] ==> r.1[0] == ExtSep && NoneAfter(r.1, 1)
    ensures r.1 != [] ==> !OnlyDotsBefore(r.0, |r.0|)
    ensures r.1 == [] ==> forall k :: IsLastDot(p, k) ==> OnlyDotsBefore(p, k)
  {
    var sepIndex := LastIndexOf(p, Sep);
    var dotIndex := LastIndexOf(p, ExtSep);
    if dotIndex > sepIndex && !DotsBetween(p, sepIndex + 1, dotIndex) then
      SplitAtDot(p, sepIndex, dotIndex);
      (p[..dotIndex], p[dotIndex..])
    else
      NoSplit(p, sepIndex, dotIndex);
      (p, "")
  }

  lemma SplitAtDot(p: string, sepIndex: int, dotIndex: int)
    requires sepIndex == LastIndexOf(p, Sep) && dotIndex == LastIndexOf(p, ExtSep)
    requires dotIndex > sepIndex && !DotsBetween(p, sepIndex + 1, dotIndex)
    ensures NoneAfter(p[dotIndex..], 1)
    ensures !OnlyDotsBefore(p[..dotIndex], dotIndex)
  {
    var root, ext := p[..dotIndex], p[dotIndex..];
    assert forall j :: 1 <= j < |ext| ==> ext[j] == p[dotIndex + j];
    var i :| sepIndex + 1 <= i < dotIndex && 0 <= i < |p| && p[i] != ExtSep;
    assert root[i] != ExtSep;
    assert InLastComponent(root, i) by {
      assert forall m :: i <= m < |root| ==> root[m] == p[m];
    }
  }

  lemma NoSplit(p: string, sepIndex: int, dotIndex: int)
    requires sepIndex == LastIndexOf(p, Sep) && dotIndex == LastIndexOf(p, ExtSep)
    requires !(dotIndex > sepIndex && !DotsBetween(p, sepIndex + 1, dotIndex))
    ensures forall k :: IsLastDot(p, k) ==> OnlyDotsBefore(p, k)
  {
    forall k | IsLastDot(p, k) ensures OnlyDotsBefore(p, k) {
      assert k == dotIndex;
      forall j | 0 <= j < k && j < |p| && InLastComponent(p, j) ensures p[j] == ExtSep {
        assert j > sepIndex;
      }
    }
  }

  /** Lines 57-58: the name of the output file of the document at `path`. */
  function OutputName(path: string): (r: string)
    ensures Sep !in r
    ensures |r| >= |Suffix| && r[|r| - |Suffix|..] == Suffix
  {
    var b := Basename(path);
    var parts := SplitExt(b);
    NoSepInParts(parts.0, parts.1);
    NoCharInConcat(parts.0, Suffix, Sep);
    var r := parts.0 + Suffix;
    assert r[|r| - |Suffix|..] == Suffix;
    r
  }

  lemma NoSepInParts(x: string, y: string)
    requires Sep !in x + y
    ensures Sep !in x
  {
    assert forall j :: 0 <= j < |x| ==> x[j] == (x + y)[j];
  }

  lemma NoCharInConcat(x: string, y: string, c: char)
    requires c !in x && c !in y
    ensures c !in x + y
  {
    assert forall j :: 0 <= j < |x + y| ==> (x + y)[j] == if j < |x| then x[j] else y[j - |x|];
  }

  /** `posixpath.join(a, b)` of two components. */
  function JoinPath(a: string, b: string): (r: string)
    ensures |b| <= |r| && r[|r| - |b|..] == b
    ensures b != [] && b[0] == Sep ==> r == b
    ensures (b == [] || b[0] != Sep) ==> r == a + b || r == a + [Sep] + b
  {
    if b != [] && b[0] == Sep then b
    else if a == [] || a[|a| - 1] == Sep then
      var r := a + b; assert r[|r| - |b|..] == b; r
    else
      var r := a + [Sep] + b; assert r[|r| - |b|..] == b; r
  }

  /** Only the last component of the path matters: the directories a document is in do
      not change its output name. */
  lemma OutputNameIgnoresDirectory(dir: string, name: string)
    requires Sep !in name
    ensures OutputName(dir + [Sep] + name) == OutputName(name)
  {
    var p := dir + [Sep] + name;
    assert p[|dir|] == Sep;
    assert p[|p| - |name|..] == name;
    BasenameAfterSep(p, name);
    BasenameOfName(name);
  }

  /** A name without `/` is its own basename. */
  lemma BasenameOfName(name: string)
    requires Sep !in name
    ensures Basename(name) == name
  {
    LastIndexOfIs(name, Sep, -1);
    assert name[0..] == name;
  }

  /** The basename of a path that ends with `/` and a name without `/` is that name. */
  lemma BasenameAfterSep(full: string, name: string)
    requires Sep !in name && |name| <= |full| && full[|full| - |name|..] == name
    requires |name| == |full| || full[|full| - |name| - 1] == Sep
    ensures Basename(full) == name
  {
    var k := |full| - |name| - 1;
    assert forall j :: k < j < |full| ==> full[j] == name[j - k - 1];
    LastIndexOfIs(full, Sep, k);
  }

  /** The output file lands directly in the output directory under the output name:
      the joined path is the directory followed by the name, with a `/` between them
      when the directory does not already end in one, and its basename is the name. */
  lemma OutputFileInDirectory(outputDir: string, path: string)
    ensures Basename(JoinPath(outputDir, OutputName(path))) == OutputName(path)
    ensures var n := OutputName(path); var r := JoinPath(outputDir, n);
      r == outputDir + n || r == outputDir + [Sep] + n
  {
    var name := OutputName(path);
    assert name[|name| - |Suffix|] == '_';
    assert name[0] != Sep;
    JoinedBasename(outputDir, name);
  }

  /** The basename of a directory joined with a relative name without `/` is that name. */
  lemma JoinedBasename(dir: string, name: string)
    requires Sep !in name && name != []
    ensures Basename(JoinPath(dir, name)) == name
  {
    var full := JoinPath(dir, name);
    if dir == [] {
      assert full == name;
    } else if dir[|dir| - 1] == Sep {
      assert full == dir + name;
      assert full[|dir| - 1] == Sep;
    } else {
      assert full == dir + [Sep] + name;
      assert full[|dir|] == Sep;
    }
    BasenameAfterSep(full, name);
  }

  /** A file name with an extension: `"notes.txt"` gives `"notes_speech.wav"`. */
  lemma StemOfExtension(stem: string, ext: string)
    requires Sep !in stem && Sep !in ext && ExtSep !in ext
    requires exists j :: 0 <= j < |stem| && stem[j] != ExtSep
    ensures OutputName(stem + [ExtSep] + ext) == stem + Suffix
  {
    var p := stem + [ExtSep] + ext;
    NoCharInConcat(stem, [ExtSep], Sep);
    NoCharInConcat(stem + [ExtSep], ext, Sep);
    BasenameOfName(p);
    RootOfExtension(stem, ext);
  }

  lemma RootOfExtension(stem: string, ext: string)
    requires Sep !in stem && Sep !in ext && ExtSep !in ext
    requires exists j :: 0 <= j < |stem| && stem[j] != ExtSep
    ensures SplitExt(stem + [ExtSep] + ext).0 == stem
  {
    var p := stem + [ExtSep] + ext;
    assert forall j :: 0 <= j < |p| ==>
      p[j] == if j < |stem| then stem[j] else if j == |stem| then ExtSep else ext[j - |stem| - 1];
    LastIndexOfIs(p, Sep, -1);
    LastIndexOfIs(p, ExtSep, |stem|);
    var j :| 0 <= j < |stem| && stem[j] != ExtSep;
    assert p[j] != ExtSep;
    assert p[..|stem|] == stem;
  }

  /** A name holding no `.` is kept whole. */
  lemma NameWithoutDot(name: string)
    requires Sep !in name && ExtSep !in name
    ensures OutputName(name) == name + Suffix
  {
    BasenameOfName(name);
    LastIndexOfIs(name, ExtSep, -1);
  }

  /** A name whose only dots lead it, such as `".txt"`, has no extension and is kept whole. */
  lemma LeadingDotsOnly(dots: string, rest: string)
    requires DotsBetween(dots, 0, |dots|) && dots != []
    requires Sep !in rest && ExtSep !in rest
    ensures OutputName(dots + rest) == dots + rest + Suffix
  {
    var p := dots + rest;
    assert Sep !in p by {
      assert forall j :: 0 <= j < |p| ==> p[j] == (if j < |dots| then dots[j] else rest[j - |dots|]);
    }
    assert LastIndexOf(p, Sep) == -1;
    assert Basename(p) == p;
    var d := LastIndexOf(p, ExtSep);
    assert d == |dots| - 1 by {
      assert p[|dots| - 1] == ExtSep;
      assert forall j :: |dots| <= j < |p| ==> p[j] == rest[j - |dots|];
    }
    assert DotsBetween(p, 0, d) by {
      assert forall j :: 0 <= j < d ==> p[j] == dots[j];
    }
  }

  /** `"input/notes.txt"` is written as `"notes_speech.wav"`. */
  lemma ExampleInDirectory()
    ensures OutputName("input/notes.txt") == "notes_speech.wav"
  {
    var dir, stem, ext := "input", "notes", "txt";
    assert stem[0] != ExtSep;
    assert Sep !in stem && Sep !in ext && ExtSep !in ext;
    assert "input/notes.txt" == dir + [Sep] + (stem + [ExtSep] + ext);
    assert stem + Suffix == "notes_speech.wav";
    assert Sep !in stem + [ExtSep] + ext;
    OutputNameIgnoresDirectory(dir, stem + [ExtSep] + ext);
    StemOfExtension(stem, ext);
  }

  /** Only the last extension goes: `"a.b.txt"` is written as `"a.b_speech.wav"`. */
  lemma ExampleTwoDots()
    ensures OutputName("a.b.txt") == "a.b_speech.wav"
  {
    var stem, ext := "a.b", "txt";
    assert stem[0] != ExtSep;
    assert Sep !in stem && Sep !in ext && ExtSep !in ext;
    assert "a.b.txt" == stem + [ExtSep] + ext;
    assert stem + Suffix == "a.b_speech.wav";
    StemOfExtension(stem, ext);
  }

  /** A leading dot starts no extension: `".txt"` is written as `".txt_speech.wav"`. */
  lemma ExampleLeadingDot()
    ensures OutputName(".txt") == ".txt_speech.wav"
  {
    var dots, rest := ".", "txt";
    assert DotsBetween(dots, 0, |dots|);
    assert Sep !in rest && ExtSep !in rest;
    assert ".txt" == dots + rest;
    assert dots + rest + Suffix == ".txt_speech.wav";
    LeadingDotsOnly(dots, rest);
  }
}
