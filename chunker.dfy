/** `chunk_text`: the stripped text is split into sentences, which are packed greedily,
    in order, into chunks of at most `max_length` characters. */
module Chunker {
  import opened Text
  import opened Sentences

  /** The default `max_length` of `chunk_text`, the one the document pipeline uses. */
  const DefaultMaxLength := 300

  /** The text of `current_chunk` while it holds the sentences `g`: each one followed
      by a single space, or the empty string before the first sentence. */
  function Buffer(g: seq<string>): string {
    if g == [] then "" else Join(g) + " "
  }

  /** The loop state, as groups of sentences: the chunks already appended and the
      sentences held in `current_chunk`. */
  datatype Packing = Packing(closed: seq<seq<string>>, open: seq<string>)

  /** The loop state after the sentences `ps`, one loop iteration per sentence. */
  function Pack(ps: seq<string>, maxLength: int): Packing
    decreases |ps|
  {
    if ps == [] then Packing([], [])
    else
      var st := Pack(ps[..|ps| - 1], maxLength);
      var sentence := ps[|ps| - 1];
      if |Buffer(st.open)| + |sentence| <= maxLength then Packing(st.closed, st.open + [sentence])
      else Packing(st.closed + [st.open], [sentence])
  }

  /** The sentence groups that become chunks: the closed ones, and the open one when
      `current_chunk` is not empty at the end. */
  function Groups(ps: seq<string>, maxLength: int): seq<seq<string>> {
    var st := Pack(ps, maxLength);
    if st.open == [] then st.closed else st.closed + [st.open]
  }

  /** Each group joined by single spaces. */
  function JoinEach(gs: seq<seq<string>>): (r: seq<string>)
    ensures |r| == |gs|
  {
    seq(|gs|, j requires 0 <= j < |gs| => Join(gs[j]))
  }

  /** What `chunk_text(text, maxLength)` returns. */
  function ChunkSpec(text: string, maxLength: int): seq<string> {
    JoinEach(Groups(SplitSentences(Strip(text)), maxLength))
  }

  /** The groups, concatenated, in order. */
  function Concat(gs: seq<seq<string>>): seq<string>
    decreases |gs|
  {
    if gs == [] then [] else Concat(gs[..|gs| - 1]) + gs[|gs| - 1]
  }

  /** A group the `if` branch has added to (every group of two or more sentences, and
      the first group when it is not empty) is no longer than `maxLength` once joined. */
  predicate Fits(g: seq<string>, j: nat, maxLength: int) {
    (|g| >= 2 || (j == 0 && g != [])) ==> |Join(g)| <= maxLength
  }

  ghost predicate PackInvariant(ps: seq<string>, maxLength: int, st: Packing) {
    && Concat(st.closed) + st.open == ps
    && (ps == [] ==> st.closed == [])
    && (ps != [] ==> st.open != [])
    && (forall j :: 1 <= j < |st.closed| ==> st.closed[j] != [])
    && (ps != [] ==> ((st.closed != [] && st.closed[0] == []) <==> |ps[0]| > maxLength))
    && (forall j :: 0 <= j < |st.closed| ==> Fits(st.closed[j], j, maxLength))
    && Fits(st.open, |st.closed|, maxLength)
  }

  /** Appending through the `if` branch keeps a group within `maxLength`: the test
      `len(current_chunk) + len(sentence)` already counts the space that `strip` later
      removes. */
  lemma {:induction false} BufferFits(g: seq<string>, sentence: string, maxLength: int)
    requires |Buffer(g)| + |sentence| <= maxLength
    ensures |Join(g + [sentence])| <= maxLength
  {
    var g' := g + [sentence];
    if g != [] {
      assert g'[..|g'| - 1] == g;
    }
  }

  /** One iteration through the `if` branch keeps the invariant. */
  lemma {:induction false} StepAppend(init: seq<string>, sentence: string, maxLength: int, st: Packing)
    requires PackInvariant(init, maxLength, st)
    requires |Buffer(st.open)| + |sentence| <= maxLength
    ensures PackInvariant(init + [sentence], maxLength, Packing(st.closed, st.open + [sentence]))
  {
    BufferFits(st.open, sentence, maxLength);
    var ps := init + [sentence];
    if init != [] {
      assert ps[0] == init[0];
    }
  }

  /** One iteration through the `else` branch keeps the invariant. */
  lemma {:induction false} StepClose(init: seq<string>, sentence: string, maxLength: int, st: Packing)
    requires PackInvariant(init, maxLength, st)
    requires |Buffer(st.open)| + |sentence| > maxLength
    ensures PackInvariant(init + [sentence], maxLength, Packing(st.closed + [st.open], [sentence]))
  {
    var ps := init + [sentence];
    var closed := st.closed + [st.open];
    assert closed[..|closed| - 1] == st.closed;
    assert Concat(closed) == Concat(st.closed) + st.open;
    if init != [] {
      assert ps[0] == init[0];
    }
    assert forall j :: 0 <= j < |st.closed| ==> closed[j] == st.closed[j];
    assert st.closed != [] ==> st.open != [];
    assert closed[|st.closed|] == st.open;
  }

  lemma {:induction false} PackInvariantHolds(ps: seq<string>, maxLength: int)
    ensures PackInvariant(ps, maxLength, Pack(ps, maxLength))
    decreases |ps|
  {
    if ps != [] {
      var init := ps[..|ps| - 1];
      var sentence := ps[|ps| - 1];
      PackInvariantHolds(init, maxLength);
      var st := Pack(init, maxLength);
      assert ps == init + [sentence];
      if |Buffer(st.open)| + |sentence| <= maxLength {
        StepAppend(init, sentence, maxLength, st);
      } else {
        StepClose(init, sentence, maxLength, st);
      }
    }
  }

  /** The shape of the groups `chunk_text` builds from the sentences `ps`:
      - concatenated in order they are exactly `ps`, so every sentence is in exactly
        one chunk, in order, and none is split or truncated;
      - there is at least one when `ps` is not empty, and only the first can be empty;
      - the first is empty exactly when the first sentence alone is longer than
        `maxLength`;
      - every group of two or more sentences, and a non-empty first group, joins to at
        most `maxLength` characters, so a longer chunk is a single sentence. */
  lemma GroupsShape(ps: seq<string>, maxLength: int)
    ensures Concat(Groups(ps, maxLength)) == ps
    ensures ps != [] <==> Groups(ps, maxLength) != []
    ensures forall j :: 1 <= j < |Groups(ps, maxLength)| ==> Groups(ps, maxLength)[j] != []
    ensures ps != [] ==> (Groups(ps, maxLength)[0] == [] <==> |ps[0]| > maxLength)
    ensures forall j :: 0 <= j < |Groups(ps, maxLength)| ==> Fits(Groups(ps, maxLength)[j], j, maxLength)
  {
    PackInvariantHolds(ps, maxLength);
    var st := Pack(ps, maxLength);
    var gs := Groups(ps, maxLength);
    if st.open != [] {
      assert gs[..|gs| - 1] == st.closed;
      assert Concat(gs) == Concat(st.closed) + st.open;
      if st.closed == [] {
        assert gs[0] == st.open;
      } else {
        assert gs[0] == st.closed[0];
      }
    }
  }

  /** A chunk longer than `maxLength` holds exactly one sentence, whole, or (only for a
      negative `maxLength`) it is the empty first chunk. */
  lemma OversizedGroup(ps: seq<string>, maxLength: int, j: nat)
    requires j < |Groups(ps, maxLength)|
    requires |Join(Groups(ps, maxLength)[j])| > maxLength
    ensures var g := Groups(ps, maxLength)[j];
      (|g| == 1 && Join(g) == g[0]) || (j == 0 && g == [] && maxLength < 0)
  {
    GroupsShape(ps, maxLength);
  }

  /** The sentences of a stripped text are clean: either the single empty piece of an
      empty text, or all non-empty and stripped. */
  predicate Clean(ps: seq<string>) {
    ps == [""] || AllTrimmed(ps)
  }

  /** Stripping `current_chunk` removes exactly the trailing space. */
  lemma StripBuffer(g: seq<string>)
    requires g == [] || Clean(g)
    ensures Strip(Buffer(g)) == Join(g)
  {
    if g == [] {
      StripStripped("");
    } else {
      if g != [""] {
        JoinTrimmed(g);
      }
      StripTrailing(Join(g), " ");
    }
  }

  /** Any stretch of clean sentences that ends a prefix is clean. */
  lemma {:induction false} CleanPart(ps: seq<string>, i: nat, pre: seq<string>, part: seq<string>)
    requires Clean(ps) && i <= |ps| && pre + part == ps[..i]
    ensures part == [] || Clean(part)
  {
    if part != [] {
      if ps == [""] {
        assert |part| <= 1 && part[0] == ps[..i][|pre|];
      } else {
        forall k | 0 <= k < |part| ensures part[k] != [] && IsStripped(part[k]) {
          assert part[k] == ps[..i][|pre| + k] == ps[|pre| + k];
        }
      }
    }
  }

  /** The sentences in `current_chunk` are the last ones read, so they are as clean as
      all the sentences. */
  lemma OpenIsClean(ps: seq<string>, i: nat, maxLength: int)
    requires Clean(ps) && i <= |ps|
    ensures var open := Pack(ps[..i], maxLength).open; open == [] || Clean(open)
  {
    PackInvariantHolds(ps[..i], maxLength);
    var st := Pack(ps[..i], maxLength);
    CleanPart(ps, i, Concat(st.closed), st.open);
  }

  lemma JoinEachSnoc(gs: seq<seq<string>>, g: seq<string>)
    ensures JoinEach(gs + [g]) == JoinEach(gs) + [Join(g)]
  {
    assert forall j :: 0 <= j < |gs| ==> (gs + [g])[j] == gs[j];
  }

  /** An iteration through the `if` branch: the sentence joins `current_chunk`,
      followed by a space. */
  lemma LoopAppend(ps: seq<string>, i: nat, maxLength: int)
    requires i < |ps|
    requires |Buffer(Pack(ps[..i], maxLength).open)| + |ps[i]| <= maxLength
    ensures var st := Pack(ps[..i], maxLength);
      && Pack(ps[..i + 1], maxLength) == Packing(st.closed, st.open + [ps[i]])
      && Buffer(st.open + [ps[i]]) == Buffer(st.open) + ps[i] + " "
  {
    assert ps[..i + 1][..i] == ps[..i];
    var st := Pack(ps[..i], maxLength);
    if st.open != [] {
      var g := st.open + [ps[i]];
      assert g[..|g| - 1] == st.open;
    }
  }

  /** Appending `current_chunk.strip()` appends the join of the open group. */
  lemma CloseOpen(ps: seq<string>, i: nat, maxLength: int)
    requires Clean(ps) && i <= |ps|
    ensures var st := Pack(ps[..i], maxLength);
      JoinEach(st.closed + [st.open]) == JoinEach(st.closed) + [Strip(Buffer(st.open))]
  {
    var st := Pack(ps[..i], maxLength);
    OpenIsClean(ps, i, maxLength);
    StripBuffer(st.open);
    JoinEachSnoc(st.closed, st.open);
  }

  /** An iteration through the `else` branch: `current_chunk.strip()` is appended and
      the sentence starts the next chunk. */
  lemma LoopClose(ps: seq<string>, i: nat, maxLength: int)
    requires Clean(ps) && i < |ps|
    requires |Buffer(Pack(ps[..i], maxLength).open)| + |ps[i]| > maxLength
    ensures var st := Pack(ps[..i], maxLength);
      && Pack(ps[..i + 1], maxLength) == Packing(st.closed + [st.open], [ps[i]])
      && JoinEach(st.closed + [st.open]) == JoinEach(st.closed) + [Strip(Buffer(st.open))]
      && Buffer([ps[i]]) == ps[i] + " "
  {
    assert ps[..i + 1][..i] == ps[..i];
    CloseOpen(ps, i, maxLength);
  }

  /** After the loop: the final `current_chunk`, when not empty, is the last chunk. */
  lemma LoopEnd(ps: seq<string>, maxLength: int)
    requires Clean(ps)
    ensures var st := Pack(ps[..|ps|], maxLength);
      JoinEach(Groups(ps, maxLength)) ==
        if Buffer(st.open) != "" then JoinEach(st.closed) + [Strip(Buffer(st.open))]
        else JoinEach(st.closed)
  {
    assert ps[..|ps|] == ps;
    var st := Pack(ps, maxLength);
    if st.open != [] {
      CloseOpen(ps, |ps|, maxLength);
    }
  }

  /** `chunk_text(text, max_length)`: split the stripped text into sentences, then
      pack them greedily, appending `current_chunk.strip()` whenever the next
      sentence does not fit and once more at the end. */
  method ChunkText(text: string, maxLength: int) returns (chunks: seq<string>)
    ensures chunks == ChunkSpec(text, maxLength)
    ensures chunks != []
  {
    var sentences := SplitSentences(Strip(text));
    SentencesOfStripped(Strip(text));
    chunks := [];
    var current := "";
    for i := 0 to |sentences|
      invariant chunks == JoinEach(Pack(sentences[..i], maxLength).closed)
      invariant current == Buffer(Pack(sentences[..i], maxLength).open)
    {
      var sentence := sentences[i];
      if |current| + |sentence| <= maxLength {
        LoopAppend(sentences, i, maxLength);
        current := current + sentence + " ";
      } else {
        LoopClose(sentences, i, maxLength);
        chunks := chunks + [Strip(current)];
        current := sentence + " ";
      }
    }
    LoopEnd(sentences, maxLength);
    if current != "" {
      chunks := chunks + [Strip(current)];
    }
    GroupsShape(sentences, maxLength);
  }

  /** The first sentence of `text`, the one whose length decides whether the first
      chunk is empty. */
  function FirstSentence(text: string): string {
    SplitSentences(Strip(text))[0]
  }

  /** The chunks that are not empty, in order. */
  function NonEmptyChunks(cs: seq<string>): seq<string>
    decreases |cs|
  {
    if cs == [] then [] else (if cs[0] == "" then [] else [cs[0]]) + NonEmptyChunks(cs[1..])
  }

  /** Every sentence in a group is one of the sentences. */
  lemma {:induction false} ConcatMembers(gs: seq<seq<string>>, j: nat, k: nat)
    requires j < |gs| && k < |gs[j]|
    ensures gs[j][k] in Concat(gs)
    decreases |gs|
  {
    var init := gs[..|gs| - 1];
    if j < |gs| - 1 {
      assert init[j] == gs[j];
      ConcatMembers(init, j, k);
    } else {
      assert Concat(gs)[|Concat(init)| + k] == gs[j][k];
    }
  }

  /** The groups of a text that is not blank hold non-empty stripped sentences. */
  lemma GroupsTrimmed(text: string, maxLength: int, j: nat)
    requires Strip(text) != ""
    requires j < |Groups(SplitSentences(Strip(text)), maxLength)|
    ensures AllTrimmed(Groups(SplitSentences(Strip(text)), maxLength)[j])
  {
    var ps := SplitSentences(Strip(text));
    var gs := Groups(ps, maxLength);
    SentencesOfStripped(Strip(text));
    GroupsShape(ps, maxLength);
    forall k | 0 <= k < |gs[j]| ensures gs[j][k] != [] && IsStripped(gs[j][k]) {
      ConcatMembers(gs, j, k);
    }
  }

  /** Empty or whitespace-only text gives the single empty chunk, not an empty list
      (and, for a negative `maxLength`, an empty chunk before it). */
  lemma BlankTextChunks(text: string, maxLength: int)
    requires Strip(text) == ""
    ensures ChunkSpec(text, maxLength) == if maxLength >= 0 then [""] else ["", ""]
  {
    SentencesOfStripped(Strip(text));
    var ps := SplitSentences(Strip(text));
    assert ps == [""];
    assert ps[..|ps| - 1] == [];
    assert Pack(ps[..|ps| - 1], maxLength) == Packing([], []);
    assert |Buffer([])| + |ps[0]| == 0;
    var gs := Groups(ps, maxLength);
    if maxLength >= 0 {
      assert Pack(ps, maxLength) == Packing([], [""]);
      assert gs == [[""]];
    } else {
      assert Pack(ps, maxLength) == Packing([[]], [""]);
      assert gs == [[], [""]];
    }
  }

  /** For text that is not blank, the only empty chunk is a first chunk, and there is
      one exactly when the first sentence alone is longer than `maxLength`. */
  lemma EmptyChunks(text: string, maxLength: int)
    requires Strip(text) != ""
    ensures forall j :: 0 <= j < |ChunkSpec(text, maxLength)| ==>
      (ChunkSpec(text, maxLength)[j] == "" <==> j == 0 && |FirstSentence(text)| > maxLength)
  {
    var ps := SplitSentences(Strip(text));
    var gs := Groups(ps, maxLength);
    GroupsShape(ps, maxLength);
    forall j | 0 <= j < |gs|
      ensures Join(gs[j]) == "" <==> j == 0 && |ps[0]| > maxLength
    {
      if gs[j] != [] {
        GroupsTrimmed(text, maxLength, j);
        JoinTrimmed(gs[j]);
      }
    }
  }

  /** With a non-negative bound, a chunk longer than `maxLength` is exactly one of the
      sentences, whole. */
  lemma OversizedChunk(text: string, maxLength: int, j: nat)
    requires maxLength >= 0
    requires j < |ChunkSpec(text, maxLength)| && |ChunkSpec(text, maxLength)[j]| > maxLength
    ensures ChunkSpec(text, maxLength)[j] in SplitSentences(Strip(text))
  {
    var ps := SplitSentences(Strip(text));
    var gs := Groups(ps, maxLength);
    OversizedGroup(ps, maxLength, j);
    GroupsShape(ps, maxLength);
    ConcatMembers(gs, j, 0);
  }

  lemma {:induction false} NonEmptyChunksOfNonEmpty(cs: seq<string>)
    requires forall j :: 0 <= j < |cs| ==> cs[j] != ""
    ensures NonEmptyChunks(cs) == cs
    decreases |cs|
  {
    if cs != [] {
      NonEmptyChunksOfNonEmpty(cs[1..]);
    }
  }

  /** Joining the chunks of non-empty groups is joining all their sentences. */
  lemma {:induction false} JoinOfJoins(gs: seq<seq<string>>)
    requires forall j :: 0 <= j < |gs| ==> gs[j] != []
    ensures Join(JoinEach(gs)) == Join(Concat(gs))
    decreases |gs|
  {
    if gs != [] {
      var init := gs[..|gs| - 1];
      var g := gs[|gs| - 1];
      assert gs == init + [g];
      JoinEachSnoc(init, g);
      var cs := JoinEach(gs);
      assert cs[..|cs| - 1] == JoinEach(init);
      if init != [] {
        JoinOfJoins(init);
        assert Concat(init) != [] by {
          ConcatMembers(init, 0, 0);
        }
        JoinAppend(Concat(init), g);
      } else {
        assert Concat(gs) == g;
      }
    }
  }

  /** A leading empty group adds nothing to the concatenation. */
  lemma {:induction false} ConcatDropEmptyHead(gs: seq<seq<string>>)
    requires gs != [] && gs[0] == []
    ensures Concat(gs[1..]) == Concat(gs)
    decreases |gs|
  {
    if |gs| > 1 {
      var init := gs[..|gs| - 1];
      ConcatDropEmptyHead(init);
      assert init[1..] == gs[1..][..|gs[1..]| - 1];
    }
  }

  /** Completeness: dropping the empty chunks and joining the rest with single spaces
      gives the sentences joined with single spaces, so every sentence appears exactly
      once and in order. */
  lemma ChunksCoverSentences(text: string, maxLength: int)
    ensures Join(NonEmptyChunks(ChunkSpec(text, maxLength))) == Join(SplitSentences(Strip(text)))
  {
    if Strip(text) == "" {
      BlankTextChunks(text, maxLength);
      SentencesOfStripped(Strip(text));
      var cs := ChunkSpec(text, maxLength);
      assert NonEmptyChunks(cs[|cs| - 1..]) == [];
      assert NonEmptyChunks(cs) == [];
    } else {
      ChunksCoverText(text, maxLength);
    }
  }

  /** Joining the non-empty joins of groups, of which only the first may be empty, is
      joining all their sentences. */
  lemma {:induction false} CoverGroups(gs: seq<seq<string>>)
    requires forall j :: 1 <= j < |gs| ==> gs[j] != []
    requires forall j :: 0 <= j < |gs| ==> (Join(gs[j]) == "" <==> gs[j] == [])
    ensures Join(NonEmptyChunks(JoinEach(gs))) == Join(Concat(gs))
  {
    if gs != [] && gs[0] == [] {
      CoverGroupsEmptyHead(gs);
    } else {
      var cs := JoinEach(gs);
      assert forall j :: 0 <= j < |cs| ==> cs[j] != "";
      NonEmptyChunksOfNonEmpty(cs);
      JoinOfJoins(gs);
    }
  }

  lemma {:induction false} CoverGroupsEmptyHead(gs: seq<seq<string>>)
    requires gs != [] && gs[0] == []
    requires forall j :: 1 <= j < |gs| ==> gs[j] != []
    requires forall j :: 0 <= j < |gs| ==> (Join(gs[j]) == "" <==> gs[j] == [])
    ensures Join(NonEmptyChunks(JoinEach(gs))) == Join(Concat(gs))
  {
    var cs := JoinEach(gs);
    var rest := gs[1..];
    var cs' := JoinEach(rest);
    assert cs[0] == "";
    assert cs[1..] == cs' by {
      assert forall j :: 0 <= j < |cs'| ==> cs'[j] == Join(gs[j + 1]);
    }
    assert NonEmptyChunks(cs) == NonEmptyChunks(cs');
    assert forall j :: 0 <= j < |cs'| ==> cs'[j] != "" by {
      assert forall j :: 0 <= j < |cs'| ==> cs'[j] == Join(gs[j + 1]) && gs[j + 1] != [];
    }
    NonEmptyChunksOfNonEmpty(cs');
    assert forall j :: 0 <= j < |rest| ==> rest[j] != [] by {
      assert forall j :: 0 <= j < |rest| ==> rest[j] == gs[j + 1];
    }
    JoinOfJoins(rest);
    ConcatDropEmptyHead(gs);
  }

  lemma ChunksCoverText(text: string, maxLength: int)
    requires Strip(text) != ""
    ensures Join(NonEmptyChunks(ChunkSpec(text, maxLength))) == Join(SplitSentences(Strip(text)))
  {
    var ps := SplitSentences(Strip(text));
    var gs := Groups(ps, maxLength);
    GroupsShape(ps, maxLength);
    EmptyChunks(text, maxLength);
    assert forall j :: 0 <= j < |gs| ==> ChunkSpec(text, maxLength)[j] == Join(gs[j]);
    CoverGroups(gs);
  }


  /** The groups when no two neighbouring sentences fit in one chunk. */
  function Singletons(ps: seq<string>): (r: seq<seq<string>>)
    ensures |r| == |ps| && forall k :: 0 <= k < |ps| ==> r[k] == [ps[k]]
  {
    seq(|ps|, k requires 0 <= k < |ps| => [ps[k]])
  }

  lemma {:induction false} PackSingletons(ps: seq<string>, maxLength: int, i: nat)
    requires 1 <= i <= |ps| && |ps[0]| <= maxLength
    requires forall k :: 0 <= k < |ps| - 1 ==> |ps[k]| + 1 + |ps[k + 1]| > maxLength
    ensures Pack(ps[..i], maxLength) == Packing(Singletons(ps[..i - 1]), [ps[i - 1]])
    decreases i
  {
    if i == 1 {
      assert ps[..1][..0] == [];
    } else {
      PackSingletons(ps, maxLength, i - 1);
      var prefix := ps[..i];
      assert prefix[..i - 1] == ps[..i - 1] && prefix[i - 1] == ps[i - 1];
      var st := Pack(ps[..i - 1], maxLength);
      assert |Buffer(st.open)| + |ps[i - 1]| > maxLength by {
        assert Buffer([ps[i - 2]]) == ps[i - 2] + " ";
      }
      assert Pack(prefix, maxLength) == Packing(st.closed + [st.open], [ps[i - 1]]);
      assert Singletons(ps[..i - 2]) + [[ps[i - 2]]] == Singletons(ps[..i - 1]);
    }
  }

  /** When the first sentence fits but no two neighbouring sentences fit together,
      every sentence is a chunk of its own. */
  lemma OneSentencePerChunk(ps: seq<string>, maxLength: int)
    requires ps != [] && |ps[0]| <= maxLength
    requires forall k :: 0 <= k < |ps| - 1 ==> |ps[k]| + 1 + |ps[k + 1]| > maxLength
    ensures Groups(ps, maxLength) == Singletons(ps)
    ensures JoinEach(Groups(ps, maxLength)) == ps
  {
    PackSingletons(ps, maxLength, |ps|);
    assert ps[..|ps|] == ps;
    assert Singletons(ps[..|ps| - 1]) + [[ps[|ps| - 1]]] == Singletons(ps);
  }

  /** A text made of clean sentences joined by single spaces, none of which fits
      together with its neighbour, is chunked into exactly those sentences. */
  lemma ChunkSpecOfSentences(ps: seq<string>, maxLength: int)
    requires ps != [] && AllTrimmed(ps)
    requires forall k :: 0 <= k < |ps| ==> NoCutInside(ps[k])
    requires forall k :: 0 <= k < |ps| - 1 ==> IsTerminal(ps[k][|ps[k]| - 1])
    requires |ps[0]| <= maxLength
    requires forall k :: 0 <= k < |ps| - 1 ==> |ps[k]| + 1 + |ps[k + 1]| > maxLength
    ensures ChunkSpec(Join(ps), maxLength) == ps
  {
    JoinTrimmed(ps);
    StripStripped(Join(ps));
    SplitOfJoin(ps);
    OneSentencePerChunk(ps, maxLength);
  }

  /** A sentence that starts with a non-whitespace character and whose only `.`, `!`
      or `?` is its last character is clean and holds no match. */
  lemma CleanSentence(p: string)
    requires p != [] && !IsSpace(p[0]) && IsTerminal(p[|p| - 1])
    requires forall j :: 0 <= j < |p| - 1 ==> !IsTerminal(p[j])
    ensures IsStripped(p) && NoCutInside(p)
  {
  }

  /** Three sentences that each fit alone but not two together are three chunks. */
  lemma ThreeSentenceChunks(a: string, b: string, c: string, maxLength: int)
    requires IsStripped(a) && IsStripped(b) && IsStripped(c) && a != [] && b != [] && c != []
    requires NoCutInside(a) && NoCutInside(b) && NoCutInside(c)
    requires IsTerminal(a[|a| - 1]) && IsTerminal(b[|b| - 1])
    requires |a| <= maxLength && |a| + 1 + |b| > maxLength && |b| + 1 + |c| > maxLength
    ensures ChunkSpec(a + " " + b + " " + c, maxLength) == [a, b, c]
  {
    var ps := [a, b, c];
    assert ps[..2] == [a, b] && [a, b][..1] == [a];
    assert Join([a]) == a;
    assert Join([a, b]) == a + " " + b;
    assert Join(ps) == a + " " + b + " " + c;
    ChunkSpecOfSentences(ps, maxLength);
  }

  /** The three sentences of the example text are clean. */
  lemma ExampleSentence(p: string)
    requires p == "Hello there." || p == "This is a test!" || p == "Is it working?"
    ensures p != [] && IsStripped(p) && NoCutInside(p) && IsTerminal(p[|p| - 1])
  {
    CleanSentence(p);
  }

  lemma ExampleText(text: string, a: string, b: string, c: string)
    requires text == "Hello there. This is a test! Is it working?"
    requires a == "Hello there." && b == "This is a test!" && c == "Is it working?"
    ensures text == a + " " + b + " " + c && |a| == 12 && |b| == 15 && |c| == 14
  {
  }

  /** `chunk_text("Hello there. This is a test! Is it working?", 20)` gives one chunk
      per sentence. */
  lemma ExampleThreeChunks(text: string)
    requires text == "Hello there. This is a test! Is it working?"
    ensures ChunkSpec(text, 20) == ["Hello there.", "This is a test!", "Is it working?"]
  {
    var a, b, c := "Hello there.", "This is a test!", "Is it working?";
    ExampleText(text, a, b, c);
    ExampleSentence(a);
    ExampleSentence(b);
    ExampleSentence(c);
    ThreeSentenceChunks(a, b, c, 20);
  }
}
