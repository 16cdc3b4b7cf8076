/** `generate_and_save_audio_from_files`: every document is chunked with the default
    length, each chunk is synthesised, the track is assembled, and the track is
    exported under the document's output name. Synthesis, with the language and
    speed it is given, is the function `synthesize` from a chunk to its outcome;
    reading the documents and writing the files are left to the caller, who sees the
    written files as a map from output path to track. The output directory is a
    parameter: `speech_output` under the working directory in the program. */
module Voiceover {
  import opened Text
  import opened Chunker
  import opened Assembly
  import opened Naming

  /** A text file: its path and its content. */
  datatype Document = Document(path: string, text: string)

  /** The outcome of each chunk, in order. */
  function Outcomes(chunks: seq<string>, synthesize: string -> ChunkResult): seq<ChunkResult> {
    seq(|chunks|, i requires 0 <= i < |chunks| => synthesize(chunks[i]))
  }

  /** The track of a document. */
  function DocumentTrack(text: string, synthesize: string -> ChunkResult): seq<Piece> {
    Track(Outcomes(ChunkSpec(text, DefaultMaxLength), synthesize))
  }

  /** Lines 51-89 for one document: its output path, a file named after the document
      directly inside `outputDir`, and its track, whose audio is that of the chunks
      that were synthesised, in order. A blank document still makes one synthesis
      call, on the empty chunk, and never gets a gap. */
  method VoiceDocument(doc: Document, outputDir: string, synthesize: string -> ChunkResult)
    returns (outputPath: string, track: seq<Piece>)
    ensures outputPath == JoinPath(outputDir, OutputName(doc.path))
    ensures Basename(outputPath) == OutputName(doc.path)
    ensures track == DocumentTrack(doc.text, synthesize)
    ensures Audios(track) == SuccessfulAudio(Outcomes(ChunkSpec(doc.text, DefaultMaxLength), synthesize),
                                             |ChunkSpec(doc.text, DefaultMaxLength)|)
    ensures Strip(doc.text) == "" ==>
      GapCount(track) == 0 && (track == [] <==> synthesize("").Failed?)
  {
    var chunks := ChunkText(doc.text, DefaultMaxLength);
    outputPath := JoinPath(outputDir, OutputName(doc.path));
    OutputFileInDirectory(outputDir, doc.path);
    var outcomes := Outcomes(chunks, synthesize);
    track := AssembleTrack(outcomes);
    DocumentAudio(doc.text, synthesize);
    if Strip(doc.text) == "" {
      BlankDocument(doc.text, synthesize);
    }
  }

  /** The audio of a document's track is that of its chunks that were synthesised. */
  lemma DocumentAudio(text: string, synthesize: string -> ChunkResult)
    ensures Audios(DocumentTrack(text, synthesize)) ==
      SuccessfulAudio(Outcomes(ChunkSpec(text, DefaultMaxLength), synthesize), |ChunkSpec(text, DefaultMaxLength)|)
  {
    var outcomes := Outcomes(ChunkSpec(text, DefaultMaxLength), synthesize);
    TrackAudioInOrder(outcomes, |outcomes|);
  }

  /** A blank document is the single empty chunk: no gap, and an empty track exactly
      when the synthesis of `""` fails. */
  lemma BlankDocument(text: string, synthesize: string -> ChunkResult)
    requires Strip(text) == ""
    ensures GapCount(DocumentTrack(text, synthesize)) == 0
    ensures DocumentTrack(text, synthesize) == [] <==> synthesize("").Failed?
  {
    BlankTextChunks(text, DefaultMaxLength);
    var outcomes := Outcomes(ChunkSpec(text, DefaultMaxLength), synthesize);
    assert outcomes == [synthesize("")];
    GapsOfTrack(outcomes);
  }

  /** What the export of a document writes: its output path and its track. */
  function Export(doc: Document, outputDir: string, synthesize: string -> ChunkResult): (string, seq<Piece>) {
    (JoinPath(outputDir, OutputName(doc.path)), DocumentTrack(doc.text, synthesize))
  }

  /** The files after a sequence of exports: each one replaces the file at the same
      path. */
  function Written(exports: seq<(string, seq<Piece>)>): map<string, seq<Piece>>
    decreases |exports|
  {
    if exports == [] then map[]
    else
      var e := exports[|exports| - 1];
      Written(exports[..|exports| - 1])[e.0 := e.1]
  }

  /** The exports of the documents, in order. */
  function Exports(docs: seq<Document>, outputDir: string, synthesize: string -> ChunkResult): seq<(string, seq<Piece>)> {
    seq(|docs|, i requires 0 <= i < |docs| => Export(docs[i], outputDir, synthesize))
  }

  /** Lines 51-93: the documents are processed in order and each one's track is
      exported. */
  method GenerateAll(docs: seq<Document>, outputDir: string, synthesize: string -> ChunkResult)
    returns (written: map<string, seq<Piece>>)
    ensures written == Written(Exports(docs, outputDir, synthesize))
  {
    ghost var exports := Exports(docs, outputDir, synthesize);
    written := map[];
    for i := 0 to |docs|
      invariant written == Written(exports[..i])
    {
      var path, track := VoiceDocument(docs[i], outputDir, synthesize);
      assert (path, track) == exports[i];
      WrittenPrefix(exports, i);
      written := written[path := track];
    }
    assert exports[..|docs|] == exports;
  }

  lemma WrittenPrefix(exports: seq<(string, seq<Piece>)>, i: nat)
    requires i < |exports|
    ensures Written(exports[..i + 1]) == Written(exports[..i])[exports[i].0 := exports[i].1]
  {
    assert exports[..i + 1][..i] == exports[..i];
  }

  /** One file per distinct output path. */
  lemma {:induction false} WrittenNames(exports: seq<(string, seq<Piece>)>)
    ensures Written(exports).Keys == set i | 0 <= i < |exports| :: exports[i].0
    decreases |exports|
  {
    if exports != [] {
      var init := exports[..|exports| - 1];
      WrittenNames(init);
      var s := set i | 0 <= i < |exports| :: exports[i].0;
      var s' := set i | 0 <= i < |init| :: init[i].0;
      assert s == s' + {exports[|exports| - 1].0} by {
        forall x | x in s ensures x in s' + {exports[|exports| - 1].0} {
          var i :| 0 <= i < |exports| && exports[i].0 == x;
          if i < |init| {
            assert init[i].0 == x;
          }
        }
        forall x | x in s' ensures x in s {
          var i :| 0 <= i < |init| && init[i].0 == x;
          assert exports[i].0 == x;
        }
      }
    }
  }

  /** The last write wins: the file at the path of export `i` holds its track when no
      later export has the same path. */
  lemma {:induction false} LastWriteWins(exports: seq<(string, seq<Piece>)>, i: nat)
    requires i < |exports|
    requires forall j :: i < j < |exports| ==> exports[j].0 != exports[i].0
    ensures exports[i].0 in Written(exports)
    ensures Written(exports)[exports[i].0] == exports[i].1
    decreases |exports|
  {
    var init := exports[..|exports| - 1];
    if i < |init| {
      LastWriteWins(init, i);
    }
  }

  /** Two exports to the same path leave one file, holding the second track. */
  lemma OverwriteSameName(a: (string, seq<Piece>), b: (string, seq<Piece>))
    requires a.0 == b.0
    ensures Written([a, b]) == map[b.0 := b.1]
  {
    assert [a, b][..1] == [a];
    assert [a][..0] == [];
    assert Written([a]) == map[a.0 := a.1];
    assert Written([a, b]) == Written([a])[b.0 := b.1];
  }

  /** Paths that differ only in directory or extension share an output name:
      `notes.txt` and `input/notes.md` both give `notes_speech.wav`. */
  lemma SameStemNames(dir: string, stem: string, ext1: string, ext2: string)
    requires Sep !in stem && Sep !in ext1 && ExtSep !in ext1 && Sep !in ext2 && ExtSep !in ext2
    requires exists j :: 0 <= j < |stem| && stem[j] != ExtSep
    ensures OutputName(stem + [ExtSep] + ext1) == stem + Suffix
    ensures OutputName(dir + [Sep] + (stem + [ExtSep] + ext2)) == stem + Suffix
  {
    var name2 := stem + [ExtSep] + ext2;
    StemOfExtension(stem, ext1);
    StemOfExtension(stem, ext2);
    assert Sep !in name2;
    OutputNameIgnoresDirectory(dir, name2);
  }
}
