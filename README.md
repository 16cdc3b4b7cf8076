# Voiceover generation core, in Dafny

`generate_voiceovers.py` turns text files into speech. Each document is read. Its
text is cut into sentence-aware chunks of at most 300 characters, unless one sentence
alone is longer (`chunk_text`). Each chunk is synthesised to a waveform by a
WhisperSpeech pipeline and scaled to 16-bit samples. The samples are laid out in one row: a rank-1 buffer as is, a rank-2
buffer transposed, so that flattening interleaves its channels. The chunks' audio is
joined into one track, with a 500 ms silence between chunks. A chunk whose synthesis
raises is skipped. The track is written to `speech_output/<stem>_speech.wav`.

This project models that core and proves its properties:

- `text.dfy` (module `Text`) holds three pieces. The whitespace class shared by
  `str.isspace` and the regular expression class `\s`. `str.strip`. And `" ".join`.
- `sentences.dfy` (module `Sentences`) holds the sentence split
  `re.split(r'(?<=[.!?])\s+', ...)`. It is characterised as the unique cut of the
  text at the maximal whitespace runs that follow `.`, `!` or `?`.
- `chunker.dfy` (module `Chunker`) holds `chunk_text`. It is a method whose loop
  mirrors the source. It is proved against a greedy-packing specification, and the
  quirks of the code are proved as lemmas.
- `layout.dfy` (module `Layout`) holds the rank-1 and rank-2 sample layout before
  `tobytes()`.
- `assembly.dfy` (module `Assembly`) holds the loop that builds `combined_audio`.
  Synthesis is abstracted as a per-chunk outcome `Ok(buffer)` or `Failed`.
- `naming.dfy` (module `Naming`) holds POSIX `basename`, `splitext` and `join`,
  and the output name.
- `voiceover.dfy` (module `Voiceover`) holds `generate_and_save_audio_from_files`.
  The synthesis is a function from a chunk to its outcome. The written files are a
  map from output path to track.

Durations are counted in frames at the track's frame rate of 24000 Hz. The 500 ms
gap is counted as 12000 frames.

Where the behaviour of the code differs from what one might expect, the model
follows the code:

- Empty or whitespace-only text gives the chunk list `[""]`, not `[]`. The empty
  chunk is then synthesised like any other.
- A first sentence longer than `max_length` gives an empty first chunk `""`.
- The gap test compares a chunk's index with the number of *all* chunks. When the
  last chunk fails after some earlier chunk succeeded, the track ends with a gap.
  Whenever the last chunk fails, the number of gaps is the number of successes, not
  one less.
- Two documents whose paths differ only in directory or extension share one output
  file, and the later one overwrites it.

## Model

| member | source | states |
|---|---|---|
| Text.IsSpace | generate_voiceovers.py:23 | the character class of `\s` and `str.isspace`, shared by the split and every `strip`; a definition without a contract of its own |
| Text.SkipSpaces | generate_voiceovers.py:23 | the left scan of `strip`: only whitespace lies between the start and where it stops, which is the end or a non-whitespace character |
| Text.SkipSpacesBack | generate_voiceovers.py:23 | the right scan of `strip`: only whitespace lies after where it stops, which is its left bound or just after a non-whitespace character |
| Text.Strip | generate_voiceovers.py:23 | `text.strip()`: the result sits between a whitespace prefix and a whitespace suffix of the input, and has whitespace at neither end |
| Text.StripTrailing | generate_voiceovers.py:29-38 | a stripped chunk text followed by whitespace (the trailing `" "` of `current_chunk`) strips back to the text |
| Text.Join | generate_voiceovers.py:30-38 | `" ".join`: the text of a chunk once `strip` has removed the trailing space of `current_chunk` (see `Chunker.StripBuffer`); a definition |
| Text.JoinAppend | generate_voiceovers.py:30 | joining `a + b` with single spaces is the join of `a`, a space, and the join of `b` |
| Sentences.SplitSentences | generate_voiceovers.py:23 | `re.split(r'(?<=[.!?])\s+', ...)`, scanned left to right: the result is never empty and starts with a prefix of the text. `SplitCharacterised` and `SplitUnique` characterise it fully |
| Sentences.SplitCharacterised | generate_voiceovers.py:23 | the pieces and separators weave back into the text. Every separator is a non-empty whitespace run preceded by `.`, `!` or `?` and not followed by whitespace. No piece holds a further match |
| Sentences.SplitUnique | generate_voiceovers.py:23 | any cut with those properties is the one of `SplitSentences`: the split is exactly the cut at maximal whitespace runs after a terminal character, pieces in order |
| Sentences.SentencesOfStripped | generate_voiceovers.py:23 | of a stripped text: the result is `[""]` exactly when the text is empty; otherwise every piece is non-empty and neither starts nor ends with whitespace |
| Sentences.SplitOfJoin | generate_voiceovers.py:23 | the split undoes `" ".join`: sentences that start with a non-whitespace character, hold no match and (all but the last) end in `.`, `!` or `?` come back unchanged |
| Chunker.Buffer | generate_voiceovers.py:25-34 | the text of `current_chunk`: its sentences, each followed by one space, or `""`; a definition |
| Chunker.Pack | generate_voiceovers.py:27-34 | the loop as a function of the sentences read so far, one case per branch of the `if`; the reference definition the loop invariant of `ChunkText` is stated with |
| Chunker.Groups | generate_voiceovers.py:36-38 | the closed groups, then the open one when `current_chunk` is not empty; a definition |
| Chunker.ChunkSpec | generate_voiceovers.py:21-40 | what `chunk_text` returns, as a function: the reference definition `ChunkText` is proved equal to |
| Chunker.StripBuffer | generate_voiceovers.py:30-38 | `current_chunk.strip()` is the sentences of the chunk joined by single spaces |
| Chunker.ChunkText | generate_voiceovers.py:21-40 | the loop, with `current_chunk` and `chunks`, returns the greedy packing `ChunkSpec` of the sentences, and never an empty list |
| Chunker.PackInvariantHolds | generate_voiceovers.py:27-34 | after every iteration, the groups and `current_chunk` hold the sentences in order. Every group the `if` branch grew fits in `max_length`. The first group is empty exactly when the first sentence is too long |
| Chunker.GroupsShape | generate_voiceovers.py:27-38 | the chunks' sentence groups concatenate to the sentences. There is at least one group. Only the first group can be empty, which happens exactly when the first sentence is longer than `max_length`. A group of two or more sentences fits once joined |
| Chunker.OversizedGroup | generate_voiceovers.py:29-34 | a group longer than `max_length` is a single sentence, or, for a negative bound only, the empty first group |
| Chunker.OversizedChunk | generate_voiceovers.py:29-34 | with a non-negative bound, a chunk longer than `max_length` is one whole sentence, never truncated |
| Chunker.BlankTextChunks | generate_voiceovers.py:23-38 | empty or whitespace-only text gives `[""]` (and `["", ""]` for a negative bound) |
| Chunker.EmptyChunks | generate_voiceovers.py:29-38 | for text that is not blank, chunk `j` is `""` exactly when `j == 0` and the first sentence is longer than `max_length` |
| Chunker.ChunksCoverSentences | generate_voiceovers.py:27-38 | dropping the empty chunks and joining the rest with spaces gives the sentences joined with spaces |
| Chunker.OneSentencePerChunk | generate_voiceovers.py:27-38 | when the first sentence fits but no two neighbouring sentences fit together, every sentence becomes its own chunk |
| Chunker.ChunkSpecOfSentences | generate_voiceovers.py:21-40 | a text of clean sentences joined by single spaces, where the first fits and no two neighbours fit together, is chunked into exactly those sentences |
| Chunker.ExampleThreeChunks | generate_voiceovers.py:21-40 | `"Hello there. This is a test! Is it working?"` with a bound of 20 gives the chunks `"Hello there."`, `"This is a test!"` and `"Is it working?"` |
| Layout.ExpandDims | generate_voiceovers.py:71-72 | `np.expand_dims(a, axis=0)`: a vector becomes a matrix of one row; a definition |
| Layout.Transpose | generate_voiceovers.py:73-74 | `a.T`: row `n` holds sample `n` of each channel; a definition, whose shape `TransposedRows` states |
| Layout.TransposedRows | generate_voiceovers.py:73-74 | the transpose of `C` channels of `N` samples has `N` rows of `C` samples, with sample `n` of channel `c` at row `n`, column `c` |
| Layout.RowMajor | generate_voiceovers.py:78 | the C-order flattening of `tobytes()`; a definition, whose length and positions `RowMajorLength` and `RowMajorAt` state |
| Layout.RowMajorLength | generate_voiceovers.py:78 | `h` rows of length `w` flatten to `h * w` samples |
| Layout.PackedSamples | generate_voiceovers.py:71-78 | the samples of a buffer in the order they are packed; the definition `MonoKeepsOrder` and `ChannelsInterleaved` are about |
| Layout.MonoKeepsOrder | generate_voiceovers.py:71-78 | a rank-1 buffer, expanded to one row and flattened, keeps its samples in order |
| Layout.ChannelsInterleaved | generate_voiceovers.py:73-78 | a `C x N` buffer, transposed and flattened, has `C * N` samples, with sample `n` of channel `c` at `n * C + c` |
| Layout.DeinterleaveInverse | generate_voiceovers.py:73-78 | the channels can be read back from the packed samples: no sample is lost or moved out of its slot |
| Layout.RowMajorAt | generate_voiceovers.py:78 | `tobytes()` order: element `j` of row `i` of a matrix with rows of length `w` lands at `i * w + j` |
| Assembly.Contribution | generate_voiceovers.py:85-89 | what chunk `i` adds: nothing on failure, otherwise its audio and then a gap when `i` is below the last index; a definition |
| Assembly.ContributionMeasures | generate_voiceovers.py:85-89 | a chunk adds its audio when it succeeds, and one gap exactly when it succeeds below the last index |
| Assembly.TrackUpTo | generate_voiceovers.py:63-92 | the track after the first `k` chunks; the reference definition the loop invariant of `AssembleTrack` is stated with |
| Assembly.Track | generate_voiceovers.py:63-92 | the finished track: the reference definition `AssembleTrack` is proved equal to |
| Assembly.AssembleTrack | generate_voiceovers.py:63-92 | the loop builds `Track`: the contributions of the chunks in index order. A success adds its audio, then a gap when its index is below the last index. A failure adds nothing |
| Assembly.TrackAudioInOrder | generate_voiceovers.py:65-92 | failure isolation: the audio of the track is the audio of the chunks that succeeded, in index order |
| Assembly.TrackGapCount | generate_voiceovers.py:88-89 | the gaps are one per successful chunk whose index is below the last index of all chunks |
| Assembly.GapsOfTrack | generate_voiceovers.py:88-89 | there are `successes - 1` gaps when the last chunk succeeds, and `successes` when it fails |
| Assembly.AllSucceeded | generate_voiceovers.py:88-89 | when all `n` chunks succeed there are `n - 1` gaps |
| Assembly.GapsFollowAudio | generate_voiceovers.py:85-89 | every gap comes right after an audio piece: no gap precedes the first audio, and no two gaps are adjacent |
| Assembly.PrefixEndsWithGap | generate_voiceovers.py:85-89 | before the last chunk, the track is empty exactly when nothing has succeeded yet, and otherwise ends with a gap |
| Assembly.TrailingGap | generate_voiceovers.py:88-92 | the track ends with a gap exactly when the last chunk fails after some earlier chunk succeeded |
| Assembly.FramesOfTrack | generate_voiceovers.py:48-89 | the length of any track is its audio samples plus 12000 frames (500 ms at 24000 Hz) per gap |
| Assembly.TrackDuration | generate_voiceovers.py:48-92 | the finished track lasts as long as the successful chunks' audio plus 500 ms per gap |
| Assembly.ThreeSecondsAndTwoGaps | generate_voiceovers.py:48-92 | three chunks of one second each give a 4000 ms track |
| Naming.LastIndexOf | generate_voiceovers.py:57 | `rfind`: the index of the last occurrence, or -1, with none after it |
| Naming.Basename | generate_voiceovers.py:57 | `basename`: a suffix of the path holding no `/`, preceded by nothing or by `/` |
| Naming.SplitExt | generate_voiceovers.py:57 | `splitext`: root and extension make the name again. A non-empty extension is a `.` followed by neither `.` nor `/`, and its root has a non-dot in its last component. An empty extension means every candidate cut has only dots before it |
| Naming.OutputName | generate_voiceovers.py:57-58 | the output name holds no `/` and ends with `_speech.wav` |
| Naming.JoinPath | generate_voiceovers.py:58 | `os.path.join` of two components ends with the second. An absolute second component replaces the first; a relative one is appended to the first, after a `/` or directly |
| Naming.OutputNameIgnoresDirectory | generate_voiceovers.py:57 | the directories of a document do not change its output name |
| Naming.OutputFileInDirectory | generate_voiceovers.py:58 | the output path is the output directory followed by the output name, directly or after a `/`, so the file is written directly in that directory; its basename is the output name |
| Naming.StemOfExtension | generate_voiceovers.py:57-58 | `stem.ext` with a stem that is not all dots gives `stem_speech.wav` |
| Naming.NameWithoutDot | generate_voiceovers.py:57-58 | a name without `.` is kept whole |
| Naming.LeadingDotsOnly | generate_voiceovers.py:57-58 | a name whose only dots lead it is kept whole |
| Naming.ExampleInDirectory | generate_voiceovers.py:57-58 | `input/notes.txt` gives `notes_speech.wav` |
| Naming.ExampleTwoDots | generate_voiceovers.py:57-58 | `a.b.txt` gives `a.b_speech.wav`: only the last extension goes |
| Naming.ExampleLeadingDot | generate_voiceovers.py:57-58 | `.txt` gives `.txt_speech.wav` |
| Voiceover.Outcomes | generate_voiceovers.py:65-68 | the outcome of the synthesis of each chunk, in order; a definition |
| Voiceover.DocumentTrack | generate_voiceovers.py:56-92 | the track of a document: the outcomes of its chunks, assembled; the reference definition `VoiceDocument` returns |
| Voiceover.DocumentAudio | generate_voiceovers.py:56-92 | the audio of a document's track is that of its chunks that were synthesised, in order |
| Voiceover.BlankDocument | generate_voiceovers.py:56-92 | a blank document has no gap, and its track is empty exactly when the synthesis of `""` fails |
| Voiceover.Export | generate_voiceovers.py:56-95 | one document's export: its output path and its track; a definition |
| Voiceover.Exports | generate_voiceovers.py:51-95 | the exports of the documents, in order; a definition |
| Voiceover.Written | generate_voiceovers.py:95 | the files after the exports, each replacing the file at its path; the reference definition `GenerateAll` is proved equal to |
| Voiceover.VoiceDocument | generate_voiceovers.py:51-92 | one document gives its output path, a file named with its output name directly inside the output directory, and its track. The track's audio is that of the chunks that succeeded, in order. A blank document has no gap, and its track is empty exactly when the synthesis of `""` fails |
| Voiceover.GenerateAll | generate_voiceovers.py:51-96 | the documents are processed in order, and each export replaces the file at the same path |
| Voiceover.WrittenNames | generate_voiceovers.py:51-95 | one file is written per distinct output path |
| Voiceover.LastWriteWins | generate_voiceovers.py:51-95 | a file holds the track of the last document written to its path |
| Voiceover.OverwriteSameName | generate_voiceovers.py:51-95 | two exports to one path leave one file, holding the second track |
| Voiceover.SameStemNames | generate_voiceovers.py:57-58 | paths that differ only in directory or extension, such as `notes.txt` and `input/notes.md`, share the output name `notes_speech.wav` |

## Left out

- The WhisperSpeech pipeline and `pipe.generate` (lines 15-18 and 68) are a foreign model. Their outcome is the parameter `synthesize`, a function from a chunk to `Ok(buffer)` or `Failed`. The speed and language arguments are fixed inside it. The model therefore assumes synthesis is deterministic per chunk text.
- CUDA detection (lines 8-12) only probes the environment and prints.
- Float-to-16-bit conversion (line 69) is floating-point scaling and numpy's cast. The model starts from integer samples.
- pydub (lines 49, 77-85, 89 and 95) is a library: its byte packing and endianness, `silent`'s default frame rate and the frame-rate syncing of `+=`, and WAV export. A gap is an abstract piece of 500 ms, counted as 12000 frames at the track's 24000 Hz. An `AudioSegment` is the sequence of its samples.
- Buffers of rank 0 or of rank 3 or more (line 71) are left out. The model covers the rank-1 and rank-2 buffers the branch is written for.
- File reading, `os.makedirs` and `os.getcwd` (lines 44-45 and 52-53) are I/O. A document's text is given. The output directory is a parameter of `Voiceover.GenerateAll`.
- An exception from reading or writing a file would stop the whole run. The model has no I/O failures.
- Directory scanning, the `.txt` filter and `main` (lines 99-137) are interactive prompts and I/O.
- Progress and error messages (lines 60, 66, 92 and 96) are console output only.
- Windows paths (`ntpath`, with `\` as a separator and drive letters) are left out. The model follows POSIX `posixpath`.
- Naming.JoinPath: models `os.path.join` of exactly two components, the only use here.
