/** The per-document loop of `generate_and_save_audio_from_files` that builds
    `combined_audio`: for each chunk, in index order, the synthesised audio is
    appended, followed by the 500 ms silent segment unless the chunk's index is the
    last index of all the chunks. A chunk whose synthesis or conversion raises adds
    nothing, and the loop goes on with the next chunk. */
module Assembly {
  import opened Layout

  /** Length of the silent segment between chunks, in milliseconds. */
  const GapMs: nat := 500
  /** Frame rate of every audio segment of the track. */
  const FrameRate: nat := 24000
  /** Length of the silent segment in frames at `FrameRate`. */
  const GapFrames: nat := GapMs * FrameRate / 1000

  /** What the `try` block yields for one chunk: the buffer the synthesis returned,
      already scaled to integers, or an exception. */
  datatype ChunkResult = Ok(audio: Shaped) | Failed

  /** A segment of the track: one chunk's audio, or the silent gap. */
  datatype Piece = Audio(samples: seq<int>) | Gap

  /** What chunk `i` adds to the track. The test for the gap compares `i` with the
      number of all chunks, not of the chunks that succeed. */
  function Contribution(outcomes: seq<ChunkResult>, i: nat): seq<Piece>
    requires i < |outcomes|
  {
    match outcomes[i]
    case Failed => []
    case Ok(a) => [Audio(PackedSamples(a))] + (if i < |outcomes| - 1 then [Gap] else [])
  }

  /** The track after the first `k` chunks: their contributions in index order. */
  function TrackUpTo(outcomes: seq<ChunkResult>, k: nat): seq<Piece>
    requires k <= |outcomes|
    decreases k
  {
    if k == 0 then [] else TrackUpTo(outcomes, k - 1) + Contribution(outcomes, k - 1)
  }

  /** The finished track of a document whose chunks had the given outcomes. */
  function Track(outcomes: seq<ChunkResult>): seq<Piece> {
    TrackUpTo(outcomes, |outcomes|)
  }

  /** The loop at lines 63-92: `combined_audio` starts empty and grows only at its end. */
  method AssembleTrack(outcomes: seq<ChunkResult>) returns (combined: seq<Piece>)
    ensures combined == Track(outcomes)
  {
    combined := [];
    for i := 0 to |outcomes|
      invariant combined == TrackUpTo(outcomes, i)
    {
      match outcomes[i]
      case Failed =>
      case Ok(audio) =>
        combined := combined + [Audio(PackedSamples(audio))];
        if i < |outcomes| - 1 {
          combined := combined + [Gap];
        }
    }
  }

  /** The samples of the audio pieces of a track, in order. */
  function Audios(track: seq<Piece>): seq<seq<int>>
    decreases |track|
  {
    if track == [] then []
    else
      var last := track[|track| - 1];
      Audios(track[..|track| - 1]) + (if last.Audio? then [last.samples] else [])
  }

  /** The number of gaps in a track. */
  function GapCount(track: seq<Piece>): nat
    decreases |track|
  {
    if track == [] then 0
    else GapCount(track[..|track| - 1]) + (if track[|track| - 1].Gap? then 1 else 0)
  }

  /** The length of a track in frames at `FrameRate`. */
  function Frames(track: seq<Piece>): nat
    decreases |track|
  {
    if track == [] then 0
    else
      var last := track[|track| - 1];
      Frames(track[..|track| - 1]) + (if last.Audio? then |last.samples| else GapFrames)
  }

  /** The packed samples of the chunks among the first `k` that succeeded, in index order. */
  function SuccessfulAudio(outcomes: seq<ChunkResult>, k: nat): seq<seq<int>>
    requires k <= |outcomes|
    decreases k
  {
    if k == 0 then []
    else
      SuccessfulAudio(outcomes, k - 1) +
      (if outcomes[k - 1].Ok? then [PackedSamples(outcomes[k - 1].audio)] else [])
  }

  /** The number of chunks among the first `k` that succeeded. */
  function Successes(outcomes: seq<ChunkResult>, k: nat): nat
    requires k <= |outcomes|
    decreases k
  {
    if k == 0 then 0 else Successes(outcomes, k - 1) + (if outcomes[k - 1].Ok? then 1 else 0)
  }

  /** The total number of samples in a list of buffers. */
  function TotalLength(bs: seq<seq<int>>): nat
    decreases |bs|
  {
    if bs == [] then 0 else TotalLength(bs[..|bs| - 1]) + |bs[|bs| - 1]|
  }

  lemma {:induction false} AudiosAppend(a: seq<Piece>, b: seq<Piece>)
    ensures Audios(a + b) == Audios(a) + Audios(b)
    decreases |b|
  {
    if b == [] {
      assert a + b == a;
    } else {
      var b' := b[..|b| - 1];
      assert (a + b)[..|a + b| - 1] == a + b';
      AudiosAppend(a, b');
    }
  }

  lemma {:induction false} GapCountAppend(a: seq<Piece>, b: seq<Piece>)
    ensures GapCount(a + b) == GapCount(a) + GapCount(b)
    decreases |b|
  {
    if b == [] {
      assert a + b == a;
    } else {
      var b' := b[..|b| - 1];
      assert (a + b)[..|a + b| - 1] == a + b';
      GapCountAppend(a, b');
    }
  }

  /** What one chunk adds, counted: its audio when it succeeds, and one gap when it
      succeeds below the last index. */
  lemma ContributionMeasures(outcomes: seq<ChunkResult>, i: nat)
    requires i < |outcomes|
    ensures Audios(Contribution(outcomes, i)) ==
      if outcomes[i].Ok? then [PackedSamples(outcomes[i].audio)] else []
    ensures GapCount(Contribution(outcomes, i)) ==
      if outcomes[i].Ok? && i < |outcomes| - 1 then 1 else 0
  {
    var c := Contribution(outcomes, i);
    if outcomes[i].Ok? {
      var a := Audio(PackedSamples(outcomes[i].audio));
      assert [a][..0] == [];
      assert Audios([a]) == [a.samples] && GapCount([a]) == 0;
      if i < |outcomes| - 1 {
        assert c == [a, Gap] && c[..1] == [a];
        assert Audios(c) == Audios([a]) && GapCount(c) == GapCount([a]) + 1;
      } else {
        assert c == [a];
      }
    }
  }

  /** Failure isolation and order: the audio of the track is that of the chunks that
      succeeded, in index order, so a failed chunk removes only its own audio. */
  lemma {:induction false} TrackAudioInOrder(outcomes: seq<ChunkResult>, k: nat)
    requires k <= |outcomes|
    ensures Audios(TrackUpTo(outcomes, k)) == SuccessfulAudio(outcomes, k)
    decreases k
  {
    if k > 0 {
      TrackAudioInOrder(outcomes, k - 1);
      AudiosAppend(TrackUpTo(outcomes, k - 1), Contribution(outcomes, k - 1));
      ContributionMeasures(outcomes, k - 1);
    }
  }

  /** The gaps: one per successful chunk whose index is below the last one. */
  lemma {:induction false} TrackGapCount(outcomes: seq<ChunkResult>, k: nat)
    requires k <= |outcomes|
    ensures GapCount(TrackUpTo(outcomes, k)) ==
      Successes(outcomes, if k == |outcomes| && k > 0 then k - 1 else k)
    decreases k
  {
    if k > 0 {
      TrackGapCount(outcomes, k - 1);
      GapCountAppend(TrackUpTo(outcomes, k - 1), Contribution(outcomes, k - 1));
      ContributionMeasures(outcomes, k - 1);
    }
  }

  /** The number of gaps is the number of successful chunks other than the last chunk:
      one less than the successes when the last chunk succeeds, all of them when it
      fails. */
  lemma GapsOfTrack(outcomes: seq<ChunkResult>)
    requires outcomes != []
    ensures GapCount(Track(outcomes)) ==
      Successes(outcomes, |outcomes|) - (if outcomes[|outcomes| - 1].Ok? then 1 else 0)
  {
    TrackGapCount(outcomes, |outcomes|);
  }

  lemma {:induction false} SuccessesOfAll(outcomes: seq<ChunkResult>, k: nat)
    requires k <= |outcomes|
    requires forall i :: 0 <= i < |outcomes| ==> outcomes[i].Ok?
    ensures Successes(outcomes, k) == k
    decreases k
  {
    if k > 0 {
      SuccessesOfAll(outcomes, k - 1);
    }
  }

  /** When every chunk succeeds, there are `n - 1` gaps for `n` chunks. */
  lemma AllSucceeded(outcomes: seq<ChunkResult>)
    requires outcomes != []
    requires forall i :: 0 <= i < |outcomes| ==> outcomes[i].Ok?
    ensures GapCount(Track(outcomes)) == |outcomes| - 1
  {
    GapsOfTrack(outcomes);
    SuccessesOfAll(outcomes, |outcomes|);
  }

  /** Every gap of `track` comes right after an audio piece. */
  predicate GapsAfterAudio(track: seq<Piece>) {
    forall j :: 0 <= j < |track| && track[j].Gap? ==> j > 0 && track[j - 1].Audio?
  }

  lemma GapsAfterAudioAppend(t: seq<Piece>, c: seq<Piece>)
    requires GapsAfterAudio(t) && GapsAfterAudio(c) && (c != [] ==> c[0].Audio?)
    ensures GapsAfterAudio(t + c)
  {
    assert forall j :: 0 <= j < |t| ==> (t + c)[j] == t[j];
    assert forall j :: 0 <= j < |c| ==> (t + c)[|t| + j] == c[j];
  }

  /** A gap always comes right after an audio piece, so no gap precedes the first audio
      and no two gaps are adjacent. */
  lemma {:induction false} GapsFollowAudio(outcomes: seq<ChunkResult>, k: nat)
    requires k <= |outcomes|
    ensures GapsAfterAudio(TrackUpTo(outcomes, k))
    decreases k
  {
    if k > 0 {
      GapsFollowAudio(outcomes, k - 1);
      GapsAfterAudioAppend(TrackUpTo(outcomes, k - 1), Contribution(outcomes, k - 1));
    }
  }

  /** Before the last chunk, the track is empty exactly when no chunk has succeeded
      yet, and otherwise ends with a gap. */
  lemma {:induction false} PrefixEndsWithGap(outcomes: seq<ChunkResult>, k: nat)
    requires k < |outcomes|
    ensures TrackUpTo(outcomes, k) == [] <==> Successes(outcomes, k) == 0
    ensures TrackUpTo(outcomes, k) != [] ==> TrackUpTo(outcomes, k)[|TrackUpTo(outcomes, k)| - 1].Gap?
    decreases k
  {
    if k > 0 {
      PrefixEndsWithGap(outcomes, k - 1);
    }
  }

  /** The track ends with a gap exactly when the last chunk fails after some earlier
      chunk succeeded. */
  lemma TrailingGap(outcomes: seq<ChunkResult>)
    requires outcomes != []
    ensures (Track(outcomes) != [] && Track(outcomes)[|Track(outcomes)| - 1].Gap?) <==>
      (outcomes[|outcomes| - 1].Failed? && Successes(outcomes, |outcomes| - 1) > 0)
  {
    PrefixEndsWithGap(outcomes, |outcomes| - 1);
  }

  lemma GapFramesStep(g: nat)
    ensures GapFrames * (g + 1) == GapFrames * g + GapFrames
  {
  }

  lemma {:induction false} TotalLengthSnoc(bs: seq<seq<int>>, b: seq<int>)
    ensures TotalLength(bs + [b]) == TotalLength(bs) + |b|
  {
    assert (bs + [b])[..|bs|] == bs;
  }

  /** The length of any track: its audio plus `GapFrames` per gap. */
  lemma {:induction false} FramesOfTrack(track: seq<Piece>)
    ensures Frames(track) == TotalLength(Audios(track)) + GapFrames * GapCount(track)
    decreases |track|
  {
    if track != [] {
      var init := track[..|track| - 1];
      FramesOfTrack(init);
      var last := track[|track| - 1];
      if last.Audio? {
        assert Audios(track) == Audios(init) + [last.samples];
        assert GapCount(track) == GapCount(init);
        assert Frames(track) == Frames(init) + |last.samples|;
        TotalLengthSnoc(Audios(init), last.samples);
      } else {
        assert Audios(track) == Audios(init);
        assert GapCount(track) == GapCount(init) + 1;
        assert Frames(track) == Frames(init) + GapFrames;
        GapFramesStep(GapCount(init));
      }
    }
  }

  /** The duration of the finished track: the audio of the chunks that succeeded plus
      500 ms per gap. */
  lemma TrackDuration(outcomes: seq<ChunkResult>)
    ensures Frames(Track(outcomes)) ==
      TotalLength(SuccessfulAudio(outcomes, |outcomes|)) + GapFrames * GapCount(Track(outcomes))
  {
    FramesOfTrack(Track(outcomes));
    TrackAudioInOrder(outcomes, |outcomes|);
  }

  /** Three chunks that each yield one second of audio make a track of
      3 * 1000 ms + 2 * 500 ms = 4000 ms. */
  lemma ThreeSecondsAndTwoGaps(second: seq<int>)
    requires |second| == FrameRate
    ensures Frames(Track([Ok(Rank1(second)), Ok(Rank1(second)), Ok(Rank1(second))])) == 4000 * FrameRate / 1000
  {
    var o := [Ok(Rank1(second)), Ok(Rank1(second)), Ok(Rank1(second))];
    MonoKeepsOrder(second);
    AllSucceeded(o);
    TrackDuration(o);
    assert SuccessfulAudio(o, 3) == [second, second, second];
    assert TotalLength([second, second, second]) == 3 * FrameRate by {
      assert [second, second, second][..2] == [second, second];
      assert [second, second][..1] == [second];
      assert [second][..0] == [];
      assert TotalLength([second]) == FrameRate;
      assert TotalLength([second, second]) == 2 * FrameRate;
    }
  }
}
