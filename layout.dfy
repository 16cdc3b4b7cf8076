/** How a synthesised buffer is laid out before it is packed into a mono 16-bit PCM
    segment: a rank-1 buffer is expanded to one row, a rank-2 buffer of C channels by
    N samples is transposed to N rows of C samples, and the result is flattened in
    row-major order (what `tobytes()` does). Samples are already integers here. */
module Layout {

  /** The synthesised buffer: N samples, or C channels of N samples each. */
  datatype SampleArray = Rank1(samples: seq<int>) | Rank2(channels: seq<seq<int>>)

  /** All rows have the length of the first. */
  predicate Rectangular(m: seq<seq<int>>) {
    forall c :: 0 <= c < |m| ==> |m[c]| == |m[0]|
  }

  /** An array buffer is always rectangular. */
  type Shaped = a: SampleArray | a.Rank1? || Rectangular(a.channels) witness Rank1([])

  /** The length of the rows of a rectangular matrix (0 when it has no rows). */
  function Width(m: seq<seq<int>>): nat {
    if m == [] then 0 else |m[0]|
  }

  /** `np.expand_dims(a, axis=0)`: a vector becomes a matrix with a single row. */
  function ExpandDims(s: seq<int>): seq<seq<int>> {
    [s]
  }

  /** `a.T` of a C x N matrix: the N x C matrix whose row n holds sample n of each channel. */
  function Transpose(m: seq<seq<int>>): (t: seq<seq<int>>)
    requires Rectangular(m)
  {
    seq(Width(m), n requires 0 <= n < Width(m) => seq(|m|, c requires 0 <= c < |m| => m[c][n]))
  }

  /** Row-major flattening: the rows one after the other. */
  function RowMajor(m: seq<seq<int>>): seq<int>
    decreases |m|
  {
    if m == [] then [] else m[0] + RowMajor(m[1..])
  }

  /** The samples in the order they are packed into the segment. */
  function PackedSamples(a: Shaped): seq<int> {
    match a
    case Rank1(s) => RowMajor(ExpandDims(s))
    case Rank2(m) => RowMajor(Transpose(m))
  }

  /** A rank-1 buffer keeps its samples in order. */
  lemma MonoKeepsOrder(s: seq<int>)
    ensures PackedSamples(Rank1(s)) == s
  {
    assert RowMajor([s]) == s + RowMajor([]);
  }

  lemma MulSucc(a: nat, w: nat)
    ensures (a + 1) * w == a * w + w
  {
  }

  /** Row-major flattening of `h` rows of length `w` has `h * w` samples. */
  lemma {:induction false} RowMajorLength(m: seq<seq<int>>, w: nat)
    requires forall i :: 0 <= i < |m| ==> |m[i]| == w
    ensures |RowMajor(m)| == |m| * w
    decreases |m|
  {
    if m != [] {
      RowMajorLength(m[1..], w);
      MulSucc(|m| - 1, w);
    }
  }

  /** Row-major flattening of rows of length `w`: element `j` of row `i` lands at `i * w + j`. */
  lemma {:induction false} RowMajorAt(m: seq<seq<int>>, w: nat, i: nat, j: nat)
    requires forall r :: 0 <= r < |m| ==> |m[r]| == w
    requires i < |m| && j < w
    ensures i * w + j < |RowMajor(m)| && RowMajor(m)[i * w + j] == m[i][j]
    decreases i
  {
    var rest := m[1..];
    RowMajorLength(rest, w);
    if i == 0 {
      assert i * w == 0;
    } else {
      RowMajorAt(rest, w, i - 1, j);
      MulSucc(i - 1, w);
      assert rest[i - 1] == m[i];
      assert i * w + j == w + ((i - 1) * w + j);
    }
  }

  lemma TransposedRows(m: seq<seq<int>>)
    requires Rectangular(m)
    ensures |Transpose(m)| == Width(m)
    ensures forall n :: 0 <= n < Width(m) ==> |Transpose(m)[n]| == |m|
    ensures forall n, c :: 0 <= n < Width(m) && 0 <= c < |m| ==> Transpose(m)[n][c] == m[c][n]
  {
  }

  /** `x` holds the N samples of each of the C channels of `m` interleaved: sample `n`
      of channel `c` at position `n * C + c`. */
  ghost predicate Interleaved(x: seq<int>, m: seq<seq<int>>) {
    && Rectangular(m)
    && |x| == Width(m) * |m|
    && forall n, c {:trigger m[c][n]} :: 0 <= n < Width(m) && 0 <= c < |m| ==> SampleAt(x, |m|, n, c) == m[c][n]
  }

  /** Position `n * channels + c` of `x`, or 0 outside it. */
  function SampleAt(x: seq<int>, channels: nat, n: nat, c: nat): int {
    if n * channels + c < |x| then x[n * channels + c] else 0
  }

  /** A rank-2 buffer of C channels by N samples packs into C * N samples, interleaved:
      sample `n` of channel `c` lands at `n * C + c`, so the order is
      `a[0][0], a[1][0], ..., a[C-1][0], a[0][1], ...`. */
  lemma ChannelsInterleaved(m: seq<seq<int>>)
    requires Rectangular(m)
    ensures Interleaved(PackedSamples(Rank2(m)), m)
  {
    var t := Transpose(m);
    var x := PackedSamples(Rank2(m));
    assert x == RowMajor(t);
    TransposedRows(m);
    RowMajorLength(t, |m|);
    assert |x| == Width(m) * |m|;
    forall n, c | 0 <= n < Width(m) && 0 <= c < |m|
      ensures SampleAt(x, |m|, n, c) == m[c][n]
    {
      RowMajorAt(t, |m|, n, c);
    }
  }

  /** Splits interleaved samples back into `channels` channels of `frames` samples. */
  function Deinterleave(x: seq<int>, channels: nat, frames: nat): seq<seq<int>> {
    seq(channels, c requires 0 <= c < channels =>
      seq(frames, n requires 0 <= n < frames => SampleAt(x, channels, n, c)))
  }

  /** Interleaving loses nothing: the channels can be read back from the packed samples. */
  lemma DeinterleaveInverse(m: seq<seq<int>>)
    requires Rectangular(m)
    ensures Deinterleave(PackedSamples(Rank2(m)), |m|, Width(m)) == m
  {
    var x := PackedSamples(Rank2(m));
    ChannelsInterleaved(m);
    var d := Deinterleave(x, |m|, Width(m));
    forall c | 0 <= c < |m| ensures d[c] == m[c] {
      assert |d[c]| == Width(m) == |m[c]|;
      forall n | 0 <= n < Width(m) ensures d[c][n] == m[c][n] {
        assert d[c][n] == SampleAt(x, |m|, n, c);
      }
    }
  }
}
