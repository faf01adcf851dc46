/** The loop driver: for every matrix frame, decode the coefficients, read up
    to `height` input rows, scatter them into the zeroed output buffer and
    emit that buffer. Reading rows stops at the end of the input, but the
    matrix loop goes on, so every matrix frame yields one full output frame. */
module Driver {
  import opened Arith
  import opened Bytes
  import opened Streams
  import opened Scatter
  import opened Matrix
  import opened Affine
  import opened TransformProperties

  /** The destination map a matrix frame selects for the input geometry. */
  function FrameDest(g: Stream, m: MatrixFrame): (dest: DestMap)
    requires |m| == MatrixElements
    ensures forall xi: nat, yi: nat ::
              && NearestTo(dest(xi, yi).x, ExactX(Coeffs(m[0], m[4], m[8], m[12], m[16], m[20]), g.width, g.height, xi, yi))
              && NearestTo(dest(xi, yi).y, ExactY(Coeffs(m[0], m[4], m[8], m[12], m[16], m[20]), g.width, g.height, xi, yi))
  {
    AffineDest(Decode(m), g.width, g.height)
  }

  /** The frames emitted for `matrices`, reading rows from `input`: the
      functional counterpart of the whole loop. */
  function Run(g: Stream, matrices: seq<MatrixFrame>, input: seq<seq<byte>>): (frames: seq<seq<byte>>)
    requires MatrixFrames(matrices) && RowsOf(g, input)
    ensures |frames| == |matrices|
    ensures forall n :: 0 <= n < |frames| ==> |frames[n]| == FrameSize(g)
    decreases |matrices|
  {
    if |matrices| == 0 then []
    else
      var k := Min(g.height, |input|);
      [TransformFrame(g, FrameDest(g, matrices[0]), input[..k])] + Run(g, matrices[1..], input[k..])
  }

  /** The input rows that matrix frame `n` gets: rows `n * height` up to
      `(n + 1) * height`, cut short at the end of the input. */
  function FrameInput(g: Stream, input: seq<seq<byte>>, n: nat): (rows: seq<seq<byte>>)
    requires RowsOf(g, input)
    ensures FrameRows(g, rows)
  {
    var h := g.height;
    input[Min(n * h, |input|) .. Min(n * h + h, |input|)]
  }

  /** Frame `n` of the output is the transform, under matrix frame `n`, of
      the `n`-th run of `height` input rows. */
  lemma {:induction false} RunFrame(g: Stream, matrices: seq<MatrixFrame>, input: seq<seq<byte>>, n: nat)
    requires MatrixFrames(matrices) && RowsOf(g, input) && n < |matrices|
    ensures Run(g, matrices, input)[n] == TransformFrame(g, FrameDest(g, matrices[n]), FrameInput(g, input, n))
  {
    var h := g.height;
    if n > 0 {
      var k := Min(h, |input|);
      var rest := input[k..];
      RunFrame(g, matrices[1..], rest, n - 1);
      assert Run(g, matrices, input)[n] == Run(g, matrices[1..], rest)[n - 1];
      FrameInputShift(g, input, n);
    }
  }

  /** Dropping the rows of the first frame shifts the later frames' rows by
      one frame. */
  lemma FrameInputShift(g: Stream, input: seq<seq<byte>>, n: nat)
    requires RowsOf(g, input) && 0 < n
    ensures FrameInput(g, input[Min(g.height, |input|)..], n - 1) == FrameInput(g, input, n)
  {
    var h := g.height;
    var a := (n - 1) * h;
    MulSucc(n, h);
    if |input| < h {
      MulLeMono(1, n, h);
      assert FrameInput(g, input, n) == [];
    } else {
      SliceShift(input, h, a, a + h);
    }
  }

  /** Slicing after dropping `k` elements is slicing `k` further along. */
  lemma SliceShift<T>(s: seq<T>, k: nat, lo: nat, hi: nat)
    requires k <= |s| && lo <= hi
    ensures s[k..][Min(lo, |s| - k) .. Min(hi, |s| - k)] == s[Min(lo + k, |s|) .. Min(hi + k, |s|)]
  {
  }

  /** A frame with all its rows available reads exactly `height` rows. */
  lemma FrameInputFull(g: Stream, input: seq<seq<byte>>, n: nat)
    requires RowsOf(g, input)
    requires n * g.height + g.height <= |input|
    ensures FrameInput(g, input, n) == input[n * g.height .. n * g.height + g.height]
    ensures |FrameInput(g, input, n)| == g.height
  {
    var lo := n * g.height;
    assert Min(lo, |input|) == lo;
    assert Min(lo + g.height, |input|) == lo + g.height;
  }

  /** Exactly one frame of exactly `FrameSize` bytes per matrix frame. */
  lemma OneFramePerMatrix(g: Stream, matrices: seq<MatrixFrame>, input: seq<seq<byte>>)
    requires MatrixFrames(matrices) && RowsOf(g, input)
    ensures |Run(g, matrices, input)| == |matrices|
    ensures |Flatten(Run(g, matrices, input))| == |matrices| * FrameSize(g)
  {
    FlattenLength(Run(g, matrices, input), FrameSize(g));
  }

  /** Short input: with only `k < height` rows left, the frame is the
      transform of those `k` rows alone. */
  lemma ShortInputFrame(g: Stream, matrices: seq<MatrixFrame>, input: seq<seq<byte>>)
    requires MatrixFrames(matrices) && RowsOf(g, input)
    requires 0 < |matrices| && |input| < g.height
    ensures Run(g, matrices, input)[0] == TransformFrame(g, FrameDest(g, matrices[0]), input)
  {
    assert input[..|input|] == input;
  }

  /** Once the input has run out, every further matrix frame still yields a
      full frame, and that frame is all zero. */
  lemma ExhaustedInputGivesZeroFrames(g: Stream, matrices: seq<MatrixFrame>, input: seq<seq<byte>>, n: nat)
    requires MatrixFrames(matrices) && RowsOf(g, input) && n < |matrices|
    requires |input| <= n * g.height
    ensures Run(g, matrices, input)[n] == Zeroes(FrameSize(g))
  {
    RunFrame(g, matrices, input, n);
    assert FrameInput(g, input, n) == [];
  }

  /** Identity through the whole loop: a matrix frame holding the identity
      coefficients, with a full frame of input rows, reproduces those rows. */
  lemma IdentityMatrixReproducesInput(g: Stream, matrices: seq<MatrixFrame>, input: seq<seq<byte>>, n: nat)
    requires MatrixFrames(matrices) && RowsOf(g, input) && n < |matrices|
    requires Decode(matrices[n]) == Identity
    requires n * g.height + g.height <= |input|
    ensures Run(g, matrices, input)[n] == Flatten(input[n * g.height .. n * g.height + g.height])
  {
    RunFrame(g, matrices, input, n);
    var rows := FrameInput(g, input, n);
    FrameInputFull(g, input, n);
    var dest := AffineDest(Identity, g.width, g.height);
    assert FrameDest(g, matrices[n]) == dest;
    IdentityDestEverywhere(g.width, g.height);
    IdentityReproducesFrame(g, dest, rows);
  }

  /** The loop as the source writes it: one output buffer, zeroed for each
      matrix frame, rows read one at a time until `height` rows or the end
      of the input, pixels copied in place. */
  method Process(g: Stream, matrices: seq<MatrixFrame>, input: seq<seq<byte>>) returns (emitted: seq<seq<byte>>)
    requires MatrixFrames(matrices) && RowsOf(g, input)
    ensures emitted == Run(g, matrices, input)
  {
    var outputFrame := new byte[FrameSize(g)];
    emitted := [];
    var m := 0;
    var next := 0;
    while m < |matrices|
      invariant 0 <= m <= |matrices| && 0 <= next <= |input|
      invariant outputFrame.Length == FrameSize(g)
      invariant emitted + Run(g, matrices[m..], input[next..]) == Run(g, matrices, input)
    {
      var dest := FrameDest(g, matrices[m]);
      var start := next;
      next := ScatterFrame(outputFrame, g, dest, input, start);
      RunStep(g, matrices, input, m, start);
      assert (emitted + [outputFrame[..]]) + Run(g, matrices[m + 1..], input[next..])
          == emitted + Run(g, matrices[m..], input[start..]);
      emitted := emitted + [outputFrame[..]];
      m := m + 1;
    }
    assert matrices[m..] == [];
  }

  /** `Run` from matrix frame `m` and row `start` emits one frame from the
      next `min(height, rows left)` rows, then goes on after them. */
  lemma RunStep(g: Stream, matrices: seq<MatrixFrame>, input: seq<seq<byte>>, m: nat, start: nat)
    requires MatrixFrames(matrices) && RowsOf(g, input)
    requires m < |matrices| && start <= |input|
    ensures var next := start + Min(g.height, |input| - start);
            Run(g, matrices[m..], input[start..])
            == [TransformFrame(g, FrameDest(g, matrices[m]), input[start..next])] + Run(g, matrices[m + 1..], input[next..])
  {
    var next := start + Min(g.height, |input| - start);
    assert matrices[m..][1..] == matrices[m + 1..];
    assert input[start..][next - start..] == input[next..];
    assert input[start..][..next - start] == input[start..next];
  }

  /** One iteration of the matrix loop: zero the buffer, then read and
      scatter rows from `start` until `height` rows are done or the input
      ends; returns the index of the next unread row. */
  method ScatterFrame(outputFrame: array<byte>, g: Stream, dest: DestMap, input: seq<seq<byte>>, start: nat)
      returns (next: nat)
    requires RowsOf(g, input) && start <= |input| && outputFrame.Length == FrameSize(g)
    modifies outputFrame
    ensures next == start + Min(g.height, |input| - start)
    ensures outputFrame[..] == TransformFrame(g, dest, input[start..next])
  {
    forall i | 0 <= i < outputFrame.Length {
      outputFrame[i] := 0;
    }
    assert outputFrame[..] == Zeroes(FrameSize(g));
    next := start;
    var y: nat := 0;
    while y < g.height
      invariant start <= next <= |input| && next - start == y <= g.height
      invariant outputFrame[..] == ScatterRows(g, dest, Zeroes(FrameSize(g)), input[start..next])
    {
      if next == |input| {
        break;
      }
      var row := input[next];
      ScatterRowInto(outputFrame, g, dest, y, row);
      next := next + 1;
      y := y + 1;
      assert input[start..next][..y - 1] == input[start..next - 1];
    }
  }

  /** The pixel loop over one input row. */
  method ScatterRowInto(outputFrame: array<byte>, g: Stream, dest: DestMap, y: nat, row: seq<byte>)
    requires outputFrame.Length == FrameSize(g) && |row| == RowSize(g)
    modifies outputFrame
    ensures outputFrame[..] == ScatterRow(g, dest, old(outputFrame[..]), y, row, g.width)
  {
    ghost var base := outputFrame[..];
    var x: nat := 0;
    while x < g.width
      invariant x <= g.width
      invariant outputFrame[..] == ScatterRow(g, dest, base, y, row, x)
    {
      var p := dest(x, y);
      var off := OutputOffset(g, p);
      if 0 <= off < outputFrame.Length {
        CopyInBounds(g, p, x);
        CopyPixel(outputFrame, off, row, x * g.pixelSize, g.pixelSize);
        assert row[x * g.pixelSize .. x * g.pixelSize + g.pixelSize] == SourcePixel(g, row, x);
      }
      x := x + 1;
    }
  }

  /** The pixel copy (`memcpy`) into the output array. */
  method CopyPixel(frame: array<byte>, off: int, row: seq<byte>, inputOffset: int, size: nat)
    requires 0 <= off && off + size <= frame.Length
    requires 0 <= inputOffset && inputOffset + size <= |row|
    modifies frame
    ensures frame[..] == Overwrite(old(frame[..]), off, row[inputOffset .. inputOffset + size])
  {
    ghost var before := frame[..];
    ghost var src := row[inputOffset .. inputOffset + size];
    forall j | 0 <= j < size {
      frame[off + j] := row[inputOffset + j];
    }
    assert forall j :: 0 <= j < size ==> frame[..][off + j] == src[j];
    OverwriteExtensional(before, frame[..], off, src);
  }
}
