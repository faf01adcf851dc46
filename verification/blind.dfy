/** The program: argument and matrix-stream checks, then the stream header
    and the transformed frames. */
module Blind {
  import opened Bytes
  import opened Streams
  import opened Scatter
  import opened Matrix
  import opened Affine
  import opened Driver

  /** The fatal errors reported before any frame is read. */
  datatype Error =
    | UsageError       // not exactly one argument
    | GeometryError    // matrix stream is not 3x3
    | FormatError      // matrix stream is not "xyza"

  datatype Result<T> = Ok(value: T) | Fail(error: Error)

  /** What the program writes to standard output: the header of the input
      stream, then one frame per matrix frame. */
  datatype Output = Output(head: Stream, frames: seq<seq<byte>>)

  /** The matrix stream must be 3x3 pixels of format "xyza"; geometry is
      checked first. */
  function ValidateMatrixStream(ms: Stream): (r: Result<Stream>)
    ensures r.Ok? <==> ms.width == MatrixWidth && ms.height == MatrixHeight && ms.pixfmt == MatrixFormat
    ensures r.Ok? ==> r.value == ms
    ensures r == Fail(GeometryError) <==> ms.width != MatrixWidth || ms.height != MatrixHeight
    ensures r == Fail(FormatError) <==>
            ms.width == MatrixWidth && ms.height == MatrixHeight && ms.pixfmt != MatrixFormat
  {
    if ms.width != 3 || ms.height != 3 then Fail(GeometryError)
    else if ms.pixfmt != "xyza" then Fail(FormatError)
    else Ok(ms)
  }

  /** The whole program on `argv`, the input stream `input` with its rows,
      and the matrix stream `ms` with its frames. */
  function BlindTransform(argv: seq<string>, input: Stream, rows: seq<seq<byte>>,
                          ms: Stream, matrices: seq<MatrixFrame>): (r: Result<Output>)
    requires RowsOf(input, rows)
    requires ValidateMatrixStream(ms).Ok? ==> MatrixFrames(matrices)
    ensures |argv| != 2 ==> r == Fail(UsageError)
    ensures |argv| == 2 ==> (r.Ok? <==> ValidateMatrixStream(ms).Ok?)
    ensures |argv| == 2 && r.Fail? ==> r.error == ValidateMatrixStream(ms).error
    ensures r.Ok? ==> r.value.head == input && |r.value.frames| == |matrices|
    ensures r.Ok? ==> forall n :: 0 <= n < |matrices| ==>
              r.value.frames[n] == TransformFrame(input, FrameDest(input, matrices[n]), FrameInput(input, rows, n))
  {
    if |argv| != 2 then Fail(UsageError)
    else match ValidateMatrixStream(ms)
      case Fail(e) => Fail(e)
      case Ok(_) =>
        var frames := Run(input, matrices, rows);
        assert forall n :: 0 <= n < |matrices| ==>
          frames[n] == TransformFrame(input, FrameDest(input, matrices[n]), FrameInput(input, rows, n)) by {
          forall n | 0 <= n < |matrices| {
            RunFrame(input, matrices, rows, n);
          }
        }
        Ok(Output(input, frames))
  }

  /** A 2x2 frame of one-byte pixels. */
  const Tiny: Stream := Stream(2, 2, 1, "gray")

  /** The identity matrix on a 2x2 frame gives the frame back. */
  lemma TinyIdentity()
    ensures Run(Tiny, [Encode(Identity)], [[10, 11], [12, 13]]) == [[10, 11, 12, 13]]
  {
    var rows: seq<seq<byte>> := [[10, 11], [12, 13]];
    DecodeEncode(Identity);
    IdentityMatrixReproducesInput(Tiny, [Encode(Identity)], rows, 0);
    assert rows[0..2] == rows;
    assert Flatten(rows) == [10, 11, 12, 13] by {
      assert rows[..1] == [rows[0]];
      assert Flatten(rows[..1]) == rows[0];
    }
  }

  /** Shifting a 2x2 frame right by one pixel: pixel (0,0) moves to (1,0);
      pixel (1,0) leaves its row but its flat offset is in range, so it lands
      at (0,1); pixel (0,1) moves to (1,1); pixel (1,1) is dropped. Only
      output pixel (0,0) stays zero. */
  lemma TinyShiftWrapsOntoNextRow()
    ensures Run(Tiny, [Encode(Translation(1, 0))], [[10, 11], [12, 13]]) == [[0, 10, 11, 12]]
  {
    var rows: seq<seq<byte>> := [[10, 11], [12, 13]];
    var c := Translation(1, 0);
    DecodeEncode(c);
    var dest := FrameDest(Tiny, Encode(c));
    assert dest == AffineDest(c, 2, 2);
    forall x: nat, y: nat
      ensures dest(x, y) == Point(x + 1, y)
    {
      TranslationDest(1, 0, 2, 2, x, y);
    }
    assert rows[..2] == rows;
    TinyShiftFrame(dest, rows);
  }

  /** One pixel step of the 2x2 shift: pixel `(x, y)` is written at flat
      index `2y + x + 1` when that is inside the frame. */
  lemma TinyShiftPixel(dest: DestMap, out: seq<byte>, y: nat, row: seq<byte>, x: nat)
    requires dest(x, y) == Point(x + 1, y)
    requires |out| == 4 && |row| == 2 && x < 2
    ensures 2 * y + x + 1 < 4 ==> PlacePixel(Tiny, dest, out, y, row, x) == out[2 * y + x + 1 := row[x]]
    ensures 2 * y + x + 1 >= 4 ==> PlacePixel(Tiny, dest, out, y, row, x) == out
  {
    var off := OutputOffset(Tiny, dest(x, y));
    assert off == 2 * y + x + 1;
    if off < 4 {
      assert SourcePixel(Tiny, row, x) == [row[x]];
      assert Overwrite(out, off, [row[x]]) == out[off := row[x]];
    }
  }

  /** Row 0 of the 2x2 shift: both pixels stay inside the frame. */
  lemma TinyShiftRow0(dest: DestMap, row: seq<byte>)
    requires dest(0, 0) == Point(1, 0) && dest(1, 0) == Point(2, 0)
    requires |row| == 2
    ensures ScatterRow(Tiny, dest, Zeroes(4), 0, row, 2) == [0, row[0], row[1], 0]
  {
    var z := Zeroes(4);
    assert z == [0, 0, 0, 0];
    assert ScatterRow(Tiny, dest, z, 0, row, 0) == z;
    TinyShiftPixel(dest, z, 0, row, 0);
    var a := ScatterRow(Tiny, dest, z, 0, row, 1);
    assert a == [0, row[0], 0, 0];
    TinyShiftPixel(dest, a, 0, row, 1);
  }

  /** Row 1 of the 2x2 shift: the first pixel lands on the last slot, the
      second is dropped. */
  lemma TinyShiftRow1(dest: DestMap, out: seq<byte>, row: seq<byte>)
    requires dest(0, 1) == Point(1, 1) && dest(1, 1) == Point(2, 1)
    requires |out| == 4 && |row| == 2
    ensures ScatterRow(Tiny, dest, out, 1, row, 2) == out[3 := row[0]]
  {
    assert ScatterRow(Tiny, dest, out, 1, row, 0) == out;
    TinyShiftPixel(dest, out, 1, row, 0);
    TinyShiftPixel(dest, out[3 := row[0]], 1, row, 1);
  }

  lemma TinyShiftFrame(dest: DestMap, rows: seq<seq<byte>>)
    requires forall x: nat, y: nat :: dest(x, y) == Point(x + 1, y)
    requires rows == [[10, 11], [12, 13]]
    ensures TransformFrame(Tiny, dest, rows) == [0, 10, 11, 12]
  {
    var z := Zeroes(4);
    assert rows[..1] == [rows[0]];
    assert dest(0, 0) == Point(1, 0) && dest(1, 0) == Point(2, 0);
    assert dest(0, 1) == Point(1, 1) && dest(1, 1) == Point(2, 1);
    TinyShiftRow0(dest, rows[0]);
    var r0 := ScatterRow(Tiny, dest, z, 0, rows[0], 2);
    assert ScatterRows(Tiny, dest, z, rows[..1]) == r0 by {
      assert ScatterRows(Tiny, dest, z, rows[..1][..0]) == z;
    }
    TinyShiftRow1(dest, r0, rows[1]);
    assert ScatterRows(Tiny, dest, z, rows) == ScatterRow(Tiny, dest, r0, 1, rows[1], 2);
  }
}
