/** The forward (scatter) mapping of one frame: every source pixel is copied
    to the flat byte offset of its destination, when that offset lies inside
    the frame, over an output buffer that starts zeroed. */
module Scatter {
  import opened Arith
  import opened Bytes
  import opened Streams

  /** A destination pixel position. Both coordinates are signed: a mapped
      pixel may land left of, above, right of or below the frame. */
  datatype Point = Point(x: int, y: int)

  /** Where each source pixel `(x_in, y_in)` goes under the current matrix. */
  type DestMap = (nat, nat) -> Point

  /** Row-major pixel index of a destination in a frame of width `width`. */
  function FlatIndex(p: Point, width: nat): int
  {
    p.y * width + p.x
  }

  /** Byte offset of the destination pixel in the output frame. */
  function OutputOffset(g: Stream, p: Point): int
  {
    FlatIndex(p, g.width) * g.pixelSize
  }

  /** The only bounds check the transform makes: on the flat offset, not on
      each coordinate. */
  predicate Accepted(g: Stream, off: int)
  {
    0 <= off < FrameSize(g)
  }

  /** An offset is accepted exactly when its flat pixel index is one of the
      `width * height` pixels of the frame; the coordinates themselves are not
      checked, so `x` outside `[0, width)` can be accepted on a neighbouring
      row. */
  lemma AcceptedIffFlatInFrame(g: Stream, p: Point)
    ensures Accepted(g, OutputOffset(g, p)) <==>
            0 < g.pixelSize && 0 <= FlatIndex(p, g.width) < g.width * g.height
  {
    if 0 < g.pixelSize {
      assert FrameSize(g) == (g.width * g.height) * g.pixelSize;
      ScaledRange(FlatIndex(p, g.width), g.width * g.height, g.pixelSize);
    }
  }

  /** Both sides of the `memcpy` stay inside their buffers: the accepted
      destination span ends by the frame end, the source span by the row end. */
  lemma CopyInBounds(g: Stream, p: Point, x: nat)
    requires Accepted(g, OutputOffset(g, p)) && x < g.width
    ensures 0 <= OutputOffset(g, p) && OutputOffset(g, p) + g.pixelSize <= FrameSize(g)
    ensures 0 <= x * g.pixelSize && x * g.pixelSize + g.pixelSize <= RowSize(g)
  {
    AcceptedIffFlatInFrame(g, p);
    assert FrameSize(g) == (g.width * g.height) * g.pixelSize;
    SlotSpan(FlatIndex(p, g.width), 0, g.width * g.height, g.pixelSize);
    MulLeMono(x + 1, g.width, g.pixelSize);
    MulLeMono(0, x, g.pixelSize);
  }

  /** The bytes of source pixel `x` of `row`. */
  function SourcePixel(g: Stream, row: seq<byte>, x: nat): (px: seq<byte>)
    requires |row| == RowSize(g) && x < g.width
    ensures |px| == g.pixelSize
  {
    MulLeMono(x + 1, g.width, g.pixelSize);
    row[x * g.pixelSize .. x * g.pixelSize + g.pixelSize]
  }

  /** One step of the inner loop: map source pixel `(x, y)`, and copy it into
      `out` if its offset is accepted. */
  function PlacePixel(g: Stream, dest: DestMap, out: seq<byte>, y: nat, row: seq<byte>, x: nat): (r: seq<byte>)
    requires |out| == FrameSize(g) && |row| == RowSize(g) && x < g.width
    ensures |r| == |out|
    ensures !Accepted(g, OutputOffset(g, dest(x, y))) ==> r == out
  {
    var off := OutputOffset(g, dest(x, y));
    if Accepted(g, off) then
      CopyInBounds(g, dest(x, y), x);
      Overwrite(out, off, SourcePixel(g, row, x))
    else
      out
  }

  /** The first `n` pixels of row `y` scattered, left to right, into `out`. */
  function ScatterRow(g: Stream, dest: DestMap, out: seq<byte>, y: nat, row: seq<byte>, n: nat): (r: seq<byte>)
    requires |out| == FrameSize(g) && |row| == RowSize(g) && n <= g.width
    ensures |r| == |out|
  {
    if n == 0 then out
    else PlacePixel(g, dest, ScatterRow(g, dest, out, y, row, n - 1), y, row, n - 1)
  }

  /** All pixels of `rows` (rows `0 .. |rows| - 1` of the frame) scattered in
      row-major order into `out`. */
  function ScatterRows(g: Stream, dest: DestMap, out: seq<byte>, rows: seq<seq<byte>>): (r: seq<byte>)
    requires |out| == FrameSize(g) && RowsOf(g, rows)
    ensures |r| == |out|
  {
    if |rows| == 0 then out
    else
      var y := |rows| - 1;
      ScatterRow(g, dest, ScatterRows(g, dest, out, rows[..y]), y, rows[y], g.width)
  }

  /** One output frame: the zeroed buffer with the rows read for this frame
      scattered into it. */
  function TransformFrame(g: Stream, dest: DestMap, rows: seq<seq<byte>>): (r: seq<byte>)
    requires FrameRows(g, rows)
    ensures |r| == FrameSize(g)
  {
    ScatterRows(g, dest, Zeroes(FrameSize(g)), rows)
  }
}
