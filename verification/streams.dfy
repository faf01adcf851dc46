/** Geometry of a frame stream: the part of the stream descriptor the
    transform reads. Opening, header parsing and reading are not modelled. */
module Streams {
  import opened Bytes

  /** A stream of equal-size frames, `height` rows of `width` pixels of
      `pixelSize` bytes, with a pixel format tag such as "xyza". */
  datatype Stream = Stream(width: nat, height: nat, pixelSize: nat, pixfmt: string)

  function RowSize(g: Stream): nat
  {
    g.width * g.pixelSize
  }

  function FrameSize(g: Stream): nat
  {
    g.height * RowSize(g)
  }

  /** Every row read from the stream has exactly `RowSize` bytes. */
  ghost predicate RowsOf(g: Stream, rows: seq<seq<byte>>)
  {
    forall k :: 0 <= k < |rows| ==> |rows[k]| == RowSize(g)
  }

  /** The rows read for one frame: well sized, and no more than `height`. */
  ghost predicate FrameRows(g: Stream, rows: seq<seq<byte>>)
  {
    RowsOf(g, rows) && |rows| <= g.height
  }
}
