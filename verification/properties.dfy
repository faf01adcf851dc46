/** Properties of one transformed frame, derived from the gather view. */
module TransformProperties {
  import opened Arith
  import opened Bytes
  import opened Streams
  import opened Scatter
  import opened Gather

  /** Zero fill: a destination pixel that no read source pixel lands on is
      all zero bytes in the emitted frame. */
  lemma UncoveredStaysZero(g: Stream, dest: DestMap, rows: seq<seq<byte>>, q: int)
    requires FrameRows(g, rows) && 0 <= q < g.width * g.height
    requires forall x: nat, y: nat :: x < g.width && y < |rows| ==> !Covers(g, dest, x, y, q)
    ensures forall j :: 0 <= j < g.pixelSize ==> SlotByte(g, TransformFrame(g, dest, rows), q, j) == 0
  {
    assert LastCover(g, dest, |rows|, q).None?;
    forall j | 0 <= j < g.pixelSize
      ensures SlotByte(g, TransformFrame(g, dest, rows), q, j) == 0
    {
      TransformSlot(g, dest, rows, q, j);
    }
  }

  /** A matrix that sends every source pixel outside the frame yields an
      all-zero frame. */
  lemma AllDroppedIsZero(g: Stream, dest: DestMap, rows: seq<seq<byte>>)
    requires FrameRows(g, rows)
    requires forall x: nat, y: nat :: x < g.width && y < |rows| ==> !Accepted(g, OutputOffset(g, dest(x, y)))
    ensures TransformFrame(g, dest, rows) == Zeroes(FrameSize(g))
  {
    var t := TransformFrame(g, dest, rows);
    forall q, j | 0 <= q < g.width * g.height && 0 <= j < g.pixelSize
      ensures SlotByte(g, t, q, j) == SlotByte(g, Zeroes(FrameSize(g)), q, j)
    {
      forall x: nat, y: nat | x < g.width && y < |rows|
        ensures !Covers(g, dest, x, y, q)
      {
        AcceptedIffFlatInFrame(g, dest(x, y));
      }
      UncoveredStaysZero(g, dest, rows, q);
      ZeroSlot(g, q, j);
    }
    SlotwiseEqual(g, t, Zeroes(FrameSize(g)));
  }

  /** Last write wins: an accepted source pixel that no later source pixel
      overwrites appears, byte for byte, at its destination offset. */
  lemma LastWriteWins(g: Stream, dest: DestMap, rows: seq<seq<byte>>, x: nat, y: nat)
    requires FrameRows(g, rows) && x < g.width && y < |rows|
    requires Accepted(g, OutputOffset(g, dest(x, y)))
    requires forall x': nat, y': nat :: x' < g.width && y' < |rows| && Later(x', y', Source(x, y)) ==>
               !Covers(g, dest, x', y', FlatIndex(dest(x, y), g.width))
    ensures 0 <= OutputOffset(g, dest(x, y)) && OutputOffset(g, dest(x, y)) + g.pixelSize <= FrameSize(g)
    ensures TransformFrame(g, dest, rows)[OutputOffset(g, dest(x, y)) .. OutputOffset(g, dest(x, y)) + g.pixelSize]
            == SourcePixel(g, rows[y], x)
  {
    var p := dest(x, y);
    var q := FlatIndex(p, g.width);
    var ps := g.pixelSize;
    var off := OutputOffset(g, p);
    AcceptedIffFlatInFrame(g, p);
    CopyInBounds(g, p, x);
    LastCoverIsLastWriter(g, dest, rows, x, y);
    var t := TransformFrame(g, dest, rows);
    var src := SourcePixel(g, rows[y], x);
    forall j | 0 <= j < ps
      ensures t[off + j] == src[j]
    {
      TransformSlot(g, dest, rows, q, j);
      SlotByteAt(g, t, q, j, off + j);
      SourceByteAt(g, rows[y], x, j);
    }
    assert t[off .. off + ps] == src;
  }

  /** The gather search finds the pixel that no later pixel overwrites. */
  lemma LastCoverIsLastWriter(g: Stream, dest: DestMap, rows: seq<seq<byte>>, x: nat, y: nat)
    requires x < g.width && y < |rows|
    requires forall x': nat, y': nat :: x' < g.width && y' < |rows| && Later(x', y', Source(x, y)) ==>
               !Covers(g, dest, x', y', FlatIndex(dest(x, y), g.width))
    ensures LastCover(g, dest, |rows|, FlatIndex(dest(x, y), g.width)) == Some(Source(x, y))
  {
    var q := FlatIndex(dest(x, y), g.width);
    assert Covers(g, dest, x, y, q);
    var s := LastCover(g, dest, |rows|, q).value;
    assert !Later(x, y, s);
    assert !Later(s.x, s.y, Source(x, y));
  }

  lemma SlotByteAt(g: Stream, frame: seq<byte>, q: int, j: int, i: int)
    requires |frame| == FrameSize(g)
    requires 0 <= q < g.width * g.height && 0 <= j < g.pixelSize
    requires i == q * g.pixelSize + j
    ensures 0 <= i < |frame| && SlotByte(g, frame, q, j) == frame[i]
  {
    assert FrameSize(g) == (g.width * g.height) * g.pixelSize;
    SlotSpan(q, j, g.width * g.height, g.pixelSize);
  }

  lemma SourceByteAt(g: Stream, row: seq<byte>, x: nat, j: int)
    requires |row| == RowSize(g) && x < g.width && 0 <= j < g.pixelSize
    ensures SourcePixel(g, row, x)[j] == SourceByte(g, row, x, j)
  {
    SlotSpan(x, j, g.width, g.pixelSize);
  }

  /** Two reads of the same frame that differ only inside one source pixel. */
  ghost predicate SameExceptPixel(g: Stream, rows: seq<seq<byte>>, rows': seq<seq<byte>>, x: nat, y: nat)
    requires RowsOf(g, rows) && RowsOf(g, rows')
  {
    && |rows| == |rows'|
    && forall x': nat, y': nat, j :: x' < g.width && y' < |rows| && 0 <= j < g.pixelSize && (x' != x || y' != y) ==>
         SourceByte(g, rows[y'], x', j) == SourceByte(g, rows'[y'], x', j)
  }

  /** A source pixel whose flat offset is rejected is dropped, not clamped:
      its bytes have no effect on the emitted frame. */
  lemma DroppedPixelHasNoEffect(g: Stream, dest: DestMap, rows: seq<seq<byte>>, rows': seq<seq<byte>>, x: nat, y: nat)
    requires FrameRows(g, rows) && FrameRows(g, rows') && SameExceptPixel(g, rows, rows', x, y)
    requires x < g.width && !Accepted(g, OutputOffset(g, dest(x, y)))
    ensures TransformFrame(g, dest, rows) == TransformFrame(g, dest, rows')
  {
    var t := TransformFrame(g, dest, rows);
    var t' := TransformFrame(g, dest, rows');
    AcceptedIffFlatInFrame(g, dest(x, y));
    forall q, j | 0 <= q < g.width * g.height && 0 <= j < g.pixelSize
      ensures SlotByte(g, t, q, j) == SlotByte(g, t', q, j)
    {
      TransformSlot(g, dest, rows, q, j);
      TransformSlot(g, dest, rows', q, j);
      match LastCover(g, dest, |rows|, q)
      case None =>
      case Some(s) =>
        assert s.x != x || s.y != y;
    }
    SlotwiseEqual(g, t, t');
  }

  /** Identity: when every source pixel maps to itself and all `height` rows
      are read, the emitted frame is the input frame byte for byte. */
  lemma IdentityReproducesFrame(g: Stream, dest: DestMap, rows: seq<seq<byte>>)
    requires FrameRows(g, rows) && |rows| == g.height
    requires forall x: nat, y: nat :: x < g.width && y < g.height ==> dest(x, y) == Point(x, y)
    ensures TransformFrame(g, dest, rows) == Flatten(rows)
  {
    var t := TransformFrame(g, dest, rows);
    var fl := Flatten(rows);
    FlattenLength(rows, RowSize(g));
    forall q, j | 0 <= q < g.width * g.height && 0 <= j < g.pixelSize
      ensures SlotByte(g, t, q, j) == SlotByte(g, fl, q, j)
    {
      IdentitySlot(g, dest, rows, q, j);
    }
    SlotwiseEqual(g, t, fl);
  }

  lemma IdentitySlot(g: Stream, dest: DestMap, rows: seq<seq<byte>>, q: int, j: int)
    requires FrameRows(g, rows) && |rows| == g.height
    requires forall x: nat, y: nat :: x < g.width && y < g.height ==> dest(x, y) == Point(x, y)
    requires 0 <= q < g.width * g.height && 0 <= j < g.pixelSize
    ensures |Flatten(rows)| == FrameSize(g)
    ensures SlotByte(g, TransformFrame(g, dest, rows), q, j) == SlotByte(g, Flatten(rows), q, j)
  {
    var w := g.width;
    var ps := g.pixelSize;
    FlattenLength(rows, RowSize(g));
    RowMajorSplit(w, g.height, q);
    var x: nat := q % w;
    var y: nat := q / w;
    assert Covers(g, dest, x, y, q);
    var s := LastCover(g, dest, |rows|, q).value;
    assert dest(s.x, s.y) == Point(s.x, s.y);
    RowMajorUnique(w, s.x, s.y, x, y);
    TransformSlot(g, dest, rows, q, j);
    var i := q * ps + j;
    SlotByteAt(g, TransformFrame(g, dest, rows), q, j, i);
    SlotByteAt(g, Flatten(rows), q, j, i);
    SlotSpan(x, j, w, ps);
    FlattenIndex(rows, RowSize(g), y, x * ps + j);
    RowMajorOffset(w, ps, x, y, j);
  }
}
