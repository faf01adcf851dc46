/** An independent, per-byte description of the frame the scatter produces:
    byte `j` of destination pixel `q` is byte `j` of the LAST source pixel,
    in row-major order, whose flat destination index is `q`, or zero when no
    source pixel lands there. The theorems of this module prove that the
    scatter fold computes exactly this frame, and derive from it the zero
    fill, last-write-wins, dropping and identity properties. */
module Gather {
  import opened Arith
  import opened Bytes
  import opened Streams
  import opened Scatter

  datatype Option<T> = None | Some(value: T)

  /** A source pixel position. */
  datatype Source = Source(x: nat, y: nat)

  /** Source pixel `(x, y)` lands on destination pixel `q`. */
  predicate Covers(g: Stream, dest: DestMap, x: nat, y: nat, q: int)
  {
    FlatIndex(dest(x, y), g.width) == q
  }

  /** `(x, y)` is visited after `s` by the row loop. */
  predicate Later(x: nat, y: nat, s: Source)
  {
    y > s.y || (y == s.y && x > s.x)
  }

  /** The right-most pixel among the first `n` of row `y` that lands on `q`. */
  function LastInRow(g: Stream, dest: DestMap, y: nat, n: nat, q: int): (r: Option<nat>)
    ensures r.None? ==> forall x: nat :: x < n ==> !Covers(g, dest, x, y, q)
    ensures r.Some? ==> r.value < n && Covers(g, dest, r.value, y, q)
    ensures r.Some? ==> forall x: nat :: r.value < x < n ==> !Covers(g, dest, x, y, q)
  {
    if n == 0 then None
    else if Covers(g, dest, n - 1, y, q) then Some(n - 1)
    else LastInRow(g, dest, y, n - 1, q)
  }

  /** The last pixel, in row-major order over rows `0 .. k - 1`, that lands
      on `q`. */
  function LastCover(g: Stream, dest: DestMap, k: nat, q: int): (r: Option<Source>)
    ensures r.None? ==> forall x: nat, y: nat :: x < g.width && y < k ==> !Covers(g, dest, x, y, q)
    ensures r.Some? ==> r.value.x < g.width && r.value.y < k && Covers(g, dest, r.value.x, r.value.y, q)
    ensures r.Some? ==> forall x: nat, y: nat ::
              x < g.width && y < k && Later(x, y, r.value) ==> !Covers(g, dest, x, y, q)
  {
    if k == 0 then None
    else match LastInRow(g, dest, k - 1, g.width, q)
      case Some(x) => Some(Source(x, k - 1))
      case None => LastCover(g, dest, k - 1, q)
  }

  /** Byte `j` of pixel slot `q` of a frame. */
  function SlotByte(g: Stream, frame: seq<byte>, q: int, j: int): byte
    requires |frame| == FrameSize(g)
    requires 0 <= q < g.width * g.height && 0 <= j < g.pixelSize
  {
    assert FrameSize(g) == (g.width * g.height) * g.pixelSize;
    SlotSpan(q, j, g.width * g.height, g.pixelSize);
    frame[q * g.pixelSize + j]
  }

  /** Byte `j` of source pixel `x` of a row. */
  function SourceByte(g: Stream, row: seq<byte>, x: nat, j: int): byte
    requires |row| == RowSize(g) && x < g.width && 0 <= j < g.pixelSize
  {
    SlotSpan(x, j, g.width, g.pixelSize);
    row[x * g.pixelSize + j]
  }

  /** The gather view of byte `j` of destination pixel `q`. */
  function GatherByte(g: Stream, dest: DestMap, rows: seq<seq<byte>>, q: int, j: int): byte
    requires RowsOf(g, rows) && 0 <= j < g.pixelSize
  {
    match LastCover(g, dest, |rows|, q)
    case None => 0
    case Some(s) => SourceByte(g, rows[s.y], s.x, j)
  }

  /** Every byte of a frame belongs to exactly one pixel slot. */
  lemma ByteSlot(g: Stream, i: int)
    requires 0 <= i < FrameSize(g)
    ensures 0 < g.pixelSize
    ensures 0 <= i / g.pixelSize < g.width * g.height
    ensures i == i / g.pixelSize * g.pixelSize + i % g.pixelSize
    ensures 0 <= i % g.pixelSize < g.pixelSize
  {
    assert FrameSize(g) == (g.width * g.height) * g.pixelSize;
    var ps := g.pixelSize;
    if i / ps >= g.width * g.height {
      MulLeMono(g.width * g.height, i / ps, ps);
    }
  }

  /** Byte `i` of the gather view of the frame. */
  function GatherAt(g: Stream, dest: DestMap, rows: seq<seq<byte>>, i: int): byte
    requires RowsOf(g, rows) && 0 <= i < FrameSize(g)
  {
    ByteSlot(g, i);
    GatherByte(g, dest, rows, i / g.pixelSize, i % g.pixelSize)
  }

  /** The whole frame as the gather view describes it. */
  function GatherFrame(g: Stream, dest: DestMap, rows: seq<seq<byte>>): (r: seq<byte>)
    requires RowsOf(g, rows)
    ensures |r| == FrameSize(g)
  {
    seq(FrameSize(g), i requires 0 <= i < FrameSize(g) => GatherAt(g, dest, rows, i))
  }

  /** Two frames that agree on every byte of every pixel slot are equal. */
  lemma SlotwiseEqual(g: Stream, a: seq<byte>, b: seq<byte>)
    requires |a| == FrameSize(g) && |b| == FrameSize(g)
    requires forall q, j :: 0 <= q < g.width * g.height && 0 <= j < g.pixelSize ==>
               SlotByte(g, a, q, j) == SlotByte(g, b, q, j)
    ensures a == b
  {
    forall i | 0 <= i < |a|
      ensures a[i] == b[i]
    {
      ByteSlot(g, i);
      assert SlotByte(g, a, i / g.pixelSize, i % g.pixelSize) == SlotByte(g, b, i / g.pixelSize, i % g.pixelSize);
    }
  }

  /** One pixel step changes exactly the slot its source pixel lands on. */
  lemma PlacePixelSlot(g: Stream, dest: DestMap, out: seq<byte>, y: nat, row: seq<byte>, x: nat, q: int, j: int)
    requires |out| == FrameSize(g) && |row| == RowSize(g) && x < g.width
    requires 0 <= q < g.width * g.height && 0 <= j < g.pixelSize
    ensures SlotByte(g, PlacePixel(g, dest, out, y, row, x), q, j) ==
            if Covers(g, dest, x, y, q) then SourceByte(g, row, x, j) else SlotByte(g, out, q, j)
  {
    var p := dest(x, y);
    var f := FlatIndex(p, g.width);
    var ps := g.pixelSize;
    var i := q * ps + j;
    var r := PlacePixel(g, dest, out, y, row, x);
    AcceptedIffFlatInFrame(g, p);
    SlotSpan(q, j, g.width * g.height, ps);
    assert SlotByte(g, r, q, j) == r[i];
    assert SlotByte(g, out, q, j) == out[i];
    if Accepted(g, OutputOffset(g, p)) {
      CopyInBounds(g, p, x);
      var off := OutputOffset(g, p);
      var src := SourcePixel(g, row, x);
      assert r == Overwrite(out, off, src);
      if f == q {
        assert off == q * ps;
        assert r[i] == src[j];
      } else {
        SlotsDisjoint(q, f, j, ps);
        assert off == f * ps;
        assert r[i] == out[i];
      }
    } else {
      assert f != q;
    }
  }

  lemma {:induction false} ScatterRowSlot(g: Stream, dest: DestMap, out: seq<byte>, y: nat, row: seq<byte>, n: nat, q: int, j: int)
    requires |out| == FrameSize(g) && |row| == RowSize(g) && n <= g.width
    requires 0 <= q < g.width * g.height && 0 <= j < g.pixelSize
    ensures SlotByte(g, ScatterRow(g, dest, out, y, row, n), q, j) ==
            match LastInRow(g, dest, y, n, q)
            case None => SlotByte(g, out, q, j)
            case Some(x) => SourceByte(g, row, x, j)
  {
    if n > 0 {
      ScatterRowSlot(g, dest, out, y, row, n - 1, q, j);
      PlacePixelSlot(g, dest, ScatterRow(g, dest, out, y, row, n - 1), y, row, n - 1, q, j);
    }
  }

  lemma {:induction false} ScatterRowsSlot(g: Stream, dest: DestMap, out: seq<byte>, rows: seq<seq<byte>>, q: int, j: int)
    requires |out| == FrameSize(g) && RowsOf(g, rows)
    requires 0 <= q < g.width * g.height && 0 <= j < g.pixelSize
    ensures SlotByte(g, ScatterRows(g, dest, out, rows), q, j) ==
            match LastCover(g, dest, |rows|, q)
            case None => SlotByte(g, out, q, j)
            case Some(s) => SourceByte(g, rows[s.y], s.x, j)
  {
    if |rows| > 0 {
      var y := |rows| - 1;
      var init := rows[..y];
      ScatterRowsSlot(g, dest, out, init, q, j);
      ScatterRowSlot(g, dest, ScatterRows(g, dest, out, init), y, rows[y], g.width, q, j);
      forall s: Source | s.y < y
        ensures rows[s.y] == init[s.y]
      {
      }
    }
  }

  /** The scatter fold computes the gather view: every output byte comes from
      the last source pixel landing on its slot, or is zero. */
  lemma ScatterIsGather(g: Stream, dest: DestMap, rows: seq<seq<byte>>)
    requires FrameRows(g, rows)
    ensures TransformFrame(g, dest, rows) == GatherFrame(g, dest, rows)
  {
    var t := TransformFrame(g, dest, rows);
    var u := GatherFrame(g, dest, rows);
    forall q, j | 0 <= q < g.width * g.height && 0 <= j < g.pixelSize
      ensures SlotByte(g, t, q, j) == SlotByte(g, u, q, j)
    {
      TransformSlot(g, dest, rows, q, j);
      GatherFrameSlot(g, dest, rows, q, j);
    }
    SlotwiseEqual(g, t, u);
  }

  /** Slot-wise form of `ScatterIsGather`. */
  lemma TransformSlot(g: Stream, dest: DestMap, rows: seq<seq<byte>>, q: int, j: int)
    requires FrameRows(g, rows)
    requires 0 <= q < g.width * g.height && 0 <= j < g.pixelSize
    ensures SlotByte(g, TransformFrame(g, dest, rows), q, j) == GatherByte(g, dest, rows, q, j)
  {
    var z := Zeroes(FrameSize(g));
    ScatterRowsSlot(g, dest, z, rows, q, j);
    var t := ScatterRows(g, dest, z, rows);
    assert t == TransformFrame(g, dest, rows);
    match LastCover(g, dest, |rows|, q)
    case None =>
      ZeroSlot(g, q, j);
    case Some(s) =>
  }

  lemma ZeroSlot(g: Stream, q: int, j: int)
    requires 0 <= q < g.width * g.height && 0 <= j < g.pixelSize
    ensures SlotByte(g, Zeroes(FrameSize(g)), q, j) == 0
  {
    SlotSpan(q, j, g.width * g.height, g.pixelSize);
    assert FrameSize(g) == (g.width * g.height) * g.pixelSize;
  }

  /** Reading slot `q` of the gather frame gives the gather view of `q`. */
  lemma GatherFrameSlot(g: Stream, dest: DestMap, rows: seq<seq<byte>>, q: int, j: int)
    requires RowsOf(g, rows)
    requires 0 <= q < g.width * g.height && 0 <= j < g.pixelSize
    ensures SlotByte(g, GatherFrame(g, dest, rows), q, j) == GatherByte(g, dest, rows, q, j)
  {
    var ps := g.pixelSize;
    var i := q * ps + j;
    SlotSpan(q, j, g.width * g.height, ps);
    assert FrameSize(g) == (g.width * g.height) * ps;
    ByteSlot(g, i);
    SlotUnique(ps, q, j, i / ps, i % ps);
    assert GatherFrame(g, dest, rows)[i] == GatherAt(g, dest, rows, i);
  }

  lemma SlotUnique(size: int, q: int, j: int, q': int, j': int)
    requires 0 <= j < size && 0 <= j' < size
    requires q * size + j == q' * size + j'
    ensures q == q' && j == j'
  {
    if q != q' {
      SlotsDisjoint(q, q', j, size);
    }
  }
}
