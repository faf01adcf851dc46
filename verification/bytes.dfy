/** Byte buffers: the zero fill (`memset`) and the pixel copy (`memcpy`) of
    the transform, on immutable sequences. */
module Bytes {

  type byte = b: int | 0 <= b < 256

  /** A buffer of `n` zero bytes. */
  function Zeroes(n: nat): (r: seq<byte>)
    ensures |r| == n
    ensures forall i :: 0 <= i < n ==> r[i] == 0
  {
    seq(n, _ => 0)
  }

  /** `buf` with `src` copied over it starting at byte `off`. */
  function Overwrite(buf: seq<byte>, off: int, src: seq<byte>): (r: seq<byte>)
    requires 0 <= off && off + |src| <= |buf|
    ensures |r| == |buf|
    ensures forall i :: off <= i < off + |src| ==> r[i] == src[i - off]
    ensures forall i :: 0 <= i < |buf| && !(off <= i < off + |src|) ==> r[i] == buf[i]
  {
    buf[..off] + src + buf[off + |src|..]
  }

  /** A buffer that holds `src` at `off` and agrees with `buf` elsewhere is
      `Overwrite(buf, off, src)`. */
  lemma OverwriteExtensional(buf: seq<byte>, after: seq<byte>, off: int, src: seq<byte>)
    requires 0 <= off && off + |src| <= |buf| && |after| == |buf|
    requires forall j :: 0 <= j < |src| ==> after[off + j] == src[j]
    requires forall i :: 0 <= i < |buf| && !(off <= i < off + |src|) ==> after[i] == buf[i]
    ensures after == Overwrite(buf, off, src)
  {
    var r := Overwrite(buf, off, src);
    forall i | 0 <= i < |buf|
      ensures after[i] == r[i]
    {
      if off <= i < off + |src| {
        assert after[off + (i - off)] == src[i - off];
      }
    }
  }

  /** The rows of a frame laid end to end. */
  function Flatten(rows: seq<seq<byte>>): seq<byte>
  {
    if |rows| == 0 then [] else Flatten(rows[..|rows| - 1]) + rows[|rows| - 1]
  }

  /** When every row has `size` bytes, byte `o` of row `y` is byte
      `y * size + o` of the flattened frame. */
  lemma {:induction false} FlattenIndex(rows: seq<seq<byte>>, size: nat, y: nat, o: nat)
    requires forall k :: 0 <= k < |rows| ==> |rows[k]| == size
    requires y < |rows| && o < size
    ensures |Flatten(rows)| == |rows| * size
    ensures y * size + o < |Flatten(rows)|
    ensures Flatten(rows)[y * size + o] == rows[y][o]
  {
    var n := |rows| - 1;
    var init := rows[..n];
    FlattenLength(init, size);
    assert |Flatten(rows)| == n * size + size;
    if y < n {
      FlattenIndex(init, size, y, o);
    } else {
      assert y * size + o == n * size + o;
    }
  }

  lemma {:induction false} FlattenLength(rows: seq<seq<byte>>, size: nat)
    requires forall k :: 0 <= k < |rows| ==> |rows[k]| == size
    ensures |Flatten(rows)| == |rows| * size
  {
    if |rows| > 0 {
      FlattenLength(rows[..|rows| - 1], size);
    }
  }
}
