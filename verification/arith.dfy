/** Small facts about multiplication by a (non-negative) pixel size, used to
    keep byte offsets inside rows and frames. */
module Arith {

  function Min(a: int, b: int): (r: int)
    ensures r <= a && r <= b
    ensures r == a || r == b
  {
    if a <= b then a else b
  }

  lemma MulLeMono(a: int, b: int, c: int)
    requires a <= b && 0 <= c
    ensures a * c <= b * c
  {
    assert (b - a) * c >= 0;
  }

  /** Cancelling a positive factor from a strict inequality. */
  lemma MulLtCancel(a: int, b: int, c: int)
    requires 0 < c && a * c < b * c
    ensures a < b
  {
    if a >= b {
      MulLeMono(b, a, c);
    }
  }

  /** Byte `j` of slot `q` lies inside the slot's span and before the span of
      slot `q + 1`. */
  lemma SlotSpan(q: int, j: int, n: int, size: int)
    requires 0 <= q < n && 0 <= j < size
    ensures 0 <= q * size + j < n * size
    ensures q * size + size <= n * size
  {
    MulLeMono(q + 1, n, size);
    MulLeMono(0, q, size);
  }

  /** Spans of two different slots do not overlap. */
  lemma SlotsDisjoint(q: int, p: int, j: int, size: int)
    requires q != p && 0 <= j < size
    ensures q * size + j < p * size || p * size + size <= q * size + j
  {
    if q < p {
      MulLeMono(q + 1, p, size);
    } else {
      MulLeMono(p + 1, q, size);
    }
  }

  /** An offset `f * size` lies in `[0, n * size)` exactly when the slot `f`
      lies in `[0, n)`, provided `size` is positive. */
  lemma ScaledRange(f: int, n: int, size: int)
    requires 0 < size
    ensures (0 <= f * size < n * size) <==> (0 <= f < n)
  {
    if 0 <= f * size < n * size {
      MulLtCancel(f, n, size);
      if f < 0 {
        MulLeMono(f, -1, size);
      }
    }
    if 0 <= f < n {
      MulLeMono(0, f, size);
      MulLeMono(f + 1, n, size);
    }
  }

  /** Row-major coordinates are unique: two pixels of a row of width `w` with
      the same flat index are the same pixel. */
  lemma RowMajorUnique(w: int, x: int, y: int, x': int, y': int)
    requires 0 <= x < w && 0 <= x' < w
    requires y * w + x == y' * w + x'
    ensures x == x' && y == y'
  {
    if y < y' {
      MulLeMono(y + 1, y', w);
    } else if y' < y {
      MulLeMono(y' + 1, y, w);
    }
  }

  /** A flat index inside a `w` by `h` frame splits into a column and a row. */
  lemma RowMajorSplit(w: nat, h: nat, q: int)
    requires 0 <= q < w * h
    ensures 0 < w
    ensures q == q / w * w + q % w
    ensures 0 <= q % w < w && 0 <= q / w < h
  {
    if q / w >= h {
      MulLeMono(h, q / w, w);
    }
  }

  /** The byte offset of pixel `(x, y)` is its row start plus its column
      start. */
  lemma RowMajorOffset(w: int, size: int, x: int, y: int, j: int)
    ensures (y * w + x) * size + j == y * (w * size) + (x * size + j)
  {
    assert (y * w + x) * size == (y * w) * size + x * size;
    assert (y * w) * size == y * (w * size);
  }

  lemma MulSucc(n: int, h: int)
    ensures n * h == (n - 1) * h + h
  {
  }
}
