/** The destination of each source pixel under the current coefficients,
    computed about the frame centre and rounded to the nearest pixel. Real
    arithmetic stands in for the source's doubles. */
module Affine {
  import opened Scatter
  import opened Matrix

  /** `n` is the integer nearest to `e`, a tie going away from zero. */
  predicate NearestTo(n: int, e: real)
  {
    && e - 0.5 <= n as real <= e + 0.5
    && (n as real == e + 0.5 ==> e > 0.0)
    && (n as real == e - 0.5 ==> e < 0.0)
  }

  /** At most one integer is nearest to `e`, so `NearestTo` pins a result down. */
  lemma NearestUnique(n: int, m: int, e: real)
    requires NearestTo(n, e) && NearestTo(m, e)
    ensures n == m
  {
  }

  /** Round to nearest, ties away from zero (C `round`). */
  function Round(r: real): (n: int)
    ensures NearestTo(n, r)
  {
    if r >= 0.0 then (r + 0.5).Floor else -((-r + 0.5).Floor)
  }

  /** The exact column that source pixel `(xi, yi)` of a `width` by `height`
      frame maps to, before rounding: the affine map applied with the origin
      at the frame centre, then moved back. */
  function ExactX(c: Coeffs, width: nat, height: nat, xi: nat, yi: nat): real
  {
    var xc := width as real / 2.0;
    var yc := height as real / 2.0;
    c.a * (xi as real - xc) + c.b * (yi as real - yc) + c.c + xc
  }

  /** The exact row, as `ExactX`. */
  function ExactY(c: Coeffs, width: nat, height: nat, xi: nat, yi: nat): real
  {
    var xc := width as real / 2.0;
    var yc := height as real / 2.0;
    c.d * (xi as real - xc) + c.e * (yi as real - yc) + c.f + yc
  }

  /** Where source pixel `(xi, yi)` of a `width` by `height` frame goes:
      each coordinate is the integer nearest to its exact image. */
  function AffineDest(c: Coeffs, width: nat, height: nat): (dest: DestMap)
    ensures forall xi: nat, yi: nat ::
              && NearestTo(dest(xi, yi).x, ExactX(c, width, height, xi, yi))
              && NearestTo(dest(xi, yi).y, ExactY(c, width, height, xi, yi))
  {
    (xi: nat, yi: nat) =>
      Point(Round(ExactX(c, width, height, xi, yi)), Round(ExactY(c, width, height, xi, yi)))
  }

  const Identity: Coeffs := Coeffs(1.0, 0.0, 0.0, 0.0, 1.0, 0.0)

  /** A pure translation by whole pixels. */
  function Translation(tx: int, ty: int): Coeffs
  {
    Coeffs(1.0, 0.0, tx as real, 0.0, 1.0, ty as real)
  }

  lemma RoundWhole(k: int)
    ensures Round(k as real) == k
  {
  }

  /** The identity matrix sends every pixel to itself. */
  lemma IdentityDest(width: nat, height: nat, x: nat, y: nat)
    ensures AffineDest(Identity, width, height)(x, y) == Point(x, y)
  {
    RoundWhole(x);
    RoundWhole(y);
  }

  lemma IdentityDestEverywhere(width: nat, height: nat)
    ensures forall x: nat, y: nat :: AffineDest(Identity, width, height)(x, y) == Point(x, y)
  {
    forall x: nat, y: nat
      ensures AffineDest(Identity, width, height)(x, y) == Point(x, y)
    {
      IdentityDest(width, height, x, y);
    }
  }

  /** A whole-pixel translation moves every pixel by `(tx, ty)`, with no
      clamping: the result may fall outside the frame. */
  lemma TranslationDest(tx: int, ty: int, width: nat, height: nat, x: nat, y: nat)
    ensures AffineDest(Translation(tx, ty), width, height)(x, y) == Point(x + tx, y + ty)
  {
    RoundWhole(x + tx);
    RoundWhole(y + ty);
  }
}
