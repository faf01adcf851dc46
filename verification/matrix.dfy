/** The matrix stream: a 3x3 "xyza" frame used as a container for the six
    affine coefficients. Coefficient k is channel 0 of pixel k in row-major
    order; the bottom row and channels 1..3 are padding. */
module Matrix {

  const MatrixWidth: nat := 3
  const MatrixHeight: nat := 3
  const MatrixChannels: nat := 4
  const MatrixFormat: string := "xyza"
  const CoefficientCount: nat := 6

  /** Number of (double) elements in one matrix frame. */
  const MatrixElements: nat := MatrixWidth * MatrixHeight * MatrixChannels

  /** One matrix frame, element by element; the doubles are modelled as reals. */
  type MatrixFrame = seq<real>

  ghost predicate MatrixFrames(frames: seq<MatrixFrame>)
  {
    forall n :: 0 <= n < |frames| ==> |frames[n]| == MatrixElements
  }

  /** The affine map `x_out = a*x + b*y + c`, `y_out = d*x + e*y + f`. */
  datatype Coeffs = Coeffs(a: real, b: real, c: real, d: real, e: real, f: real)

  /** Coefficient number `k`, in the order a, b, c, d, e, f. */
  function Coefficient(c: Coeffs, k: nat): real
    requires k < CoefficientCount
  {
    match k
    case 0 => c.a
    case 1 => c.b
    case 2 => c.c
    case 3 => c.d
    case 4 => c.e
    case 5 => c.f
  }

  /** Element index of channel `ch` of pixel `(px, py)` in a matrix frame. */
  function MatrixIndex(px: nat, py: nat, ch: nat): nat
    requires px < MatrixWidth && py < MatrixHeight && ch < MatrixChannels
  {
    (py * MatrixWidth + px) * MatrixChannels + ch
  }

  /** Where coefficient `k` is stored: channel 0 of pixel `k` in row-major
      order, which is one of the first two rows. */
  function CoefficientIndex(k: nat): (i: nat)
    requires k < CoefficientCount
    ensures i < MatrixElements
    ensures k / MatrixWidth < MatrixHeight - 1
    ensures i == MatrixIndex(k % MatrixWidth, k / MatrixWidth, 0)
  {
    4 * k
  }

  /** Reads the six coefficients out of a matrix frame. */
  function Decode(m: MatrixFrame): (c: Coeffs)
    requires |m| == MatrixElements
    ensures forall k :: 0 <= k < CoefficientCount ==> Coefficient(c, k) == m[CoefficientIndex(k)]
  {
    Coeffs(m[0], m[4], m[8], m[12], m[16], m[20])
  }

  /** Writes six coefficients into a matrix frame with zero padding, the
      layout a producer of the matrix stream uses. */
  function Encode(c: Coeffs): (m: MatrixFrame)
    ensures |m| == MatrixElements
  {
    seq(MatrixElements, i requires 0 <= i < MatrixElements =>
      if i % MatrixChannels == 0 && i / MatrixChannels < CoefficientCount
      then Coefficient(c, i / MatrixChannels) else 0.0)
  }

  /** Decoding an encoded frame gives back the coefficients. */
  lemma DecodeEncode(c: Coeffs)
    ensures Decode(Encode(c)) == c
  {
    var m := Encode(c);
    assert m[0] == c.a && m[4] == c.b && m[8] == c.c;
    assert m[12] == c.d && m[16] == c.e && m[20] == c.f;
  }

  /** Decoding reads nothing but the six coefficient slots: frames that agree
      there decode alike, whatever their padding holds. */
  lemma DecodeIgnoresPadding(m: MatrixFrame, m': MatrixFrame)
    requires |m| == MatrixElements && |m'| == MatrixElements
    requires forall k :: 0 <= k < CoefficientCount ==> m[CoefficientIndex(k)] == m'[CoefficientIndex(k)]
    ensures Decode(m) == Decode(m')
  {
    assert m[CoefficientIndex(0)] == m'[CoefficientIndex(0)];
    assert m[CoefficientIndex(1)] == m'[CoefficientIndex(1)];
    assert m[CoefficientIndex(2)] == m'[CoefficientIndex(2)];
    assert m[CoefficientIndex(3)] == m'[CoefficientIndex(3)];
    assert m[CoefficientIndex(4)] == m'[CoefficientIndex(4)];
    assert m[CoefficientIndex(5)] == m'[CoefficientIndex(5)];
  }
}
