/**
 * Signal conditioning of the LEGO Mario to micro:bit bridge: the pure
 * helpers of `Bridge` in bridge/mario_bridge.py (`_signed`, `_clip`,
 * `_map_axis`) and the exponential smoothing step of `on_mario_notify`.
 *
 * Python floats are modelled as `real`. Python's `**` on floats has no
 * counterpart in Dafny; it is passed in as a function `pow`, and the facts
 * about real exponentiation that the proofs rely on are collected in the
 * predicate `PowLaw`.
 */
module Conditioning {

  /** A byte of a BLE notification. */
  type Byte = b: int | 0 <= b < 256

  /** The EMA coefficient `_alpha`. */
  const Alpha: real := 0.2

  /** The floor `1e-6` on the normalisation divisor. */
  const MinScale: real := 0.000001

  /** A binary real function standing for Python's `a ** e`. */
  type PowFn = (real, real) -> real

  function Abs(x: real): real {
    if x < 0.0 then -x else x
  }

  /** `m * (1 if x >= 0 else -1)`: the magnitude `m` carrying the sign of `x`. */
  function WithSignOf(m: real, x: real): real {
    if x >= 0.0 then m else -m
  }

  /**
   * The properties of real exponentiation `a ** e` on the bases that reach
   * the expo curve (0 < a <= 1): the result is positive, it is at most `a`
   * when `e >= 1`, `a ** 1 == a`, and it grows with `a` when `e > 0`.
   */
  ghost predicate PowLaw(pow: PowFn) {
    && (forall a, e :: 0.0 < a <= 1.0 ==> 0.0 < pow(a, e))
    && (forall a, e :: 0.0 < a <= 1.0 && 1.0 <= e ==> pow(a, e) <= a)
    && (forall a :: pow(a, 1.0) == a)
    && (forall a, b, e :: 0.0 < a <= b <= 1.0 && 0.0 < e ==> pow(a, e) <= pow(b, e))
  }

  /** The identity is one function satisfying PowLaw, so the hypothesis is consistent. */
  lemma PowLawConsistent()
    ensures PowLaw((a: real, e: real) => a)
  {
  }

  // ---------------------------------------------------------------------
  // _signed
  // ---------------------------------------------------------------------

  /** `_signed`: the two's-complement value of a byte. */
  function Signed(b: Byte): (r: int)
    ensures -128 <= r <= 127
    ensures (r - b) % 256 == 0
  {
    if b > 127 then b - 256 else b
  }

  /** The byte that encodes a signed value in [-128, 127]. */
  function Unsigned(r: int): (b: Byte)
    requires -128 <= r <= 127
    ensures (r - b) % 256 == 0
  {
    if r < 0 then r + 256 else r
  }

  /** `Signed` is a bijection from bytes onto [-128, 127] with inverse `Unsigned`. */
  lemma SignedBijection(b: Byte, r: int)
    requires -128 <= r <= 127
    ensures Unsigned(Signed(b)) == b
    ensures Signed(Unsigned(r)) == r
  {
  }

  // ---------------------------------------------------------------------
  // _clip
  // ---------------------------------------------------------------------

  /** `_clip(v, lo, hi)`: `hi` above the range, `lo` below it, `v` inside. */
  function Clip(v: real, lo: real, hi: real): (r: real)
    ensures lo <= hi ==> lo <= r <= hi
    ensures lo <= v <= hi ==> r == v
  {
    if v > hi then hi else if v < lo then lo else v
  }

  /** Clipping to a non-empty range gives the point of the range nearest to `v`. */
  lemma ClipNearest(v: real, lo: real, hi: real, w: real)
    requires lo <= w <= hi
    ensures Abs(Clip(v, lo, hi) - v) <= Abs(w - v)
  {
  }

  /** Clipping is monotone and idempotent. */
  lemma ClipMonotone(v1: real, v2: real, lo: real, hi: real)
    requires lo <= hi
    requires v1 <= v2
    ensures Clip(v1, lo, hi) <= Clip(v2, lo, hi)
    ensures Clip(Clip(v1, lo, hi), lo, hi) == Clip(v1, lo, hi)
  {
  }

  // ---------------------------------------------------------------------
  // _map_axis, stage by stage
  // ---------------------------------------------------------------------

  /** `max(1e-6, scale)`: never zero, whatever `scale` is. */
  function Divisor(scale: real): (d: real)
    ensures d > 0.0
    ensures d >= MinScale && d >= scale
    ensures d == MinScale || d == scale
  {
    if scale > MinScale then scale else MinScale
  }

  /** The normalised reading `_clip((v - bias) / max(1e-6, scale))`. */
  function Normalize(v: real, bias: real, scale: real): (x: real)
    ensures -1.0 <= x <= 1.0
    ensures x > 0.0 <==> v > bias
    ensures x < 0.0 <==> v < bias
  {
    Clip((v - bias) / Divisor(scale), -1.0, 1.0)
  }

  /**
   * The deadzone rescale `(|x| - dz) / (1 - dz)` with the sign of `x`; only
   * reached when `|x| > dz`.
   */
  function Rescale(x: real, dz: real): (y: real)
    requires dz < Abs(x) <= 1.0
    ensures 0.0 < Abs(y) <= 1.0
    ensures y >= 0.0 <==> x >= 0.0
  {
    QuotientInUnit(Abs(x) - dz, 1.0 - dz);
    WithSignOf((Abs(x) - dz) / (1.0 - dz), x)
  }

  /** A positive quotient whose numerator does not exceed its denominator lies in (0, 1]. */
  lemma QuotientInUnit(n: real, d: real)
    requires 0.0 < n <= d
    ensures 0.0 < n / d <= 1.0
  {
    assert n / d * d == n;
  }

  /** The expo curve `|y| ** expo` with the sign of `y`, skipped when `expo == 1.0`. */
  function Shape(y: real, expo: real, pow: PowFn): (r: real)
    ensures expo == 1.0 ==> r == y
    ensures expo != 1.0 ==> Abs(r) == Abs(pow(Abs(y), expo))
    ensures expo != 1.0 && 0.0 < pow(Abs(y), expo) ==> (r > 0.0 <==> y >= 0.0)
  {
    if expo != 1.0 then WithSignOf(pow(Abs(y), expo), y) else y
  }

  /** `_map_axis(v, bias, scale, dz, expo)`. */
  function MapAxis(v: real, bias: real, scale: real, dz: real, expo: real, pow: PowFn): (r: real)
    ensures -1.0 <= r <= 1.0
  {
    var x := Normalize(v, bias, scale);
    if Abs(x) <= dz then 0.0
    else Clip(Shape(Rescale(x, dz), expo, pow), -1.0, 1.0)
  }

  // ---------------------------------------------------------------------
  // EMA smoothing (on_mario_notify)
  // ---------------------------------------------------------------------

  /** One EMA step `(1 - a) * ema + a * raw` with `a = _alpha`. */
  function Smooth(ema: real, raw: real): (r: real)
    ensures r - raw == (1.0 - Alpha) * (ema - raw)
    ensures ema <= raw ==> ema <= r <= raw
    ensures raw <= ema ==> raw <= r <= ema
  {
    (1.0 - Alpha) * ema + Alpha * raw
  }

  /** The range of a signed tilt byte. */
  predicate InTiltRange(e: real) {
    -128.0 <= e <= 127.0
  }

  /** Smoothing a reading in the tilt range keeps an EMA in the tilt range. */
  lemma SmoothInTiltRange(ema: real, raw: int)
    requires InTiltRange(ema)
    requires -128 <= raw <= 127
    ensures InTiltRange(Smooth(ema, raw as real))
  {
  }
}
