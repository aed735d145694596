/**
 * What `_map_axis` (bridge/mario_bridge.py) promises its caller: the centre
 * maps to zero, the deadzone is exactly the set of readings that give zero,
 * the sign of the reading is kept, the expo curve never increases the
 * magnitude, the whole map is monotone, and with the linear curve the
 * output is continuous (Lipschitz) across the deadzone boundary.
 */
module AxisProperties {
  import opened Conditioning

  // ---------------------------------------------------------------------
  // Arithmetic helpers
  // ---------------------------------------------------------------------

  /** Multiplying by a positive factor preserves order, in both directions. */
  lemma ScaleOrder(a: real, b: real, c: real)
    requires 0.0 < c
    ensures a <= b <==> a * c <= b * c
  {
    if a <= b {
      assert (b - a) * c >= 0.0;
    } else {
      assert (a - b) * c > 0.0;
    }
  }

  /** Dividing by a positive divisor preserves order. */
  lemma DivideOrder(a: real, b: real, d: real)
    requires 0.0 < d
    requires a <= b
    ensures a / d <= b / d
  {
    assert a / d * d == a;
    assert b / d * d == b;
    ScaleOrder(a / d, b / d, d);
  }

  // ---------------------------------------------------------------------
  // Stages
  // ---------------------------------------------------------------------

  /** Normalisation is monotone in the reading. */
  lemma NormalizeMonotone(v1: real, v2: real, bias: real, scale: real)
    requires v1 <= v2
    ensures Normalize(v1, bias, scale) <= Normalize(v2, bias, scale)
  {
    DivideOrder(v1 - bias, v2 - bias, Divisor(scale));
    ClipMonotone((v1 - bias) / Divisor(scale), (v2 - bias) / Divisor(scale), -1.0, 1.0);
  }

  /**
   * The rescaled magnitude times `1 - dz` is the distance of `|x|` past the
   * deadzone: it tends to 0 as `|x|` approaches `dz` from above.
   */
  lemma RescaleMagnitude(x: real, dz: real)
    requires dz < Abs(x) <= 1.0
    ensures Abs(Rescale(x, dz)) * (1.0 - dz) == Abs(x) - dz
  {
    var m := (Abs(x) - dz) / (1.0 - dz);
    assert m * (1.0 - dz) == Abs(x) - dz;
    assert Abs(Rescale(x, dz)) == m;
  }

  /** The rescaled magnitude grows with `|x|`, and the rescale is monotone in `x`. */
  lemma RescaleMonotone(x1: real, x2: real, dz: real)
    requires dz < Abs(x1) <= 1.0
    requires dz < Abs(x2) <= 1.0
    ensures Abs(x1) <= Abs(x2) ==> Abs(Rescale(x1, dz)) <= Abs(Rescale(x2, dz))
    ensures x1 <= x2 ==> Rescale(x1, dz) <= Rescale(x2, dz)
  {
    if Abs(x1) <= Abs(x2) {
      DivideOrder(Abs(x1) - dz, Abs(x2) - dz, 1.0 - dz);
    }
    if Abs(x2) <= Abs(x1) {
      DivideOrder(Abs(x2) - dz, Abs(x1) - dz, 1.0 - dz);
    }
  }

  /** The expo curve is monotone on non-zero values of [-1, 1] when `expo > 0`. */
  lemma ShapeMonotone(y1: real, y2: real, expo: real, pow: PowFn)
    requires PowLaw(pow)
    requires 0.0 < expo
    requires 0.0 < Abs(y1) <= 1.0 && 0.0 < Abs(y2) <= 1.0
    requires y1 <= y2
    ensures Shape(y1, expo, pow) <= Shape(y2, expo, pow)
  {
    if expo != 1.0 {
      if y1 >= 0.0 {
        assert pow(Abs(y1), expo) <= pow(Abs(y2), expo);
      } else if y2 < 0.0 {
        assert pow(Abs(y2), expo) <= pow(Abs(y1), expo);
      } else {
        assert 0.0 < pow(Abs(y1), expo) && 0.0 < pow(Abs(y2), expo);
      }
    }
  }

  /** The expo curve keeps the sign of a non-zero value of [-1, 1] and never lets it reach 0. */
  lemma ShapeSign(y: real, expo: real, pow: PowFn)
    requires PowLaw(pow)
    requires 0.0 < Abs(y) <= 1.0
    ensures Shape(y, expo, pow) > 0.0 <==> y > 0.0
    ensures Shape(y, expo, pow) < 0.0 <==> y < 0.0
  {
    if expo != 1.0 {
      assert 0.0 < pow(Abs(y), expo);
    }
  }

  /** With `expo >= 1` the expo curve does not increase the magnitude, so no clipping happens. */
  lemma ShapeShrinks(y: real, expo: real, pow: PowFn)
    requires PowLaw(pow)
    requires 1.0 <= expo
    requires 0.0 < Abs(y) <= 1.0
    ensures 0.0 < Abs(Shape(y, expo, pow)) <= Abs(y)
  {
    if expo != 1.0 {
      assert 0.0 < pow(Abs(y), expo) <= Abs(y);
    }
  }

  /** Skipping the curve when `expo == 1.0` agrees with `|y| ** 1.0` carrying the sign of `y`. */
  lemma ExpoOneSkipIsExact(y: real, pow: PowFn)
    requires PowLaw(pow)
    ensures Shape(y, 1.0, pow) == WithSignOf(pow(Abs(y), 1.0), y)
  {
    assert pow(Abs(y), 1.0) == Abs(y);
  }

  // ---------------------------------------------------------------------
  // _map_axis as a whole
  // ---------------------------------------------------------------------

  /** A reading equal to the bias gives exactly 0 whenever the deadzone is not negative. */
  lemma MapAxisCentre(bias: real, scale: real, dz: real, expo: real, pow: PowFn)
    requires 0.0 <= dz
    ensures MapAxis(bias, bias, scale, dz, expo, pow) == 0.0
  {
  }

  /**
   * The result is positive exactly when the normalised reading lies above
   * the deadzone and negative exactly when it lies below it; a non-zero
   * result has the sign of `v - bias`.
   */
  lemma MapAxisSign(v: real, bias: real, scale: real, dz: real, expo: real, pow: PowFn)
    requires PowLaw(pow)
    requires 0.0 <= dz
    ensures MapAxis(v, bias, scale, dz, expo, pow) > 0.0 <==> Normalize(v, bias, scale) > dz
    ensures MapAxis(v, bias, scale, dz, expo, pow) < 0.0 <==> Normalize(v, bias, scale) < -dz
    ensures MapAxis(v, bias, scale, dz, expo, pow) > 0.0 ==> v > bias
    ensures MapAxis(v, bias, scale, dz, expo, pow) < 0.0 ==> v < bias
  {
    var x := Normalize(v, bias, scale);
    if Abs(x) > dz {
      ShapeSign(Rescale(x, dz), expo, pow);
    }
  }

  /** The result is 0 exactly when the normalised reading is inside the (inclusive) deadzone. */
  lemma MapAxisZeroIff(v: real, bias: real, scale: real, dz: real, expo: real, pow: PowFn)
    requires PowLaw(pow)
    ensures MapAxis(v, bias, scale, dz, expo, pow) == 0.0 <==> Abs(Normalize(v, bias, scale)) <= dz
  {
    var x := Normalize(v, bias, scale);
    if Abs(x) > dz {
      ShapeSign(Rescale(x, dz), expo, pow);
    }
  }

  /**
   * With `expo >= 1` the result is never larger in magnitude than the
   * linear deadzone output, and the final clip changes nothing.
   */
  lemma MapAxisExpoShrinks(v: real, bias: real, scale: real, dz: real, expo: real, pow: PowFn)
    requires PowLaw(pow)
    requires 1.0 <= expo
    requires Abs(Normalize(v, bias, scale)) > dz
    ensures var y := Rescale(Normalize(v, bias, scale), dz);
      && MapAxis(v, bias, scale, dz, expo, pow) == Shape(y, expo, pow)
      && Abs(MapAxis(v, bias, scale, dz, expo, pow)) <= Abs(y)
  {
    ShapeShrinks(Rescale(Normalize(v, bias, scale), dz), expo, pow);
  }

  /** `_map_axis` is monotone in the reading for every positive expo exponent. */
  lemma MapAxisMonotone(v1: real, v2: real, bias: real, scale: real, dz: real, expo: real, pow: PowFn)
    requires PowLaw(pow)
    requires 0.0 < expo
    requires v1 <= v2
    ensures MapAxis(v1, bias, scale, dz, expo, pow) <= MapAxis(v2, bias, scale, dz, expo, pow)
  {
    var x1, x2 := Normalize(v1, bias, scale), Normalize(v2, bias, scale);
    NormalizeMonotone(v1, v2, bias, scale);
    if Abs(x1) > dz && Abs(x2) > dz {
      var y1, y2 := Rescale(x1, dz), Rescale(x2, dz);
      RescaleMonotone(x1, x2, dz);
      ShapeMonotone(y1, y2, expo, pow);
      ClipMonotone(Shape(y1, expo, pow), Shape(y2, expo, pow), -1.0, 1.0);
    } else if Abs(x2) > dz {
      ShapeSign(Rescale(x2, dz), expo, pow);
    } else if Abs(x1) > dz {
      ShapeSign(Rescale(x1, dz), expo, pow);
    }
  }

  /** The linear deadzone output: 0 inside the deadzone, the rescaled value outside. */
  function Deadband(x: real, dz: real): (y: real)
    requires -1.0 <= x <= 1.0
    ensures -1.0 <= y <= 1.0
  {
    if Abs(x) <= dz then 0.0 else Rescale(x, dz)
  }

  /**
   * `c * d <= bound`, kept behind a name so that the products it involves
   * stay out of the arithmetic of the lemmas that use it.
   */
  predicate ScaledAtMost(d: real, bound: real, c: real) {
    c * d <= bound
  }

  /** The distance of `|x|` past the deadzone, 0 inside it. */
  function Excess(x: real, dz: real): real {
    if Abs(x) > dz then Abs(x) - dz else 0.0
  }

  /**
   * The arithmetic core of the continuity argument: two values whose
   * magnitudes are the excesses of `x1`, `x2` over the deadzone (scaled by
   * `1 - dz`) and whose signs are those of `x1`, `x2` are no further apart
   * than `|x1 - x2| / (1 - dz)`.
   */
  lemma ExcessLipschitz(y1: real, y2: real, x1: real, x2: real, dz: real, c: real)
    requires 0.0 <= dz && 0.0 < c
    requires Abs(y1) * c == Excess(x1, dz)
    requires Abs(y2) * c == Excess(x2, dz)
    requires y1 > 0.0 ==> x1 > 0.0
    requires y1 < 0.0 ==> x1 < 0.0
    requires y2 > 0.0 ==> x2 > 0.0
    requires y2 < 0.0 ==> x2 < 0.0
    ensures ScaledAtMost(Abs(y1 - y2), Abs(x1 - x2), c)
  {
    ScaledDistance(y1, y2, c);
    if y1 < 0.0 < y2 {
      ExcessOpposite(x1, x2, dz);
    } else if y2 < 0.0 < y1 {
      ExcessOpposite(x2, x1, dz);
    } else {
      ExcessGap(x1, x2, dz);
    }
  }

  /** The excess over the deadzone is 1-Lipschitz. */
  lemma ExcessGap(x1: real, x2: real, dz: real)
    requires 0.0 <= dz
    ensures Abs(Excess(x1, dz) - Excess(x2, dz)) <= Abs(x1 - x2)
  {
  }

  /** On opposite sides of 0 the two excesses together do not exceed the distance. */
  lemma ExcessOpposite(x1: real, x2: real, dz: real)
    requires 0.0 <= dz
    requires x1 < 0.0 < x2
    ensures Excess(x1, dz) + Excess(x2, dz) <= Abs(x1 - x2)
  {
  }

  /** The distance of two values scaled by `c > 0`, by the signs of the values. */
  lemma ScaledDistance(y1: real, y2: real, c: real)
    requires 0.0 < c
    ensures !(y1 < 0.0 < y2 || y2 < 0.0 < y1) ==> c * Abs(y1 - y2) == Abs(Abs(y1) * c - Abs(y2) * c)
    ensures y1 < 0.0 < y2 || y2 < 0.0 < y1 ==> c * Abs(y1 - y2) == Abs(y1) * c + Abs(y2) * c
  {
    if y1 < 0.0 < y2 || y2 < 0.0 < y1 {
      assert Abs(y1 - y2) == Abs(y1) + Abs(y2);
      assert c * (Abs(y1) + Abs(y2)) == Abs(y1) * c + Abs(y2) * c;
    } else {
      assert Abs(y1 - y2) == Abs(Abs(y1) - Abs(y2));
      ScaleGap(Abs(y1), Abs(y2), c);
    }
  }

  /** `c * |a - b| == |a * c - b * c|` for `c > 0`. */
  lemma ScaleGap(a: real, b: real, c: real)
    requires 0.0 < c
    ensures c * Abs(a - b) == Abs(a * c - b * c)
  {
    assert a * c - b * c == (a - b) * c;
    ScaleOrder(a, b, c);
  }

  /** The linear deadzone output has magnitude `Excess / (1 - dz)` and the sign of `x`. */
  lemma DeadbandExcess(x: real, dz: real)
    requires -1.0 <= x <= 1.0
    requires 0.0 <= dz < 1.0
    ensures Abs(Deadband(x, dz)) * (1.0 - dz) == Excess(x, dz)
    ensures Deadband(x, dz) > 0.0 ==> x > 0.0
    ensures Deadband(x, dz) < 0.0 ==> x < 0.0
  {
    if Abs(x) > dz {
      RescaleMagnitude(x, dz);
    }
  }

  /** The linear deadzone output is Lipschitz with constant `1 / (1 - dz)`. */
  lemma DeadbandLipschitz(x1: real, x2: real, dz: real)
    requires -1.0 <= x1 <= 1.0 && -1.0 <= x2 <= 1.0
    requires 0.0 <= dz < 1.0
    ensures ScaledAtMost(Abs(Deadband(x1, dz) - Deadband(x2, dz)), Abs(x1 - x2), 1.0 - dz)
  {
    DeadbandExcess(x1, dz);
    DeadbandExcess(x2, dz);
    ExcessLipschitz(Deadband(x1, dz), Deadband(x2, dz), x1, x2, dz, 1.0 - dz);
  }

  /**
   * With the linear curve (`expo == 1.0`) and `0 <= dz < 1`, `_map_axis`
   * is Lipschitz in the normalised reading with constant `1 / (1 - dz)`:
   * the output has no jump at the deadzone boundary, nor anywhere else.
   */
  lemma MapAxisLinearContinuous(v1: real, v2: real, bias: real, scale: real, dz: real, pow: PowFn)
    requires 0.0 <= dz < 1.0
    ensures ScaledAtMost(Abs(MapAxis(v1, bias, scale, dz, 1.0, pow) - MapAxis(v2, bias, scale, dz, 1.0, pow)),
                         Abs(Normalize(v1, bias, scale) - Normalize(v2, bias, scale)), 1.0 - dz)
  {
    var x1, x2 := Normalize(v1, bias, scale), Normalize(v2, bias, scale);
    assert MapAxis(v1, bias, scale, dz, 1.0, pow) == Deadband(x1, dz);
    assert MapAxis(v2, bias, scale, dz, 1.0, pow) == Deadband(x2, dz);
    DeadbandLipschitz(x1, x2, dz);
  }

  /**
   * For every expo exponent of at least 1, `(1 - dz)` times the magnitude of
   * `_map_axis` is at most the distance of the normalised reading past the
   * deadzone. The output therefore tends to 0 as the reading approaches the
   * deadzone edge from outside: no jump at the edge, whatever the curve.
   */
  lemma MapAxisDeadzoneEdge(v: real, bias: real, scale: real, dz: real, expo: real, pow: PowFn)
    requires PowLaw(pow)
    requires 1.0 <= expo
    requires 0.0 <= dz < 1.0
    ensures Abs(MapAxis(v, bias, scale, dz, expo, pow)) * (1.0 - dz) <= Excess(Normalize(v, bias, scale), dz)
  {
    var x := Normalize(v, bias, scale);
    if Abs(x) > dz {
      var y := Rescale(x, dz);
      MapAxisExpoShrinks(v, bias, scale, dz, expo, pow);
      RescaleMagnitude(x, dz);
      ScaleOrder(Abs(MapAxis(v, bias, scale, dz, expo, pow)), Abs(y), 1.0 - dz);
    }
  }
}
