/**
 * The state of `Bridge` in bridge/mario_bridge.py that the signal path
 * updates: the two EMA values, the two biases and the last computed
 * throttle and steer, together with the mapping configuration fixed at
 * construction. `OnNotify` is `on_mario_notify`, `Calibrate` the zero-bias
 * part of `connect_mario`, `FrameLine` the line built by `_sender_loop`.
 */
module MarioBridge {
  import opened Wrappers
  import opened Conditioning
  import opened Imu
  import opened Calibration
  import opened WireLine

  /** `for _ in range(6)`: the number of EMA polls during calibration. */
  const CalibrationPolls: nat := 6

  /** The two tilt axes the bridge uses: x drives steering, z drives throttle. */
  datatype Axis = X | Z

  function Reading(t: Tilt, axis: Axis): int {
    match axis
    case X => t.x
    case Z => t.z
  }

  /** `v = -v` when the axis is inverted. */
  function Orient(invert: bool, v: real): (r: real)
    ensures Abs(r) == Abs(v)
    ensures invert ==> r == -v
    ensures !invert ==> r == v
  {
    if invert then -v else v
  }

  /** Some notification among `packets` is an IMU packet, looking from the last one back. */
  predicate AnyAccepted(packets: seq<seq<Byte>>)
    decreases |packets|
  {
    packets != [] && (IsImuPacket(packets[|packets| - 1]) || AnyAccepted(packets[..|packets| - 1]))
  }

  /** `AnyAccepted` holds exactly when some position of the run holds an IMU packet. */
  lemma {:induction false} AnyAcceptedExists(packets: seq<seq<Byte>>)
    ensures AnyAccepted(packets) <==> exists k :: 0 <= k < |packets| && IsImuPacket(packets[k])
    decreases |packets|
  {
    if packets != [] {
      var n := |packets|;
      var prefix := packets[..n - 1];
      AnyAcceptedExists(prefix);
      if AnyAccepted(prefix) {
        var k :| 0 <= k < |prefix| && IsImuPacket(prefix[k]);
        assert packets[k] == prefix[k];
      }
      if exists k :: 0 <= k < n && IsImuPacket(packets[k]) {
        var k :| 0 <= k < n && IsImuPacket(packets[k]);
        if k < n - 1 {
          assert prefix[k] == packets[k];
        }
      }
    }
  }

  /** A run of notifications holds an IMU packet iff one of its two parts does. */
  lemma {:induction false} AnyAcceptedAppend(a: seq<seq<Byte>>, b: seq<seq<Byte>>)
    ensures AnyAccepted(a + b) <==> AnyAccepted(a) || AnyAccepted(b)
    decreases |b|
  {
    if b == [] {
      assert a + b == a;
    } else {
      var b' := b[..|b| - 1];
      assert (a + b)[..|a + b| - 1] == a + b';
      AnyAcceptedAppend(a, b');
    }
  }

  /**
   * The EMA of one axis after `packets` have been delivered, starting from
   * `ema`: it never leaves the range of a signed tilt byte, and a run
   * without an IMU packet leaves it as it was.
   */
  function EmaAfter(ema: real, packets: seq<seq<Byte>>, axis: Axis): (r: real)
    ensures InTiltRange(ema) ==> InTiltRange(r)
    ensures !AnyAccepted(packets) ==> r == ema
    decreases |packets|
  {
    if packets == [] then ema
    else
      var prior := EmaAfter(ema, packets[..|packets| - 1], axis);
      match DecodeTilt(packets[|packets| - 1])
      case None => prior
      case Some(t) => Smooth(prior, Reading(t, axis) as real)
  }

  /** Delivering one more packet is one more smoothing step, or nothing if it is rejected. */
  lemma EmaAfterSnoc(ema: real, packets: seq<seq<Byte>>, p: seq<Byte>, axis: Axis)
    ensures EmaAfter(ema, packets + [p], axis)
            == match DecodeTilt(p)
               case None => EmaAfter(ema, packets, axis)
               case Some(t) => Smooth(EmaAfter(ema, packets, axis), Reading(t, axis) as real)
  {
    assert (packets + [p])[..|packets|] == packets;
  }

  /** Delivering `a` and then `b` is delivering `a + b`. */
  lemma {:induction false} EmaAfterAppend(ema: real, a: seq<seq<Byte>>, b: seq<seq<Byte>>, axis: Axis)
    ensures EmaAfter(ema, a + b, axis) == EmaAfter(EmaAfter(ema, a, axis), b, axis)
    decreases |b|
  {
    if b == [] {
      assert a + b == a;
    } else {
      var b' := b[..|b| - 1];
      assert (a + b)[..|a + b| - 1] == a + b';
      EmaAfterAppend(ema, a, b', axis);
    }
  }

  /** `(1 - alpha) ** n`. */
  function Decay(n: nat): (d: real)
    ensures 0.0 < d <= 1.0
  {
    if n == 0 then 1.0 else (1.0 - Alpha) * Decay(n - 1)
  }

  /** A packet that is accepted and reads `c` on `axis`. */
  predicate ReadsSteady(p: seq<Byte>, axis: Axis, c: int) {
    DecodeTilt(p).Some? && Reading(DecodeTilt(p).value, axis) == c
  }

  /** `x` is `(1 - alpha) ** n` times as far from `c` as `ema` is. */
  predicate Contracted(x: real, ema: real, c: real, n: nat) {
    x - c == Decay(n) * (ema - c)
  }

  /** One smoothing step towards `c` multiplies the distance to `c` by `1 - alpha`. */
  lemma DecayStep(prior: real, ema: real, c: real, n: nat)
    requires Contracted(prior, ema, c, n)
    ensures Contracted(Smooth(prior, c), ema, c, n + 1)
  {
    var d, e := Decay(n), ema - c;
    assert (1.0 - Alpha) * (d * e) == ((1.0 - Alpha) * d) * e;
  }

  /**
   * Under a steady reading `c` the EMA approaches `c` geometrically: after
   * `n` accepted packets its distance to `c` is `(1 - alpha) ** n` times the
   * initial distance.
   */
  lemma {:induction false} EmaAfterSteady(ema: real, packets: seq<seq<Byte>>, axis: Axis, c: int)
    requires forall p :: p in packets ==> ReadsSteady(p, axis, c)
    ensures Contracted(EmaAfter(ema, packets, axis), ema, c as real, |packets|)
  {
    if packets == [] {
      assert Decay(0) == 1.0;
    } else {
      var prefix := packets[..|packets| - 1];
      assert forall p :: p in prefix ==> p in packets;
      EmaAfterSteady(ema, prefix, axis, c);
      assert ReadsSteady(packets[|packets| - 1], axis, c);
      DecayStep(EmaAfter(ema, prefix, axis), ema, c as real, |prefix|);
    }
  }

  /** The packets of a sequence of bursts, in arrival order. */
  function Flatten(bursts: seq<seq<seq<Byte>>>): seq<seq<Byte>>
    decreases |bursts|
  {
    if bursts == [] then [] else Flatten(bursts[..|bursts| - 1]) + bursts[|bursts| - 1]
  }

  /** The EMA values polled after each of the first `n` bursts. */
  function Samples(ema: real, bursts: seq<seq<seq<Byte>>>, axis: Axis, n: nat): (s: seq<real>)
    requires n <= |bursts|
    ensures |s| == n
  {
    if n == 0 then [] else Samples(ema, bursts, axis, n - 1) + [EmaAfter(ema, Flatten(bursts[..n]), axis)]
  }

  /** The `k`-th sample is the EMA after the first `k + 1` bursts. */
  lemma {:induction false} SamplesAt(ema: real, bursts: seq<seq<seq<Byte>>>, axis: Axis, n: nat, k: nat)
    requires k < n <= |bursts|
    ensures Samples(ema, bursts, axis, n)[k] == EmaAfter(ema, Flatten(bursts[..k + 1]), axis)
  {
    if k < n - 1 {
      SamplesAt(ema, bursts, axis, n - 1, k);
    }
  }

  class Bridge {
    // EMA state and bias
    var emaX: real
    var emaZ: real
    var biasX: real
    var biasZ: real

    // mapping feel, fixed at construction
    const xScale: real
    const zScale: real
    const deadzone: real
    const expo: real
    const invertX: bool
    const invertZ: bool
    /** The `**` the expo curve uses. */
    const pow: PowFn

    // last computed analogs
    var throttle: real
    var steer: real

    /**
     * The invariant of the signal path: EMA values and biases stay in the
     * range of a signed tilt byte, the analogs in [-1, 1].
     */
    ghost predicate Valid()
      reads this
    {
      && InTiltRange(emaX) && InTiltRange(emaZ)
      && InTiltRange(biasX) && InTiltRange(biasZ)
      && -1.0 <= steer <= 1.0 && -1.0 <= throttle <= 1.0
    }

    /** The steering command for an x EMA value under the x bias `bias`. */
    function SteerFor(ema: real, bias: real): (r: real)
      ensures -1.0 <= r <= 1.0
      ensures !invertX ==> r == MapAxis(ema, bias, xScale, deadzone, expo, pow)
      ensures invertX ==> r == -MapAxis(ema, bias, xScale, deadzone, expo, pow)
    {
      Orient(invertX, MapAxis(ema, bias, xScale, deadzone, expo, pow))
    }

    /** The throttle command for a z EMA value under the z bias `bias`: forward is negative z tilt. */
    function ThrottleFor(ema: real, bias: real): (r: real)
      ensures -1.0 <= r <= 1.0
      ensures !invertZ ==> r == -MapAxis(ema, bias, zScale, deadzone, expo, pow)
      ensures invertZ ==> r == MapAxis(ema, bias, zScale, deadzone, expo, pow)
    {
      Orient(invertZ, -MapAxis(ema, bias, zScale, deadzone, expo, pow))
    }

    constructor (xScale: real, zScale: real, deadzone: real, expo: real,
                 invertX: bool, invertZ: bool, pow: PowFn)
      ensures Valid()
      ensures emaX == 0.0 && emaZ == 0.0 && biasX == 0.0 && biasZ == 0.0
      ensures throttle == 0.0 && steer == 0.0
      ensures this.xScale == xScale && this.zScale == zScale
      ensures this.deadzone == deadzone && this.expo == expo
      ensures this.invertX == invertX && this.invertZ == invertZ && this.pow == pow
    {
      this.emaX, this.emaZ := 0.0, 0.0;
      this.biasX, this.biasZ := 0.0, 0.0;
      this.xScale, this.zScale := xScale, zScale;
      this.deadzone, this.expo := deadzone, expo;
      this.invertX, this.invertZ := invertX, invertZ;
      this.pow := pow;
      this.throttle, this.steer := 0.0, 0.0;
    }

    /**
     * `on_mario_notify`: a notification that is not an IMU packet changes
     * nothing; an IMU packet advances both EMAs by one step with its x and
     * z tilt and recomputes steer and throttle from the new EMAs.
     */
    method OnNotify(data: seq<Byte>)
      requires Valid()
      modifies this`emaX, this`emaZ, this`steer, this`throttle
      ensures Valid()
      ensures !IsImuPacket(data) ==>
        emaX == old(emaX) && emaZ == old(emaZ) && steer == old(steer) && throttle == old(throttle)
      ensures IsImuPacket(data) ==>
        && emaX == Smooth(old(emaX), Signed(data[TiltXOffset]) as real)
        && emaZ == Smooth(old(emaZ), Signed(data[TiltZOffset]) as real)
        && steer == SteerFor(emaX, biasX)
        && throttle == ThrottleFor(emaZ, biasZ)
    {
      match DecodeTilt(data)
      case None =>
        return;
      case Some(t) =>
        var a := Alpha;
        emaX := (1.0 - a) * emaX + a * (t.x as real);
        emaZ := (1.0 - a) * emaZ + a * (t.z as real);
        SmoothInTiltRange(old(emaX), t.x);
        SmoothInTiltRange(old(emaZ), t.z);

        var s := MapAxis(emaX, biasX, xScale, deadzone, expo, pow);
        var thr := MapAxis(emaZ, biasZ, zScale, deadzone, expo, pow);
        thr := -thr;
        if invertX {
          s := -s;
        }
        if invertZ {
          thr := -thr;
        }
        steer := s;
        throttle := thr;
    }

    /**
     * The notifications that arrive while `connect_mario` sleeps for 0.1 s
     * between two polls, delivered one by one to `OnNotify`.
     */
    method Deliver(burst: seq<seq<Byte>>)
      requires Valid()
      modifies this`emaX, this`emaZ, this`steer, this`throttle
      ensures Valid()
      ensures emaX == EmaAfter(old(emaX), burst, X)
      ensures emaZ == EmaAfter(old(emaZ), burst, Z)
      ensures AnyAccepted(burst) ==> steer == SteerFor(emaX, biasX) && throttle == ThrottleFor(emaZ, biasZ)
      ensures !AnyAccepted(burst) ==> steer == old(steer) && throttle == old(throttle)
    {
      for j := 0 to |burst|
        invariant Valid()
        invariant emaX == EmaAfter(old(emaX), burst[..j], X)
        invariant emaZ == EmaAfter(old(emaZ), burst[..j], Z)
        invariant AnyAccepted(burst[..j]) ==> steer == SteerFor(emaX, biasX) && throttle == ThrottleFor(emaZ, biasZ)
        invariant !AnyAccepted(burst[..j]) ==> steer == old(steer) && throttle == old(throttle)
      {
        EmaAfterSnoc(old(emaX), burst[..j], burst[j], X);
        EmaAfterSnoc(old(emaZ), burst[..j], burst[j], Z);
        assert burst[..j + 1] == burst[..j] + [burst[j]];
        OnNotify(burst[j]);
      }
      assert burst[..|burst|] == burst;
    }

    /**
     * One poll of the calibration loop: the notifications of one sleep are
     * delivered, then both EMAs are read. `before` are the notifications
     * delivered since the EMAs were `e0x` and `e0z` and the analogs `s0`
     * and `t0`.
     */
    method Poll(burst: seq<seq<Byte>>, ghost before: seq<seq<Byte>>,
                ghost e0x: real, ghost e0z: real, ghost s0: real, ghost t0: real)
      returns (x: real, z: real)
      requires Valid()
      requires emaX == EmaAfter(e0x, before, X) && emaZ == EmaAfter(e0z, before, Z)
      requires AnyAccepted(before) ==> steer == SteerFor(emaX, biasX) && throttle == ThrottleFor(emaZ, biasZ)
      requires !AnyAccepted(before) ==> steer == s0 && throttle == t0
      modifies this`emaX, this`emaZ, this`steer, this`throttle
      ensures Valid()
      ensures x == emaX && z == emaZ
      ensures emaX == EmaAfter(e0x, before + burst, X) && emaZ == EmaAfter(e0z, before + burst, Z)
      ensures AnyAccepted(before + burst) ==> steer == SteerFor(emaX, biasX) && throttle == ThrottleFor(emaZ, biasZ)
      ensures !AnyAccepted(before + burst) ==> steer == s0 && throttle == t0
    {
      EmaAfterAppend(e0x, before, burst, X);
      EmaAfterAppend(e0z, before, burst, Z);
      AnyAcceptedAppend(before, burst);
      Deliver(burst);
      x, z := emaX, emaZ;
    }

    /**
     * The polling loop of the zero-bias calibration in `connect_mario`: six
     * times, the packets that arrive during one 0.1 s sleep are delivered,
     * then both EMAs are polled. The biases are not touched.
     */
    method Sample(bursts: seq<seq<seq<Byte>>>) returns (xs: seq<real>, zs: seq<real>)
      requires Valid()
      requires |bursts| == CalibrationPolls
      modifies this`emaX, this`emaZ, this`steer, this`throttle
      ensures Valid()
      ensures |xs| == CalibrationPolls && |zs| == CalibrationPolls
      ensures xs == Samples(old(emaX), bursts, X, CalibrationPolls)
      ensures zs == Samples(old(emaZ), bursts, Z, CalibrationPolls)
      ensures emaX == EmaAfter(old(emaX), Flatten(bursts), X)
      ensures emaZ == EmaAfter(old(emaZ), Flatten(bursts), Z)
      ensures AnyAccepted(Flatten(bursts)) ==>
        steer == SteerFor(emaX, biasX) && throttle == ThrottleFor(emaZ, biasZ)
      ensures !AnyAccepted(Flatten(bursts)) ==> steer == old(steer) && throttle == old(throttle)
    {
      xs, zs := [], [];
      for i := 0 to CalibrationPolls
        invariant Valid()
        invariant |xs| == i && |zs| == i
        invariant xs == Samples(old(emaX), bursts, X, i)
        invariant zs == Samples(old(emaZ), bursts, Z, i)
        invariant emaX == EmaAfter(old(emaX), Flatten(bursts[..i]), X)
        invariant emaZ == EmaAfter(old(emaZ), Flatten(bursts[..i]), Z)
        invariant AnyAccepted(Flatten(bursts[..i])) ==>
          steer == SteerFor(emaX, biasX) && throttle == ThrottleFor(emaZ, biasZ)
        invariant !AnyAccepted(Flatten(bursts[..i])) ==> steer == old(steer) && throttle == old(throttle)
      {
        assert bursts[..i + 1][..i] == bursts[..i];
        var x, z := Poll(bursts[i], Flatten(bursts[..i]), old(emaX), old(emaZ), old(steer), old(throttle));
        xs := xs + [x];
        zs := zs + [z];
      }
      assert bursts[..CalibrationPolls] == bursts;
    }

    /**
     * The zero-bias calibration of `connect_mario`: each bias becomes the
     * mean of its six polled EMA values. Steer and throttle are not
     * recomputed, so they keep the values of the last accepted packet,
     * mapped with the biases from before the calibration.
     */
    method Calibrate(bursts: seq<seq<seq<Byte>>>) returns (xs: seq<real>, zs: seq<real>)
      requires Valid()
      requires |bursts| == CalibrationPolls
      modifies this`emaX, this`emaZ, this`steer, this`throttle, this`biasX, this`biasZ
      ensures Valid()
      ensures |xs| == CalibrationPolls && |zs| == CalibrationPolls
      ensures forall i :: 0 <= i < CalibrationPolls ==> xs[i] == EmaAfter(old(emaX), Flatten(bursts[..i + 1]), X)
      ensures forall i :: 0 <= i < CalibrationPolls ==> zs[i] == EmaAfter(old(emaZ), Flatten(bursts[..i + 1]), Z)
      ensures emaX == EmaAfter(old(emaX), Flatten(bursts), X)
      ensures emaZ == EmaAfter(old(emaZ), Flatten(bursts), Z)
      ensures biasX == Mean(xs) && biasZ == Mean(zs)
      ensures AnyAccepted(Flatten(bursts)) ==>
        steer == SteerFor(emaX, old(biasX)) && throttle == ThrottleFor(emaZ, old(biasZ))
      ensures !AnyAccepted(Flatten(bursts)) ==> steer == old(steer) && throttle == old(throttle)
    {
      xs, zs := Sample(bursts);
      forall i | 0 <= i < CalibrationPolls
        ensures xs[i] == EmaAfter(old(emaX), Flatten(bursts[..i + 1]), X)
        ensures zs[i] == EmaAfter(old(emaZ), Flatten(bursts[..i + 1]), Z)
        ensures InTiltRange(xs[i]) && InTiltRange(zs[i])
      {
        SamplesAt(old(emaX), bursts, X, CalibrationPolls, i);
        SamplesAt(old(emaZ), bursts, Z, CalibrationPolls, i);
      }
      // `if xs:` always holds after the six polls
      if |xs| > 0 {
        MeanBounds(xs, -128.0, 127.0);
        MeanBounds(zs, -128.0, 127.0);
        biasX := Sum(xs) / (|xs| as real);
        biasZ := Sum(zs) / (|zs| as real);
      }
    }

    /**
     * The line `_sender_loop` writes on a tick: the receiving side reads
     * back the current throttle and steer as `:.2f` prints them, each
     * within "-1.00".."1.00".
     */
    method FrameLine() returns (line: string)
      requires Valid()
      ensures line == EncodeLine(Quantize(throttle), Quantize(steer))
      ensures ParseLine(line) == Some((Quantize(throttle), Quantize(steer)))
      ensures Quantize(throttle).hundredths <= 100 && Quantize(steer).hundredths <= 100
    {
      line := EncodeLine(Quantize(throttle), Quantize(steer));
      ParseEncodeLine(Quantize(throttle), Quantize(steer));
      QuantizeInRange(throttle);
      QuantizeInRange(steer);
    }
  }
}
