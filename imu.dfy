/**
 * The IMU notification test and tilt decoding at the head of
 * `Bridge.on_mario_notify` (bridge/mario_bridge.py): a packet is an IMU
 * packet when it has at least 7 bytes and starts with 0x07; byte 4 is the
 * x tilt and byte 6 the z tilt, each a two's-complement byte.
 */
module Imu {
  import opened Wrappers
  import opened Conditioning

  /** The first byte of an IMU notification. */
  const ImuHeader: Byte := 0x07

  /** The shortest notification that carries the tilt bytes. */
  const MinImuLength: nat := 7

  /** Positions of the x and z tilt bytes. */
  const TiltXOffset: nat := 4
  const TiltZOffset: nat := 6

  /** The two signed tilt readings the bridge uses. */
  datatype Tilt = Tilt(x: int, z: int)

  predicate InByteRange(t: Tilt) {
    -128 <= t.x <= 127 && -128 <= t.z <= 127
  }

  /** `len(data) >= 7 and data[0] == 0x07`. */
  predicate IsImuPacket(data: seq<Byte>) {
    |data| >= MinImuLength && data[0] == ImuHeader
  }

  /** The readings of an IMU notification, or None for any other notification. */
  function DecodeTilt(data: seq<Byte>): (r: Option<Tilt>)
    ensures r.Some? <==> IsImuPacket(data)
    ensures r.Some? ==> InByteRange(r.value)
  {
    if |data| < MinImuLength || data[0] != ImuHeader then None
    else Some(Tilt(Signed(data[TiltXOffset]), Signed(data[TiltZOffset])))
  }

  /**
   * An IMU notification carrying the readings `t`; `b1`, `b2`, `b3`
   * (including the y tilt at byte 5, which the bridge ignores) and the
   * trailing bytes are free.
   */
  function EncodeTilt(t: Tilt, b1: Byte, b2: Byte, b3: Byte, b5: Byte, rest: seq<Byte>): (data: seq<Byte>)
    requires InByteRange(t)
    ensures IsImuPacket(data)
  {
    [ImuHeader, b1, b2, b3, Unsigned(t.x), b5, Unsigned(t.z)] + rest
  }

  /** Decoding an encoded notification gives back its readings. */
  lemma DecodeEncode(t: Tilt, b1: Byte, b2: Byte, b3: Byte, b5: Byte, rest: seq<Byte>)
    requires InByteRange(t)
    ensures DecodeTilt(EncodeTilt(t, b1, b2, b3, b5, rest)) == Some(t)
  {
    SignedBijection(Unsigned(t.x), t.x);
    SignedBijection(Unsigned(t.z), t.z);
  }

  /** Every accepted notification is the encoding of what it decodes to. */
  lemma EncodeDecode(data: seq<Byte>)
    requires DecodeTilt(data).Some?
    ensures data == EncodeTilt(DecodeTilt(data).value, data[1], data[2], data[3], data[5], data[7..])
  {
    SignedBijection(data[TiltXOffset], 0);
    SignedBijection(data[TiltZOffset], 0);
    var e := EncodeTilt(DecodeTilt(data).value, data[1], data[2], data[3], data[5], data[7..]);
    assert |e| == |data|;
    forall i | 0 <= i < |data| ensures e[i] == data[i] {
    }
  }
}
