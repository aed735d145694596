# LEGO Mario to micro:bit bridge: signal conditioning

This project models the sensor-to-command path of the `Bridge` class in
`bridge/mario_bridge.py`, and proves properties of it. The bridge takes the
IMU notifications of a LEGO Mario figure. It decodes the x and z tilt bytes
and smooths each axis with an exponential moving average. It then maps the
smoothed tilt to a steer and a throttle in [-1, 1]: bias subtraction,
scaling, clipping, deadzone, rescale, expo curve, clipping again, then
negation and inversion. Finally it writes both values to a micro:bit as
the text line `"<throttle>,<steer>:\n"`.

Modules:

- `Conditioning` (conditioning.dfy): the pure helpers `_signed`, `_clip` and
  `_map_axis`, the latter split into its stages `Divisor`, `Normalize`,
  `Rescale` and `Shape`, and one EMA step `Smooth`.
- `AxisProperties` (axis_properties.dfy): lemmas about `_map_axis`. It maps
  the bias to 0 and keeps signs. It is zero exactly inside the deadzone,
  monotone in the reading, and shrinks magnitudes under an expo of 1 or
  more. For every expo of at least 1 its output goes to 0 at the deadzone
  edge, so there is no jump there. With the linear curve it is
  Lipschitz-continuous with constant `1 / (1 - dz)` in the normalised
  reading.
- `Imu` (imu.dfy): the packet check and tilt decoding of `on_mario_notify`,
  with an encoder and round trips both ways.
- `Calibration` (calibration.dfy): the sum and mean that `connect_mario`
  uses for the zero bias, with bounds.
- `WireLine` (wire_line.dfy): the `:.2f` formatting of throttle and steer,
  the line encoder, and a parser for the line the micro:bit receives.
- `MarioBridge` (bridge.dfy): the `Bridge` class with its mutable EMA, bias
  and analog fields. It holds `OnNotify` (`on_mario_notify`), `Calibrate`
  (the bias averaging of `connect_mario`) and `FrameLine` (one line of
  `_sender_loop`). It also holds `EmaAfter`, the EMA as a function of the
  packets delivered, which specifies the methods.

Python floats are modelled as `real`. Python's `a ** e` has no Dafny
counterpart, so the bridge carries it as a function `pow`. The predicate
`Conditioning.PowLaw` states what the proofs assume of it. On bases `a` in
(0, 1] it is positive, `a ** e <= a` for `e >= 1`, and it is monotone in
`a` for `e > 0`. For every real `a`, `a ** 1 == a`. `Conditioning.PowLawConsistent` shows that
some function satisfies these assumptions.

The model follows the program as written, in particular:

- the EMA is taken over the raw tilt, and the bias is subtracted afterwards
  inside `_map_axis`;
- the deadzone test is inclusive (`|x| <= dz` gives 0);
- there is no connection state machine and no validation of the
  configuration;
- calibration assigns the biases but does not recompute steer and
  throttle, which keep the values computed with the previous biases until
  the next IMU packet;
- after the six polls `if xs:` always holds, so there is no "not enough
  samples" outcome.

## Model

| member | source | states |
|---|---|---|
| Conditioning.Signed | bridge/mario_bridge.py:157-158 | the two's-complement reading of a byte lies in [-128, 127] and is congruent to the byte modulo 256 |
| Conditioning.SignedBijection | bridge/mario_bridge.py:157-158 | `_signed` is a bijection from bytes onto [-128, 127]; `Unsigned` is its inverse on both sides |
| Conditioning.Clip | bridge/mario_bridge.py:161-162 | for lo <= hi the result lies in [lo, hi], and a value already in range is returned unchanged |
| Conditioning.ClipNearest | bridge/mario_bridge.py:161-162 | the clipped value is the point of [lo, hi] nearest to v |
| Conditioning.ClipMonotone | bridge/mario_bridge.py:161-162 | clipping preserves order and is idempotent |
| Conditioning.Divisor | bridge/mario_bridge.py:166 | `max(1e-6, scale)` is positive, at least both arguments, and equal to one of them |
| Conditioning.Normalize | bridge/mario_bridge.py:166-167 | the normalised reading lies in [-1, 1] and is positive (negative) exactly when v is above (below) the bias |
| Conditioning.Rescale | bridge/mario_bridge.py:174 | outside the deadzone the rescaled value has magnitude in (0, 1] and keeps the sign of x |
| Conditioning.Shape | bridge/mario_bridge.py:177-178 | the expo curve is the identity when expo == 1.0; otherwise its magnitude is that of `abs(y) ** expo`, and for a positive power it is positive exactly for y >= 0 |
| Conditioning.MapAxis | bridge/mario_bridge.py:164-180 | for every reading, bias, scale, deadzone, expo and power function the mapped axis lies in [-1, 1] |
| Conditioning.Smooth | bridge/mario_bridge.py:138-140 | one EMA step lands between the old EMA and the raw value, and shrinks the distance to the raw value by the factor 0.8 |
| Conditioning.SmoothInTiltRange | bridge/mario_bridge.py:134-140 | an EMA in [-128, 127] smoothed with a signed tilt stays in [-128, 127] |
| AxisProperties.NormalizeMonotone | bridge/mario_bridge.py:166-167 | normalisation preserves the order of readings |
| AxisProperties.RescaleMagnitude | bridge/mario_bridge.py:174 | the rescaled magnitude times (1 - dz) is the excess of the magnitude over dz, so it tends to 0 at the deadzone edge |
| AxisProperties.RescaleMonotone | bridge/mario_bridge.py:174 | the rescaled magnitude grows with the magnitude, and the signed rescale preserves order |
| AxisProperties.ShapeMonotone | bridge/mario_bridge.py:177-178 | for a positive exponent the expo curve preserves order on [-1, 1] without 0 |
| AxisProperties.ShapeSign | bridge/mario_bridge.py:177-178 | the expo curve keeps the strict sign of a nonzero input |
| AxisProperties.ShapeShrinks | bridge/mario_bridge.py:177-178 | with expo >= 1 the curve never increases the magnitude and never reaches 0 |
| AxisProperties.ExpoOneSkipIsExact | bridge/mario_bridge.py:177-178 | skipping the curve when expo == 1.0 gives the same value as applying `** 1.0` |
| AxisProperties.MapAxisCentre | bridge/mario_bridge.py:166-172 | a reading equal to the bias maps to exactly 0 whenever dz >= 0 |
| AxisProperties.MapAxisSign | bridge/mario_bridge.py:166-180 | the mapped axis is positive iff the normalised reading exceeds dz and negative iff it is below -dz; a nonzero result has the sign of v - bias |
| AxisProperties.MapAxisZeroIff | bridge/mario_bridge.py:170-180 | the mapped axis is 0 exactly when the clipped normalised reading lies inside the inclusive deadzone |
| AxisProperties.MapAxisExpoShrinks | bridge/mario_bridge.py:174-180 | outside the deadzone with expo >= 1 the final clip is a no-op and the result is no larger in magnitude than the rescaled value |
| AxisProperties.MapAxisMonotone | bridge/mario_bridge.py:164-180 | for a positive exponent the mapped axis is monotone in the reading |
| AxisProperties.MapAxisDeadzoneEdge | bridge/mario_bridge.py:164-180 | for every expo >= 1, (1 - dz) times the magnitude of the mapped axis is at most the distance of the normalised reading past dz, so the output tends to 0 at the deadzone edge |
| AxisProperties.DeadbandLipschitz | bridge/mario_bridge.py:170-174 | deadzone-and-rescale moves by at most 1 / (1 - dz) times the change of its input, so it is continuous across the deadzone edge |
| AxisProperties.MapAxisLinearContinuous | bridge/mario_bridge.py:164-180 | with the linear curve the mapped axis changes by at most 1 / (1 - dz) times the change of the normalised reading |
| Imu.DecodeTilt | bridge/mario_bridge.py:132-135 | a notification is accepted exactly when it has at least 7 bytes and header 0x07; the decoded tilts are signed bytes |
| Imu.EncodeTilt | bridge/mario_bridge.py:131-135 | a packet built from header 0x07, any filler bytes and two signed tilts is an IMU packet |
| Imu.DecodeEncode | bridge/mario_bridge.py:131-135 | decoding a built packet gives back its x and z tilt, whatever the other bytes are |
| Imu.EncodeDecode | bridge/mario_bridge.py:131-135 | every accepted packet is the packet built from its decoded tilts and its other bytes, so bytes 4 and 6 are all that is read |
| Calibration.Sum | bridge/mario_bridge.py:94-95 | `sum` of no samples is 0 and of one sample is that sample; SumAppend and SumBounds state the rest |
| Calibration.Mean | bridge/mario_bridge.py:94-95 | the mean times the number of samples is their sum, and the mean of one sample is that sample |
| Calibration.SumAppend | bridge/mario_bridge.py:94-95 | the sum of a list with one more sample is the old sum plus the sample |
| Calibration.SumBounds | bridge/mario_bridge.py:94-95 | the sum of samples in [lo, hi] lies between n * lo and n * hi |
| Calibration.MeanBounds | bridge/mario_bridge.py:93-95 | the mean of a non-empty list of samples in [lo, hi] lies in [lo, hi] |
| Calibration.MeanConstant | bridge/mario_bridge.py:93-95 | the mean of equal samples is that sample |
| MarioBridge.Orient | bridge/mario_bridge.py:149-150 | inversion negates exactly when the flag is set and keeps the magnitude |
| MarioBridge.AnyAcceptedExists | bridge/mario_bridge.py:132-133 | a run of notifications counts as holding an accepted packet exactly when one of its positions is an IMU packet |
| MarioBridge.AnyAcceptedAppend | bridge/mario_bridge.py:132-133 | a concatenation holds an accepted packet iff one of its parts does |
| MarioBridge.EmaAfter | bridge/mario_bridge.py:132-140 | the EMA after a run of notifications stays in [-128, 127] when it starts there, and is unchanged by a run without an IMU packet |
| MarioBridge.EmaAfterSnoc | bridge/mario_bridge.py:132-140 | one more notification is one more EMA step with its tilt, or no change when it is rejected |
| MarioBridge.EmaAfterAppend | bridge/mario_bridge.py:132-140 | delivering two runs of notifications one after the other equals delivering their concatenation |
| MarioBridge.DecayStep | bridge/mario_bridge.py:138-140 | one step with a steady reading c multiplies the distance to c by another factor of 0.8 |
| MarioBridge.EmaAfterSteady | bridge/mario_bridge.py:132-140 | under n accepted packets all reading c, the EMA's distance to c is 0.8 ** n times its initial distance |
| MarioBridge.SamplesAt | bridge/mario_bridge.py:90-92 | the k-th polled sample is the EMA after the first k + 1 bursts of notifications |
| MarioBridge.Bridge.SteerFor | bridge/mario_bridge.py:143-149 | the steer for an x EMA and an x bias is the mapped x axis, negated exactly when invert_x; it lies in [-1, 1] |
| MarioBridge.Bridge.ThrottleFor | bridge/mario_bridge.py:144-150 | the throttle for a z EMA and a z bias is minus the mapped z axis, negated again exactly when invert_z; it lies in [-1, 1] |
| MarioBridge.Bridge.constructor | bridge/mario_bridge.py:23-48 | a new bridge has zero EMAs, biases and analogs, keeps its mapping configuration, and satisfies the invariant |
| MarioBridge.Bridge.OnNotify | bridge/mario_bridge.py:130-153 | a rejected notification changes no field; an accepted one smooths both EMAs with its tilts, sets steer and throttle from the new EMAs and the current biases, and keeps the range invariant |
| MarioBridge.Bridge.Deliver | bridge/mario_bridge.py:90-91 | the notifications arriving during one sleep leave each EMA at `EmaAfter` of the old EMA and those packets; steer and throttle are those of the new EMAs if one was an IMU packet, and unchanged otherwise |
| MarioBridge.Bridge.Poll | bridge/mario_bridge.py:90-92 | one poll delivers a burst and returns both EMAs, extending the run of delivered notifications and keeping what it says of the analogs |
| MarioBridge.Bridge.Sample | bridge/mario_bridge.py:89-92 | the six polled samples of each axis are `Samples` of the initial EMA, the EMAs end after all bursts, and the biases are untouched, so the analogs follow the last IMU packet |
| MarioBridge.Bridge.Calibrate | bridge/mario_bridge.py:89-95 | the i-th polled sample is the EMA after the first i + 1 bursts; each bias becomes the mean of its six samples, inside [-128, 127]; steer and throttle stay those of the last IMU packet mapped with the old biases, or unchanged if none arrived |
| MarioBridge.Bridge.FrameLine | bridge/mario_bridge.py:185 | the line is the encoding of the `:.2f` values of throttle and steer, it parses back to them, and each magnitude is at most 1.00 |
| WireLine.RoundHalfEven | bridge/mario_bridge.py:185 | the rounded value is within 0.5, strictly nearest off ties, and even on ties |
| WireLine.Quantize | bridge/mario_bridge.py:185 | the printed value carries a minus sign exactly for negative values |
| WireLine.QuantizePrecision | bridge/mario_bridge.py:185 | the value printed with two decimals is within 0.005 of the float |
| WireLine.QuantizeInRange | bridge/mario_bridge.py:185 | a value in [-1, 1] prints with at most 100 hundredths, from "-1.00" to "1.00" |
| WireLine.FormatMagnitude | bridge/mario_bridge.py:185 | a magnitude prints as digits, a '.', and two decimals, with no comma |
| WireLine.Format | bridge/mario_bridge.py:185 | a printed number starts with '-' exactly when it is negative, has '.' before two decimals, and contains no comma |
| WireLine.EncodeLine | bridge/mario_bridge.py:185 | every line has exactly one comma and ends with ":\n" |
| WireLine.ParseFormat | bridge/mario_bridge.py:185 | a formatted number parses back to the same sign and hundredths |
| WireLine.ParseEncodeLine | bridge/mario_bridge.py:185 | splitting the line on its comma and stripping the terminator recovers throttle and steer |
| WireLine.EncodeExample | bridge/mario_bridge.py:185 | throttle 0.5 and steer -0.25 give the line "0.50,-0.25:\n" |

## Left out

- BLE discovery, connection and subscription (`find_mario`, `find_microbit`, the connection part of `connect_mario`, `connect_microbit`, `safe_disconnect`) are calls into the `bleak` library with no logic of their own to state.
- bridge/mario_microbit_scan.py is not part of this model, for the same reason.
- The `_handle` argument of `on_mario_notify` is unused by the program and absent from `OnNotify`.
- Asyncio scheduling is not modelled. The packets that arrive during each 0.1 s calibration sleep are an input (`bursts`) of `Calibrate`. Each notification is handled whole, between two polls.
- `_sender_loop` is modelled as `FrameLine`, one tick that encodes one line. The loop, the 100 ms cadence, the GATT write, its exception handling and `line.encode()` are I/O.
- IEEE floating point is not modelled: values are exact reals, so there is no rounding error, NaN or infinity.
- WireLine.Quantize: IEEE negative zero is not representable in `real`. A throttle of -0.0 (the negated 0.0 of a centred z axis, when invert_z is off) and a steer of -0.0 (a centred x axis under invert_x) print "-0.00" in the program and "0.00" in the model.
- WireLine.RoundHalfEven: `:.2f` rounds the exact binary value of the float. The model rounds the exact real `|v| * 100` half to even, so it can differ from the program on values that are not exactly representable.
- Conditioning.Shape: Python's `**` is a parameter `pow`. Properties of the expo curve hold for every `pow` that satisfies `PowLaw`, not for the library function itself.
- AxisProperties.MapAxisLinearContinuous: Lipschitz continuity of the whole map is proved only for the linear curve. For other exponents `PowLaw` says nothing about the slope of `**`, so only the bound at the deadzone edge (MapAxisDeadzoneEdge) is proved.
- `argparse`, `print` and `main` are the command line and logging, and are left out.
- The unused IMU y-tilt byte (byte 5) and the RGB subscription carry no logic in the signal path.
