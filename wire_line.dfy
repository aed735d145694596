/**
 * The command line that `Bridge._sender_loop` (bridge/mario_bridge.py)
 * writes to the micro:bit every tick, `f"{throttle:.2f},{steer:.2f}:\n"`,
 * and the parse the receiving side applies to it: check the `":\n"`
 * terminator, split on the comma, read two fixed-point numbers.
 *
 * A value formatted with `:.2f` is described by its sign and its magnitude
 * in hundredths (`Fixed2`); `Quantize` is the rounding `:.2f` performs,
 * taken on exact reals.
 */
module WireLine {
  import opened Wrappers
  import opened Conditioning

  /** A number as `:.2f` prints it: a minus sign or not, and the magnitude in hundredths. */
  datatype Fixed2 = Fixed2(negative: bool, hundredths: nat)

  /** The value a `Fixed2` denotes. */
  function Value(f: Fixed2): real {
    var m := (f.hundredths as real) / 100.0;
    if f.negative then -m else m
  }

  // ---------------------------------------------------------------------
  // Rounding
  // ---------------------------------------------------------------------

  /** The integer nearest to `r >= 0`, ties going to the even neighbour. */
  function RoundHalfEven(r: real): (n: nat)
    requires 0.0 <= r
    ensures -0.5 <= (n as real) - r <= 0.5
    ensures r - (r.Floor as real) == 0.5 ==> n % 2 == 0
    ensures r - (r.Floor as real) != 0.5 ==> -0.5 < (n as real) - r < 0.5
  {
    var f := r.Floor;
    var frac := r - (f as real);
    if frac < 0.5 then f
    else if frac > 0.5 then f + 1
    else if f % 2 == 0 then f
    else f + 1
  }

  /**
   * What `:.2f` keeps of `v`: its sign (a negative value that rounds to
   * zero still prints `-0.00`) and `|v|` rounded to hundredths, half to even.
   */
  function Quantize(v: real): (f: Fixed2)
    ensures f.negative <==> v < 0.0
  {
    Fixed2(v < 0.0, RoundHalfEven(Abs(v) * 100.0))
  }

  /** A formatted value is within half a hundredth of the value. */
  lemma QuantizePrecision(v: real)
    ensures -0.005 <= Value(Quantize(v)) - v <= 0.005
  {
    var n := Quantize(v).hundredths;
    assert -0.5 <= (n as real) - Abs(v) * 100.0 <= 0.5;
    assert (n as real) / 100.0 - Abs(v) == ((n as real) - Abs(v) * 100.0) / 100.0;
  }

  /** A command in [-1, 1] is formatted with at most 100 hundredths, i.e. within "-1.00".."1.00". */
  lemma QuantizeInRange(v: real)
    requires -1.0 <= v <= 1.0
    ensures Quantize(v).hundredths <= 100
  {
    assert Abs(v) * 100.0 <= 100.0;
  }

  // ---------------------------------------------------------------------
  // Formatting
  // ---------------------------------------------------------------------

  predicate IsDigit(c: char) {
    '0' <= c <= '9'
  }

  function DigitChar(d: nat): (c: char)
    requires d < 10
    ensures IsDigit(c)
  {
    ('0' as int + d) as char
  }

  function DigitValue(c: char): nat
    requires IsDigit(c)
  {
    (c as int) - ('0' as int)
  }

  /** The decimal digits of `n` without leading zeros, as `str(n)`. */
  function Decimal(n: nat): (s: string)
    ensures |s| > 0
    ensures forall i :: 0 <= i < |s| ==> IsDigit(s[i])
  {
    if n < 10 then [DigitChar(n)] else Decimal(n / 10) + [DigitChar(n % 10)]
  }

  /** A magnitude in hundredths as integer part, '.', two decimals. */
  function FormatMagnitude(h: nat): (s: string)
    ensures |s| >= 4 && s[|s| - 3] == '.'
    ensures IsDigit(s[0])
    ensures forall i :: 0 <= i < |s| ==> s[i] != ','
  {
    Decimal(h / 100) + "." + [DigitChar(h / 10 % 10), DigitChar(h % 10)]
  }

  /** `:.2f` of a value: optional minus sign, then the magnitude. */
  function Format(f: Fixed2): (s: string)
    ensures |s| >= 4 && s[|s| - 3] == '.'
    ensures f.negative <==> s[0] == '-'
    ensures forall i :: 0 <= i < |s| ==> s[i] != ','
  {
    (if f.negative then "-" else "") + FormatMagnitude(f.hundredths)
  }

  /** The line written for one tick: `"<throttle>,<steer>:\n"`. */
  function EncodeLine(throttle: Fixed2, steer: Fixed2): (line: string)
    ensures Count(line, ',') == 1
    ensures |line| >= 2 && line[|line| - 2..] == ":\n"
  {
    var a, b := Format(throttle), Format(steer);
    CountNone(a, ',');
    CountNone(b, ',');
    CountNone(":\n", ',');
    CountAppend(a, ",", ',');
    CountAppend(a + ",", b, ',');
    CountAppend(a + "," + b, ":\n", ',');
    assert Count(",", ',') == 1;
    a + "," + b + ":\n"
  }

  // ---------------------------------------------------------------------
  // Parsing (the receiving side)
  // ---------------------------------------------------------------------

  /** The value of a non-empty string of decimal digits. */
  function ParseDigits(s: string): Option<nat>
    decreases |s|
  {
    if s == [] || !IsDigit(s[|s| - 1]) then None
    else if |s| == 1 then Some(DigitValue(s[0]))
    else match ParseDigits(s[..|s| - 1])
      case None => None
      case Some(n) => Some(10 * n + DigitValue(s[|s| - 1]))
  }

  /** An unsigned number with exactly two decimals, in hundredths. */
  function ParseMagnitude(body: string): Option<nat> {
    if |body| < 4 || body[|body| - 3] != '.' then None
    else match (ParseDigits(body[..|body| - 3]), ParseDigits(body[|body| - 2..]))
      case (Some(whole), Some(frac)) => Some(100 * whole + frac)
      case _ => None
  }

  /** A number with an optional minus sign and exactly two decimals. */
  function ParseFixed2(s: string): Option<Fixed2> {
    var negative := |s| > 0 && s[0] == '-';
    match ParseMagnitude(if negative then s[1..] else s)
    case None => None
    case Some(h) => Some(Fixed2(negative, h))
  }

  /** `s.split(sep)`. */
  function Split(s: string, sep: char): (parts: seq<string>)
    ensures |parts| > 0
  {
    if s == [] then [[]]
    else
      var rest := Split(s[1..], sep);
      if s[0] == sep then [[]] + rest else [[s[0]] + rest[0]] + rest[1..]
  }

  /** The receiving side: terminator check, split on ',', two numbers. */
  function ParseLine(line: string): Option<(Fixed2, Fixed2)> {
    if |line| < 2 || line[|line| - 2..] != ":\n" then None
    else
      var parts := Split(line[..|line| - 2], ',');
      if |parts| != 2 then None
      else match (ParseFixed2(parts[0]), ParseFixed2(parts[1]))
        case (Some(t), Some(s)) => Some((t, s))
        case _ => None
  }

  /** The number of occurrences of `c` in `s`. */
  function Count(s: string, c: char): nat {
    if s == [] then 0 else (if s[0] == c then 1 else 0) + Count(s[1..], c)
  }

  // ---------------------------------------------------------------------
  // Round trips and the shape of a line
  // ---------------------------------------------------------------------

  /** Reading back the digits of `n` gives `n`. */
  lemma {:induction false} ParseDecimal(n: nat)
    ensures ParseDigits(Decimal(n)) == Some(n)
  {
    if n >= 10 {
      ParseDecimal(n / 10);
      var s := Decimal(n);
      assert s[..|s| - 1] == Decimal(n / 10);
    }
  }

  /** A digit character reads back as its digit. */
  lemma DigitRoundTrip(d: nat)
    requires d < 10
    ensures DigitValue(DigitChar(d)) == d
  {
  }

  /** Two decimals read back as the hundredths below 100. */
  lemma ParseTwoDigits(h: nat)
    ensures ParseDigits([DigitChar(h / 10 % 10), DigitChar(h % 10)]) == Some(h % 100)
  {
    var frac := [DigitChar(h / 10 % 10), DigitChar(h % 10)];
    assert frac[..1] == [DigitChar(h / 10 % 10)];
    DigitRoundTrip(h / 10 % 10);
    DigitRoundTrip(h % 10);
    assert 10 * (h / 10 % 10) + h % 10 == h % 100;
  }

  /** Reading back a formatted magnitude gives the magnitude. */
  lemma ParseFormatMagnitude(h: nat)
    ensures ParseMagnitude(FormatMagnitude(h)) == Some(h)
  {
    var d := Decimal(h / 100);
    var frac := [DigitChar(h / 10 % 10), DigitChar(h % 10)];
    var body := FormatMagnitude(h);
    assert body == d + "." + frac;
    assert body[..|body| - 3] == d;
    assert body[|body| - 2..] == frac;
    ParseDecimal(h / 100);
    ParseTwoDigits(h);
  }

  /** Reading back a formatted value gives the value. */
  lemma ParseFormat(f: Fixed2)
    ensures ParseFixed2(Format(f)) == Some(f)
  {
    var body := FormatMagnitude(f.hundredths);
    var s := Format(f);
    ParseFormatMagnitude(f.hundredths);
    if f.negative {
      assert s[1..] == body;
    } else {
      assert s == body;
    }
  }

  /** Splitting a string without the separator gives the string itself. */
  lemma {:induction false} SplitNone(s: string, sep: char)
    requires forall i :: 0 <= i < |s| ==> s[i] != sep
    ensures Split(s, sep) == [s]
  {
    if s != [] {
      SplitNone(s[1..], sep);
      assert [s[0]] + s[1..] == s;
    }
  }

  /** Splitting `a + [sep] + b`, with no separator in `a` or `b`, gives `[a, b]`. */
  lemma {:induction false} SplitOnce(a: string, b: string, sep: char)
    requires forall i :: 0 <= i < |a| ==> a[i] != sep
    requires forall i :: 0 <= i < |b| ==> b[i] != sep
    ensures Split(a + [sep] + b, sep) == [a, b]
  {
    if a == [] {
      assert ([sep] + b)[1..] == b;
      SplitNone(b, sep);
    } else {
      SplitOnce(a[1..], b, sep);
      assert (a + [sep] + b)[1..] == a[1..] + [sep] + b;
      assert [a[0]] + a[1..] == a;
    }
  }

  /** The receiving side recovers both formatted values from a line. */
  lemma ParseEncodeLine(throttle: Fixed2, steer: Fixed2)
    ensures ParseLine(EncodeLine(throttle, steer)) == Some((throttle, steer))
  {
    var a, b := Format(throttle), Format(steer);
    var line := EncodeLine(throttle, steer);
    assert line == (a + [','] + b) + ":\n";
    assert line[..|line| - 2] == a + [','] + b;
    assert line[|line| - 2..] == ":\n";
    SplitOnce(a, b, ',');
    ParseFormat(throttle);
    ParseFormat(steer);
  }

  /** Counting distributes over concatenation. */
  lemma {:induction false} CountAppend(s: string, t: string, c: char)
    ensures Count(s + t, c) == Count(s, c) + Count(t, c)
  {
    if s == [] {
      assert s + t == t;
    } else {
      CountAppend(s[1..], t, c);
      assert (s + t)[1..] == s[1..] + t;
    }
  }

  /** A string without `c` counts no `c`. */
  lemma {:induction false} CountNone(s: string, c: char)
    requires forall i :: 0 <= i < |s| ==> s[i] != c
    ensures Count(s, c) == 0
  {
    if s != [] {
      CountNone(s[1..], c);
    }
  }

  /** The example line of a half-forward, quarter-left command. */
  lemma EncodeExample()
    ensures EncodeLine(Quantize(0.5), Quantize(-0.25)) == "0.50,-0.25:\n"
  {
    assert Quantize(0.5) == Fixed2(false, 50);
    assert Quantize(-0.25) == Fixed2(true, 25);
    assert Decimal(0) == "0";
  }
}
