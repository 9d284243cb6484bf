/**
 * The raw-value decoder of the coordinator (`_process_raw_value` in coordinator.py) and
 * the arithmetic it rests on: Python's `round` (ties to even), `str` of an integer, and
 * the reinterpretation of a 16-bit word as two's complement.
 *
 * Arithmetic is exact, over `int` and `real`; the binary floating point of the source
 * is not modelled.
 */
module Codec {
  import opened Wrappers
  import opened Definitions

  /** `MAPPINGS`: mapping name to a table from raw value to label. */
  type Mappings = map<string, map<int, string>>

  function Pow10(n: nat): (r: nat)
    ensures r >= 1
  {
    if n == 0 then 1 else 10 * Pow10(n - 1)
  }

  /** `10^n` as a real number. */
  function Scale(n: nat): (r: real)
    ensures r >= 1.0
  {
    Pow10(n) as real
  }

  // ---------------------------------------------------------------------------
  // Python's round
  // ---------------------------------------------------------------------------

  /** `round(x)`: the nearest integer, a tie going to the even neighbour. */
  function RoundHalfEven(x: real): (n: int)
    ensures x - 0.5 <= n as real <= x + 0.5
    ensures (n as real == x - 0.5 || n as real == x + 0.5) ==> n % 2 == 0
  {
    var f := x.Floor;
    var frac := x - f as real;
    if frac < 0.5 then f
    else if frac > 0.5 then f + 1
    else if f % 2 == 0 then f
    else f + 1
  }

  /** The two properties above single out one integer. */
  lemma RoundHalfEvenUnique(x: real, m: int)
    requires x - 0.5 <= m as real <= x + 0.5
    requires (m as real == x - 0.5 || m as real == x + 0.5) ==> m % 2 == 0
    ensures m == RoundHalfEven(x)
  {
    var n := RoundHalfEven(x);
    assert -1 <= m - n <= 1;
  }

  /** `round` leaves an integer alone. */
  lemma RoundOfInteger(k: int)
    ensures RoundHalfEven(k as real) == k
  {
    RoundHalfEvenUnique(k as real, k);
  }

  lemma DivMul(a: real, b: real)
    requires b != 0.0
    ensures (a / b) * b == a
  {
  }

  /**
   * `round(x, d)` for `d != 0`, as the mantissa `m` of the result `m * 10^-d`: the integer
   * nearest to `x * 10^d`, a tie going to the even one.
   */
  function RoundToDecimals(x: real, d: int): (m: int)
    ensures var y := if d >= 0 then x * Scale(d) else x / Scale(-d);
            && y - 0.5 <= m as real <= y + 0.5
            && ((m as real == y - 0.5 || m as real == y + 0.5) ==> m % 2 == 0)
  {
    if d >= 0 then RoundHalfEven(x * Scale(d)) else RoundHalfEven(x / Scale(-d))
  }

  /** The real number a float value stands for. */
  function FloatReal(mantissa: int, places: int): real {
    if places >= 0 then mantissa as real / Scale(places)
    else mantissa as real * Scale(-places)
  }

  lemma RoundScaledBack(k: int, q: real)
    requires q != 0.0
    ensures RoundHalfEven((k as real / q) * q) == k
  {
    DivMul(k as real, q);
    RoundOfInteger(k);
  }

  /** A value with at most `d` decimals is left alone by rounding to `d` decimals. */
  lemma RoundToDecimalsExact(k: int, d: nat)
    ensures RoundToDecimals(k as real / Scale(d), d) == k
  {
    RoundScaledBack(k, Scale(d));
  }

  // ---------------------------------------------------------------------------
  // str() of an integer
  // ---------------------------------------------------------------------------

  predicate IsDigit(c: char) {
    '0' <= c <= '9'
  }

  function DigitChar(d: int): (c: char)
    requires 0 <= d < 10
    ensures IsDigit(c) && (c as int) - ('0' as int) == d
  {
    (('0' as int) + d) as char
  }

  /** The decimal digits of `n`, without leading zeros. */
  function NatToDecimal(n: nat): (s: string)
    ensures |s| >= 1 && forall i :: 0 <= i < |s| ==> IsDigit(s[i])
  {
    if n < 10 then [DigitChar(n)] else NatToDecimal(n / 10) + [DigitChar(n % 10)]
  }

  /** The value of a string of decimal digits. */
  function DecimalToNat(s: string): nat
    requires forall i :: 0 <= i < |s| ==> IsDigit(s[i])
  {
    if s == [] then 0
    else
      assert IsDigit(s[|s| - 1]);
      DecimalToNat(s[..|s| - 1]) * 10 + ((s[|s| - 1] as int) - ('0' as int))
  }

  lemma {:induction false} DecimalRoundTrip(n: nat)
    ensures DecimalToNat(NatToDecimal(n)) == n
  {
    if n >= 10 {
      DecimalRoundTrip(n / 10);
      var s := NatToDecimal(n);
      assert s[..|s| - 1] == NatToDecimal(n / 10);
    }
  }

  /** Python's `str(i)`. */
  function IntToDecimal(i: int): (s: string)
    ensures |s| >= 1
    ensures s[0] == '-' <==> i < 0
  {
    if i < 0 then "-" + NatToDecimal(-i) else NatToDecimal(i)
  }

  lemma IntToDecimalInjective(a: int, b: int)
    requires IntToDecimal(a) == IntToDecimal(b)
    ensures a == b
  {
    if a < 0 {
      assert IntToDecimal(a)[1..] == NatToDecimal(-a);
      assert IntToDecimal(b)[1..] == NatToDecimal(-b);
      DecimalRoundTrip(-a);
      DecimalRoundTrip(-b);
    } else {
      DecimalRoundTrip(a);
      DecimalRoundTrip(b);
    }
  }

  /** The fallback label `f"Unknown ({raw})"`. */
  function UnknownLabel(raw: int): string {
    "Unknown (" + IntToDecimal(raw) + ")"
  }

  /** Different raw values never share a fallback label. */
  lemma UnknownLabelInjective(a: int, b: int)
    ensures UnknownLabel(a) == UnknownLabel(b) <==> a == b
  {
    if UnknownLabel(a) == UnknownLabel(b) {
      var p := "Unknown (";
      assert UnknownLabel(a) == p + IntToDecimal(a) + ")";
      assert IntToDecimal(a) == UnknownLabel(a)[|p|..|UnknownLabel(a)| - 1];
      assert IntToDecimal(b) == UnknownLabel(b)[|p|..|UnknownLabel(b)| - 1];
      IntToDecimalInjective(a, b);
    }
  }

  // ---------------------------------------------------------------------------
  // _process_raw_value
  // ---------------------------------------------------------------------------

  /**
   * The signed reading of a register word: for input and holding registers (input when
   * `register_type` is absent) a word above 32767 is read as two's complement.
   */
  function ToSigned(registerType: Option<RegisterType>, raw: int): (w: int)
    ensures registerType.GetOr(InputRegister) == OtherRegisterType ==> w == raw
    ensures raw <= 32767 ==> w == raw
    ensures registerType.GetOr(InputRegister) != OtherRegisterType && 0 <= raw < 65536 ==>
              -32768 <= w <= 32767 && (w - raw) % 65536 == 0
  {
    if registerType.GetOr(InputRegister) != OtherRegisterType && raw > 32767 then raw - 65536
    else raw
  }

  /** A two's complement word in [-32768, 32767] is the signed reading of its 16-bit pattern. */
  lemma ToSignedOfWord(registerType: Option<RegisterType>, w: int)
    requires registerType.GetOr(InputRegister) != OtherRegisterType && -32768 <= w <= 32767
    ensures ToSigned(registerType, w % 65536) == w
  {
  }

  /** A text label: the mapping entry, or the fallback when the mapping or the key is missing. */
  function TextLabel(raw: int, mapping: Option<string>, mappings: Mappings): (s: string)
    ensures (mapping.Some? && mapping.value != "" && mapping.value in mappings && raw in mappings[mapping.value])
            ==> s == mappings[mapping.value][raw]
    ensures !(mapping.Some? && mapping.value != "" && mapping.value in mappings && raw in mappings[mapping.value])
            ==> s == UnknownLabel(raw)
  {
    if mapping.Some? && mapping.value != "" && mapping.value in mappings then
      var table := mappings[mapping.value];
      if raw in table then table[raw] else UnknownLabel(raw)
    else UnknownLabel(raw)
  }

  /** `_process_raw_value`: one register word decoded by its definition; `None` is Python's `None`. */
  function ProcessRawValue(raw: int, d: Definition, mappings: Mappings): (r: Option<Value>)
    ensures d.entityType == Select ==> r == Some(IntValue(raw))
    ensures d.entityType == Text ==> r == Some(TextValue(TextLabel(raw, d.mapping, mappings)))
    ensures d.entityType !in {Select, Text} ==> (r.None? <==> d.scaling == Some(0.0))
    ensures d.entityType !in {Select, Text} && r.Some? ==>
              var x := ToSigned(d.registerType, raw) as real / d.scaling.GetOr(1.0);
              if d.decimals.GetOr(0) == 0 then
                && r.value.IntValue? && x - 0.5 <= r.value.i as real <= x + 0.5
                && ((r.value.i as real == x - 0.5 || r.value.i as real == x + 0.5) ==> r.value.i % 2 == 0)
              else
                r.value == FloatValue(RoundToDecimals(x, d.decimals.value), d.decimals.value)
  {
    if d.entityType == Select then Some(IntValue(raw))
    else if d.entityType == Text then Some(TextValue(TextLabel(raw, d.mapping, mappings)))
    else
      var word := ToSigned(d.registerType, raw);
      var scaling := d.scaling.GetOr(1.0);
      if scaling == 0.0 then None
      else
        var scaled := word as real / scaling;
        var places := d.decimals.GetOr(0);
        if places == 0 then Some(IntValue(RoundHalfEven(scaled)))
        else Some(FloatValue(RoundToDecimals(scaled, places), places))
  }

  /** A definition a number entity can be decoded with: a plain numeric one. */
  predicate IsNumeric(d: Definition) {
    d.entityType !in {Select, Text}
  }

  /**
   * Decoding undoes the number encoder's scaling: a word `w` of a numeric register with
   * scaling `10^p` and `p` decimals reads back as `w / 10^p`.
   */
  lemma DecodeScaledWord(d: Definition, mappings: Mappings, w: int, p: nat)
    requires IsNumeric(d) && d.registerType.GetOr(InputRegister) != OtherRegisterType
    requires d.scaling == Some(Scale(p)) && d.decimals == Some(p as int) && p > 0
    requires -32768 <= w <= 32767
    ensures ProcessRawValue(w % 65536, d, mappings) == Some(FloatValue(w, p))
  {
    ToSignedOfWord(d.registerType, w);
    RoundToDecimalsExact(w, p);
  }

  /** Integer decoding of such a word with no decimals returns the word itself. */
  lemma DecodeWholeWord(d: Definition, mappings: Mappings, w: int)
    requires IsNumeric(d) && d.registerType.GetOr(InputRegister) != OtherRegisterType
    requires d.scaling.GetOr(1.0) == 1.0 && d.decimals.GetOr(0) == 0
    requires -32768 <= w <= 32767
    ensures ProcessRawValue(w % 65536, d, mappings) == Some(IntValue(w))
  {
    ToSignedOfWord(d.registerType, w);
    RoundOfInteger(w);
  }

  /** Examples: ties round to even, 0xFFFF reads as -1, a zero scaling gives `None`. */
  lemma DecoderExamples(d: Definition, mappings: Mappings)
    requires IsNumeric(d) && d.registerType == None && d.decimals == None
    ensures d.scaling == Some(10.0) ==> ProcessRawValue(725, d, mappings) == Some(IntValue(72))
    ensures d.scaling == Some(10.0) ==> ProcessRawValue(735, d, mappings) == Some(IntValue(74))
    ensures d.scaling == Some(10.0) ==> ProcessRawValue(65535, d, mappings) == Some(IntValue(0))
    ensures d.scaling == None ==> ProcessRawValue(65535, d, mappings) == Some(IntValue(-1))
    ensures d.scaling == Some(0.0) ==> ProcessRawValue(65535, d, mappings) == None
  {
    RoundHalfEvenUnique(72.5, 72);
    RoundHalfEvenUnique(73.5, 74);
    RoundHalfEvenUnique(-0.1, 0);
    RoundOfInteger(-1);
  }
}
