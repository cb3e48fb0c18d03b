/** Validation of one numeric command-line argument (`parseInputArg` in proj2.c).

    An argument is accepted when every character is a decimal digit and its value
    lies in a closed range; otherwise the sentinel BadInput is returned.  Two readings
    are modelled:
    - ParseInputArgAsWritten follows the C code on an LP64 platform with glibc
      (strtol saturates at LONG_MAX, the `(int)` cast keeps the low 32 bits, and an
      empty argument converts to 0);
    - Parsed, and the method ParseInputArg that computes it, is the evidently intended
      behaviour: a non-empty digit string whose mathematical value lies in the range.
    The two agree on every non-empty argument whose value, if it is all digits, is below
    2^31 (AsWrittenAgrees). */
module ArgParse {

  /** The sentinel returned for an argument that is not valid. */
  const BadInput: int := -1

  const LongMax: int := 0x7FFF_FFFF_FFFF_FFFF
  const TwoTo32: int := 0x1_0000_0000
  const TwoTo31: int := 0x8000_0000

  /** `isdigit` in the C locale. */
  predicate IsDigit(c: char) {
    '0' <= c <= '9'
  }

  predicate AllDigits(s: string) {
    forall i :: 0 <= i < |s| ==> IsDigit(s[i])
  }

  function DigitValue(c: char): (d: nat)
    requires IsDigit(c)
    ensures d < 10
  {
    c as int - '0' as int
  }

  function DigitChar(d: nat): (c: char)
    requires d < 10
    ensures IsDigit(c) && DigitValue(c) == d
  {
    ('0' as int + d) as char
  }

  /** The value of a string of decimal digits, most significant digit first.
      The empty string has value 0, which is what strtol yields when it converts no digit. */
  function DecimalValue(s: string): (v: nat)
    requires AllDigits(s)
    decreases |s|
  {
    if s == [] then 0 else 10 * DecimalValue(s[..|s| - 1]) + DigitValue(s[|s| - 1])
  }

  function Pow10(n: nat): (p: nat)
    ensures p >= 1
  {
    if n == 0 then 1 else 10 * Pow10(n - 1)
  }

  /** The canonical decimal representation of n: no leading zero unless n is 0. */
  function Decimal(n: nat): (s: string)
    ensures |s| >= 1 && AllDigits(s)
    ensures s[0] == '0' <==> n == 0
  {
    if n < 10 then [DigitChar(n)] else Decimal(n / 10) + [DigitChar(n % 10)]
  }

  /** A run of k zero characters. */
  function Zeros(k: nat): (s: string)
    ensures |s| == k
    ensures forall i :: 0 <= i < k ==> s[i] == '0'
  {
    seq(k, i => '0')
  }

  /** strtol(s, NULL, 10) for a string of digits on a platform whose `long` has 64 bits:
      the value, saturated at LONG_MAX. */
  function StrtolLP64(s: string): (v: int)
    requires AllDigits(s)
    ensures 0 <= v <= LongMax
    ensures v == DecimalValue(s) || (v == LongMax && DecimalValue(s) > LongMax)
  {
    if DecimalValue(s) <= LongMax then DecimalValue(s) else LongMax
  }

  /** The `(int)` cast of a `long` with gcc: keep the low 32 bits, read as two's complement. */
  function ToInt32(v: int): (r: int)
    ensures -TwoTo31 <= r < TwoTo31
    ensures (v - r) % TwoTo32 == 0
  {
    var low := v % TwoTo32;
    if low < TwoTo31 then low else low - TwoTo32
  }

  /** parseInputArg exactly as written, on LP64 with glibc. */
  function ParseInputArgAsWritten(s: string, min: int, max: int): (r: int)
    ensures r == BadInput || (AllDigits(s) && min <= r <= max)
    ensures (exists i :: 0 <= i < |s| && !IsDigit(s[i])) ==> r == BadInput
  {
    if !AllDigits(s) then BadInput
    else
      var output := ToInt32(StrtolLP64(s));
      if output < min || output > max then BadInput else output
  }

  /** The intended result of parseInputArg: the value of a non-empty digit string
      when it lies in [min, max], BadInput otherwise. */
  function Parsed(s: string, min: int, max: int): (r: int)
    ensures r == BadInput || (min <= r <= max && s != [] && AllDigits(s) && r == DecimalValue(s))
    ensures (exists i :: 0 <= i < |s| && !IsDigit(s[i])) ==> r == BadInput
  {
    if s != [] && AllDigits(s) && min <= DecimalValue(s) <= max then DecimalValue(s) else BadInput
  }

  /** parseInputArg: scan the argument for a non-digit, then convert it and check the range. */
  method ParseInputArg(s: string, min: int, max: int) returns (r: int)
    ensures r == Parsed(s, min, max)
    ensures r == BadInput || min <= r <= max
  {
    var i := 0;
    while i < |s|
      invariant 0 <= i <= |s|
      invariant AllDigits(s[..i])
    {
      if !IsDigit(s[i]) {
        return BadInput;
      }
      i := i + 1;
    }
    assert s[..i] == s;
    if s == [] {
      return BadInput;
    }
    var output := DecimalValue(s);
    if output < min || output > max {
      return BadInput;
    }
    return output;
  }

  // ---------------------------------------------------------------------------
  // Decimal representation

  /** Every digit string is below 10 to the power of its length. */
  lemma {:induction false} DecimalValueBound(s: string)
    requires AllDigits(s)
    ensures DecimalValue(s) < Pow10(|s|)
  {
    if s != [] {
      var init := s[..|s| - 1];
      assert AllDigits(init);
      DecimalValueBound(init);
    }
  }

  /** Converting the canonical representation of n gives n back. */
  lemma {:induction false} DecimalRoundTrip(n: nat)
    ensures DecimalValue(Decimal(n)) == n
  {
    if n >= 10 {
      var s := Decimal(n);
      assert s[..|s| - 1] == Decimal(n / 10);
      DecimalRoundTrip(n / 10);
    }
  }

  lemma {:induction false} ZerosValue(k: nat)
    ensures DecimalValue(Zeros(k)) == 0
  {
    if k > 0 {
      assert Zeros(k)[..k - 1] == Zeros(k - 1);
      ZerosValue(k - 1);
    }
  }

  /** Leading zeros do not change the value: "007" converts to 7. */
  lemma {:induction false} LeadingZeros(k: nat, s: string)
    requires AllDigits(s)
    ensures AllDigits(Zeros(k) + s)
    ensures DecimalValue(Zeros(k) + s) == DecimalValue(s)
  {
    if s == [] {
      assert Zeros(k) + s == Zeros(k);
      ZerosValue(k);
    } else {
      var t := Zeros(k) + s;
      var init := s[..|s| - 1];
      assert t[..|t| - 1] == Zeros(k) + init;
      LeadingZeros(k, init);
    }
  }

  /** Every non-empty digit string is some zeros followed by the canonical form of its value. */
  lemma {:induction false} CanonicalForm(s: string) returns (z: nat)
    requires s != [] && AllDigits(s)
    ensures s == Zeros(z) + Decimal(DecimalValue(s))
  {
    var init, c := s[..|s| - 1], s[|s| - 1];
    assert s == init + [c];
    if init == [] {
      z := 0;
      assert Zeros(0) + Decimal(DigitValue(c)) == [c];
    } else {
      var z' := CanonicalForm(init);
      var v' := DecimalValue(init);
      if v' == 0 {
        z := z' + 1;
        assert init == Zeros(z') + ['0'];
        assert init == Zeros(z);
        assert DecimalValue(s) == DigitValue(c);
        assert Decimal(DigitValue(c)) == [c];
      } else {
        z := z';
        var n := DecimalValue(s);
        assert n == 10 * v' + DigitValue(c);
        assert n / 10 == v' && n % 10 == DigitValue(c);
        assert Decimal(n) == Decimal(v') + [c];
      }
    }
  }

  // ---------------------------------------------------------------------------
  // What the intended parse accepts

  /** Every in-range number, written with any number of leading zeros, is accepted
      with its value. */
  lemma AcceptsInRange(n: nat, k: nat, min: int, max: int)
    requires min <= n <= max
    ensures Parsed(Zeros(k) + Decimal(n), min, max) == n
  {
    LeadingZeros(k, Decimal(n));
    DecimalRoundTrip(n);
  }

  /** Whatever is accepted is an in-range number written with possible leading zeros. */
  lemma AcceptedIsDecimal(s: string, min: int, max: int) returns (k: nat)
    requires Parsed(s, min, max) != BadInput
    ensures min <= Parsed(s, min, max) <= max
    ensures s == Zeros(k) + Decimal(Parsed(s, min, max))
  {
    k := CanonicalForm(s);
  }

  /** The sentinel is unambiguous: the result is BadInput exactly when the argument is
      rejected, whatever the range. */
  lemma ParsedRejectsIff(s: string, min: int, max: int)
    ensures Parsed(s, min, max) == BadInput <==>
              s == [] || !AllDigits(s) || DecimalValue(s) < min || DecimalValue(s) > max
  {
  }

  // ---------------------------------------------------------------------------
  // The code as written

  /** For a range starting at 0 or above (every call in proj2.c), the as-written result
      is BadInput only on rejection, so the `== BAD_INPUT` test is unambiguous. */
  lemma AsWrittenSentinelUnambiguous(s: string, min: int, max: int)
    requires 0 <= min
    ensures ParseInputArgAsWritten(s, min, max) == BadInput <==>
              !AllDigits(s) || ToInt32(StrtolLP64(s)) < min || ToInt32(StrtolLP64(s)) > max
    ensures ParseInputArgAsWritten(s, min, max) != BadInput ==> min <= ParseInputArgAsWritten(s, min, max) <= max
  {
  }

  /** The value of the nine leading digits of 2^32, digit by digit. */
  lemma PrefixOfTwoTo32()
    ensures AllDigits("429496729") && DecimalValue("429496729") == 429496729
  {
    assert DecimalValue("4") == 4;
    assert DecimalValue("42") == 42 by {
      assert "4" + ['2'] == "42";
      DecimalAppend("4", '2');
    }
    assert DecimalValue("429") == 429 by {
      assert "42" + ['9'] == "429";
      DecimalAppend("42", '9');
    }
    assert DecimalValue("4294") == 4294 by {
      assert "429" + ['4'] == "4294";
      DecimalAppend("429", '4');
    }
    assert DecimalValue("42949") == 42949 by {
      assert "4294" + ['9'] == "42949";
      DecimalAppend("4294", '9');
    }
    assert DecimalValue("429496") == 429496 by {
      assert "42949" + ['6'] == "429496";
      DecimalAppend("42949", '6');
    }
    assert DecimalValue("4294967") == 4294967 by {
      assert "429496" + ['7'] == "4294967";
      DecimalAppend("429496", '7');
    }
    assert DecimalValue("42949672") == 42949672 by {
      assert "4294967" + ['2'] == "42949672";
      DecimalAppend("4294967", '2');
    }
    assert DecimalValue("429496729") == 429496729 by {
      assert "42949672" + ['9'] == "429496729";
      DecimalAppend("42949672", '9');
    }
  }

  /** With a range that contains -1 the sentinel would be ambiguous: an argument that
      wraps to -1 is valid yet indistinguishable from a rejection. */
  lemma AsWrittenSentinelAmbiguousBelowZero()
    ensures AllDigits("4294967295")
    ensures ParseInputArgAsWritten("4294967295", -1, 1) == BadInput
    ensures ToInt32(StrtolLP64("4294967295")) == -1
  {
    PrefixOfTwoTo32();
    assert "429496729" + ['5'] == "4294967295";
    DecimalAppend("429496729", '5');
  }

  /** Whether the code as written reads s as the intended parse does: s is not empty, and
      if it is all digits its value fits in a C `int`. */
  predicate FitsInt(s: string) {
    s != [] && (AllDigits(s) ==> DecimalValue(s) < TwoTo31)
  }

  /** Whenever the argument is non-empty and its value (if it is all digits) fits in an
      `int`, the code as written and the intended parse agree: strtol does not saturate
      and the `(int)` cast keeps the value. */
  lemma AsWrittenAgrees(s: string, min: int, max: int)
    requires FitsInt(s)
    ensures ParseInputArgAsWritten(s, min, max) == Parsed(s, min, max)
  {
  }

  /** Every argument of one to nine characters fits: nine digits stay below 10^9 < 2^31. */
  lemma ShortArgumentsFit(s: string)
    requires 1 <= |s| <= 9
    ensures FitsInt(s)
  {
    if AllDigits(s) {
      DecimalValueBound(s);
      Pow10Monotone(|s|, 9);
    }
  }

  /** On arguments of one to nine characters the code as written and the intended
      parse agree. */
  lemma AsWrittenAgreesOnShort(s: string, min: int, max: int)
    requires 1 <= |s| <= 9
    ensures ParseInputArgAsWritten(s, min, max) == Parsed(s, min, max)
  {
    ShortArgumentsFit(s);
    AsWrittenAgrees(s, min, max);
  }

  lemma {:induction false} Pow10Monotone(m: nat, n: nat)
    requires m <= n
    ensures Pow10(m) <= Pow10(n)
  {
    if m < n {
      Pow10Monotone(m, n - 1);
    }
  }

  /** Appending a digit multiplies the value by ten and adds the digit. */
  lemma DecimalAppend(s: string, c: char)
    requires AllDigits(s) && IsDigit(c)
    ensures AllDigits(s + [c])
    ensures DecimalValue(s + [c]) == 10 * DecimalValue(s) + DigitValue(c)
  {
    assert (s + [c])[..|s|] == s;
  }

  /** Finding: a ten-digit argument wraps around in the `(int)` cast and is accepted. */
  lemma WrapAroundAccepted()
    ensures ParseInputArgAsWritten("4294967297", 1, 1000) == 1
    ensures Parsed("4294967297", 1, 1000) == BadInput
  {
    PrefixOfTwoTo32();
    assert "429496729" + ['7'] == "4294967297";
    DecimalAppend("429496729", '7');
  }

  /** Finding: an empty argument converts to 0 and is accepted where 0 is in range. */
  lemma EmptyAccepted()
    ensures ParseInputArgAsWritten("", 0, 1000) == 0
    ensures Parsed("", 0, 1000) == BadInput
  {
  }
}
