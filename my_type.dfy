/**
 * The class MyType's comparison of a number with a text: AreValuesTheSame
 * and the private helper ParseNumber it relies on. ParseNumber returns a
 * nullable int; here it returns an Option.
 */
module MyType {
  import opened Int32

  /** Nullable<int>: no value, or an int. */
  datatype Option<T> = None | Some(value: T)

  predicate IsDigit(c: char) {
    '0' <= c <= '9'
  }

  predicate AllDigits(s: string) {
    forall i | 0 <= i < |s| :: IsDigit(s[i])
  }

  function DigitValue(c: char): (d: nat)
    requires IsDigit(c)
    ensures d < 10
  {
    c as int - '0' as int
  }

  function DigitChar(d: nat): (c: char)
    requires d < 10
    ensures IsDigit(c) && DigitValue(c) == d
  {
    ('0' as int + d) as char
  }

  /** The value of a string of decimal digits, most significant first. */
  function DigitsValue(s: string): nat
    requires AllDigits(s)
  {
    if s == [] then 0 else DigitsValue(s[..|s| - 1]) * 10 + DigitValue(s[|s| - 1])
  }

  /** The decimal digits of n, most significant first, without leading zeros. */
  function Digits(n: nat): (s: string)
    ensures s != [] && AllDigits(s)
  {
    if n < 10 then [DigitChar(n)] else Digits(n / 10) + [DigitChar(n % 10)]
  }

  /** Int32.ToString() in the invariant culture: a '-' for negative numbers, then the digits. */
  function Format(n: int32): (s: string)
    ensures s != []
  {
    if n < 0 then "-" + Digits(-(n as int)) else Digits(n as nat)
  }

  predicate IsSign(c: char) {
    c == '-' || c == '+'
  }

  /** The integer texts the model reads: an optional sign, then at least one digit. */
  predicate IsNumberText(s: string) {
    && s != []
    && (IsDigit(s[0]) || (IsSign(s[0]) && |s| > 1))
    && AllDigits(s[1..])
  }

  /** The value an integer text denotes, with no limit on its size. */
  function TextValue(s: string): int
    requires IsNumberText(s)
  {
    if s[0] == '-' then -(DigitsValue(s[1..]) as int)
    else if s[0] == '+' then DigitsValue(s[1..])
    else
      assert s == [s[0]] + s[1..];
      DigitValue(s[0]) * Pow10(|s| - 1) + DigitsValue(s[1..])
  }

  function Pow10(n: nat): (p: nat)
    ensures p >= 1
  {
    if n == 0 then 1 else 10 * Pow10(n - 1)
  }

  /** A digit string's value is its first digit times its place value, plus the value of the rest. */
  lemma {:induction false} DigitsValueFirst(s: string)
    requires s != [] && AllDigits(s)
    ensures DigitsValue(s) == DigitValue(s[0]) * Pow10(|s| - 1) + DigitsValue(s[1..])
  {
    if |s| > 1 {
      var init := s[..|s| - 1];
      DigitsValueFirst(init);
      assert init[1..] == s[1..][..|s| - 2];
      assert init[0] == s[0];
      var d0, p := DigitValue(s[0]), Pow10(|s| - 2);
      assert DigitsValue(s) == (d0 * p + DigitsValue(init[1..])) * 10 + DigitValue(s[|s| - 1]);
      assert (d0 * p) * 10 == d0 * Pow10(|s| - 1);
    } else {
      assert s[1..] == [];
      assert s[..0] == [];
    }
  }

  /**
   * ParseNumber, which returns the value int.TryParse finds, or null when
   * it finds none. A text parses exactly when it is an optional sign followed
   * by at least one ASCII digit and the number it denotes fits in an int;
   * a larger number gives null, as int.TryParse does on overflow.
   */
  function ParseNumber(s: string): (r: Option<int32>)
    ensures r.Some? <==> IsNumberText(s) && InRange(TextValue(s))
    ensures r.Some? ==> r.value as int == TextValue(s)
  {
    var negative := |s| > 0 && s[0] == '-';
    var digits := if |s| > 0 && (s[0] == '-' || s[0] == '+') then s[1..] else s;
    if digits == [] || !AllDigits(digits) then None
    else
      assert digits == s ==> DigitsValue(s) == DigitValue(s[0]) * Pow10(|s| - 1) + DigitsValue(s[1..]) by {
        if digits == s { DigitsValueFirst(s); }
      }
      var magnitude: int := DigitsValue(digits);
      var v := if negative then -magnitude else magnitude;
      if InRange(v) then Some(v as int32) else None
  }

  /** Reading back the digits of n gives n. */
  lemma {:induction false} DigitsRoundTrip(n: nat)
    ensures DigitsValue(Digits(n)) == n
  {
    if n >= 10 {
      var s := Digits(n);
      DigitsRoundTrip(n / 10);
      assert s[..|s| - 1] == Digits(n / 10);
    }
  }

  /** ParseNumber reads back every int that Format writes. */
  lemma ParseFormatRoundTrip(n: int32)
    ensures ParseNumber(Format(n)) == Some(n)
  {
    var s := Format(n);
    if n < 0 {
      var digits := Digits(-(n as int));
      assert s[1..] == digits;
      DigitsRoundTrip(-(n as int));
      assert IsNumberText(s) && TextValue(s) == n as int;
    } else {
      var digits := Digits(n as nat);
      assert s == digits;
      DigitsRoundTrip(n as nat);
      DigitsValueFirst(digits);
      assert IsDigit(s[0]) && AllDigits(s[1..]);
      assert TextValue(s) == n as int;
    }
  }

  /** The empty text and a lone sign do not parse, and neither does a text with a non-digit after the sign. */
  lemma ParseNumberRejects(s: string)
    ensures s == [] || s == "-" || s == "+" ==> ParseNumber(s) == None
    ensures (exists i | 1 <= i < |s| :: !IsDigit(s[i])) ==> ParseNumber(s) == None
  {
  }

  /** Leading zeros and a plus sign are accepted, and "-0" is zero. */
  lemma ParseNumberExamples()
    ensures ParseNumber("+007") == Some(7)
    ensures ParseNumber("-0") == Some(0)
    ensures ParseNumber("-12") == Some(-12)
  {
    var plus, zero, minus := "+007", "-0", "-12";
    assert plus[1..] == "007" && "007"[1..] == "07" && "07"[1..] == "7";
    assert zero[1..] == "0" && minus[1..] == "12" && "12"[1..] == "2";
    assert "7"[..0] == "0"[..0] == "2"[..0] == [];
    DigitsValueFirst("007");
    DigitsValueFirst("07");
    DigitsValueFirst("12");
  }

  /** A number past the end of the int range gives null, as int.TryParse reports overflow. */
  lemma ParseNumberOverflow()
    ensures ParseNumber("4294967297") == None
    ensures ParseNumber("-4294967297") == None
  {
    var t, n := "4294967297", "-4294967297";
    assert Pow10(9) == 1_000_000_000;
    assert t[0] == '4' && |t| == 10;
    assert n[1..] == t;
    DigitsValueFirst(t);
  }

  /**
   * MyType.AreValuesTheSame: false when b does not parse, otherwise true
   * exactly when the parsed value equals a.
   */
  function AreValuesTheSame(a: int32, b: string): (same: bool)
    ensures ParseNumber(b).None? ==> !same
    ensures ParseNumber(b).Some? ==> (same <==> ParseNumber(b).value == a)
  {
    var parsed := ParseNumber(b);
    if parsed.Some? then parsed.value == a else false
  }

  /** A number compared with the text of a number: the same exactly when the two numbers are equal. */
  lemma AreValuesTheSameOnFormat(a: int32, n: int32)
    ensures AreValuesTheSame(a, Format(n)) <==> a == n
  {
    ParseFormatRoundTrip(n);
  }
}
