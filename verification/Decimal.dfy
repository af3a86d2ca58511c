/** Decimal text of integers, as Rust's `to_string` prints it and `str::parse` reads it back. */
module Decimal {

  datatype Option<+T> = None | Some(value: T)

  type Byte = n: nat | n < 256

  const PLUS: Byte := 43
  const MINUS: Byte := 45
  const ZERO: Byte := 48

  const U32_MAX: nat := 0xFFFF_FFFF
  const USIZE_MAX: nat := 0xFFFF_FFFF_FFFF_FFFF
  const I64_MAX: int := 0x7FFF_FFFF_FFFF_FFFF

  predicate IsDigit(b: Byte) {
    48 <= b <= 57
  }

  predicate AllDigits(s: seq<Byte>) {
    forall i :: 0 <= i < |s| ==> IsDigit(s[i])
  }

  function PrintNat(n: nat): (s: seq<Byte>)
    ensures |s| > 0 && AllDigits(s)
  {
    if n < 10 then [ZERO + n] else PrintNat(n / 10) + [ZERO + n % 10]
  }

  /** The number a run of digits denotes. */
  function DigitsValue(s: seq<Byte>): (n: nat)
    requires AllDigits(s)
  {
    if s == [] then 0 else DigitsValue(s[..|s| - 1]) * 10 + (s[|s| - 1] - ZERO)
  }

  lemma {:induction false} PrintNatRoundTrip(n: nat)
    ensures DigitsValue(PrintNat(n)) == n
  {
    if n >= 10 {
      PrintNatRoundTrip(n / 10);
      var s := PrintNat(n);
      assert s[..|s| - 1] == PrintNat(n / 10);
    }
  }

  /** `str::parse` for an unsigned type: an optional `+`, then one or more digits within range. */
  function ParseUnsigned(s: seq<Byte>, max: nat): (r: Option<nat>)
    ensures r.Some? ==> r.value <= max
  {
    var digits := if |s| > 0 && s[0] == PLUS then s[1..] else s;
    if digits == [] || !AllDigits(digits) || DigitsValue(digits) > max then None
    else Some(DigitsValue(digits))
  }

  /** `str::parse::<i64>`: an optional sign, then one or more digits within range. */
  function ParseI64(s: seq<Byte>): (r: Option<int>)
    ensures r.Some? ==> -I64_MAX - 1 <= r.value <= I64_MAX
  {
    if |s| > 0 && s[0] == MINUS then
      var digits := s[1..];
      if digits == [] || !AllDigits(digits) || DigitsValue(digits) > I64_MAX + 1 then None
      else Some(0 - DigitsValue(digits) as int)
    else
      ParseUnsigned(s, I64_MAX)
  }

  function PrintInt(n: int): (s: seq<Byte>) {
    if n < 0 then [MINUS] + PrintNat(-n) else PrintNat(n)
  }

  lemma ParseUnsignedPrint(n: nat, max: nat)
    ensures ParseUnsigned(PrintNat(n), max) == if n <= max then Some(n) else None
  {
    PrintNatRoundTrip(n);
    assert IsDigit(PrintNat(n)[0]);
  }

  /** Every `i64` survives printing and parsing. */
  lemma ParseI64Print(n: int)
    requires -I64_MAX - 1 <= n <= I64_MAX
    ensures ParseI64(PrintInt(n)) == Some(n)
  {
    if n < 0 {
      PrintNatRoundTrip(-n);
      assert PrintInt(n)[1..] == PrintNat(-n);
    } else {
      ParseUnsignedPrint(n, I64_MAX);
      assert IsDigit(PrintNat(n)[0]);
    }
  }

  // ----- which texts parse, and to what

  function Zeros(k: nat): (s: seq<Byte>)
    ensures |s| == k && AllDigits(s)
  {
    if k == 0 then [] else Zeros(k - 1) + [ZERO]
  }

  /** The text is the number's own, perhaps behind zeros. */
  ghost predicate IsNumeral(s: seq<Byte>, n: nat) {
    exists k: nat :: s == Zeros(k) + PrintNat(n)
  }

  lemma {:induction false} DigitsValueOfZeros(k: nat)
    ensures DigitsValue(Zeros(k)) == 0
  {
    if k > 0 {
      DigitsValueOfZeros(k - 1);
      assert Zeros(k)[..k - 1] == Zeros(k - 1);
    }
  }

  lemma {:induction false} PaddedValue(k: nat, n: nat)
    ensures AllDigits(Zeros(k) + PrintNat(n)) && DigitsValue(Zeros(k) + PrintNat(n)) == n
  {
    var s := Zeros(k) + PrintNat(n);
    if n < 10 {
      assert s[..|s| - 1] == Zeros(k);
      DigitsValueOfZeros(k);
    } else {
      PaddedValue(k, n / 10);
      assert s[..|s| - 1] == Zeros(k) + PrintNat(n / 10);
    }
  }

  lemma {:induction false} DigitsSpell(s: seq<Byte>) returns (k: nat)
    requires AllDigits(s) && s != []
    ensures s == Zeros(k) + PrintNat(DigitsValue(s))
  {
    var init, c := s[..|s| - 1], s[|s| - 1];
    assert s == init + [c];
    k := 0;
    if init == [] {
      assert DigitsValue(s) == c - ZERO && PrintNat(c - ZERO) == [c];
    } else {
      k := DigitsSpell(init);
      var v := DigitsValue(init);
      PrintNatSnoc(v, c);
      if v == 0 {
        assert Zeros(k + 1) == Zeros(k) + [ZERO] && PrintNat(0) == [ZERO];
        k := k + 1;
      } else {
        assert Zeros(k) + PrintNat(v) + [c] == Zeros(k) + (PrintNat(v) + [c]);
      }
    }
  }

  lemma PrintNatSnoc(v: nat, c: Byte)
    requires IsDigit(c)
    ensures PrintNat(10 * v + (c - ZERO)) == if v == 0 then [c] else PrintNat(v) + [c]
  {
    assert (10 * v + (c - ZERO)) / 10 == v;
  }

  lemma DigitsAreNumerals(s: seq<Byte>, n: nat)
    ensures s != [] && AllDigits(s) && DigitsValue(s) == n <==> IsNumeral(s, n)
  {
    if IsNumeral(s, n) {
      var k: nat :| s == Zeros(k) + PrintNat(n);
      PaddedValue(k, n);
    }
    if s != [] && AllDigits(s) { var k := DigitsSpell(s); }
  }

  lemma NumeralStarts(s: seq<Byte>, n: nat)
    requires IsNumeral(s, n)
    ensures s != [] && IsDigit(s[0])
  {
    DigitsAreNumerals(s, n);
  }

  /** A number parses from its own text, from that behind zeros and from either behind a `+`, and from no other. */
  lemma ParseUnsignedExactly(s: seq<Byte>, max: nat, n: nat)
    ensures ParseUnsigned(s, max) == Some(n) <==> n <= max && (IsNumeral(s, n) || ([PLUS] <= s && IsNumeral(s[1..], n)))
  {
    hide IsNumeral;
    DigitsAreNumerals(s, n);
    if |s| > 0 && s[0] == PLUS {
      DigitsAreNumerals(s[1..], n);
      if IsNumeral(s, n) { NumeralStarts(s, n); }
    }
  }

  /** The same for signed numbers; a `-` stands before the text of the magnitude, zero included. */
  lemma ParseI64Exactly(s: seq<Byte>, n: int)
    ensures ParseI64(s) == Some(n) <==>
            || (0 <= n <= I64_MAX && (IsNumeral(s, n) || ([PLUS] <= s && IsNumeral(s[1..], n))))
            || (-I64_MAX - 1 <= n <= 0 && [MINUS] <= s && IsNumeral(s[1..], -n))
  {
    hide IsNumeral;
    if |s| > 0 && s[0] == MINUS {
      if n <= 0 { DigitsAreNumerals(s[1..], -n); }
      if n >= 0 && IsNumeral(s, n) { NumeralStarts(s, n); }
    } else if n >= 0 {
      ParseUnsignedExactly(s, I64_MAX, n);
    }
  }

  /** Rust's `{:03}` for a value below 1000. */
  function Print3(n: nat): (s: seq<Byte>)
    requires n < 1000
    ensures |s| == 3 && AllDigits(s)
  {
    [ZERO + n / 100, ZERO + n / 10 % 10, ZERO + n % 10]
  }

  lemma ThreeDigits(n: nat)
    ensures n == 100 * (n / 100) + 10 * (n / 10 % 10) + n % 10
  {
    assert n == 10 * (n / 10) + n % 10;
    assert n / 10 == 10 * (n / 10 / 10) + n / 10 % 10;
    assert n / 10 / 10 == n / 100;
  }

  lemma Print3Injective(m: nat, n: nat)
    requires m < 1000 && n < 1000
    ensures Print3(m) == Print3(n) ==> m == n
  {
    var a, b := Print3(m), Print3(n);
    ThreeDigits(m);
    ThreeDigits(n);
    assert a == b ==> a[0] == b[0] && a[1] == b[1] && a[2] == b[2];
  }
}
