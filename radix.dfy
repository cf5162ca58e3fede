/** Reading the size field: Rust's `usize::from_str_radix(s, 8)` on the
    32-bit WebAssembly target the library is built for. */
module Radix {

  /** The largest `usize` when pointers are 32 bits wide. */
  const UsizeMax: nat := 0xFFFF_FFFF

  /** Why a numeral was refused (Rust's `IntErrorKind`, the cases an unsigned
      parse can produce). */
  datatype IntErrorKind = Empty | InvalidDigit | PosOverflow

  /** The outcome of an integer parse. */
  datatype ParsedInt = Value(n: nat) | IntError(kind: IntErrorKind)

  predicate IsOctalDigit(c: char) {
    '0' <= c <= '7'
  }

  predicate AllOctal(ds: string) {
    forall i | 0 <= i < |ds| :: IsOctalDigit(ds[i])
  }

  function DigitValue(c: char): nat
    requires IsOctalDigit(c)
  {
    c as int - '0' as int
  }

  /** The digits of s: everything after one optional leading '+'. A '-' is
      not a sign for an unsigned type, so it stays and is refused as a digit. */
  function Digits(s: string): string {
    if |s| > 0 && s[0] == '+' then s[1..] else s
  }

  /** s is a base-8 numeral: an optional '+', then one or more of '0'..'7'. */
  predicate IsNumeral(s: string) {
    Digits(s) != [] && AllOctal(Digits(s))
  }

  function Pow8(k: nat): (p: nat)
    ensures p >= 1
  {
    if k == 0 then 1 else 8 * Pow8(k - 1)
  }

  /** The number that a string of octal digits denotes, most significant first. */
  function OctalValue(ds: string): (v: nat)
    requires AllOctal(ds)
    ensures v < Pow8(|ds|)
    decreases |ds|
  {
    if ds == [] then 0 else
    var d, p := DigitValue(ds[0]), Pow8(|ds| - 1);
    assert d * p <= 7 * p;
    d * p + OctalValue(ds[1..])
  }

  /** The digit loop of `from_str_radix`, left to right with checked
      arithmetic: a character that is not a digit stops it with InvalidDigit,
      a multiplication or addition past UsizeMax with PosOverflow. */
  function Accumulate(ds: string, acc: nat): (r: ParsedInt)
    requires acc <= UsizeMax
    ensures r.IntError? ==> r.kind != Empty
    decreases |ds|
  {
    if ds == [] then Value(acc)
    else if !IsOctalDigit(ds[0]) then IntError(InvalidDigit)
    else if acc * 8 > UsizeMax then IntError(PosOverflow)
    else if acc * 8 + DigitValue(ds[0]) > UsizeMax then IntError(PosOverflow)
    else Accumulate(ds[1..], acc * 8 + DigitValue(ds[0]))
  }

  lemma MulAtLeast(a: nat, p: nat)
    requires p >= 1
    ensures a * p >= a
  {
  }

  /** The loop with checked arithmetic succeeds exactly when every character
      is a digit and the exact value, acc shifted in front of the digits,
      fits in a usize; it then yields that value. */
  lemma {:induction false} AccumulateValue(ds: string, acc: nat)
    requires acc <= UsizeMax
    ensures Accumulate(ds, acc).Value? <==>
            AllOctal(ds) && acc * Pow8(|ds|) + OctalValue(ds) <= UsizeMax
    ensures Accumulate(ds, acc).Value? ==>
            Accumulate(ds, acc).n == acc * Pow8(|ds|) + OctalValue(ds)
    decreases |ds|
  {
    if ds != [] && IsOctalDigit(ds[0]) {
      var d, p, rest := DigitValue(ds[0]), Pow8(|ds| - 1), ds[1..];
      var next := acc * 8 + d;
      assert AllOctal(ds) <==> AllOctal(rest) by {
        assert forall i | 0 <= i < |rest| :: rest[i] == ds[i + 1];
      }
      assert Pow8(|ds|) == 8 * p;
      assert acc * (8 * p) + d * p == next * p;
      if AllOctal(ds) {
        assert acc * Pow8(|ds|) + OctalValue(ds) == next * p + OctalValue(rest);
      }
      MulAtLeast(next, p);
      if next <= UsizeMax {
        AccumulateValue(rest, next);
      }
    }
  }

  /** `usize::from_str_radix(s, 8)`: the empty string and a lone sign are
      refused up front; otherwise the digits after the sign are accumulated. */
  function FromStrRadix8(s: string): (r: ParsedInt)
    ensures r.Value? <==> IsNumeral(s) && OctalValue(Digits(s)) <= UsizeMax
    ensures r.Value? ==> r.n == OctalValue(Digits(s))
    ensures r == IntError(Empty) <==> s == []
  {
    if s == [] then IntError(Empty)
    else if s == "+" then IntError(InvalidDigit)
    else
      AccumulateValue(Digits(s), 0);
      Accumulate(Digits(s), 0)
  }

  /** Zero digits in front do not change what the loop yields. */
  lemma {:induction false} LeadingZeros(k: nat, ds: string)
    ensures Accumulate(Zeros(k) + ds, 0) == Accumulate(ds, 0)
  {
    if k > 0 {
      var s := Zeros(k) + ds;
      assert s[0] == '0' && DigitValue('0') == 0;
      assert s[1..] == Zeros(k - 1) + ds;
      assert Accumulate(s, 0) == Accumulate(s[1..], 0);
      LeadingZeros(k - 1, ds);
    } else {
      assert Zeros(k) + ds == ds;
    }
  }

  function Zeros(k: nat): (z: string)
    ensures |z| == k && forall i | 0 <= i < k :: z[i] == '0'
  {
    if k == 0 then [] else ['0'] + Zeros(k - 1)
  }

  /** A numeral of at most ten digits is below 8^10 = 2^30 and always fits;
      only the eleven- and twelve-character fields can overflow. */
  lemma {:induction false} ShortNumeralsFit(s: string)
    requires IsNumeral(s) && |Digits(s)| <= 10
    ensures FromStrRadix8(s) == Value(OctalValue(Digits(s)))
  {
    Pow8Monotone(|Digits(s)|, 10);
    assert Pow8(10) == 0x4000_0000;
  }

  lemma {:induction false} Pow8Monotone(i: nat, j: nat)
    requires i <= j
    ensures Pow8(i) <= Pow8(j)
    decreases j
  {
    if i < j {
      Pow8Monotone(i, j - 1);
    }
  }

  /** Tar writers pad the size field with leading zeros; padding in front of
      a numeral without a sign does not change what it reads as. */
  lemma ZeroPadded(k: nat, ds: string)
    requires ds != [] && ds[0] != '+'
    ensures FromStrRadix8(Zeros(k) + ds) == FromStrRadix8(ds)
  {
    var s := Zeros(k) + ds;
    if k > 0 {
      assert s[0] == '0';
    } else {
      assert s == ds;
    }
    assert s != "+" && s != [];
    assert Digits(s) == s;
    LeadingZeros(k, ds);
  }

  /** Plain numerals, with and without a sign: "12" reads as ten, "+17" as
      fifteen. */
  lemma NumeralExamples()
    ensures FromStrRadix8("12") == Value(10)
    ensures FromStrRadix8("+17") == Value(15)
  {
  }

  /** Refused inputs: nothing, a lone sign, a trailing blank (tar writers
      often end the field with a space), the digit 8, a minus sign, and
      2^32, one past the largest usize. */
  lemma SizeFieldRejects()
    ensures FromStrRadix8("") == IntError(Empty)
    ensures FromStrRadix8("+") == IntError(InvalidDigit)
    ensures FromStrRadix8("0000012 ").IntError?
    ensures FromStrRadix8("8").IntError?
    ensures FromStrRadix8("-1").IntError?
    ensures FromStrRadix8("40000000000").IntError?
  {
    assert !IsOctalDigit("0000012 "[7]);
    assert !IsOctalDigit("-1"[0]);
    var big := "40000000000";
    assert Pow8(10) == 0x4000_0000;
    if AllOctal(big) {
      assert OctalValue(big) >= 4 * Pow8(10);
    }
  }
}
