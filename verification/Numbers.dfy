/** printf("%d") and strtol(.., 10), with the conversion from long to int. */
module Numbers {

  const INT_MAX: int := 0x7FFF_FFFF
  const LONG_MAX: int := 0x7FFF_FFFF_FFFF_FFFF
  const LONG_MIN: int := -0x8000_0000_0000_0000

  /** Assignment of a wider integer to an int: the low 32 bits, read as two's complement. */
  function AsInt(v: int): (r: int)
    ensures -0x8000_0000 <= r <= INT_MAX
    ensures (r - v) % 0x1_0000_0000 == 0
    ensures r == v <==> -0x8000_0000 <= v <= INT_MAX
  {
    var m := v % 0x1_0000_0000;
    if m <= INT_MAX then m else m - 0x1_0000_0000
  }

  predicate IsDigit(c: char) { '0' <= c <= '9' }

  function DigitChar(d: nat): (c: char)
    requires d < 10
    ensures IsDigit(c) && DigitValue(c) == d
  {
    ('0' as int + d) as char
  }

  function DigitValue(c: char): nat
    requires IsDigit(c)
  {
    c as int - '0' as int
  }

  function Digits(n: nat): (s: string)
    ensures s != "" && forall i :: 0 <= i < |s| ==> IsDigit(s[i])
    ensures n < 10 ==> |s| == 1
  {
    if n < 10 then [DigitChar(n)] else Digits(n / 10) + [DigitChar(n % 10)]
  }

  /** What "%d" prints. */
  function Decimal(v: int): string {
    if v < 0 then "-" + Digits(-v) else Digits(v)
  }

  function ReadDigits(s: string, acc: nat): nat {
    if s == "" || !IsDigit(s[0]) then acc else ReadDigits(s[1..], 10 * acc + DigitValue(s[0]))
  }

  predicate IsSpace(c: char) { c in " \t\n\r" || c as int == 11 || c as int == 12 }

  function SkipSpace(s: string): string {
    if s != "" && IsSpace(s[0]) then SkipSpace(s[1..]) else s
  }

  /** strtol(s, nullptr, 10): the value, and whether errno becomes ERANGE. */
  function Strtol(s: string): (r: (int, bool))
    ensures LONG_MIN <= r.0 <= LONG_MAX
  {
    var t := SkipSpace(s);
    var negative := t != "" && t[0] == '-';
    var u := if t != "" && (t[0] == '-' || t[0] == '+') then t[1..] else t;
    var v: int := if negative then 0 - ReadDigits(u, 0) else ReadDigits(u, 0);
    if v > LONG_MAX then (LONG_MAX, true)
    else if v < LONG_MIN then (LONG_MIN, true)
    else (v, false)
  }

  /** Reading past the printed digits of n continues with n accumulated. */
  lemma {:induction false} ReadsDigits(n: nat, rest: string)
    ensures ReadDigits(Digits(n) + rest, 0) == ReadDigits(rest, n)
  {
    var last := [DigitChar(n % 10)];
    if n < 10 {
      assert (last + rest)[1..] == rest;
    } else {
      assert Digits(n) + rest == Digits(n / 10) + (last + rest);
      ReadsDigits(n / 10, last + rest);
      assert (last + rest)[1..] == rest;
      assert ReadDigits(last + rest, n / 10) == ReadDigits(rest, 10 * (n / 10) + n % 10);
    }
  }

  lemma DigitsInFront(v: nat, rest: string)
    requires rest == "" || !IsDigit(rest[0])
    ensures var t := Digits(v) + rest; IsDigit(t[0]) && SkipSpace(t) == t && ReadDigits(t, 0) == v
  {
    var t := Digits(v) + rest;
    assert t[0] == Digits(v)[0];
    ReadsDigits(v, rest);
  }

  /** strtol reads back every int that printf printed, whatever non-digit follows it. */
  lemma StrtolReadsDecimal(v: int, rest: string)
    requires LONG_MIN <= v <= LONG_MAX
    requires rest == "" || !IsDigit(rest[0])
    ensures Strtol(Decimal(v) + rest) == (v, false)
  {
    var n: nat := if v < 0 then -v else v;
    DigitsInFront(n, rest);
    hide Digits, ReadDigits;
    if v < 0 {
      var t := "-" + Digits(n) + rest;
      assert Decimal(v) + rest == t && t[0] == '-' && t[1..] == Digits(n) + rest && SkipSpace(t) == t;
    } else {
      assert Decimal(v) + rest == Digits(n) + rest;
    }
  }

  /** Blanks in front are skipped. */
  lemma StrtolSkips(blank: char, v: nat, rest: string)
    requires blank == ' ' || blank == '\t'
    requires v <= LONG_MAX && (rest == "" || !IsDigit(rest[0]))
    ensures Strtol([blank] + (Digits(v) + rest)) == (v, false)
  {
    DigitsInFront(v, rest);
    hide Digits, ReadDigits;
    var s := [blank] + (Digits(v) + rest);
    assert s[1..] == Digits(v) + rest;
  }

  /** A plus sign is allowed. */
  lemma StrtolPlus(v: nat, rest: string)
    requires v <= LONG_MAX && (rest == "" || !IsDigit(rest[0]))
    ensures Strtol("+" + (Digits(v) + rest)) == (v, false)
  {
    DigitsInFront(v, rest);
    hide Digits, ReadDigits;
    var s := "+" + (Digits(v) + rest);
    assert s[1..] == Digits(v) + rest && SkipSpace(s) == s;
  }

  /** Numbers beyond a long stop at its ends, and that is an overflow. */
  lemma StrtolOverflows(n: nat, rest: string)
    requires n > LONG_MAX && (rest == "" || !IsDigit(rest[0]))
    ensures Strtol(Digits(n) + rest) == (0x7FFF_FFFF_FFFF_FFFF, true)
    ensures n > 0x8000_0000_0000_0000 ==> Strtol("-" + Digits(n) + rest) == (-0x8000_0000_0000_0000, true)
  {
    DigitsInFront(n, rest);
    hide Digits, ReadDigits;
    var m := "-" + Digits(n) + rest;
    assert m[1..] == Digits(n) + rest && SkipSpace(m) == m;
  }

  /** A text without a number counts as 0. */
  lemma StrtolOfText(text: string)
    requires text == "" || !(IsSpace(text[0]) || text[0] == '-' || text[0] == '+' || IsDigit(text[0]))
    ensures Strtol(text) == (0, false)
  {
  }

  /** An int of n digits or fewer prints at most n digits. */
  lemma {:induction false} DigitsLength(n: nat, k: nat)
    requires 1 <= k && n < Pow10(k)
    ensures |Digits(n)| <= k
  {
    if n >= 10 {
      DigitsLength(n / 10, k - 1);
    }
  }

  function Pow10(k: nat): nat {
    if k == 0 then 1 else 10 * Pow10(k - 1)
  }

  lemma DecimalLength(v: int)
    requires -0x8000_0000 <= v <= INT_MAX
    ensures 1 <= |Decimal(v)| <= 11
  {
    assert Pow10(10) == 100_0000_0000 by {
      assert Pow10(5) == 10_0000;
    }
    DigitsLength(if v < 0 then -v else v, 10);
  }
}
