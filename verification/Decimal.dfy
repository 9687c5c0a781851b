/** Integers printed as "%lld" prints them and read back as `atoll` reads them. */
module Decimal {

  predicate IsDigit(c: char) { '0' <= c <= '9' }

  predicate AllDigits(s: string) { forall i :: 0 <= i < |s| ==> IsDigit(s[i]) }

  function DigitChar(d: nat): (c: char)
    requires d < 10
    ensures IsDigit(c)
  {
    '0' + d as char
  }

  function PrintNat(n: nat): (s: string)
    ensures s != "" && AllDigits(s)
  {
    if n < 10 then [DigitChar(n)] else PrintNat(n / 10) + [DigitChar(n % 10)]
  }

  function PrintInt(v: int): string {
    if v < 0 then "-" + PrintNat(-v) else PrintNat(v)
  }

  /** The value of the digits s starts with, after `acc`. */
  function DigitsValue(s: string, acc: nat): nat {
    if s != "" && IsDigit(s[0]) then DigitsValue(s[1..], 10 * acc + (s[0] - '0') as nat) else acc
  }

  predicate IsBlank(c: char) { c == ' ' || '\t' <= c <= '\r' }

  /** Leading blanks, a sign, digits; whatever follows is ignored and nothing at all is zero. */
  function ReadInt(s: string): int {
    if s != "" && IsBlank(s[0]) then ReadInt(s[1..])
    else if s != "" && s[0] == '-' then -(DigitsValue(s[1..], 0) as int)
    else if s != "" && s[0] == '+' then DigitsValue(s[1..], 0)
    else DigitsValue(s, 0)
  }

  lemma {:induction false} DigitsAppend(a: string, b: string, acc: nat)
    requires AllDigits(a)
    ensures DigitsValue(a + b, acc) == DigitsValue(b, DigitsValue(a, acc))
  {
    if a == "" {
      assert a + b == b;
    } else {
      assert (a + b)[1..] == a[1..] + b;
      DigitsAppend(a[1..], b, 10 * acc + (a[0] - '0') as nat);
    }
  }

  lemma {:induction false} PrintNatValue(n: nat)
    ensures DigitsValue(PrintNat(n), 0) == n
  {
    if n >= 10 {
      PrintNatValue(n / 10);
      var last := [DigitChar(n % 10)];
      DigitsAppend(PrintNat(n / 10), last, 0);
      assert last[1..] == "";
      assert DigitsValue(last, n / 10) == 10 * (n / 10) + n % 10;
    } else {
      assert [DigitChar(n)][1..] == "";
    }
  }

  lemma ReadPrinted(v: int)
    ensures ReadInt(PrintInt(v)) == v
  {
    if v < 0 {
      assert PrintInt(v)[1..] == PrintNat(-v);
      PrintNatValue(-v);
    } else {
      assert IsDigit(PrintNat(v)[0]);
      PrintNatValue(v);
    }
  }

  /** Digits are those of the decimal system, the highest first. */
  lemma DecimalDigits(n: nat, s: string, c: char)
    ensures n < 10 ==> PrintNat(n) == [('0' as int + n) as char]
    ensures n >= 10 ==> PrintNat(n) == PrintNat(n / 10) + [('0' as int + n % 10) as char]
    ensures AllDigits(s) && IsDigit(c) ==> DigitsValue(s + [c], 0) == 10 * DigitsValue(s, 0) + (c as int - '0' as int)
  {
    if AllDigits(s) && IsDigit(c) {
      DigitsAppend(s, [c], 0);
      assert [c][1..] == "";
    }
  }

  predicate Blank(c: char) {
    c == ' ' || c == '\t' || c == '\n' || c == '\U{b}' || c == '\U{c}' || c == '\r'
  }

  /** atoll passes over blanks in front. */
  lemma {:induction false} BlanksRead(blanks: string, s: string)
    requires forall c :: c in blanks ==> Blank(c)
    ensures ReadInt(blanks + s) == ReadInt(s)
  {
    if blanks == "" {
      assert blanks + s == s;
    } else {
      var t := blanks + s;
      assert t[0] == blanks[0] && Blank(blanks[0]) && IsBlank(t[0]);
      assert t[1..] == blanks[1..] + s;
      BlanksRead(blanks[1..], s);
    }
  }

  /** It takes a sign and the digits after it, and ignores what follows them. */
  lemma AtollReads(digits: string, rest: string)
    requires AllDigits(digits) && (rest == "" || !IsDigit(rest[0]))
    ensures ReadInt("+" + (digits + rest)) == DigitsValue(digits, 0)
    ensures ReadInt("-" + (digits + rest)) == -(DigitsValue(digits, 0) as int)
    ensures digits != "" ==> ReadInt(digits + rest) == DigitsValue(digits, 0)
  {
    var s := digits + rest;
    DigitsAppend(digits, rest, 0);
    assert ("+" + s)[1..] == s && ("-" + s)[1..] == s;
    if digits != "" { assert s[0] == digits[0] && IsDigit(digits[0]); }
  }

  function Power10(k: nat): nat { if k == 0 then 1 else 10 * Power10(k - 1) }

  lemma {:induction false} PrintNatLength(n: nat, k: nat)
    requires k > 0 && n < Power10(k)
    ensures |PrintNat(n)| <= k
  {
    if n >= 10 { PrintNatLength(n / 10, k - 1); }
  }
}
