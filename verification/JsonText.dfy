/**
 * Characters and numbers as the JSON code of firmware/lib/json uses them:
 * isspace, isdigit, decimal printing, and strtoll and strtoull in base 0.
 */
module JsonText {

  const NUL: char := '\0'
  const BACKSPACE: char := '\U{08}'
  const FORM_FEED: char := '\U{0C}'

  predicate IsSpace(c: char) {
    c == ' ' || '\t' <= c <= '\r'
  }

  predicate IsDigit(c: char) {
    '0' <= c <= '9'
  }

  // ------------------------------------------------------------------ printing

  function DigitChar(d: nat): (c: char)
    requires d < 10
    ensures IsDigit(c) && DigitValue(c) == d
  {
    ('0' as int + d) as char
  }

  /** The value of a digit of base 16 or below; other characters have value 16. */
  function DigitValue(c: char): (d: nat)
    ensures d < 10 <==> IsDigit(c)
  {
    if '0' <= c <= '9' then c as int - '0' as int
    else if 'a' <= c <= 'f' then c as int - 'a' as int + 10
    else if 'A' <= c <= 'F' then c as int - 'A' as int + 10
    else 16
  }

  /** %llu */
  function Digits(n: nat): (s: string)
    ensures |s| > 0 && forall k :: 0 <= k < |s| ==> IsDigit(s[k])
  {
    if n < 10 then [DigitChar(n)] else Digits(n / 10) + [DigitChar(n % 10)]
  }

  /** %lld */
  function Printed(i: int): string {
    if i < 0 then "-" + Digits(-i) else Digits(i)
  }

  // ------------------------------------------------------------------- parsing

  datatype Parsed = Parsed(value: int, used: nat)

  /** The longest run of digits of a base, after what has been read already. */
  function Run(s: string, base: nat, read: nat): (p: Parsed)
    ensures p.value >= 0 && p.used <= |s|
  {
    if s != [] && DigitValue(s[0]) < base then
      var more := Run(s[1..], base, read * base + DigitValue(s[0]));
      Parsed(more.value, more.used + 1)
    else Parsed(read, 0)
  }

  /** The digits behind the sign: hexadecimal after 0x, octal after 0, else decimal. */
  function Unsigned(s: string): (p: Parsed)
    ensures p.used <= |s|
  {
    if |s| >= 3 && s[0] == '0' && s[1] in {'x', 'X'} && DigitValue(s[2]) < 16 then
      var run := Run(s[2..], 16, 0);
      Parsed(run.value, run.used + 2)
    else if s != [] && s[0] == '0' then Run(s, 8, 0)
    else Run(s, 10, 0)
  }

  function Signed(s: string): (p: Parsed)
    ensures p.used <= |s|
  {
    if s != [] && s[0] in {'-', '+'} then
      var rest := Unsigned(s[1..]);
      if rest.used == 0 then Parsed(0, 0)
      else Parsed(if s[0] == '-' then -rest.value else rest.value, rest.used + 1)
    else Unsigned(s)
  }

  /** A number as strtoll finds it, leading white space included; used == 0 if there is none. */
  function Number(s: string): (p: Parsed)
    ensures p.used <= |s|
  {
    if s != [] && IsSpace(s[0]) then
      var rest := Number(s[1..]);
      if rest.used == 0 then rest else Parsed(rest.value, rest.used + 1)
    else Signed(s)
  }

  const INT64_MAX: int := 0x7fff_ffff_ffff_ffff
  const UINT64_MAX: int := 0xffff_ffff_ffff_ffff

  function StrToLl(s: string): (p: Parsed)
    ensures p.used <= |s|
  {
    var n := Number(s);
    Parsed(if n.value > INT64_MAX then INT64_MAX
           else if n.value < -INT64_MAX - 1 then -INT64_MAX - 1
           else n.value, n.used)
  }

  function StrToUll(s: string): (p: Parsed)
    ensures p.used <= |s|
  {
    var n := Number(s);
    Parsed(if n.value > UINT64_MAX || n.value < -UINT64_MAX then UINT64_MAX
           else if n.value < 0 then n.value + UINT64_MAX + 1
           else n.value, n.used)
  }

  // ---------------------------------------------------------------- round trips

  /** What may follow a printed number without being taken for part of it. */
  predicate Ends(rest: string) {
    rest == [] || (DigitValue(rest[0]) == 16 && rest[0] != 'x' && rest[0] != 'X')
  }

  lemma {:induction false} RunOverDigits(p: string, rest: string, read: nat)
    requires forall k :: 0 <= k < |p| ==> IsDigit(p[k])
    ensures var all := Run(p + rest, 10, read);
            var more := Run(rest, 10, Run(p, 10, read).value);
            && all.value == more.value && all.used == |p| + more.used
  {
    if p == [] {
      assert p + rest == rest;
    } else {
      assert (p + rest)[1..] == p[1..] + rest;
      RunOverDigits(p[1..], rest, read * 10 + DigitValue(p[0]));
    }
  }

  lemma {:induction false} RunOfDigits(n: nat)
    ensures Run(Digits(n), 10, 0) == Parsed(n, |Digits(n)|)
  {
    if n >= 10 {
      RunOfDigits(n / 10);
      RunOverDigits(Digits(n / 10), [DigitChar(n % 10)], 0);
    }
  }

  lemma {:induction false} LeadingDigit(n: nat)
    requires n > 0
    ensures Digits(n)[0] != '0'
  {
    if n >= 10 {
      LeadingDigit(n / 10);
    }
  }

  lemma {:induction false} UnsignedPrinted(n: nat, rest: string)
    requires Ends(rest)
    ensures Unsigned(Digits(n) + rest) == Parsed(n, |Digits(n)|)
  {
    var s := Digits(n) + rest;
    assert s[0] == Digits(n)[0];
    if n == 0 {
      assert Digits(0) == ['0'];
      assert s[0] == '0' && s[1..] == rest;
      assert rest != [] ==> s[1] == rest[0];
      assert Run(rest, 8, 0) == Parsed(0, 0);
    } else {
      LeadingDigit(n);
      RunOfDigits(n);
      RunOverDigits(Digits(n), rest, 0);
    }
  }

  /** A printed number is read back, up to its end. */
  lemma {:induction false} NumberPrinted(i: int, rest: string)
    requires Ends(rest)
    ensures Number(Printed(i) + rest) == Parsed(i, |Printed(i)|)
  {
    hide Unsigned, Digits;
    if i < 0 {
      assert (Printed(i) + rest)[0] == '-' && (Printed(i) + rest)[1..] == Digits(-i) + rest;
      UnsignedPrinted(-i, rest);
    } else {
      assert IsDigit((Printed(i) + rest)[0]);
      UnsignedPrinted(i, rest);
    }
  }

  lemma StrToLlPrinted(i: int, rest: string)
    requires Ends(rest) && -INT64_MAX - 1 <= i <= INT64_MAX
    ensures StrToLl(Printed(i) + rest) == Parsed(i, |Printed(i)|)
  {
    NumberPrinted(i, rest);
  }

  lemma {:induction false} StrToUllPrinted(n: nat, rest: string)
    requires Ends(rest) && n <= UINT64_MAX
    ensures StrToUll(Digits(n) + rest) == Parsed(n, |Digits(n)|)
  {
    NumberPrinted(n, rest);
  }

  /** A 64-bit number takes at most 20 characters. */
  lemma {:induction false} DigitsAreFew(n: nat, k: nat)
    requires n < Power(k) && k > 0
    ensures |Digits(n)| <= k
  {
    if n >= 10 {
      DigitsAreFew(n / 10, k - 1);
    }
  }

  function Power(k: nat): nat {
    if k == 0 then 1 else 10 * Power(k - 1)
  }

  lemma TwentyDigits()
    ensures UINT64_MAX < Power(20)
  {
    var k := 15;
    assert Power(5) == 100000;
    assert Power(10) == 10_000_000_000;
    assert Power(15) == 1_000_000_000_000_000;
  }

  lemma PrintedIsShort(i: int)
    requires -INT64_MAX - 1 <= i <= UINT64_MAX
    ensures 0 < |Printed(i)| <= 21
  {
    TwentyDigits();
    DigitsAreFew(if i < 0 then -i else i, 20);
  }
}
