/** Go's decimal printer and parser, `strconv.Itoa` and `strconv.Atoi`, on 64-bit integers. */
module Decimal {
  import opened Wrappers

  const MIN_INT: int := -0x8000_0000_0000_0000
  const MAX_INT: int := 0x7fff_ffff_ffff_ffff

  predicate IsDigit(c: char) {
    '0' <= c <= '9'
  }

  predicate AllDigits(s: string) {
    forall i :: 0 <= i < |s| ==> IsDigit(s[i])
  }

  function DigitChar(d: nat): char
    requires d < 10
  {
    ('0' as int + d) as char
  }

  /** The decimal digits of a natural number, most significant first. */
  function Digits(n: nat): (s: string)
    ensures s != "" && AllDigits(s)
  {
    if n < 10 then [DigitChar(n)] else Digits(n / 10) + [DigitChar(n % 10)]
  }

  /** `strconv.Itoa`. */
  function Itoa(n: int): string {
    if n < 0 then "-" + Digits(-n) else Digits(n)
  }

  /** The number that a string of digits denotes. */
  function Value(s: string): nat
    requires AllDigits(s)
  {
    if s == "" then 0
    else 10 * Value(s[..|s| - 1]) + (s[|s| - 1] as int - '0' as int)
  }

  /** `strconv.Atoi`: an optional sign, then at least one digit and nothing else, within 64 bits. */
  function Atoi(s: string): Option<int> {
    var signed := s != "" && (s[0] == '-' || s[0] == '+');
    var digits := if signed then s[1..] else s;
    if digits == "" || !AllDigits(digits) then None
    else
      var magnitude: int := Value(digits);
      var n := if signed && s[0] == '-' then -magnitude else magnitude;
      if MIN_INT <= n <= MAX_INT then Some(n) else None
  }

  lemma {:induction false} DigitsDenote(n: nat)
    ensures Value(Digits(n)) == n
  {
    var s := Digits(n);
    if n < 10 {
      assert s[..|s| - 1] == "";
    } else {
      DigitsDenote(n / 10);
      assert s[..|s| - 1] == Digits(n / 10);
    }
  }

  /** Parsing what was printed gives the number back, exactly for the numbers a Go `int` can hold. */
  lemma AtoiInvertsItoa(n: int)
    ensures Atoi(Itoa(n)) == Some(n) <==> MIN_INT <= n <= MAX_INT
  {
    var digits := Digits(if n < 0 then -n else n);
    DigitsDenote(if n < 0 then -n else n);
    assert IsDigit(digits[0]);
    if n < 0 {
      assert Itoa(n)[1..] == digits;
    }
  }

  /** Distinct integers print differently; no width bound is needed. */
  lemma ItoaInjective(m: int, n: int)
    requires Itoa(m) == Itoa(n)
    ensures m == n
  {
    if m < 0 {
      assert Itoa(m)[1..] == Digits(-m);
      DigitsDenote(-m);
    } else {
      assert IsDigit(Digits(m)[0]);
      DigitsDenote(m);
    }
    if n < 0 {
      assert Itoa(n)[1..] == Digits(-n);
      DigitsDenote(-n);
    } else {
      assert IsDigit(Digits(n)[0]);
      DigitsDenote(n);
    }
  }

  /** A printed integer holds nothing but digits and a leading minus sign. */
  lemma ItoaAlphabet(n: int, c: char)
    requires c in Itoa(n)
    ensures IsDigit(c) || c == '-'
  {
  }

  /** The number that decimal digits denote, each weighed by its place. */
  function Weigh(s: string): int {
    if s == "" then 0 else (s[0] as int - 48) * Pow10(|s| - 1) + Weigh(s[1..])
  }

  /** A decimal name of a 64-bit integer: an optional sign and decimal digits. */
  ghost predicate Denotes(name: string, n: int) {
    && -9_223_372_036_854_775_808 <= n <= 9_223_372_036_854_775_807
    && exists sign, digits :: IsSigned(name, sign, digits) && n == Signed(sign, digits)
  }

  ghost predicate IsSigned(name: string, sign: string, digits: string) {
    && sign in {"", "+", "-"} && name == sign + digits
    && digits != "" && forall i :: 0 <= i < |digits| ==> '0' <= digits[i] <= '9'
  }

  lemma {:induction false} WeighLast(s: string)
    requires s != ""
    ensures Weigh(s) == 10 * Weigh(s[..|s| - 1]) + (s[|s| - 1] as int - 48)
  {
    var n := |s| - 1;
    if n == 0 {
      assert s[1..] == "" && s[..0] == "";
    } else {
      WeighLast(s[1..]);
      assert s[1..][..n - 1] == s[..n][1..];
    }
  }

  lemma {:induction false} ValueWeighs(s: string)
    requires AllDigits(s)
    ensures Value(s) == Weigh(s)
  {
    if s != "" {
      ValueWeighs(s[..|s| - 1]);
      WeighLast(s);
    }
  }

  function Signed(sign: string, digits: string): int {
    if sign == "-" then -Weigh(digits) else Weigh(digits)
  }

  lemma SignRead(name: string, sign: string, digits: string)
    requires IsSigned(name, sign, digits)
    ensures sign == "" ==> name == digits && name[0] != '-' && name[0] != '+'
    ensures sign != "" ==> name[0] == sign[0] && name[1..] == digits
  {
    assert '0' <= digits[0] <= '9';
  }

  lemma AtoiDigits(name: string)
    requires name != "" && AllDigits(name)
    ensures Atoi(name) == if Value(name) <= MAX_INT then Some(Value(name)) else None
  {
    assert IsDigit(name[0]);
  }

  lemma AtoiAfterSign(name: string)
    requires name != "" && name[0] in {'+', '-'} && name[1..] != "" && AllDigits(name[1..])
    ensures var n: int := if name[0] == '-' then -(Value(name[1..]) as int) else Value(name[1..]);
            Atoi(name) == if MIN_INT <= n <= MAX_INT then Some(n) else None
  {
  }

  lemma AtoiSigned(name: string, sign: string, digits: string)
    requires IsSigned(name, sign, digits)
    ensures Atoi(name) == if MIN_INT <= Signed(sign, digits) <= MAX_INT then Some(Signed(sign, digits)) else None
  {
    SignRead(name, sign, digits);
    ValueWeighs(digits);
    if sign == "" {
      AtoiDigits(name);
    } else {
      AtoiAfterSign(name);
      assert sign == "-" <==> sign[0] == '-';
    }
  }

  lemma SomeSign(name: string) returns (sign: string, digits: string)
    requires Atoi(name).Some?
    ensures IsSigned(name, sign, digits)
  {
    if name[0] == '-' || name[0] == '+' {
      sign, digits := [name[0]], name[1..];
    } else {
      sign, digits := "", name;
    }
    assert name == sign + digits;
    assert forall i :: 0 <= i < |digits| ==> IsDigit(digits[i]);
  }

  /** Parsing accepts exactly the decimal names, for the integers that they denote. */
  lemma AtoiIff(name: string, n: int)
    ensures Atoi(name) == Some(n) <==> Denotes(name, n)
  {
    if Atoi(name) == Some(n) {
      var sign, digits := SomeSign(name);
      AtoiSigned(name, sign, digits);
    }
    if Denotes(name, n) {
      var sign, digits :| IsSigned(name, sign, digits) && n == Signed(sign, digits);
      AtoiSigned(name, sign, digits);
    }
  }

  /** Printing yields the shortest decimal name: a minus sign for negative numbers, no plus sign, no leading zero. */
  lemma ItoaIs(n: int)
    ensures n >= 0 ==> IsSigned(Itoa(n), "", Itoa(n)) && Weigh(Itoa(n)) == n
    ensures n < 0 ==> IsSigned(Itoa(n), "-", Itoa(n)[1..]) && Weigh(Itoa(n)[1..]) == -n
    ensures n != 0 ==> Itoa(n)[0] != '0' && (n < 0 ==> Itoa(n)[1] != '0')
  {
    var m := if n < 0 then -n else n;
    DigitsDenote(m);
    ValueWeighs(Digits(m));
    NoLeadingZero(m);
    if n < 0 {
      assert Itoa(n)[1..] == Digits(m);
    }
  }

  lemma {:induction false} NoLeadingZero(n: nat)
    ensures n > 0 ==> Digits(n)[0] != '0'
  {
    if n >= 10 {
      NoLeadingZero(n / 10);
    }
  }

  function Pow10(k: nat): (p: nat)
    ensures p >= 1
  {
    if k == 0 then 1 else 10 * Pow10(k - 1)
  }

  /** A number below ten times the k-th power of ten has at most k + 1 digits. */
  lemma {:induction false} DigitsLength(n: nat, k: nat)
    requires n < 10 * Pow10(k)
    ensures |Digits(n)| <= k + 1
  {
    if n >= 10 && k > 0 {
      DigitsLength(n / 10, k - 1);
    }
  }

  /** A length that a Go `int` can hold prints in at most nineteen characters. */
  lemma IntLength(n: nat)
    requires n <= MAX_INT
    ensures |Itoa(n)| <= 19
  {
    assert Pow10(6) == 1_000_000;
    assert Pow10(12) == 1_000_000 * Pow10(6);
    assert Pow10(18) == 1_000_000 * Pow10(12);
    DigitsLength(n, 18);
  }
}
