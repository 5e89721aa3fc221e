/** Decimal strings of naturals. */
module Decimals {
  import opened Numbers
  import opened Word256

  function Digit(d: nat): char
    requires d < 10
  {
    ('0' as int + d) as char
  }

  /** The usual decimal notation: no leading zeros, "0" for zero. */
  function Decimal(n: nat): (s: string)
    ensures s != [] && (n > 0 ==> s[0] != '0')
  {
    if n < 10 then [Digit(n)] else Decimal(n / 10) + [Digit(n % 10)]
  }

  /** `sym - '0'` as the 64-bit operand of `+=`; a symbol below '0' wraps. */
  function SymbolValue(c: char): (v: nat)
    ensures v < UINT64
  {
    (c as int - '0' as int) % UINT64
  }

  /** The parser's accumulator after `s`, modulo 2^256. */
  function Parsed(s: string): (v: nat)
    ensures v < Modulus()
  {
    if s == [] then 0
    else Wrap(Wrap(Parsed(s[..|s| - 1]) * 10) + SymbolValue(s[|s| - 1]))
  }

  lemma ParsePush(s: string, v: nat, d: nat)
    requires Parsed(s) == v && d < 10 && v * 10 + d < Modulus()
    ensures Parsed(s + [Digit(d)]) == v * 10 + d
  {
    hide Modulus, Wrap;
    var t := s + [Digit(d)];
    assert t[..|t| - 1] == s;
    WrapIsExact(v * 10);
    WrapIsExact(v * 10 + d);
    SymbolOfDigit(d);
  }

  lemma SymbolOfDigit(d: nat)
    requires d < 10
    ensures SymbolValue(Digit(d)) == d
  {
  }

  /** Parsing the decimal notation of a 256-bit number gives the number. */
  lemma {:induction false} ParseDecimal(n: nat)
    requires n < Modulus()
    ensures Parsed(Decimal(n)) == n
  {
    hide Modulus, Wrap, Parsed;
    if n < 10 {
      ParseEmpty();
      ParsePush([], 0, n);
      assert Decimal(n) == [] + [Digit(n)];
    } else {
      ParseDecimal(n / 10);
      ParsePush(Decimal(n / 10), n / 10, n % 10);
    }
  }

  lemma ParseEmpty()
    ensures Parsed([]) == 0
  {
  }

  /** Different numbers have different decimal notations. */
  lemma DecimalInjective(a: nat, b: nat)
    requires a < Modulus() && b < Modulus() && Decimal(a) == Decimal(b)
    ensures a == b
  {
    ParseDecimal(a);
    ParseDecimal(b);
  }

  lemma PrintStart(total: string)
    ensures total + Reversed("") == total
  {
  }

  /** One turn of the printing loop: the digits already out follow the digits to come. */
  lemma PrintStep(total: string, v: nat, out: string)
    requires total == Decimal(v) + Reversed(out)
    ensures v / 10 > 0 ==> total == Decimal(v / 10) + Reversed(out + [Digit(v % 10)])
    ensures v / 10 == 0 ==> total == Reversed(out + [Digit(v % 10)])
  {
    ReversedPush(out, Digit(v % 10));
  }
}
