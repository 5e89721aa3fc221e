/** Numbers as big-endian digit strings, and the change of base that keeps leading zeros
    apart from the number. Base58 and Base59 are this function in both directions. */
module Radix {
  import opened Numbers

  predicate Below(s: seq<byte>, base: nat) {
    forall i :: 0 <= i < |s| ==> s[i] < base
  }

  lemma {:induction false} BEConcat(s: seq<byte>, t: seq<byte>, base: nat)
    ensures BE(s + t, base) == BE(s, base) * Pow(base, |t|) + BE(t, base)
  {
    if t == [] {
      assert s + t == s;
    } else {
      var t', x := t[..|t| - 1], t[|t| - 1];
      BEConcat(s, t', base);
      assert (s + t)[..|s + t| - 1] == s + t';
      HornerShift(BE(s, base), Pow(base, |t'|), BE(t', base), base);
    }
  }

  lemma HornerShift(v: nat, p: nat, w: nat, base: nat)
    ensures (v * p + w) * base == v * (base * p) + w * base
  {
    MulAssoc(v, base, p);
    MulAssoc(v, p, base);
  }

  lemma BEPush(s: seq<byte>, x: byte, base: nat)
    ensures BE(s + [x], base) == BE(s, base) * base + x
  {
    assert (s + [x])[..|s|] == s;
  }

  lemma BEHead(s: seq<byte>, base: nat)
    requires s != []
    ensures BE(s, base) == s[0] * Pow(base, |s| - 1) + BE(s[1..], base)
  {
    assert s == [s[0]] + s[1..];
    BEConcat([s[0]], s[1..], base);
    assert [s[0]][..0] == [];
    assert BE([s[0]], base) == s[0];
  }

  lemma {:induction false} BEBound(s: seq<byte>, base: nat)
    requires Below(s, base)
    ensures BE(s, base) < Pow(base, |s|)
  {
    if s == [] {
    } else {
      var t := s[..|s| - 1];
      BEBound(t, base);
      HornerBound(BE(t, base), s[|s| - 1], Pow(base, |t|), base);
    }
  }

  lemma HornerBound(v: nat, x: nat, p: nat, base: nat)
    requires v < p && x < base
    ensures v * base + x < base * p
  {
    MulMonotone(v + 1, p, base);
    assert (v + 1) * base == v * base + base;
  }

  lemma {:induction false} BEZeros(s: seq<byte>, base: nat)
    requires forall i :: 0 <= i < |s| ==> s[i] == 0
    ensures BE(s, base) == 0
  {
    if s == [] {
    } else {
      BEZeros(s[..|s| - 1], base);
    }
  }

  function Zeros(n: nat): (s: seq<byte>)
    ensures |s| == n && forall i :: 0 <= i < n ==> s[i] == 0
  {
    seq(n, i => 0)
  }

  function LeadingZeros(s: seq<byte>): (n: nat)
    ensures n <= |s| && (n < |s| ==> s[n] != 0)
    ensures forall i :: 0 <= i < n ==> s[i] == 0
  {
    if s == [] || s[0] != 0 then 0 else 1 + LeadingZeros(s[1..])
  }

  lemma LeadingZerosAtLeast(s: seq<byte>, n: nat)
    requires n <= |s| && forall i :: 0 <= i < n ==> s[i] == 0
    ensures LeadingZeros(s) >= n
  {
  }

  lemma LeadingZerosUnique(s: seq<byte>, n: nat)
    requires n <= |s| && (n < |s| ==> s[n] != 0)
    requires forall i :: 0 <= i < n ==> s[i] == 0
    ensures LeadingZeros(s) == n
  {
  }

  /** The digits of `n`, most significant first, without leading zeros. */
  function Digits(n: nat, base: nat): (s: seq<byte>)
    requires 2 <= base <= 256
    ensures Below(s, base)
    decreases n
  {
    if n == 0 then [] else
    DivLess(n, base);
    Digits(n / base, base) + [n % base]
  }

  lemma DivLess(n: nat, base: nat)
    requires n > 0 && base >= 2
    ensures 0 <= n / base < n && 0 <= n % base < base && n == n / base * base + n % base
  {
    var q := n / base;
    assert n == q * base + n % base;
    if q >= n {
      MulMonotone(n, q, base);
      MulMonotone(2, base, n);
    } else if q < 0 {
      MulMonotone(q, -1, base);
    }
  }

  lemma {:induction false} DigitsValue(n: nat, base: nat)
    requires 2 <= base <= 256
    ensures BE(Digits(n, base), base) == n
    ensures if n == 0 then Digits(n, base) == [] else Digits(n, base) != [] && Digits(n, base)[0] != 0
    decreases n
  {
    if n == 0 {
    } else {
      DivLess(n, base);
      var q, r := n / base, n % base;
      DigitsValue(q, base);
      DigitsPush(n, q, r, base);
    }
  }

  lemma DigitsPush(n: nat, q: nat, r: byte, base: nat)
    requires 2 <= base <= 256 && n > 0 && r < base && n == q * base + r
    ensures Digits(n, base) == Digits(q, base) + [r]
    ensures BE(Digits(q, base), base) == q ==> BE(Digits(n, base), base) == n
    ensures q == 0 ==> Digits(n, base) == [r] && r != 0
  {
    DivModUnique(n, base, q, r);
    hide BE;
    BEPush(Digits(q, base), r, base);
  }

  /** Digits without a leading zero are the digits of the number they stand for. */
  lemma {:induction false} DigitsUnique(s: seq<byte>, base: nat)
    requires 2 <= base <= 256 && Below(s, base) && (s != [] ==> s[0] != 0)
    ensures s == Digits(BE(s, base), base)
    decreases |s|
  {
    if s == [] {
    } else {
      var t, x := s[..|s| - 1], s[|s| - 1];
      DigitsUnique(t, base);
      assert s == t + [x];
      BEPush(t, x, base);
      if t != [] {
        DigitsNonZero(t, base);
        MulMonotone(1, BE(t, base), base);
      }
      DigitsPush(BE(s, base), BE(t, base), x, base);
    }
  }

  lemma DigitsNonZero(t: seq<byte>, base: nat)
    requires 2 <= base <= 256 && t != [] && t == Digits(BE(t, base), base)
    ensures BE(t, base) > 0
  {
  }

  /** A larger number has at least as many digits. */
  lemma DigitsMonotone(v: nat, w: nat, base: nat)
    requires 2 <= base <= 256 && v <= w
    ensures |Digits(v, base)| <= |Digits(w, base)|
  {
    hide BE, Digits, Pow;
    DigitsValue(v, base);
    DigitsValue(w, base);
    var a, b := Digits(v, base), Digits(w, base);
    if |a| > |b| {
      BEHead(a, base);
      MulMonotone(1, a[0], Pow(base, |a| - 1));
      BEBound(b, base);
      PowMonotone(base, |b|, |a| - 1);
    }
  }

  lemma DigitsAtMost(v: nat, base: nat, n: nat)
    requires 2 <= base <= 256 && v < Pow(base, n)
    ensures |Digits(v, base)| <= n
  {
    hide BE, Digits, Pow;
    DigitsValue(v, base);
    var ds := Digits(v, base);
    if |ds| > n {
      BEHead(ds, base);
      MulMonotone(1, ds[0], Pow(base, |ds| - 1));
      PowMonotone(base, n, |ds| - 1);
    }
  }

  /** More digits to the right make a number larger. */
  lemma BEGrows(s: seq<byte>, t: seq<byte>, base: nat)
    requires base > 0
    ensures BE(s, base) <= BE(s + t, base)
  {
    hide BE, Pow;
    BEConcat(s, t, base);
    MulMonotone(1, Pow(base, |t|), BE(s, base));
  }

  /** Leading zeros do not count. */
  lemma StripZeros(s: seq<byte>, base: nat, n: nat)
    requires n <= |s| && forall i :: 0 <= i < n ==> s[i] == 0
    ensures BE(s, base) == BE(s[n..], base)
  {
    assert s == s[..n] + s[n..];
    BEConcat(s[..n], s[n..], base);
    BEZeros(s[..n], base);
  }

  /** The digits in the other base, behind as many zeros as there were. */
  function Reradix(s: seq<byte>, from: nat, to: nat): (r: seq<byte>)
    requires 2 <= to <= 256
    ensures Below(r, to)
  {
    Zeros(LeadingZeros(s)) + Digits(BE(s, from), to)
  }

  /** Changing the base back gives the same digits, leading zeros included. */
  lemma ReradixInverse(s: seq<byte>, from: nat, to: nat)
    requires 2 <= from <= 256 && 2 <= to <= 256 && Below(s, from)
    ensures Reradix(Reradix(s, from, to), to, from) == s
  {
    hide BE, Digits, LeadingZeros;
    var z, v := LeadingZeros(s), BE(s, from);
    var r := Reradix(s, from, to);
    DigitsValue(v, to);
    StripZeros(r, to, z);
    assert r[z..] == Digits(v, to);
    LeadingZerosUnique(r, z);
    StripZeros(s, from, z);
    DigitsUnique(s[z..], from);
    assert s == Zeros(z) + s[z..];
  }

  // ---- Buffer sizes ----

  lemma {:induction false} PowPow(a: nat, n: nat, k: nat)
    ensures n * k >= 0 && Pow(Pow(a, n), k) == Pow(a, n * k)
  {
    if k == 0 {
    } else {
      PowPow(a, n, k - 1);
      PowAdd(a, n, n * (k - 1));
      assert n * k == n + n * (k - 1);
    }
  }

  lemma {:induction false} PowStrict(a: nat, b: nat, k: nat)
    requires a < b && k > 0
    ensures Pow(a, k) < Pow(b, k)
  {
    if k == 1 {
    } else {
      PowStrict(a, b, k - 1);
      MulMonotone(a, b, Pow(a, k - 1));
      MulStrict(b, Pow(a, k - 1), Pow(b, k - 1));
    }
  }

  lemma MulStrict(b: nat, x: nat, y: nat)
    requires b > 0 && x < y
    ensures b * x < b * y
  {
  }

  /** If a^q <= b^p then n digits of base a fit in m digits of base b as soon as
      p/q <= m/n. */
  lemma DigitsFit(a: nat, b: nat, p: nat, q: nat, n: nat, m: nat)
    requires a > 0 && b > 0 && q > 0 && Pow(a, q) <= Pow(b, p) && p * n <= q * m
    ensures Pow(a, n) <= Pow(b, m)
  {
    hide Pow;
    PowPow(a, n, q);
    PowPow(a, q, n);
    PowPow(b, p, n);
    PowPow(b, m, q);
    assert n * q == q * n && m * q == q * m;
    PowMonotoneBase(Pow(a, q), Pow(b, p), n);
    PowMonotone(b, p * n, m * q);
    if Pow(a, n) > Pow(b, m) {
      PowStrict(Pow(b, m), Pow(a, n), q);
    }
  }

  lemma {:induction false} PowMonotoneBase(a: nat, b: nat, k: nat)
    requires a <= b
    ensures Pow(a, k) <= Pow(b, k)
  {
    if a < b && k > 0 {
      PowStrict(a, b, k);
    }
  }
}
