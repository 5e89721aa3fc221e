/** Shifts of a byte string: what every byte of `<<=` and `>>=` holds after each loop
    step, and what the finished bytes mean for the integer. */
module ByteShifts {
  import opened Numbers
  import opened Word256

  /** (x << s) without the bits that leave the byte, and the bits that leave it. */
  function LowPart(x: byte, s: nat): (r: byte)
    requires s < 8
  {
    x * Pow(2, s) % 256
  }

  /** Both halves of a byte cut at `q`, where p * q == 256. */
  lemma CutByte(y: byte, rest: nat, p: nat, q: nat)
    requires p > 0 && q > 0 && p * q == 256 && rest % 256 == y
    ensures rest % q == y % q && y * p % 256 == (y % q) * p
  {
    var k := rest / 256;
    assert rest == y + (k * p) * q by { MulAssoc(k, p, q); }
    ModShift(y, k * p, q);
    SplitProduct(y, p, q);
  }

  lemma SplitProduct(y: byte, p: nat, q: nat)
    requires p > 0 && q > 0 && p * q == 256
    ensures y * p % 256 == (y % q) * p
  {
    var a, b := y / q, y % q;
    assert y == a * q + b;
    assert y * p == a * 256 + b * p by { MulAssoc(a, q, p); }
    MulMonotone(b, q - 1, p);
    DivModUnique(y * p, 256, a, b * p);
  }

  lemma PartsOfByte(x: byte, p: nat, q: nat)
    requires p > 0 && q > 0 && p * q == 256
    ensures x * p == x * p % 256 + 256 * (x / q) && x / q < p
  {
    CutByte(x, x, p, q);
    var h, l := x / q, x % q;
    assert x == h * q + l;
    assert (h * q + l) * p == h * 256 + l * p by { MulAssoc(h, q, p); }
    if h >= p {
      MulMonotone(p, h, q);
    }
  }

  function HighPart(x: byte, s: nat): (r: nat)
    requires s < 8
    ensures r < Pow(2, s)
    ensures x * Pow(2, s) == LowPart(x, s) + 256 * r
  {
    Pow2Bytes();
    PowAdd(2, s, 8 - s);
    PartsOfByte(x, Pow(2, s), Pow(2, 8 - s));
    x / Pow(2, 8 - s)
  }

  /** Byte `m` of `a << s` for a shift inside the byte. */
  function ShiftBitsByte(a: seq<byte>, s: nat, m: nat): nat
    requires s < 8 && m < |a|
  {
    LowPart(a[m], s) + if m > 0 then HighPart(a[m - 1], s) else 0
  }

  /** The bytes below `m` of `a << s`, plus the bits about to be carried into byte
      `m`, are the shifted prefix. */
  lemma {:induction false} ShiftBitsPrefix(a: seq<byte>, t: seq<byte>, s: nat, m: nat)
    requires s < 8 && m <= |t| <= |a|
    requires forall i :: 0 <= i < |t| ==> t[i] == ShiftBitsByte(a, s, i)
    ensures Nat(t[..m]) + (if m > 0 then HighPart(a[m - 1], s) else 0) * Pow(256, m)
         == Nat(a[..m]) * Pow(2, s)
  {
    if m == 0 {
    } else {
      ShiftBitsPrefix(a, t, s, m - 1);
      NatPrefix(t, m - 1);
      NatPrefix(a, m - 1);
      var h := if m > 1 then HighPart(a[m - 2], s) else 0;
      ShiftBitsStep(Nat(a[..m - 1]), a[m - 1], Pow(2, s), Pow(256, m - 1),
                    Nat(t[..m - 1]), h, LowPart(a[m - 1], s), HighPart(a[m - 1], s));
    }
  }

  lemma ShiftBitsStep(a: int, x: int, q: int, p: int, t: int, h: int, low: int, high: int)
    requires t + h * p == a * q && x * q == low + 256 * high
    ensures t + p * (low + h) + high * (256 * p) == (a + p * x) * q
  {
    assert (a + p * x) * q == a * q + p * (x * q) by { MulAssoc(p, x, q); }
    assert p * (low + 256 * high) == p * low + high * (256 * p);
  }

  /** Byte `m` of `a << (8k + s)`. */
  function ShiftLeftByte(a: seq<byte>, k: nat, s: nat, m: nat): nat
    requires s < 8 && m < |a|
  {
    (if m >= k then LowPart(a[m - k], s) else 0)
    + (if m >= k + 1 then HighPart(a[m - k - 1], s) else 0)
  }

  lemma ShiftLeftOut(a: seq<byte>, r: seq<byte>, k: nat, s: nat) returns (carry: nat)
    requires s < 8 && |r| == |a| == SIZE < k
    requires forall i :: 0 <= i < |a| ==> r[i] == ShiftLeftByte(a, k, s, i)
    ensures Nat(r) + carry * Modulus() == Nat(a) * (Pow(256, k) * Pow(2, s))
  {
    hide Pow, Nat, HighPart, LowPart;
    NatZero(r);
    PowAdd(256, SIZE, k - SIZE);
    carry := Nat(a) * (Pow(256, k - SIZE) * Pow(2, s));
    ShiftOutAll(Nat(a), Pow(256, SIZE), Pow(256, k - SIZE), Pow(2, s));
  }

  lemma ShiftLeftBytes(a: seq<byte>, r: seq<byte>, k: nat, s: nat)
    requires s < 8 && |r| == |a| && k <= |a|
    requires forall i :: 0 <= i < |a| ==> r[i] == ShiftLeftByte(a, k, s, i)
    ensures Nat(r) == Pow(256, k) * Nat(r[k..])
    ensures forall i :: 0 <= i < |a| - k ==> r[k..][i] == ShiftBitsByte(a, s, i)
  {
    hide LowPart, HighPart;
    NatSplit(r, k);
    NatZero(r[..k]);
    forall i | 0 <= i < |a| - k
      ensures r[k..][i] == ShiftBitsByte(a, s, i)
    {
      assert r[k..][i] == r[k + i];
    }
  }

  lemma ShiftLeftIn(a: seq<byte>, r: seq<byte>, k: nat, s: nat) returns (carry: nat)
    requires s < 8 && |r| == |a| == SIZE && k <= SIZE
    requires forall i :: 0 <= i < |a| ==> r[i] == ShiftLeftByte(a, k, s, i)
    ensures Nat(r) + carry * Modulus() == Nat(a) * (Pow(256, k) * Pow(2, s))
  {
    hide Pow, Nat, LowPart, HighPart, ShiftBitsByte, ShiftLeftByte;
    var n, t := SIZE - k, r[k..];
    ShiftLeftBytes(a, r, k, s);
    ShiftBitsPrefix(a, t, s, n);
    assert t[..n] == t;
    NatSplit(a, n);
    PowAdd(256, n, k);
    var h := if n > 0 then HighPart(a[n - 1], s) else 0;
    carry := h + Nat(a[n..]) * Pow(2, s);
    ShiftLeftSplit(Nat(a[..n]), Nat(a[n..]), Pow(256, n), Pow(256, k), Pow(2, s), Nat(t), h);
  }

  /** Shifting left multiplies by 2^(8k + s), modulo 2^256. */
  lemma ShiftLeftValue(a: seq<byte>, r: seq<byte>, k: nat, s: nat)
    requires s < 8 && |r| == |a| == SIZE
    requires forall i :: 0 <= i < |a| ==> r[i] == ShiftLeftByte(a, k, s, i)
    ensures Nat(r) == Wrap(Nat(a) * Pow(2, 8 * k + s))
  {
    hide *;
    Pow256IsPow2(k);
    PowAdd(2, 8 * k, s);
    var carry;
    if k > SIZE {
      carry := ShiftLeftOut(a, r, k, s);
    } else {
      carry := ShiftLeftIn(a, r, k, s);
    }
    DropCarry(r, carry, Nat(a) * Pow(2, 8 * k + s));
  }

  lemma ShiftOutAll(a: int, m: int, p: int, q: int)
    ensures a * ((m * p) * q) == (a * (p * q)) * m
  {
    MulAssoc(m, p, q);
    MulAssoc(a, p * q, m);
  }

  lemma ShiftLeftSplit(low: int, high: int, pn: int, pk: int, q: int, t: int, h: int)
    requires t + h * pn == low * q
    ensures (low + pn * high) * (pk * q) == pk * t + (h + high * q) * (pn * pk)
  {
    assert (low + pn * high) * (pk * q) == low * (pk * q) + (pn * high) * (pk * q);
    assert low * (pk * q) == pk * (low * q) by { MulAssoc(pk, low, q); MulAssoc(low, pk, q); }
    assert pk * (t + h * pn) == pk * t + h * (pn * pk) by { MulAssoc(h, pn, pk); }
    assert (pn * high) * (pk * q) == (high * q) * (pn * pk) by {
      MulAssoc(pn * high, pk, q);
      MulAssoc(high * q, pn, pk);
    }
    assert (h + high * q) * (pn * pk) == h * (pn * pk) + (high * q) * (pn * pk);
  }

  /** x >> s. */
  function HighBits(x: nat, s: nat): (r: nat)
    ensures r <= x
  {
    DivShrinks(x, Pow(2, s));
    x / Pow(2, s)
  }

  /** Byte `m` of `a >> (8k + s)`: its own high bits below the low bits of the next byte. */
  function ShiftRightByte(a: seq<byte>, k: nat, s: nat, m: nat): nat
    requires s < 8
  {
    (if m + k < |a| then HighBits(a[m + k], s) else 0)
    + (if m + k + 1 < |a| && s != 0 then LowPart(a[m + k + 1], 8 - s) else 0)
  }

  lemma ShiftRightArith(x: nat, rest: nat, y: byte, p: nat, q: nat)
    requires p > 0 && q > 0 && p * q == 256 && rest % 256 == y
    ensures (x + 256 * rest) / q == x / q + y * p % 256 + 256 * (rest / q)
  {
    CutByte(y, rest, p, q);
    var c, z := rest / q, y % q;
    var d := x / q + z * p + 256 * c;
    assert d * q == (x / q) * q + z * 256 + 256 * (c * q) by {
      MulAssoc(z, p, q);
      MulAssoc(256, c, q);
    }
    assert rest == c * q + z && x == (x / q) * q + x % q;
    DivModUnique(x + 256 * rest, q, d, x % q);
  }

  lemma ShiftRightCons(x: byte, rest: nat, s: nat, next: byte)
    requires s < 8 && next == rest % 256
    ensures HighBits(x + 256 * rest, s)
         == HighBits(x, s) + (if s != 0 then LowPart(next, 8 - s) else 0) + 256 * HighBits(rest, s)
  {
    if s == 0 {
    } else {
      PowAdd(2, 8 - s, s);
      Pow2Bytes();
      ShiftRightArith(x, rest, next, Pow(2, 8 - s), Pow(2, s));
    }
  }

  lemma ShiftZero(s: nat)
    ensures HighBits(0, s) == 0
    ensures s < 8 ==> LowPart(0, s) == 0
  {
    DivModUnique(0, Pow(2, s), 0, 0);
  }

  /** `a >> s` for a shift inside the byte, from any byte on. */
  lemma {:induction false} ShiftRightSuffix(a: seq<byte>, r: seq<byte>, s: nat, m: nat)
    requires s < 8 && m <= |r| == |a|
    requires forall i :: m <= i < |a| ==> r[i] == ShiftRightByte(a, 0, s, i)
    ensures Nat(r[m..]) == HighBits(Nat(a[m..]), s)
    decreases |a| - m
  {
    hide HighBits, LowPart;
    ShiftZero(s);
    if m == |a| {
    } else {
      ShiftRightSuffix(a, r, s, m + 1);
      var rest, rs := a[m + 1..], r[m + 1..];
      assert r[m..][1..] == rs && a[m..][1..] == rest;
      if s != 0 {
        ShiftZero(8 - s);
      }
      var next := if m + 1 < |a| then a[m + 1] else 0;
      assert Nat(rest) % 256 == next by { if m + 1 < |a| { assert rest[0] == next; } }
      ShiftRightCons(a[m], Nat(rest), s, next);
    }
  }

  lemma ShiftRightBytes(a: seq<byte>, r: seq<byte>, k: nat, s: nat)
    requires s < 8 && |r| == |a|
    requires forall i :: 0 <= i < |a| ==> r[i] == ShiftRightByte(a, k, s, i)
    ensures Nat(r) == HighBits(if k <= |a| then Nat(a[k..]) else 0, s)
  {
    hide Nat, Pow, HighBits, LowPart;
    ShiftZero(s);
    if k >= |a| {
      NatZero(r);
      if k == |a| {
        NatZero(a[k..]);
      }
    } else {
      var b := a[k..];
      var t := r[..|b|];
      ShiftRightSuffix(b, t, s, 0);
      NatSplit(r, |b|);
      NatZero(r[|b|..]);
      assert t[0..] == t && b[0..] == b;
    }
  }

  /** Dropping the low bytes of a number divides it. */
  lemma DropBytes(a: seq<byte>, k: nat)
    ensures Nat(a) / Pow(256, k) == if k <= |a| then Nat(a[k..]) else 0
  {
    hide Pow, Nat;
    if k <= |a| {
      NatSplit(a, k);
      NatBound(a[..k]);
      DivModUnique(Nat(a), Pow(256, k), Nat(a[k..]), Nat(a[..k]));
    } else {
      NatBound(a);
      PowMonotone(256, |a|, k);
      DivModUnique(Nat(a), Pow(256, k), 0, Nat(a));
    }
  }

  /** Shifting right divides by 2^(8k + s). */
  lemma ShiftRightValue(a: seq<byte>, r: seq<byte>, k: nat, s: nat)
    requires s < 8 && |r| == |a|
    requires forall i :: 0 <= i < |a| ==> r[i] == ShiftRightByte(a, k, s, i)
    ensures Nat(r) == Nat(a) / Pow(2, 8 * k + s)
  {
    hide Pow, Nat, ShiftRightByte;
    ShiftRightBytes(a, r, k, s);
    DropBytes(a, k);
    Pow256IsPow2(k);
    PowAdd(2, 8 * k, s);
    DivDiv(Nat(a), Pow(256, k), Pow(2, s));
  }

  // ---- The loops of `<<=` and `>>=`, byte by byte ----

  /** The bytes of `a << (8k + s)` once the first `i` bytes of `a` have been placed. */
  function PartlyShiftedLeft(a: seq<byte>, k: nat, s: nat, i: nat, m: nat): nat
    requires s < 8 && m < |a|
  {
    (if k <= m < i + k then LowPart(a[m - k], s) else 0)
    + (if k + 1 <= m < i + k + 1 then HighPart(a[m - k - 1], s) else 0)
  }

  /** The bytes of `a >> (8k + s)` once the first `i` bytes of `a` have been placed. */
  function PartlyShiftedRight(a: seq<byte>, k: nat, s: nat, i: nat, m: nat): nat
    requires s < 8 && i <= |a|
  {
    (if m + k < i then HighBits(a[m + k], s) else 0)
    + (if m + k + 1 < i && s != 0 then LowPart(a[m + k + 1], 8 - s) else 0)
  }

  ghost predicate PartlyLeft(d: seq<byte>, a: seq<byte>, k: nat, s: nat, i: nat)
    requires s < 8 && |d| == |a|
  {
    forall m :: 0 <= m < |a| ==> d[m] == PartlyShiftedLeft(a, k, s, i, m)
  }

  ghost predicate PartlyRight(d: seq<byte>, a: seq<byte>, k: nat, s: nat, i: nat)
    requires s < 8 && |d| == |a| && i <= |a|
  {
    forall m :: 0 <= m < |a| ==> d[m] == PartlyShiftedRight(a, k, s, i, m)
  }

  lemma ShiftedZero(d: seq<byte>, a: seq<byte>, k: nat, s: nat)
    requires s < 8 && |d| == |a| && forall m :: 0 <= m < |d| ==> d[m] == 0
    ensures PartlyLeft(d, a, k, s, 0) && PartlyRight(d, a, k, s, 0)
  {
  }

  lemma ShiftLeftOrs(d: seq<byte>, a: seq<byte>, k: nat, s: nat, i: nat)
    requires s < 8 && |d| == |a| && i < |a| && PartlyLeft(d, a, k, s, i)
    ensures i + k + 1 < |a| ==> BitOr(d[i + k + 1], HighPart(a[i], s)) == HighPart(a[i], s) < 256
    ensures i + k + 1 < |a| ==> d[i + k + 1] == 0
    ensures i + k < |a| ==> BitOr(d[i + k], LowPart(a[i], s)) == d[i + k] + LowPart(a[i], s) < 256
  {
    hide Pow, BitOr, LowPart, HighPart;
    OrPartsIntoZero(a[i], s);
    if i + k + 1 < |a| {
      assert d[i + k + 1] == PartlyShiftedLeft(a, k, s, i, i + k + 1) == 0;
    }
    if i + k < |a| {
      assert d[i + k] == PartlyShiftedLeft(a, k, s, i, i + k);
      if i > 0 {
        OrParts(a[i - 1], a[i], s);
      }
    }
  }

  lemma ShiftLeftNext(d: seq<byte>, d': seq<byte>, a: seq<byte>, k: nat, s: nat, i: nat)
    requires s < 8 && |d'| == |d| == |a| && i < |a| && PartlyLeft(d, a, k, s, i)
    requires i + k < |a| ==> d'[i + k] == d[i + k] + LowPart(a[i], s)
    requires i + k + 1 < |a| ==> d[i + k + 1] == 0 && d'[i + k + 1] == (if s != 0 then HighPart(a[i], s) else 0)
    requires forall m :: 0 <= m < |a| && m != i + k && m != i + k + 1 ==> d'[m] == d[m]
    ensures PartlyLeft(d', a, k, s, i + 1)
  {
    hide Pow, LowPart, HighPart;
    OrPartsIntoZero(a[i], s);
    forall m | 0 <= m < |a|
      ensures d'[m] == PartlyShiftedLeft(a, k, s, i + 1, m)
    {
      assert d[m] == PartlyShiftedLeft(a, k, s, i, m);
    }
  }

  lemma ShiftLeftDone(a: seq<byte>, r: seq<byte>, k: nat, s: nat)
    requires s < 8 && |r| == |a| == SIZE && PartlyLeft(r, a, k, s, SIZE)
    ensures Nat(r) == Wrap(Nat(a) * Pow(2, 8 * k + s))
  {
    hide Pow, Nat, LowPart, HighPart, Modulus, Wrap;
    forall m | 0 <= m < |a|
      ensures r[m] == ShiftLeftByte(a, k, s, m)
    {
      assert r[m] == PartlyShiftedLeft(a, k, s, SIZE, m);
    }
    ShiftLeftValue(a, r, k, s);
  }

  lemma ShiftRightOrs(d: seq<byte>, a: seq<byte>, k: nat, s: nat, i: nat)
    requires s < 8 && |d| == |a| && i < |a| && PartlyRight(d, a, k, s, i)
    ensures i - k - 1 >= 0 && s != 0 ==>
      BitOr(d[i - k - 1], LowPart(a[i], 8 - s)) == d[i - k - 1] + LowPart(a[i], 8 - s) < 256
    ensures i - k >= 0 ==> d[i - k] == 0 && BitOr(d[i - k], HighBits(a[i], s)) == HighBits(a[i], s)
  {
    hide Pow, BitOr, LowPart, HighBits;
    OrIntoZero(HighBits(a[i], s));
    if i - k >= 0 {
      assert d[i - k] == PartlyShiftedRight(a, k, s, i, i - k) == 0;
    }
    if i - k - 1 >= 0 {
      assert d[i - k - 1] == PartlyShiftedRight(a, k, s, i, i - k - 1);
      if s != 0 {
        OrPartsRight(a[i - 1], a[i], s);
      }
    }
  }

  lemma ShiftRightNext(d: seq<byte>, d': seq<byte>, a: seq<byte>, k: nat, s: nat, i: nat)
    requires s < 8 && |d'| == |d| == |a| && i < |a| && PartlyRight(d, a, k, s, i)
    requires i - k >= 0 ==> d[i - k] == 0 && d'[i - k] == HighBits(a[i], s)
    requires i - k - 1 >= 0 ==> d'[i - k - 1] == d[i - k - 1] + if s != 0 then LowPart(a[i], 8 - s) else 0
    requires forall m :: 0 <= m < |a| && m != i - k && m != i - k - 1 ==> d'[m] == d[m]
    ensures PartlyRight(d', a, k, s, i + 1)
  {
    hide Pow, LowPart, HighBits;
    forall m | 0 <= m < |a|
      ensures d'[m] == PartlyShiftedRight(a, k, s, i + 1, m)
    {
      assert d[m] == PartlyShiftedRight(a, k, s, i, m);
    }
  }

  lemma ShiftRightDone(a: seq<byte>, r: seq<byte>, k: nat, s: nat)
    requires s < 8 && |r| == |a| && PartlyRight(r, a, k, s, |a|)
    ensures Nat(r) == Nat(a) / Pow(2, 8 * k + s)
  {
    hide Pow, Nat, LowPart, HighBits;
    forall m | 0 <= m < |a|
      ensures r[m] == ShiftRightByte(a, k, s, m)
    {
      assert r[m] == PartlyShiftedRight(a, k, s, |a|, m);
    }
    ShiftRightValue(a, r, k, s);
  }

  lemma OrIntoZero(y: nat)
    ensures BitOr(0, y) == y
  {
  }

  /** The bits pushed out of one byte and the bits that stay in the next never meet. */
  lemma LowPartIsMultiple(y: byte, s: nat)
    requires s < 8
    ensures LowPart(y, s) == (y % Pow(2, 8 - s)) * Pow(2, s) <= 256 - Pow(2, s)
  {
    var p, q := Pow(2, s), Pow(2, 8 - s);
    PowAdd(2, s, 8 - s);
    Pow2Bytes();
    CutByte(y, y, p, q);
    MulMonotone(y % q, q - 1, p);
    assert (q - 1) * p == q * p - p;
  }

  lemma OrParts(x: byte, y: byte, s: nat)
    requires s < 8
    ensures BitOr(HighPart(x, s), LowPart(y, s)) == HighPart(x, s) + LowPart(y, s) < 256
  {
    hide HighPart, LowPart, BitOr, Pow;
    LowPartIsMultiple(y, s);
    BitOrDisjoint(HighPart(x, s), y % Pow(2, 8 - s), s);
  }

  lemma OrPartsIntoZero(y: byte, s: nat)
    requires s < 8
    ensures BitOr(0, LowPart(y, s)) == LowPart(y, s)
    ensures BitOr(0, HighPart(y, s)) == HighPart(y, s) < 256
    ensures s == 0 ==> HighPart(y, s) == 0
  {
    Pow2Bytes();
    PowMonotone(2, s, 7);
  }

  lemma OrPartsRight(x: byte, y: byte, s: nat)
    requires 0 < s < 8
    ensures BitOr(HighBits(x, s), LowPart(y, 8 - s)) == HighBits(x, s) + LowPart(y, 8 - s) < 256
  {
    OrParts(x, y, 8 - s);
  }
}
