/** 256-bit numbers as 32 bytes: what dropped carries, inverted bytes and single set
    bits mean for the integer that the bytes stand for. */
module Word256 {
  import opened Numbers

  const SIZE := 32
  const UINT32 := 0x1_0000_0000
  const UINT64 := 0x1_0000_0000_0000_0000

  /** 2^256. */
  function Modulus(): (m: nat)
    ensures m > 0
  {
    Pow(256, SIZE)
  }

  /** Arithmetic keeps the low 256 bits. */
  function Wrap(x: int): (r: nat)
    ensures r < Modulus()
  {
    x % Modulus()
  }

  lemma ModulusValue()
    ensures Modulus() == 0x1_0000000000000000_0000000000000000_0000000000000000_0000000000000000
  {
    assert Pow(256, 4) == 0x1_0000_0000;
    PowAdd(256, 4, 4);
    PowAdd(256, 8, 8);
    PowAdd(256, 16, 16);
  }

  lemma WrapIsExact(x: int)
    requires 0 <= x < Modulus()
    ensures Wrap(x) == x
  {
    DivModUnique(x, Modulus(), 0, x);
  }

  /** Adding a wrapped number is adding the number. */
  lemma WrapAdd(x: int, y: int)
    ensures Wrap(x + Wrap(y)) == Wrap(x + y)
  {
    var m := Modulus();
    ModShift(x + y % m, y / m, m);
    assert y == y / m * m + y % m;
  }

  lemma WrapNegate(x: nat)
    requires x < Modulus()
    ensures Wrap(Modulus() - 1 - x + 1) == Wrap(-1 * x)
  {
    ModShift(-1 * x, 1, Modulus());
  }

  lemma ModulusIsPow256()
    ensures Modulus() == Pow(256, SIZE)
  {
  }

  lemma ModulusIsPow2()
    ensures Modulus() == Pow(2, 256)
  {
    Pow256IsPow2(SIZE);
  }

  /** What `+=` leaves, once the last carry has been dropped. */
  lemma DropCarry(r: seq<byte>, carry: nat, x: nat)
    requires |r| == SIZE && Nat(r) + carry * Modulus() == x
    ensures Nat(r) == Wrap(x)
  {
    NatBound(r);
    DivModUnique(x, Modulus(), carry, Nat(r));
  }

  // ---- Complement and single bits ----

  /** Inverting every bit of every byte is subtracting from all ones. */
  lemma {:induction false} ComplementValue(a: seq<byte>, r: seq<byte>)
    requires |r| == |a| && forall i :: 0 <= i < |a| ==> r[i] == 255 - a[i]
    ensures Nat(r) == Pow(256, |a|) - 1 - Nat(a)
  {
    if a == [] {
    } else {
      ComplementValue(a[1..], r[1..]);
    }
  }

  /** No bit below bit `n` is set. */
  ghost predicate ClearBelow(a: seq<byte>, n: nat) {
    (forall i :: 0 <= i < |a| && i < n / 8 ==> a[i] == 0)
    && (n / 8 < |a| ==> a[n / 8] % Pow(2, n % 8) == 0)
  }

  lemma SetBitArith(x: byte, p: nat, c: nat)
    requires p > 0 && c * (2 * p) == 256 && x % (2 * p) == 0
    ensures x == x / (2 * p) * (2 * p)
    ensures x + p < 256 && (x + p) % p == 0
  {
    var h := x / (2 * p);
    assert x == h * (2 * p);
    if h >= c {
      MulMonotone(c, h, 2 * p);
      assert false;
    }
    MulMonotone(h, c - 1, 2 * p);
    assert (c - 1) * (2 * p) == 256 - 2 * p;
    assert (2 * h + 1) * p == h * (2 * p) + p by { MulAssoc(h, 2, p); }
    DivModUnique(x + p, p, 2 * h + 1, 0);
  }

  lemma SetBitInByte(x: byte, n: nat)
    requires n < 8 && x % Pow(2, n + 1) == 0
    ensures BitOr(x, Pow(2, n)) == x + Pow(2, n) < 256
    ensures (x + Pow(2, n)) % Pow(2, n) == 0
  {
    var p := Pow(2, n);
    PowAdd(2, 7 - n, n + 1);
    Pow2Bytes();
    SetBitArith(x, p, Pow(2, 7 - n));
    BitOrDisjoint(p, x / (2 * p), n + 1);
  }

  /** Setting a bit under which everything is clear adds its power of two. */
  lemma SetBit(a: seq<byte>, n: nat)
    requires n / 8 < |a| && ClearBelow(a, n + 1)
    ensures BitOr(a[n / 8], Pow(2, n % 8)) < 256
    ensures var r := a[n / 8 := BitOr(a[n / 8], Pow(2, n % 8))];
            Nat(r) == Nat(a) + Pow(2, n) && ClearBelow(r, n)
  {
    hide Pow, BitOr, Nat;
    var k, b := n / 8, n % 8;
    assert a[k] % Pow(2, b + 1) == 0 by {
      if b == 7 {
        Pow2Bytes();
        DivModUnique(0, 256, 0, 0);
      }
    }
    SetBitInByte(a[k], b);
    NatUpdate(a, k, a[k] + Pow(2, b));
    Pow256IsPow2(k);
    PowAdd(2, 8 * k, b);
  }

  lemma ModHalf(x: nat, p: nat)
    requires p > 0 && x % (2 * p) == 0
    ensures x % p == 0
  {
    var h := x / (2 * p);
    assert x == h * (2 * p);
    MulAssoc(h, 2, p);
    DivModUnique(x, p, 2 * h, 0);
  }

  lemma ClearBelowMore(a: seq<byte>, n: nat)
    requires ClearBelow(a, n + 1)
    ensures ClearBelow(a, n)
  {
    var k, b := n / 8, n % 8;
    if k < |a| {
      if b == 7 {
        DivModUnique(0, Pow(2, b), 0, 0);
      } else {
        ModHalf(a[k], Pow(2, b));
      }
    }
  }

  /** The highest bit that can still be set, looked at one by one. */
  lemma HighestBit(x: nat, n: nat)
    requires x < Pow(2, n + 1)
    ensures Bit(x, n) <==> x >= Pow(2, n)
  {
    var p := Pow(2, n);
    if x >= p {
      DivModUnique(x, p, 1, x - p);
    } else {
      DivModUnique(x, p, 0, x);
    }
  }

  /** `r` is the number of binary digits of `x`. */
  ghost predicate IsBitLength(x: nat, r: nat) {
    x < Pow(2, r) && (r > 0 ==> Pow(2, r - 1) <= x)
  }

  lemma TopByteBounds(low: nat, p: nat, top: nat, q: nat, q': nat)
    requires low < p && q <= top < q'
    ensures p * q <= low + p * top < p * q'
  {
    MulMonotone(q, top, p);
    MulMonotone(top + 1, q', p);
    assert (top + 1) * p == p * top + p;
  }

  /** A number whose bytes above `k` are zero. */
  lemma TopByte(a: seq<byte>, k: nat)
    requires k < |a| && forall i :: k < i < |a| ==> a[i] == 0
    ensures Nat(a) == Nat(a[..k]) + Pow(256, k) * a[k] && Nat(a[..k]) < Pow(256, k)
  {
    hide Pow, Nat;
    NatSplit(a, k + 1);
    NatZero(a[k + 1..]);
    NatPrefix(a, k);
    NatBound(a[..k]);
  }

  /** The bit length is read off the highest non-zero byte. */
  lemma BitLengthOfBytes(a: seq<byte>, k: nat, n: nat)
    requires k < |a| && Pow(2, n) <= a[k] < Pow(2, n + 1)
    requires forall i :: k < i < |a| ==> a[i] == 0
    ensures IsBitLength(Nat(a), 8 * k + n + 1)
  {
    hide Pow, Nat;
    TopByte(a, k);
    TopByteBounds(Nat(a[..k]), Pow(256, k), a[k], Pow(2, n), Pow(2, n + 1));
    Pow256IsPow2(k);
    PowAdd(2, 8 * k, n);
    PowAdd(2, 8 * k, n + 1);
  }

  // ---- Carries ----

  /** `x` with a run of 255s and then one byte increased. */
  lemma {:induction false} IncrementValue(x: seq<byte>, r: seq<byte>, i: nat)
    requires |r| == |x| && i <= |x|
    requires forall j :: 0 <= j < i ==> x[j] == 255 && r[j] == 0
    requires forall j :: i < j < |x| ==> r[j] == x[j]
    requires i < |x| ==> r[i] as int == x[i] as int + 1
    ensures Nat(r) == Nat(x) + 1 - if i == |x| then Pow(256, |x|) else 0
  {
    if x == [] {
    } else if i == 0 {
      assert r[1..] == x[1..];
    } else {
      IncrementValue(x[1..], r[1..], i - 1);
    }
  }

  lemma IncrementWraps(x: seq<byte>, r: seq<byte>, i: nat)
    requires |x| == |r| == SIZE && Nat(r) == Nat(x) + 1 - if i == SIZE then Modulus() else 0
    ensures Nat(r) == Wrap(Nat(x) + 1)
    ensures Nat(x) == Wrap(Nat(r) - 1)
  {
    hide Pow, Nat;
    NatBound(r);
    NatBound(x);
    WrapByOne(Nat(x), Nat(r), Modulus(), if i == SIZE then 1 else 0);
  }

  lemma WrapByOne(x: nat, r: nat, m: nat, wraps: nat)
    requires x < m && r < m && r == x + 1 - wraps * m
    ensures r == (x + 1) % m && x == (r - 1) % m
  {
    DivModUnique(x + 1, m, wraps, r);
    DivModUnique(r - 1, m, 0 - wraps, x);
  }

  lemma Low64Value(a: seq<byte>, b: nat)
    requires |a| == SIZE && b < UINT64
    requires forall j :: 0 <= j < 8 ==> a[j] == b / Pow(256, j) % 256
    requires forall j :: 8 <= j < SIZE ==> a[j] == 0
    ensures Nat(a) == b
  {
    var low := LittleEndian(b, 8);
    forall j | 0 <= j < 8
      ensures low[j] == a[j]
    {
      LittleEndianAt(b, 8, j);
    }
    assert a == low + a[8..];
    NatConcat(low, a[8..]);
    NatZero(a[8..]);
    LittleEndianValue(b, 8);
  }

  lemma AddStep(r: seq<byte>, x: seq<byte>, y: seq<byte>, i: nat, carry: nat, low: byte, carry': nat)
    requires i < |x| && i < |y| && |r| == i
    requires carry + x[i] + y[i] == low + 256 * carry'
    requires Nat(r) + carry * Pow(256, i) == Nat(x[..i]) + Nat(y[..i])
    ensures Nat(r + [low]) + carry' * Pow(256, i + 1) == Nat(x[..i + 1]) + Nat(y[..i + 1])
  {
    NatPush(r, low);
    NatPrefix(x, i);
    NatPrefix(y, i);
    hide Nat;
    AddArith(Pow(256, i), carry, x[i], y[i], low, carry');
  }

  lemma AddArith(p: nat, carry: nat, x: nat, y: nat, low: nat, carry': nat)
    requires carry + x + y == low + 256 * carry'
    ensures p * low + carry' * (256 * p) == carry * p + p * x + p * y
  {
    assert p * (low + 256 * carry') == p * low + carry' * (256 * p);
    assert p * (carry + x + y) == carry * p + p * x + p * y;
  }

  /** `r` is x[..i] * b in its low bytes; `carry` goes into byte `i`. */
  ghost predicate MulSoFar(r: seq<byte>, x: seq<byte>, i: nat, b: nat, carry: nat)
    requires i <= |r| == |x|
  {
    Nat(r[..i]) + carry * Pow(256, i) == Nat(x[..i]) * b
  }

  lemma MulStart(x: seq<byte>, b: nat)
    ensures MulSoFar(x, x, 0, b, 0)
  {
    NatZero(x[..0]);
  }

  /** The carry of a 32-bit product stays below 2^32, so no step overflows 64 bits. */
  lemma MulCarry(carry: nat, x: byte, b: nat)
    requires carry < UINT32 && b < UINT32
    ensures 0 <= b * x as int && carry + b * x as int < UINT64 && (carry + b * x as int) / 256 < UINT32
  {
    MulMonotone(x, 255, b);
  }

  lemma MulNext(r: seq<byte>, r': seq<byte>, x: seq<byte>, i: nat, b: nat, carry: nat, n: nat)
    requires i < |r| == |r'| == |x| && r[i] == x[i] && MulSoFar(r, x, i, b, carry)
    requires n == carry + b * x[i] as int && r' == r[i := n % 256]
    ensures MulSoFar(r', x, i + 1, b, n / 256)
  {
    hide Nat, Pow;
    NatPush(r[..i], n % 256);
    NatPrefix(x, i);
    assert Pow(256, i + 1) == 256 * Pow(256, i) by { PowAdd(256, 1, i); Pow256Is256(); }
    MulArith(Pow(256, i), carry, x[i], b, n % 256, n / 256, Nat(r[..i]), Nat(x[..i]));
    assert r'[..i + 1] == r[..i] + [(n % 256) as byte];
  }

  lemma MulDone(r: seq<byte>, x: seq<byte>, b: nat, carry: nat)
    requires |r| == |x| == SIZE && MulSoFar(r, x, SIZE, b, carry)
    ensures Nat(r) == Wrap(Nat(x) * b)
  {
    hide Nat, Pow, Modulus, Wrap;
    ModulusIsPow256();
    assert r[..SIZE] == r && x[..SIZE] == x;
    DropCarry(r, carry, Nat(x) * b);
  }

  lemma Pow256Is256()
    ensures Pow(256, 1) == 256
  {
  }

  lemma MulArith(p: nat, carry: nat, x: nat, b: nat, low: nat, carry': nat, r: nat, n: nat)
    requires carry + b * x == low + 256 * carry' && r + carry * p == n * b
    ensures r + p * low + carry' * (256 * p) == (n + p * x) * b
  {
    assert (n + p * x) * b == n * b + p * (b * x) by { MulAssoc(p, b, x); MulAssoc(p, x, b); }
    assert p * (low + 256 * carry') == p * low + carry' * (256 * p);
    assert p * (carry + b * x) == carry * p + p * (b * x);
  }

  /** `r` is `row` with d * y[..i] added in at byte `j`; `carry` goes into byte i + j. */
  ghost predicate RowSoFar(r: seq<byte>, row: seq<byte>, y: seq<byte>, i: nat, j: nat, d: nat, carry: nat)
    requires i <= |y| && i + j <= |row| && i + j <= |r|
  {
    Nat(r[..i + j]) + carry * Pow(256, i + j) == Nat(row[..i + j]) + Pow(256, j) * (d * Nat(y[..i]))
  }

  /** The first `j` rows of x * y, up to `dropped` multiples of 2^256. */
  ghost predicate ProductSoFar(a: seq<byte>, x: seq<byte>, y: seq<byte>, j: nat, dropped: nat)
    requires j <= |x|
  {
    Nat(a) + dropped * Modulus() == Nat(x[..j]) * Nat(y)
  }

  lemma ProductStart(a: seq<byte>, x: seq<byte>, y: seq<byte>)
    requires Nat(a) == 0
    ensures ProductSoFar(a, x, y, 0, 0)
  {
    NatZero(x[..0]);
  }

  lemma ProductDone(a: seq<byte>, x: seq<byte>, y: seq<byte>, dropped: nat)
    requires |a| == |x| == |y| == SIZE && ProductSoFar(a, x, y, SIZE, dropped)
    ensures Nat(a) == Wrap(Nat(x) * Nat(y))
  {
    hide Pow, Nat, Modulus, Wrap;
    assert x[..SIZE] == x;
    DropCarry(a, dropped, Nat(x) * Nat(y));
  }

  /** No step overflows 16 bits. */
  lemma RowCarry(carry: nat, r: byte, x: byte, y: byte)
    requires carry < 256
    ensures 0 <= x as int * y as int && carry + r as int + x as int * y as int < 0x1_0000
  {
    MulMonotone(x, 255, y);
  }

  lemma RowStart(row: seq<byte>, y: seq<byte>, j: nat, d: nat)
    requires j <= |row|
    ensures RowSoFar(row, row, y, 0, j, d, 0)
  {
    NatZero(y[..0]);
  }

  lemma RowNext(r: seq<byte>, r': seq<byte>, row: seq<byte>, y: seq<byte>, i: nat, j: nat, d: byte, carry: nat, n: nat)
    requires i < |y| && i + j < |row| == |r| == |r'| && r[i + j] == row[i + j]
    requires RowSoFar(r, row, y, i, j, d, carry)
    requires n == carry + r[i + j] as int + d as int * y[i] as int && r' == r[i + j := n % 256]
    ensures RowSoFar(r', row, y, i + 1, j, d, n / 256)
  {
    hide Nat, Pow;
    RowStep(row, r[..i + j], y, i, j, d, carry, n % 256, n / 256);
    assert r'[..i + j + 1] == r[..i + j] + [(n % 256) as byte];
  }

  /** One row of the schoolbook product: `row` has received the bytes of `d * y` below
      `i`, shifted by `j` bytes. */
  lemma RowStep(row0: seq<byte>, r: seq<byte>, y: seq<byte>, i: nat, j: nat, d: nat, carry: nat, low: byte, carry': nat)
    requires i < |y| && i + j < |row0| && |r| == i + j
    requires carry + row0[i + j] + d * y[i] == low + 256 * carry'
    requires Nat(r) + carry * Pow(256, i + j) == Nat(row0[..i + j]) + Pow(256, j) * (d * Nat(y[..i]))
    ensures Nat(r + [low]) + carry' * Pow(256, i + j + 1)
         == Nat(row0[..i + j + 1]) + Pow(256, j) * (d * Nat(y[..i + 1]))
  {
    NatPush(r, low);
    NatPrefix(row0, i + j);
    NatPrefix(y, i);
    PowAdd(256, j, i);
    assert Pow(256, i + j + 1) == 256 * Pow(256, i + j);
    hide Nat, Pow;
    RowArith(Pow(256, j), Pow(256, i), carry, row0[i + j], d, y[i], low, carry',
             Nat(r), Nat(row0[..i + j]), Nat(y[..i]));
  }

  lemma RowArith(pj: nat, pi: nat, carry: nat, x: nat, d: nat, y: nat, low: nat, carry': nat, r: nat, n: nat, m: nat)
    requires carry + x + d * y == low + 256 * carry'
    requires r + carry * (pj * pi) == n + pj * (d * m)
    ensures r + (pj * pi) * low + carry' * (256 * (pj * pi))
         == n + (pj * pi) * x + pj * (d * (m + pi * y))
  {
    var p := pj * pi;
    assert pj * (d * (m + pi * y)) == pj * (d * m) + p * (d * y) by {
      assert d * (m + pi * y) == d * m + pi * (d * y) by { MulAssoc(d, pi, y); MulAssoc(pi, d, y); }
      assert pj * (d * m + pi * (d * y)) == pj * (d * m) + pj * (pi * (d * y));
      MulAssoc(pj, pi, d * y);
    }
    assert p * (low + 256 * carry') == p * low + carry' * (256 * p);
    assert p * (carry + x + d * y) == carry * p + p * x + p * (d * y);
  }

  /** A finished row: only multiples of 2^256 have been dropped so far. */
  lemma RowDone(x: seq<byte>, y: seq<byte>, j: nat, row: seq<byte>, r: seq<byte>, carry: nat, k: nat) returns (k': nat)
    requires |x| == |y| == |row| == |r| == SIZE && j < SIZE
    requires ProductSoFar(row, x, y, j, k) && RowSoFar(r, row, y, SIZE - j, j, x[j], carry)
    ensures ProductSoFar(r, x, y, j + 1, k')
  {
    hide Pow, Nat, Modulus, Wrap;
    ModulusIsPow256();
    assert r[..SIZE] == r && row[..SIZE] == row;
    NatPrefix(x, j);
    NatSplit(y, SIZE - j);
    PowAdd(256, j, SIZE - j);
    k' := k + carry + x[j] * Nat(y[SIZE - j..]);
    RowDoneArith(Pow(256, j), Pow(256, SIZE - j), x[j], Nat(y[..SIZE - j]), Nat(y[SIZE - j..]),
                 Nat(x[..j]), Nat(row), Nat(r), carry, k);
  }

  lemma Distribute(a: int, b: int, c: int)
    ensures (a + b) * c == a * c + b * c && c * (a + b) == a * c + b * c
  {
  }

  lemma SwapFactors(pj: int, d: int, pr: int, hi: int)
    ensures (pr * hi) * (pj * d) == d * hi * (pj * pr)
  {
    MulAssoc(pr * hi, pj, d);
    MulAssoc(d * hi, pj, pr);
    var x := pr * hi;
    assert x * pj * d == d * (x * pj);
    MulAssoc(pr, hi, pj);
    assert hi * pj == pj * hi;
    MulAssoc(d, hi, pj);
    assert d * hi * pj * pr == d * (hi * pj) * pr;
    MulAssoc(d, hi * pj, pr);
  }

  lemma RowDoneArith(pj: nat, pr: nat, d: nat, lo: nat, hi: nat, xs: nat, row0: nat, row: nat, carry: nat, k: nat)
    requires row0 + k * (pj * pr) == xs * (lo + pr * hi)
    requires row + carry * (pj * pr) == row0 + pj * (d * lo)
    ensures row + (k + carry + d * hi) * (pj * pr) == (xs + pj * d) * (lo + pr * hi)
  {
    var m, a := pj * pr, pj * d;
    Distribute(xs, a, lo + pr * hi);
    Distribute(lo, pr * hi, a);
    MulAssoc(pj, d, lo);
    SwapFactors(pj, d, pr, hi);
    Distribute(k, carry, m);
    Distribute(k + carry, d * hi, m);
  }

  // ---- Comparison and division ----

  /** What lies below a digit weighs less than one step of the digit. */
  lemma LowerDigit(x: nat, y: nat, p: nat, low: nat)
    requires x < y && low < p
    ensures low + p * x < p * y
  {
    MulMonotone(x + 1, y, p);
  }

  /** The highest differing byte decides. */
  lemma CompareAt(a: seq<byte>, b: seq<byte>, i: nat)
    requires |a| == |b| && i < |a| && a[i] < b[i]
    requires forall j :: i < j < |a| ==> a[j] == b[j]
    ensures Nat(a) < Nat(b)
  {
    hide Pow, Nat;
    assert a[i + 1..] == b[i + 1..];
    NatSplit(a, i + 1);
    NatSplit(b, i + 1);
    NatPrefix(a, i);
    NatPrefix(b, i);
    NatBound(a[..i]);
    LowerDigit(a[i], b[i], Pow(256, i), Nat(a[..i]));
  }

  lemma ZeroBitLength()
    ensures IsBitLength(0, 0)
  {
  }

  lemma BitLengthFacts(x: nat, r: nat)
    requires IsBitLength(x, r)
    ensures r == 0 <==> x == 0
    ensures x < Pow(2, r) && (r > 0 ==> Pow(2, r - 1) <= x)
  {
  }

  lemma Low64(a: seq<byte>, p1: nat, p2: nat)
    requires |a| == SIZE
    requires p1 == a[0] as int + 0x100 * a[1] as int + 0x1_0000 * a[2] as int + 0x100_0000 * a[3] as int
    requires p2 == a[4] as int + 0x100 * a[5] as int + 0x1_0000 * a[6] as int + 0x100_0000 * a[7] as int
    ensures p1 + p2 * UINT32 == Nat(a) % UINT64
  {
    NatFour(a);
    NatFour(a[4..]);
    assert a[4..][4..] == a[8..];
    assert Nat(a) == p1 + UINT32 * (p2 + UINT32 * Nat(a[8..]));
    DivModUnique(Nat(a), UINT64, Nat(a[8..]), p1 + p2 * UINT32);
  }

  lemma NatFour(a: seq<byte>)
    requires |a| >= 4
    ensures Nat(a) == a[0] as int + 0x100 * a[1] as int + 0x1_0000 * a[2] as int + 0x100_0000 * a[3] as int
                      + UINT32 * Nat(a[4..])
  {
    assert a[1..][1..] == a[2..] && a[2..][1..] == a[3..] && a[3..][1..] == a[4..];
    assert Nat(a) == a[0] as int + 256 * Nat(a[1..]);
    assert Nat(a[1..]) == a[1] as int + 256 * Nat(a[2..]);
    assert Nat(a[2..]) == a[2] as int + 256 * Nat(a[3..]);
    assert Nat(a[3..]) == a[3] as int + 256 * Nat(a[4..]);
  }

  lemma QuotientZero(x: nat, y: nat, xBits: nat, yBits: nat)
    requires xBits < yBits && x < Pow(2, xBits) && Pow(2, yBits - 1) <= y
    ensures y > 0 && x / y == 0 && x % y == x
  {
    PowMonotone(2, xBits, yBits - 1);
    DivModUnique(x, y, 0, x);
  }

  /** Dividing x by y with the quotient bits at and above 2^n settled as `q`: `r` is what
      remains and `d` is the divisor aligned with bit n - 1. */
  ghost predicate Dividing(x: nat, y: nat, q: nat, r: nat, n: nat, d: nat) {
    x == q * y + r && r < y * Pow(2, n) && (n > 0 ==> d == y * Pow(2, n - 1))
  }

  /** The divisor aligned with the dividend still fits, and one more bit exceeds it. */
  lemma DivisionStart(x: nat, y: nat, xBits: nat, yBits: nat)
    requires 0 < yBits <= xBits <= 256
    requires x < Pow(2, xBits) && Pow(2, yBits - 1) <= y < Pow(2, yBits)
    ensures Dividing(x, y, 0, x, xBits - yBits + 1, Wrap(y * Pow(2, xBits - yBits)))
  {
    hide Pow, Modulus, Wrap;
    var s := xBits - yBits;
    PowAdd(2, yBits, s);
    MulMonotone(y + 1, Pow(2, yBits), Pow(2, s));
    assert (y + 1) * Pow(2, s) == y * Pow(2, s) + Pow(2, s);
    PowMonotone(2, xBits, 256);
    ModulusIsPow2();
    WrapIsExact(y * Pow(2, s));
    PowAdd(2, yBits - 1, s + 1);
    MulMonotone(Pow(2, yBits - 1), y, Pow(2, s + 1));
  }

  /** One turn of the loop: subtract and set the bit, or leave both alone. */
  lemma DivisionStep(x: nat, y: nat, q: nat, r: nat, s: nat, d: nat)
    requires Dividing(x, y, q, r, s + 1, d)
    ensures r >= d ==> Dividing(x, y, q + Pow(2, s), r - d, s, d / Pow(2, 1))
    ensures r < d ==> Dividing(x, y, q, r, s, d / Pow(2, 1))
  {
    Pow2Bytes();
    PowStep(2, s);
    if s > 0 {
      PowStep(2, s - 1);
    }
    hide Pow;
    DivisionStepArith(x, y, q, r, Pow(2, s), if s > 0 then Pow(2, s - 1) else 0, d);
  }

  lemma DivisionStepArith(x: nat, y: nat, q: nat, r: nat, p: nat, half: nat, d: nat)
    requires x == q * y + r && r < y * (2 * p) && d == y * p
    ensures r >= d ==> x == (q + p) * y + (r - d) && r - d < y * p
    ensures p == 2 * half ==> d / 2 == y * half
  {
    MulAssoc(y, 2, p);
    assert (q + p) * y == q * y + y * p;
    if p == 2 * half {
      MulAssoc(y, 2, half);
      DivModUnique(d, 2, y * half, 0);
    }
  }

  lemma DivisionDone(x: nat, y: nat, q: nat, r: nat, d: nat)
    requires Dividing(x, y, q, r, 0, d)
    ensures y > 0 && q == x / y && r == x % y
  {
    DivModUnique(x, y, q, r);
  }

  lemma AllClear(a: seq<byte>, n: nat)
    requires Nat(a) == 0
    ensures ClearBelow(a, n)
  {
    NatIsZero(a);
    DivModUnique(0, Pow(2, n % 8), 0, 0);
  }

  lemma {:induction false} NatIsZero(a: seq<byte>)
    requires Nat(a) == 0
    ensures forall i :: 0 <= i < |a| ==> a[i] == 0
  {
    if a == [] {
    } else {
      NatIsZero(a[1..]);
      assert a == [a[0]] + a[1..];
    }
  }
}
