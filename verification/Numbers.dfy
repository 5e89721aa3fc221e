/** Powers, little-endian byte numbers and the bit operations that C++ applies
    to single bytes, all over unbounded integers. */
module Numbers {

  type byte = x: int | 0 <= x < 256

  function Pow(base: nat, exp: nat): (p: nat)
    ensures base > 0 ==> p > 0
  {
    if exp == 0 then 1 else base * Pow(base, exp - 1)
  }

  lemma PowStep(base: nat, i: nat)
    ensures Pow(base, i + 1) == base * Pow(base, i)
  {
  }

  lemma {:induction false} PowAdd(base: nat, a: nat, b: nat)
    ensures Pow(base, a + b) == Pow(base, a) * Pow(base, b)
  {
    if a == 0 {
    } else {
      PowAdd(base, a - 1, b);
      assert Pow(base, a + b) == base * (Pow(base, a - 1) * Pow(base, b));
      MulAssoc(base, Pow(base, a - 1), Pow(base, b));
    }
  }

  lemma {:induction false} PowMonotone(base: nat, a: nat, b: nat)
    requires base > 0 && a <= b
    ensures Pow(base, a) <= Pow(base, b)
    decreases b
  {
    if a == b {
    } else {
      PowMonotone(base, a, b - 1);
      MulMonotone(1, base, Pow(base, b - 1));
    }
  }

  /** The powers of two that occur inside one byte. */
  lemma Pow2Bytes()
    ensures Pow(2, 0) == 1 && Pow(2, 1) == 2 && Pow(2, 2) == 4 && Pow(2, 3) == 8
    ensures Pow(2, 4) == 16 && Pow(2, 5) == 32 && Pow(2, 6) == 64 && Pow(2, 7) == 128
    ensures Pow(2, 8) == 256
  {
    assert Pow(2, 4) == 16;
  }

  lemma {:induction false} Pow256IsPow2(n: nat)
    ensures Pow(256, n) == Pow(2, 8 * n)
  {
    if n == 0 {
    } else {
      Pow256IsPow2(n - 1);
      Pow2Bytes();
      PowAdd(2, 8, 8 * (n - 1));
    }
  }

  /** Number of bytes without leading zero bytes. */
  function ByteLength(v: nat): (n: nat)
    ensures v < Pow(256, n) && (n > 0 ==> Pow(256, n - 1) <= v)
  {
    if v == 0 then 0 else 1 + ByteLength(v / 256)
  }

  lemma ByteLengthUnique(v: nat, n: nat)
    requires v < Pow(256, n) && (n > 0 ==> Pow(256, n - 1) <= v)
    ensures n == ByteLength(v)
  {
    hide Pow, ByteLength;
    var n' := ByteLength(v);
    if n < n' {
      PowMonotone(256, n, n' - 1);
    } else if n' < n {
      PowMonotone(256, n', n - 1);
    }
  }

  function Reversed<T>(s: seq<T>): (r: seq<T>)
    ensures |r| == |s|
  {
    seq(|s|, i requires 0 <= i < |s| => s[|s| - 1 - i])
  }

  lemma ReversedPush<T>(s: seq<T>, x: T)
    ensures Reversed(s + [x]) == [x] + Reversed(s)
  {
  }

  lemma ReversedTwice<T>(s: seq<T>)
    ensures Reversed(Reversed(s)) == s
  {
  }

  // ---- Arithmetic the solver needs spelled out ----

  lemma MulAssoc(a: int, b: int, c: int)
    ensures a * (b * c) == (a * b) * c
  {
  }

  lemma MulMonotone(a: int, b: int, c: nat)
    requires a <= b
    ensures a * c <= b * c
  {
  }

  lemma MulCancel(a: int, b: int, c: int)
    requires c > 0 && a * c < b * c
    ensures a < b
  {
    if b <= a {
      MulMonotone(b, a, c);
    }
  }

  /** `q` and `r` are the quotient and remainder of `x` by `m`. */
  lemma DivModUnique(x: int, m: int, q: int, r: int)
    requires m > 0 && 0 <= r < m && x == q * m + r
    ensures x / m == q && x % m == r
  {
    var q', r' := x / m, x % m;
    assert x == q' * m + r';
    assert (q - q') * m == r' - r;
    if q < q' {
      MulMonotone(q - q', -1, m);
      assert false;
    } else if q > q' {
      MulMonotone(1, q - q', m);
      assert false;
    }
  }

  lemma DivShrinks(x: nat, m: nat)
    requires m > 0
    ensures 0 <= x / m <= x
  {
    var q, r := x / m, x % m;
    assert x == q * m + r;
    if q < 0 {
      MulMonotone(q, -1, m);
    } else {
      MulMonotone(1, m, q);
    }
  }

  lemma DivMonotone(x: nat, y: nat, m: nat)
    requires m > 0 && x <= y
    ensures x / m <= y / m
  {
    var q, q' := x / m, y / m;
    assert x == q * m + x % m && y == q' * m + y % m;
    assert (q' + 1) * m == q' * m + m;
    if q > q' {
      MulMonotone(q' + 1, q, m);
    }
  }

  lemma QuotientBelow(n: nat, d: nat, q: nat)
    requires d > 0 && n < d * q
    ensures 0 <= n % d < d && 0 <= n / d < q && n == n / d * d + n % d
  {
    if n / d >= q {
      MulMonotone(q, n / d, d);
    }
  }

  lemma ModShift(x: int, k: int, m: int)
    requires m > 0
    ensures (x + k * m) % m == x % m
  {
    DivModUnique(x + k * m, m, x / m + k, x % m);
  }

  /** Dividing twice is dividing by the product. */
  lemma DivDiv(x: int, a: int, b: int)
    requires a > 0 && b > 0
    ensures a * b > 0
    ensures x / a / b == x / (a * b)
  {
    MulMonotone(1, a, b);
    var q, r := x / a, x % a;
    var q', r' := q / b, q % b;
    assert x == (q' * b + r') * a + r;
    assert x == q' * (a * b) + (r' * a + r);
    MulMonotone(r', b - 1, a);
    DivModUnique(x, a * b, q', r' * a + r);
  }

  // ---- Numbers as digit strings ----

  /** The number that big-endian digits stand for. */
  function BE(s: seq<byte>, base: nat): nat {
    if s == [] then 0 else BE(s[..|s| - 1], base) * base + s[|s| - 1]
  }

  /** The number whose byte `i` has weight 256^i. */
  function Nat(s: seq<byte>): nat {
    if s == [] then 0 else s[0] + 256 * Nat(s[1..])
  }

  lemma {:induction false} NatConcat(s: seq<byte>, t: seq<byte>)
    ensures Nat(s + t) == Nat(s) + Pow(256, |s|) * Nat(t)
  {
    if s == [] {
      assert s + t == t;
    } else {
      NatConcat(s[1..], t);
      assert (s + t)[1..] == s[1..] + t;
      MulAssoc(256, Pow(256, |s| - 1), Nat(t));
    }
  }

  lemma NatPush(s: seq<byte>, x: byte)
    ensures Nat(s + [x]) == Nat(s) + Pow(256, |s|) * x
  {
    NatConcat(s, [x]);
    assert Nat([x]) == x;
  }

  /** The next byte of a prefix: how every carry loop moves on. */
  lemma NatPrefix(s: seq<byte>, i: nat)
    requires i < |s|
    ensures Nat(s[..i + 1]) == Nat(s[..i]) + Pow(256, i) * s[i]
  {
    assert s[..i + 1] == s[..i] + [s[i]];
    NatPush(s[..i], s[i]);
  }

  lemma NatSplit(s: seq<byte>, i: nat)
    requires i <= |s|
    ensures Nat(s) == Nat(s[..i]) + Pow(256, i) * Nat(s[i..])
  {
    assert s == s[..i] + s[i..];
    NatConcat(s[..i], s[i..]);
  }

  lemma {:induction false} NatBound(s: seq<byte>)
    ensures Nat(s) < Pow(256, |s|)
  {
    if s == [] {
    } else {
      NatBound(s[1..]);
    }
  }

  lemma {:induction false} NatZero(s: seq<byte>)
    requires forall i :: 0 <= i < |s| ==> s[i] == 0
    ensures Nat(s) == 0
  {
    if s == [] {
    } else {
      NatZero(s[1..]);
    }
  }

  /** Equally long byte strings with the same number are the same string. */
  lemma {:induction false} NatInjective(s: seq<byte>, t: seq<byte>)
    requires |s| == |t| && Nat(s) == Nat(t)
    ensures s == t
  {
    if s == [] {
    } else {
      assert s[0] == t[0] && Nat(s[1..]) == Nat(t[1..]);
      NatInjective(s[1..], t[1..]);
      assert s == [s[0]] + s[1..] && t == [t[0]] + t[1..];
    }
  }

  /** Replacing one byte moves the number by the difference times its weight. */
  lemma NatUpdate(s: seq<byte>, i: nat, x: byte)
    requires i < |s|
    ensures Nat(s[i := x]) == Nat(s) + Pow(256, i) * (x - s[i])
  {
    var t := s[i := x];
    NatSplit(s, i);
    NatSplit(t, i);
    assert t[..i] == s[..i];
    assert s[i..][1..] == t[i..][1..];
    var p, rest := Pow(256, i), Nat(s[i..][1..]);
    assert Nat(s[i..]) == s[i] + 256 * rest;
    assert Nat(t[i..]) == x + 256 * rest;
    assert p * (x + 256 * rest) - p * (s[i] + 256 * rest) == p * (x - s[i]);
  }

  /** The `n` low bytes of `x`, lowest first. */
  function LittleEndian(x: nat, n: nat): (s: seq<byte>)
    ensures |s| == n
  {
    if n == 0 then [] else [x % 256] + LittleEndian(x / 256, n - 1)
  }

  lemma {:induction false} LittleEndianAt(x: nat, n: nat, i: nat)
    requires i < n
    ensures LittleEndian(x, n)[i] == x / Pow(256, i) % 256
  {
    if i == 0 {
    } else {
      LittleEndianAt(x / 256, n - 1, i - 1);
      DivDiv(x, 256, Pow(256, i - 1));
    }
  }

  lemma {:induction false} LittleEndianValue(x: nat, n: nat)
    requires x < Pow(256, n)
    ensures Nat(LittleEndian(x, n)) == x
  {
    if n == 0 {
    } else {
      LittleEndianValue(x / 256, n - 1);
    }
  }

  // ---- Bits ----

  /** Bitwise or of two non-negative numbers. */
  function BitOr(x: nat, y: nat): nat
    decreases x + y
  {
    if x == 0 then y
    else if y == 0 then x
    else (if x % 2 == 1 || y % 2 == 1 then 1 else 0) + 2 * BitOr(x / 2, y / 2)
  }

  /** Where no bit is shared, `|` is `+`. */
  lemma {:induction false} BitOrDisjoint(x: nat, high: nat, s: nat)
    requires x < Pow(2, s)
    ensures BitOr(x, high * Pow(2, s)) == x + high * Pow(2, s)
    ensures BitOr(high * Pow(2, s), x) == x + high * Pow(2, s)
    decreases s
  {
    var y := high * Pow(2, s);
    if s == 0 || x == 0 || y == 0 {
    } else {
      assert y == 2 * (high * Pow(2, s - 1)) by {
        MulAssoc(high, 2, Pow(2, s - 1));
        MulAssoc(2, high, Pow(2, s - 1));
      }
      BitOrDisjoint(x / 2, high, s - 1);
      assert y % 2 == 0 && y / 2 == high * Pow(2, s - 1);
    }
  }

  /** Setting a clear bit `s` between the bits below it and the bits above it. */
  lemma {:induction false} BitOrBetween(x: nat, high: nat, s: nat)
    requires x < Pow(2, s)
    ensures BitOr(x + high * (2 * Pow(2, s)), Pow(2, s)) == x + high * (2 * Pow(2, s)) + Pow(2, s)
    decreases s
  {
    var a := x + high * (2 * Pow(2, s));
    if a == 0 {
    } else if s == 0 {
      assert a / 2 == high && a % 2 == 0;
    } else {
      var p := Pow(2, s - 1);
      assert Pow(2, s) == 2 * p;
      assert high * (2 * (2 * p)) == 2 * (high * (2 * p)) by {
        MulAssoc(high, 2, 2 * p);
        MulAssoc(2, high, 2 * p);
      }
      BitOrBetween(x / 2, high, s - 1);
      assert a / 2 == x / 2 + high * (2 * p) && a % 2 == x % 2;
    }
  }

  /** Bit `n` of `x`. */
  predicate Bit(x: nat, n: nat) {
    x / Pow(2, n) % 2 == 1
  }
}
