/** The compact form of a target: one byte of size, a sign bit and a 23-bit mantissa. */
module CompactBits {
  import opened Numbers
  import opened Word256

  const SIGN := 0x80_0000
  const SIZE_UNIT := 0x100_0000

  datatype Compact = Compact(size: nat, word: nat)

  lemma ByteLengthOfBits(v: nat, bits: nat)
    requires IsBitLength(v, bits)
    ensures (bits + 7) / 8 == ByteLength(v)
  {
    hide Pow, ByteLength;
    var n := (bits + 7) / 8;
    Pow256IsPow2(n);
    PowMonotone(2, bits, 8 * n);
    if n > 0 {
      Pow256IsPow2(n - 1);
      PowMonotone(2, 8 * (n - 1), bits - 1);
    }
    ByteLengthUnique(v, n);
  }

  // ---- Decoding ----

  /** The mantissa that takes part: small sizes drop its low bytes. */
  function Effective(c: Compact): nat {
    if c.size <= 3 then c.word / Pow(256, 3 - c.size) else c.word
  }

  /** The number meant, before any reduction modulo 2^256. */
  function Exact(c: Compact): nat {
    if c.size <= 3 then c.word / Pow(256, 3 - c.size) else c.word * Pow(256, c.size - 3)
  }

  function Split(bits: nat): Compact {
    Compact(bits / SIZE_UNIT, bits % SIGN)
  }

  /** The decoder's three-way overflow test. */
  predicate OverflowFlag(size: nat, word: nat) {
    word != 0 && (size > 34 || (word > 0xff && size > 33) || (word > 0xffff && size > 32))
  }

  /** The overflow test is exact: it fires when the number needs more than 256 bits. */
  lemma OverflowIsExact(c: Compact)
    requires c.word < SIGN
    ensures OverflowFlag(c.size, Effective(c)) <==> Exact(c) >= Modulus()
  {
    hide Pow, Modulus;
    ModulusIsPow256();
    PowerOfThree();
    if c.size <= 3 {
      DivShrinksPow(c.word, 3 - c.size);
      PowMonotone(256, 3, SIZE);
    } else if c.word != 0 {
      var k := c.size - 3;
      if k <= 29 {
        PowAdd(256, k, 3);
        MulMonotone(c.word + 1, Pow(256, 3), Pow(256, k));
        PowMonotone(256, k + 3, SIZE);
        assert (c.word + 1) * Pow(256, k) > c.word * Pow(256, k);
      } else if k >= 32 {
        PowMonotone(256, SIZE, k);
        MulMonotone(1, c.word, Pow(256, k));
      } else {
        var e := SIZE - k;
        PowAdd(256, e, k);
        if c.word >= Pow(256, e) {
          MulMonotone(Pow(256, e), c.word, Pow(256, k));
        } else {
          MulMonotone(c.word + 1, Pow(256, e), Pow(256, k));
          assert (c.word + 1) * Pow(256, k) > c.word * Pow(256, k);
        }
      }
    }
  }

  lemma PowerOfThree()
    ensures Pow(256, 0) == 1 && Pow(256, 1) == 0x100 && Pow(256, 2) == 0x1_0000 && Pow(256, 3) == SIZE_UNIT
  {
  }

  lemma DivShrinksPow(x: nat, n: nat)
    ensures 0 <= x / Pow(256, n) <= x
  {
    DivShrinks(x, Pow(256, n));
  }

  // ---- Encoding ----

  /** The three most significant bytes. */
  function Mantissa(v: nat): nat {
    var n := ByteLength(v);
    if n <= 3 then v * Pow(256, 3 - n) else v / Pow(256, n - 3)
  }

  /** A mantissa that reaches the sign bit loses its low byte. */
  function Encode(v: nat): Compact {
    var n, m := ByteLength(v), Mantissa(v);
    if m >= SIGN then Compact(n + 1, m / 256) else Compact(n, m)
  }

  function ToCompact(v: nat, negative: bool): nat {
    var c := Encode(v);
    c.size * SIZE_UNIT + c.word + if negative && c.word != 0 then SIGN else 0
  }

  lemma MantissaBounds(v: nat)
    ensures Mantissa(v) < SIZE_UNIT
    ensures v > 0 ==> Mantissa(v) >= 0x1_0000
  {
    var n := ByteLength(v);
    hide Pow, ByteLength;
    PowerOfThree();
    if n == 0 {
      assert v == 0;
    } else if n <= 3 {
      PowAdd(256, n, 3 - n);
      MulMonotone(v + 1, Pow(256, n), Pow(256, 3 - n));
      assert (v + 1) * Pow(256, 3 - n) > v * Pow(256, 3 - n);
      PowAdd(256, n - 1, 3 - n);
      MulMonotone(Pow(256, n - 1), v, Pow(256, 3 - n));
    } else {
      PowAdd(256, 3, n - 3);
      PowAdd(256, 2, n - 3);
      DivBetween(v, Pow(256, n - 3), Pow(256, 2), Pow(256, 3));
    }
  }

  lemma DivBetween(v: nat, m: nat, lo: nat, hi: nat)
    requires m > 0 && lo * m <= v < hi * m
    ensures lo <= v / m < hi
  {
    var q, r := v / m, v % m;
    assert v == q * m + r;
    if q < lo {
      MulMonotone(q + 1, lo, m);
    }
    if q >= hi {
      MulMonotone(hi, q, m);
    }
  }

  /** Both assertions of the encoder: the mantissa leaves the sign bit free and the size
      fits its byte. */
  lemma EncodeFits(v: nat)
    requires v < Modulus()
    ensures Encode(v).word < SIGN && Encode(v).size <= 33
    ensures Encode(v).word == 0 <==> v == 0
  {
    hide Pow, ByteLength, Modulus, Mantissa;
    MantissaBounds(v);
    ModulusIsPow256();
    if ByteLength(v) > SIZE {
      PowMonotone(256, SIZE, ByteLength(v) - 1);
    }
    if v == 0 {
      assert Mantissa(0) == 0 by { MantissaOfZero(); }
    }
  }

  lemma MantissaOfZero()
    ensures Mantissa(0) == 0
  {
  }

  /** How many low bytes the encoding forgets. */
  function Forgotten(v: nat): nat {
    var n, m := ByteLength(v), Mantissa(v);
    if m >= SIGN then (if n >= 2 then n - 2 else 0) else if n >= 3 then n - 3 else 0
  }

  /** What decoding an encoding gives: the number with its forgotten bytes cleared. */
  lemma DecodeOfEncode(v: nat)
    ensures Exact(Encode(v)) == v / Pow(256, Forgotten(v)) * Pow(256, Forgotten(v))
    ensures Forgotten(v) > 0 ==> v / Pow(256, Forgotten(v)) >= 0x8000
    ensures v < SIGN ==> Forgotten(v) == 0
  {
    var n, m := ByteLength(v), Mantissa(v);
    MantissaBounds(v);
    hide Pow, ByteLength;
    PowerOfThree();
    if n <= 3 {
      SmallRoundTrip(v, n);
      if m >= SIGN && n == 3 {
        assert Pow(256, 0) == 1;
      }
      if n < 3 {
        PowMonotone(256, n, 2);
      }
    } else {
      PowMonotone(256, 3, n - 1);
      if m >= SIGN {
        PowAdd(256, n - 3, 1);
        DivDiv(v, Pow(256, n - 3), 256);
      }
    }
  }

  /** Up to three bytes nothing is lost unless the third byte reaches the sign bit. */
  lemma SmallRoundTrip(v: nat, n: nat)
    requires n <= 3
    ensures v * Pow(256, 3 - n) / Pow(256, 3 - n) == v
    ensures n <= 2 ==> v * Pow(256, 3 - n) / 256 / Pow(256, 2 - n) == v
  {
    var p := Pow(256, 3 - n);
    DivModUnique(v * p, p, v, 0);
    if n <= 2 {
      DivDiv(v * p, 256, Pow(256, 2 - n));
    }
  }

  /** The compact form never rounds up, and what it loses is below 2^-15 of what it keeps;
      below 2^23 it loses nothing. */
  lemma CompactRoundsDown(v: nat)
    ensures Exact(Encode(v)) <= v
    ensures v > 0 ==> (v - Exact(Encode(v))) * 0x8000 < Exact(Encode(v))
    ensures v < SIGN ==> Exact(Encode(v)) == v
  {
    hide Pow, Encode, Exact, Forgotten;
    DecodeOfEncode(v);
    PowerOfThree();
    var p := Pow(256, Forgotten(v));
    var q := v / p;
    assert v == q * p + v % p;
    if Forgotten(v) > 0 {
      MulMonotone(0x8000, q, p);
    } else {
      assert p == 1;
    }
  }

  /** Encoding a decoded encoding changes nothing. */
  lemma CompactIsStable(v: nat)
    ensures Encode(Exact(Encode(v))) == Encode(v)
  {
    var n, j := ByteLength(v), Forgotten(v);
    if j == 0 {
      NothingForgotten(v);
    } else {
      var d := v / Pow(256, j) * Pow(256, j);
      DecodeOfEncode(v);
      FloorKeepsLength(v, n, j);
      MantissaOfFloor(v, n, j);
      MantissaBounds(v);
      SameEncoding(v, d);
    }
  }

  lemma NothingForgotten(v: nat)
    requires Forgotten(v) == 0
    ensures Exact(Encode(v)) == v
  {
    DecodeOfEncode(v);
    PowerOfThree();
  }

  lemma SameEncoding(v: nat, d: nat)
    requires ByteLength(d) == ByteLength(v) >= 3 && Mantissa(v) < SIZE_UNIT
    requires d / Pow(256, ByteLength(v) - 3)
          == if Mantissa(v) >= SIGN then v / Pow(256, ByteLength(v) - 3) / 256 * 256
             else v / Pow(256, ByteLength(v) - 3)
    ensures Encode(d) == Encode(v)
  {
    hide Pow, ByteLength;
    PowerOfThree();
  }

  lemma FloorKeepsLength(v: nat, n: nat, j: nat)
    requires n == ByteLength(v) && j < n
    ensures ByteLength(v / Pow(256, j) * Pow(256, j)) == n
  {
    hide Pow, ByteLength;
    var p := Pow(256, j);
    var d := v / p * p;
    assert v == d + v % p;
    PowAdd(256, n - 1 - j, j);
    PowAdd(256, n - j, j);
    DivBetween(v, p, Pow(256, n - 1 - j), Pow(256, n - j));
    MulMonotone(Pow(256, n - 1 - j), v / p, p);
    ByteLengthUnique(d, n);
  }

  lemma MantissaOfFloor(v: nat, n: nat, j: nat)
    requires n == ByteLength(v) >= 3 && (j == n - 3 || j == n - 2)
    ensures v / Pow(256, j) * Pow(256, j) / Pow(256, n - 3)
         == if j == n - 3 then v / Pow(256, n - 3) else v / Pow(256, n - 3) / 256 * 256
  {
    hide Pow, ByteLength;
    var p := Pow(256, n - 3);
    if j == n - 3 {
      DivModUnique(v / p * p, p, v / p, 0);
    } else {
      PowerOfThree();
      PowAdd(256, n - 3, 1);
      DivDiv(v, p, 256);
      var q := v / p / 256;
      MulAssoc(q, 256, p);
      MulAssoc(q, p, 256);
      DivModUnique(q * (p * 256), p, q * 256, 0);
    }
  }
}
