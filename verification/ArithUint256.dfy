/** The 256-bit unsigned integer. Every operator rewrites the 32 bytes in place and is
    proved against the integer they stand for; all of them wrap modulo 2^256. */
module Arith {
  import opened Numbers
  import opened Word256
  import opened ByteShifts
  import opened CompactBits
  import opened Decimals

  class ArithUint256 {
    const data: array<byte>

    ghost predicate Valid() {
      data.Length == SIZE
    }

    ghost function Value(): (v: nat)
      reads data
    {
      Nat(data[..])
    }

    lemma ValueBound()
      requires Valid()
      ensures Value() < Modulus()
    {
      NatBound(data[..]);
    }

    constructor (b: nat)
      requires b < UINT64
      ensures Valid() && fresh(data) && Value() == b
    {
      var d := new byte[SIZE](i => 0);
      data := d;
      new;
      Assign64(b);
    }

    constructor Copy(o: ArithUint256)
      requires o.Valid()
      ensures Valid() && fresh(data) && Value() == o.Value()
      ensures data[..] == o.data[..]
    {
      var d := new byte[SIZE](i requires 0 <= i < SIZE && o.Valid() reads o, o.data => o.data[i]);
      data := d;
      new;
      assert data[..] == o.data[..];
    }

    /** `= uint64_t`: eight bytes of the number, the others zero. */
    method Assign64(b: nat)
      requires Valid() && b < UINT64
      modifies data
      ensures Value() == b
    {
      var i := 0;
      while i < 8
        invariant 0 <= i <= 8
        invariant forall j :: 0 <= j < i ==> data[j] == b / Pow(256, j) % 256
      {
        data[i] := b / Pow(256, i) % 256;
        i := i + 1;
      }
      while i < SIZE
        invariant 8 <= i <= SIZE
        invariant forall j :: 0 <= j < 8 ==> data[j] == b / Pow(256, j) % 256
        invariant forall j :: 8 <= j < i ==> data[j] == 0
      {
        data[i] := 0;
        i := i + 1;
      }
      ghost var a := data[..];
      Low64Value(a, b);
    }

    // ---- Addition, negation, subtraction ----

    method AddAssign(b: ArithUint256)
      requires Valid() && b.Valid()
      modifies data
      ensures Value() == Wrap(old(Value()) + old(b.Value()))
    {
      hide Pow, Nat;
      ghost var x, y := data[..], b.data[..];
      var carry: nat := 0;
      var i := 0;
      NatZero(x[..i]);
      assert data[..i] == y[..i] == x[..i];
      while i < SIZE
        invariant 0 <= i <= SIZE && 0 <= carry <= 1
        invariant data[i..] == x[i..] && b.data[i..] == y[i..]
        invariant Nat(data[..i]) + carry * Pow(256, i) == Nat(x[..i]) + Nat(y[..i])
      {
        assert data[i] == data[i..][0] == x[i] && b.data[i] == b.data[i..][0] == y[i];
        var n := carry + data[i] as int + b.data[i] as int;
        ghost var below := data[..i];
        AddStep(below, x, y, i, carry, n % 256, n / 256);
        data[i] := n % 256;
        carry := n / 256;
        i := i + 1;
        assert data[..i] == below + [(n % 256) as byte];
        assert data[i..] == x[i..] && b.data[i..] == y[i..];
      }
      assert data[..i] == data[..] && x[..i] == x && y[..i] == y;
      DropCarry(data[..], carry, Nat(x) + Nat(y));
    }

    /** `++`: carries through every byte that was all ones. */
    method Increment()
      requires Valid()
      modifies data
      ensures Value() == Wrap(old(Value()) + 1)
    {
      hide Pow;
      ghost var x := data[..];
      var i := 0;
      while i < SIZE && data[i] == 255
        invariant 0 <= i <= SIZE
        invariant forall j :: 0 <= j < i ==> x[j] == 255 && data[j] == 0
        invariant data[i..] == x[i..]
        decreases SIZE - i
      {
        assert data[i] == data[i..][0] == x[i];
        data[i] := 0;
        i := i + 1;
        assert data[i..] == x[i..];
      }
      if i < SIZE {
        assert data[i] == data[i..][0] == x[i];
        data[i] := data[i] + 1;
      }
      IncrementValue(x, data[..], i);
      IncrementWraps(x, data[..], i);
    }

    /** `--`: borrows through every byte that was zero. */
    method Decrement()
      requires Valid()
      modifies data
      ensures Value() == Wrap(old(Value()) - 1)
    {
      hide Pow;
      ghost var x := data[..];
      var i := 0;
      while i < SIZE && data[i] == 0
        invariant 0 <= i <= SIZE
        invariant forall j :: 0 <= j < i ==> x[j] == 0 && data[j] == 255
        invariant data[i..] == x[i..]
        decreases SIZE - i
      {
        assert data[i] == data[i..][0] == x[i];
        data[i] := 255;
        i := i + 1;
        assert data[i..] == x[i..];
      }
      if i < SIZE {
        assert data[i] == data[i..][0] == x[i];
        data[i] := data[i] - 1;
      }
      IncrementValue(data[..], x, i);
      IncrementWraps(data[..], x, i);
    }

    /** `~` */
    method Complement() returns (r: ArithUint256)
      requires Valid()
      ensures r.Valid() && fresh(r) && fresh(r.data)
      ensures r.Value() == Modulus() - 1 - Value()
    {
      r := new ArithUint256(0);
      var i := 0;
      while i < SIZE
        invariant 0 <= i <= SIZE
        invariant forall j :: 0 <= j < i ==> r.data[j] == 255 - data[j]
      {
        r.data[i] := 255 - data[i];
        i := i + 1;
      }
      ComplementValue(data[..], r.data[..]);
    }

    /** Unary minus. */
    method Negate() returns (r: ArithUint256)
      requires Valid()
      ensures r.Valid() && fresh(r) && fresh(r.data)
      ensures r.Value() == Wrap(-1 * Value())
    {
      hide Modulus, Wrap;
      r := Complement();
      r.Increment();
      WrapNegate(Value());
    }

    method SubAssign(b: ArithUint256)
      requires Valid() && b.Valid()
      modifies data
      ensures Value() == Wrap(old(Value()) - old(b.Value()))
    {
      hide Modulus, Wrap;
      var n := b.Negate();
      AddAssign(n);
      WrapAdd(old(Value()), -1 * old(b.Value()));
    }

    // ---- Shifts ----

    method ShiftLeftAssign(shift: nat)
      requires Valid() && shift < UINT32
      modifies data
      ensures Value() == Wrap(old(Value()) * Pow(2, shift))
    {
      hide Pow, Nat, LowPart, HighPart, BitOr, Modulus, Wrap, PartlyLeft;
      var a := new ArithUint256.Copy(this);
      ghost var x := a.data[..];
      var i := 0;
      while i < SIZE
        invariant 0 <= i <= SIZE && a.data[..] == x
        invariant forall j :: 0 <= j < i ==> data[j] == 0
      {
        data[i] := 0;
        i := i + 1;
      }
      var k, s := shift / 8, shift % 8;
      i := 0;
      ShiftedZero(data[..], x, k, s);
      while i < SIZE
        invariant 0 <= i <= SIZE && a.data[..] == x && PartlyLeft(data[..], x, k, s, i)
      {
        ghost var d := data[..];
        assert a.data[i] == x[i];
        ShiftLeftOrs(d, x, k, s, i);
        if i + k + 1 < SIZE && s != 0 {
          data[i + k + 1] := BitOr(data[i + k + 1], HighPart(a.data[i], s));
        }
        if i + k < SIZE {
          data[i + k] := BitOr(data[i + k], LowPart(a.data[i], s));
        }
        ShiftLeftNext(d, data[..], x, k, s, i);
        i := i + 1;
      }
      ShiftLeftDone(x, data[..], k, s);
    }

    method ShiftRightAssign(shift: nat)
      requires Valid() && shift < UINT32
      modifies data
      ensures Value() == old(Value()) / Pow(2, shift)
    {
      hide Pow, Nat, LowPart, HighBits, BitOr, Modulus, Wrap, PartlyRight;
      var a := new ArithUint256.Copy(this);
      ghost var x := a.data[..];
      var i := 0;
      while i < SIZE
        invariant 0 <= i <= SIZE && a.data[..] == x
        invariant forall j :: 0 <= j < i ==> data[j] == 0
      {
        data[i] := 0;
        i := i + 1;
      }
      var k, s := shift / 8, shift % 8;
      i := 0;
      ShiftedZero(data[..], x, k, s);
      while i < SIZE
        invariant 0 <= i <= SIZE && a.data[..] == x && PartlyRight(data[..], x, k, s, i)
      {
        ghost var d := data[..];
        assert a.data[i] == x[i];
        ShiftRightOrs(d, x, k, s, i);
        if i - k - 1 >= 0 && s != 0 {
          data[i - k - 1] := BitOr(data[i - k - 1], LowPart(a.data[i], 8 - s));
        }
        if i - k >= 0 {
          data[i - k] := BitOr(data[i - k], HighBits(a.data[i], s));
        }
        ShiftRightNext(d, data[..], x, k, s, i);
        i := i + 1;
      }
      ShiftRightDone(x, data[..], k, s);
    }

    // ---- Multiplication ----

    method MulAssign32(b: nat)
      requires Valid() && b < UINT32
      modifies data
      ensures Value() == Wrap(old(Value()) * b)
    {
      hide Pow, Nat, Modulus, Wrap, MulSoFar;
      ghost var x := data[..];
      var carry: nat := 0;
      var i := 0;
      MulStart(x, b);
      while i < SIZE
        invariant 0 <= i <= SIZE && carry < UINT32
        invariant forall m :: i <= m < SIZE ==> data[m] == x[m]
        invariant MulSoFar(data[..], x, i, b, carry)
      {
        MulCarry(carry, data[i], b);
        var n := carry + b * data[i] as int;
        ghost var before := data[..];
        data[i] := n % 256;
        MulNext(before, data[..], x, i, b, carry, n);
        carry := n / 256;
        i := i + 1;
      }
      MulDone(data[..], x, b, carry);
    }

    method MulAssign(b: ArithUint256)
      requires Valid() && b.Valid()
      modifies data
      ensures Value() == Wrap(old(Value()) * old(b.Value()))
    {
      hide Pow, Nat, Modulus, Wrap, RowSoFar, ProductSoFar;
      var a := new ArithUint256(0);
      ghost var x, y := data[..], b.data[..];
      ghost var dropped: nat := 0;
      var j := 0;
      ProductStart(a.data[..], x, y);
      while j < SIZE
        invariant 0 <= j <= SIZE && data[..] == x && b.data[..] == y
        invariant ProductSoFar(a.data[..], x, y, j, dropped)
      {
        ghost var row := a.data[..];
        var carry: nat := 0;
        var i := 0;
        RowStart(row, y, j, x[j]);
        while i + j < SIZE
          invariant 0 <= i <= SIZE - j && 0 <= carry < 256
          invariant data[..] == x && b.data[..] == y
          invariant forall m :: i + j <= m < SIZE ==> a.data[m] == row[m]
          invariant RowSoFar(a.data[..], row, y, i, j, x[j], carry)
        {
          RowCarry(carry, a.data[i + j], data[j], b.data[i]);
          var n := carry + a.data[i + j] as int + data[j] as int * b.data[i] as int;
          ghost var before := a.data[..];
          a.data[i + j] := n % 256;
          RowNext(before, a.data[..], row, y, i, j, x[j], carry, n);
          carry := n / 256;
          i := i + 1;
        }
        dropped := RowDone(x, y, j, row, a.data[..], carry, dropped);
        j := j + 1;
      }
      ProductDone(a.data[..], x, y, dropped);
      Assign(a);
    }

    /** `*this = o` */
    method Assign(o: ArithUint256)
      requires Valid() && o.Valid() && o.data != data
      modifies data
      ensures data[..] == o.data[..]
    {
      var i := 0;
      while i < SIZE
        invariant 0 <= i <= SIZE && o.data[..] == old(o.data[..])
        invariant forall j :: 0 <= j < i ==> data[j] == o.data[j]
      {
        data[i] := o.data[i];
        i := i + 1;
      }
    }

    // ---- Comparison, bit length, low bytes ----

    method CompareTo(b: ArithUint256) returns (r: int)
      requires Valid() && b.Valid()
      ensures r == if Value() < b.Value() then -1 else if Value() > b.Value() then 1 else 0
    {
      hide Pow, Nat;
      var i := SIZE - 1;
      while i >= 0
        invariant -1 <= i < SIZE
        invariant forall j :: i < j < SIZE ==> data[j] == b.data[j]
      {
        if data[i] < b.data[i] {
          CompareAt(data[..], b.data[..], i);
          return -1;
        }
        if data[i] > b.data[i] {
          CompareAt(b.data[..], data[..], i);
          return 1;
        }
        i := i - 1;
      }
      assert data[..] == b.data[..];
      return 0;
    }

    /** One more than the position of the highest set bit, or zero. */
    method Bits() returns (r: nat)
      requires Valid()
      ensures IsBitLength(Value(), r) && r <= 256
    {
      hide Pow, Nat, Bit;
      var pos := SIZE - 1;
      while pos >= 0
        invariant -1 <= pos < SIZE
        invariant forall j :: pos < j < SIZE ==> data[j] == 0
      {
        if data[pos] != 0 {
          Pow2Bytes();
          var nbits := 7;
          while nbits > 0
            invariant 0 <= nbits <= 7 && data[pos] < Pow(2, nbits + 1)
          {
            HighestBit(data[pos], nbits);
            if Bit(data[pos], nbits) {
              BitLengthOfBytes(data[..], pos, nbits);
              return 8 * pos + nbits + 1;
            }
            nbits := nbits - 1;
          }
          BitLengthOfBytes(data[..], pos, 0);
          return 8 * pos + 1;
        }
        pos := pos - 1;
      }
      NatZero(data[..]);
      ZeroBitLength();
      return 0;
    }

    /** The two low 32-bit words, read as the little-endian host stores them. */
    method GetLow64() returns (r: nat)
      requires Valid()
      ensures r == Value() % UINT64
    {
      var p1 := data[0] as int + 0x100 * data[1] as int + 0x1_0000 * data[2] as int + 0x100_0000 * data[3] as int;
      var p2 := data[4] as int + 0x100 * data[5] as int + 0x1_0000 * data[6] as int + 0x100_0000 * data[7] as int;
      r := p1 + p2 * UINT32;
      Low64(data[..], p1, p2);
    }

    // ---- Division ----

    /** Shift-and-subtract division. Dividing by zero throws, after the number itself has
        already been set to zero. `rem` is what the local `num` ends with. */
    method DivAssign(b: ArithUint256) returns (thrown: bool, ghost rem: nat)
      requires Valid() && b.Valid()
      modifies data
      ensures thrown <==> old(b.Value()) == 0
      ensures thrown ==> Value() == 0
      ensures !thrown ==> Value() == old(Value()) / old(b.Value()) && rem == old(Value()) % old(b.Value())
    {
      hide Pow, Nat, Modulus, Wrap, ClearBelow, IsBitLength, Dividing;
      ghost var x, y := Value(), b.Value();
      var div := new ArithUint256.Copy(b);
      var num := new ArithUint256.Copy(this);
      Assign64(0);
      var num_bits := num.Bits();
      var div_bits := div.Bits();
      BitLengthFacts(x, num_bits);
      BitLengthFacts(y, div_bits);
      if div_bits == 0 {
        return true, 0;
      }
      if div_bits > num_bits {
        QuotientZero(x, y, num_bits, div_bits);
        return false, x;
      }
      var shift: int := num_bits - div_bits;
      div.ShiftLeftAssign(shift);
      DivisionStart(x, y, num_bits, div_bits);
      AllClear(data[..], shift + 1);
      while shift >= 0
        invariant -1 <= shift < 256 && num.Valid() && div.Valid()
        invariant fresh(num.data) && fresh(div.data) && num.data != div.data
        invariant Dividing(x, y, Value(), num.Value(), shift + 1, div.Value())
        invariant ClearBelow(data[..], shift + 1)
        decreases shift
      {
        ghost var q, r, d := Value(), num.Value(), div.Value();
        num.ValueBound();
        var cmp := num.CompareTo(div);
        if cmp >= 0 {
          num.SubAssign(div);
          if r >= d {
            WrapIsExact(r - d);
          }
          SetBit(data[..], shift);
          data[shift / 8] := BitOr(data[shift / 8], Pow(2, shift % 8));
        } else {
          ClearBelowMore(data[..], shift);
        }
        div.ShiftRightAssign(1);
        DivisionStep(x, y, q, r, shift, d);
        shift := shift - 1;
      }
      rem := num.Value();
      DivisionDone(x, y, Value(), rem, div.Value());
      return false, rem;
    }

    // ---- The binary operators: a copy, then the assigning operator ----

    method Quotient(b: ArithUint256) returns (thrown: bool, r: ArithUint256)
      requires Valid() && b.Valid()
      ensures r.Valid() && fresh(r) && fresh(r.data)
      ensures thrown <==> b.Value() == 0
      ensures !thrown ==> r.Value() == Value() / b.Value()
    {
      r := new ArithUint256.Copy(this);
      ghost var rem;
      thrown, rem := r.DivAssign(b);
    }

    method Minus(b: ArithUint256) returns (r: ArithUint256)
      requires Valid() && b.Valid()
      ensures r.Valid() && fresh(r) && fresh(r.data) && r.Value() == Wrap(Value() - b.Value())
    {
      r := new ArithUint256.Copy(this);
      r.SubAssign(b);
    }

    method Plus(b: ArithUint256) returns (r: ArithUint256)
      requires Valid() && b.Valid()
      ensures r.Valid() && fresh(r) && fresh(r.data) && r.Value() == Wrap(Value() + b.Value())
    {
      r := new ArithUint256.Copy(this);
      r.AddAssign(b);
    }

    method Times32(b: nat) returns (r: ArithUint256)
      requires Valid() && b < UINT32
      ensures r.Valid() && fresh(r) && fresh(r.data) && r.Value() == Wrap(Value() * b)
    {
      r := new ArithUint256.Copy(this);
      r.MulAssign32(b);
    }

    // ---- Decimal strings ----

    method ToString() returns (s: string)
      requires Valid()
      ensures s == Decimal(Value())
    {
      hide Pow, Nat, Modulus, Wrap, Decimal, Reversed;
      PrintStart(Decimal(Value()));
      var tmp := new ArithUint256.Copy(this);
      tmp.ValueBound();
      var out: string := "";
      while true
        invariant tmp.Valid() && fresh(tmp.data) && tmp.Value() < Modulus()
        invariant Decimal(Value()) == Decimal(tmp.Value()) + Reversed(out)
        decreases tmp.Value()
      {
        ghost var v := tmp.Value();
        var ten := new ArithUint256(10);
        var thrown, tmpNext := tmp.Quotient(ten);
        var product := tmpNext.Times32(10);
        var decimal := tmp.Minus(product);
        LastDigit(v);
        tmp := tmpNext;
        var low := decimal.GetLow64();
        PrintStep(Decimal(Value()), v, out);
        out := out + [(low + '0' as int) as char];
        var zero := new ArithUint256(0);
        var cmp := tmp.CompareTo(zero);
        if cmp <= 0 {
          return Reversed(out);
        }
      }
    }

    constructor FromString(num: string)
      ensures Valid() && fresh(data) && Value() == Parsed(num)
    {
      hide Pow, Nat, Modulus, Wrap;
      var d := new byte[SIZE](i => 0);
      data := d;
      new;
      Assign64(0);
      var i := 0;
      while i < |num|
        invariant 0 <= i <= |num| && Value() == Parsed(num[..i])
      {
        assert num[..i + 1][..i] == num[..i];
        MulAssign32(10);
        var digit := new ArithUint256(SymbolValue(num[i]));
        AddAssign(digit);
        i := i + 1;
      }
      assert num[..i] == num;
    }

    // ---- Compact bits ----

    /** The decoded target with the two flags the caller may ask for. */
    constructor FromBits(bits: nat)
      requires bits < UINT32
      ensures Valid() && fresh(data)
      ensures Value() == Wrap(Exact(Split(bits)))
    {
      hide Pow, Nat, Modulus, Wrap;
      var d := new byte[SIZE](i => 0);
      data := d;
      new;
      var nSize, nWord := bits / SIZE_UNIT, bits % SIGN;
      if nSize <= 3 {
        DivShrinksPow(nWord, 3 - nSize);
        nWord := nWord / Pow(256, 3 - nSize);
        Assign64(nWord);
        ValueBound();
        WrapIsExact(Value());
      } else {
        Assign64(nWord);
        ShiftLeftAssign(8 * (nSize - 3));
        Pow256IsPow2(nSize - 3);
      }
    }

    /** The flags that `fromBits` reports beside the target. */
    static method CompactFlags(bits: nat) returns (negative: bool, overflow: bool)
      requires bits < UINT32
      ensures negative <==> Effective(Split(bits)) != 0 && bits / SIGN % 2 == 1
      ensures overflow <==> Exact(Split(bits)) >= Modulus()
    {
      hide Pow, Modulus, Wrap, Exact;
      var nSize, nWord := bits / SIZE_UNIT, bits % SIGN;
      if nSize <= 3 {
        nWord := nWord / Pow(256, 3 - nSize);
      }
      OverflowIsExact(Split(bits));
      negative := nWord != 0 && bits / SIGN % 2 == 1;
      overflow := nWord != 0 && (nSize > 34 || (nWord > 0xff && nSize > 33) || (nWord > 0xffff && nSize > 32));
    }

    /** The three most significant bytes of an `nSize`-byte number, as `toBits` reads them. */
    method TopThreeBytes(nSize: nat) returns (nCompact: nat)
      requires Valid() && nSize == ByteLength(Value()) <= 256
      ensures nCompact == Mantissa(Value())
    {
      hide Pow, Nat, ByteLength, Mantissa;
      MantissaCases(Value());
      if nSize <= 3 {
        var low := GetLow64();
        nCompact := low % UINT32 * Pow(256, 3 - nSize);
      } else {
        var bn := new ArithUint256.Copy(this);
        bn.ShiftRightAssign(8 * (nSize - 3));
        Pow256IsPow2(nSize - 3);
        var low := bn.GetLow64();
        nCompact := low % UINT32;
      }
    }

    method ToBits(negative: bool) returns (r: nat)
      requires Valid()
      ensures r == ToCompact(Value(), negative) < UINT32
    {
      hide Pow, Nat, Modulus, Wrap, ByteLength, Mantissa, Encode, BitOr;
      ghost var v := Value();
      ValueBound();
      var nBits := Bits();
      var nSize := (nBits + 7) / 8;
      ByteLengthOfBits(v, nBits);
      MantissaCases(v);
      EncodeFits(v);
      var nCompact := TopThreeBytes(nSize);
      SignBit(nCompact);
      if nCompact / SIGN % 2 != 0 {
        nCompact := nCompact / 256;
        nSize := nSize + 1;
      }
      assert Encode(v) == Compact(nSize, nCompact);
      r := PackBits(nCompact, nSize, negative);
    }
  }

  /** Puts the size above the mantissa, and the sign bit between them. */
  method PackBits(word: nat, nSize: nat, negative: bool) returns (nCompact: nat)
    requires word < SIGN && nSize < 256
    ensures nCompact == nSize * SIZE_UNIT + word + (if negative && word != 0 then SIGN else 0) < UINT32
  {
    hide BitOr;
    CompactFields(word, nSize);
    assert word % SIGN == word;
    var sign := if negative && word % SIGN != 0 then SIGN else 0;
    nCompact := BitOr(word, nSize * SIZE_UNIT);
    nCompact := BitOr(nCompact, sign);
  }

  lemma SignBit(m: nat)
    requires m < SIZE_UNIT
    ensures m / SIGN % 2 != 0 <==> m >= SIGN
    ensures m / 256 < SIGN
  {
  }

  lemma LastDigit(v: nat)
    requires v < Modulus()
    ensures Wrap(v / 10 * 10) == v / 10 * 10
    ensures Wrap(v - v / 10 * 10) == v % 10 && v % 10 % UINT64 == v % 10
  {
    hide Modulus, Wrap;
    WrapIsExact(v / 10 * 10);
    WrapIsExact(v % 10);
  }

  /** How the encoder comes to its mantissa, through 64- and 32-bit words. */
  lemma MantissaCases(v: nat)
    ensures Mantissa(v) < SIZE_UNIT
    ensures ByteLength(v) <= 3 ==> v % UINT64 % UINT32 * Pow(256, 3 - ByteLength(v)) == Mantissa(v)
    ensures ByteLength(v) > 3 ==> v / Pow(256, ByteLength(v) - 3) % UINT64 % UINT32 == Mantissa(v)
    ensures Encode(v) == (if Mantissa(v) >= SIGN then Compact(ByteLength(v) + 1, Mantissa(v) / 256)
                          else Compact(ByteLength(v), Mantissa(v)))
  {
    hide ByteLength, Pow;
    MantissaBounds(v);
    var n := ByteLength(v);
    if n <= 3 {
      MulMonotone(1, Pow(256, 3 - n), v);
      SmallWord(v);
    } else {
      SmallWord(v / Pow(256, n - 3));
    }
  }

  lemma SmallWord(x: nat)
    requires x < SIZE_UNIT
    ensures x % UINT64 % UINT32 == x
  {
  }

  lemma CompactFields(word: nat, size: nat)
    requires word < SIGN && size < 256
    ensures BitOr(word, size * SIZE_UNIT) == word + size * SIZE_UNIT
    ensures BitOr(word + size * SIZE_UNIT, SIGN) == word + size * SIZE_UNIT + SIGN
    ensures BitOr(word + size * SIZE_UNIT, 0) == word + size * SIZE_UNIT
  {
    hide Pow, BitOr;
    FieldWeights();
    BitOrDisjoint(word, size, 24);
    BitOrBetween(word, size, 23);
    BitOrDisjoint(0, word + size * SIZE_UNIT, 0);
  }

  lemma FieldWeights()
    ensures Pow(2, 0) == 1 && Pow(2, 23) == SIGN && Pow(2, 24) == SIZE_UNIT
  {
    Pow2Bytes();
    PowAdd(2, 8, 8);
    PowAdd(2, 16, 7);
    PowAdd(2, 16, 8);
  }
}
