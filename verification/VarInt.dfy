/** Bitcoin's variable-length integers: the base-128 form in which every number has exactly
    one encoding, and the compact size in front of vectors. */
module VarInt {
  import opened Numbers
  import opened Codec
  import opened Streams

  /** Maximum of an unsigned integer type of `width` bits. */
  function MaxOf(width: nat): nat {
    Pow(2, width) - 1
  }

  // ---- VarInt ----

  /** The bytes before the last one: all have the high bit set, and one is subtracted at
      every step up. */
  function High(n: nat): bytes {
    (if n <= 0x7f then [] else High(n / 128 - 1)) + [(n % 128 + 128) as byte]
  }

  function Encode(n: nat): bytes {
    (if n <= 0x7f then [] else High(n / 128 - 1)) + [(n % 128) as byte]
  }

  /** The reader, started with the digits `n` already taken in. Fails at the end of the
      stream and on numbers above `max`. */
  function Read(s: bytes, n: nat, max: nat): Parsed<nat> {
    if s == [] || n > max / 128 then Fail else
    var m := n * 128 + s[0] % 128;
    if s[0] < 128 then Done(m, s[1..])
    else if m == max then Fail
    else Read(s[1..], m + 1, max)
  }

  /** One turn of the reader. */
  lemma ReadStep(b: byte, rest: bytes, n: nat, max: nat)
    requires n <= max / 128
    ensures (var m := n * 128 + b % 128;
             Read([b] + rest, n, max)
             == if b < 128 then Done(m, rest) else if m == max then Fail else Read(rest, m + 1, max))
  {
    assert ([b] + rest)[1..] == rest;
  }

  /** The bytes taken in before the reader stands at `n`. */
  function Before(n: nat): bytes {
    if n == 0 then [] else High(n - 1)
  }

  lemma BytesOf(n: nat)
    ensures High(n) == Before(n / 128) + [(n % 128 + 128) as byte]
    ensures Encode(n) == Before(n / 128) + [(n % 128) as byte]
  {
    var q, d := n / 128, n % 128;
    assert n == 128 * q + d && (n <= 0x7f <==> q == 0);
    OneMore(n, q, d);
  }

  lemma OneMore(n: nat, q: nat, d: nat)
    requires q == n / 128 && d == n % 128 && (n <= 0x7f <==> q == 0)
    ensures High(n) == Before(q) + [(d + 128) as byte]
    ensures Encode(n) == Before(q) + [d as byte]
  {
  }

  lemma Assoc(a: bytes, b: bytes, c: bytes)
    ensures (a + b) + c == a + (b + c)
  {
  }

  lemma {:induction false} ReadBefore(n: nat, rest: bytes, max: nat)
    requires n <= max / 128
    ensures Read(Before(n) + rest, 0, max) == Read(rest, n, max)
    decreases n
  {
    if n == 0 {
      assert Before(0) + rest == rest;
    } else {
      hide High, Read;
      var m := n - 1;
      var b := (m % 128 + 128) as byte;
      BytesOf(m);
      Assoc(Before(m / 128), [b], rest);
      ReadBefore(m / 128, [b] + rest, max);
      ReadStep(b, rest, m / 128, max);
    }
  }

  /** Writing then reading gives the number back, for every number of the type. */
  lemma VarIntRoundTrip(n: nat, rest: bytes, max: nat)
    requires n <= max
    ensures Read(Encode(n) + rest, 0, max) == Done(n, rest)
  {
    hide High, Read, Encode;
    var b := (n % 128) as byte;
    BytesOf(n);
    Assoc(Before(n / 128), [b], rest);
    ReadBefore(n / 128, [b] + rest, max);
    ReadStep(b, rest, n / 128, max);
  }

  lemma {:induction false} ReadIsCanonicalFrom(s: bytes, n: nat, max: nat)
    requires max % 128 == 127 && Read(s, n, max).Done?
    ensures var r := Read(s, n, max);
            r.value <= max && Encode(r.value) + r.rest == Before(n) + s
    decreases |s|
  {
    hide High, Read, Encode;
    ReadStarts(s, n, max);
    var b, tail := s[0], s[1..];
    var m := n * 128 + b % 128;
    assert s == [b] + tail;
    ReadStep(b, tail, n, max);
    BytesOf(m);
    NextDigit(n, b, max);
    Assoc(Before(n), [b], tail);
    if b >= 128 {
      ReadIsCanonicalFrom(tail, m + 1, max);
    }
  }

  lemma ReadStarts(s: bytes, n: nat, max: nat)
    requires Read(s, n, max).Done?
    ensures s != [] && n <= max / 128
  {
  }

  lemma NextDigit(n: nat, b: byte, max: nat)
    requires max % 128 == 127 && n <= max / 128
    ensures var m := n * 128 + b % 128; m <= max && m / 128 == n && m % 128 == b % 128
  {
  }

  /** Every accepted byte string is the one encoding of the number read: re-encoding gives
      exactly the bytes consumed. */
  lemma VarIntIsCanonical(s: bytes, max: nat)
    requires max % 128 == 127 && Read(s, 0, max).Done?
    ensures var r := Read(s, 0, max); r.value <= max && s == Encode(r.value) + r.rest
  {
    ReadIsCanonicalFrom(s, 0, max);
  }

  /** Two numbers never share an encoding, nor is one encoding the start of another. */
  lemma VarIntPrefixFree(a: nat, b: nat, rest: bytes)
    requires Encode(a) + rest == Encode(b)
    ensures a == b && rest == []
  {
    var max := if a < b then b else a;
    VarIntRoundTrip(a, rest, max);
    VarIntRoundTrip(b, [], max);
    assert Encode(b) + [] == Encode(b);
  }

  lemma {:induction false} HighLength(n: nat)
    ensures |High(n)| == |Encode(n)|
  {
  }

  /** The encoding of a `width`-bit number fits the writer's buffer of (width + 6) / 7. */
  lemma {:induction false} VarIntFits(n: nat, width: nat)
    requires width > 0 && n < Pow(2, width)
    ensures |Encode(n)| <= (width + 6) / 7
    decreases n
  {
    if n > 0x7f {
      Pow2Bytes();
      if width <= 7 {
        PowMonotone(2, width, 7);
      } else {
        PowAdd(2, 7, width - 7);
        VarIntFits(n / 128 - 1, width - 7);
        HighLength(n / 128 - 1);
      }
    }
  }

  lemma MaxOfWidth(width: nat)
    requires width >= 7
    ensures MaxOf(width) % 128 == 127
  {
    Pow2Bytes();
    PowAdd(2, 7, width - 7);
  }

  /** How many bytes `WriteVarInt` is going to write. */
  method GetSizeOfVarInt(n: nat) returns (nRet: nat)
    ensures nRet == |Encode(n)|
  {
    var m := n;
    nRet := 0;
    while true
      invariant nRet + |Encode(m)| == |Encode(n)|
      decreases m
    {
      nRet := nRet + 1;
      if m <= 0x7f {
        break;
      }
      HighLength(m / 128 - 1);
      m := m / 128 - 1;
    }
  }

  /** Fills a scratch buffer from the last byte back, then writes it out in reverse. */
  method WriteVarInt(os: WriteStream, n: nat, width: nat)
    requires 7 <= width && n <= MaxOf(width)
    modifies os
    ensures os.data == old(os.data) + Encode(n)
  {
    hide Encode, High, Reversed, Pending, Pow;
    var tmp := new byte[(width + 6) / 7](i => 0);
    var len := 0;
    var m := n;
    VarIntFits(n, width);
    TailStart(n);
    assert tmp[..0] == [];
    while true
      invariant os.data == old(os.data) && len < tmp.Length && |Encode(n)| <= tmp.Length
      invariant Encode(n) == Pending(m, len) + Reversed(tmp[..len])
      decreases m
    {
      ghost var before := tmp[..len];
      var b: byte := m % 128 + (if len != 0 then 0x80 else 0);
      tmp[len] := b;
      assert tmp[..len + 1] == before + [b];
      PendingStep(m, len, b, before);
      if m <= 0x7f {
        break;
      }
      m := m / 128 - 1;
      len := len + 1;
    }
    assert Encode(n) == Reversed(tmp[..len + 1]);
    WriteReversed(os, tmp, len + 1);
  }

  /** The second loop of `WriteVarInt`. */
  method WriteReversed(os: WriteStream, tmp: array<byte>, count: nat)
    requires count <= tmp.Length
    modifies os
    ensures os.data == old(os.data) + Reversed(old(tmp[..count]))
  {
    hide Reversed, LittleEndian;
    var k := count;
    while k > 0
      invariant 0 <= k <= count && tmp[..] == old(tmp[..])
      invariant os.data + Reversed(tmp[..k]) == old(os.data) + Reversed(old(tmp[..count]))
    {
      k := k - 1;
      assert tmp[..k + 1] == tmp[..k] + [tmp[k]];
      ReversedPush(tmp[..k], tmp[k]);
      Assoc(os.data, [tmp[k]], Reversed(tmp[..k]));
      OneByte(tmp[k]);
      os.WriteLE(tmp[k], 1);
    }
    ReversedEmpty(tmp[..0]);
  }

  lemma ReversedEmpty(s: bytes)
    requires s == []
    ensures Reversed(s) == []
  {
  }

  /** The bytes still to be produced for `m` when `len` later ones are in the buffer. */
  function Pending(m: nat, len: nat): bytes {
    if len == 0 then Encode(m) else High(m)
  }

  lemma TailStart(n: nat)
    ensures Encode(n) == Pending(n, 0) + Reversed<byte>([])
  {
  }

  /** Putting the next byte into the buffer leaves the bytes before it to be produced. */
  lemma PendingStep(m: nat, len: nat, b: byte, before: bytes)
    requires b == m % 128 + (if len != 0 then 0x80 else 0)
    ensures m <= 0x7f ==> Pending(m, len) + Reversed(before) == Reversed(before + [b])
    ensures m > 0x7f ==> Pending(m, len) + Reversed(before) == Pending(m / 128 - 1, len + 1) + Reversed(before + [b])
    ensures m > 0x7f ==> |Reversed(before + [b])| + 1 <= |Pending(m, len) + Reversed(before)|
  {
    ReversedPush(before, b);
    if m > 0x7f {
      Assoc(High(m / 128 - 1), [b], Reversed(before));
      assert |High(m / 128 - 1)| > 0;
    }
  }

  method ReadVarInt(ins: ReadStream, width: nat) returns (r: Parsed<nat>)
    requires ins.Valid() && 7 <= width
    modifies ins
    ensures ins.Valid() && r == Read(old(ins.Rest()), 0, MaxOf(width))
    ensures r.Done? ==> ins.Rest() == r.rest
  {
    hide Read, MaxOf, ParseLE;
    var n, max := 0, MaxOf(width);
    ghost var s := ins.Rest();
    while true
      invariant ins.Valid() && Read(ins.Rest(), n, max) == Read(s, 0, max)
      decreases |ins.Rest()|
    {
      ghost var rest := ins.Rest();
      ReadStops(rest, n, max);
      var b := ins.ReadLE(1);
      if b.Fail? {
        return Fail;
      }
      ReadOneByte(rest);
      var chData := b.value;
      if n > max / 128 {
        return Fail;
      }
      ReadStep(rest[0], rest[1..], n, max);
      assert rest == [rest[0]] + rest[1..];
      n := n * 128 + chData % 128;
      if chData >= 128 {
        if n == max {
          return Fail;
        }
        n := n + 1;
      } else {
        return Done(n, ins.buffer[ins.pos..]);
      }
    }
  }

  lemma ReadStops(s: bytes, n: nat, max: nat)
    ensures s == [] || n > max / 128 ==> Read(s, n, max).Fail?
    ensures s == [] ==> ParseLE(1, s).Fail?
    ensures ParseLE(1, s).Fail? ==> s == []
  {
  }

  lemma ReadOneByte(s: bytes)
    requires ParseLE(1, s).Done?
    ensures s != [] && ParseLE(1, s) == Done(s[0], s[1..])
  {
    assert s[..1] == [s[0]];
    assert Nat([s[0]]) == s[0];
  }

  /** A number through streams, for every width: it is written, read back, and nothing is left. */
  method VarIntThroughStreams(n: nat, width: nat) returns (r: Parsed<nat>)
    requires 7 <= width && n <= MaxOf(width)
    ensures r == Done(n, [])
  {
    hide Encode, Read, MaxOf;
    var out := new WriteStream();
    WriteVarInt(out, n, width);
    var input := new ReadStream(out.data);
    VarIntRoundTrip(n, [], MaxOf(width));
    assert out.data == Encode(n) + [];
    r := ReadVarInt(input, width);
  }

  /** And the other way round: what is read and written again are the bytes that were consumed. */
  method VarIntReencoded(b: bytes, width: nat) returns (r: Parsed<nat>, again: bytes)
    requires 7 <= width
    ensures r.Done? ==> r.value <= MaxOf(width) && b == again + r.rest
    ensures r.Fail? ==> Read(b, 0, MaxOf(width)).Fail? && again == []
  {
    hide Encode, Read, MaxOf, Pow;
    CanonicalForWidth(b, width);
    var input := new ReadStream(b);
    r := ReadVarInt(input, width);
    if r.Fail? {
      return r, [];
    }
    var out := new WriteStream();
    WriteVarInt(out, r.value, width);
    assert out.data == Encode(r.value);
    again := out.data;
  }

  /** Canonicity for the numbers of a width. */
  lemma CanonicalForWidth(s: bytes, width: nat)
    requires width >= 7
    ensures var r := Read(s, 0, MaxOf(width)); r.Done? ==> r.value <= MaxOf(width) && s == Encode(r.value) + r.rest
  {
    hide Encode, Read, MaxOf;
    MaxOfWidth(width);
    if Read(s, 0, MaxOf(width)).Done? {
      VarIntIsCanonical(s, MaxOf(width));
    }
  }

  // ---- Compact size ----

  const MAX_SIZE := 0x0200_0000

  function EncodeSize(n: nat): bytes {
    if n < 253 then [n]
    else if n <= 0xffff then [253] + LittleEndian(n, 2)
    else if n <= 0xffff_ffff then [254] + LittleEndian(n, 4)
    else [255] + LittleEndian(n, 8)
  }

  /** Fails on forms longer than needed and on sizes above MAX_SIZE. */
  function ReadSize(s: bytes): Parsed<nat> {
    var (ch, s1) :- ParseLE(1, s);
    var (n, s2) :- (if ch < 253 then Done(ch, s1)
                    else if ch == 253 then AtLeast(ParseLE(2, s1), 253)
                    else if ch == 254 then AtLeast(ParseLE(4, s1), 0x1_0000)
                    else AtLeast(ParseLE(8, s1), 0x1_0000_0000));
    if n > MAX_SIZE then Fail else Done(n, s2)
  }

  function AtLeast(r: Parsed<nat>, min: nat): Parsed<nat> {
    if r.Done? && r.value < min then Fail else r
  }

  lemma PowersOf256()
    ensures Pow(256, 1) == 0x100 && Pow(256, 2) == 0x1_0000
    ensures Pow(256, 4) == 0x1_0000_0000 && Pow(256, 8) == 0x1_0000_0000_0000_0000
  {
    PowAdd(256, 4, 4);
  }

  lemma SizeHead(b: byte, tail: bytes)
    ensures ParseLE(1, [b] + tail) == Done(b, tail)
  {
    OneByte(b);
    PowersOf256();
    LERoundTrip(1, b, tail);
  }

  /** A 64-bit size comes back exactly when it does not exceed MAX_SIZE; larger ones are
      written but never accepted. */
  lemma SizeRoundTrip(n: nat, rest: bytes)
    requires n < 0x1_0000_0000_0000_0000
    ensures ReadSize(EncodeSize(n) + rest) == if n <= MAX_SIZE then Done(n, rest) else Fail
  {
    PowersOf256();
    if n < 253 {
      SizeHead(n, rest);
    } else if n <= 0xffff {
      Assoc([253], LittleEndian(n, 2), rest);
      SizeHead(253, LittleEndian(n, 2) + rest);
      LERoundTrip(2, n, rest);
    } else if n <= 0xffff_ffff {
      Assoc([254], LittleEndian(n, 4), rest);
      SizeHead(254, LittleEndian(n, 4) + rest);
      LERoundTrip(4, n, rest);
    } else {
      Assoc([255], LittleEndian(n, 8), rest);
      SizeHead(255, LittleEndian(n, 8) + rest);
      LERoundTrip(8, n, rest);
    }
  }

  /** Every accepted size was written in its one form. */
  lemma SizeIsCanonical(s: bytes)
    requires ReadSize(s).Done?
    ensures var r := ReadSize(s); r.value <= MAX_SIZE && s == EncodeSize(r.value) + r.rest
  {
    PowersOf256();
    var r1 := ParseLE(1, s);
    ReadOneByte(s);
    var ch, s1 := s[0], s[1..];
    assert s == [ch] + s1;
    if ch >= 253 {
      var k := if ch == 253 then 2 else if ch == 254 then 4 else 8;
      LEReadWritten(k, s1);
      Assoc([ch], LittleEndian(ReadSize(s).value, k), ReadSize(s).rest);
    }
  }
}
