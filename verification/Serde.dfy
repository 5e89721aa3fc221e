/** The length-prefixed values of the VBK encoding: readers that take them off the front of a
    byte string, writers, size estimates, and the stream operations of the library. */
module Serde {
  import opened Numbers
  import opened Codec
  import opened Streams
  import opened Wrappers

  const INT64 := 0x8000_0000_0000_0000

  predicate IsInt64(v: int) {
    -INT64 <= v < INT64
  }

  // ---------------------------------------------------------------- trimmed numbers

  /** The least number of bytes, at least one, that hold a non-negative number. */
  function ByteCount(v: nat): (n: nat)
    ensures n >= 1
  {
    if v == 0 then 1 else ByteLength(v)
  }

  lemma ByteCountLeast(v: nat, n: nat)
    requires n >= 1
    ensures ByteCount(v) <= n <==> v < Pow(256, n)
  {
    hide Pow, ByteLength;
    var m := ByteLength(v);
    if v > 0 && m <= n {
      PowMonotone(256, m, n);
    } else if v > 0 {
      PowMonotone(256, n, m - 1);
    }
  }

  /** A negative number keeps all eight bytes. */
  function TrimmedLength(v: int): (n: nat)
    ensures n >= 1
  {
    if v < 0 then 8 else ByteCount(v)
  }

  function Trimmed(v: int): bytes {
    BigEndian(v, TrimmedLength(v))
  }

  lemma {:induction false} BigEndianAt(v: int, n: nat, j: nat)
    requires j < n
    ensures BigEndian(v, n)[n - 1 - j] == v / Pow(256, j) % 256
    decreases n
  {
    if j > 0 {
      BigEndianAt(v / 256, n - 1, j - 1);
      DivDiv(v, 256, Pow(256, j - 1));
    }
  }

  lemma {:induction false} BigEndianMod(v: int, n: nat)
    ensures BE(BigEndian(v, n), 256) == v % Pow(256, n)
    decreases n
  {
    hide Pow, BE, BigEndian;
    if n == 0 {
      NoBytes(v);
    } else {
      BigEndianMod(v / 256, n - 1);
      var p := Pow(256, n - 1);
      PowStep(256, n - 1);
      LastByte(v, n);
      Recombine(v, p, v / 256 / p, v / 256 % p);
    }
  }

  lemma NoBytes(v: int)
    ensures BE(BigEndian(v, 0), 256) == v % Pow(256, 0)
  {
    DivModUnique(v, 1, v, 0);
  }

  lemma LastByte(v: int, n: nat)
    requires n > 0
    ensures BE(BigEndian(v, n), 256) == BE(BigEndian(v / 256, n - 1), 256) * 256 + v % 256
  {
    assert BigEndian(v, n)[..n - 1] == BigEndian(v / 256, n - 1);
  }

  lemma Recombine(v: int, p: int, q: int, r: int)
    requires p > 0 && v / 256 == q * p + r && 0 <= r < p
    ensures v % (256 * p) == r * 256 + v % 256
  {
    assert v == (q * p + r) * 256 + v % 256;
    assert (q * p) * 256 == q * (256 * p) by {
      MulAssoc(q, p, 256);
    }
    DivModUnique(v, 256 * p, q, r * 256 + v % 256);
  }

  /** Trims leading zero bytes: shifts until a byte is left, then fills the bytes from the
      back. */
  method TrimmedArray(input: int) returns (output: bytes)
    requires IsInt64(input)
    ensures output == Trimmed(input)
  {
    hide BigEndian, ByteCount;
    var x := 8;
    var again := true;
    while again
      invariant 1 <= x <= 8 && again == (x > 1)
      invariant x < 8 ==> 0 <= input < Pow(256, x)
      decreases x
    {
      if input / Pow(256, x - 1) != 0 {
        break;
      }
      ShiftedToZero(input, Pow(256, x - 1));
      x := x - 1;
      again := x > 1;
    }
    TrimmedStop(input, x);
    output := LowBytes(input, x);
  }

  /** The low bytes of a number, filled in from the back. */
  method LowBytes(input: int, x: nat) returns (output: bytes)
    ensures output == BigEndian(input, x)
  {
    hide Pow, BigEndian;
    var out := new byte[x];
    var rest := input;
    ShiftedByNothing(input);
    for i := 0 to x
      invariant rest == input / Pow(256, i)
      invariant forall j :: 0 <= j < i ==> out[x - 1 - j] as int == input / Pow(256, j) % 256
    {
      out[x - i - 1] := rest % 256;
      DivDiv(input, Pow(256, i), 256);
      PowStep(256, i);
      rest := rest / 256;
    }
    forall k | 0 <= k < x
      ensures out[k] == BigEndian(input, x)[k]
    {
      BigEndianAt(input, x, x - 1 - k);
    }
    output := out[..];
  }

  lemma ShiftedByNothing(v: int)
    ensures v / Pow(256, 0) == v
  {
  }

  lemma ShiftedToZero(v: int, p: nat)
    requires p > 0 && v / p == 0
    ensures 0 <= v < p
  {
  }

  lemma TrimmedStop(v: int, x: nat)
    requires IsInt64(v) && 1 <= x <= 8
    requires x < 8 ==> 0 <= v < Pow(256, x)
    requires x > 1 ==> v / Pow(256, x - 1) != 0
    ensures TrimmedLength(v) == x
  {
    if v >= 0 {
      if x == 8 {
        Pow2Bytes();
        assert v < Pow(256, 8);
      }
      ByteCountLeast(v, x);
      if x > 1 {
        NotBelow(v, Pow(256, x - 1));
        ByteCountLeast(v, x - 1);
      }
    }
  }

  lemma NotBelow(v: nat, p: nat)
    requires p > 0 && v / p != 0
    ensures v >= p
  {
  }

  // ---------------------------------------------------------------- length-prefixed values

  /** A number behind a byte that says how many bytes it takes. */
  function WriteSingleBE(v: int): bytes {
    [TrimmedLength(v) % 256] + Trimmed(v)
  }

  /** A number that always takes `width` bytes, behind that length. */
  function WriteFixedBE(v: int, width: nat): bytes
    requires width < 256
  {
    [width] + BigEndian(v, width)
  }

  function ReadByte(s: bytes): Parsed<byte> {
    if s == [] then Fail else Done(s[0], s[1..])
  }

  /** A signed number of `width` bytes at most. */
  function ReadSingleBE(width: nat, s: bytes): Parsed<int>
    requires width > 0
  {
    var (len, s1) :- ReadByte(s);
    if len > width then Fail else
    var (v, s2) :- ParseBE(len, s1);
    Done(ToSigned(v, 8 * width), s2)
  }

  /** The writer asserts this of what it is given. */
  predicate CanWriteByteLen(b: bytes) {
    |b| < 256
  }

  function WriteByteLen(b: bytes): bytes {
    [|b| % 256] + b
  }

  function ReadByteLen(min: nat, max: nat, s: bytes): Parsed<bytes> {
    var (len, s1) :- ReadByte(s);
    if len < min || len > max then Fail else Take(len, s1)
  }

  function WriteVarLen(b: bytes): bytes {
    WriteSingleBE(|b|) + b
  }

  function ReadVarLen(min: nat, max: nat, s: bytes): Parsed<bytes> {
    var (len, s1) :- ReadSingleBE(4, s);
    if len < min || len > max then Fail else Take(len, s1)
  }

  function WriteContainer<T>(write: Writer<T>, xs: seq<T>): bytes {
    WriteSingleBE(|xs|) + WriteAll(write, xs)
  }

  function ReadArrayOf<T>(read: Reader<T>, min: nat, max: nat, s: bytes): Parsed<seq<T>> {
    var (count, s1) :- ReadSingleBE(4, s);
    if count < min || count > max then Fail else ReadMany(read, count, s1)
  }

  // ---- Sizes ----

  function SingleBESize(v: int): nat {
    1 + TrimmedLength(v)
  }

  function VarLenSize(size: nat): nat {
    SingleBESize(size) + size
  }

  function Sum(sizes: seq<nat>): nat {
    if sizes == [] then 0 else sizes[0] + Sum(sizes[1..])
  }

  function ContainerSize<T>(size: T -> nat, xs: seq<T>): nat {
    SingleBESize(|xs|) + TotalSize(size, xs)
  }

  function TotalSize<T>(size: T -> nat, xs: seq<T>): nat {
    if xs == [] then 0 else size(xs[0]) + TotalSize(size, xs[1..])
  }

  lemma SingleBESizeIsLength(v: int)
    ensures |WriteSingleBE(v)| == SingleBESize(v)
  {
  }

  lemma {:induction false} TotalSizeIsLength<T(!new)>(write: Writer<T>, size: T -> nat, xs: seq<T>)
    requires forall x :: x in xs ==> |write(x)| == size(x)
    ensures |WriteAll(write, xs)| == TotalSize(size, xs)
  {
    if xs != [] {
      assert xs[0] in xs;
      TotalSizeIsLength(write, size, xs[1..]);
    }
  }

  // ---- Round trips ----

  lemma ReadByteWritten(x: byte, s: bytes)
    ensures ReadByte([x] + s) == Done(x, s)
  {
    assert ([x] + s)[1..] == s;
  }

  /** Reading one byte as a number. */
  lemma ByteIsNumber(s: bytes)
    ensures s == [] ==> ParseBE(1, s).Fail?
    ensures s != [] ==> ParseBE(1, s) == Done(s[0] as nat, s[1..])
  {
    if s != [] {
      assert s[..1] == [s[0]] && [s[0]][..0] == [];
      assert BE([s[0]], 256) == BE([], 256) * 256 + s[0];
    }
  }

  lemma ReadBigEndian(v: int, n: nat, rest: bytes)
    ensures ParseBE(n, BigEndian(v, n) + rest) == Done(v % Pow(256, n), rest)
  {
    TakeWritten(BigEndian(v, n), rest);
    BigEndianMod(v, n);
  }

  /** A signed number written in its full width comes back. */
  lemma FixedBERoundTrip(v: int, width: nat, rest: bytes)
    requires 0 < width < 256 && FitsSigned(v, 8 * width)
    ensures ReadSingleBE(width, WriteFixedBE(v, width) + rest) == Done(v, rest)
  {
    var tail := BigEndian(v, width) + rest;
    assert WriteFixedBE(v, width) + rest == [width] + tail;
    ReadByteWritten(width, tail);
    ReadBigEndian(v, width, rest);
    Pow256IsPow2(width);
    SignedRoundTrip(v, 8 * width);
  }

  /** A trimmed number comes back when the reader is wide enough for it. */
  lemma SingleBERoundTrip(v: int, width: nat, rest: bytes)
    requires 0 < width <= 8 && FitsSigned(v, 8 * width) && (v >= 0 || width == 8)
    ensures ReadSingleBE(width, WriteSingleBE(v) + rest) == Done(v, rest)
  {
    hide Pow, BigEndian, BE, ByteCount;
    Pow256IsPow2(width);
    if v < 0 {
      assert WriteSingleBE(v) == WriteFixedBE(v, width);
      FixedBERoundTrip(v, width, rest);
    } else {
      var n := ByteCount(v);
      PowMonotone(2, 8 * width - 1, 8 * width);
      ByteCountLeast(v, width);
      ByteCountLeast(v, n);
      var tail := Trimmed(v) + rest;
      assert WriteSingleBE(v) + rest == [n] + tail;
      ReadByteWritten(n, tail);
      ReadBigEndian(v, n, rest);
      DivModUnique(v, Pow(256, n), 0, v);
    }
  }

  /** A count or a length that fits 31 bits comes back from the four-byte reader. */
  lemma CountRoundTrip(v: nat, rest: bytes)
    requires v < 0x8000_0000
    ensures ReadSingleBE(4, WriteSingleBE(v) + rest) == Done(v, rest)
  {
    assert Pow(2, 31) == 0x8000_0000 by {
      Pow2Bytes();
      PowAdd(2, 8, 8);
      PowAdd(2, 16, 8);
      PowAdd(2, 24, 7);
    }
    SingleBERoundTrip(v, 4, rest);
  }

  lemma ByteLenRoundTrip(b: bytes, min: nat, max: nat, rest: bytes)
    requires min <= |b| <= max && |b| < 256
    ensures ReadByteLen(min, max, WriteByteLen(b) + rest) == Done(b, rest)
  {
    assert WriteByteLen(b) + rest == [|b|] + (b + rest);
    ReadByteWritten(|b|, b + rest);
    TakeWritten(b, rest);
  }

  lemma VarLenRoundTrip(b: bytes, min: nat, max: nat, rest: bytes)
    requires min <= |b| <= max < 0x8000_0000
    ensures ReadVarLen(min, max, WriteVarLen(b) + rest) == Done(b, rest)
  {
    assert WriteVarLen(b) + rest == WriteSingleBE(|b|) + (b + rest);
    CountRoundTrip(|b|, b + rest);
    TakeWritten(b, rest);
  }

  lemma ArrayRoundTrip<T(!new)>(write: Writer<T>, read: Reader<T>, xs: seq<T>, min: nat, max: nat, rest: bytes)
    requires min <= |xs| <= max < 0x8000_0000
    requires forall x :: x in xs ==> RoundTrips(write, read, x)
    ensures ReadArrayOf(read, min, max, WriteContainer(write, xs) + rest) == Done(xs, rest)
  {
    assert WriteContainer(write, xs) + rest == WriteSingleBE(|xs|) + (WriteAll(write, xs) + rest);
    CountRoundTrip(|xs|, WriteAll(write, xs) + rest);
    ManyRoundTrip(write, read, xs, rest);
  }

  // ---- The network byte ----

  datatype NetworkByte = NetworkByte(network: Option<byte>, typeId: byte)

  function WriteNetworkByte(p: NetworkByte): bytes {
    (if p.network.Some? then [p.network.value] else []) + [p.typeId]
  }

  function NetworkByteSize(p: NetworkByte): nat {
    if p.network.Some? then 2 else 1
  }

  /** The first byte is the type, unless it differs from the type that is expected; then it is
      the network, and the type comes next. */
  function ReadNetworkByte(expected: byte, s: bytes): Parsed<NetworkByte> {
    var (first, s1) :- ReadByte(s);
    if first == expected then Done(NetworkByte(None, first), s1) else
    var (second, s2) :- ReadByte(s1);
    Done(NetworkByte(Some(first), second), s2)
  }

  /** The pair comes back exactly when the network byte cannot be taken for the type. */
  lemma NetworkByteRoundTrip(p: NetworkByte, expected: byte, rest: bytes)
    ensures ReadNetworkByte(expected, WriteNetworkByte(p) + rest) == Done(p, rest) <==>
            (if p.network.Some? then p.network.value != expected else p.typeId == expected)
  {
    match p.network
    case None =>
      assert WriteNetworkByte(p) + rest == [p.typeId] + rest;
      ReadByteWritten(p.typeId, rest);
    case Some(n) =>
      assert WriteNetworkByte(p) + rest == [n] + ([p.typeId] + rest);
      ReadByteWritten(n, [p.typeId] + rest);
      ReadByteWritten(p.typeId, rest);
  }

  // ---------------------------------------------------------------- on streams

  method ReadSingleByteLenValue(stream: ReadStream, min: nat, max: nat) returns (r: Parsed<bytes>)
    requires stream.Valid()
    modifies stream
    ensures stream.Valid() && r == ReadByteLen(min, max, old(stream.Rest()))
    ensures r.Done? ==> stream.Rest() == r.rest
  {
    ByteIsNumber(stream.Rest());
    var length := stream.ReadBE(1);
    if length.Fail? || length.value < min || length.value > max {
      return Fail;
    }
    r := stream.ReadSlice(length.value);
  }

  method ReadSingleBEValue(stream: ReadStream, width: nat) returns (r: Parsed<int>)
    requires stream.Valid() && width > 0
    modifies stream
    ensures stream.Valid() && r == ReadSingleBE(width, old(stream.Rest()))
    ensures r.Done? ==> stream.Rest() == r.rest
  {
    var data := ReadSingleByteLenValue(stream, 0, width);
    if data.Fail? {
      return Fail;
    }
    var dataStream := new ReadStream(data.value);
    assert data.value[..|data.value|] == data.value;
    var v := dataStream.ReadBE(|data.value|);
    r := Done(ToSigned(v.value, 8 * width), data.rest);
  }

  method ReadVarLenValue(stream: ReadStream, min: nat, max: nat) returns (r: Parsed<bytes>)
    requires stream.Valid()
    modifies stream
    ensures stream.Valid() && r == ReadVarLen(min, max, old(stream.Rest()))
    ensures r.Done? ==> stream.Rest() == r.rest
  {
    var length := ReadSingleBEValue(stream, 4);
    if length.Fail? || length.value < min || length.value > max {
      return Fail;
    }
    r := stream.ReadSlice(length.value);
  }

  method ReadNetworkBytePair(stream: ReadStream, expected: byte) returns (r: Parsed<NetworkByte>)
    requires stream.Valid()
    modifies stream
    ensures stream.Valid() && r == ReadNetworkByte(expected, old(stream.Rest()))
    ensures r.Done? ==> stream.Rest() == r.rest
  {
    ByteIsNumber(stream.Rest());
    var first := stream.ReadBE(1);
    if first.Fail? {
      return Fail;
    }
    if first.value == expected {
      return Done(NetworkByte(None, first.value), first.rest);
    }
    ByteIsNumber(stream.Rest());
    var second := stream.ReadBE(1);
    if second.Fail? {
      return Fail;
    }
    return Done(NetworkByte(Some(first.value), second.value), second.rest);
  }

  method WriteSingleByteLenValue(stream: WriteStream, value: bytes)
    requires CanWriteByteLen(value)
    modifies stream
    ensures stream.data == old(stream.data) + WriteByteLen(value)
  {
    OneByte(|value|);
    stream.WriteBE(|value|, 1, 1);
    stream.Write(value);
  }

  method WriteSingleBEValue(stream: WriteStream, value: int)
    requires IsInt64(value)
    modifies stream
    ensures stream.data == old(stream.data) + WriteSingleBE(value)
  {
    hide BigEndian, ByteCount, Pow;
    var dataBytes := TrimmedArray(value);
    OneByte(|dataBytes| % 256);
    ShortTrimmed(value);
    stream.WriteBE(|dataBytes|, 1, 1);
    stream.Write(dataBytes);
  }

  method WriteVarLenValue(stream: WriteStream, value: bytes)
    requires |value| < INT64
    modifies stream
    ensures stream.data == old(stream.data) + WriteVarLen(value)
  {
    WriteSingleBEValue(stream, |value|);
    stream.Write(value);
  }

  lemma ShortTrimmed(v: int)
    requires IsInt64(v)
    ensures TrimmedLength(v) <= 8
  {
    if v >= 0 {
      Pow2Bytes();
      assert Pow(256, 8) == 0x1_0000_0000_0000_0000;
      ByteCountLeast(v, 8);
    }
  }
}
