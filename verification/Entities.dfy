/** The entities inside PopData and their VBK encodings. Writers that are followed by more
    data take it as `tail`; nested raw encodings are written on their own. */
module Entities {
  import opened Numbers
  import opened Codec
  import opened Streams
  import opened Serde
  import opened Addresses

  const MAX_POPDATA_SIZE := 5500000
  const MAX_SIGNATURE_SIZE := 72
  const MAX_PUBLIC_KEY_SIZE := 88
  const MAX_LAYERS := 40
  const HASH_SIZE := 32
  const BTC_TX_MAX_RAW_SIZE := 4000000
  const MAX_HEADER_SIZE := 1024
  const MAX_CONTEXT_SIZE := 10000
  const MAX_PAYOUT_INFO_SIZE := 10000
  const MAX_PUBLICATIONDATA_SIZE := 1 + 8 + 1 + MAX_HEADER_SIZE + 1 + MAX_PAYOUT_INFO_SIZE + 1 + MAX_CONTEXT_SIZE
  const MAX_BTC_BLOCKS_IN_VBKPOPTX := 65535
  const VBK_TX: byte := 1
  const VBK_POP_TX: byte := 2

  // ---------------------------------------------------------------- fixed-width fields

  /** A signed big-endian number of `n` bytes. */
  function ReadInt(n: nat, s: bytes): Parsed<int>
    requires n > 0
  {
    var (u, rest) :- ParseBE(n, s);
    Done(ToSigned(u, 8 * n), rest)
  }

  lemma IntRoundTrip(v: int, n: nat, tail: bytes)
    requires n > 0 && FitsSigned(v, 8 * n)
    ensures ReadInt(n, BigEndian(v, n) + tail) == Done(v, tail)
  {
    ReadBigEndian(v, n, tail);
    Pow256IsPow2(n);
    SignedRoundTrip(v, 8 * n);
  }

  lemma UnsignedRoundTrip(v: nat, n: nat, tail: bytes)
    ensures ParseBE(n, BigEndian(v, n) + tail) == Done(v % Pow(256, n), tail)
    ensures v < Pow(256, n) ==> v % Pow(256, n) == v
  {
    ReadBigEndian(v, n, tail);
    if v < Pow(256, n) {
      DivModUnique(v, Pow(256, n), 0, v);
    }
  }

  // ---------------------------------------------------------------- VBK blocks

  datatype VbkBlock = VbkBlock(
    height: int, version: int, previousBlock: bytes, previousKeystone: bytes, secondPreviousKeystone: bytes,
    merkleRoot: bytes, timestamp: nat, difficulty: int, nonce: nat)

  /** The fields are what their types allow. */
  predicate IsVbkBlock(b: VbkBlock) {
    && FitsSigned(b.height, 32) && FitsSigned(b.version, 16) && FitsSigned(b.difficulty, 32)
    && |b.previousBlock| == 12 && |b.previousKeystone| == 9 && |b.secondPreviousKeystone| == 9
    && |b.merkleRoot| == 16 && b.timestamp < Pow(256, 4) && b.nonce < Pow(256, 8)
  }

  function VbkBlockRaw(b: VbkBlock): bytes {
    BigEndian(b.height, 4) + (BigEndian(b.version, 2) + (b.previousBlock + (b.previousKeystone +
    (b.secondPreviousKeystone + (b.merkleRoot + (BigEndian(b.timestamp, 4) + (BigEndian(b.difficulty, 4) +
    (BigEndian(b.nonce, 5) + []))))))))
  }

  function ReadVbkBlockRaw(s: bytes): Parsed<VbkBlock> {
    var (height, s1) :- ReadInt(4, s);
    var (version, s2) :- ReadInt(2, s1);
    var (previousBlock, s3) :- Take(12, s2);
    var (previousKeystone, s4) :- Take(9, s3);
    var (secondPreviousKeystone, s5) :- Take(9, s4);
    var (merkleRoot, s6) :- Take(16, s5);
    var (timestamp, s7) :- ParseBE(4, s6);
    var (difficulty, s8) :- ReadInt(4, s7);
    var (nonce, s9) :- ParseBE(5, s8);
    Done(VbkBlock(height, version, previousBlock, previousKeystone, secondPreviousKeystone, merkleRoot,
                  timestamp, difficulty, nonce), s9)
  }

  function WriteVbkBlock(b: VbkBlock): bytes {
    WriteByteLen(VbkBlockRaw(b))
  }

  const VBK_BLOCK_SIZE := 66

  function ReadVbkBlock(s: bytes): Parsed<VbkBlock> {
    var (value, rest) :- ReadByteLen(65, 65, s);
    var (b, _) :- ReadVbkBlockRaw(value);
    Done(b, rest)
  }

  lemma VbkBlockRawRoundTrip(b: VbkBlock)
    requires IsVbkBlock(b)
    ensures |VbkBlockRaw(b)| == 65
    ensures ReadVbkBlockRaw(VbkBlockRaw(b)) == Done(b.(nonce := b.nonce % Pow(256, 5)), [])
  {
    hide BigEndian, BE, Pow, FitsSigned, ToSigned;
    var t9: bytes := [];
    var t8 := BigEndian(b.nonce, 5) + t9;
    var t7 := BigEndian(b.difficulty, 4) + t8;
    var t6 := BigEndian(b.timestamp, 4) + t7;
    var t5 := b.merkleRoot + t6;
    var t4 := b.secondPreviousKeystone + t5;
    var t3 := b.previousKeystone + t4;
    var t2 := b.previousBlock + t3;
    var t1 := BigEndian(b.version, 2) + t2;
    IntRoundTrip(b.height, 4, t1);
    IntRoundTrip(b.version, 2, t2);
    TakeWritten(b.previousBlock, t3);
    TakeWritten(b.previousKeystone, t4);
    TakeWritten(b.secondPreviousKeystone, t5);
    TakeWritten(b.merkleRoot, t6);
    UnsignedRoundTrip(b.timestamp, 4, t7);
    IntRoundTrip(b.difficulty, 4, t8);
    UnsignedRoundTrip(b.nonce, 5, t9);
  }

  /** A block comes back but for the nonce, of which five bytes are kept. */
  lemma VbkBlockRoundTrip(b: VbkBlock, tail: bytes)
    requires IsVbkBlock(b)
    ensures |WriteVbkBlock(b)| == VBK_BLOCK_SIZE
    ensures ReadVbkBlock(WriteVbkBlock(b) + tail) == Done(b.(nonce := b.nonce % Pow(256, 5)), tail)
    ensures ReadVbkBlock(WriteVbkBlock(b) + tail) == Done(b, tail) <==> b.nonce < Pow(256, 5)
  {
    hide Pow, VbkBlockRaw, ReadVbkBlockRaw;
    VbkBlockRawRoundTrip(b);
    ByteLenRoundTrip(VbkBlockRaw(b), 65, 65, tail);
    ModIsSame(b.nonce, Pow(256, 5));
  }

  lemma ModIsSame(v: nat, m: nat)
    requires m > 0
    ensures v % m == v <==> v < m
  {
    if v < m {
      DivModUnique(v, m, 0, v);
    }
  }

  // ---------------------------------------------------------------- BTC blocks

  datatype BtcBlock = BtcBlock(
    version: int, previousBlock: bytes, merkleRoot: bytes, timestamp: nat, bits: nat, nonce: nat)

  predicate IsBtcBlock(b: BtcBlock) {
    && FitsSigned(b.version, 32) && |b.previousBlock| == HASH_SIZE && |b.merkleRoot| == HASH_SIZE
    && b.timestamp < Pow(256, 4) && b.bits < Pow(256, 4) && b.nonce < Pow(256, 4)
  }

  function BtcBlockRaw(b: BtcBlock): bytes {
    LittleEndian(ToUnsigned(b.version, 32), 4) + (Reversed(b.previousBlock) + (Reversed(b.merkleRoot) +
    (LittleEndian(b.timestamp, 4) + (LittleEndian(b.bits, 4) + (LittleEndian(b.nonce, 4) + [])))))
  }

  function ReadBtcBlockRaw(s: bytes): Parsed<BtcBlock> {
    var (version, s1) :- ParseLE(4, s);
    var (previousBlock, s2) :- Take(HASH_SIZE, s1);
    var (merkleRoot, s3) :- Take(HASH_SIZE, s2);
    var (timestamp, s4) :- ParseLE(4, s3);
    var (bits, s5) :- ParseLE(4, s4);
    var (nonce, s6) :- ParseLE(4, s5);
    Done(BtcBlock(ToSigned(version, 32), Reversed(previousBlock), Reversed(merkleRoot), timestamp, bits, nonce), s6)
  }

  function WriteBtcBlock(b: BtcBlock): bytes {
    WriteByteLen(BtcBlockRaw(b))
  }

  const BTC_BLOCK_SIZE := 81

  function ReadBtcBlock(s: bytes): Parsed<BtcBlock> {
    var (value, rest) :- ReadByteLen(80, 80, s);
    var (b, _) :- ReadBtcBlockRaw(value);
    Done(b, rest)
  }

  lemma BtcBlockRoundTrip(b: BtcBlock, tail: bytes)
    requires IsBtcBlock(b)
    ensures |WriteBtcBlock(b)| == BTC_BLOCK_SIZE
    ensures ReadBtcBlock(WriteBtcBlock(b) + tail) == Done(b, tail)
  {
    hide LittleEndian, Nat, Pow, FitsSigned, ToSigned, ToUnsigned, Reversed;
    var t6: bytes := [];
    var t5 := LittleEndian(b.nonce, 4) + t6;
    var t4 := LittleEndian(b.bits, 4) + t5;
    var t3 := LittleEndian(b.timestamp, 4) + t4;
    var t2 := Reversed(b.merkleRoot) + t3;
    var t1 := Reversed(b.previousBlock) + t2;
    SignedRoundTrip(b.version, 32);
    Pow256IsPow2(4);
    LERoundTrip(4, ToUnsigned(b.version, 32), t1);
    TakeWritten(Reversed(b.previousBlock), t2);
    TakeWritten(Reversed(b.merkleRoot), t3);
    ReversedTwice(b.previousBlock);
    ReversedTwice(b.merkleRoot);
    LERoundTrip(4, b.timestamp, t4);
    LERoundTrip(4, b.bits, t5);
    LERoundTrip(4, b.nonce, t6);
    ByteLenRoundTrip(BtcBlockRaw(b), 80, 80, tail);
  }

  // ---------------------------------------------------------------- coins, outputs, hashes

  datatype Output = Output(address: Address, coin: int)

  predicate IsOutput(h: Hashes, o: Output) {
    IsAddress(h, o.address) && FitsSigned(o.coin, 64)
  }

  function WriteOutput(o: Output): bytes {
    WriteAddress(o.address) + WriteSingleBE(o.coin)
  }

  function OutputSize(o: Output): nat {
    AddressSize(o.address) + SingleBESize(o.coin)
  }

  function ReadOutput(h: Hashes, s: bytes): Parsed<Output> {
    var (address, s1) :- ReadAddress(h, s);
    var (coin, s2) :- ReadSingleBE(8, s1);
    Done(Output(address, coin), s2)
  }

  lemma OutputRoundTrip(h: Hashes, o: Output, tail: bytes)
    requires IsOutput(h, o)
    ensures |WriteOutput(o)| == OutputSize(o)
    ensures ReadOutput(h, WriteOutput(o) + tail) == Done(o, tail)
  {
    hide WriteAddress, ReadAddress, WriteSingleBE, ReadSingleBE, AddressSize, SingleBESize, IsAddress, FitsSigned, Pow;
    var t := WriteSingleBE(o.coin) + tail;
    assert WriteOutput(o) + tail == WriteAddress(o.address) + t;
    AddressRoundTrip(h, o.address, t);
    SingleBERoundTrip(o.coin, 8, tail);
    SingleBESizeIsLength(o.coin);
  }

  function ReadHash(s: bytes): Parsed<bytes> {
    ReadByteLen(HASH_SIZE, HASH_SIZE, s)
  }

  lemma HashesRoundTrip(layers: seq<bytes>, tail: bytes)
    requires forall l <- layers :: |l| == HASH_SIZE
    ensures ReadMany(ReadHash, |layers|, WriteAll(WriteByteLen, layers) + tail) == Done(layers, tail)
    ensures |WriteAll(WriteByteLen, layers)| == 33 * |layers|
  {
    forall l | l in layers
      ensures RoundTrips(WriteByteLen, ReadHash, l)
    {
      forall rest: bytes
        ensures Reads(WriteByteLen, ReadHash, l, rest)
      {
        ByteLenRoundTrip(l, HASH_SIZE, HASH_SIZE, rest);
      }
    }
    ManyRoundTrip(WriteByteLen, ReadHash, layers, tail);
    LayersSize(layers);
  }

  lemma {:induction false} LayersSize(layers: seq<bytes>)
    requires forall l <- layers :: |l| == HASH_SIZE
    ensures |WriteAll(WriteByteLen, layers)| == 33 * |layers|
  {
    if layers != [] {
      assert layers[0] in layers;
      LayersSize(layers[1..]);
    }
  }
}
