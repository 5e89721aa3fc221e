/** Transactions, merkle paths and PopData: the encodings that nest others. Every estimate of
    a size is the length of the encoding, and decoding undoes encoding within the readers'
    limits. */
module PopDataCodec {
  import opened Numbers
  import opened Codec
  import opened Streams
  import opened Serde
  import opened Addresses
  import opened Entities

  // ---------------------------------------------------------------- publication data

  datatype PublicationData = PublicationData(identifier: int, header: bytes, contextInfo: bytes, payoutInfo: bytes)

  predicate IsPublicationData(p: PublicationData) {
    && FitsSigned(p.identifier, 64) && |p.header| <= MAX_HEADER_SIZE
    && |p.contextInfo| <= MAX_CONTEXT_SIZE && |p.payoutInfo| <= MAX_PAYOUT_INFO_SIZE
  }

  function WritePublicationData(p: PublicationData): bytes {
    WriteSingleBE(p.identifier) + (WriteVarLen(p.header) + (WriteVarLen(p.contextInfo) + (WriteVarLen(p.payoutInfo) + [])))
  }

  function PublicationDataSize(p: PublicationData): nat {
    SingleBESize(p.identifier) + VarLenSize(|p.header|) + VarLenSize(|p.contextInfo|) + VarLenSize(|p.payoutInfo|)
  }

  function ReadPublicationData(s: bytes): Parsed<PublicationData> {
    var (identifier, s1) :- ReadSingleBE(8, s);
    var (header, s2) :- ReadVarLen(0, MAX_HEADER_SIZE, s1);
    var (contextInfo, s3) :- ReadVarLen(0, MAX_CONTEXT_SIZE, s2);
    var (payoutInfo, s4) :- ReadVarLen(0, MAX_PAYOUT_INFO_SIZE, s3);
    Done(PublicationData(identifier, header, contextInfo, payoutInfo), s4)
  }

  lemma VarLenSizeIsLength(b: bytes)
    ensures |WriteVarLen(b)| == VarLenSize(|b|)
  {
  }

  lemma PublicationDataRoundTrip(p: PublicationData)
    requires IsPublicationData(p)
    ensures |WritePublicationData(p)| == PublicationDataSize(p)
    ensures ReadPublicationData(WritePublicationData(p)) == Done(p, [])
  {
    hide WriteSingleBE, ReadSingleBE, SingleBESize, WriteVarLen, ReadVarLen, VarLenSize;
    var t3 := WriteVarLen(p.payoutInfo) + [];
    var t2 := WriteVarLen(p.contextInfo) + t3;
    var t1 := WriteVarLen(p.header) + t2;
    SingleBERoundTrip(p.identifier, 8, t1);
    VarLenRoundTrip(p.header, 0, MAX_HEADER_SIZE, t2);
    VarLenRoundTrip(p.contextInfo, 0, MAX_CONTEXT_SIZE, t3);
    VarLenRoundTrip(p.payoutInfo, 0, MAX_PAYOUT_INFO_SIZE, []);
    SingleBESizeIsLength(p.identifier);
    VarLenSizeIsLength(p.header);
    VarLenSizeIsLength(p.contextInfo);
    VarLenSizeIsLength(p.payoutInfo);
  }

  /** The limits of the fields do not keep publication data within the limit that the reader
      of a transaction puts on the whole: here every field is within its limit and the whole
      is six bytes too long. */
  lemma FieldLimitsDoNotSuffice(p: PublicationData)
    requires p.identifier == -1
    requires |p.header| == MAX_HEADER_SIZE && |p.contextInfo| == MAX_CONTEXT_SIZE && |p.payoutInfo| == MAX_PAYOUT_INFO_SIZE
    ensures IsPublicationData(p) && PublicationDataSize(p) == MAX_PUBLICATIONDATA_SIZE + 6
  {
    assert FitsSigned(-1, 64) by {
      PowMonotone(2, 0, 63);
    }
    ByteCountLeast(1024, 2);
    ByteCountLeast(1024, 1);
    ByteCountLeast(10000, 2);
    ByteCountLeast(10000, 1);
  }

  // ---------------------------------------------------------------- signed raw data

  /** Raw data behind its length, then a signature and a public key. */
  function WriteSigned(raw: bytes, signature: bytes, publicKey: bytes): bytes {
    WriteVarLen(raw) + (WriteByteLen(signature) + (WriteByteLen(publicKey) + []))
  }

  function ReadSigned(s: bytes): Parsed<(bytes, bytes, bytes)> {
    var (raw, s1) :- ReadVarLen(0, MAX_POPDATA_SIZE, s);
    var (signature, s2) :- ReadByteLen(0, MAX_SIGNATURE_SIZE, s1);
    var (publicKey, s3) :- ReadByteLen(0, MAX_PUBLIC_KEY_SIZE, s2);
    Done((raw, signature, publicKey), s3)
  }

  lemma SignedSize(raw: bytes, signature: bytes, publicKey: bytes)
    ensures |WriteSigned(raw, signature, publicKey)| == VarLenSize(|raw|) + 1 + |signature| + 1 + |publicKey|
  {
    hide WriteVarLen, VarLenSize;
    VarLenSizeIsLength(raw);
  }

  lemma SignedTooLong(raw: bytes, signature: bytes, publicKey: bytes, tail: bytes)
    requires MAX_POPDATA_SIZE < |raw| < 0x8000_0000
    ensures ReadSigned(WriteSigned(raw, signature, publicKey) + tail).Fail?
  {
    hide WriteVarLen, ReadVarLen, ReadByteLen, WriteByteLen;
    var t1 := WriteByteLen(signature) + (WriteByteLen(publicKey) + tail);
    assert WriteSigned(raw, signature, publicKey) + tail == WriteVarLen(raw) + t1;
    VarLenTooLong(raw, MAX_POPDATA_SIZE, t1);
  }

  lemma SignedRawRoundTrip(raw: bytes, signature: bytes, publicKey: bytes, tail: bytes)
    requires |raw| <= MAX_POPDATA_SIZE && |signature| <= MAX_SIGNATURE_SIZE && |publicKey| <= MAX_PUBLIC_KEY_SIZE
    ensures ReadSigned(WriteSigned(raw, signature, publicKey) + tail) == Done((raw, signature, publicKey), tail)
  {
    hide WriteVarLen, ReadVarLen, VarLenSize, ReadByteLen;
    var t2 := WriteByteLen(publicKey) + tail;
    var t1 := WriteByteLen(signature) + t2;
    assert WriteSigned(raw, signature, publicKey) + tail == WriteVarLen(raw) + t1;
    VarLenRoundTrip(raw, 0, MAX_POPDATA_SIZE, t1);
    ByteLenRoundTrip(signature, 0, MAX_SIGNATURE_SIZE, t2);
    ByteLenRoundTrip(publicKey, 0, MAX_PUBLIC_KEY_SIZE, tail);
  }

  // ---------------------------------------------------------------- VBK transactions

  datatype VbkTx = VbkTx(
    networkOrType: NetworkByte, sourceAddress: Address, sourceAmount: int, outputs: seq<Output>,
    signatureIndex: int, publicationData: PublicationData, signature: bytes, publicKey: bytes)

  /** The pair is read back as it is: the network byte cannot be taken for the type. */
  predicate IsNetworkByte(p: NetworkByte, expected: byte) {
    if p.network.Some? then p.network.value != expected else p.typeId == expected
  }

  predicate IsVbkTx(h: Hashes, t: VbkTx) {
    && IsNetworkByte(t.networkOrType, VBK_TX) && IsAddress(h, t.sourceAddress) && FitsSigned(t.sourceAmount, 64)
    && |t.outputs| < 256 && (forall o <- t.outputs :: IsOutput(h, o)) && FitsSigned(t.signatureIndex, 64)
    && IsPublicationData(t.publicationData)
    && |t.signature| <= MAX_SIGNATURE_SIZE && |t.publicKey| <= MAX_PUBLIC_KEY_SIZE
  }

  function CountByte(n: nat): bytes {
    [n % 256]
  }

  function VbkTxRaw(t: VbkTx): bytes {
    WriteNetworkByte(t.networkOrType) + (WriteAddress(t.sourceAddress) + (WriteSingleBE(t.sourceAmount) +
    (CountByte(|t.outputs|) + (WriteAll(WriteOutput, t.outputs) + (WriteSingleBE(t.signatureIndex) +
    (WriteVarLen(WritePublicationData(t.publicationData)) + []))))))
  }

  function VbkTxRawSize(t: VbkTx): nat {
    NetworkByteSize(t.networkOrType) + AddressSize(t.sourceAddress) + SingleBESize(t.sourceAmount) + 1 +
    TotalSize(OutputSize, t.outputs) + SingleBESize(t.signatureIndex) + VarLenSize(PublicationDataSize(t.publicationData))
  }

  function WriteVbkTx(t: VbkTx): bytes {
    WriteSigned(VbkTxRaw(t), t.signature, t.publicKey)
  }

  function VbkTxSize(t: VbkTx): nat {
    VarLenSize(VbkTxRawSize(t)) + 1 + |t.signature| + 1 + |t.publicKey|
  }

  function ReadVbkTxRaw(h: Hashes, s: bytes, signature: bytes, publicKey: bytes): Parsed<VbkTx> {
    var (networkOrType, s1) :- ReadNetworkByte(VBK_TX, s);
    var (sourceAddress, s2) :- ReadAddress(h, s1);
    var (sourceAmount, s3) :- ReadSingleBE(8, s2);
    var (outputSize, s4) :- ReadByte(s3);
    var (outputs, s5) :- ReadMany(b => ReadOutput(h, b), outputSize, s4);
    var (signatureIndex, s6) :- ReadSingleBE(8, s5);
    var (pubBytes, s7) :- ReadVarLen(0, MAX_PUBLICATIONDATA_SIZE, s6);
    var (publicationData, _) :- ReadPublicationData(pubBytes);
    Done(VbkTx(networkOrType, sourceAddress, sourceAmount, outputs, signatureIndex, publicationData,
               signature, publicKey), s7)
  }

  function ReadVbkTx(h: Hashes, s: bytes): Parsed<VbkTx> {
    var (parts, rest) :- ReadSigned(s);
    var (t, _) :- ReadVbkTxRaw(h, parts.0, parts.1, parts.2);
    Done(t, rest)
  }

  lemma OutputsRoundTrip(h: Hashes, outputs: seq<Output>, tail: bytes)
    requires forall o <- outputs :: IsOutput(h, o)
    ensures ReadMany(b => ReadOutput(h, b), |outputs|, WriteAll(WriteOutput, outputs) + tail) == Done(outputs, tail)
    ensures |WriteAll(WriteOutput, outputs)| == TotalSize(OutputSize, outputs)
  {
    hide ReadOutput, WriteOutput, OutputSize, IsOutput;
    var read := b => ReadOutput(h, b);
    forall o | o in outputs
      ensures RoundTrips(WriteOutput, read, o) && |WriteOutput(o)| == OutputSize(o)
    {
      OutputRoundTrip(h, o, []);
      forall rest: bytes
        ensures Reads(WriteOutput, read, o, rest)
      {
        OutputRoundTrip(h, o, rest);
      }
    }
    ManyRoundTrip(WriteOutput, read, outputs, tail);
    TotalSizeIsLength(WriteOutput, OutputSize, outputs);
  }

  lemma VbkTxRawRoundTrip(h: Hashes, t: VbkTx)
    requires IsVbkTx(h, t)
    ensures |VbkTxRaw(t)| == VbkTxRawSize(t)
    ensures ReadVbkTxRaw(h, VbkTxRaw(t), t.signature, t.publicKey) ==
            if PublicationDataSize(t.publicationData) <= MAX_PUBLICATIONDATA_SIZE then Done(t, []) else Fail
  {
    hide WriteSingleBE, ReadSingleBE, SingleBESize, WriteVarLen, ReadVarLen, VarLenSize, WriteAddress, ReadAddress;
    hide AddressSize, WriteNetworkByte, ReadNetworkByte, WriteOutput, ReadOutput, IsOutput, IsAddress, WriteAll;
    hide ReadMany, WritePublicationData, ReadPublicationData, PublicationDataSize, IsPublicationData, FitsSigned;
    var pub := WritePublicationData(t.publicationData);
    var t6 := WriteVarLen(pub) + [];
    var t5 := WriteSingleBE(t.signatureIndex) + t6;
    var t4 := WriteAll(WriteOutput, t.outputs) + t5;
    var t3 := CountByte(|t.outputs|) + t4;
    var t2 := WriteSingleBE(t.sourceAmount) + t3;
    var t1 := WriteAddress(t.sourceAddress) + t2;
    NetworkByteRoundTrip(t.networkOrType, VBK_TX, t1);
    NetworkByteLength(t.networkOrType);
    AddressRoundTrip(h, t.sourceAddress, t2);
    SingleBERoundTrip(t.sourceAmount, 8, t3);
    SingleBESizeIsLength(t.sourceAmount);
    ReadByteWritten(|t.outputs| % 256, t4);
    OutputsRoundTrip(h, t.outputs, t5);
    SingleBERoundTrip(t.signatureIndex, 8, t6);
    SingleBESizeIsLength(t.signatureIndex);
    PublicationDataRoundTrip(t.publicationData);
    VarLenSizeIsLength(pub);
    if |pub| <= MAX_PUBLICATIONDATA_SIZE {
      VarLenRoundTrip(pub, 0, MAX_PUBLICATIONDATA_SIZE, []);
    } else {
      VbkTxRawSmall(h, t);
      VarLenTooLong(pub, MAX_PUBLICATIONDATA_SIZE, []);
    }
  }

  lemma NetworkByteLength(p: NetworkByte)
    ensures |WriteNetworkByte(p)| == NetworkByteSize(p)
  {
  }

  /** A value that is too long is refused. */
  lemma VarLenTooLong(b: bytes, max: nat, rest: bytes)
    requires max < |b| < 0x8000_0000
    ensures ReadVarLen(0, max, WriteVarLen(b) + rest).Fail?
  {
    assert WriteVarLen(b) + rest == WriteSingleBE(|b|) + (b + rest);
    CountRoundTrip(|b|, b + rest);
  }

  lemma {:induction false} TotalSizeAtMost<T(!new)>(size: T -> nat, xs: seq<T>, m: nat)
    requires forall x :: x in xs ==> size(x) <= m
    ensures TotalSize(size, xs) <= m * |xs|
  {
    if xs != [] {
      assert xs[0] in xs;
      TotalSizeAtMost(size, xs[1..], m);
      assert m * |xs| == m * |xs[1..]| + m;
    }
  }

  lemma SingleBESizeAtMost(v: int)
    requires FitsSigned(v, 64)
    ensures SingleBESize(v) <= 9
  {
    if v >= 0 {
      PowMonotone(2, 63, 64);
      Pow256IsPow2(8);
      ByteCountLeast(v, 8);
    }
  }

  lemma VarLenSizeAtMost(n: nat)
    requires n < 0x8000_0000
    ensures VarLenSize(n) <= n + 5
  {
    assert Pow(256, 4) == 0x1_0000_0000;
    ByteCountLeast(n, 4);
  }

  /** The raw form of a transaction is always far below the limit of its reader. */
  lemma VbkTxRawSmall(h: Hashes, t: VbkTx)
    requires IsVbkTx(h, t)
    ensures VbkTxRawSize(t) <= MAX_POPDATA_SIZE && PublicationDataSize(t.publicationData) <= 22000
  {
    hide SingleBESize, VarLenSize, AddressBytes, IsAddress;
    forall o | o in t.outputs
      ensures OutputSize(o) <= 41
    {
      AddressRoundTrip(h, o.address, []);
      SingleBESizeAtMost(o.coin);
    }
    TotalSizeAtMost(OutputSize, t.outputs, 41);
    AddressRoundTrip(h, t.sourceAddress, []);
    SingleBESizeAtMost(t.sourceAmount);
    SingleBESizeAtMost(t.signatureIndex);
    SingleBESizeAtMost(t.publicationData.identifier);
    VarLenSizeAtMost(|t.publicationData.header|);
    VarLenSizeAtMost(|t.publicationData.contextInfo|);
    VarLenSizeAtMost(|t.publicationData.payoutInfo|);
    VarLenSizeAtMost(PublicationDataSize(t.publicationData));
  }

  /** A transaction comes back exactly when its publication data is within the limit that the
      reader puts on the whole of it; otherwise it is refused. */
  lemma VbkTxRoundTrip(h: Hashes, t: VbkTx, tail: bytes)
    requires IsVbkTx(h, t)
    ensures ReadVbkTx(h, WriteVbkTx(t) + tail) ==
            if PublicationDataSize(t.publicationData) <= MAX_PUBLICATIONDATA_SIZE then Done(t, tail) else Fail
    ensures |WriteVbkTx(t)| == VbkTxSize(t)
  {
    hide VbkTxRaw, ReadVbkTxRaw, WriteSigned, ReadSigned, VbkTxRawSize, VarLenSize, WritePublicationData;
    hide PublicationDataSize;
    VbkTxRawSmall(h, t);
    VbkTxRawRoundTrip(h, t);
    SignedRawRoundTrip(VbkTxRaw(t), t.signature, t.publicKey, tail);
    SignedSize(VbkTxRaw(t), t.signature, t.publicKey);
  }

  // ---------------------------------------------------------------- merkle paths

  datatype MerklePath = MerklePath(index: int, subject: bytes, layers: seq<bytes>)

  predicate IsMerklePath(m: MerklePath) {
    && FitsSigned(m.index, 32) && |m.subject| == HASH_SIZE
    && |m.layers| <= MAX_LAYERS && forall l <- m.layers :: |l| == HASH_SIZE
  }

  /** The subject itself is not written, only that it has the size of a hash. */
  function MerklePathRaw(m: MerklePath): bytes {
    WriteFixedBE(m.index, 4) + (WriteFixedBE(|m.layers|, 4) + (WriteFixedBE(4, 4) + (BigEndian(|m.subject|, 4) +
    (WriteAll(WriteByteLen, m.layers) + []))))
  }

  function WriteMerklePath(m: MerklePath): bytes {
    WriteVarLen(MerklePathRaw(m))
  }

  function MerklePathSize(m: MerklePath): nat {
    VarLenSize(5 + 5 + 5 + 4 + 33 * |m.layers|)
  }

  function ReadMerklePathRaw(subject: bytes, s: bytes): Parsed<MerklePath> {
    var (index, s1) :- ReadSingleBE(4, s);
    var (numLayers, s2) :- ReadSingleBE(4, s1);
    if numLayers < 0 || numLayers > MAX_LAYERS then Fail else
    var (sizeOfSize, s3) :- ReadSingleBE(4, s2);
    if sizeOfSize != 4 then Fail else
    var (sizeOfData, s4) :- ReadInt(4, s3);
    if sizeOfData != HASH_SIZE then Fail else
    var (layers, s5) :- ReadMany(ReadHash, numLayers, s4);
    Done(MerklePath(index, subject, layers), s5)
  }

  function ReadMerklePath(subject: bytes, s: bytes): Parsed<MerklePath> {
    var (raw, rest) :- ReadVarLen(0, MAX_POPDATA_SIZE, s);
    var (m, _) :- ReadMerklePathRaw(subject, raw);
    Done(m, rest)
  }

  lemma SmallSigned(v: nat)
    requires v < 128
    ensures FitsSigned(v, 32)
  {
    Pow2Bytes();
    PowMonotone(2, 7, 31);
  }

  /** A path comes back with whatever subject the reader is given. */
  lemma MerklePathRoundTrip(m: MerklePath, subject: bytes, tail: bytes)
    requires IsMerklePath(m)
    ensures ReadMerklePath(subject, WriteMerklePath(m) + tail) == Done(m.(subject := subject), tail)
    ensures |WriteMerklePath(m)| == MerklePathSize(m) <= 1400
  {
    hide FitsSigned, WriteVarLen, ReadVarLen, VarLenSize, ReadSingleBE, BigEndian, ReadMany, WriteAll, ReadInt;
    var t4 := WriteAll(WriteByteLen, m.layers) + [];
    var t3 := BigEndian(|m.subject|, 4) + t4;
    var t2 := WriteFixedBE(4, 4) + t3;
    var t1 := WriteFixedBE(|m.layers|, 4) + t2;
    SmallSigned(|m.layers|);
    SmallSigned(4);
    SmallSigned(HASH_SIZE);
    FixedBERoundTrip(m.index, 4, t1);
    FixedBERoundTrip(|m.layers|, 4, t2);
    FixedBERoundTrip(4, 4, t3);
    IntRoundTrip(HASH_SIZE, 4, t4);
    HashesRoundTrip(m.layers, []);
    VarLenRoundTrip(MerklePathRaw(m), 0, MAX_POPDATA_SIZE, tail);
    VarLenSizeIsLength(MerklePathRaw(m));
    VarLenSizeAtMost(5 + 5 + 5 + 4 + 33 * |m.layers|);
  }

  datatype VbkMerklePath = VbkMerklePath(treeIndex: int, index: int, subject: bytes, layers: seq<bytes>)

  predicate IsVbkMerklePath(m: VbkMerklePath) {
    && FitsSigned(m.treeIndex, 32) && FitsSigned(m.index, 32) && |m.subject| == HASH_SIZE
    && |m.layers| <= MAX_LAYERS && forall l <- m.layers :: |l| == HASH_SIZE
  }

  function WriteVbkMerklePath(m: VbkMerklePath): bytes {
    WriteFixedBE(m.treeIndex, 4) + (WriteFixedBE(m.index, 4) + (WriteByteLen(m.subject) +
    (WriteFixedBE(|m.layers|, 4) + WriteAll(WriteByteLen, m.layers))))
  }

  function VbkMerklePathSize(m: VbkMerklePath): nat {
    5 + 5 + (1 + |m.subject|) + 5 + 33 * |m.layers|
  }

  function ReadVbkMerklePath(s: bytes): Parsed<VbkMerklePath> {
    var (treeIndex, s1) :- ReadSingleBE(4, s);
    var (index, s2) :- ReadSingleBE(4, s1);
    var (subject, s3) :- ReadHash(s2);
    var (layers, s4) :- ReadArrayOf(ReadHash, 0, MAX_LAYERS, s3);
    Done(VbkMerklePath(treeIndex, index, subject, layers), s4)
  }

  lemma VbkMerklePathRoundTrip(m: VbkMerklePath, tail: bytes)
    requires IsVbkMerklePath(m)
    ensures ReadVbkMerklePath(WriteVbkMerklePath(m) + tail) == Done(m, tail)
    ensures |WriteVbkMerklePath(m)| == VbkMerklePathSize(m)
  {
    hide FitsSigned, ReadSingleBE, BigEndian, ReadMany, WriteAll, ReadByteLen;
    var t4 := WriteAll(WriteByteLen, m.layers) + tail;
    var t3 := WriteFixedBE(|m.layers|, 4) + t4;
    var t2 := WriteByteLen(m.subject) + t3;
    var t1 := WriteFixedBE(m.index, 4) + t2;
    assert WriteVbkMerklePath(m) + tail == WriteFixedBE(m.treeIndex, 4) + t1;
    SmallSigned(|m.layers|);
    FixedBERoundTrip(m.treeIndex, 4, t1);
    FixedBERoundTrip(m.index, 4, t2);
    ByteLenRoundTrip(m.subject, HASH_SIZE, HASH_SIZE, t3);
    FixedBERoundTrip(|m.layers|, 4, t4);
    HashesRoundTrip(m.layers, tail);
  }

  // ---------------------------------------------------------------- VBK PoP transactions

  function WriteBtcTx(tx: bytes): bytes {
    WriteVarLen(tx)
  }

  datatype VbkPopTx = VbkPopTx(
    networkOrType: NetworkByte, address: Address, publishedBlock: VbkBlock, bitcoinTransaction: bytes,
    merklePath: MerklePath, blockOfProof: BtcBlock, blockOfProofContext: seq<BtcBlock>,
    signature: bytes, publicKey: bytes)

  /** The nonce of a block takes five bytes on the wire. */
  predicate IsWireBlock(b: VbkBlock) {
    IsVbkBlock(b) && b.nonce < Pow(256, 5)
  }

  /** The merkle path proves the transaction itself. */
  predicate IsVbkPopTx(h: Hashes, t: VbkPopTx) {
    && IsNetworkByte(t.networkOrType, VBK_POP_TX) && IsAddress(h, t.address) && IsWireBlock(t.publishedBlock)
    && |t.bitcoinTransaction| <= BTC_TX_MAX_RAW_SIZE
    && IsMerklePath(t.merklePath) && t.merklePath.subject == h.twice(t.bitcoinTransaction)
    && IsBtcBlock(t.blockOfProof) && |t.blockOfProofContext| <= MAX_BTC_BLOCKS_IN_VBKPOPTX
    && (forall b <- t.blockOfProofContext :: IsBtcBlock(b))
    && |t.signature| <= MAX_SIGNATURE_SIZE && |t.publicKey| <= MAX_PUBLIC_KEY_SIZE
  }

  function VbkPopTxRaw(t: VbkPopTx): bytes {
    WriteNetworkByte(t.networkOrType) + (WriteAddress(t.address) + (WriteVbkBlock(t.publishedBlock) +
    (WriteBtcTx(t.bitcoinTransaction) + (WriteMerklePath(t.merklePath) + (WriteBtcBlock(t.blockOfProof) +
    (WriteContainer(WriteBtcBlock, t.blockOfProofContext) + []))))))
  }

  function VbkPopTxRawSize(t: VbkPopTx): nat {
    NetworkByteSize(t.networkOrType) + AddressSize(t.address) + VBK_BLOCK_SIZE + VarLenSize(|t.bitcoinTransaction|) +
    MerklePathSize(t.merklePath) + BTC_BLOCK_SIZE +
    SingleBESize(|t.blockOfProofContext|) + BTC_BLOCK_SIZE * |t.blockOfProofContext|
  }

  function WriteVbkPopTx(t: VbkPopTx): bytes {
    WriteSigned(VbkPopTxRaw(t), t.signature, t.publicKey)
  }

  function VbkPopTxSize(t: VbkPopTx): nat {
    VarLenSize(VbkPopTxRawSize(t)) + 1 + |t.signature| + 1 + |t.publicKey|
  }

  function ReadVbkPopTxRaw(h: Hashes, s: bytes, signature: bytes, publicKey: bytes): Parsed<VbkPopTx> {
    var (networkOrType, s1) :- ReadNetworkByte(VBK_POP_TX, s);
    var (address, s2) :- ReadAddress(h, s1);
    var (publishedBlock, s3) :- ReadVbkBlock(s2);
    var (bitcoinTransaction, s4) :- ReadVarLen(0, BTC_TX_MAX_RAW_SIZE, s3);
    var (merklePath, s5) :- ReadMerklePath(h.twice(bitcoinTransaction), s4);
    var (blockOfProof, s6) :- ReadBtcBlock(s5);
    var (blockOfProofContext, s7) :- ReadArrayOf(ReadBtcBlock, 0, MAX_BTC_BLOCKS_IN_VBKPOPTX, s6);
    Done(VbkPopTx(networkOrType, address, publishedBlock, bitcoinTransaction, merklePath, blockOfProof,
                  blockOfProofContext, signature, publicKey), s7)
  }

  function ReadVbkPopTx(h: Hashes, s: bytes): Parsed<VbkPopTx> {
    var (parts, rest) :- ReadSigned(s);
    var (t, _) :- ReadVbkPopTxRaw(h, parts.0, parts.1, parts.2);
    Done(t, rest)
  }

  lemma BtcBlocksRoundTrip(blocks: seq<BtcBlock>, tail: bytes)
    requires |blocks| <= MAX_BTC_BLOCKS_IN_VBKPOPTX && forall b <- blocks :: IsBtcBlock(b)
    ensures ReadArrayOf(ReadBtcBlock, 0, MAX_BTC_BLOCKS_IN_VBKPOPTX, WriteContainer(WriteBtcBlock, blocks) + tail)
         == Done(blocks, tail)
    ensures |WriteContainer(WriteBtcBlock, blocks)| == SingleBESize(|blocks|) + BTC_BLOCK_SIZE * |blocks|
  {
    hide ReadBtcBlock, WriteBtcBlock, IsBtcBlock, ReadSingleBE;
    forall b | b in blocks
      ensures RoundTrips(WriteBtcBlock, ReadBtcBlock, b)
    {
      forall rest: bytes
        ensures Reads(WriteBtcBlock, ReadBtcBlock, b, rest)
      {
        BtcBlockRoundTrip(b, rest);
      }
    }
    ArrayRoundTrip(WriteBtcBlock, ReadBtcBlock, blocks, 0, MAX_BTC_BLOCKS_IN_VBKPOPTX, tail);
    BtcBlocksSize(blocks);
  }

  lemma {:induction false} BtcBlocksSize(blocks: seq<BtcBlock>)
    requires forall b <- blocks :: IsBtcBlock(b)
    ensures |WriteAll(WriteBtcBlock, blocks)| == BTC_BLOCK_SIZE * |blocks|
  {
    hide IsBtcBlock, WriteBtcBlock;
    if blocks != [] {
      assert blocks[0] in blocks;
      BtcBlockRoundTrip(blocks[0], []);
      BtcBlocksSize(blocks[1..]);
    }
  }

  lemma VbkPopTxRawRoundTrip(h: Hashes, t: VbkPopTx)
    requires IsVbkPopTx(h, t)
    ensures ReadVbkPopTxRaw(h, VbkPopTxRaw(t), t.signature, t.publicKey) == Done(t, [])
    ensures |VbkPopTxRaw(t)| == VbkPopTxRawSize(t) < 0x8000_0000
  {
    hide WriteNetworkByte, ReadNetworkByte, WriteAddress, ReadAddress, AddressSize, IsAddress, WriteVbkBlock, ReadVbkBlock;
    hide IsVbkBlock, WriteVarLen, ReadVarLen, VarLenSize, WriteMerklePath, ReadMerklePath, IsMerklePath, MerklePathSize;
    hide WriteBtcBlock, ReadBtcBlock, IsBtcBlock, WriteContainer, ReadArrayOf, SingleBESize, Pow, NetworkByteSize;
    var t6 := WriteContainer(WriteBtcBlock, t.blockOfProofContext) + [];
    var t5 := WriteBtcBlock(t.blockOfProof) + t6;
    var t4 := WriteMerklePath(t.merklePath) + t5;
    var t3 := WriteBtcTx(t.bitcoinTransaction) + t4;
    var t2 := WriteVbkBlock(t.publishedBlock) + t3;
    var t1 := WriteAddress(t.address) + t2;
    NetworkByteRoundTrip(t.networkOrType, VBK_POP_TX, t1);
    NetworkByteLength(t.networkOrType);
    AddressRoundTrip(h, t.address, t2);
    VbkBlockRoundTrip(t.publishedBlock, t3);
    VarLenRoundTrip(t.bitcoinTransaction, 0, BTC_TX_MAX_RAW_SIZE, t4);
    VarLenSizeIsLength(t.bitcoinTransaction);
    MerklePathRoundTrip(t.merklePath, t.merklePath.subject, t5);
    BtcBlockRoundTrip(t.blockOfProof, t6);
    BtcBlocksRoundTrip(t.blockOfProofContext, []);
    PopTxSmall(h, t);
  }

  lemma PopTxSmall(h: Hashes, t: VbkPopTx)
    requires IsVbkPopTx(h, t)
    ensures VbkPopTxRawSize(t) < 0x8000_0000
  {
    hide VarLenSize, AddressBytes, MerklePathSize, SingleBESize, IsAddress, IsMerklePath, IsBtcBlock, IsWireBlock, Pow;
    AddressRoundTrip(h, t.address, []);
    VarLenSizeAtMost(|t.bitcoinTransaction|);
    MerklePathRoundTrip(t.merklePath, [], []);
    CountSizeAtMost(|t.blockOfProofContext|);
  }

  lemma CountSizeAtMost(n: nat)
    requires n < 0x8000_0000
    ensures SingleBESize(n) <= 5
  {
    assert Pow(256, 4) == 0x1_0000_0000;
    ByteCountLeast(n, 4);
  }

  /** A PoP transaction comes back exactly when its raw form is within the reader's limit;
      otherwise it is refused. */
  lemma VbkPopTxRoundTrip(h: Hashes, t: VbkPopTx, tail: bytes)
    requires IsVbkPopTx(h, t)
    ensures ReadVbkPopTx(h, WriteVbkPopTx(t) + tail) ==
            if VbkPopTxRawSize(t) <= MAX_POPDATA_SIZE then Done(t, tail) else Fail
    ensures |WriteVbkPopTx(t)| == VbkPopTxSize(t)
  {
    hide VbkPopTxRaw, ReadVbkPopTxRaw, VbkPopTxRawSize, VarLenSize, WriteSigned, ReadSigned;
    VbkPopTxRawRoundTrip(h, t);
    var raw := VbkPopTxRaw(t);
    SignedSize(raw, t.signature, t.publicKey);
    if |raw| <= MAX_POPDATA_SIZE {
      SignedRawRoundTrip(raw, t.signature, t.publicKey, tail);
    } else {
      SignedTooLong(raw, t.signature, t.publicKey, tail);
    }
  }

  // ---------------------------------------------------------------- ATVs, VTBs, PopData

  datatype ATV = ATV(version: nat, transaction: VbkTx, merklePath: VbkMerklePath, blockOfProof: VbkBlock)

  datatype VTB = VTB(version: nat, transaction: VbkPopTx, merklePath: VbkMerklePath, containingBlock: VbkBlock)

  datatype PopData = PopData(version: nat, context: seq<VbkBlock>, vtbs: seq<VTB>, atvs: seq<ATV>)

  /** Everything the reader demands of an ATV. */
  predicate IsATV(h: Hashes, a: ATV) {
    && a.version == 1 && IsVbkTx(h, a.transaction) && IsVbkMerklePath(a.merklePath) && IsWireBlock(a.blockOfProof)
    && PublicationDataSize(a.transaction.publicationData) <= MAX_PUBLICATIONDATA_SIZE
  }

  predicate IsVTB(h: Hashes, v: VTB) {
    && v.version == 1 && IsVbkPopTx(h, v.transaction) && IsVbkMerklePath(v.merklePath) && IsWireBlock(v.containingBlock)
    && VbkPopTxRawSize(v.transaction) <= MAX_POPDATA_SIZE
  }

  const MAX_COUNT := 50000

  predicate IsPopData(h: Hashes, p: PopData) {
    && p.version == 1 && |p.context| <= MAX_COUNT && |p.vtbs| <= MAX_COUNT && |p.atvs| <= MAX_COUNT
    && (forall b <- p.context :: IsWireBlock(b)) && (forall v <- p.vtbs :: IsVTB(h, v)) && forall a <- p.atvs :: IsATV(h, a)
  }

  function WriteATV(a: ATV): bytes {
    BigEndian(a.version, 4) + (WriteVbkTx(a.transaction) + (WriteVbkMerklePath(a.merklePath) + WriteVbkBlock(a.blockOfProof)))
  }

  function ATVSize(a: ATV): nat {
    4 + VbkTxSize(a.transaction) + VbkMerklePathSize(a.merklePath) + VBK_BLOCK_SIZE
  }

  function ReadATV(h: Hashes, s: bytes): Parsed<ATV> {
    var (version, s1) :- ParseBE(4, s);
    if version != 1 then Fail else
    var (transaction, s2) :- ReadVbkTx(h, s1);
    var (merklePath, s3) :- ReadVbkMerklePath(s2);
    var (blockOfProof, s4) :- ReadVbkBlock(s3);
    Done(ATV(version, transaction, merklePath, blockOfProof), s4)
  }

  function WriteVTB(v: VTB): bytes {
    BigEndian(v.version, 4) +
    (WriteVbkPopTx(v.transaction) + (WriteVbkMerklePath(v.merklePath) + WriteVbkBlock(v.containingBlock)))
  }

  function VTBSize(v: VTB): nat {
    4 + VbkPopTxSize(v.transaction) + VbkMerklePathSize(v.merklePath) + VBK_BLOCK_SIZE
  }

  function ReadVTB(h: Hashes, s: bytes): Parsed<VTB> {
    var (version, s1) :- ParseBE(4, s);
    if version != 1 then Fail else
    var (transaction, s2) :- ReadVbkPopTx(h, s1);
    var (merklePath, s3) :- ReadVbkMerklePath(s2);
    var (containingBlock, s4) :- ReadVbkBlock(s3);
    Done(VTB(version, transaction, merklePath, containingBlock), s4)
  }

  function WritePopData(p: PopData): bytes {
    BigEndian(p.version, 4) + (WriteContainer(WriteVbkBlock, p.context) +
    (WriteContainer(WriteVTB, p.vtbs) + WriteContainer(WriteATV, p.atvs)))
  }

  /** The size estimate of the library. */
  function EstimateSize(p: PopData): nat {
    4 + ContainerSize((b: VbkBlock) => VBK_BLOCK_SIZE, p.context) + ContainerSize(VTBSize, p.vtbs) + ContainerSize(ATVSize, p.atvs)
  }

  function ReadPopData(h: Hashes, s: bytes): Parsed<PopData> {
    var (version, s1) :- ParseBE(4, s);
    if version != 1 then Fail else
    var (context, s2) :- ReadArrayOf(ReadVbkBlock, 0, MAX_COUNT, s1);
    var (vtbs, s3) :- ReadArrayOf(b => ReadVTB(h, b), 0, MAX_COUNT, s2);
    var (atvs, s4) :- ReadArrayOf(b => ReadATV(h, b), 0, MAX_COUNT, s3);
    Done(PopData(version, context, vtbs, atvs), s4)
  }

  lemma VersionRoundTrip(tail: bytes)
    ensures ParseBE(4, BigEndian(1, 4) + tail) == Done(1, tail)
  {
    PowMonotone(256, 1, 4);
    UnsignedRoundTrip(1, 4, tail);
  }

  lemma ATVRoundTrip(h: Hashes, a: ATV, tail: bytes)
    requires IsATV(h, a)
    ensures ReadATV(h, WriteATV(a) + tail) == Done(a, tail)
    ensures |WriteATV(a)| == ATVSize(a)
  {
    hide WriteVbkTx, ReadVbkTx, VbkTxSize, IsVbkTx, WriteVbkMerklePath, ReadVbkMerklePath, VbkMerklePathSize;
    hide IsVbkMerklePath, WriteVbkBlock, ReadVbkBlock, IsVbkBlock, Pow, BigEndian, BE, PublicationDataSize;
    var t3 := WriteVbkBlock(a.blockOfProof) + tail;
    var t2 := WriteVbkMerklePath(a.merklePath) + t3;
    var t1 := WriteVbkTx(a.transaction) + t2;
    assert WriteATV(a) + tail == BigEndian(1, 4) + t1;
    VersionRoundTrip(t1);
    VbkTxRoundTrip(h, a.transaction, t2);
    VbkMerklePathRoundTrip(a.merklePath, t3);
    VbkBlockRoundTrip(a.blockOfProof, tail);
  }

  lemma VTBRoundTrip(h: Hashes, v: VTB, tail: bytes)
    requires IsVTB(h, v)
    ensures ReadVTB(h, WriteVTB(v) + tail) == Done(v, tail)
    ensures |WriteVTB(v)| == VTBSize(v)
  {
    hide WriteVbkPopTx, ReadVbkPopTx, VbkPopTxSize, IsVbkPopTx, WriteVbkMerklePath, ReadVbkMerklePath, VbkMerklePathSize;
    hide IsVbkMerklePath, WriteVbkBlock, ReadVbkBlock, IsVbkBlock, Pow, BigEndian, BE, VbkPopTxRawSize;
    var t3 := WriteVbkBlock(v.containingBlock) + tail;
    var t2 := WriteVbkMerklePath(v.merklePath) + t3;
    var t1 := WriteVbkPopTx(v.transaction) + t2;
    assert WriteVTB(v) + tail == BigEndian(1, 4) + t1;
    VersionRoundTrip(t1);
    VbkPopTxRoundTrip(h, v.transaction, t2);
    VbkMerklePathRoundTrip(v.merklePath, t3);
    VbkBlockRoundTrip(v.containingBlock, tail);
  }

  /** A list of values that each come back comes back, and has the size that was estimated. */
  lemma ContainerRoundTrip<T(!new)>(write: Writer<T>, read: Reader<T>, size: T -> nat, xs: seq<T>, tail: bytes)
    requires |xs| <= MAX_COUNT
    requires forall x :: x in xs ==> RoundTrips(write, read, x) && |write(x)| == size(x)
    ensures ReadArrayOf(read, 0, MAX_COUNT, WriteContainer(write, xs) + tail) == Done(xs, tail)
    ensures |WriteContainer(write, xs)| == ContainerSize(size, xs)
  {
    hide ReadArrayOf, TrimmedLength;
    ArrayRoundTrip(write, read, xs, 0, MAX_COUNT, tail);
    TotalSizeIsLength(write, size, xs);
    SingleBESizeIsLength(|xs|);
  }

  lemma ContextRoundTrips(b: VbkBlock)
    requires IsWireBlock(b)
    ensures RoundTrips(WriteVbkBlock, ReadVbkBlock, b) && |WriteVbkBlock(b)| == VBK_BLOCK_SIZE
  {
    hide WriteVbkBlock, ReadVbkBlock, IsVbkBlock, Pow;
    VbkBlockRoundTrip(b, []);
    forall rest: bytes
      ensures Reads(WriteVbkBlock, ReadVbkBlock, b, rest)
    {
      VbkBlockRoundTrip(b, rest);
    }
  }

  lemma VTBRoundTrips(h: Hashes, read: Reader<VTB>, v: VTB)
    requires IsVTB(h, v) && forall s: bytes :: read(s) == ReadVTB(h, s)
    ensures RoundTrips(WriteVTB, read, v) && |WriteVTB(v)| == VTBSize(v)
  {
    hide WriteVTB, ReadVTB, IsVTB, VTBSize;
    VTBRoundTrip(h, v, []);
    forall rest: bytes
      ensures Reads(WriteVTB, read, v, rest)
    {
      VTBRoundTrip(h, v, rest);
    }
  }

  lemma ATVRoundTrips(h: Hashes, read: Reader<ATV>, a: ATV)
    requires IsATV(h, a) && forall s: bytes :: read(s) == ReadATV(h, s)
    ensures RoundTrips(WriteATV, read, a) && |WriteATV(a)| == ATVSize(a)
  {
    hide WriteATV, ReadATV, IsATV, ATVSize;
    ATVRoundTrip(h, a, []);
    forall rest: bytes
      ensures Reads(WriteATV, read, a, rest)
    {
      ATVRoundTrip(h, a, rest);
    }
  }

  /** Decoding an encoded PopData gives it back and leaves what follows, and the size estimate
      is the length of the encoding. */
  lemma PopDataRoundTrip(h: Hashes, p: PopData, tail: bytes)
    requires IsPopData(h, p)
    ensures ReadPopData(h, WritePopData(p) + tail) == Done(p, tail)
    ensures |WritePopData(p)| == EstimateSize(p)
  {
    hide WriteVbkBlock, ReadVbkBlock, IsWireBlock, WriteVTB, ReadVTB, IsVTB, VTBSize, WriteATV, ReadATV, IsATV, ATVSize;
    hide WriteContainer, ReadArrayOf, ContainerSize, BigEndian, BE;
    var readVTB: Reader<VTB> := b => ReadVTB(h, b);
    var readATV: Reader<ATV> := b => ReadATV(h, b);
    var blockSize: VbkBlock -> nat := b => VBK_BLOCK_SIZE;
    var t3 := WriteContainer(WriteATV, p.atvs) + tail;
    var t2 := WriteContainer(WriteVTB, p.vtbs) + t3;
    var t1 := WriteContainer(WriteVbkBlock, p.context) + t2;
    assert WritePopData(p) + tail == BigEndian(1, 4) + t1;
    VersionRoundTrip(t1);
    forall b | b in p.context
      ensures RoundTrips(WriteVbkBlock, ReadVbkBlock, b) && |WriteVbkBlock(b)| == blockSize(b)
    {
      ContextRoundTrips(b);
    }
    ContainerRoundTrip(WriteVbkBlock, ReadVbkBlock, blockSize, p.context, t2);
    forall v | v in p.vtbs
      ensures RoundTrips(WriteVTB, readVTB, v) && |WriteVTB(v)| == VTBSize(v)
    {
      VTBRoundTrips(h, readVTB, v);
    }
    ContainerRoundTrip(WriteVTB, readVTB, VTBSize, p.vtbs, t3);
    forall a | a in p.atvs
      ensures RoundTrips(WriteATV, readATV, a) && |WriteATV(a)| == ATVSize(a)
    {
      ATVRoundTrips(h, readATV, a);
    }
    ContainerRoundTrip(WriteATV, readATV, ATVSize, p.atvs, tail);
  }
}
