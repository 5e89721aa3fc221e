/** The sizes that payloads can have. Every valid address takes 22 bytes, so the sizes of ATVs and
    VTBs are whole ranges: nothing outside occurs, and everything inside does. */
module PayloadSizes {
  import opened Numbers
  import opened Radix
  import opened Codec
  import opened Serde
  import opened Addresses
  import opened Entities
  import opened PopDataCodec
  import opened Wrappers
  import Base58
  import Base59

  const MIN_ATV_SIZE := 162
  const MAX_ATV_SIZE := 31102
  const MIN_VTB_SIZE := 319
  const MAX_VTB_SIZE := 5501604

  // ---------------------------------------------------------------- addresses

  lemma Pow58To29()
    ensures Pow(58, 29) == 1378516006777431104836763434029972462511887354953728
  {
    assert Pow(58, 1) == 58 && Pow(58, 4) == 11316496;
    PowAdd(58, 4, 4);
    PowAdd(58, 8, 8);
    PowAdd(58, 16, 8);
    PowAdd(58, 24, 4);
    PowAdd(58, 28, 1);
  }

  lemma Pow59To29()
    ensures Pow(59, 29) == 2263123934140265506778412097585867652047852542844139
  {
    assert Pow(59, 1) == 59 && Pow(59, 4) == 12117361;
    PowAdd(59, 4, 4);
    PowAdd(59, 8, 8);
    PowAdd(59, 16, 8);
    PowAdd(59, 24, 4);
    PowAdd(59, 28, 1);
  }

  lemma Pow256To22()
    ensures Pow(256, 21) == 374144419156711147060143317175368453031918731001856
    ensures Pow(256, 22) == 95780971304118053647396689196894323976171195136475136
  {
    assert Pow(256, 1) == 256 && Pow(256, 4) == 4294967296;
    PowAdd(256, 4, 4);
    PowAdd(256, 8, 8);
    PowAdd(256, 16, 4);
    PowAdd(256, 20, 1);
    PowAdd(256, 21, 1);
  }

  /** Thirty digits of base 58 or 59 that begin with 28 make 22 bytes. */
  lemma ThirtyDigits(ds: seq<byte>, base: nat)
    requires base == 58 || base == 59
    requires |ds| == 30 && Below(ds, base) && ds[0] == 28
    ensures |Reradix(ds, base, 256)| == 22
  {
    hide Pow, BE, Digits, LeadingZeros;
    LeadingZerosUnique(ds, 0);
    BEHead(ds, base);
    BEBound(ds[1..], base);
    Pow58To29();
    Pow59To29();
    Pow256To22();
    var v := BE(ds, base);
    DigitsAtMost(v, 256, 22);
    DigitsValue(v, 256);
    BEBound(Digits(v, 256), 256);
    if |Digits(v, 256)| <= 21 {
      PowMonotone(256, |Digits(v, 256)|, 21);
    }
  }

  /** An address is thirty characters and begins with a V. */
  lemma AddressIs22Bytes(h: Hashes, a: Address)
    requires IsAddress(h, a)
    ensures |AddressBytes(a)| == 22 && AddressSize(a) == 24
  {
    hide Reradix, Base58.Decoded;
    if a.typeId == STANDARD {
      StandardIsText(h, a.text);
      Decoded58(a.text);
      ThirtyDigits(Base58.FromText(a.text), 58);
    } else {
      ThirtyDigits(Base59.FromText(a.text), 59);
    }
  }

  /** The hash functions give 32 bytes. */
  ghost predicate HashesOk(h: Hashes) {
    && (forall d: string :: |h.ofText(d)| == HASH_SIZE)
    && (forall b: bytes :: |h.twice(b)| == HASH_SIZE)
  }

  function Sample(h: Hashes): string {
    var data := "V111111111111111111111111";
    data + Checksum(h, data, false)
  }

  /** There are addresses, whatever the hash function. */
  lemma SampleIsAddress(h: Hashes)
    requires HashesOk(h)
    ensures IsAddress(h, Address(STANDARD, Sample(h)))
  {
    hide Reradix, Base58.Decoded, Base58.SkipSpaces, Base58.WordEnd;
    var data := "V111111111111111111111111";
    assert |data| == DATA_END;
    var hash := h.ofText(data);
    var code := Base58.Encoded(hash);
    EncodedIsLong(hash);
    var s := Sample(h);
    assert s[..DATA_END] == data && s[DATA_END..] == Checksum(h, data, false);
    assert Base58.IsText(s) by {
      forall i | 0 <= i < |s|
        ensures Base58.MapBase58(s[i]) != -1
      {
        if i >= DATA_END {
          assert s[i] == code[i - DATA_END];
        } else {
          assert s[i] == data[i];
        }
      }
    }
    Base58.EncodeDecoded(s);
    forall i | 0 <= i < |s|
      ensures s[i] != '\0' && s[i] != '0'
    {
      assert Base58.MapBase58(s[i]) != -1;
    }
  }

  lemma EncodedIsLong(b: bytes)
    ensures |Base58.Encoded(b)| >= |b| && Base58.IsText(Base58.Encoded(b))
  {
    hide Reradix;
    var ds := Reradix(b, 256, 58);
    ReradixInverse(b, 256, 58);
    ReradixNoLonger(ds, 58, 256);
    Base58.TextInverse(ds);
  }

  // ---------------------------------------------------------------- lengths

  /** A count or a length takes one byte and the bytes of the number. */
  lemma LengthSize(n: nat)
    requires n < 0x100_0000
    ensures SingleBESize(n) == if n < 0x100 then 2 else if n < 0x1_0000 then 3 else 4
    ensures VarLenSize(n) == n + SingleBESize(n)
  {
    ByteCountLeast(n, 1);
    ByteCountLeast(n, 2);
    ByteCountLeast(n, 3);
    assert Pow(256, 1) == 0x100 && Pow(256, 2) == 0x1_0000 && Pow(256, 3) == 0x100_0000;
  }

  lemma NumberSize(v: int)
    requires FitsSigned(v, 64)
    ensures 2 <= SingleBESize(v) <= 9
  {
    hide ByteCount;
    SingleBESizeAtMost(v);
  }

  lemma Fits()
    ensures FitsSigned(0, 64) && FitsSigned(-1, 64) && FitsSigned(256, 64) && FitsSigned(0, 32) && FitsSigned(0, 16)
    ensures 0 < Pow(256, 4) && 0 < Pow(256, 5) && 0 < Pow(256, 8)
  {
    hide Pow;
    Pow2Bytes();
    PowMonotone(2, 8, 15);
    PowMonotone(2, 15, 31);
    PowMonotone(2, 31, 63);
    PowAdd(2, 8, 1);
    PowMonotone(2, 9, 63);
  }

  lemma {:induction false} UniformSize<T(!new)>(size: T -> nat, xs: seq<T>, s: nat)
    requires forall x :: x in xs ==> size(x) == s
    ensures TotalSize(size, xs) == s * |xs|
  {
    if xs != [] {
      assert xs[0] in xs;
      UniformSize(size, xs[1..], s);
      assert s * |xs| == s * |xs[1..]| + s;
    }
  }

  const ZERO_BLOCK := VbkBlock(0, 0, Zeros(12), Zeros(9), Zeros(9), Zeros(16), 0, 0, 0)
  const ZERO_BTC_BLOCK := BtcBlock(0, Zeros(HASH_SIZE), Zeros(HASH_SIZE), 0, 0, 0)

  lemma ZeroBlocks()
    ensures IsWireBlock(ZERO_BLOCK) && IsBtcBlock(ZERO_BTC_BLOCK)
  {
    hide Pow, FitsSigned;
    Fits();
  }

  /** A merkle path with a number of layers. */
  function PathOf(layers: nat): VbkMerklePath {
    VbkMerklePath(0, 0, Zeros(HASH_SIZE), seq(layers, i => Zeros(HASH_SIZE)))
  }

  // The fields behind the raw transaction fill any gap of up to 1480 bytes.
  const SLACK := 1480

  function SlackLayers(e: nat): nat {
    if e / 33 > MAX_LAYERS then MAX_LAYERS else e / 33
  }

  function SlackSignature(e: nat): nat {
    var r: int := e - 33 * SlackLayers(e);
    if r > MAX_SIGNATURE_SIZE then MAX_SIGNATURE_SIZE else r
  }

  function SlackKey(e: nat): (k: nat)
    ensures e <= SLACK ==> k <= MAX_PUBLIC_KEY_SIZE && 33 * SlackLayers(e) + SlackSignature(e) + k == e
  {
    e - 33 * SlackLayers(e) - SlackSignature(e)
  }

  lemma PathIsOk(layers: nat)
    requires layers <= MAX_LAYERS
    ensures IsVbkMerklePath(PathOf(layers))
  {
    hide Pow, FitsSigned;
    Fits();
  }

  /** A value between the ends of a function that climbs in small steps is just above one of its
      values. */
  lemma {:induction false} Between(f: nat -> nat, t: nat, n: nat) returns (at: nat)
    requires f(0) <= n <= f(t) + SLACK && forall i: nat :: i < t ==> f(i + 1) <= f(i) + SLACK + 1
    ensures at <= t && f(at) <= n <= f(at) + SLACK
  {
    if n >= f(t) {
      at := t;
    } else {
      assert f(t - 1 + 1) <= f(t - 1) + SLACK + 1;
      at := Between(f, t - 1, n);
    }
  }

  // ---------------------------------------------------------------- ATVs

  function Clamped(x: int, max: nat): nat {
    if x < 0 then 0 else if x > max then max else x
  }

  /** Ever larger transactions: first the fixed fields, then the publication data, then outputs. */
  function TxOf(h: Hashes, t: nat, signature: nat, publicKey: nat): VbkTx {
    var address, x := Address(STANDARD, Sample(h)), Clamped(t - 1, 10000);
    var big := t > 0;
    VbkTx(NetworkByte(if big then Some(0) else None, VBK_TX), address, if big then -1 else 0,
          seq(Clamped(t - 10001, 255), i => Output(address, -1)), if big then -1 else 0,
          PublicationData(if big then 256 else 0, Zeros(Clamped(x, 1024)), Zeros(x), Zeros(x)),
          Zeros(signature), Zeros(publicKey))
  }

  function PubSizeAt(t: nat): nat {
    var x := Clamped(t - 1, 10000);
    (if t > 0 then 3 else 2) + VarLenSize(Clamped(x, 1024)) + VarLenSize(x) + VarLenSize(x)
  }

  function TxRawSizeAt(t: nat): nat {
    (if t > 0 then 2 + 24 + 9 + 9 else 1 + 24 + 2 + 2) + 1 + 33 * Clamped(t - 10001, 255) + VarLenSize(PubSizeAt(t))
  }

  function AtvSizeAt(t: nat): nat {
    120 + VarLenSize(TxRawSizeAt(t))
  }

  lemma NegativeSize()
    ensures SingleBESize(-1) == 9 && SingleBESize(0) == 2 && SingleBESize(256) == 3
  {
    LengthSize(0);
    LengthSize(256);
  }

  lemma TxIsOk(h: Hashes, t: nat, signature: nat, publicKey: nat)
    requires HashesOk(h) && t <= 10256 && signature <= MAX_SIGNATURE_SIZE && publicKey <= MAX_PUBLIC_KEY_SIZE
    ensures var tx := TxOf(h, t, signature, publicKey);
            && IsVbkTx(h, tx) && PublicationDataSize(tx.publicationData) == PubSizeAt(t) <= MAX_PUBLICATIONDATA_SIZE
            && VbkTxRawSize(tx) == TxRawSizeAt(t)
  {
    hide Pow, FitsSigned, IsAddress, Sample, SingleBESize, VarLenSize, AddressBytes, TotalSize;
    var tx := TxOf(h, t, signature, publicKey);
    SampleIsAddress(h);
    AddressIs22Bytes(h, tx.sourceAddress);
    Fits();
    NegativeSize();
    forall o | o in tx.outputs
      ensures IsOutput(h, o) && OutputSize(o) == 33
    {
    }
    UniformSize(OutputSize, tx.outputs, 33);
    var x := Clamped(t - 1, 10000);
    LengthSize(Clamped(x, 1024));
    LengthSize(x);
  }

  lemma AtvSteps(t: nat)
    requires t <= 10256
    ensures AtvSizeAt(0) == MIN_ATV_SIZE && AtvSizeAt(10256) + SLACK == MAX_ATV_SIZE
    ensures t < 10256 ==> AtvSizeAt(t + 1) <= AtvSizeAt(t) + SLACK + 1
  {
    hide SingleBESize, VarLenSize;
    AtvSizeParts(0);
    AtvSizeParts(10256);
    AtvSizeParts(t);
    if t < 10256 {
      AtvSizeParts(t + 1);
    }
  }

  lemma AtvSizeParts(t: nat)
    requires t <= 10256
    ensures var x := Clamped(t - 1, 10000);
            && VarLenSize(x) == x + SingleBESize(x) && 2 <= SingleBESize(x) <= 4 && VarLenSize(1024) == 1027
            && VarLenSize(Clamped(x, 1024)) == Clamped(x, 1024) + SingleBESize(Clamped(x, 1024))
            && 2 <= SingleBESize(Clamped(x, 1024)) <= 4 && VarLenSize(0) == 2 && VarLenSize(10000) == 10003
            && VarLenSize(PubSizeAt(t)) == PubSizeAt(t) + SingleBESize(PubSizeAt(t)) && 2 <= SingleBESize(PubSizeAt(t)) <= 4
            && VarLenSize(8) == 10 && VarLenSize(21036) == 21039 && VarLenSize(40) == 42 && VarLenSize(29499) == 29502
            && VarLenSize(TxRawSizeAt(t)) == TxRawSizeAt(t) + SingleBESize(TxRawSizeAt(t))
            && 2 <= SingleBESize(TxRawSizeAt(t)) <= 4
  {
    hide SingleBESize, VarLenSize;
    var x := Clamped(t - 1, 10000);
    LengthSize(0);
    LengthSize(8);
    LengthSize(40);
    LengthSize(1024);
    LengthSize(10000);
    LengthSize(21036);
    LengthSize(29499);
    LengthSize(x);
    LengthSize(Clamped(x, 1024));
    LengthSize(PubSizeAt(t));
    LengthSize(TxRawSizeAt(t));
  }

  function AtvOf(h: Hashes, t: nat, e: nat): ATV {
    ATV(1, TxOf(h, t, SlackSignature(e), SlackKey(e)), PathOf(SlackLayers(e)), ZERO_BLOCK)
  }

  /** No ATV is smaller or larger than the bounds. */
  lemma AtvSizeBounds(h: Hashes, a: ATV)
    requires IsATV(h, a)
    ensures MIN_ATV_SIZE <= ATVSize(a) <= MAX_ATV_SIZE
  {
    hide Pow, FitsSigned, IsAddress, SingleBESize, VarLenSize, AddressBytes, TotalSize;
    var tx := a.transaction;
    AddressIs22Bytes(h, tx.sourceAddress);
    NumberSize(tx.sourceAmount);
    NumberSize(tx.signatureIndex);
    forall o | o in tx.outputs
      ensures OutputSize(o) <= 33
    {
      AddressIs22Bytes(h, o.address);
      NumberSize(o.coin);
    }
    TotalSizeAtMost(OutputSize, tx.outputs, 33);
    PubSizeBounds(tx.publicationData);
    LengthSize(PublicationDataSize(tx.publicationData));
    LengthSize(VbkTxRawSize(tx));
  }

  lemma PubSizeBounds(p: PublicationData)
    requires IsPublicationData(p)
    ensures 8 <= PublicationDataSize(p) < 22000
  {
    hide SingleBESize, VarLenSize, Pow, FitsSigned;
    NumberSize(p.identifier);
    LengthSize(|p.header|);
    LengthSize(|p.contextInfo|);
    LengthSize(|p.payoutInfo|);
  }

  /** The sizes of ATVs are exactly the numbers between the bounds. */
  lemma AtvSizes(h: Hashes, n: nat)
    requires HashesOk(h)
    ensures (exists a: ATV :: IsATV(h, a) && ATVSize(a) == n) <==> MIN_ATV_SIZE <= n <= MAX_ATV_SIZE
  {
    hide IsATV, ATVSize, AtvSizeAt;
    if MIN_ATV_SIZE <= n <= MAX_ATV_SIZE {
      forall i: nat | i <= 10256
        ensures i < 10256 ==> AtvSizeAt(i + 1) <= AtvSizeAt(i) + SLACK + 1
      {
        AtvSteps(i);
      }
      AtvSteps(0);
      var t := Between(AtvSizeAt, 10256, n);
      AtvOfSize(h, t, n - AtvSizeAt(t));
    }
    forall a: ATV | IsATV(h, a)
      ensures MIN_ATV_SIZE <= ATVSize(a) <= MAX_ATV_SIZE
    {
      AtvSizeBounds(h, a);
    }
  }

  lemma AtvOfSize(h: Hashes, t: nat, e: nat)
    requires HashesOk(h) && t <= 10256 && e <= SLACK
    ensures IsATV(h, AtvOf(h, t, e)) && ATVSize(AtvOf(h, t, e)) == AtvSizeAt(t) + e
  {
    hide IsVbkTx, TxOf, VbkTxRawSize, TxRawSizeAt, VarLenSize, PublicationDataSize, IsVbkMerklePath, IsVbkBlock, Pow;
    TxIsOk(h, t, SlackSignature(e), SlackKey(e));
    TxFields(h, t, SlackSignature(e), SlackKey(e));
    PathIsOk(SlackLayers(e));
    ZeroBlocks();
  }

  lemma TxFields(h: Hashes, t: nat, signature: nat, publicKey: nat)
    ensures var tx := TxOf(h, t, signature, publicKey); |tx.signature| == signature && |tx.publicKey| == publicKey
  {
  }

  // ---------------------------------------------------------------- VTBs

  const BTC_TX_TOP := 3999978
  const VTB_TOP := 1 + BTC_TX_TOP + 18500

  /** Ever larger PoP transactions: first the fixed fields and the merkle path, then the Bitcoin
      transaction, then the context. */
  function PopTxOf(h: Hashes, t: nat, signature: nat, publicKey: nat): VbkPopTx {
    var tx := Zeros(Clamped(t - 1, BTC_TX_TOP));
    VbkPopTx(NetworkByte(if t > 0 then Some(0) else None, VBK_POP_TX), Address(STANDARD, Sample(h)), ZERO_BLOCK, tx,
             MerklePath(0, h.twice(tx), seq(if t > 0 then MAX_LAYERS else 0, i => Zeros(HASH_SIZE))), ZERO_BTC_BLOCK,
             seq(Clamped(t - 1 - BTC_TX_TOP, 18500), i => ZERO_BTC_BLOCK), Zeros(signature), Zeros(publicKey))
  }

  function PopTxRawSizeAt(t: nat): nat {
    var c := Clamped(t - 1 - BTC_TX_TOP, 18500);
    (if t > 0 then 2 + 1342 else 1 + 21) + 24 + 66 + VarLenSize(Clamped(t - 1, BTC_TX_TOP)) + 81 + SingleBESize(c) + 81 * c
  }

  function VtbSizeAt(t: nat): nat {
    120 + VarLenSize(PopTxRawSizeAt(t))
  }

  lemma VtbSizeParts(t: nat)
    requires t <= VTB_TOP
    ensures var x, c := Clamped(t - 1, BTC_TX_TOP), Clamped(t - 1 - BTC_TX_TOP, 18500);
            && VarLenSize(x) == x + SingleBESize(x) && 2 <= SingleBESize(x) <= 4 && 2 <= SingleBESize(c) <= 3
            && SingleBESize(0) == 2 && SingleBESize(18500) == 3 && VarLenSize(BTC_TX_TOP) == BTC_TX_TOP + 4
            && VarLenSize(0) == 2 && VarLenSize(19) == 21 && VarLenSize(1339) == 1342
            && VarLenSize(197) == 199 && VarLenSize(5500000) == 5500004
            && VarLenSize(PopTxRawSizeAt(t)) == PopTxRawSizeAt(t) + SingleBESize(PopTxRawSizeAt(t))
            && 2 <= SingleBESize(PopTxRawSizeAt(t)) <= 4
  {
    hide SingleBESize, VarLenSize;
    var x, c := Clamped(t - 1, BTC_TX_TOP), Clamped(t - 1 - BTC_TX_TOP, 18500);
    LengthSize(0);
    LengthSize(19);
    LengthSize(1339);
    LengthSize(197);
    LengthSize(18500);
    LengthSize(BTC_TX_TOP);
    LengthSize(5500000);
    LengthSize(x);
    LengthSize(c);
    LengthSize(PopTxRawSizeAt(t));
  }

  lemma VtbSteps(t: nat)
    requires t <= VTB_TOP
    ensures VtbSizeAt(0) == MIN_VTB_SIZE && VtbSizeAt(VTB_TOP) + SLACK == MAX_VTB_SIZE
    ensures t < VTB_TOP ==> VtbSizeAt(t + 1) <= VtbSizeAt(t) + SLACK + 1
    ensures PopTxRawSizeAt(t) <= MAX_POPDATA_SIZE
  {
    hide SingleBESize, VarLenSize;
    VtbSizeParts(0);
    VtbSizeParts(VTB_TOP);
    VtbSizeParts(t);
    if t < VTB_TOP {
      VtbSizeParts(t + 1);
    }
  }

  lemma PopTxIsOk(h: Hashes, t: nat, signature: nat, publicKey: nat)
    requires HashesOk(h) && t <= VTB_TOP && signature <= MAX_SIGNATURE_SIZE && publicKey <= MAX_PUBLIC_KEY_SIZE
    ensures var tx := PopTxOf(h, t, signature, publicKey);
            && IsVbkPopTx(h, tx) && VbkPopTxRawSize(tx) == PopTxRawSizeAt(t) && |tx.signature| == signature
            && |tx.publicKey| == publicKey
  {
    hide Pow, FitsSigned, IsAddress, Sample, SingleBESize, VarLenSize, AddressBytes, IsVbkBlock, IsBtcBlock;
    var tx := PopTxOf(h, t, signature, publicKey);
    SampleIsAddress(h);
    AddressIs22Bytes(h, tx.address);
    Fits();
    ZeroBlocks();
    VtbSizeParts(t);
  }

  function VtbOf(h: Hashes, t: nat, e: nat): VTB {
    VTB(1, PopTxOf(h, t, SlackSignature(e), SlackKey(e)), PathOf(SlackLayers(e)), ZERO_BLOCK)
  }

  lemma VtbOfSize(h: Hashes, t: nat, e: nat)
    requires HashesOk(h) && t <= VTB_TOP && e <= SLACK
    ensures IsVTB(h, VtbOf(h, t, e)) && VTBSize(VtbOf(h, t, e)) == VtbSizeAt(t) + e
  {
    hide IsVbkPopTx, PopTxOf, VbkPopTxRawSize, PopTxRawSizeAt, VarLenSize, IsVbkMerklePath, IsVbkBlock, Pow;
    PopTxIsOk(h, t, SlackSignature(e), SlackKey(e));
    VtbSteps(t);
    PathIsOk(SlackLayers(e));
    ZeroBlocks();
  }

  lemma VtbSizeBounds(h: Hashes, v: VTB)
    requires IsVTB(h, v)
    ensures MIN_VTB_SIZE <= VTBSize(v) <= MAX_VTB_SIZE
  {
    hide Pow, FitsSigned, IsAddress, SingleBESize, VarLenSize, AddressBytes;
    var tx := v.transaction;
    AddressIs22Bytes(h, tx.address);
    LengthSize(|tx.bitcoinTransaction|);
    LengthSize(5 + 5 + 5 + 4 + 33 * |tx.merklePath.layers|);
    LengthSize(|tx.blockOfProofContext|);
    LengthSize(VbkPopTxRawSize(tx));
  }

  /** The sizes of VTBs are exactly the numbers between the bounds. */
  lemma VtbSizes(h: Hashes, n: nat)
    requires HashesOk(h)
    ensures (exists v: VTB :: IsVTB(h, v) && VTBSize(v) == n) <==> MIN_VTB_SIZE <= n <= MAX_VTB_SIZE
  {
    hide IsVTB, VTBSize, VtbSizeAt;
    if MIN_VTB_SIZE <= n <= MAX_VTB_SIZE {
      forall i: nat | i <= VTB_TOP
        ensures i < VTB_TOP ==> VtbSizeAt(i + 1) <= VtbSizeAt(i) + SLACK + 1
      {
        VtbSteps(i);
      }
      VtbSteps(0);
      var t := Between(VtbSizeAt, VTB_TOP, n);
      VtbOfSize(h, t, n - VtbSizeAt(t));
    }
    forall v: VTB | IsVTB(h, v)
      ensures MIN_VTB_SIZE <= VTBSize(v) <= MAX_VTB_SIZE
    {
      VtbSizeBounds(h, v);
    }
  }
}
