/** The entities' encoders and decoders as they run: appending to a write stream, and moving a
    read stream forward. Each is proved to compute the encoding that the round trips are about. */
module EntityStreams {
  import opened Numbers
  import opened Codec
  import opened Streams
  import opened Serde
  import opened Addresses
  import opened Entities
  import opened PopDataCodec
  import Base58
  import Base59

  // ---------------------------------------------------------------- fixed-width numbers

  method ReadIntFrom(stream: ReadStream, n: nat) returns (r: Parsed<int>)
    requires stream.Valid() && n > 0
    modifies stream
    ensures stream.Valid() && r == ReadInt(n, old(stream.Rest())) && (r.Done? ==> stream.Rest() == r.rest)
  {
    var u := stream.ReadBE(n);
    if u.Fail? {
      return Fail;
    }
    return Done(ToSigned(u.value, 8 * n), u.rest);
  }

  method WriteSingleFixedBEValue(stream: WriteStream, value: int, width: nat)
    requires width < 256
    modifies stream
    ensures stream.data == old(stream.data) + WriteFixedBE(value, width)
  {
    hide BigEndian;
    var dataStream := new WriteStream();
    dataStream.WriteBE(value, width, width);
    assert dataStream.data == BigEndian(value, width);
    WriteSingleByteLenValue(stream, dataStream.data);
  }

  // ---------------------------------------------------------------- addresses and outputs

  lemma MultisigIsText(h: Hashes, a: Address)
    requires IsAddress(h, a) && a.typeId != STANDARD
    ensures Base59.IsText(a.text) && forall i :: 0 <= i < |a.text| ==> a.text[i] as int < 128
  {
    forall i | 0 <= i < |a.text|
      ensures a.text[i] as int < 128
    {
      assert Base59.Index(a.text[i]) != -1;
    }
  }

  lemma AddressIsShort(h: Hashes, a: Address)
    requires IsAddress(h, a)
    ensures CanWriteByteLen(AddressBytes(a))
  {
    hide IsAddress, AddressBytes, WriteAddress, ReadAddress;
    AddressRoundTrip(h, a, []);
  }

  method DecodeAddress(h: Hashes, a: Address) returns (decoded: bytes)
    requires IsAddress(h, a)
    ensures decoded == AddressBytes(a)
  {
    hide IsAddress, Base58.Decoded, Base59.Decoded, Base59.IsText;
    decoded := [];
    if a.typeId == STANDARD {
      var d := Base58.DecodeBase58(a.text);
      if d.Some? {
        decoded := d.value;
      }
    } else {
      MultisigIsText(h, a);
      ghost var ok, steps;
      ok, decoded, steps := Base59.DecodeBase59(a.text, []);
    }
  }

  method WriteAddressTo(stream: WriteStream, h: Hashes, a: Address)
    requires IsAddress(h, a)
    modifies stream
    ensures stream.data == old(stream.data) + WriteAddress(a)
  {
    hide IsAddress, AddressBytes, WriteByteLen, BigEndian;
    AddressIsShort(h, a);
    var decoded := DecodeAddress(h, a);
    OneByte(a.typeId);
    stream.WriteBE(a.typeId, 1, 1);
    WriteSingleByteLenValue(stream, decoded);
  }

  method ReadAddressFrom(stream: ReadStream, h: Hashes) returns (r: Parsed<Address>)
    requires stream.Valid()
    modifies stream
    ensures stream.Valid() && r == ReadAddress(h, old(stream.Rest())) && (r.Done? ==> stream.Rest() == r.rest)
  {
    hide Base58.Encoded, Base59.Encoded, FromString, ReadByteLen, BE;
    ByteIsNumber(stream.Rest());
    var typeId := stream.ReadBE(1);
    if typeId.Fail? {
      return Fail;
    }
    var addressBytes := ReadSingleByteLenValue(stream, 0, ADDRESS_SIZE);
    if addressBytes.Fail? {
      return Fail;
    }
    var text: string;
    if typeId.value == STANDARD as int {
      text := Base58.EncodeBase58(addressBytes.value);
    } else if typeId.value == MULTISIG as int {
      ghost var steps;
      text, steps := Base59.EncodeBase59(addressBytes.value);
    } else {
      return Fail;
    }
    var t := FromString(h, text);
    if t.None? {
      return Fail;
    }
    return Done(Address(t.value, text), addressBytes.rest);
  }

  predicate CanWriteOutput(h: Hashes, o: Output) {
    IsAddress(h, o.address) && IsInt64(o.coin)
  }

  method WriteOutputTo(stream: WriteStream, h: Hashes, o: Output)
    requires CanWriteOutput(h, o)
    modifies stream
    ensures stream.data == old(stream.data) + WriteOutput(o)
  {
    hide IsAddress, WriteAddress, WriteSingleBE;
    WriteAddressTo(stream, h, o.address);
    WriteSingleBEValue(stream, o.coin);
  }

  method ReadOutputFrom(stream: ReadStream, h: Hashes) returns (r: Parsed<Output>)
    requires stream.Valid()
    modifies stream
    ensures stream.Valid() && r == ReadOutput(h, old(stream.Rest())) && (r.Done? ==> stream.Rest() == r.rest)
  {
    hide ReadAddress, ReadSingleBE;
    var address := ReadAddressFrom(stream, h);
    if address.Fail? {
      return Fail;
    }
    var amount := ReadSingleBEValue(stream, 8);
    if amount.Fail? {
      return Fail;
    }
    return Done(Output(address.value, amount.value), amount.rest);
  }

  // ---------------------------------------------------------------- blocks

  method WriteVbkBlockTo(stream: WriteStream, b: VbkBlock)
    requires IsVbkBlock(b)
    modifies stream
    ensures stream.data == old(stream.data) + WriteVbkBlock(b)
  {
    hide IsVbkBlock, VbkBlockRaw;
    VbkBlockRawRoundTrip(b);
    var blockStream := new WriteStream();
    WriteVbkBlockRaw(blockStream, b);
    assert blockStream.data == VbkBlockRaw(b);
    WriteSingleByteLenValue(stream, blockStream.data);
  }

  method WriteVbkBlockRaw(stream: WriteStream, b: VbkBlock)
    modifies stream
    ensures stream.data == old(stream.data) + VbkBlockRaw(b)
  {
    hide BigEndian;
    stream.WriteBE(b.height, 4, 4);
    stream.WriteBE(b.version, 2, 2);
    stream.Write(b.previousBlock);
    stream.Write(b.previousKeystone);
    stream.Write(b.secondPreviousKeystone);
    stream.Write(b.merkleRoot);
    stream.WriteBE(b.timestamp, 4, 4);
    stream.WriteBE(b.difficulty, 4, 4);
    stream.WriteBE(b.nonce, 8, 5);
  }

  method ReadVbkBlockFromRaw(stream: ReadStream) returns (r: Parsed<VbkBlock>)
    requires stream.Valid()
    modifies stream
    ensures stream.Valid() && r == ReadVbkBlockRaw(old(stream.Rest())) && (r.Done? ==> stream.Rest() == r.rest)
  {
    hide ReadInt, ParseBE, Take;
    var height := ReadIntFrom(stream, 4);
    if height.Fail? {
      return Fail;
    }
    var version := ReadIntFrom(stream, 2);
    if version.Fail? {
      return Fail;
    }
    var previousBlock := stream.ReadSlice(12);
    if previousBlock.Fail? {
      return Fail;
    }
    var previousKeystone := stream.ReadSlice(9);
    if previousKeystone.Fail? {
      return Fail;
    }
    var secondPreviousKeystone := stream.ReadSlice(9);
    if secondPreviousKeystone.Fail? {
      return Fail;
    }
    var merkleRoot := stream.ReadSlice(16);
    if merkleRoot.Fail? {
      return Fail;
    }
    var timestamp := stream.ReadBE(4);
    if timestamp.Fail? {
      return Fail;
    }
    var difficulty := ReadIntFrom(stream, 4);
    if difficulty.Fail? {
      return Fail;
    }
    var nonce := stream.ReadBE(5);
    if nonce.Fail? {
      return Fail;
    }
    return Done(VbkBlock(height.value, version.value, previousBlock.value, previousKeystone.value,
                         secondPreviousKeystone.value, merkleRoot.value, timestamp.value, difficulty.value,
                         nonce.value), nonce.rest);
  }

  method ReadVbkBlockFrom(stream: ReadStream) returns (r: Parsed<VbkBlock>)
    requires stream.Valid()
    modifies stream
    ensures stream.Valid() && r == ReadVbkBlock(old(stream.Rest())) && (r.Done? ==> stream.Rest() == r.rest)
  {
    hide ReadByteLen, ReadVbkBlockRaw;
    var value := ReadSingleByteLenValue(stream, 65, 65);
    if value.Fail? {
      return Fail;
    }
    var valStream := new ReadStream(value.value);
    var b := ReadVbkBlockFromRaw(valStream);
    if b.Fail? {
      return Fail;
    }
    return Done(b.value, value.rest);
  }

  method WriteBtcBlockRaw(stream: WriteStream, b: BtcBlock)
    modifies stream
    ensures stream.data == old(stream.data) + BtcBlockRaw(b)
  {
    hide LittleEndian, Reversed, ToUnsigned;
    stream.WriteLE(ToUnsigned(b.version, 32), 4);
    stream.Write(Reversed(b.previousBlock));
    stream.Write(Reversed(b.merkleRoot));
    stream.WriteLE(b.timestamp, 4);
    stream.WriteLE(b.bits, 4);
    stream.WriteLE(b.nonce, 4);
  }

  method WriteBtcBlockTo(stream: WriteStream, b: BtcBlock)
    requires IsBtcBlock(b)
    modifies stream
    ensures stream.data == old(stream.data) + WriteBtcBlock(b)
  {
    hide LittleEndian, Reversed, ToUnsigned;
    var blockStream := new WriteStream();
    WriteBtcBlockRaw(blockStream, b);
    assert blockStream.data == BtcBlockRaw(b);
    WriteSingleByteLenValue(stream, blockStream.data);
  }

  method ReadBtcBlockFromRaw(stream: ReadStream) returns (r: Parsed<BtcBlock>)
    requires stream.Valid()
    modifies stream
    ensures stream.Valid() && r == ReadBtcBlockRaw(old(stream.Rest())) && (r.Done? ==> stream.Rest() == r.rest)
  {
    hide ParseLE, Take, ToSigned, Reversed;
    var version := stream.ReadLE(4);
    if version.Fail? {
      return Fail;
    }
    var previousBlock := stream.ReadSlice(HASH_SIZE);
    if previousBlock.Fail? {
      return Fail;
    }
    var merkleRoot := stream.ReadSlice(HASH_SIZE);
    if merkleRoot.Fail? {
      return Fail;
    }
    var timestamp := stream.ReadLE(4);
    if timestamp.Fail? {
      return Fail;
    }
    var bits := stream.ReadLE(4);
    if bits.Fail? {
      return Fail;
    }
    var nonce := stream.ReadLE(4);
    if nonce.Fail? {
      return Fail;
    }
    return Done(BtcBlock(ToSigned(version.value, 32), Reversed(previousBlock.value), Reversed(merkleRoot.value),
                         timestamp.value, bits.value, nonce.value), nonce.rest);
  }

  method ReadBtcBlockFrom(stream: ReadStream) returns (r: Parsed<BtcBlock>)
    requires stream.Valid()
    modifies stream
    ensures stream.Valid() && r == ReadBtcBlock(old(stream.Rest())) && (r.Done? ==> stream.Rest() == r.rest)
  {
    hide ReadByteLen, ReadBtcBlockRaw;
    var value := ReadSingleByteLenValue(stream, 80, 80);
    if value.Fail? {
      return Fail;
    }
    var valStream := new ReadStream(value.value);
    var b := ReadBtcBlockFromRaw(valStream);
    if b.Fail? {
      return Fail;
    }
    return Done(b.value, value.rest);
  }

  // ---------------------------------------------------------------- publication data

  predicate CanWritePublicationData(p: PublicationData) {
    && IsInt64(p.identifier)
    && |p.header| < INT64 && |p.contextInfo| < INT64 && |p.payoutInfo| < INT64
  }

  method WritePublicationDataTo(stream: WriteStream, p: PublicationData)
    requires CanWritePublicationData(p)
    modifies stream
    ensures stream.data == old(stream.data) + WritePublicationData(p)
  {
    hide WriteSingleBE, WriteVarLen;
    WriteSingleBEValue(stream, p.identifier);
    WriteVarLenValue(stream, p.header);
    WriteVarLenValue(stream, p.contextInfo);
    WriteVarLenValue(stream, p.payoutInfo);
  }

  method ReadPublicationDataFrom(stream: ReadStream) returns (r: Parsed<PublicationData>)
    requires stream.Valid()
    modifies stream
    ensures stream.Valid() && r == ReadPublicationData(old(stream.Rest())) && (r.Done? ==> stream.Rest() == r.rest)
  {
    hide ReadSingleBE, ReadVarLen;
    var identifier := ReadSingleBEValue(stream, 8);
    if identifier.Fail? {
      return Fail;
    }
    var header := ReadVarLenValue(stream, 0, MAX_HEADER_SIZE);
    if header.Fail? {
      return Fail;
    }
    var contextInfo := ReadVarLenValue(stream, 0, MAX_CONTEXT_SIZE);
    if contextInfo.Fail? {
      return Fail;
    }
    var payoutInfo := ReadVarLenValue(stream, 0, MAX_PAYOUT_INFO_SIZE);
    if payoutInfo.Fail? {
      return Fail;
    }
    return Done(PublicationData(identifier.value, header.value, contextInfo.value, payoutInfo.value), payoutInfo.rest);
  }

  // ---------------------------------------------------------------- VBK transactions

  /** The tail that both kinds of transaction share: the raw data, a signature and a key. */
  method WriteSignedTo(stream: WriteStream, raw: bytes, signature: bytes, publicKey: bytes)
    requires |raw| < INT64 && CanWriteByteLen(signature) && CanWriteByteLen(publicKey)
    modifies stream
    ensures stream.data == old(stream.data) + WriteSigned(raw, signature, publicKey)
  {
    hide WriteVarLen, WriteByteLen;
    WriteVarLenValue(stream, raw);
    WriteSingleByteLenValue(stream, signature);
    WriteSingleByteLenValue(stream, publicKey);
  }

  method ReadSignedFrom(stream: ReadStream) returns (r: Parsed<(bytes, bytes, bytes)>)
    requires stream.Valid()
    modifies stream
    ensures stream.Valid() && r == ReadSigned(old(stream.Rest())) && (r.Done? ==> stream.Rest() == r.rest)
  {
    hide ReadVarLen, ReadByteLen;
    var raw := ReadVarLenValue(stream, 0, MAX_POPDATA_SIZE);
    if raw.Fail? {
      return Fail;
    }
    var signature := ReadSingleByteLenValue(stream, 0, MAX_SIGNATURE_SIZE);
    if signature.Fail? {
      return Fail;
    }
    var publicKey := ReadSingleByteLenValue(stream, 0, MAX_PUBLIC_KEY_SIZE);
    if publicKey.Fail? {
      return Fail;
    }
    return Done((raw.value, signature.value, publicKey.value), publicKey.rest);
  }

  method WriteNetworkBytePair(stream: WriteStream, p: NetworkByte)
    modifies stream
    ensures stream.data == old(stream.data) + WriteNetworkByte(p)
  {
    hide BigEndian;
    if p.network.Some? {
      OneByte(p.network.value);
      stream.WriteBE(p.network.value, 1, 1);
    }
    OneByte(p.typeId);
    stream.WriteBE(p.typeId, 1, 1);
  }

  predicate CanWriteVbkTx(h: Hashes, t: VbkTx) {
    && IsAddress(h, t.sourceAddress) && IsInt64(t.sourceAmount) && (forall o <- t.outputs :: CanWriteOutput(h, o))
    && IsInt64(t.signatureIndex) && CanWritePublicationData(t.publicationData)
    && |WritePublicationData(t.publicationData)| < INT64 && |VbkTxRaw(t)| < INT64
    && CanWriteByteLen(t.signature) && CanWriteByteLen(t.publicKey)
  }

  method WriteOutputs(stream: WriteStream, h: Hashes, outputs: seq<Output>)
    requires forall o <- outputs :: CanWriteOutput(h, o)
    modifies stream
    ensures stream.data == old(stream.data) + WriteAll(WriteOutput, outputs)
  {
    hide WriteAll, WriteOutput, CanWriteOutput;
    NoneWritten(WriteOutput, outputs[..0]);
    for i := 0 to |outputs|
      invariant stream.data == old(stream.data) + WriteAll(WriteOutput, outputs[..i])
    {
      AllNext(WriteOutput, outputs, i);
      WriteOutputTo(stream, h, outputs[i]);
    }
    assert outputs[..|outputs|] == outputs;
  }

  method WriteVbkTxRaw(stream: WriteStream, h: Hashes, t: VbkTx)
    requires CanWriteVbkTx(h, t)
    modifies stream
    ensures stream.data == old(stream.data) + VbkTxRaw(t)
  {
    hide WriteAddress, WriteSingleBE, WriteVarLen, WriteAll, WritePublicationData, WriteNetworkByte, IsAddress, BigEndian;
    hide CanWriteOutput;
    WriteNetworkBytePair(stream, t.networkOrType);
    WriteAddressTo(stream, h, t.sourceAddress);
    WriteSingleBEValue(stream, t.sourceAmount);
    OneByte(|t.outputs| % 256);
    stream.WriteBE(|t.outputs| % 256, 1, 1);
    WriteOutputs(stream, h, t.outputs);
    WriteSingleBEValue(stream, t.signatureIndex);
    var pubBytesStream := new WriteStream();
    WritePublicationDataTo(pubBytesStream, t.publicationData);
    assert pubBytesStream.data == WritePublicationData(t.publicationData);
    WriteVarLenValue(stream, pubBytesStream.data);
  }

  method WriteVbkTxTo(stream: WriteStream, h: Hashes, t: VbkTx)
    requires CanWriteVbkTx(h, t)
    modifies stream
    ensures stream.data == old(stream.data) + WriteVbkTx(t)
  {
    hide VbkTxRaw, WriteSigned;
    var txStream := new WriteStream();
    WriteVbkTxRaw(txStream, h, t);
    assert txStream.data == VbkTxRaw(t);
    WriteSignedTo(stream, txStream.data, t.signature, t.publicKey);
  }

  method ReadOutputsFrom(stream: ReadStream, h: Hashes, n: nat) returns (r: Parsed<seq<Output>>)
    requires stream.Valid()
    modifies stream
    ensures stream.Valid() && r == ReadMany(b => ReadOutput(h, b), n, old(stream.Rest()))
    ensures r.Done? ==> stream.Rest() == r.rest
  {
    hide ReadMany, ReadOutput, Resumed;
    ghost var read: Reader<Output> := b => ReadOutput(h, b);
    var outputs: seq<Output> := [];
    ManyStarted(read, n, stream.Rest());
    for i := 0 to n
      invariant stream.Valid()
      invariant ReadMany(read, n, old(stream.Rest())) == Resumed(outputs, ReadMany(read, n - i, stream.Rest()))
    {
      ManyNext(read, n - i, outputs, stream.Rest());
      var output := ReadOutputFrom(stream, h);
      if output.Fail? {
        return Fail;
      }
      outputs := outputs + [output.value];
    }
    ManyDone(read, outputs, stream.Rest());
    return Done(outputs, stream.buffer[stream.pos..]);
  }

  method ReadVbkTxFromRaw(stream: ReadStream, h: Hashes, signature: bytes, publicKey: bytes) returns (r: Parsed<VbkTx>)
    requires stream.Valid()
    modifies stream
    ensures stream.Valid() && r == ReadVbkTxRaw(h, old(stream.Rest()), signature, publicKey) && (r.Done? ==> stream.Rest() == r.rest)
  {
    hide ReadNetworkByte, ReadAddress, ReadSingleBE, ReadVarLen, ReadMany, ReadPublicationData, BE;
    var networkOrType := ReadNetworkBytePair(stream, VBK_TX);
    if networkOrType.Fail? {
      return Fail;
    }
    var sourceAddress := ReadAddressFrom(stream, h);
    if sourceAddress.Fail? {
      return Fail;
    }
    var sourceAmount := ReadSingleBEValue(stream, 8);
    if sourceAmount.Fail? {
      return Fail;
    }
    ByteIsNumber(stream.Rest());
    var outputSize := stream.ReadBE(1);
    if outputSize.Fail? {
      return Fail;
    }
    var outputs := ReadOutputsFrom(stream, h, outputSize.value);
    if outputs.Fail? {
      return Fail;
    }
    var signatureIndex := ReadSingleBEValue(stream, 8);
    if signatureIndex.Fail? {
      return Fail;
    }
    var pubBytes := ReadVarLenValue(stream, 0, MAX_PUBLICATIONDATA_SIZE);
    if pubBytes.Fail? {
      return Fail;
    }
    var pubStream := new ReadStream(pubBytes.value);
    var publicationData := ReadPublicationDataFrom(pubStream);
    if publicationData.Fail? {
      return Fail;
    }
    return Done(VbkTx(networkOrType.value, sourceAddress.value, sourceAmount.value, outputs.value, signatureIndex.value,
                      publicationData.value, signature, publicKey), pubBytes.rest);
  }

  method ReadVbkTxFrom(stream: ReadStream, h: Hashes) returns (r: Parsed<VbkTx>)
    requires stream.Valid()
    modifies stream
    ensures stream.Valid() && r == ReadVbkTx(h, old(stream.Rest())) && (r.Done? ==> stream.Rest() == r.rest)
  {
    hide ReadSigned, ReadVbkTxRaw;
    var parts := ReadSignedFrom(stream);
    if parts.Fail? {
      return Fail;
    }
    var txStream := new ReadStream(parts.value.0);
    var t := ReadVbkTxFromRaw(txStream, h, parts.value.1, parts.value.2);
    if t.Fail? {
      return Fail;
    }
    return Done(t.value, parts.rest);
  }

  // ---------------------------------------------------------------- merkle paths

  method WriteLayers(stream: WriteStream, layers: seq<bytes>)
    requires forall l <- layers :: |l| == HASH_SIZE
    modifies stream
    ensures stream.data == old(stream.data) + WriteAll(WriteByteLen, layers)
  {
    hide WriteAll, WriteByteLen;
    NoneWritten(WriteByteLen, layers[..0]);
    for i := 0 to |layers|
      invariant stream.data == old(stream.data) + WriteAll(WriteByteLen, layers[..i])
    {
      AllNext(WriteByteLen, layers, i);
      WriteSingleByteLenValue(stream, layers[i]);
    }
    assert layers[..|layers|] == layers;
  }

  method ReadLayersFrom(stream: ReadStream, n: nat) returns (r: Parsed<seq<bytes>>)
    requires stream.Valid()
    modifies stream
    ensures stream.Valid() && r == ReadMany(ReadHash, n, old(stream.Rest()))
    ensures r.Done? ==> stream.Rest() == r.rest
  {
    hide ReadMany, ReadByteLen, Resumed;
    var layers: seq<bytes> := [];
    ManyStarted(ReadHash, n, stream.Rest());
    for i := 0 to n
      invariant stream.Valid()
      invariant ReadMany(ReadHash, n, old(stream.Rest())) == Resumed(layers, ReadMany(ReadHash, n - i, stream.Rest()))
    {
      ManyNext(ReadHash, n - i, layers, stream.Rest());
      var layer := ReadSingleByteLenValue(stream, HASH_SIZE, HASH_SIZE);
      if layer.Fail? {
        return Fail;
      }
      layers := layers + [layer.value];
    }
    ManyDone(ReadHash, layers, stream.Rest());
    return Done(layers, stream.buffer[stream.pos..]);
  }

  method WriteMerklePathRaw(stream: WriteStream, m: MerklePath)
    requires forall l <- m.layers :: |l| == HASH_SIZE
    modifies stream
    ensures stream.data == old(stream.data) + MerklePathRaw(m)
  {
    hide WriteFixedBE, BigEndian, WriteAll;
    WriteSingleFixedBEValue(stream, m.index, 4);
    WriteSingleFixedBEValue(stream, |m.layers|, 4);
    var subjectSizeBytes := BigEndian(|m.subject|, 4);
    WriteSingleFixedBEValue(stream, |subjectSizeBytes|, 4);
    stream.Write(subjectSizeBytes);
    WriteLayers(stream, m.layers);
  }

  method WriteMerklePathTo(stream: WriteStream, m: MerklePath)
    requires (forall l <- m.layers :: |l| == HASH_SIZE) && |MerklePathRaw(m)| < INT64
    modifies stream
    ensures stream.data == old(stream.data) + WriteMerklePath(m)
  {
    hide MerklePathRaw, WriteVarLen;
    var pathStream := new WriteStream();
    WriteMerklePathRaw(pathStream, m);
    assert pathStream.data == MerklePathRaw(m);
    WriteVarLenValue(stream, pathStream.data);
  }

  method ReadMerklePathFromRaw(stream: ReadStream, subject: bytes) returns (r: Parsed<MerklePath>)
    requires stream.Valid()
    modifies stream
    ensures stream.Valid() && r == ReadMerklePathRaw(subject, old(stream.Rest())) && (r.Done? ==> stream.Rest() == r.rest)
  {
    hide ReadSingleBE, ReadInt, ReadMany;
    var index := ReadSingleBEValue(stream, 4);
    if index.Fail? {
      return Fail;
    }
    var numLayers := ReadSingleBEValue(stream, 4);
    if numLayers.Fail? {
      return Fail;
    }
    if numLayers.value < 0 || numLayers.value > MAX_LAYERS {
      return Fail;
    }
    var sizeOfSize := ReadSingleBEValue(stream, 4);
    if sizeOfSize.Fail? {
      return Fail;
    }
    if sizeOfSize.value != 4 {
      return Fail;
    }
    var sizeOfData := ReadIntFrom(stream, 4);
    if sizeOfData.Fail? {
      return Fail;
    }
    if sizeOfData.value != HASH_SIZE {
      return Fail;
    }
    var layers := ReadLayersFrom(stream, numLayers.value);
    if layers.Fail? {
      return Fail;
    }
    return Done(MerklePath(index.value, subject, layers.value), layers.rest);
  }

  method ReadMerklePathFrom(stream: ReadStream, subject: bytes) returns (r: Parsed<MerklePath>)
    requires stream.Valid()
    modifies stream
    ensures stream.Valid() && r == ReadMerklePath(subject, old(stream.Rest())) && (r.Done? ==> stream.Rest() == r.rest)
  {
    hide ReadVarLen, ReadMerklePathRaw;
    var raw := ReadVarLenValue(stream, 0, MAX_POPDATA_SIZE);
    if raw.Fail? {
      return Fail;
    }
    var ms := new ReadStream(raw.value);
    var m := ReadMerklePathFromRaw(ms, subject);
    if m.Fail? {
      return Fail;
    }
    return Done(m.value, raw.rest);
  }

  lemma VbkMerklePathParts(s: bytes, m: VbkMerklePath)
    ensures s + WriteVbkMerklePath(m) ==
            s + WriteFixedBE(m.treeIndex, 4) + WriteFixedBE(m.index, 4) + WriteByteLen(m.subject)
              + WriteFixedBE(|m.layers|, 4) + WriteAll(WriteByteLen, m.layers)
  {
    hide WriteFixedBE, WriteByteLen, WriteAll;
    FlattenedFive(s, WriteFixedBE(m.treeIndex, 4), WriteFixedBE(m.index, 4), WriteByteLen(m.subject),
                  WriteFixedBE(|m.layers|, 4), WriteAll(WriteByteLen, m.layers));
  }

  lemma FlattenedFive(s: bytes, a: bytes, b: bytes, c: bytes, d: bytes, e: bytes)
    ensures s + (a + (b + (c + (d + e)))) == s + a + b + c + d + e
  {
  }

  method WriteVbkMerklePathTo(stream: WriteStream, m: VbkMerklePath)
    requires CanWriteByteLen(m.subject) && forall l <- m.layers :: |l| == HASH_SIZE
    modifies stream
    ensures stream.data == old(stream.data) + WriteVbkMerklePath(m)
  {
    hide WriteFixedBE, WriteByteLen, WriteAll, WriteVbkMerklePath;
    VbkMerklePathParts(stream.data, m);
    WriteSingleFixedBEValue(stream, m.treeIndex, 4);
    WriteSingleFixedBEValue(stream, m.index, 4);
    WriteSingleByteLenValue(stream, m.subject);
    WriteSingleFixedBEValue(stream, |m.layers|, 4);
    WriteLayers(stream, m.layers);
  }

  method ReadVbkMerklePathFrom(stream: ReadStream) returns (r: Parsed<VbkMerklePath>)
    requires stream.Valid()
    modifies stream
    ensures stream.Valid() && r == ReadVbkMerklePath(old(stream.Rest())) && (r.Done? ==> stream.Rest() == r.rest)
  {
    hide ReadSingleBE, ReadByteLen, ReadMany;
    var treeIndex := ReadSingleBEValue(stream, 4);
    if treeIndex.Fail? {
      return Fail;
    }
    var index := ReadSingleBEValue(stream, 4);
    if index.Fail? {
      return Fail;
    }
    var subject := ReadSingleByteLenValue(stream, HASH_SIZE, HASH_SIZE);
    if subject.Fail? {
      return Fail;
    }
    var count := ReadSingleBEValue(stream, 4);
    if count.Fail? {
      return Fail;
    }
    if count.value < 0 || count.value > MAX_LAYERS {
      return Fail;
    }
    var layers := ReadLayersFrom(stream, count.value);
    if layers.Fail? {
      return Fail;
    }
    return Done(VbkMerklePath(treeIndex.value, index.value, subject.value, layers.value), layers.rest);
  }

  // ---------------------------------------------------------------- PoP transactions

  method WriteBtcContext(stream: WriteStream, items: seq<BtcBlock>)
    requires |items| < INT64 && forall x <- items :: IsBtcBlock(x)
    modifies stream
    ensures stream.data == old(stream.data) + WriteContainer(WriteBtcBlock, items)
  {
    hide WriteAll, WriteBtcBlock, WriteSingleBE, IsBtcBlock;
    WriteSingleBEValue(stream, |items|);
    ghost var start := stream.data;
    NoneWritten(WriteBtcBlock, items[..0]);
    for i := 0 to |items|
      invariant stream.data == start + WriteAll(WriteBtcBlock, items[..i])
    {
      AllNext(WriteBtcBlock, items, i);
      WriteBtcBlockTo(stream, items[i]);
    }
    assert items[..|items|] == items;
  }

  method ReadBtcContextFrom(stream: ReadStream, max: nat) returns (r: Parsed<seq<BtcBlock>>)
    requires stream.Valid()
    modifies stream
    ensures stream.Valid() && r == ReadArrayOf(ReadBtcBlock, 0, max, old(stream.Rest()))
    ensures r.Done? ==> stream.Rest() == r.rest
  {
    hide ReadSingleBE, ReadMany, ReadBtcBlock, Resumed;
    var count := ReadSingleBEValue(stream, 4);
    if count.Fail? || count.value < 0 || count.value > max {
      return Fail;
    }
    var items: seq<BtcBlock> := [];
    ManyStarted(ReadBtcBlock, count.value, stream.Rest());
    for i := 0 to count.value
      invariant stream.Valid()
      invariant ReadMany(ReadBtcBlock, count.value, count.rest) == Resumed(items, ReadMany(ReadBtcBlock, count.value - i, stream.Rest()))
    {
      ManyNext(ReadBtcBlock, count.value - i, items, stream.Rest());
      var item := ReadBtcBlockFrom(stream);
      if item.Fail? {
        return Fail;
      }
      items := items + [item.value];
    }
    ManyDone(ReadBtcBlock, items, stream.Rest());
    return Done(items, stream.buffer[stream.pos..]);
  }

  predicate CanWriteVbkPopTxRaw(h: Hashes, t: VbkPopTx) {
    && IsAddress(h, t.address) && IsVbkBlock(t.publishedBlock) && |t.bitcoinTransaction| < INT64
    && (forall l <- t.merklePath.layers :: |l| == HASH_SIZE) && |MerklePathRaw(t.merklePath)| < INT64
    && IsBtcBlock(t.blockOfProof) && |t.blockOfProofContext| < INT64
    && (forall b <- t.blockOfProofContext :: IsBtcBlock(b))
  }

  predicate CanWriteVbkPopTx(h: Hashes, t: VbkPopTx) {
    && CanWriteVbkPopTxRaw(h, t) && |VbkPopTxRaw(t)| < INT64
    && CanWriteByteLen(t.signature) && CanWriteByteLen(t.publicKey)
  }

  lemma Flattened(s: bytes, a: bytes, b: bytes, c: bytes, d: bytes, e: bytes, f: bytes, g: bytes)
    ensures s + (a + (b + (c + (d + (e + (f + (g + []))))))) == s + a + b + c + d + e + f + g
  {
  }

  lemma VbkPopTxRawParts(s: bytes, t: VbkPopTx)
    ensures s + VbkPopTxRaw(t) ==
            s + WriteNetworkByte(t.networkOrType) + WriteAddress(t.address) + WriteVbkBlock(t.publishedBlock)
              + WriteVarLen(t.bitcoinTransaction) + WriteMerklePath(t.merklePath) + WriteBtcBlock(t.blockOfProof)
              + WriteContainer(WriteBtcBlock, t.blockOfProofContext)
  {
    hide WriteNetworkByte, WriteAddress, WriteVbkBlock, WriteVarLen, WriteMerklePath, WriteBtcBlock, WriteContainer;
    Flattened(s, WriteNetworkByte(t.networkOrType), WriteAddress(t.address), WriteVbkBlock(t.publishedBlock),
              WriteVarLen(t.bitcoinTransaction), WriteMerklePath(t.merklePath), WriteBtcBlock(t.blockOfProof),
              WriteContainer(WriteBtcBlock, t.blockOfProofContext));
  }

  method WriteVbkPopTxRaw(stream: WriteStream, h: Hashes, t: VbkPopTx)
    requires CanWriteVbkPopTxRaw(h, t)
    modifies stream
    ensures stream.data == old(stream.data) + VbkPopTxRaw(t)
  {
    hide WriteNetworkByte, WriteAddress, WriteVbkBlock, WriteVarLen, WriteMerklePath, WriteBtcBlock, WriteContainer;
    hide IsAddress, IsVbkBlock, IsBtcBlock, MerklePathRaw, VbkPopTxRaw;
    VbkPopTxRawParts(stream.data, t);
    WriteNetworkBytePair(stream, t.networkOrType);
    WriteAddressTo(stream, h, t.address);
    WriteVbkBlockTo(stream, t.publishedBlock);
    WriteVarLenValue(stream, t.bitcoinTransaction);
    WriteMerklePathTo(stream, t.merklePath);
    WriteBtcBlockTo(stream, t.blockOfProof);
    WriteBtcContext(stream, t.blockOfProofContext);
  }

  method WriteVbkPopTxTo(stream: WriteStream, h: Hashes, t: VbkPopTx)
    requires CanWriteVbkPopTx(h, t)
    modifies stream
    ensures stream.data == old(stream.data) + WriteVbkPopTx(t)
  {
    hide CanWriteVbkPopTxRaw, VbkPopTxRaw, WriteSigned;
    var txStream := new WriteStream();
    WriteVbkPopTxRaw(txStream, h, t);
    assert txStream.data == VbkPopTxRaw(t);
    WriteSignedTo(stream, txStream.data, t.signature, t.publicKey);
  }

  method ReadVbkPopTxFromRaw(stream: ReadStream, h: Hashes, signature: bytes, publicKey: bytes) returns (r: Parsed<VbkPopTx>)
    requires stream.Valid()
    modifies stream
    ensures stream.Valid() && r == ReadVbkPopTxRaw(h, old(stream.Rest()), signature, publicKey) && (r.Done? ==> stream.Rest() == r.rest)
  {
    hide ReadNetworkByte, ReadAddress, ReadVbkBlock, ReadVarLen, ReadMerklePath, ReadBtcBlock, ReadArrayOf;
    var networkOrType := ReadNetworkBytePair(stream, VBK_POP_TX);
    if networkOrType.Fail? {
      return Fail;
    }
    var address := ReadAddressFrom(stream, h);
    if address.Fail? {
      return Fail;
    }
    var publishedBlock := ReadVbkBlockFrom(stream);
    if publishedBlock.Fail? {
      return Fail;
    }
    var bitcoinTransaction := ReadVarLenValue(stream, 0, BTC_TX_MAX_RAW_SIZE);
    if bitcoinTransaction.Fail? {
      return Fail;
    }
    var merklePath := ReadMerklePathFrom(stream, h.twice(bitcoinTransaction.value));
    if merklePath.Fail? {
      return Fail;
    }
    var blockOfProof := ReadBtcBlockFrom(stream);
    if blockOfProof.Fail? {
      return Fail;
    }
    var context := ReadBtcContextFrom(stream, MAX_BTC_BLOCKS_IN_VBKPOPTX);
    if context.Fail? {
      return Fail;
    }
    return Done(VbkPopTx(networkOrType.value, address.value, publishedBlock.value, bitcoinTransaction.value, merklePath.value,
                         blockOfProof.value, context.value, signature, publicKey), context.rest);
  }

  method ReadVbkPopTxFrom(stream: ReadStream, h: Hashes) returns (r: Parsed<VbkPopTx>)
    requires stream.Valid()
    modifies stream
    ensures stream.Valid() && r == ReadVbkPopTx(h, old(stream.Rest())) && (r.Done? ==> stream.Rest() == r.rest)
  {
    hide ReadSigned, ReadVbkPopTxRaw;
    var parts := ReadSignedFrom(stream);
    if parts.Fail? {
      return Fail;
    }
    var txStream := new ReadStream(parts.value.0);
    var t := ReadVbkPopTxFromRaw(txStream, h, parts.value.1, parts.value.2);
    if t.Fail? {
      return Fail;
    }
    return Done(t.value, parts.rest);
  }

  // ---------------------------------------------------------------- ATVs, VTBs, PopData

  predicate CanWritePath(m: VbkMerklePath) {
    CanWriteByteLen(m.subject) && forall l <- m.layers :: |l| == HASH_SIZE
  }

  predicate CanWriteATV(h: Hashes, a: ATV) {
    a.version == 1 && CanWriteVbkTx(h, a.transaction) && CanWritePath(a.merklePath) && IsVbkBlock(a.blockOfProof)
  }

  method WriteATVTo(stream: WriteStream, h: Hashes, a: ATV)
    requires CanWriteATV(h, a)
    modifies stream
    ensures stream.data == old(stream.data) + WriteATV(a)
  {
    hide BigEndian, WriteVbkTx, CanWriteVbkTx, WriteVbkMerklePath, WriteVbkBlock, IsVbkBlock;
    stream.WriteBE(a.version, 4, 4);
    WriteVbkTxTo(stream, h, a.transaction);
    WriteVbkMerklePathTo(stream, a.merklePath);
    WriteVbkBlockTo(stream, a.blockOfProof);
  }

  method ReadATVFrom(stream: ReadStream, h: Hashes) returns (r: Parsed<ATV>)
    requires stream.Valid()
    modifies stream
    ensures stream.Valid() && r == ReadATV(h, old(stream.Rest())) && (r.Done? ==> stream.Rest() == r.rest)
  {
    hide ParseBE, ReadVbkTx, ReadVbkMerklePath, ReadVbkBlock;
    var version := stream.ReadBE(4);
    if version.Fail? {
      return Fail;
    }
    if version.value != 1 {
      return Fail;
    }
    var transaction := ReadVbkTxFrom(stream, h);
    if transaction.Fail? {
      return Fail;
    }
    var merklePath := ReadVbkMerklePathFrom(stream);
    if merklePath.Fail? {
      return Fail;
    }
    var blockOfProof := ReadVbkBlockFrom(stream);
    if blockOfProof.Fail? {
      return Fail;
    }
    return Done(ATV(version.value, transaction.value, merklePath.value, blockOfProof.value), blockOfProof.rest);
  }

  predicate CanWriteVTB(h: Hashes, v: VTB) {
    v.version == 1 && CanWriteVbkPopTx(h, v.transaction) && CanWritePath(v.merklePath) && IsVbkBlock(v.containingBlock)
  }

  method WriteVTBTo(stream: WriteStream, h: Hashes, v: VTB)
    requires CanWriteVTB(h, v)
    modifies stream
    ensures stream.data == old(stream.data) + WriteVTB(v)
  {
    hide BigEndian, WriteVbkPopTx, CanWriteVbkPopTx, WriteVbkMerklePath, WriteVbkBlock, IsVbkBlock;
    stream.WriteBE(v.version, 4, 4);
    WriteVbkPopTxTo(stream, h, v.transaction);
    WriteVbkMerklePathTo(stream, v.merklePath);
    WriteVbkBlockTo(stream, v.containingBlock);
  }

  method ReadVTBFrom(stream: ReadStream, h: Hashes) returns (r: Parsed<VTB>)
    requires stream.Valid()
    modifies stream
    ensures stream.Valid() && r == ReadVTB(h, old(stream.Rest())) && (r.Done? ==> stream.Rest() == r.rest)
  {
    hide ParseBE, ReadVbkPopTx, ReadVbkMerklePath, ReadVbkBlock;
    var version := stream.ReadBE(4);
    if version.Fail? {
      return Fail;
    }
    if version.value != 1 {
      return Fail;
    }
    var transaction := ReadVbkPopTxFrom(stream, h);
    if transaction.Fail? {
      return Fail;
    }
    var merklePath := ReadVbkMerklePathFrom(stream);
    if merklePath.Fail? {
      return Fail;
    }
    var containingBlock := ReadVbkBlockFrom(stream);
    if containingBlock.Fail? {
      return Fail;
    }
    return Done(VTB(version.value, transaction.value, merklePath.value, containingBlock.value), containingBlock.rest);
  }

  method WriteContext(stream: WriteStream, items: seq<VbkBlock>)
    requires |items| < INT64 && forall x <- items :: IsVbkBlock(x)
    modifies stream
    ensures stream.data == old(stream.data) + WriteContainer(WriteVbkBlock, items)
  {
    hide WriteAll, WriteVbkBlock, WriteSingleBE, IsVbkBlock;
    WriteSingleBEValue(stream, |items|);
    ghost var start := stream.data;
    NoneWritten(WriteVbkBlock, items[..0]);
    for i := 0 to |items|
      invariant stream.data == start + WriteAll(WriteVbkBlock, items[..i])
    {
      AllNext(WriteVbkBlock, items, i);
      WriteVbkBlockTo(stream, items[i]);
    }
    assert items[..|items|] == items;
  }

  method WriteVTBs(stream: WriteStream, h: Hashes, items: seq<VTB>)
    requires |items| < INT64 && forall x <- items :: CanWriteVTB(h, x)
    modifies stream
    ensures stream.data == old(stream.data) + WriteContainer(WriteVTB, items)
  {
    hide WriteAll, WriteVTB, WriteSingleBE, CanWriteVTB;
    WriteSingleBEValue(stream, |items|);
    ghost var start := stream.data;
    NoneWritten(WriteVTB, items[..0]);
    for i := 0 to |items|
      invariant stream.data == start + WriteAll(WriteVTB, items[..i])
    {
      AllNext(WriteVTB, items, i);
      WriteVTBTo(stream, h, items[i]);
    }
    assert items[..|items|] == items;
  }

  method WriteATVs(stream: WriteStream, h: Hashes, items: seq<ATV>)
    requires |items| < INT64 && forall x <- items :: CanWriteATV(h, x)
    modifies stream
    ensures stream.data == old(stream.data) + WriteContainer(WriteATV, items)
  {
    hide WriteAll, WriteATV, WriteSingleBE, CanWriteATV;
    WriteSingleBEValue(stream, |items|);
    ghost var start := stream.data;
    NoneWritten(WriteATV, items[..0]);
    for i := 0 to |items|
      invariant stream.data == start + WriteAll(WriteATV, items[..i])
    {
      AllNext(WriteATV, items, i);
      WriteATVTo(stream, h, items[i]);
    }
    assert items[..|items|] == items;
  }

  method ReadContextFrom(stream: ReadStream, max: nat) returns (r: Parsed<seq<VbkBlock>>)
    requires stream.Valid()
    modifies stream
    ensures stream.Valid() && r == ReadArrayOf(ReadVbkBlock, 0, max, old(stream.Rest()))
    ensures r.Done? ==> stream.Rest() == r.rest
  {
    hide ReadSingleBE, ReadMany, ReadVbkBlock, Resumed;
    var count := ReadSingleBEValue(stream, 4);
    if count.Fail? || count.value < 0 || count.value > max {
      return Fail;
    }
    var items: seq<VbkBlock> := [];
    ManyStarted(ReadVbkBlock, count.value, stream.Rest());
    for i := 0 to count.value
      invariant stream.Valid()
      invariant ReadMany(ReadVbkBlock, count.value, count.rest) == Resumed(items, ReadMany(ReadVbkBlock, count.value - i, stream.Rest()))
    {
      ManyNext(ReadVbkBlock, count.value - i, items, stream.Rest());
      var item := ReadVbkBlockFrom(stream);
      if item.Fail? {
        return Fail;
      }
      items := items + [item.value];
    }
    ManyDone(ReadVbkBlock, items, stream.Rest());
    return Done(items, stream.buffer[stream.pos..]);
  }

  method ReadVTBsFrom(stream: ReadStream, h: Hashes, max: nat) returns (r: Parsed<seq<VTB>>)
    requires stream.Valid()
    modifies stream
    ensures stream.Valid() && r == ReadArrayOf(b => ReadVTB(h, b), 0, max, old(stream.Rest()))
    ensures r.Done? ==> stream.Rest() == r.rest
  {
    hide ReadSingleBE, ReadMany, ReadVTB, Resumed;
    ghost var read: Reader<VTB> := b => ReadVTB(h, b);
    var count := ReadSingleBEValue(stream, 4);
    if count.Fail? || count.value < 0 || count.value > max {
      return Fail;
    }
    var items: seq<VTB> := [];
    ManyStarted(read, count.value, stream.Rest());
    for i := 0 to count.value
      invariant stream.Valid()
      invariant ReadMany(read, count.value, count.rest) == Resumed(items, ReadMany(read, count.value - i, stream.Rest()))
    {
      ManyNext(read, count.value - i, items, stream.Rest());
      var item := ReadVTBFrom(stream, h);
      if item.Fail? {
        return Fail;
      }
      items := items + [item.value];
    }
    ManyDone(read, items, stream.Rest());
    return Done(items, stream.buffer[stream.pos..]);
  }

  method ReadATVsFrom(stream: ReadStream, h: Hashes, max: nat) returns (r: Parsed<seq<ATV>>)
    requires stream.Valid()
    modifies stream
    ensures stream.Valid() && r == ReadArrayOf(b => ReadATV(h, b), 0, max, old(stream.Rest()))
    ensures r.Done? ==> stream.Rest() == r.rest
  {
    hide ReadSingleBE, ReadMany, ReadATV, Resumed;
    ghost var read: Reader<ATV> := b => ReadATV(h, b);
    var count := ReadSingleBEValue(stream, 4);
    if count.Fail? || count.value < 0 || count.value > max {
      return Fail;
    }
    var items: seq<ATV> := [];
    ManyStarted(read, count.value, stream.Rest());
    for i := 0 to count.value
      invariant stream.Valid()
      invariant ReadMany(read, count.value, count.rest) == Resumed(items, ReadMany(read, count.value - i, stream.Rest()))
    {
      ManyNext(read, count.value - i, items, stream.Rest());
      var item := ReadATVFrom(stream, h);
      if item.Fail? {
        return Fail;
      }
      items := items + [item.value];
    }
    ManyDone(read, items, stream.Rest());
    return Done(items, stream.buffer[stream.pos..]);
  }

  predicate CanWritePopData(h: Hashes, p: PopData) {
    && p.version == 1 && |p.context| < INT64 && |p.vtbs| < INT64 && |p.atvs| < INT64
    && (forall b <- p.context :: IsVbkBlock(b)) && (forall v <- p.vtbs :: CanWriteVTB(h, v))
    && (forall a <- p.atvs :: CanWriteATV(h, a))
  }

  /** VBK blocks, then VTBs, then ATVs. */
  method WritePopDataTo(stream: WriteStream, h: Hashes, p: PopData)
    requires CanWritePopData(h, p)
    modifies stream
    ensures stream.data == old(stream.data) + WritePopData(p)
  {
    hide BigEndian, WriteContainer, IsVbkBlock, CanWriteVTB, CanWriteATV;
    stream.WriteBE(p.version, 4, 4);
    WriteContext(stream, p.context);
    WriteVTBs(stream, h, p.vtbs);
    WriteATVs(stream, h, p.atvs);
  }

  method ReadPopDataFrom(stream: ReadStream, h: Hashes) returns (r: Parsed<PopData>)
    requires stream.Valid()
    modifies stream
    ensures stream.Valid() && r == ReadPopData(h, old(stream.Rest())) && (r.Done? ==> stream.Rest() == r.rest)
  {
    hide ParseBE, ReadArrayOf, ReadVbkBlock, ReadVTB, ReadATV;
    var version := stream.ReadBE(4);
    if version.Fail? {
      return Fail;
    }
    if version.value != 1 {
      return Fail;
    }
    var context := ReadContextFrom(stream, MAX_COUNT);
    if context.Fail? {
      return Fail;
    }
    var vtbs := ReadVTBsFrom(stream, h, MAX_COUNT);
    if vtbs.Fail? {
      return Fail;
    }
    var atvs := ReadATVsFrom(stream, h, MAX_COUNT);
    if atvs.Fail? {
      return Fail;
    }
    return Done(PopData(version.value, context.value, vtbs.value, atvs.value), atvs.rest);
  }

  // ---------------------------------------------------------------- what can be written

  lemma FitsInt64(v: int)
    requires FitsSigned(v, 64)
    ensures IsInt64(v)
  {
    Pow2Bytes();
    Pow256IsPow2(7);
    assert Pow(256, 7) == 0x100_0000_0000_0000;
    PowAdd(2, 7, 56);
  }

  lemma VbkTxIsWritable(h: Hashes, t: VbkTx)
    requires IsVbkTx(h, t)
    ensures CanWriteVbkTx(h, t)
  {
    hide FitsSigned, IsAddress, VbkTxRaw, VbkTxRawSize, WritePublicationData, PublicationDataSize;
    VbkTxRawSmall(h, t);
    VbkTxRawRoundTrip(h, t);
    PublicationDataRoundTrip(t.publicationData);
    FitsInt64(t.sourceAmount);
    FitsInt64(t.signatureIndex);
    FitsInt64(t.publicationData.identifier);
    forall o | o in t.outputs
      ensures CanWriteOutput(h, o)
    {
      FitsInt64(o.coin);
    }
  }

  lemma MerklePathIsWritable(m: MerklePath)
    requires IsMerklePath(m)
    ensures |MerklePathRaw(m)| < INT64
  {
    hide IsMerklePath, MerklePathRaw;
    MerklePathRoundTrip(m, m.subject, []);
  }

  lemma VbkPopTxIsWritable(h: Hashes, t: VbkPopTx)
    requires IsVbkPopTx(h, t)
    ensures CanWriteVbkPopTx(h, t)
  {
    hide FitsSigned, IsAddress, VbkPopTxRaw, VbkPopTxRawSize, MerklePathRaw, IsVbkBlock, IsBtcBlock, Pow;
    VbkPopTxRawRoundTrip(h, t);
    MerklePathIsWritable(t.merklePath);
  }

  /** Whatever comes back can be written. */
  lemma PopDataIsWritable(h: Hashes, p: PopData)
    requires IsPopData(h, p)
    ensures CanWritePopData(h, p)
  {
    hide IsVbkTx, IsVbkPopTx, CanWriteVbkTx, CanWriteVbkPopTx, IsVbkBlock, Pow, FitsSigned;
    hide PublicationDataSize, VbkPopTxRawSize;
    forall a | a in p.atvs
      ensures CanWriteATV(h, a)
    {
      VbkTxIsWritable(h, a.transaction);
    }
    forall v | v in p.vtbs
      ensures CanWriteVTB(h, v)
    {
      VbkPopTxIsWritable(h, v.transaction);
    }
  }

  /** Writing PopData to a stream and reading the bytes from another gives it back. */
  method PopDataThroughStreams(h: Hashes, p: PopData) returns (r: Parsed<PopData>)
    requires IsPopData(h, p)
    ensures r == Done(p, [])
  {
    hide IsPopData, CanWritePopData, WritePopData, ReadPopData;
    PopDataIsWritable(h, p);
    var out := new WriteStream();
    WritePopDataTo(out, h, p);
    var input := new ReadStream(out.data);
    PopDataRoundTrip(h, p, []);
    assert out.data == WritePopData(p) + [];
    r := ReadPopDataFrom(input, h);
  }
}
