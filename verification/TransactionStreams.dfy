/** Bitcoin's transaction format as it is read from and written to streams. */
module TransactionStreams {
  import opened Numbers
  import opened Codec
  import opened Streams
  import opened VarInt
  import opened BtcTransaction

  // ---------------------------------------------------------------- compact sizes

  method WriteCompactSize(os: WriteStream, nSize: nat)
    requires nSize < 0x1_0000_0000_0000_0000
    modifies os
    ensures os.data == old(os.data) + EncodeSize(nSize)
  {
    hide LittleEndian, BigEndian;
    if nSize < 253 {
      OneByte(nSize);
      os.WriteLE(nSize, 1);
    } else if nSize <= 0xffff {
      OneByte(253);
      os.WriteLE(253, 1);
      os.WriteLE(nSize, 2);
    } else if nSize <= 0xffff_ffff {
      OneByte(254);
      os.WriteLE(254, 1);
      os.WriteLE(nSize, 4);
    } else {
      OneByte(255);
      os.WriteLE(255, 1);
      os.WriteLE(nSize, 8);
    }
  }

  method ReadCompactSize(ins: ReadStream) returns (r: Parsed<nat>)
    requires ins.Valid()
    modifies ins
    ensures ins.Valid() && r == ReadSize(old(ins.Rest())) && (r.Done? ==> ins.Rest() == r.rest)
  {
    hide ParseLE;
    var chSize := ins.ReadLE(1);
    if chSize.Fail? {
      return Fail;
    }
    var nSize := chSize;
    if chSize.value == 253 {
      nSize := ins.ReadLE(2);
      if nSize.Fail? || nSize.value < 253 {
        return Fail;
      }
    } else if chSize.value == 254 {
      nSize := ins.ReadLE(4);
      if nSize.Fail? || nSize.value < 0x1_0000 {
        return Fail;
      }
    } else if chSize.value > 254 {
      nSize := ins.ReadLE(8);
      if nSize.Fail? || nSize.value < 0x1_0000_0000 {
        return Fail;
      }
    }
    if nSize.value > MAX_SIZE {
      return Fail;
    }
    return nSize;
  }

  // ---------------------------------------------------------------- byte vectors

  /** The most bytes that are allocated before any of them has been read. */
  const CHUNK := 5_000_000

  method WriteByteVector(os: WriteStream, v: bytes)
    requires |v| < 0x1_0000_0000_0000_0000
    modifies os
    ensures os.data == old(os.data) + WriteBytes(v)
  {
    hide EncodeSize;
    WriteCompactSize(os, |v|);
    if v != [] {
      os.Write(v);
    }
  }

  /** Reads a vector of bytes piece by piece. */
  method ReadByteVector(ins: ReadStream) returns (r: Parsed<bytes>)
    requires ins.Valid()
    modifies ins
    ensures ins.Valid() && r == ReadBytes(old(ins.Rest())) && (r.Done? ==> ins.Rest() == r.rest)
  {
    hide ReadSize;
    var nSize := ReadCompactSize(ins);
    if nSize.Fail? {
      return Fail;
    }
    var v: bytes := [];
    ghost var s := ins.Rest();
    var i := 0;
    while i < nSize.value
      invariant ins.Valid() && i <= nSize.value && i <= |s| && v == s[..i] && ins.Rest() == s[i..]
    {
      var blk := if nSize.value - i < CHUNK then nSize.value - i else CHUNK;
      PieceTaken(s, i, blk);
      var piece := ins.ReadSlice(blk);
      if piece.Fail? {
        return Fail;
      }
      v := v + piece.value;
      i := i + blk;
    }
    return Done(v, ins.buffer[ins.pos..]);
  }

  lemma PieceTaken(s: bytes, i: nat, blk: nat)
    requires i <= |s|
    ensures Take(blk, s[i..]) == if |s| < i + blk then Fail else Done(s[i..i + blk], s[i + blk..])
    ensures i + blk <= |s| ==> s[..i] + s[i..i + blk] == s[..i + blk]
  {
    if i + blk <= |s| {
      assert s[i..][..blk] == s[i..i + blk] && s[i..][blk..] == s[i + blk..];
    }
  }

  // ---------------------------------------------------------------- inputs, outputs, witnesses

  method WriteTxIn(os: WriteStream, i: TxIn)
    requires |i.scriptSig| < 0x1_0000_0000_0000_0000
    modifies os
    ensures os.data == old(os.data) + WriteIn(i)
  {
    hide LittleEndian, WriteBytes;
    os.Write(i.prevout.hash);
    os.WriteLE(i.prevout.n, 4);
    WriteByteVector(os, i.scriptSig);
    os.WriteLE(i.nSequence, 4);
  }

  method ReadTxIn(ins: ReadStream) returns (r: Parsed<TxIn>)
    requires ins.Valid()
    modifies ins
    ensures ins.Valid() && r == ReadIn(old(ins.Rest())) && (r.Done? ==> ins.Rest() == r.rest)
  {
    hide Take, ParseLE, ReadBytes;
    var hash := ins.ReadSlice(32);
    if hash.Fail? {
      return Fail;
    }
    var n := ins.ReadLE(4);
    if n.Fail? {
      return Fail;
    }
    var scriptSig := ReadByteVector(ins);
    if scriptSig.Fail? {
      return Fail;
    }
    var nSequence := ins.ReadLE(4);
    if nSequence.Fail? {
      return Fail;
    }
    return Done(TxIn(OutPoint(hash.value, n.value), scriptSig.value, nSequence.value, []), nSequence.rest);
  }

  method WriteTxOut(os: WriteStream, o: TxOut)
    requires |o.scriptPubKey| < 0x1_0000_0000_0000_0000
    modifies os
    ensures os.data == old(os.data) + WriteOut(o)
  {
    hide LittleEndian, WriteBytes, ToUnsigned;
    os.WriteLE(ToUnsigned(o.nValue, 64), 8);
    WriteByteVector(os, o.scriptPubKey);
  }

  method ReadTxOut(ins: ReadStream) returns (r: Parsed<TxOut>)
    requires ins.Valid()
    modifies ins
    ensures ins.Valid() && r == ReadOut(old(ins.Rest())) && (r.Done? ==> ins.Rest() == r.rest)
  {
    hide ParseLE, ReadBytes, ToSigned;
    var nValue := ins.ReadLE(8);
    if nValue.Fail? {
      return Fail;
    }
    var scriptPubKey := ReadByteVector(ins);
    if scriptPubKey.Fail? {
      return Fail;
    }
    return Done(TxOut(ToSigned(nValue.value, 64), scriptPubKey.value), scriptPubKey.rest);
  }

  method WriteInputs(os: WriteStream, items: seq<TxIn>)
    requires |items| < 0x1_0000_0000_0000_0000 && forall x <- items :: CanWriteIn(x)
    modifies os
    ensures os.data == old(os.data) + WriteVector(WriteIn, items)
  {
    hide WriteAll, WriteIn, EncodeSize;
    WriteCompactSize(os, |items|);
    ghost var start := os.data;
    NoneWritten(WriteIn, items[..0]);
    for i := 0 to |items|
      invariant os.data == start + WriteAll(WriteIn, items[..i])
    {
      AllNext(WriteIn, items, i);
      assert CanWriteIn(items[i]);
      WriteTxIn(os, items[i]);
    }
    assert items[..|items|] == items;
  }

  method ReadInputs(ins: ReadStream) returns (r: Parsed<seq<TxIn>>)
    requires ins.Valid()
    modifies ins
    ensures ins.Valid() && r == ReadVector(ReadIn, old(ins.Rest())) && (r.Done? ==> ins.Rest() == r.rest)
  {
    hide ReadMany, ReadIn, Resumed, ReadSize;
    var nSize := ReadCompactSize(ins);
    if nSize.Fail? {
      return Fail;
    }
    var v: seq<TxIn> := [];
    ManyStarted(ReadIn, nSize.value, ins.Rest());
    for i := 0 to nSize.value
      invariant ins.Valid()
      invariant ReadMany(ReadIn, nSize.value, nSize.rest) == Resumed(v, ReadMany(ReadIn, nSize.value - i, ins.Rest()))
    {
      ManyNext(ReadIn, nSize.value - i, v, ins.Rest());
      var item := ReadTxIn(ins);
      if item.Fail? {
        return Fail;
      }
      v := v + [item.value];
    }
    ManyDone(ReadIn, v, ins.Rest());
    return Done(v, ins.buffer[ins.pos..]);
  }

  method WriteOutputs(os: WriteStream, items: seq<TxOut>)
    requires |items| < 0x1_0000_0000_0000_0000 && forall x <- items :: |x.scriptPubKey| < 0x1_0000_0000_0000_0000
    modifies os
    ensures os.data == old(os.data) + WriteVector(WriteOut, items)
  {
    hide WriteAll, WriteOut, EncodeSize;
    WriteCompactSize(os, |items|);
    ghost var start := os.data;
    NoneWritten(WriteOut, items[..0]);
    for i := 0 to |items|
      invariant os.data == start + WriteAll(WriteOut, items[..i])
    {
      AllNext(WriteOut, items, i);
      WriteTxOut(os, items[i]);
    }
    assert items[..|items|] == items;
  }

  method ReadOutputs(ins: ReadStream) returns (r: Parsed<seq<TxOut>>)
    requires ins.Valid()
    modifies ins
    ensures ins.Valid() && r == ReadVector(ReadOut, old(ins.Rest())) && (r.Done? ==> ins.Rest() == r.rest)
  {
    hide ReadMany, ReadOut, Resumed, ReadSize;
    var nSize := ReadCompactSize(ins);
    if nSize.Fail? {
      return Fail;
    }
    var v: seq<TxOut> := [];
    ManyStarted(ReadOut, nSize.value, ins.Rest());
    for i := 0 to nSize.value
      invariant ins.Valid()
      invariant ReadMany(ReadOut, nSize.value, nSize.rest) == Resumed(v, ReadMany(ReadOut, nSize.value - i, ins.Rest()))
    {
      ManyNext(ReadOut, nSize.value - i, v, ins.Rest());
      var item := ReadTxOut(ins);
      if item.Fail? {
        return Fail;
      }
      v := v + [item.value];
    }
    ManyDone(ReadOut, v, ins.Rest());
    return Done(v, ins.buffer[ins.pos..]);
  }

  method WriteStack(os: WriteStream, items: seq<bytes>)
    requires |items| < 0x1_0000_0000_0000_0000 && forall x <- items :: |x| < 0x1_0000_0000_0000_0000
    modifies os
    ensures os.data == old(os.data) + WriteVector(WriteBytes, items)
  {
    hide WriteAll, WriteBytes, EncodeSize;
    WriteCompactSize(os, |items|);
    ghost var start := os.data;
    NoneWritten(WriteBytes, items[..0]);
    for i := 0 to |items|
      invariant os.data == start + WriteAll(WriteBytes, items[..i])
    {
      AllNext(WriteBytes, items, i);
      WriteByteVector(os, items[i]);
    }
    assert items[..|items|] == items;
  }

  method ReadStack(ins: ReadStream) returns (r: Parsed<seq<bytes>>)
    requires ins.Valid()
    modifies ins
    ensures ins.Valid() && r == ReadVector(ReadBytes, old(ins.Rest())) && (r.Done? ==> ins.Rest() == r.rest)
  {
    hide ReadMany, ReadBytes, Resumed, ReadSize;
    var nSize := ReadCompactSize(ins);
    if nSize.Fail? {
      return Fail;
    }
    var v: seq<bytes> := [];
    ManyStarted(ReadBytes, nSize.value, ins.Rest());
    for i := 0 to nSize.value
      invariant ins.Valid()
      invariant ReadMany(ReadBytes, nSize.value, nSize.rest) == Resumed(v, ReadMany(ReadBytes, nSize.value - i, ins.Rest()))
    {
      ManyNext(ReadBytes, nSize.value - i, v, ins.Rest());
      var item := ReadByteVector(ins);
      if item.Fail? {
        return Fail;
      }
      v := v + [item.value];
    }
    ManyDone(ReadBytes, v, ins.Rest());
    return Done(v, ins.buffer[ins.pos..]);
  }

  // ---------------------------------------------------------------- transactions

  /** Whether all lengths fit 64 bits. */
  predicate CanWriteIn(i: TxIn) {
    |i.scriptSig| < 0x1_0000_0000_0000_0000 && |i.scriptWitness| < 0x1_0000_0000_0000_0000 && forall item <- i.scriptWitness :: |item| < 0x1_0000_0000_0000_0000
  }

  predicate CanWriteTx(tx: Transaction) {
    && |tx.vin| < 0x1_0000_0000_0000_0000 && (forall i <- tx.vin :: CanWriteIn(i))
    && |tx.vout| < 0x1_0000_0000_0000_0000 && (forall o <- tx.vout :: |o.scriptPubKey| < 0x1_0000_0000_0000_0000)
  }

  method HasWitness(tx: Transaction) returns (has: bool)
    ensures has == tx.HasWitness()
  {
    for i := 0 to |tx.vin|
      invariant forall j :: 0 <= j < i ==> tx.vin[j].scriptWitness == []
    {
      if tx.vin[i].scriptWitness != [] {
        return true;
      }
    }
    return false;
  }

  method WriteWitnesses(os: WriteStream, vin: seq<TxIn>)
    requires forall i <- vin :: CanWriteIn(i)
    modifies os
    ensures os.data == old(os.data) + WriteAll(WriteWitness, Witnesses(vin))
  {
    hide WriteAll, WriteVector;
    ghost var ws := Witnesses(vin);
    NoneWritten(WriteWitness, ws[..0]);
    for i := 0 to |vin|
      invariant os.data == old(os.data) + WriteAll(WriteWitness, ws[..i])
    {
      AllNext(WriteWitness, ws, i);
      assert CanWriteIn(vin[i]);
      WriteStack(os, vin[i].scriptWitness);
    }
    assert ws[..|vin|] == ws;
  }

  /** The version, the marker and flag if there are witnesses, then the body. */
  method SerializeTransaction(tx: Transaction, s: WriteStream, fAllowWitness: bool)
    requires CanWriteTx(tx)
    modifies s
    ensures s.data == old(s.data) + WriteTx(tx, fAllowWitness)
  {
    hide LittleEndian, WriteAll, WriteVector, Transaction.HasWitness, ToUnsigned, EncodeSize, CanWriteIn, Witnesses;
    s.WriteLE(ToUnsigned(tx.nVersion, 32), 4);
    var flags := 0;
    if fAllowWitness {
      var has := HasWitness(tx);
      if has {
        flags := 1;
      }
    }
    if flags != 0 {
      NoInputs();
      WriteInputs(s, []);
      OneByte(1);
      s.WriteLE(flags, 1);
    }
    WriteInputs(s, tx.vin);
    WriteOutputs(s, tx.vout);
    if flags % 2 == 1 {
      WriteWitnesses(s, tx.vin);
    }
    s.WriteLE(tx.nLockTime, 4);
  }

  lemma NoInputs()
    ensures WriteVector(WriteIn, []) == EncodeSize(0)
  {
  }

  method ReadWitnesses(ins: ReadStream, vin: seq<TxIn>) returns (r: Parsed<seq<TxIn>>)
    requires ins.Valid()
    modifies ins
    ensures ins.Valid()
    ensures r == (match ReadMany(ReadWitness, |vin|, old(ins.Rest()))
                  case Fail => Fail
                  case Done(ws, rest) => if |ws| == |vin| then Done(Attach(vin, ws), rest) else Fail)
    ensures r.Done? ==> ins.Rest() == r.rest
  {
    hide ReadMany, ReadVector, Resumed;
    var ws: seq<seq<bytes>> := [];
    ManyStarted(ReadWitness, |vin|, ins.Rest());
    for i := 0 to |vin|
      invariant ins.Valid() && |ws| == i
      invariant ReadMany(ReadWitness, |vin|, old(ins.Rest())) == Resumed(ws, ReadMany(ReadWitness, |vin| - i, ins.Rest()))
    {
      ManyNext(ReadWitness, |vin| - i, ws, ins.Rest());
      var w := ReadStack(ins);
      if w.Fail? {
        return Fail;
      }
      ws := ws + [w.value];
    }
    ManyDone(ReadWitness, ws, ins.Rest());
    return Done(Attach(vin, ws), ins.buffer[ins.pos..]);
  }

  /** What comes after the outputs: the witnesses, if announced, and the lock time. */
  method UnserializeEnd(tx: Transaction, flags: nat, s: ReadStream) returns (r: Parsed<Transaction>)
    requires s.Valid()
    modifies s
    ensures s.Valid() && r == ReadEnd(tx, flags, old(s.Rest())) && (r.Done? ==> s.Rest() == r.rest)
  {
    hide ReadMany, ReadWitness, Transaction.HasWitness, ParseLE, Attach;
    var full, left := tx, flags;
    if flags % 2 == 1 {
      left := flags - 1;
      var vin := ReadWitnesses(s, tx.vin);
      if vin.Fail? {
        return Fail;
      }
      full := tx.(vin := vin.value);
      var has := HasWitness(full);
      if !has {
        return Fail;
      }
    }
    if left != 0 {
      return Fail;
    }
    var nLockTime := s.ReadLE(4);
    if nLockTime.Fail? {
      return Fail;
    }
    return Done(full.(nLockTime := nLockTime.value), nLockTime.rest);
  }

  method UnserializeTransaction(s: ReadStream, fAllowWitness: bool) returns (r: Parsed<Transaction>)
    requires s.Valid()
    modifies s
    ensures s.Valid() && r == ReadTx(old(s.Rest()), fAllowWitness) && (r.Done? ==> s.Rest() == r.rest)
  {
    hide ReadVector, ReadIn, ReadOut, ReadEnd, ParseLE, ToSigned;
    var nVersion := s.ReadLE(4);
    if nVersion.Fail? {
      return Fail;
    }
    var version := ToSigned(nVersion.value, 32);
    var flags := 0;
    var vin := ReadInputs(s);
    if vin.Fail? {
      return Fail;
    }
    var vout: seq<TxOut> := [];
    if |vin.value| == 0 && fAllowWitness {
      var flag := s.ReadLE(1);
      if flag.Fail? {
        return Fail;
      }
      flags := flag.value;
      if flags != 0 {
        vin := ReadInputs(s);
        if vin.Fail? {
          return Fail;
        }
        var outs := ReadOutputs(s);
        if outs.Fail? {
          return Fail;
        }
        vout := outs.value;
      }
    } else {
      var outs := ReadOutputs(s);
      if outs.Fail? {
        return Fail;
      }
      vout := outs.value;
    }
    r := UnserializeEnd(Transaction(vin.value, vout, version, 0), flags, s);
  }

  lemma TxIsWritable(tx: Transaction)
    requires TxOk(tx)
    ensures CanWriteTx(tx)
  {
    hide Pow, FitsSigned;
  }

  /** A transaction through streams: it comes back exactly when it has inputs or no outputs. */
  method TransactionThroughStreams(tx: Transaction) returns (r: Parsed<Transaction>)
    requires TxOk(tx)
    ensures r == Done(tx, []) <==> tx.vin != [] || tx.vout == []
  {
    hide TxOk, CanWriteTx, WriteTx, ReadTx;
    TxIsWritable(tx);
    var out := new WriteStream();
    SerializeTransaction(tx, out, true);
    TransactionRoundTrip(tx, []);
    assert out.data == WriteTx(tx, true) + [];
    var input := new ReadStream(out.data);
    r := UnserializeTransaction(input, true);
  }
}
