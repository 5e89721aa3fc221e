/** Bitcoin transactions with and without witnesses (section "Specification" of BIP 144). */
module BtcTransaction {
  import opened Numbers
  import opened Codec
  import opened VarInt
  import opened Streams

  datatype OutPoint = OutPoint(hash: bytes, n: nat)

  datatype TxIn = TxIn(prevout: OutPoint, scriptSig: bytes, nSequence: nat, scriptWitness: seq<bytes>)

  datatype TxOut = TxOut(nValue: int, scriptPubKey: bytes)

  datatype Transaction = Transaction(vin: seq<TxIn>, vout: seq<TxOut>, nVersion: int, nLockTime: nat) {
    predicate HasWitness() {
      exists i :: 0 <= i < |vin| && vin[i].scriptWitness != []
    }
  }

  // ---- What fits its machine type, and the reader's size limit ----

  predicate Sized<T>(xs: seq<T>) {
    |xs| <= MAX_SIZE
  }

  predicate InOk(i: TxIn) {
    && |i.prevout.hash| == 32 && i.prevout.n < Pow(256, 4) && i.nSequence < Pow(256, 4)
    && Sized(i.scriptSig) && WitnessOk(i.scriptWitness)
  }

  predicate WitnessOk(w: seq<bytes>) {
    Sized(w) && forall item :: item in w ==> Sized(item)
  }

  predicate OutOk(o: TxOut) {
    FitsSigned(o.nValue, 64) && Sized(o.scriptPubKey)
  }

  predicate TxOk(tx: Transaction) {
    && Sized(tx.vin) && (forall i :: i in tx.vin ==> InOk(i))
    && Sized(tx.vout) && (forall o :: o in tx.vout ==> OutOk(o))
    && FitsSigned(tx.nVersion, 32) && tx.nLockTime < Pow(256, 4)
  }

  // ---- Vectors ----

  function WriteBytes(b: bytes): bytes {
    EncodeSize(|b|) + b
  }

  function ReadBytes(s: bytes): Parsed<bytes> {
    var (n, s1) :- ReadSize(s);
    Take(n, s1)
  }

  function WriteVector<T>(write: Writer<T>, xs: seq<T>): bytes {
    EncodeSize(|xs|) + WriteAll(write, xs)
  }

  function ReadVector<T>(read: Reader<T>, s: bytes): Parsed<seq<T>> {
    var (n, s1) :- ReadSize(s);
    ReadMany(read, n, s1)
  }

  lemma BytesRoundTrip(b: bytes)
    requires Sized(b)
    ensures RoundTrips(WriteBytes, ReadBytes, b)
  {
    forall rest: bytes
      ensures Reads(WriteBytes, ReadBytes, b, rest)
    {
      Assoc(EncodeSize(|b|), b, rest);
      SizeRoundTrip(|b|, b + rest);
      TakeWritten(b, rest);
    }
  }

  lemma VectorRoundTrip<T(!new)>(write: Writer<T>, read: Reader<T>, xs: seq<T>, rest: bytes)
    requires Sized(xs) && forall x :: x in xs ==> RoundTrips(write, read, x)
    ensures ReadVector(read, WriteVector(write, xs) + rest) == Done(xs, rest)
  {
    Assoc(EncodeSize(|xs|), WriteAll(write, xs), rest);
    SizeRoundTrip(|xs|, WriteAll(write, xs) + rest);
    ManyRoundTrip(write, read, xs, rest);
  }

  // ---- Inputs, outputs, witnesses ----

  /** The witness is not part of an input's own encoding. */
  function WriteIn(i: TxIn): bytes {
    i.prevout.hash + (LittleEndian(i.prevout.n, 4) + (WriteBytes(i.scriptSig) + LittleEndian(i.nSequence, 4)))
  }

  function ReadIn(s: bytes): Parsed<TxIn> {
    var (hash, s1) :- Take(32, s);
    var (n, s2) :- ParseLE(4, s1);
    var (script, s3) :- ReadBytes(s2);
    var (sequence, s4) :- ParseLE(4, s3);
    Done(TxIn(OutPoint(hash, n), script, sequence, []), s4)
  }

  function WriteOut(o: TxOut): bytes {
    LittleEndian(ToUnsigned(o.nValue, 64), 8) + WriteBytes(o.scriptPubKey)
  }

  function ReadOut(s: bytes): Parsed<TxOut> {
    var (v, s1) :- ParseLE(8, s);
    var (script, s2) :- ReadBytes(s1);
    Done(TxOut(ToSigned(v, 64), script), s2)
  }

  function WriteWitness(w: seq<bytes>): bytes {
    WriteVector(WriteBytes, w)
  }

  function ReadWitness(s: bytes): Parsed<seq<bytes>> {
    ReadVector(ReadBytes, s)
  }

  function Stripped(i: TxIn): TxIn {
    i.(scriptWitness := [])
  }

  lemma InRoundTrip(i: TxIn, rest: bytes)
    requires InOk(i)
    ensures ReadIn(WriteIn(i) + rest) == Done(Stripped(i), rest)
  {
    hide EncodeSize, LittleEndian, Pow, ReadSize, WriteBytes, ReadBytes;
    var a, b, c, d := i.prevout.hash, LittleEndian(i.prevout.n, 4), WriteBytes(i.scriptSig), LittleEndian(i.nSequence, 4);
    Assoc(a, b + (c + d), rest);
    Assoc(b, c + d, rest);
    Assoc(c, d, rest);
    TakeWritten(a, b + (c + (d + rest)));
    LERoundTrip(4, i.prevout.n, c + (d + rest));
    BytesRoundTrip(i.scriptSig);
    assert Reads(WriteBytes, ReadBytes, i.scriptSig, d + rest);
    LERoundTrip(4, i.nSequence, rest);
  }

  lemma OutRoundTrip(o: TxOut)
    requires OutOk(o)
    ensures RoundTrips(WriteOut, ReadOut, o)
  {
    hide EncodeSize, LittleEndian, Pow, ReadSize, WriteBytes, ReadBytes, FitsSigned, ToUnsigned, ToSigned;
    forall rest: bytes
      ensures Reads(WriteOut, ReadOut, o, rest)
    {
      var a, b := LittleEndian(ToUnsigned(o.nValue, 64), 8), WriteBytes(o.scriptPubKey);
      Assoc(a, b, rest);
      SignedRoundTrip(o.nValue, 64);
      Pow256IsPow2(8);
      LERoundTrip(8, ToUnsigned(o.nValue, 64), b + rest);
      BytesRoundTrip(o.scriptPubKey);
      assert Reads(WriteBytes, ReadBytes, o.scriptPubKey, rest);
    }
  }

  lemma WitnessRoundTrip(w: seq<bytes>)
    requires WitnessOk(w)
    ensures RoundTrips(WriteWitness, ReadWitness, w)
  {
    forall item | item in w
      ensures RoundTrips(WriteBytes, ReadBytes, item)
    {
      BytesRoundTrip(item);
    }
    forall rest: bytes
      ensures Reads(WriteWitness, ReadWitness, w, rest)
    {
      VectorRoundTrip(WriteBytes, ReadBytes, w, rest);
    }
  }

  // ---- Whole transactions ----

  function WithWitness(i: TxIn, w: seq<bytes>): TxIn {
    i.(scriptWitness := w)
  }

  function StripAll(vin: seq<TxIn>): (r: seq<TxIn>)
    ensures |r| == |vin|
  {
    seq(|vin|, k requires 0 <= k < |vin| => Stripped(vin[k]))
  }

  function Witnesses(vin: seq<TxIn>): (r: seq<seq<bytes>>)
    ensures |r| == |vin|
  {
    seq(|vin|, k requires 0 <= k < |vin| => vin[k].scriptWitness)
  }

  function Attach(vin: seq<TxIn>, ws: seq<seq<bytes>>): (r: seq<TxIn>)
    requires |ws| == |vin|
    ensures |r| == |vin|
  {
    seq(|vin|, k requires 0 <= k < |vin| => WithWitness(vin[k], ws[k]))
  }

  /** The marker and flag in front, and the witnesses behind the outputs. */
  function Marker(extended: bool): bytes {
    if extended then EncodeSize(0) + [1] else []
  }

  function WitnessPart(tx: Transaction, extended: bool): bytes {
    if extended then WriteAll(WriteWitness, Witnesses(tx.vin)) else []
  }

  function WriteBody(tx: Transaction, extended: bool): bytes {
    WriteVector(WriteIn, tx.vin)
    + (WriteVector(WriteOut, tx.vout) + (WitnessPart(tx, extended) + LittleEndian(tx.nLockTime, 4)))
  }

  function WriteTx(tx: Transaction, allowWitness: bool): bytes {
    var extended := allowWitness && tx.HasWitness();
    LittleEndian(ToUnsigned(tx.nVersion, 32), 4) + (Marker(extended) + WriteBody(tx, extended))
  }

  function ReadTx(s: bytes, allowWitness: bool): Parsed<Transaction> {
    var (v, s1) :- ParseLE(4, s);
    var version := ToSigned(v, 32);
    var (vin, s2) :- ReadVector(ReadIn, s1);
    if |vin| == 0 && allowWitness then
      var (flags, s3) :- ParseLE(1, s2);
      if flags != 0 then
        var (vin', s4) :- ReadVector(ReadIn, s3);
        var (vout, s5) :- ReadVector(ReadOut, s4);
        ReadEnd(Transaction(vin', vout, version, 0), flags, s5)
      else
        ReadEnd(Transaction([], [], version, 0), 0, s3)
    else
      var (vout, s3) :- ReadVector(ReadOut, s2);
      ReadEnd(Transaction(vin, vout, version, 0), 0, s3)
  }

  /** The witnesses if the flag announces them, then the lock time. Unknown flags and a
      witness record without any witness are refused. */
  function ReadEnd(tx: Transaction, flags: nat, s: bytes): Parsed<Transaction> {
    if flags % 2 == 1 then
      var (ws, s1) :- ReadMany(ReadWitness, |tx.vin|, s);
      if |ws| != |tx.vin| then Fail else
      var full := tx.(vin := Attach(tx.vin, ws));
      if !full.HasWitness() || flags != 1 then Fail
      else ReadLock(full, s1)
    else if flags != 0 then Fail
    else ReadLock(tx, s)
  }

  function ReadLock(tx: Transaction, s: bytes): Parsed<Transaction> {
    var (lock, rest) :- ParseLE(4, s);
    Done(tx.(nLockTime := lock), rest)
  }

  // ---- Round trips ----

  lemma {:induction false} InsWritten(vin: seq<TxIn>)
    ensures WriteAll(WriteIn, vin) == WriteAll(WriteIn, StripAll(vin))
  {
    if vin != [] {
      InsWritten(vin[1..]);
      assert StripAll(vin)[1..] == StripAll(vin[1..]);
    }
  }

  lemma InsRoundTrip(vin: seq<TxIn>, rest: bytes)
    requires Sized(vin) && forall i :: i in vin ==> InOk(i)
    ensures ReadVector(ReadIn, WriteVector(WriteIn, vin) + rest) == Done(StripAll(vin), rest)
  {
    var stripped := StripAll(vin);
    InsWritten(vin);
    forall i | i in stripped
      ensures RoundTrips(WriteIn, ReadIn, i)
    {
      var k :| 0 <= k < |stripped| && i == stripped[k];
      assert InOk(vin[k]);
      forall tail: bytes
        ensures Reads(WriteIn, ReadIn, i, tail)
      {
        InRoundTrip(i, tail);
      }
    }
    VectorRoundTrip(WriteIn, ReadIn, stripped, rest);
  }

  lemma OutsRoundTrip(vout: seq<TxOut>, rest: bytes)
    requires Sized(vout) && forall o :: o in vout ==> OutOk(o)
    ensures ReadVector(ReadOut, WriteVector(WriteOut, vout) + rest) == Done(vout, rest)
  {
    forall o | o in vout
      ensures RoundTrips(WriteOut, ReadOut, o)
    {
      OutRoundTrip(o);
    }
    VectorRoundTrip(WriteOut, ReadOut, vout, rest);
  }

  lemma WitnessesRoundTrip(vin: seq<TxIn>, rest: bytes)
    requires forall i :: i in vin ==> InOk(i)
    ensures ReadMany(ReadWitness, |vin|, WriteAll(WriteWitness, Witnesses(vin)) + rest) == Done(Witnesses(vin), rest)
  {
    var ws := Witnesses(vin);
    forall w | w in ws
      ensures RoundTrips(WriteWitness, ReadWitness, w)
    {
      var k :| 0 <= k < |ws| && w == ws[k];
      assert InOk(vin[k]);
      WitnessRoundTrip(w);
    }
    ManyRoundTrip(WriteWitness, ReadWitness, ws, rest);
  }

  lemma AttachWitnesses(vin: seq<TxIn>)
    ensures Attach(StripAll(vin), Witnesses(vin)) == vin
  {
  }

  /** The end of a transaction comes back, with its witnesses when they were written. */
  lemma EndRoundTrip(tx: Transaction, extended: bool, rest: bytes)
    requires TxOk(tx) && (extended ==> tx.HasWitness())
    ensures ReadEnd(Transaction(StripAll(tx.vin), tx.vout, tx.nVersion, 0), if extended then 1 else 0,
                    WitnessPart(tx, extended) + LittleEndian(tx.nLockTime, 4) + rest)
         == Done(if extended then tx else tx.(vin := StripAll(tx.vin)), rest)
  {
    hide LittleEndian, Pow, ReadWitness, WriteWitness;
    var lock := LittleEndian(tx.nLockTime, 4);
    Assoc(WitnessPart(tx, extended), lock, rest);
    LERoundTrip(4, tx.nLockTime, rest);
    if extended {
      WitnessesRoundTrip(tx.vin, lock + rest);
      AttachWitnesses(tx.vin);
    } else {
      assert [] + (lock + rest) == lock + rest;
    }
  }

  /** Inputs, outputs and end: the body reads back. */
  lemma BodyRoundTrip(tx: Transaction, extended: bool, rest: bytes) returns (afterIn: bytes, afterOut: bytes)
    requires TxOk(tx) && (extended ==> tx.HasWitness())
    ensures ReadVector(ReadIn, WriteBody(tx, extended) + rest) == Done(StripAll(tx.vin), afterIn)
    ensures afterIn == WriteVector(WriteOut, tx.vout) + afterOut
    ensures ReadVector(ReadOut, afterIn) == Done(tx.vout, afterOut)
    ensures ReadEnd(Transaction(StripAll(tx.vin), tx.vout, tx.nVersion, 0), if extended then 1 else 0, afterOut)
         == Done(if extended then tx else tx.(vin := StripAll(tx.vin)), rest)
  {
    hide WriteVector, ReadVector, ReadIn, WriteIn, ReadOut, WriteOut, LittleEndian, WitnessPart, ReadEnd, TxOk, InOk, OutOk;
    var ins, outs := WriteVector(WriteIn, tx.vin), WriteVector(WriteOut, tx.vout);
    var end := WitnessPart(tx, extended) + LittleEndian(tx.nLockTime, 4);
    afterOut := end + rest;
    afterIn := outs + afterOut;
    Assoc(ins, outs + end, rest);
    Assoc(outs, end, rest);
    TxParts(tx);
    InsRoundTrip(tx.vin, afterIn);
    OutsRoundTrip(tx.vout, afterOut);
    EndRoundTrip(tx, extended, rest);
  }

  lemma TxParts(tx: Transaction)
    requires TxOk(tx)
    ensures Sized(tx.vin) && (forall i :: i in tx.vin ==> InOk(i))
    ensures Sized(tx.vout) && (forall o :: o in tx.vout ==> OutOk(o))
  {
  }

  lemma VersionRoundTrip(tx: Transaction, rest: bytes)
    requires TxOk(tx)
    ensures ParseLE(4, LittleEndian(ToUnsigned(tx.nVersion, 32), 4) + rest) == Done(ToUnsigned(tx.nVersion, 32), rest)
    ensures ToSigned(ToUnsigned(tx.nVersion, 32), 32) == tx.nVersion
  {
    SignedRoundTrip(tx.nVersion, 32);
    Pow256IsPow2(4);
    LERoundTrip(4, ToUnsigned(tx.nVersion, 32), rest);
  }

  /** Without witnesses on the wire every transaction comes back, stripped of them. */
  lemma LegacyRoundTrip(tx: Transaction, rest: bytes)
    requires TxOk(tx)
    ensures ReadTx(WriteTx(tx, false) + rest, false) == Done(tx.(vin := StripAll(tx.vin)), rest)
  {
    hide WriteVector, ReadVector, ReadIn, WriteIn, ReadOut, WriteOut, LittleEndian, ReadEnd, TxOk, WriteBody, ToSigned, ToUnsigned;
    var body := WriteBody(tx, false);
    assert Marker(false) + body == body;
    Assoc(LittleEndian(ToUnsigned(tx.nVersion, 32), 4), body, rest);
    VersionRoundTrip(tx, body + rest);
    var afterIn, afterOut := BodyRoundTrip(tx, false, rest);
  }

  /** Reading the marker: an empty vector of inputs. */
  lemma MarkerRead(rest: bytes)
    ensures ReadVector(ReadIn, EncodeSize(0) + rest) == Done([], rest)
  {
    SizeRoundTrip(0, rest);
  }

  lemma FlagRead(flags: byte, rest: bytes)
    ensures ParseLE(1, [flags] + rest) == Done(flags, rest)
  {
    SizeHead(flags, rest);
  }

  lemma ExtendedRoundTrip(tx: Transaction, rest: bytes)
    requires TxOk(tx) && tx.HasWitness()
    ensures ReadTx(WriteTx(tx, true) + rest, true) == Done(tx, rest)
  {
    hide WriteVector, ReadVector, ReadIn, WriteIn, ReadOut, WriteOut, LittleEndian, ReadEnd, TxOk, WriteBody, EncodeSize, ToSigned, ToUnsigned;
    var body := WriteBody(tx, true);
    var version := LittleEndian(ToUnsigned(tx.nVersion, 32), 4);
    Assoc(version, Marker(true) + body, rest);
    Assoc(Marker(true), body, rest);
    Assoc(EncodeSize(0), [1], body + rest);
    VersionRoundTrip(tx, Marker(true) + (body + rest));
    MarkerRead([1] + (body + rest));
    FlagRead(1, body + rest);
    var afterIn, afterOut := BodyRoundTrip(tx, true, rest);
  }

  /** Everything read after a non-zero flag has a witness, hence an input. */
  lemma FlaggedHasWitness(tx: Transaction, flags: nat, s: bytes)
    requires flags != 0 && ReadEnd(tx, flags, s).Done?
    ensures ReadEnd(tx, flags, s).value.vin != []
  {
  }

  /** The first byte of a size is zero only for zero. */
  lemma SizeFirstByte(n: nat)
    ensures EncodeSize(n) != [] && (EncodeSize(n)[0] == 0 <==> n == 0)
  {
  }

  /** A transaction without witnesses: its own input vector may be taken for the marker. */
  lemma PlainRoundTrip(tx: Transaction, rest: bytes)
    requires TxOk(tx) && !tx.HasWitness()
    ensures ReadTx(WriteTx(tx, true) + rest, true) == Done(tx, rest) <==> tx.vin != [] || tx.vout == []
  {
    hide WriteVector, ReadVector, ReadIn, WriteIn, ReadOut, WriteOut, LittleEndian, ReadEnd, TxOk, WriteBody, EncodeSize, ToSigned, ToUnsigned;
    var body := WriteBody(tx, false);
    assert Marker(false) + body == body;
    Assoc(LittleEndian(ToUnsigned(tx.nVersion, 32), 4), body, rest);
    VersionRoundTrip(tx, body + rest);
    var afterIn, afterOut := BodyRoundTrip(tx, false, rest);
    NothingToStrip(tx);
    if tx.vin == [] {
      SizeFirstByte(|tx.vout|);
      OutsFirstByte(tx.vout, afterOut);
      FlagRead(afterIn[0], afterIn[1..]);
      assert afterIn == [afterIn[0]] + afterIn[1..];
      if tx.vout == [] {
        OutsEmpty(tx.vout, afterOut);
      } else {
        NoInputsNoReturn(tx, LittleEndian(ToUnsigned(tx.nVersion, 32), 4) + (body + rest), body + rest, afterIn);
      }
    }
  }

  /** With no inputs and a non-zero byte where the flag is expected, whatever is read back
      has an input. */
  lemma NoInputsNoReturn(tx: Transaction, s: bytes, s1: bytes, s2: bytes)
    requires tx.vin == [] && s2 != [] && s2[0] != 0
    requires ParseLE(4, s) == Done(ToUnsigned(tx.nVersion, 32), s1)
    requires ReadVector(ReadIn, s1) == Done([], s2)
    requires ParseLE(1, s2) == Done(s2[0], s2[1..])
    ensures ReadTx(s, true).Done? ==> ReadTx(s, true).value.vin != []
  {
    hide ReadVector, ReadIn, ReadOut, ReadEnd, ToSigned, ToUnsigned;
    var r4 := ReadVector(ReadIn, s2[1..]);
    if r4.Done? {
      var r5 := ReadVector(ReadOut, r4.rest);
      if r5.Done? {
        var start := Transaction(r4.value, r5.value, ToSigned(ToUnsigned(tx.nVersion, 32), 32), 0);
        if ReadEnd(start, s2[0], r5.rest).Done? {
          FlaggedHasWitness(start, s2[0], r5.rest);
        }
      }
    }
  }

  lemma NothingToStrip(tx: Transaction)
    requires !tx.HasWitness()
    ensures StripAll(tx.vin) == tx.vin
  {
  }

  lemma OutsFirstByte(vout: seq<TxOut>, rest: bytes)
    requires EncodeSize(|vout|) != []
    ensures WriteVector(WriteOut, vout) + rest != []
    ensures (WriteVector(WriteOut, vout) + rest)[0] == EncodeSize(|vout|)[0]
  {
    hide EncodeSize;
  }

  lemma OutsEmpty(vout: seq<TxOut>, rest: bytes)
    requires vout == []
    ensures WriteVector(WriteOut, vout) + rest == [0] + rest
  {
  }

  /** With witnesses allowed, a serialized transaction reads back as itself if and only if
      it has inputs or has no outputs: a transaction with outputs but no inputs starts like
      the witness marker. */
  lemma TransactionRoundTrip(tx: Transaction, rest: bytes)
    requires TxOk(tx)
    ensures ReadTx(WriteTx(tx, true) + rest, true) == Done(tx, rest) <==> tx.vin != [] || tx.vout == []
  {
    if tx.HasWitness() {
      ExtendedRoundTrip(tx, rest);
    } else {
      PlainRoundTrip(tx, rest);
    }
  }
}
