/** VBK addresses: the text form with its checksum, and the encoding through Base58 or
    Base59. The hash function is a parameter. */
module Addresses {
  import opened Numbers
  import opened Radix
  import opened Codec
  import opened Serde
  import opened Wrappers
  import Base58
  import Base59

  /** The hash functions, about which nothing is assumed. */
  datatype Hashes = Hashes(ofText: string -> bytes, twice: bytes -> bytes)

  const ADDRESS_SIZE := 30
  const DATA_END := 25
  const STANDARD: byte := 1
  const MULTISIG: byte := 3

  datatype Address = Address(typeId: byte, text: string)

  function Prefix(s: string, n: nat): string {
    if |s| <= n then s else s[..n]
  }

  function Checksum(h: Hashes, data: string, multisig: bool): string {
    Prefix(Base58.Encoded(h.ofText(data)), if multisig then 4 else 5)
  }

  /** The bytes of a Base58 text; a NUL inside is refused. */
  function Decode58(s: string): Option<bytes> {
    if '\0' in s then None else Base58.Decoded(s)
  }

  /** A number from 1 to 58 written as one character. */
  function DecodeNumber(c: char): Option<nat> {
    match Decode58([c])
    case None => None
    case Some(ret) => if ret == [] then None else Some(ret[0] as nat + 1)
  }

  function MultisigContent(input: string): bool
    requires |input| == ADDRESS_SIZE
  {
    var m, n := DecodeNumber(input[1]), DecodeNumber(input[2]);
    && Base59.IsText(input)
    && m.Some? && n.Some? && n.value >= 2 && m.value <= n.value && n.value <= 58 && m.value <= 58
    && Decode58(input[..29]).Some?
  }

  /** The type of the address that a text stands for, if it is one. */
  function FromString(h: Hashes, input: string): Option<byte> {
    if |input| != ADDRESS_SIZE || input[0] != 'V' then None else
    var multisig := input[29] == '0';
    var checksum := if multisig then input[DATA_END..29] else input[DATA_END..];
    if !(if multisig then MultisigContent(input) else Decode58(input).Some?) then None else
    if Checksum(h, input[..DATA_END], multisig) != checksum then None else
    Some(if multisig then MULTISIG else STANDARD)
  }

  predicate IsAddress(h: Hashes, a: Address) {
    FromString(h, a.text) == Some(a.typeId)
  }

  /** The bytes behind an address. */
  function AddressBytes(a: Address): bytes {
    if a.typeId == STANDARD then
      var d := Decode58(a.text);
      if d.Some? then d.value else []
    else if Base59.IsText(a.text) then Base59.Decoded(a.text, []) else []
  }

  function WriteAddress(a: Address): bytes {
    [a.typeId] + WriteByteLen(AddressBytes(a))
  }

  function AddressSize(a: Address): nat {
    1 + 1 + |AddressBytes(a)|
  }

  function ReadAddress(h: Hashes, s: bytes): Parsed<Address> {
    var (typeId, s1) :- ReadByte(s);
    var (addressBytes, s2) :- ReadByteLen(0, ADDRESS_SIZE, s1);
    if typeId != STANDARD && typeId != MULTISIG then Fail else
    var text := if typeId == STANDARD then Base58.Encoded(addressBytes) else Base59.Encoded(addressBytes);
    var t := FromString(h, text);
    if t == None then Fail else Done(Address(t.value, text), s2)
  }

  /** Going to a larger base makes no text longer. */
  lemma ReradixNoLonger(s: seq<byte>, from: nat, to: nat)
    requires 2 <= from <= to <= 256 && Below(s, from)
    ensures |Reradix(s, from, to)| <= |s|
  {
    hide BE, Digits, Pow, LeadingZeros;
    var z := LeadingZeros(s);
    StripZeros(s, from, z);
    BEBound(s[z..], from);
    PowMonotoneBase(from, to, |s| - z);
    DigitsAtMost(BE(s, from), to, |s| - z);
  }

  /** A standard address is one Base58 word: it starts with a letter, and it ends with a
      checksum, which has no spaces. */
  lemma StandardIsText(h: Hashes, s: string)
    requires FromString(h, s) == Some(STANDARD)
    ensures Base58.IsText(s) && Decode58(s).Some?
  {
    var e := Base58.WordEnd(s, 0);
    assert Base58.SkipSpaces(s, 0) == 0;
    var code := Base58.Encoded(h.ofText(s[..DATA_END]));
    assert s[29] == s[DATA_END..][4] == code[4];
    assert Base58.MapBase58(s[29]) != -1;
    assert !Base58.IsSpace(s[29]);
    if e < |s| {
      TrailingSpaces(s, e, 29);
    }
    assert s[0..|s|] == s;
  }

  /** What is skipped is spaces. */
  lemma {:induction false} TrailingSpaces(s: string, e: nat, i: nat)
    requires e <= i < |s| && Base58.SkipSpaces(s, e) == |s|
    ensures Base58.IsSpace(s[i])
    decreases i - e
  {
    if e < i {
      TrailingSpaces(s, e + 1, i);
    }
  }

  /** A valid address can be written, and is read back. */
  lemma AddressRoundTrip(h: Hashes, a: Address, rest: bytes)
    requires IsAddress(h, a)
    ensures |AddressBytes(a)| <= ADDRESS_SIZE
    ensures ReadAddress(h, WriteAddress(a) + rest) == Done(a, rest)
    ensures |WriteAddress(a)| == AddressSize(a)
  {
    hide Reradix, Base58.Encoded, Base59.Encoded, Base58.IsText, Base59.IsText;
    if a.typeId == STANDARD {
      StandardIsText(h, a.text);
      Base58.EncodeDecoded(a.text);
      Decoded58(a.text);
      ReradixNoLonger(Base58.FromText(a.text), 58, 256);
    } else {
      Base59.EncodeDecoded(a.text, []);
      ReradixNoLonger(Base59.FromText(a.text), 59, 256);
    }
    assert WriteAddress(a) + rest == [a.typeId] + (WriteByteLen(AddressBytes(a)) + rest);
    ReadByteWritten(a.typeId, WriteByteLen(AddressBytes(a)) + rest);
    ByteLenRoundTrip(AddressBytes(a), 0, ADDRESS_SIZE, rest);
  }

  lemma Decoded58(s: string)
    requires Base58.IsText(s)
    ensures Base58.Decoded(s) == Some(Reradix(Base58.FromText(s), 58, 256))
  {
    Base58.NoSpaces(s);
    assert s[0..|s|] == s;
  }
}
