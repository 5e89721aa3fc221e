/** Base58 text. Both directions work in a digit buffer sized in advance by a ratio that
    has to be large enough; it is proved to be. */
module Base58 {
  import opened Wrappers
  import opened Numbers
  import opened Radix

  /** The alphabet: all alphanumeric characters except 0, I, O and l. */
  function Alphabet(d: nat): (c: char)
    requires d < 58
    ensures MapBase58(c) == d
  {
    if d < 9 then ('1' as int + d) as char
    else if d < 17 then ('A' as int + d - 9) as char
    else if d < 22 then ('J' as int + d - 17) as char
    else if d < 33 then ('P' as int + d - 22) as char
    else if d < 44 then ('a' as int + d - 33) as char
    else ('m' as int + d - 44) as char
  }

  /** The table `mapBase58`: the digit of a character, or -1. */
  function MapBase58(c: char): (d: int)
    ensures -1 <= d < 58
  {
    if '1' <= c <= '9' then c as int - '1' as int
    else if 'A' <= c <= 'H' then c as int - 'A' as int + 9
    else if 'J' <= c <= 'N' then c as int - 'J' as int + 17
    else if 'P' <= c <= 'Z' then c as int - 'P' as int + 22
    else if 'a' <= c <= 'k' then c as int - 'a' as int + 33
    else if 'm' <= c <= 'z' then c as int - 'm' as int + 44
    else -1
  }

  /** The alphabet and the table are inverse to each other. */
  lemma AlphabetInverse(c: char)
    requires MapBase58(c) != -1
    ensures Alphabet(MapBase58(c)) == c
  {
  }

  predicate IsSpace(c: char) {
    c == ' ' || c == '\U{0C}' || c == '\n' || c == '\r' || c == '\t' || c == '\U{0B}'
  }

  function ToText(ds: seq<byte>): (s: string)
    requires Below(ds, 58)
    ensures |s| == |ds|
  {
    seq(|ds|, i requires 0 <= i < |ds| => Alphabet(ds[i]))
  }

  predicate IsText(s: string) {
    forall i :: 0 <= i < |s| ==> MapBase58(s[i]) != -1
  }

  function FromText(s: string): (ds: seq<byte>)
    requires IsText(s)
    ensures |ds| == |s| && Below(ds, 58)
  {
    seq(|s|, i requires 0 <= i < |s| => MapBase58(s[i]) as byte)
  }

  /** What encoding yields: the base 58 digits as characters. */
  function Encoded(b: seq<byte>): string {
    ToText(Reradix(b, 256, 58))
  }

  /** First position from `i` on that is not a space. */
  function SkipSpaces(s: string, i: nat): (e: nat)
    requires i <= |s|
    ensures i <= e <= |s|
    decreases |s| - i
  {
    if i < |s| && IsSpace(s[i]) then SkipSpaces(s, i + 1) else i
  }

  /** First position from `i` on that is a space. */
  function WordEnd(s: string, i: nat): (e: nat)
    requires i <= |s|
    ensures i <= e <= |s| && (forall j :: i <= j < e ==> !IsSpace(s[j])) && (e < |s| ==> IsSpace(s[e]))
    decreases |s| - i
  {
    if i < |s| && !IsSpace(s[i]) then WordEnd(s, i + 1) else i
  }

  /** What decoding yields for a C string: spaces around one word of the alphabet. */
  function Decoded(s: string): Option<seq<byte>> {
    var a := SkipSpaces(s, 0);
    var e := WordEnd(s, a);
    if SkipSpaces(s, e) != |s| || !IsText(s[a..e]) then None
    else Some(Reradix(FromText(s[a..e]), 58, 256))
  }

  function Limited(r: Option<seq<byte>>, max: nat): Option<seq<byte>> {
    if r.Some? && |r.value| > max then None else r
  }

  // ---- Round trips ----

  lemma TextInverse(ds: seq<byte>)
    requires Below(ds, 58)
    ensures IsText(ToText(ds)) && FromText(ToText(ds)) == ds
  {
  }

  lemma NoSpaces(s: string)
    requires IsText(s)
    ensures SkipSpaces(s, 0) == 0 && WordEnd(s, 0) == |s| && SkipSpaces(s, |s|) == |s|
  {
  }

  /** Decoding an encoding gives the bytes back, for every byte string. */
  lemma DecodeEncoded(b: seq<byte>)
    ensures Decoded(Encoded(b)) == Some(b)
  {
    var ds := Reradix(b, 256, 58);
    TextInverse(ds);
    NoSpaces(ToText(ds));
    assert ToText(ds)[0..|ToText(ds)|] == ToText(ds);
    assert Below(b, 256);
    ReradixInverse(b, 256, 58);
  }

  /** Encoding a decoding gives the text back, for every word of the alphabet. */
  lemma EncodeDecoded(s: string)
    requires IsText(s)
    ensures Decoded(s).Some? && Encoded(Decoded(s).value) == s
  {
    NoSpaces(s);
    assert s[0..|s|] == s;
    ReradixInverse(FromText(s), 58, 256);
    forall i | 0 <= i < |s|
      ensures ToText(FromText(s))[i] == s[i]
    {
      AlphabetInverse(s[i]);
    }
    assert ToText(FromText(s)) == s;
  }

  // ---- Why the buffers suffice ----

  lemma Pow58To71()
    ensures Pow(58, 71) == 159730386663078066345306447337161584696769904898410078913243029577507397293846405390982563136983769384625594118558891106107392
  {
    assert Pow(58, 4) == 11316496;
    PowAdd(58, 4, 4);
    assert Pow(58, 8) == 128063081718016;
    PowAdd(58, 8, 8);
    assert Pow(58, 16) == 16400152899115243850138976256;
    PowAdd(58, 16, 16);
    assert Pow(58, 32) == 268965015114358137726910587140455987105619365599731777536;
    PowAdd(58, 32, 32);
    assert Pow(58, 64) == 72342179355466901471258927612150153907721848234316445933056526044582001260898145151856420451025374266490194231296;
    PowAdd(58, 64, 4);
    assert Pow(58, 68) == 818659983307423768631895769287186768096118664656249123135650444757408038940948816018402574608346843785239217057684258816;
    PowAdd(58, 68, 3);
    assert Pow(58, 71) == 159730386663078066345306447337161584696769904898410078913243029577507397293846405390982563136983769384625594118558891106107392;
  }

  lemma Pow256To52()
    ensures Pow(256, 52) == 169230328010303641331690318856389386196071598838855992136870091590247882556495704531248437872567112920983350278405979725889536
  {
    assert Pow(256, 4) == 4294967296;
    PowAdd(256, 4, 4);
    assert Pow(256, 8) == 18446744073709551616;
    PowAdd(256, 8, 8);
    assert Pow(256, 16) == 340282366920938463463374607431768211456;
    PowAdd(256, 16, 16);
    assert Pow(256, 32) == 115792089237316195423570985008687907853269984665640564039457584007913129639936;
    PowAdd(256, 32, 16);
    assert Pow(256, 48) == 39402006196394479212279040100143613805079739270465446667948293404245721771497210611414266254884915640806627990306816;
    PowAdd(256, 48, 4);
    assert Pow(256, 52) == 169230328010303641331690318856389386196071598838855992136870091590247882556495704531248437872567112920983350278405979725889536;
  }

  lemma Pow58To11()
    ensures Pow(58, 11) == 24986644000165537792
  {
    assert Pow(58, 4) == 11316496;
    PowAdd(58, 4, 4);
    assert Pow(58, 8) == 128063081718016;
    PowAdd(58, 8, 3);
    assert Pow(58, 11) == 24986644000165537792;
  }

  lemma Pow256To8()
    ensures Pow(256, 8) == 18446744073709551616
  {
    assert Pow(256, 4) == 4294967296;
    PowAdd(256, 4, 4);
    assert Pow(256, 8) == 18446744073709551616;
  }

  /** n bytes have at most n * 138 / 100 + 1 digits of base 58. */
  lemma EncodeBufferSuffices(n: nat)
    ensures Pow(256, n) <= Pow(58, n * 138 / 100 + 1)
  {
    Pow256To8();
    Pow58To11();
    hide Pow;
    DigitsFit(256, 58, 11, 8, n, n * 138 / 100 + 1);
  }

  /** n digits of base 58 have at most n * 733 / 1000 + 1 bytes. */
  lemma DecodeBufferSuffices(n: nat)
    ensures Pow(58, n) <= Pow(256, n * 733 / 1000 + 1)
  {
    Pow58To71();
    Pow256To52();
    hide Pow;
    DigitsFit(58, 256, 52, 71, n, n * 733 / 1000 + 1);
  }

  // ---- The digit buffer ----

  /** The last `length` digits of the buffer are the digits of `v`; the others are zero. */
  ghost predicate Holds(buf: seq<byte>, base: nat, length: nat, v: nat)
    requires 2 <= base <= 256
  {
    && length <= |buf|
    && (forall i :: 0 <= i < |buf| - length ==> buf[i] == 0)
    && buf[|buf| - length..] == Digits(v, base)
  }

  /** Half-way through: the last `i` digits already hold the new number's, up to `carry`. */
  ghost predicate Adding(old_: seq<byte>, buf: seq<byte>, base: nat, factor: nat, digit: nat, i: nat, carry: nat)
    requires i <= |buf| == |old_|
  {
    && buf[..|buf| - i] == old_[..|buf| - i]
    && Below(buf, base)
    && BE(buf[|buf| - i..], base) + carry * Pow(base, i) == BE(old_[|buf| - i..], base) * factor + digit
  }

  lemma AddingStart(buf: seq<byte>, base: nat, factor: nat, digit: nat)
    requires Below(buf, base)
    ensures Adding(buf, buf, base, factor, digit, 0, digit)
  {
    assert buf[|buf|..] == [];
  }

  lemma AddingNext(old_: seq<byte>, buf: seq<byte>, buf': seq<byte>, base: nat, factor: nat, digit: nat, i: nat,
                   carry: nat, low: byte, carry': nat)
    requires low < base && i < |buf| == |old_|
    requires Adding(old_, buf, base, factor, digit, i, carry)
    requires carry + factor * buf[|buf| - 1 - i] as int == carry' * base + low as int
    requires buf' == buf[|buf| - 1 - i := low]
    ensures Adding(old_, buf', base, factor, digit, i + 1, carry')
  {
    hide BE, Pow;
    var j := |buf| - 1 - i;
    assert buf[..|buf| - i][j] == old_[..|buf| - i][j];
    assert buf'[j..][1..] == buf[|buf| - i..] && old_[j..][1..] == old_[|buf| - i..];
    BEHead(buf'[j..], base);
    BEHead(old_[j..], base);
    PowStep(base, i);
    AddingArith(Pow(base, i), carry, old_[j], factor, base, low, carry', BE(buf[|buf| - i..], base),
                BE(old_[|buf| - i..], base), digit);
  }

  lemma AddingArith(p: nat, carry: nat, x: nat, factor: nat, base: nat, low: nat, carry': nat, b: nat, o: nat, digit: nat)
    requires carry + factor * x == carry' * base + low && b + carry * p == o * factor + digit
    ensures low * p + b + carry' * (base * p) == (x * p + o) * factor + digit
  {
    assert (carry' * base + low) * p == carry' * (base * p) + low * p by { MulAssoc(carry', base, p); }
    assert (carry + factor * x) * p == carry * p + x * p * factor by { MulAssoc(factor, x, p); }
    assert (x * p + o) * factor == x * p * factor + o * factor;
  }

  /** Once the carry is used up beyond the old digits, the buffer holds the new number. */
  lemma AddingDone(old_: seq<byte>, buf: seq<byte>, base: nat, factor: nat, digit: nat, length: nat, v: nat, i: nat, carry: nat)
    requires 2 <= base <= 256 && factor >= 1 && length <= i <= |buf| == |old_|
    requires Holds(old_, base, length, v) && Adding(old_, buf, base, factor, digit, i, carry)
    requires carry == 0 || i == |buf|
    requires i > length ==> buf[|buf| - i] != 0 || carry != 0
    ensures carry == 0 ==> Holds(buf, base, i, v * factor + digit)
    ensures v * factor + digit < Pow(base, |buf|) ==> carry == 0
  {
    hide BE, Pow, Digits;
    var z := |buf| - i;
    DigitsValue(v, base);
    StripZeros(old_, base, |old_| - length);
    forall j | 0 <= j < z
      ensures old_[j] == 0 && buf[j] == 0
    {
      assert buf[..z][j] == old_[..z][j];
    }
    StripZeros(old_, base, z);
    assert BE(old_[z..], base) == v;
    if carry != 0 {
      assert buf[0..] == buf;
      MulMonotone(1, carry, Pow(base, i));
    } else {
      var s := buf[z..];
      assert BE(s, base) == v * factor + digit;
      if i == length && i > 0 {
        TopDigitStays(v, s, base, factor, digit, length);
      }
      assert s != [] ==> s[0] == buf[z];
      DigitsUnique(s, base);
    }
  }

  /** A number that has not shrunk still needs its top digit. */
  lemma TopDigitStays(v: nat, s: seq<byte>, base: nat, factor: nat, digit: nat, length: nat)
    requires 2 <= base <= 256 && factor >= 1 && length > 0 && |Digits(v, base)| == length == |s|
    requires Below(s, base) && BE(s, base) == v * factor + digit
    ensures s[0] != 0
  {
    hide BE, Pow, Digits;
    DigitsValue(v, base);
    var ds := Digits(v, base);
    BEHead(ds, base);
    BEHead(s, base);
    BEBound(s[1..], base);
    MulMonotone(1, ds[0], Pow(base, length - 1));
    MulMonotone(1, factor, v);
  }

  /** buf = buf * factor + digit, the loop in the middle of both directions. The source
      asserts that no carry is left. */
  method MultiplyAdd(buf: array<byte>, base: nat, factor: nat, digit: nat, length: nat, ghost v: nat)
    returns (carry: nat, i: nat)
    requires 2 <= base <= 256 && 1 <= factor <= 256 && digit < 256
    requires Holds(buf[..], base, length, v) && Below(buf[..], base)
    modifies buf
    ensures Below(buf[..], base)
    ensures carry == 0 ==> Holds(buf[..], base, i, v * factor + digit)
    ensures v * factor + digit < Pow(base, buf.Length) ==> carry == 0
  {
    hide BE, Pow, Digits, Adding;
    ghost var before := buf[..];
    carry := digit;
    i := 0;
    AddingStart(before, base, factor, digit);
    while (carry != 0 || i < length) && i < buf.Length
      invariant 0 <= i <= buf.Length && carry <= 256
      invariant Adding(before, buf[..], base, factor, digit, i, carry)
      invariant i > length ==> buf[buf.Length - i] != 0 || carry != 0
      decreases buf.Length - i
    {
      ghost var now := buf[..];
      var it := buf.Length - 1 - i;
      AddingBelow(before, now, base, factor, digit, i, carry);
      CarryStays(base, factor, carry, buf[it]);
      var n := carry + factor * buf[it] as int;
      buf[it] := n % base;
      AddingNext(before, now, buf[..], base, factor, digit, i, carry, n % base, n / base);
      if i >= length {
        assert now[..|now| - i][it] == 0 by { AddingPrefix(before, now, base, factor, digit, i, carry, length, v, it); }
        DivMod0(n, base);
      }
      carry := n / base;
      i := i + 1;
    }
    AddingBelow(before, buf[..], base, factor, digit, i, carry);
    AddingDone(before, buf[..], base, factor, digit, length, v, i, carry);
  }

  lemma AddingBelow(old_: seq<byte>, buf: seq<byte>, base: nat, factor: nat, digit: nat, i: nat, carry: nat)
    requires i <= |buf| == |old_| && Adding(old_, buf, base, factor, digit, i, carry)
    ensures Below(buf, base)
  {
  }

  lemma AddingPrefix(old_: seq<byte>, buf: seq<byte>, base: nat, factor: nat, digit: nat, i: nat, carry: nat,
                     length: nat, v: nat, j: nat)
    requires 2 <= base <= 256 && length <= i <= |buf| == |old_| && j < |buf| - i
    requires Holds(old_, base, length, v) && Adding(old_, buf, base, factor, digit, i, carry)
    ensures buf[j] == 0
  {
    assert buf[..|buf| - i][j] == old_[..|buf| - i][j];
  }

  /** A carry never exceeds 256, so the products stay far below the width of an int. */
  lemma CarryStays(base: nat, factor: nat, carry: nat, x: byte)
    requires 2 <= base <= 256 && factor <= 256 && carry <= 256 && x < base
    ensures 0 <= carry + factor * x as int < 0x8000_0000
    ensures var n := carry + factor * x as int;
            0 <= n % base < base && 0 <= n / base <= 256 && n == n / base * base + n % base
  {
    MulMonotone(factor, 256, x);
    QuotientBelow(carry + factor * x as int, base, 257);
  }

  lemma DivMod0(n: nat, base: nat)
    requires base > 0 && n != 0
    ensures n % base != 0 || n / base != 0
  {
    assert n == n / base * base + n % base;
  }

  // ---- The two directions ----

  lemma HoldsZero(buf: seq<byte>, base: nat)
    requires 2 <= base <= 256 && forall i :: 0 <= i < |buf| ==> buf[i] == 0
    ensures Holds(buf, base, 0, 0) && Below(buf, base)
  {
  }

  method EncodeBase58(b: seq<byte>) returns (str: string)
    ensures str == Encoded(b)
  {
    hide Pow, BE, Digits, Holds, Below, LeadingZeros, ToText;
    var p := 0;
    while p < |b| && b[p] == 0
      invariant 0 <= p <= |b| && forall i :: 0 <= i < p ==> b[i] == 0
    {
      p := p + 1;
    }
    var zeroes := p;
    LeadingZerosUnique(b, zeroes);
    var size := (|b| - p) * 138 / 100 + 1;
    var b58 := new byte[size](i => 0);
    var length: nat := 0;
    ghost var rest := b[zeroes..];
    HoldsZero(b58[..], 58);
    EncodeBufferSuffices(|rest|);
    BEEmpty(rest[..0], 256);
    while p < |b|
      invariant zeroes <= p <= |b|
      invariant Below(b58[..], 58)
      invariant Holds(b58[..], 58, length, BE(rest[..p - zeroes], 256))
    {
      ghost var n := p - zeroes;
      ghost var v := BE(rest[..n], 256);
      assert rest[..n + 1] == rest[..n] + [b[p]];
      BEPush(rest[..n], b[p], 256);
      AllBelow(rest[..n + 1]);
      BEBound(rest[..n + 1], 256);
      PowMonotone(256, n + 1, |rest|);
      var carry;
      carry, length := MultiplyAdd(b58, 58, 256, b[p], length, v);
      assert carry == 0;
      p := p + 1;
    }
    assert rest[..p - zeroes] == rest;
    StripZeros(b, 256, zeroes);
    HoldsDigits(b58[..], 58, length, BE(b, 256));
    str := Translate(b58, size - length, zeroes);
    assert Digits(BE(b, 256), 58) == b58[size - length..];
  }

  /** The end of encoding: skip zeros, then one character for each digit, after a '1' for
      each leading zero byte. */
  method Translate(b58: array<byte>, start: nat, zeroes: nat) returns (str: string)
    requires start <= b58.Length && Below(b58[..], 58)
    ensures str == ToText(Zeros(zeroes) + b58[start + LeadingZeros(b58[start..])..])
  {
    var it := start;
    while it < b58.Length && b58[it] == 0
      invariant start <= it <= b58.Length && forall j :: start <= j < it ==> b58[j] == 0
    {
      it := it + 1;
    }
    LeadingZerosUnique(b58[start..], it - start);
    ghost var first, ds := it, Zeros(zeroes) + b58[it..];
    str := seq(zeroes, i => Alphabet(0));
    while it < b58.Length
      invariant first <= it <= b58.Length && |str| == zeroes + (it - first)
      invariant forall j :: 0 <= j < |str| ==> str[j] == ToText(ds)[j]
    {
      str := str + [Alphabet(b58[it])];
      it := it + 1;
    }
  }

  lemma AllBelow(s: seq<byte>)
    ensures Below(s, 256)
  {
  }

  lemma BEEmpty(s: seq<byte>, base: nat)
    requires s == []
    ensures BE(s, base) == 0
  {
  }

  lemma HoldsDigits(buf: seq<byte>, base: nat, length: nat, v: nat)
    requires 2 <= base <= 256 && Holds(buf, base, length, v)
    ensures length <= |buf| && buf[|buf| - length..] == Digits(v, base) && |Digits(v, base)| == length
    ensures LeadingZeros(buf[|buf| - length..]) == 0
  {
    DigitsValue(v, base);
    LeadingZerosUnique(buf[|buf| - length..], 0);
  }

  /** The word that decoding looks at starts at `a` and reaches at least up to `i`. */
  ghost predicate InWord(s: string, a: nat, i: nat) {
    a == SkipSpaces(s, 0) <= i <= |s| && forall j :: a <= j < i ==> !IsSpace(s[j])
  }

  lemma {:induction false} WordReaches(s: string, a: nat, i: nat)
    requires a <= i <= |s| && forall j :: a <= j < i ==> !IsSpace(s[j])
    ensures i <= WordEnd(s, a)
    ensures i == |s| || IsSpace(s[i]) ==> i == WordEnd(s, a)
    decreases |s| - a
  {
    if a < i {
      WordReaches(s, a + 1, i);
    }
  }

  lemma BadCharacter(s: string, a: nat, i: nat)
    requires InWord(s, a, i) && i < |s| && !IsSpace(s[i]) && MapBase58(s[i]) == -1
    ensures Decoded(s) == None
  {
    WordReaches(s, a, i + 1);
    var word := s[a..WordEnd(s, a)];
    assert word[i - a] == s[i];
  }

  /** The digits read so far: `zeroes` ones and then `done`. */
  ghost predicate ReadSoFar(s: string, a: nat, zeroes: nat, done: seq<byte>) {
    && InWord(s, a, a + zeroes + |done|)
    && Below(done, 58)
    && (forall j :: a <= j < a + zeroes ==> s[j] == '1')
    && (forall j :: a + zeroes <= j < a + zeroes + |done| ==> MapBase58(s[j]) == done[j - a - zeroes] as int)
  }

  /** What has been read is a prefix of the word's digits. */
  lemma ReadIsPrefix(s: string, a: nat, zeroes: nat, done: seq<byte>)
    requires ReadSoFar(s, a, zeroes, done) && IsText(s[a..WordEnd(s, a)])
    ensures zeroes + |done| <= |FromText(s[a..WordEnd(s, a)])|
    ensures FromText(s[a..WordEnd(s, a)])[..zeroes + |done|] == Zeros(zeroes) + done
  {
    WordReaches(s, a, a + zeroes + |done|);
    var word := s[a..WordEnd(s, a)];
    var ds := FromText(word);
    forall j | 0 <= j < zeroes + |done|
      ensures ds[j] == (Zeros(zeroes) + done)[j]
    {
      assert word[j] == s[a + j];
    }
  }

  /** The result cannot become shorter than what has been read already. */
  lemma ResultReaches(s: string, a: nat, zeroes: nat, done: seq<byte>)
    requires ReadSoFar(s, a, zeroes, done) && Decoded(s).Some?
    ensures |Decoded(s).value| >= zeroes
    ensures LeadingZeros(FromText(s[a..WordEnd(s, a)])) == zeroes
            ==> |Decoded(s).value| >= zeroes + |Digits(BE(done, 58), 256)|
  {
    InWordSoFar(s, a, zeroes, done);
    ReadIsPrefix(s, a, zeroes, done);
    hide BE, Digits, Pow, LeadingZeros, ReadSoFar;
    var ds := FromText(s[a..WordEnd(s, a)]);
    PrefixReaches(ds, zeroes, done);
  }

  lemma PrefixReaches(ds: seq<byte>, zeroes: nat, done: seq<byte>)
    requires zeroes + |done| <= |ds| && ds[..zeroes + |done|] == Zeros(zeroes) + done
    ensures LeadingZeros(ds) >= zeroes
    ensures |Digits(BE(ds, 58), 256)| >= |Digits(BE(done, 58), 256)|
  {
    hide BE, Digits, Pow, LeadingZeros;
    forall j | 0 <= j < zeroes
      ensures ds[j] == 0
    {
      assert ds[..zeroes + |done|][j] == Zeros(zeroes)[j];
    }
    LeadingZerosAtLeast(ds, zeroes);
    assert ds == (Zeros(zeroes) + done) + ds[zeroes + |done|..];
    assert ds[zeroes..] == done + ds[zeroes + |done|..];
    BEGrows(done, ds[zeroes + |done|..], 58);
    StripZeros(ds, 58, zeroes);
    DigitsMonotone(BE(done, 58), BE(ds, 58), 256);
  }

  /** The count of ones is the count of leading zero digits once another digit follows. */
  lemma OnesAreZeros(s: string, a: nat, zeroes: nat, done: seq<byte>)
    requires ReadSoFar(s, a, zeroes, done) && Decoded(s).Some?
    requires done != [] ==> done[0] != 0
    requires done == [] ==> WordEnd(s, a) == a + zeroes
    ensures LeadingZeros(FromText(s[a..WordEnd(s, a)])) == zeroes
  {
    hide LeadingZeros, Reradix, BE, Digits, SkipSpaces, WordEnd;
    var i := a + zeroes + |done|;
    WordReaches(s, a, i);
    var word := s[a..WordEnd(s, a)];
    var ds := FromText(word);
    forall j | 0 <= j < zeroes
      ensures ds[j] == 0
    {
      assert word[j] == s[a + j];
    }
    if done != [] {
      assert word[zeroes] == s[a + zeroes];
      assert MapBase58(s[a + zeroes + 0]) == done[0] as int;
    }
    LeadingZerosUnique(ds, zeroes);
  }

  /** A word read to its end, with only spaces behind it, decodes to what was read. */
  lemma WordDecodes(s: string, a: nat, zeroes: nat, done: seq<byte>)
    requires ReadSoFar(s, a, zeroes, done) && WordEnd(s, a) == a + zeroes + |done|
    requires SkipSpaces(s, WordEnd(s, a)) == |s|
    requires done != [] ==> done[0] != 0
    ensures Decoded(s) == Some(Zeros(zeroes) + Digits(BE(done, 58), 256))
  {
    hide BE, Digits, Pow;
    var e := WordEnd(s, a);
    var word := s[a..e];
    forall j | 0 <= j < |word|
      ensures MapBase58(word[j]) != -1
    {
      if j < zeroes {
        assert s[a + j] == '1';
      } else {
        assert MapBase58(s[a + zeroes + (j - zeroes)]) == done[j - zeroes] as int;
      }
    }
    OnesAreZeros(s, a, zeroes, done);
    var ds := FromText(word);
    forall j | 0 <= j < |done|
      ensures ds[zeroes..][j] == done[j]
    {
      assert word[zeroes + j] == s[a + zeroes + j];
    }
    assert ds[zeroes..] == done;
    StripZeros(ds, 58, zeroes);
  }

  method Skip(s: string, start: nat) returns (psz: nat)
    requires start <= |s|
    ensures psz == SkipSpaces(s, start)
  {
    psz := start;
    while psz < |s| && IsSpace(s[psz])
      invariant start <= psz <= |s| && SkipSpaces(s, psz) == SkipSpaces(s, start)
    {
      psz := psz + 1;
    }
  }

  /** Counts the ones at the front of the word, or finds more of them than fit the limit. */
  method CountOnes(s: string, a: nat, maxRetLen: nat) returns (zeroes: nat, tooLong: bool)
    requires a == SkipSpaces(s, 0) <= |s|
    ensures tooLong ==> Limited(Decoded(s), maxRetLen) == None
    ensures !tooLong ==> zeroes <= maxRetLen && a + zeroes <= |s| && ReadSoFar(s, a, zeroes, [])
                         && (a + zeroes < |s| ==> s[a + zeroes] != '1')
  {
    hide Decoded, ReadSoFar, SkipSpaces, WordEnd, Digits, BE, Pow;
    zeroes := 0;
    ReadNothing(s, a);
    while a + zeroes < |s| && s[a + zeroes] == '1'
      invariant a + zeroes <= |s| && zeroes <= maxRetLen && ReadSoFar(s, a, zeroes, [])
    {
      zeroes := zeroes + 1;
      ReadOne(s, a, zeroes - 1);
      if zeroes > maxRetLen {
        if Decoded(s).Some? {
          ResultReaches(s, a, zeroes, []);
        }
        return zeroes, true;
      }
    }
    tooLong := false;
  }

  /** Copies the digits behind the zeros. */
  method CopyOut(b256: array<byte>, start: nat, zeroes: nat) returns (vch: seq<byte>)
    requires start <= b256.Length
    ensures vch == Zeros(zeroes) + b256[start..]
  {
    var it := start;
    vch := seq(zeroes, i => 0 as byte);
    while it < b256.Length
      invariant start <= it <= b256.Length
      invariant vch == Zeros(zeroes) + b256[start..it]
    {
      vch := vch + [b256[it]];
      it := it + 1;
    }
  }

  /** Decoding a C string (no embedded NUL) into at most `maxRetLen` bytes. */
  method DecodeCString(s: string, maxRetLen: nat) returns (r: Option<seq<byte>>)
    ensures r == Limited(Decoded(s), maxRetLen)
  {
    hide Pow, BE, Digits, Holds, Decoded, ReadSoFar, SkipSpaces, WordEnd, InWord, Below;
    var psz := Skip(s, 0);
    ghost var a := psz;
    var zeroes, tooLong := CountOnes(s, psz, maxRetLen);
    if tooLong {
      return None;
    }
    psz := psz + zeroes;
    ghost var start := psz;
    var size := (|s| - psz) * 733 / 1000 + 1;
    DecodeBufferSuffices(|s| - psz);
    var b256 := new byte[size](i => 0);
    var length: nat := 0;
    ghost var done: seq<byte> := [];
    HoldsZero(b256[..], 256);
    BEEmpty(done, 58);
    while psz < |s| && !IsSpace(s[psz])
      invariant start <= psz == start + |done| <= |s|
      invariant ReadSoFar(s, a, zeroes, done)
      invariant done != [] ==> done[0] != 0
      invariant Below(b256[..], 256) && Holds(b256[..], 256, length, BE(done, 58))
      invariant length + zeroes <= maxRetLen
    {
      var carry := MapBase58(s[psz]);
      if carry == -1 {
        InWordSoFar(s, a, zeroes, done);
        BadCharacter(s, a, psz);
        return None;
      }
      ghost var before := done;
      done := done + [carry as byte];
      ReadDigit(s, a, zeroes, before, carry);
      BEPush(before, carry as byte, 58);
      DoneFits(s, a, zeroes, done);
      PowMonotone(58, |done|, |s| - start);
      carry, length := MultiplyAdd(b256, 256, 58, carry, length, BE(before, 58));
      assert carry == 0;
      HoldsDigits(b256[..], 256, length, BE(done, 58));
      if length + zeroes > maxRetLen {
        if Decoded(s).Some? {
          OnesAreZeros(s, a, zeroes, done);
          ResultReaches(s, a, zeroes, done);
        }
        return None;
      }
      psz := psz + 1;
    }
    InWordSoFar(s, a, zeroes, done);
    WordReaches(s, a, psz);
    psz := Skip(s, psz);
    if psz < |s| {
      TrailingGarbage(s, a);
      return None;
    }
    WordDecodes(s, a, zeroes, done);
    HoldsDigits(b256[..], 256, length, BE(done, 58));
    var vch := CopyOut(b256, size - length, zeroes);
    return Some(vch);
  }

  lemma ReadNothing(s: string, a: nat)
    requires a == SkipSpaces(s, 0)
    ensures ReadSoFar(s, a, 0, [])
  {
  }

  lemma ReadOne(s: string, a: nat, zeroes: nat)
    requires ReadSoFar(s, a, zeroes, []) && a + zeroes < |s| && s[a + zeroes] == '1'
    ensures ReadSoFar(s, a, zeroes + 1, [])
  {
  }

  lemma ReadDigit(s: string, a: nat, zeroes: nat, done: seq<byte>, d: int)
    requires ReadSoFar(s, a, zeroes, done)
    requires a + zeroes + |done| < |s| && !IsSpace(s[a + zeroes + |done|])
    requires d == MapBase58(s[a + zeroes + |done|]) != -1
    ensures ReadSoFar(s, a, zeroes, done + [d as byte])
    ensures d == 0 ==> s[a + zeroes + |done|] == '1'
  {
  }

  lemma InWordSoFar(s: string, a: nat, zeroes: nat, done: seq<byte>)
    requires ReadSoFar(s, a, zeroes, done)
    ensures InWord(s, a, a + zeroes + |done|)
  {
  }

  lemma DoneFits(s: string, a: nat, zeroes: nat, done: seq<byte>)
    requires ReadSoFar(s, a, zeroes, done)
    ensures |done| <= |s| - (a + zeroes) && BE(done, 58) < Pow(58, |done|)
  {
    BEBound(done, 58);
  }

  lemma TrailingGarbage(s: string, a: nat)
    requires a == SkipSpaces(s, 0) && SkipSpaces(s, WordEnd(s, a)) != |s|
    ensures Decoded(s) == None
  {
  }

  /** The limit of the public entry point, one more than the text, never takes effect. */
  lemma LimitIsNoLimit(s: string)
    ensures Limited(Decoded(s), |s| + 1) == Decoded(s)
  {
    hide BE, Digits, Pow, LeadingZeros;
    if Decoded(s).Some? {
      var a := SkipSpaces(s, 0);
      var ds := FromText(s[a..WordEnd(s, a)]);
      var z := LeadingZeros(ds);
      StripZeros(ds, 58, z);
      BEBound(ds[z..], 58);
      PowMonotoneBase(58, 256, |ds| - z);
      DigitsAtMost(BE(ds, 58), 256, |ds| - z);
    }
  }

  /** The public entry point: a text with a NUL inside is refused, everything else is
      decoded without any limit on the length. */
  method DecodeBase58(str: string) returns (r: Option<seq<byte>>)
    ensures r == if '\0' in str then None else Decoded(str)
  {
    if '\0' in str {
      return None;
    }
    LimitIsNoLimit(str);
    r := DecodeCString(str, |str| + 1);
  }
}
