/** Base59 text: the number is divided in place, one digit per division, until nothing is
    left of it. */
module Base59 {
  import opened Numbers
  import opened Radix
  import Base58

  /** The Base58 alphabet followed by '0'. */
  function Alphabet(d: nat): (c: char)
    requires d < 59
    ensures Index(c) == d && c as int < 128
  {
    if d < 58 then Base58.Alphabet(d) else '0'
  }

  /** The table `g_Indexes`. */
  function Index(c: char): (d: int)
    ensures -1 <= d < 59
  {
    if c == '0' then 58 else Base58.MapBase58(c)
  }

  lemma AlphabetInverse(c: char)
    requires Index(c) != -1
    ensures Alphabet(Index(c)) == c
  {
    if c != '0' {
      Base58.AlphabetInverse(c);
    }
  }

  function ToText(ds: seq<byte>): (s: string)
    requires Below(ds, 59)
    ensures |s| == |ds|
  {
    seq(|ds|, i requires 0 <= i < |ds| => Alphabet(ds[i]))
  }

  predicate IsText(s: string) {
    forall i :: 0 <= i < |s| ==> Index(s[i]) != -1
  }

  function FromText(s: string): (ds: seq<byte>)
    requires IsText(s)
    ensures |ds| == |s| && Below(ds, 59)
  {
    seq(|s|, i requires 0 <= i < |s| => Index(s[i]) as byte)
  }

  function Encoded(b: seq<byte>): string {
    ToText(Reradix(b, 256, 59))
  }

  /** What the caller's vector holds after a successful decoding; an empty text leaves it
      as it was. */
  function Decoded(s: string, out: seq<byte>): seq<byte>
    requires IsText(s)
  {
    if s == "" then out else Reradix(FromText(s), 59, 256)
  }

  /** Decoding an encoding gives the bytes back into any vector, except that no bytes at
      all need a vector that was empty. */
  lemma DecodeEncoded(b: seq<byte>, out: seq<byte>)
    ensures IsText(Encoded(b))
    ensures Decoded(Encoded(b), out) == b <==> b != [] || out == []
  {
    var ds := Reradix(b, 256, 59);
    assert Below(b, 256);
    ReradixInverse(b, 256, 59);
    assert FromText(ToText(ds)) == ds;
    if ds == [] {
      assert Reradix([], 59, 256) == [];
    }
  }

  lemma EncodeDecoded(s: string, out: seq<byte>)
    requires IsText(s)
    ensures Encoded(Decoded(s, out)) == s <==> s != "" || out == []
  {
    ReradixInverse(FromText(s), 59, 256);
    forall i | 0 <= i < |s|
      ensures ToText(FromText(s))[i] == s[i]
    {
      AlphabetInverse(s[i]);
    }
    assert ToText(FromText(s)) == s;
    if s == "" && out != [] {
      var r := Reradix(out, 256, 59);
      assert Below(out, 256);
      ReradixInverse(out, 256, 59);
    }
  }

  // ---- One division in place ----

  /** Half-way through: the bytes from `start` to `i` are the quotient so far. */
  ghost predicate Dividing(old_: seq<byte>, now: seq<byte>, from: nat, to: nat, start: nat, i: nat, rem: nat)
    requires start <= i <= |now| == |old_|
  {
    && Below(now, from) && rem < to
    && now[..start] == old_[..start] && now[i..] == old_[i..]
    && BE(now[start..i], from) * to + rem == BE(old_[start..i], from)
  }

  lemma DivideStep(old_: seq<byte>, now: seq<byte>, now': seq<byte>, from: nat, to: nat, start: nat, i: nat,
                   rem: nat, q: byte, rem': nat)
    requires start <= i < |now| == |old_| && rem' < to && q < from
    requires Dividing(old_, now, from, to, start, i, rem)
    requires rem * from + now[i] as int == q as int * to + rem' && now' == now[i := q]
    ensures Dividing(old_, now', from, to, start, i + 1, rem')
  {
    hide BE;
    assert now[i..][0] == old_[i..][0];
    assert now'[start..i + 1] == now[start..i] + [q];
    assert old_[start..i + 1] == old_[start..i] + [old_[i]];
    assert now'[i + 1..] == now[i..][1..] && old_[i + 1..] == old_[i..][1..];
    assert now'[..start] == now[..start];
    BEPush(now[start..i], q, from);
    BEPush(old_[start..i], old_[i], from);
    DivideArith(BE(now[start..i], from), BE(old_[start..i], from), from, to, rem, old_[i], q, rem');
  }

  lemma DivideArith(b: nat, o: nat, from: nat, to: nat, rem: nat, x: nat, q: nat, rem': nat)
    requires b * to + rem == o && rem * from + x == q * to + rem'
    ensures (b * from + q) * to + rem' == o * from + x
  {
    assert (b * from + q) * to == (b * to) * from + q * to by { MulAssoc(b, from, to); MulAssoc(b, to, from); }
    assert (b * to + rem) * from == (b * to) * from + rem * from;
  }

  /** The quotient digit fits its byte. */
  lemma QuotientDigit(rem: nat, x: byte, from: nat, to: nat)
    requires 2 <= from <= 256 && 2 <= to <= 256 && rem < to && x < from
    ensures 0 <= rem * from + x as int < to * from <= 0x1_0000
  {
    MulMonotone(rem + 1, to, from);
    assert (rem + 1) * from == rem * from + from;
    MulMonotone(to, 256, from);
  }

  /** `divmod59` and `divmod256`: divides the digits from `startAt` on by `to` and returns
      the remainder. */
  method DivMod(number: array<byte>, startAt: nat, from: nat, to: nat) returns (remainder: nat)
    requires 2 <= from <= 256 && 2 <= to <= 256 && startAt < number.Length && Below(number[..], from)
    modifies number
    ensures remainder < to && Below(number[..], from)
    ensures number[..startAt] == old(number[..startAt])
    ensures BE(number[startAt..], from) * to + remainder == BE(old(number[startAt..]), from)
    ensures 0 <= old(number[startAt]) as int / to
    ensures number[startAt] as int == old(number[startAt]) as int / to
  {
    hide BE, Dividing;
    ghost var before := number[..];
    remainder := 0;
    var i := startAt;
    DivideStart(before, from, to, startAt);
    MulMonotone(2, to, from);
    QuotientBelow(number[startAt], to, from);
    while i < number.Length
      invariant startAt <= i <= number.Length
      invariant i == startAt ==> remainder == 0 && number[startAt] == before[startAt]
      invariant i > startAt ==> number[startAt] as int == before[startAt] as int / to
      invariant Dividing(before, number[..], from, to, startAt, i, remainder)
    {
      ghost var now := number[..];
      DivideFacts(before, now, from, to, startAt, i, remainder);
      QuotientDigit(remainder, number[i], from, to);
      var temp := remainder * from + number[i] as int;
      QuotientBelow(temp, to, from);
      number[i] := temp / to;
      DivideStep(before, now, number[..], from, to, startAt, i, remainder, temp / to, temp % to);
      remainder := temp % to;
      i := i + 1;
    }
    DivideFacts(before, number[..], from, to, startAt, i, remainder);
    assert number[..][startAt..i] == number[startAt..] && before[startAt..i] == before[startAt..];
  }

  lemma DivideStart(before: seq<byte>, from: nat, to: nat, start: nat)
    requires start <= |before| && Below(before, from) && to > 0
    ensures Dividing(before, before, from, to, start, start, 0)
  {
    assert before[start..start] == [];
  }

  lemma DivideFacts(old_: seq<byte>, now: seq<byte>, from: nat, to: nat, start: nat, i: nat, rem: nat)
    requires start <= i <= |now| == |old_| && Dividing(old_, now, from, to, start, i, rem)
    ensures Below(now, from) && rem < to && now[..start] == old_[..start]
    ensures BE(now[start..i], from) * to + rem == BE(old_[start..i], from)
  {
  }

  // ---- Collecting the remainders ----

  /** What is left of the number and the digits already taken off make up the number. */
  ghost predicate Shrinking(total: nat, rest: seq<byte>, from: nat, ds: seq<byte>, to: nat) {
    Below(ds, to) && total == BE(rest, from) * Pow(to, |ds|) + BE(ds, to)
  }

  lemma ShrinkStart(rest: seq<byte>, from: nat, to: nat)
    ensures Shrinking(BE(rest, from), rest, from, [], to)
  {
  }

  lemma ShrinkStep(total: nat, rest: seq<byte>, rest': seq<byte>, from: nat, ds: seq<byte>, to: nat, mod: byte)
    requires Shrinking(total, rest, from, ds, to) && mod < to
    requires BE(rest', from) * to + mod as int == BE(rest, from)
    ensures Shrinking(total, rest', from, [mod] + ds, to)
    ensures rest' != [] && rest'[0] == 0 ==> Shrinking(total, rest'[1..], from, [mod] + ds, to)
  {
    hide BE, Pow;
    BEHead([mod] + ds, to);
    assert ([mod] + ds)[1..] == ds;
    PowStep(to, |ds|);
    ShrinkArith(BE(rest', from), to, mod, Pow(to, |ds|));
    if rest' != [] && rest'[0] == 0 {
      StripZeros(rest', from, 1);
    }
  }

  lemma ShrinkArith(r: nat, to: nat, mod: nat, p: nat)
    ensures (r * to + mod) * p == r * (to * p) + mod * p
  {
    MulAssoc(r, to, p);
  }

  /** When nothing is left, the digits without their leading zeros are the result. */
  lemma ShrinkDone(total: nat, from: nat, ds: seq<byte>, to: nat)
    requires 2 <= to <= 256 && Shrinking(total, [], from, ds, to)
    ensures Below(ds, to) && ds[LeadingZeros(ds)..] == Digits(total, to)
  {
    hide Digits, LeadingZeros;
    assert BE([], from) == 0;
    var z := LeadingZeros(ds);
    StripZeros(ds, to, z);
    DigitsUnique(ds[z..], to);
  }

  // ---- The two directions ----

  /** `steps` is the number of divisions: at most two per byte, so the text buffer of two
      characters per byte never runs out. */
  method EncodeBase59(buf: seq<byte>) returns (str: string, ghost steps: nat)
    ensures str == Encoded(buf)
    ensures steps <= 2 * (|buf| - LeadingZeros(buf))
  {
    hide BE, Digits, Pow, LeadingZeros, Shrinking;
    steps := 0;
    if |buf| == 0 {
      EmptyText();
      return "", 0;
    }
    var n := |buf|;
    var input := new byte[n](i requires 0 <= i < n => buf[i]);
    assert input[..] == buf;
    var zeroCount := 0;
    while zeroCount < n && input[zeroCount] == 0
      invariant 0 <= zeroCount <= n && forall i :: 0 <= i < zeroCount ==> buf[i] == 0
    {
      zeroCount := zeroCount + 1;
    }
    LeadingZerosUnique(buf, zeroCount);
    StripZeros(buf, 256, zeroCount);
    var temp := new char[n * 2](i => '\0');
    ghost var ds;
    var j;
    j, ds := DivideOut59(input, temp, zeroCount);
    steps := |ds|;
    str := FinishText(temp, j, zeroCount, ds);
  }

  /** The end of encoding: strip extra '1's, then one '1' for each leading zero byte. */
  method FinishText(temp: array<char>, top: nat, zeroCount: nat, ghost ds: seq<byte>) returns (str: string)
    requires zeroCount <= top && top + |ds| == temp.Length && Below(ds, 59)
    requires forall i :: top <= i < temp.Length ==> temp[i] == Alphabet(ds[i - top])
    modifies temp
    ensures str == ToText(Zeros(zeroCount) + ds[LeadingZeros(ds)..])
  {
    hide LeadingZeros;
    var n := temp.Length;
    var j := top;
    while j < n && temp[j] == Alphabet(0)
      invariant top <= j <= n && forall i :: 0 <= i < j - top ==> ds[i] == 0
    {
      assert Index(temp[j]) == ds[j - top] as int;
      j := j + 1;
    }
    if j < n {
      assert Index(temp[j]) == ds[j - top] as int;
    }
    LeadingZerosUnique(ds, j - top);
    ghost var first := j;
    var k := zeroCount;
    while k > 0
      invariant 0 <= k <= zeroCount && j == first - (zeroCount - k)
      invariant forall i :: j <= i < first ==> temp[i] == Alphabet(0)
      invariant forall i :: first <= i < n ==> temp[i] == Alphabet(ds[i - top])
    {
      j := j - 1;
      temp[j] := Alphabet(0);
      k := k - 1;
    }
    str := temp[j..];
    ghost var r := Zeros(zeroCount) + ds[first - top..];
    forall i | 0 <= i < |r|
      ensures str[i] == ToText(r)[i]
    {
      if i >= zeroCount {
        assert r[i] == ds[first - top..][i - zeroCount];
      }
    }
    assert str == ToText(r);
  }

  /** The main loop of encoding: divides until nothing is left, writing characters from the
      end of `temp`. */
  method DivideOut59(input: array<byte>, temp: array<char>, zeroCount: nat) returns (j: nat, ghost ds: seq<byte>)
    requires zeroCount <= input.Length && temp.Length == 2 * input.Length
    modifies input, temp
    ensures Below(ds, 59) && |ds| == temp.Length - j <= 2 * (input.Length - zeroCount)
    ensures ds[LeadingZeros(ds)..] == Digits(BE(old(input[zeroCount..]), 256), 59)
    ensures forall i :: j <= i < temp.Length ==> temp[i] == Alphabet(ds[i - j])
  {
    hide BE, Digits, Pow, LeadingZeros, Shrinking;
    var n := input.Length;
    j := temp.Length;
    var startAt := zeroCount;
    ds := [];
    ghost var total := BE(input[zeroCount..], 256);
    ShrinkStart(input[startAt..], 256, 59);
    while startAt < n
      invariant zeroCount <= startAt <= n && 0 <= j <= temp.Length && |ds| == temp.Length - j
      invariant Below(ds, 59) && Shrinking(total, input[startAt..], 256, ds, 59)
      invariant forall i :: j <= i < temp.Length ==> temp[i] == Alphabet(ds[i - j])
      invariant startAt < n ==> |ds| + 2 * (n - startAt - 1) + (if input[startAt] < 59 then 1 else 2) <= 2 * (n - zeroCount)
      invariant |ds| <= 2 * (n - zeroCount)
      decreases n - startAt, if startAt < n then input[startAt] as int else 0
    {
      ghost var rest := input[startAt..];
      var mod := DivMod(input, startAt, 256, 59);
      ShrinkStep(total, rest, input[startAt..], 256, ds, 59, mod);
      assert input[startAt..][1..] == input[startAt + 1..];
      ds := [mod as byte] + ds;
      if input[startAt] == 0 {
        startAt := startAt + 1;
      }
      j := j - 1;
      temp[j] := Alphabet(mod);
    }
    assert input[startAt..] == [];
    ShrinkDone(total, 256, ds, 59);
  }

  lemma EmptyText()
    ensures Encoded([]) == ""
  {
  }

  /** `steps` is the number of divisions: exactly one per digit that is not a leading zero. */
  method DecodeBase59(input: string, out0: seq<byte>) returns (ok: bool, out: seq<byte>, ghost steps: nat)
    requires forall i :: 0 <= i < |input| ==> input[i] as int < 128
    ensures ok <==> IsText(input)
    ensures out == if ok then Decoded(input, out0) else out0
    ensures ok ==> steps == |input| - LeadingZeros(FromText(input))
  {
    hide BE, Digits, Pow, LeadingZeros, Shrinking, Below, Zeros;
    steps := 0;
    if |input| == 0 {
      NoDigits(input);
      return true, out0, 0;
    }
    var n := |input|;
    var input59 := new byte[n](i => 0);
    ok := ToDigits(input, input59);
    if !ok {
      return false, out0, 0;
    }
    ghost var number := FromText(input);
    var zeroCount := 0;
    while zeroCount < n && input59[zeroCount] == 0
      invariant 0 <= zeroCount <= n && forall k :: 0 <= k < zeroCount ==> number[k] == 0
    {
      zeroCount := zeroCount + 1;
    }
    LeadingZerosUnique(number, zeroCount);
    StripZeros(number, 59, zeroCount);
    var temp := new byte[n](k => 0);
    ghost var ds;
    var j;
    j, ds := DivideOut256(input59, temp, zeroCount);
    steps := |ds|;
    ghost var top := j;
    while j < n && temp[j] == 0
      invariant top <= j <= n && forall k :: 0 <= k < j - top ==> ds[k] == 0
      invariant forall k :: 0 <= k < j ==> temp[k] == 0
    {
      assert temp[top..][j - top] == 0;
      j := j + 1;
    }
    if j < n {
      assert temp[top..][j - top] == temp[j];
    }
    LeadingZerosUnique(ds, j - top);
    out := temp[j - zeroCount..];
    Assembled(temp[..], zeroCount, j, ds);
  }

  /** Leading zeros that were counted stand in front of the digits that are left. */
  lemma Assembled(temp: seq<byte>, zeroCount: nat, j: nat, ds: seq<byte>)
    requires zeroCount <= j <= |temp| && temp[zeroCount..] == ds && forall k :: 0 <= k < j ==> temp[k] == 0
    ensures temp[j - zeroCount..] == Zeros(zeroCount) + ds[j - zeroCount..]
  {
    assert temp[j..] == ds[j - zeroCount..];
  }

  /** The main loop of decoding: every division removes one digit. */
  method DivideOut256(input59: array<byte>, temp: array<byte>, zeroCount: nat) returns (j: nat, ghost ds: seq<byte>)
    requires zeroCount <= input59.Length == temp.Length && input59 != temp && Below(input59[..], 59)
    requires forall k :: 0 <= k < temp.Length ==> temp[k] == 0
    modifies input59, temp
    ensures |ds| == input59.Length - zeroCount && j == zeroCount
    ensures ds[LeadingZeros(ds)..] == Digits(BE(old(input59[zeroCount..]), 59), 256)
    ensures temp[j..] == ds && forall k :: 0 <= k < j ==> temp[k] == 0
  {
    hide BE, Digits, Pow, LeadingZeros, Shrinking;
    var n := input59.Length;
    j := n;
    var startAt := zeroCount;
    ds := [];
    ghost var total := BE(input59[zeroCount..], 59);
    ShrinkStart(input59[startAt..], 59, 256);
    while startAt < n
      invariant zeroCount <= startAt <= n && |ds| == n - j == startAt - zeroCount
      invariant Below(input59[..], 59) && Shrinking(total, input59[startAt..], 59, ds, 256)
      invariant temp[j..] == ds && forall k :: 0 <= k < j ==> temp[k] == 0
    {
      ghost var rest := input59[startAt..];
      var mod := DivMod(input59, startAt, 59, 256);
      ShrinkStep(total, rest, input59[startAt..], 59, ds, 256, mod);
      assert input59[startAt..][1..] == input59[startAt + 1..];
      ds := [mod as byte] + ds;
      if input59[startAt] == 0 {
        startAt := startAt + 1;
      }
      j := j - 1;
      temp[j] := mod;
    }
    assert input59[startAt..] == [];
    ShrinkDone(total, 59, ds, 256);
  }

  /** The first loop of decoding: one table lookup per character. */
  method ToDigits(input: string, input59: array<byte>) returns (ok: bool)
    requires input59.Length == |input|
    modifies input59
    ensures ok <==> IsText(input)
    ensures ok ==> input59[..] == FromText(input)
  {
    var i := 0;
    while i < |input|
      invariant 0 <= i <= |input|
      invariant forall k :: 0 <= k < i ==> Index(input[k]) == input59[k] as int
    {
      var digit59 := Index(input[i]);
      if digit59 < 0 {
        return false;
      }
      input59[i] := digit59;
      i := i + 1;
    }
    return true;
  }

  lemma NoDigits(s: string)
    requires s == ""
    ensures IsText(s) && LeadingZeros(FromText(s)) == 0
  {
  }
}
