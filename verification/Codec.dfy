/** Byte readers as functions: a reader takes a value off the front of the remaining bytes
    or fails. */
module Codec {
  import opened Numbers

  type bytes = seq<byte>

  datatype Parsed<+T> = Fail | Done(value: T, rest: bytes) {
    predicate IsFailure() {
      Fail?
    }

    function PropagateFailure<U>(): Parsed<U>
      requires Fail?
    {
      Fail
    }

    function Extract(): (T, bytes)
      requires Done?
    {
      (value, rest)
    }
  }

  type Reader<!T> = bytes -> Parsed<T>
  type Writer<!T> = T -> bytes

  /** Reading what was written for `x` gives `x` back and leaves the bytes behind it. */
  ghost predicate RoundTrips<T(!new)>(write: Writer<T>, read: Reader<T>, x: T) {
    forall rest: bytes :: Reads(write, read, x, rest)
  }

  ghost predicate Reads<T>(write: Writer<T>, read: Reader<T>, x: T, rest: bytes) {
    read(write(x) + rest) == Done(x, rest)
  }

  /** Exactly `n` raw bytes. */
  function Take(n: nat, s: bytes): Parsed<bytes> {
    if |s| < n then Fail else Done(s[..n], s[n..])
  }

  lemma TakeWritten(x: bytes, rest: bytes)
    ensures Take(|x|, x + rest) == Done(x, rest)
  {
    assert (x + rest)[..|x|] == x && (x + rest)[|x|..] == rest;
  }

  function WriteAll<T>(write: Writer<T>, xs: seq<T>): bytes {
    if xs == [] then [] else write(xs[0]) + WriteAll(write, xs[1..])
  }

  function ReadMany<T>(read: Reader<T>, n: nat, s: bytes): Parsed<seq<T>> {
    if n == 0 then Done([], s) else
    var (x, s1) :- read(s);
    var (xs, s2) :- ReadMany(read, n - 1, s1);
    Done([x] + xs, s2)
  }

  /** As many values as were written come back in order. */
  lemma {:induction false} ManyRoundTrip<T(!new)>(write: Writer<T>, read: Reader<T>, xs: seq<T>, rest: bytes)
    requires forall x :: x in xs ==> RoundTrips(write, read, x)
    ensures ReadMany(read, |xs|, WriteAll(write, xs) + rest) == Done(xs, rest)
  {
    if xs == [] {
      assert [] + rest == rest;
    } else {
      var tail := WriteAll(write, xs[1..]) + rest;
      assert RoundTrips(write, read, xs[0]);
      assert Reads(write, read, xs[0], tail);
      assert WriteAll(write, xs) + rest == write(xs[0]) + tail;
      ManyRoundTrip(write, read, xs[1..], rest);
      assert [xs[0]] + xs[1..] == xs;
    }
  }

  /** What the last of several values adds. */
  lemma {:induction false} WriteAllPush<T>(write: Writer<T>, xs: seq<T>, x: T)
    ensures WriteAll(write, xs + [x]) == WriteAll(write, xs) + write(x)
  {
    if xs == [] {
      assert xs + [x] == [x] && [x][1..] == [];
      assert write(x) + [] == write(x);
    } else {
      WriteAllPush(write, xs[1..], x);
      assert (xs + [x])[1..] == xs[1..] + [x];
    }
  }

  /** What a loop that has read some values will end with. */
  ghost function Resumed<T>(xs: seq<T>, p: Parsed<seq<T>>): Parsed<seq<T>> {
    if p.Fail? then Fail else Done(xs + p.value, p.rest)
  }

  lemma ManyStarted<T(!new)>(read: Reader<T>, n: nat, s: bytes)
    ensures ReadMany(read, n, s) == Resumed([], ReadMany(read, n, s))
  {
    var all := ReadMany(read, n, s);
    assert all.Done? ==> [] + all.value == all.value;
  }

  lemma ManyNext<T(!new)>(read: Reader<T>, n: nat, xs: seq<T>, s: bytes)
    requires n > 0
    ensures read(s).Fail? ==> Resumed(xs, ReadMany(read, n, s)).Fail?
    ensures read(s).Done? ==>
              Resumed(xs, ReadMany(read, n, s)) == Resumed(xs + [read(s).value], ReadMany(read, n - 1, read(s).rest))
  {
    if read(s).Done? {
      var tail := ReadMany(read, n - 1, read(s).rest);
      if tail.Done? {
        assert xs + ([read(s).value] + tail.value) == xs + [read(s).value] + tail.value;
      }
    }
  }

  lemma ManyDone<T(!new)>(read: Reader<T>, xs: seq<T>, s: bytes)
    ensures Resumed(xs, ReadMany(read, 0, s)) == Done(xs, s)
  {
    assert xs + [] == xs;
  }

  lemma AllNext<T>(write: Writer<T>, xs: seq<T>, i: nat)
    requires i < |xs|
    ensures WriteAll(write, xs[..i + 1]) == WriteAll(write, xs[..i]) + write(xs[i])
  {
    assert xs[..i + 1] == xs[..i] + [xs[i]];
    WriteAllPush(write, xs[..i], xs[i]);
  }

  lemma NoneWritten<T>(write: Writer<T>, xs: seq<T>)
    requires xs == []
    ensures WriteAll(write, xs) == []
  {
  }

  // ---- Little- and big-endian machine integers ----

  function ParseLE(n: nat, s: bytes): Parsed<nat> {
    var (b, rest) :- Take(n, s);
    Done(Nat(b), rest)
  }

  lemma LERoundTrip(n: nat, x: nat, rest: bytes)
    requires x < Pow(256, n)
    ensures ParseLE(n, LittleEndian(x, n) + rest) == Done(x, rest)
  {
    TakeWritten(LittleEndian(x, n), rest);
    LittleEndianValue(x, n);
  }

  /** Reading back: the bytes consumed are the bytes that would be written. */
  lemma LEReadWritten(n: nat, s: bytes)
    requires ParseLE(n, s).Done?
    ensures ParseLE(n, s).value < Pow(256, n)
    ensures s == LittleEndian(ParseLE(n, s).value, n) + ParseLE(n, s).rest
  {
    hide Pow, Nat, LittleEndian;
    var b := s[..n];
    NatBound(b);
    LittleEndianValue(Nat(b), n);
    NatInjective(LittleEndian(Nat(b), n), b);
  }

  // ---- Two's complement ----

  function ToUnsigned(x: int, width: nat): (u: nat) {
    x % Pow(2, width)
  }

  function ToSigned(u: nat, width: nat): int
    requires width > 0
  {
    if u >= Pow(2, width - 1) then u - Pow(2, width) else u
  }

  predicate FitsSigned(x: int, width: nat)
    requires width > 0
  {
    -(Pow(2, width - 1) as int) <= x < Pow(2, width - 1)
  }

  lemma SignedRoundTrip(x: int, width: nat)
    requires width > 0 && FitsSigned(x, width)
    ensures ToUnsigned(x, width) < Pow(2, width)
    ensures ToSigned(ToUnsigned(x, width), width) == x
  {
    var m := Pow(2, width);
    assert m == 2 * Pow(2, width - 1);
    if x >= 0 {
      DivModUnique(x, m, 0, x);
    } else {
      DivModUnique(x, m, -1, x + m);
    }
  }
}
