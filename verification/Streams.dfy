/** The byte streams of the library: a writer that only appends, and a reader with a
    position that moves over a fixed buffer. */
module Streams {
  import opened Numbers
  import opened Codec

  /** The `n` low bytes of a number in two's complement, highest first. */
  function BigEndian(x: int, n: nat): (s: bytes)
    ensures |s| == n
    decreases n
  {
    if n == 0 then [] else BigEndian(x / 256, n - 1) + [x % 256]
  }

  function ParseBE(n: nat, s: bytes): Parsed<nat> {
    var (b, rest) :- Take(n, s);
    Done(BE(b, 256), rest)
  }

  lemma OneByte(b: byte)
    ensures LittleEndian(b, 1) == [b] == BigEndian(b, 1)
  {
    assert LittleEndian(b / 256, 0) == [] == BigEndian(b / 256, 0);
  }

  lemma {:induction false} BigEndianSplit(x: int, n: nat)
    requires n > 0
    ensures BigEndian(x, n) == [x / Pow(256, n - 1) % 256] + BigEndian(x, n - 1)
    decreases n
  {
    if n == 1 {
      assert x / 1 == x;
    } else {
      BigEndianSplit(x / 256, n - 1);
      DivDiv(x, 256, Pow(256, n - 2));
    }
  }

  class WriteStream {
    var data: bytes

    constructor ()
      ensures data == []
    {
      data := [];
    }

    method Write(b: bytes)
      modifies this
      ensures data == old(data) + b
    {
      data := data + b;
    }

    method WriteLE(num: nat, size: nat)
      modifies this
      ensures data == old(data) + LittleEndian(num, size)
    {
      var i := 0;
      while i < size
        invariant 0 <= i <= size
        invariant data == old(data) + LittleEndian(num, size)[..i]
      {
        LittleEndianAt(num, size, i);
        data := data + [num / Pow(256, i) % 256];
        i := i + 1;
      }
    }

    /** Writes the low `count` bytes of a number of `size` bytes, highest first. */
    method WriteBE(num: int, size: nat, count: nat)
      requires count <= size
      modifies this
      ensures data == old(data) + BigEndian(num, count)
    {
      var i := 0;
      assert BigEndian(num, 0) == [];
      while i < size
        invariant 0 <= i <= size
        invariant data + BigEndian(num, if i < size - count then count else size - i)
               == old(data) + BigEndian(num, count)
      {
        if !(i < size - count) {
          BigEndianSplit(num, size - i);
          data := data + [num / Pow(256, size - 1 - i) % 256];
        }
        i := i + 1;
      }
    }
  }

  class ReadStream {
    const buffer: bytes
    var pos: nat

    ghost predicate Valid()
      reads this
    {
      pos <= |buffer|
    }

    /** The bytes still to be read. */
    ghost function Rest(): bytes
      requires Valid()
      reads this
    {
      buffer[pos..]
    }

    constructor (b: bytes)
      ensures Valid() && Rest() == b && buffer == b
    {
      buffer := b;
      pos := 0;
    }

    method HasMore(n: nat) returns (more: bool)
      requires Valid()
      ensures more <==> |Rest()| >= n
    {
      more := |buffer| - pos >= n;
    }

    method ReadSlice(size: nat) returns (r: Parsed<bytes>)
      requires Valid()
      modifies this
      ensures Valid() && r == Take(size, old(Rest()))
      ensures Rest() == if r.Done? then r.rest else old(Rest())
    {
      ghost var s := Rest();
      var more := HasMore(size);
      if !more {
        return Fail;
      }
      var out := buffer[pos..pos + size];
      pos := pos + size;
      assert s[..size] == out && s[size..] == buffer[pos..];
      return Done(out, buffer[pos..]);
    }

    method ReadLE(size: nat) returns (r: Parsed<nat>)
      requires Valid()
      modifies this
      ensures Valid() && r == ParseLE(size, old(Rest()))
      ensures Rest() == if r.Done? then r.rest else old(Rest())
    {
      ghost var s := Rest();
      var more := HasMore(size);
      if !more {
        return Fail;
      }
      var t, i := 0, 0;
      while i < size
        invariant 0 <= i <= size && Valid() && Rest() == s[i..] && |s| >= size
        invariant t == Nat(s[..i])
      {
        assert buffer[pos] == Rest()[0] == s[i];
        assert Rest()[1..] == s[i + 1..];
        NatPrefix(s[..size], i);
        assert s[..size][..i] == s[..i] && s[..size][..i + 1] == s[..i + 1];
        t := t + buffer[pos] * Pow(256, i);
        pos := pos + 1;
        i := i + 1;
      }
      return Done(t, buffer[pos..]);
    }

    /** `size` bytes, highest first, each shifted to its place and added. */
    method ReadBE(size: nat) returns (r: Parsed<nat>)
      requires Valid()
      modifies this
      ensures Valid() && r == ParseBE(size, old(Rest()))
      ensures Rest() == if r.Done? then r.rest else old(Rest())
    {
      ghost var s := Rest();
      var more := HasMore(size);
      if !more {
        return Fail;
      }
      var t, i := 0, 0;
      while i < size
        invariant 0 <= i <= size && Valid() && Rest() == s[i..] && |s| >= size
        invariant t == BE(s[..i], 256) * Pow(256, size - i)
      {
        assert buffer[pos] == Rest()[0] == s[i];
        assert Rest()[1..] == s[i + 1..];
        assert s[..i + 1][..i] == s[..i];
        PlaceByte(BE(s[..i], 256), buffer[pos], size - i - 1);
        t := t + buffer[pos] * Pow(256, size - i - 1);
        pos := pos + 1;
        i := i + 1;
      }
      return Done(t, buffer[pos..]);
    }
  }

  lemma PlaceByte(v: nat, b: nat, k: nat)
    ensures v * Pow(256, k + 1) + b * Pow(256, k) == (v * 256 + b) * Pow(256, k)
  {
    MulAssoc(v, 256, Pow(256, k));
  }
}
