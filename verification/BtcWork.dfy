/** Bitcoin proof of work: the work behind a block, and the target of the next one. */
module BtcWork {
  import opened Wrappers
  import opened Numbers
  import opened Word256
  import opened CompactBits
  import opened Arith

  // ---- Block proof ----

  /** The target that compact bits decode to. */
  function Target(bits: nat): (t: nat)
    ensures t < Modulus()
  {
    Wrap(Exact(Split(bits)))
  }

  predicate UsableTarget(bits: nat) {
    !(Effective(Split(bits)) != 0 && bits / SIGN % 2 == 1)
    && Exact(Split(bits)) < Modulus()
    && Target(bits) != 0
  }

  /** Expected number of hashes: 2^256 / (target + 1), or zero for a target that is
      negative, overflowing or zero. */
  function Proof(bits: nat): nat {
    if UsableTarget(bits) then Modulus() / (Target(bits) + 1) else 0
  }

  method GetBlockProof(bits: nat) returns (proof: ArithUint256)
    requires bits < UINT32
    ensures proof.Valid() && fresh(proof) && fresh(proof.data)
    ensures proof.Value() == Proof(bits)
  {
    hide Pow, Nat, Modulus, Wrap, Exact, Effective;
    var negative, overflow := ArithUint256.CompactFlags(bits);
    var bnTarget := new ArithUint256.FromBits(bits);
    var zero := new ArithUint256(0);
    var cmp := bnTarget.CompareTo(zero);
    if negative || overflow || cmp == 0 {
      return zero;
    }
    var one := new ArithUint256(1);
    var inverted := bnTarget.Complement();
    var divisor := bnTarget.Plus(one);
    TargetLeavesRoom(bits);
    var thrown, q := inverted.Quotient(divisor);
    proof := q.Plus(one);
    ProofIdentity(Modulus(), Target(bits));
    WrapIsExact(Proof(bits));
  }

  /** A decoded target is either a mantissa or a multiple of 256. */
  lemma ExactIsSmallOrEven(c: Compact)
    ensures c.word < SIZE_UNIT ==> Exact(c) < SIZE_UNIT || Exact(c) % 256 == 0
  {
    hide Pow;
    if c.size <= 3 {
      DivShrinksPow(c.word, 3 - c.size);
    } else {
      PowerOfThree();
      if c.size > 3 {
        PowAdd(256, 1, c.size - 4);
        MulAssoc(c.word, 256, Pow(256, c.size - 4));
        MulAssoc(256, c.word, Pow(256, c.size - 4));
      }
    }
  }

  /** No usable target is 2^256 - 1, so target + 1 neither wraps nor divides by zero. */
  lemma TargetLeavesRoom(bits: nat)
    requires bits < UINT32 && Exact(Split(bits)) < Modulus()
    ensures Target(bits) == Exact(Split(bits))
    ensures Target(bits) + 1 < Modulus() && Wrap(Target(bits) + 1) == Target(bits) + 1
  {
    hide Pow, Modulus, Wrap, Exact;
    var t := Exact(Split(bits));
    WrapIsExact(t);
    ModulusIsMultiple();
    ExactIsSmallOrEven(Split(bits));
    WrapIsExact(t + 1);
  }

  lemma ModulusIsMultiple()
    ensures Modulus() % 256 == 0 && Modulus() > SIZE_UNIT
  {
    hide Pow, Modulus;
    ModulusIsPow256();
    PowerOfThree();
    PowAdd(256, 1, 31);
    PowMonotone(256, 4, SIZE);
    PowAdd(256, 1, 3);
  }

  /** ~t / (t + 1) + 1 == 2^256 / (t + 1). */
  lemma ProofIdentity(m: nat, t: nat)
    requires 0 < t && t + 1 < m
    ensures (m - 1 - t) / (t + 1) + 1 == m / (t + 1) < m
  {
    var d := t + 1;
    var q, r := (m - d) / d, (m - d) % d;
    assert m - d == q * d + r;
    assert (q + 1) * d == q * d + d;
    DivModUnique(m, d, q + 1, r);
    MulMonotone(2, d, q + 1);
  }

  // ---- Retargeting ----

  datatype BtcParams = BtcParams(
    powLimit: nat,
    timespan: nat,
    spacing: nat,
    allowMinDifficulty: bool,
    noRetargeting: bool)
  {
    predicate Valid() {
      && powLimit < Modulus()
      && 0 < spacing <= timespan < UINT32
    }

    function Interval(): (n: nat)
      requires Valid()
      ensures n > 0
    {
      IntervalPositive(timespan, spacing);
      timespan / spacing
    }

    /** The most and the least time a period counts for, in 32-bit arithmetic. */
    function Clamp(span: nat): nat {
      var low := if span < timespan / 4 then timespan / 4 else span;
      if low > timespan * 4 % UINT32 then timespan * 4 % UINT32 else low
    }
  }

  lemma IntervalPositive(timespan: nat, spacing: nat)
    requires 0 < spacing <= timespan
    ensures timespan / spacing > 0
  {
    var q, r := timespan / spacing, timespan % spacing;
    assert timespan == q * spacing + r;
    if q <= 0 {
      MulMonotone(q, 0, spacing);
    }
  }

  /** Seconds from `first` to `last` as an unsigned 32-bit difference. */
  function Elapsed(first: nat, last: nat): (s: nat)
    ensures s < UINT32
  {
    (last - first) % UINT32
  }

  /** The next target before it is rounded to compact form. */
  function RawRetarget(target: nat, span: nat, p: BtcParams): (t: nat)
    requires p.Valid()
    ensures t <= p.powLimit
  {
    var t := Scaled(target, span, p.timespan);
    if t > p.powLimit then p.powLimit else t
  }

  /** target * span / timespan with the product reduced modulo 2^256. */
  function Scaled(target: nat, span: nat, timespan: nat): (t: nat)
    requires timespan > 0
  {
    DivShrinks(Wrap(target * span), timespan);
    Wrap(target * span) / timespan
  }

  function NextWork(bits: nat, first: nat, last: nat, p: BtcParams): nat
    requires p.Valid()
  {
    if p.noRetargeting then bits
    else ToCompact(RawRetarget(Target(bits), p.Clamp(Elapsed(first, last)), p), false)
  }

  method CalculateNextWorkRequired(bits: nat, tipTime: nat, nFirstBlockTime: nat, p: BtcParams, powLimit: ArithUint256)
    returns (r: nat)
    requires p.Valid() && bits < UINT32 && tipTime < UINT32 && nFirstBlockTime < UINT32
    requires powLimit.Valid() && powLimit.Value() == p.powLimit
    ensures r == NextWork(bits, nFirstBlockTime, tipTime, p)
  {
    hide Pow, Nat, Modulus, Wrap, Exact, ToCompact;
    if p.noRetargeting {
      return bits;
    }
    var nActualTimespan := (tipTime - nFirstBlockTime) % UINT32;
    if nActualTimespan < p.timespan / 4 {
      nActualTimespan := p.timespan / 4;
    }
    if nActualTimespan > p.timespan * 4 % UINT32 {
      nActualTimespan := p.timespan * 4 % UINT32;
    }
    var bnNew := new ArithUint256.FromBits(bits);
    bnNew.MulAssign32(nActualTimespan);
    var divisor := new ArithUint256(p.timespan);
    var thrown, rem := bnNew.DivAssign(divisor);
    var cmp := bnNew.CompareTo(powLimit);
    if cmp > 0 {
      bnNew := new ArithUint256.Copy(powLimit);
    }
    r := bnNew.ToBits(false);
  }

  // ---- What a retarget can do ----

  /** Reading back what the encoder wrote: rounded down, never overflowing. */
  lemma TargetOfCompact(v: nat)
    requires v < Modulus()
    ensures Target(ToCompact(v, false)) == Exact(Encode(v)) <= v
    ensures ToCompact(v, false) < UINT32
  {
    hide Pow, Modulus, Wrap, Encode, Exact;
    EncodeFits(v);
    CompactRoundsDown(v);
    var c := Encode(v);
    assert Split(ToCompact(v, false)) == c by {
      SplitCompact(c);
    }
    WrapIsExact(Exact(c));
  }

  lemma SplitCompact(c: Compact)
    requires c.word < SIGN && c.size < 256
    ensures Split(c.size * SIZE_UNIT + c.word) == c
    ensures c.size * SIZE_UNIT + c.word < UINT32
  {
  }

  lemma WrapShrinks(x: nat)
    ensures Wrap(x) <= x
  {
    var q := x / Modulus();
    assert x == q * Modulus() + Wrap(x);
    if q < 0 {
      MulMonotone(q, -1, Modulus());
    } else {
      MulMonotone(0, q, Modulus());
    }
  }

  lemma ScaledAtMost(target: nat, span: nat, timespan: nat, k: nat)
    requires 0 < timespan && span <= k * timespan
    ensures Scaled(target, span, timespan) <= k * target
  {
    hide Modulus, Wrap;
    WrapShrinks(target * span);
    MulMonotone(span, k * timespan, target);
    assert (k * timespan) * target == (k * target) * timespan by {
      MulAssoc(k, timespan, target);
      MulAssoc(k, target, timespan);
    }
    DivMonotone(Wrap(target * span), (k * target) * timespan, timespan);
    DivModUnique((k * target) * timespan, timespan, k * target, 0);
  }

  lemma WordBelow(x: nat)
    ensures x % UINT32 <= x
  {
  }

  /** One retarget makes the target at most four times easier and never easier than the
      limit, whatever the timestamps are and even where the product wraps. */
  lemma RetargetAtMostFourfold(bits: nat, first: nat, last: nat, p: BtcParams)
    requires p.Valid() && !p.noRetargeting
    ensures Target(NextWork(bits, first, last, p)) <= 4 * Target(bits)
    ensures Target(NextWork(bits, first, last, p)) <= p.powLimit
  {
    hide Modulus, Wrap, ToCompact, Target, Scaled;
    var span := p.Clamp(Elapsed(first, last));
    WordBelow(p.timespan * 4);
    ScaledAtMost(Target(bits), span, p.timespan, 4);
    TargetOfCompact(RawRetarget(Target(bits), span, p));
  }

  /** The scaling is the intended target * span / timespan exactly when the 256-bit
      product does not wrap; where it wraps the target comes out too hard. */
  lemma ScalingIsExactIff(target: nat, span: nat, timespan: nat)
    requires 0 < timespan < UINT32
    ensures Scaled(target, span, timespan) == target * span / timespan <==> target * span < Modulus()
    ensures Scaled(target, span, timespan) <= target * span / timespan
  {
    var m, x := Modulus(), target * span;
    WrapShrinks(x);
    DivMonotone(Wrap(x), x, timespan);
    ModulusIsMultiple();
    ModulusExceedsWord();
    hide Modulus, Wrap;
    if x < m {
      WrapIsExact(x);
    } else {
      WrapDropsModulus(x);
      DivMonotone(Wrap(x) + timespan, x, timespan);
      assert Wrap(x) + timespan == Wrap(x) + 1 * timespan;
      DivModUnique(Wrap(x) + timespan, timespan, Wrap(x) / timespan + 1, Wrap(x) % timespan);
    }
  }

  lemma ModulusExceedsWord()
    ensures Modulus() > UINT32
  {
    hide Pow, Modulus;
    ModulusIsPow256();
    PowAdd(256, 2, 3);
    PowerOfThree();
    PowMonotone(256, 5, SIZE);
  }

  lemma WrapDropsModulus(x: nat)
    requires x >= Modulus()
    ensures Wrap(x) + Modulus() <= x
  {
    ModShift(x, -1, Modulus());
    WrapShrinks(x - Modulus());
  }

  /** Scaling by at least a quarter, rounded down, loses less than one unit. */
  lemma QuarterOf(target: nat, span: nat, quarter: nat, timespan: nat)
    requires 0 < timespan && quarter <= span
    ensures timespan * (target * span / timespan + 1) > target * quarter
  {
    var x := target * span;
    assert x == x / timespan * timespan + x % timespan;
    MulMonotone(quarter, span, target);
  }

  lemma ClampBounds(span: nat, p: BtcParams)
    requires p.Valid() && 4 * p.timespan < UINT32
    ensures p.timespan / 4 <= p.Clamp(span) <= 4 * p.timespan
  {
  }

  /** What is left of a lower bound when the target is rounded to compact form. */
  lemma RoundedQuarter(raw: nat, rounded: nat, timespan: nat, quarter: nat)
    requires timespan * (raw + 1) > quarter && 0x8000 * raw <= 0x8001 * rounded
    ensures timespan * (0x8001 * rounded + 0x8000) > 0x8000 * quarter
  {
    MulMonotone(0x8000 * (raw + 1), 0x8001 * rounded + 0x8000, timespan);
    assert 0x8000 * (raw + 1) * timespan == 0x8000 * (timespan * (raw + 1));
  }

  lemma LosesLittle(v: nat)
    requires v < Modulus()
    ensures 0x8000 * v <= 0x8001 * Target(ToCompact(v, false))
  {
    hide Modulus, Target, ToCompact, Exact, Encode;
    TargetOfCompact(v);
    CompactRoundsDown(v);
  }

  /** A quarter is the most a retarget can harden the target, but for one unit of the
      division and the 2^-15 of the compact form, provided the product does not wrap. */
  lemma RetargetAtLeastQuarter(bits: nat, first: nat, last: nat, p: BtcParams)
    requires p.Valid() && !p.noRetargeting && 4 * p.timespan < UINT32
    requires Target(bits) * p.Clamp(Elapsed(first, last)) < Modulus()
    ensures var next := Target(NextWork(bits, first, last, p));
      || 0x8001 * next >= 0x8000 * p.powLimit
      || p.timespan * (0x8001 * next + 0x8000) > 0x8000 * (Target(bits) * (p.timespan / 4))
  {
    hide Modulus, Wrap, BtcParams.Clamp, Elapsed, Target, ToCompact;
    var span := p.Clamp(Elapsed(first, last));
    var raw := RawRetarget(Target(bits), span, p);
    LosesLittle(raw);
    if raw < p.powLimit {
      ClampBounds(Elapsed(first, last), p);
      WrapIsExact(Target(bits) * span);
      QuarterOf(Target(bits), span, p.timespan / 4, p.timespan);
      RoundedQuarter(raw, Target(ToCompact(raw, false)), p.timespan, Target(bits) * (p.timespan / 4));
    }
  }

  /** The time a period should count for: the signed difference of its timestamps, kept
      between a quarter and four times the timespan. */
  function SignedClamp(first: nat, last: nat, p: BtcParams): nat {
    if last - first < p.timespan / 4 then p.timespan / 4
    else if last - first > 4 * p.timespan then 4 * p.timespan
    else last - first
  }

  lemma ElapsedForward(first: nat, last: nat)
    requires first <= last < UINT32
    ensures Elapsed(first, last) == last - first
  {
    DivModUnique(last - first, UINT32, 0, last - first);
  }

  lemma ElapsedBackward(first: nat, last: nat)
    requires last < first < UINT32
    ensures Elapsed(first, last) == last - first + UINT32
  {
    DivModUnique(last - first, UINT32, -1, last - first + UINT32);
  }

  /** Four timespans either fit a word or lose one, two or three words of it; what is left
      is never the quarter. */
  lemma FourTimespans(timespan: nat)
    requires timespan < UINT32
    ensures 4 * timespan < UINT32 ==> 4 * timespan % UINT32 == 4 * timespan
    ensures 4 * timespan >= UINT32 ==> 4 * timespan % UINT32 != timespan / 4
  {
    var x := 4 * timespan;
    if x < UINT32 {
      DivModUnique(x, UINT32, 0, x);
    } else if x < 2 * UINT32 {
      DivModUnique(x, UINT32, 1, x - UINT32);
    } else if x < 3 * UINT32 {
      DivModUnique(x, UINT32, 2, x - 2 * UINT32);
    } else {
      DivModUnique(x, UINT32, 3, x - 3 * UINT32);
    }
  }

  /** The comparison of the two clamps, apart from the word arithmetic: `most` is four
      timespans in a word and `span` the difference in a word. */
  lemma ClampsAgreeIff(first: nat, last: nat, span: nat, most: nat, p: BtcParams)
    requires p.Valid() && first < UINT32 && last < UINT32
    requires most == p.timespan * 4 % UINT32
    requires span == if first <= last then last - first else last - first + UINT32
    requires if 4 * p.timespan < UINT32 then most == 4 * p.timespan else most < UINT32 && most != p.timespan / 4
    ensures p.Clamp(span) == SignedClamp(first, last, p)
       <==> && p.timespan / 4 <= most
            && (if last >= first then last - first <= most || 4 * p.timespan < UINT32
                else first - last >= UINT32 - p.timespan / 4)
  {
  }

  /** The unsigned difference counts as the signed one exactly for a clock that does not run
      backward, or runs backward so far that the wrapped difference is short again. Where four
      timespans exceed a word, the wrapped maximum must not cut anything off either. */
  lemma ClampIsSignedIff(first: nat, last: nat, p: BtcParams)
    requires p.Valid() && first < UINT32 && last < UINT32
    ensures 4 * p.timespan < UINT32 ==>
      (p.Clamp(Elapsed(first, last)) == SignedClamp(first, last, p)
       <==> last >= first || first - last >= UINT32 - p.timespan / 4)
    ensures 4 * p.timespan >= UINT32 ==>
      (p.Clamp(Elapsed(first, last)) == SignedClamp(first, last, p)
       <==> && p.timespan / 4 <= 4 * p.timespan % UINT32
            && (if last >= first then last - first <= 4 * p.timespan % UINT32
                else first - last >= UINT32 - p.timespan / 4))
  {
    hide Elapsed, SignedClamp, BtcParams.Clamp;
    if first <= last {
      ElapsedForward(first, last);
    } else {
      ElapsedBackward(first, last);
    }
    FourTimespans(p.timespan);
    ClampsAgreeIff(first, last, Elapsed(first, last), 4 * p.timespan % UINT32, p);
  }

  /** Where the last block of a period is older than the first one, the unsigned difference
      is huge: up to a gap of a word less four timespans the period counts as four times too
      long and the target is eased by the maximum, not hardened. Only for a gap that is
      nearly a whole word does it count as the shortest. */
  lemma BackwardClockCountsAsMaximum(first: nat, last: nat, p: BtcParams)
    requires p.Valid() && 4 * p.timespan < UINT32 && last < first < UINT32
    ensures p.Clamp(Elapsed(first, last)) == 4 * p.timespan <==> first - last <= UINT32 - 4 * p.timespan
    ensures p.Clamp(Elapsed(first, last)) == p.timespan / 4 <==> first - last >= UINT32 - p.timespan / 4
  {
    hide Elapsed;
    ElapsedBackward(first, last);
  }

  // ---- The chain of headers ----

  /** A header in the tree; headers never change once linked. */
  class BtcIndex {
    const pprev: BtcIndex?
    const height: nat
    const timestamp: nat
    const bits: nat

    constructor (prev: BtcIndex?, height: nat, timestamp: nat, bits: nat)
      ensures pprev == prev && this.height == height && this.timestamp == timestamp && this.bits == bits
    {
      pprev := prev;
      this.height := height;
      this.timestamp := timestamp;
      this.bits := bits;
    }

    /** Fields within their machine words and heights that count up from the root. */
    predicate Linked()
      decreases height
    {
      && timestamp < UINT32 && bits < UINT32 && height < UINT32 / 2 - 1
      && (pprev != null ==> height == pprev.height + 1 && pprev.Linked())
    }

    /** The ancestor at height `h`, if the chain reaches back that far. */
    function Ancestor(h: nat): (a: BtcIndex?)
      requires Linked()
      ensures a != null ==> a.Linked() && a.height == h
      decreases height
    {
      if h > height then null
      else if h == height then this
      else if pprev == null then null
      else pprev.Ancestor(h)
    }

    method GetAncestor(h: nat) returns (index: BtcIndex?)
      requires Linked()
      ensures index == Ancestor(h)
    {
      if h > height {
        return null;
      }
      index := this;
      while index != null && index.height > h
        invariant index != null ==> index.Linked() && index.height >= h && index.Ancestor(h) == Ancestor(h)
        invariant index == null ==> Ancestor(h) == null
        decreases if index == null then 0 else index.height + 1
      {
        index := index.pprev;
      }
    }

    /** The last header that is a period start, a root, or not at minimum difficulty. */
    function LastRegular(limitBits: nat, interval: nat): (b: BtcIndex)
      requires Linked() && interval > 0
      ensures b.Linked()
      decreases height
    {
      if pprev != null && height % interval != 0 && bits == limitBits
      then pprev.LastRegular(limitBits, interval)
      else this
    }
  }

  /** The bits the next header must carry; None where the source asserts that the first
      header of the period is still in memory. */
  function Required(prev: BtcIndex, timestamp: nat, p: BtcParams): Option<nat>
    requires p.Valid() && prev.Linked()
  {
    var limitBits := ToCompact(p.powLimit, false);
    if (prev.height + 1) % p.Interval() != 0 then
      if p.allowMinDifficulty then
        if timestamp > (prev.timestamp + p.spacing * 2) % UINT32 then Some(limitBits)
        else Some(prev.LastRegular(limitBits, p.Interval()).bits)
      else Some(prev.bits)
    else
      var first := prev.Ancestor(FirstOfPeriod(prev.height, p.Interval()));
      if first == null then None
      else Some(NextWork(prev.bits, first.timestamp, prev.timestamp, p))
  }

  function FirstOfPeriod(height: nat, interval: nat): nat
    requires interval > 0 && (height + 1) % interval == 0
  {
    PeriodFits(height, interval);
    height - (interval - 1)
  }

  /** A completed period has room for all its headers. */
  lemma PeriodFits(height: nat, interval: nat)
    requires interval > 0 && (height + 1) % interval == 0
    ensures height >= interval - 1
  {
    var q := (height + 1) / interval;
    assert height + 1 == q * interval;
    MulMonotone(if q <= 0 then q else 1, if q <= 0 then 0 else q, interval);
  }

  method GetNextWorkRequired(prevBlock: BtcIndex, timestamp: nat, p: BtcParams) returns (aborted: bool, r: nat)
    requires p.Valid() && prevBlock.Linked() && timestamp < UINT32
    ensures aborted <==> Required(prevBlock, timestamp, p).None?
    ensures !aborted ==> Required(prevBlock, timestamp, p) == Some(r)
  {
    hide Modulus, ToCompact, NextWork;
    var powLimit := Word(p.powLimit);
    var nProofOfWorkLimit := powLimit.ToBits(false);
    if (prevBlock.height + 1) % p.Interval() != 0 {
      if p.allowMinDifficulty {
        if timestamp > (prevBlock.timestamp + p.spacing * 2) % UINT32 {
          return false, nProofOfWorkLimit;
        }
        var pindex: BtcIndex := prevBlock;
        while pindex.pprev != null && pindex.height % p.Interval() != 0 && pindex.bits == nProofOfWorkLimit
          invariant pindex.Linked()
          invariant pindex.LastRegular(nProofOfWorkLimit, p.Interval())
                 == prevBlock.LastRegular(nProofOfWorkLimit, p.Interval())
          decreases pindex.height
        {
          pindex := pindex.pprev;
        }
        return false, pindex.bits;
      }
      return false, prevBlock.bits;
    }
    var nHeightFirst := FirstOfPeriod(prevBlock.height, p.Interval());
    var pindexFirst := prevBlock.GetAncestor(nHeightFirst);
    if pindexFirst == null {
      return true, 0;
    }
    r := CalculateNextWorkRequired(prevBlock.bits, prevBlock.timestamp, pindexFirst.timestamp, p, powLimit);
    return false, r;
  }

  /** A 256-bit object holding a given number. */
  method Word(v: nat) returns (r: ArithUint256)
    requires v < Modulus()
    ensures r.Valid() && fresh(r) && fresh(r.data) && r.Value() == v
  {
    hide LittleEndian, Pow, Nat, Modulus;
    r := new ArithUint256(0);
    var i, rest := 0, v;
    ghost var a := LittleEndian(v, SIZE);
    ModulusIsPow256();
    PowerOfThree();
    LittleEndianValue(v, SIZE);
    while i < SIZE
      invariant 0 <= i <= SIZE && rest == v / Pow(256, i)
      invariant forall j :: 0 <= j < i ==> r.data[j] == a[j]
    {
      LittleEndianAt(v, SIZE, i);
      PowStep(256, i);
      DivDiv(v, Pow(256, i), 256);
      r.data[i] := rest % 256;
      rest := rest / 256;
      i := i + 1;
    }
    assert r.data[..] == a;
  }

  /** A chain that header acceptance has let through: bootstrap headers below
      `bootstrapEnd` are trusted to stay under the limit, every later one carries exactly
      the required bits. */
  ghost predicate Accepted(b: BtcIndex, bootstrapEnd: nat, p: BtcParams)
    requires p.Valid() && b.Linked()
    decreases b.height
  {
    if b.pprev == null || b.height < bootstrapEnd then
      Target(b.bits) <= p.powLimit && (b.pprev != null ==> Accepted(b.pprev, bootstrapEnd, p))
    else
      Accepted(b.pprev, bootstrapEnd, p) && Required(b.pprev, b.timestamp, p) == Some(b.bits)
  }

  lemma {:induction false} AcceptedPrefix(b: BtcIndex, bootstrapEnd: nat, p: BtcParams, limitBits: nat)
    requires p.Valid() && b.Linked() && Accepted(b, bootstrapEnd, p)
    ensures Accepted(b.LastRegular(limitBits, p.Interval()), bootstrapEnd, p)
    ensures b.LastRegular(limitBits, p.Interval()).height <= b.height
    decreases b.height
  {
    if b.pprev != null {
      AcceptedPrefix(b.pprev, bootstrapEnd, p, limitBits);
    }
  }

  /** No header of an accepted chain has an easier target than the limit. */
  lemma {:induction false} TargetsStayBelowLimit(b: BtcIndex, bootstrapEnd: nat, p: BtcParams)
    requires p.Valid() && b.Linked() && Accepted(b, bootstrapEnd, p)
    ensures Target(b.bits) <= p.powLimit
    decreases b.height
  {
    hide Modulus, Wrap, ToCompact, Target, NextWork;
    if b.pprev == null || b.height < bootstrapEnd {
    } else {
      var limitBits := ToCompact(p.powLimit, false);
      var last := b.pprev.LastRegular(limitBits, p.Interval());
      TargetOfCompact(p.powLimit);
      TargetsStayBelowLimit(b.pprev, bootstrapEnd, p);
      AcceptedPrefix(b.pprev, bootstrapEnd, p, limitBits);
      TargetsStayBelowLimit(last, bootstrapEnd, p);
      if (b.pprev.height + 1) % p.Interval() == 0 {
        var first := b.pprev.Ancestor(FirstOfPeriod(b.pprev.height, p.Interval()));
        NextWorkBelowLimit(b.pprev.bits, first.timestamp, b.pprev.timestamp, p);
      }
    }
  }

  lemma NextWorkBelowLimit(bits: nat, first: nat, last: nat, p: BtcParams)
    requires p.Valid() && Target(bits) <= p.powLimit
    ensures Target(NextWork(bits, first, last, p)) <= p.powLimit
  {
    hide Modulus, Wrap, ToCompact, Target, Scaled;
    if !p.noRetargeting {
      TargetOfCompact(RawRetarget(Target(bits), p.Clamp(Elapsed(first, last)), p));
    }
  }
}
