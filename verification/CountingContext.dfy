/** How many payloads fit into one block: counts and sizes of what was accepted so far. */
module CountingContexts {
  import opened BlockIndexes
  import opened Codec
  import opened Numbers
  import opened Serde
  import Addresses
  import Entities
  import PopDataCodec
  import opened PayloadSizes

  /** Limits of a block body. The configuration keeps the counts below 50000. */
  datatype Limits = Limits(maxSize: nat, maxVbks: nat, maxVtbs: nat, maxAtvs: nat) {
    function Max(k: Kind): nat {
      match k
      case AtvKind => maxAtvs
      case VtbKind => maxVtbs
      case VbkKind => maxVbks
    }

    predicate Configurable() {
      maxVbks <= 50000 && maxVtbs <= 50000 && maxAtvs <= 50000
    }
  }

  datatype Tally = Tally(vbks: nat, vtbs: nat, atvs: nat, vbksSize: nat, vtbsSize: nat, atvsSize: nat) {
    function Count(k: Kind): nat {
      match k
      case AtvKind => atvs
      case VtbKind => vtbs
      case VbkKind => vbks
    }

    function Size(k: Kind): nat {
      match k
      case AtvKind => atvsSize
      case VtbKind => vtbsSize
      case VbkKind => vbksSize
    }

    function Add(k: Kind, size: nat): Tally {
      match k
      case AtvKind => this.(atvs := atvs + 1, atvsSize := atvsSize + size)
      case VtbKind => this.(vtbs := vtbs + 1, vtbsSize := vtbsSize + size)
      case VbkKind => this.(vbks := vbks + 1, vbksSize := vbksSize + size)
    }

    /** The size of the body encoding with what was accepted. */
    function Estimate(): nat {
      4 + SingleBESize(atvs) + atvsSize + SingleBESize(vtbs) + vtbsSize + SingleBESize(vbks) + vbksSize
    }

    predicate CanFit(l: Limits, k: Kind, size: nat) {
      Count(k) < l.Max(k) && Estimate() + size <= l.maxSize
    }
  }

  const EMPTY := Tally(0, 0, 0, 0, 0, 0)

  class CountingContext {
    const limits: Limits
    var atvs: nat
    var vtbs: nat
    var vbks: nat
    var atvsSize: nat
    var vtbsSize: nat
    var vbksSize: nat

    constructor (limits: Limits)
      ensures this.limits == limits && Value() == EMPTY
    {
      this.limits := limits;
      atvs, vtbs, vbks, atvsSize, vtbsSize, vbksSize := 0, 0, 0, 0, 0, 0;
    }

    ghost function Value(): Tally
      reads this
    {
      Tally(vbks, vtbs, atvs, vbksSize, vtbsSize, atvsSize)
    }

    /** Compares with the limits before the payload is counted: the size of the counts is the
        size they have without it. */
    method CanFit(k: Kind, size: nat) returns (fits: bool)
      ensures fits == Value().CanFit(limits, k, size)
    {
      var count := match k case AtvKind => atvs case VtbKind => vtbs case VbkKind => vbks;
      if count >= limits.Max(k) {
        return false;
      }
      var popdatasize := 4 + SingleBESize(atvs) + atvsSize + SingleBESize(vtbs) + vtbsSize + SingleBESize(vbks) + vbksSize;
      fits := popdatasize + size <= limits.maxSize;
    }

    method Update(k: Kind, size: nat)
      modifies this
      ensures Value() == old(Value()).Add(k, size)
    {
      match k
      case AtvKind => atvsSize, atvs := atvsSize + size, atvs + 1;
      case VtbKind => vtbsSize, vtbs := vtbsSize + size, vtbs + 1;
      case VbkKind => vbksSize, vbks := vbksSize + size, vbks + 1;
    }
  }

  // ---------------------------------------------------------------- the sizes of payloads

  const VBK_BLOCK_SIZE := Entities.VBK_BLOCK_SIZE

  function MinSize(k: Kind): nat {
    match k
    case AtvKind => MIN_ATV_SIZE
    case VtbKind => MIN_VTB_SIZE
    case VbkKind => VBK_BLOCK_SIZE
  }

  function MaxSize(k: Kind): nat {
    match k
    case AtvKind => MAX_ATV_SIZE
    case VtbKind => MAX_VTB_SIZE
    case VbkKind => VBK_BLOCK_SIZE
  }

  /** The sizes that payloads of a kind have. */
  predicate SizeOk(k: Kind, size: nat) {
    MinSize(k) <= size <= MaxSize(k)
  }

  ghost predicate Occurs(h: Addresses.Hashes, k: Kind, size: nat) {
    match k
    case AtvKind => exists a: PopDataCodec.ATV :: PopDataCodec.IsATV(h, a) && PopDataCodec.ATVSize(a) == size
    case VtbKind => exists v: PopDataCodec.VTB :: PopDataCodec.IsVTB(h, v) && PopDataCodec.VTBSize(v) == size
    case VbkKind => exists b: Entities.VbkBlock :: PopDataCodec.IsWireBlock(b) && |Entities.WriteVbkBlock(b)| == size
  }

  /** They are the sizes of the payloads that there are, no more and no fewer. */
  lemma SizesOccur(h: Addresses.Hashes, k: Kind, size: nat)
    requires HashesOk(h)
    ensures Occurs(h, k, size) <==> SizeOk(k, size)
  {
    hide PopDataCodec.IsATV, PopDataCodec.ATVSize, PopDataCodec.IsVTB, PopDataCodec.VTBSize, Entities.WriteVbkBlock, Pow;
    match k
    case AtvKind => AtvSizes(h, size);
    case VtbKind => VtbSizes(h, size);
    case VbkKind =>
      forall b: Entities.VbkBlock | PopDataCodec.IsWireBlock(b)
        ensures |Entities.WriteVbkBlock(b)| == VBK_BLOCK_SIZE
      {
        Entities.VbkBlockRoundTrip(b, []);
      }
      ZeroBlocks();
  }

  // ---------------------------------------------------------------- runs

  /** What was accepted, one payload after the other. */
  datatype Step = Step(kind: Kind, size: nat)

  function Run(t: Tally, steps: seq<Step>): Tally {
    if steps == [] then t else
    var last := steps[|steps| - 1];
    Run(t, steps[..|steps| - 1]).Add(last.kind, last.size)
  }

  predicate Accepted(l: Limits, steps: seq<Step>) {
    steps == [] ||
    (var before, last := steps[..|steps| - 1], steps[|steps| - 1];
     SizeOk(last.kind, last.size) && Accepted(l, before) && Run(EMPTY, before).CanFit(l, last.kind, last.size))
  }

  /** A block body is filled with VBK blocks first, then with VTBs, then with ATVs. */
  function Rank(k: Kind): nat {
    match k
    case VbkKind => 0
    case VtbKind => 1
    case AtvKind => 2
  }

  predicate InOrder(steps: seq<Step>) {
    forall i, j :: 0 <= i < j < |steps| ==> Rank(steps[i].kind) <= Rank(steps[j].kind)
  }

  lemma CountSize(n: nat)
    requires n <= 50000
    ensures SingleBESize(n) == if n < 256 then 2 else 3
  {
    ByteCountLeast(n, 1);
    ByteCountLeast(n, 2);
    assert Pow(256, 1) == 256 && Pow(256, 2) == 65536;
  }

  lemma Nothing(l: Limits)
    ensures Accepted(l, []) && Run(EMPTY, []) == EMPTY
  {
  }

  lemma OneMore(l: Limits, steps: seq<Step>, last: Step)
    ensures Run(EMPTY, steps + [last]) == Run(EMPTY, steps).Add(last.kind, last.size)
    ensures Accepted(l, steps + [last]) <==>
            SizeOk(last.kind, last.size) && Accepted(l, steps) && Run(EMPTY, steps).CanFit(l, last.kind, last.size)
  {
    var all := steps + [last];
    assert all[..|all| - 1] == steps;
  }

  lemma {:induction false} CountsWithin(l: Limits, steps: seq<Step>)
    requires Accepted(l, steps)
    ensures var t := Run(EMPTY, steps);
            t.vbks <= l.maxVbks && t.vtbs <= l.maxVtbs && t.atvs <= l.maxAtvs
  {
    if steps != [] {
      CountsWithin(l, steps[..|steps| - 1]);
    }
  }

  /** The sizes of a tally lie between those of as many smallest and largest payloads. */
  predicate SizesWithin(t: Tally) {
    && t.vbksSize == VBK_BLOCK_SIZE * t.vbks
    && MIN_VTB_SIZE * t.vtbs <= t.vtbsSize <= MAX_VTB_SIZE * t.vtbs
    && MIN_ATV_SIZE * t.atvs <= t.atvsSize <= MAX_ATV_SIZE * t.atvs
  }

  lemma {:induction false} SizesCover(l: Limits, steps: seq<Step>)
    requires Accepted(l, steps)
    ensures SizesWithin(Run(EMPTY, steps))
  {
    if steps != [] {
      SizesCover(l, steps[..|steps| - 1]);
    }
  }

  // ---------------------------------------------------------------- the size limit

  /** Accepting one more payload breaks the limit exactly when its count needs one byte more
      than before and the payload had filled the limit to the last byte. */
  lemma OneStep(l: Limits, t: Tally, k: Kind, size: nat)
    requires l.Configurable() && t.CanFit(l, k, size)
    requires t.vbks <= l.maxVbks && t.vtbs <= l.maxVtbs && t.atvs <= l.maxAtvs
    ensures t.Add(k, size).Estimate() <= l.maxSize <==> !(t.Count(k) == 255 && t.Estimate() + size == l.maxSize)
    ensures t.Add(k, size).Estimate() <= l.maxSize + 1
  {
    CountSize(t.Count(k));
    CountSize(t.Count(k) + 1);
  }

  /** In any order, the estimate never exceeds the limit by more than one byte, and then the last
      payload was the 256th of its kind. */
  lemma SizeAlmostWithin(l: Limits, steps: seq<Step>)
    requires l.Configurable() && l.maxSize >= 10 && Accepted(l, steps)
    ensures Run(EMPTY, steps).Estimate() <= l.maxSize + 1
    ensures Run(EMPTY, steps).Estimate() > l.maxSize ==>
              steps != [] && Run(EMPTY, steps).Count(steps[|steps| - 1].kind) == 256
  {
    hide SingleBESize, Tally.Estimate;
    if steps == [] {
      EmptyEstimate();
    } else {
      CountsWithin(l, steps[..|steps| - 1]);
      OneStep(l, Run(EMPTY, steps[..|steps| - 1]), steps[|steps| - 1].kind, steps[|steps| - 1].size);
    }
  }

  lemma EmptyEstimate()
    ensures EMPTY.Estimate() == 10
  {
    CountSize(0);
  }

  /** The least and the greatest size of a body with so many payloads. */
  function Low(v: nat, b: nat, a: nat): nat {
    4 + SingleBESize(v) + SingleBESize(b) + SingleBESize(a) + VBK_BLOCK_SIZE * v + MIN_VTB_SIZE * b + MIN_ATV_SIZE * a
  }

  function High(v: nat, b: nat, a: nat): nat {
    4 + SingleBESize(v) + SingleBESize(b) + SingleBESize(a) + VBK_BLOCK_SIZE * v + MAX_VTB_SIZE * b + MAX_ATV_SIZE * a
  }

  /** Some kind may come to 256 payloads, and with what may stand before them they can end one
      byte above the limit. */
  predicate CanOverrun(l: Limits) {
    || (l.maxVbks >= 256 && l.maxSize + 1 == Low(256, 0, 0))
    || (l.maxVtbs >= 256 && Low(0, 256, 0) <= l.maxSize + 1 <= High(l.maxVbks, 256, 0))
    || (l.maxAtvs >= 256 && Low(0, 0, 256) <= l.maxSize + 1 <= High(l.maxVbks, l.maxVtbs, 256))
  }

  lemma SizeOf256()
    ensures Low(256, 0, 0) == High(256, 0, 0) == 16907 && Low(0, 256, 0) == 81675 && Low(0, 0, 256) == 41483
  {
    CountSize(0);
    CountSize(256);
  }

  lemma HighMonotone(v: nat, b: nat, v': nat, b': nat, a: nat)
    requires v <= v' <= 50000 && b <= b' <= 50000
    ensures High(v, b, a) <= High(v', b', a)
  {
    CountSize(v);
    CountSize(b);
    CountSize(v');
    CountSize(b');
  }

  lemma LowMonotone(v: nat, b: nat, a: nat)
    requires v <= 50000 && b <= 50000
    ensures Low(0, 0, a) <= Low(v, b, a) && Low(0, b, a) <= Low(v, b, a)
  {
    CountSize(0);
    CountSize(v);
    CountSize(b);
  }

  /** Kinds that come later than the last payload have not been counted. */
  lemma {:induction false} LaterKindsAreNone(t: Tally, steps: seq<Step>, k: Kind)
    requires t.Count(k) == 0 && forall i :: 0 <= i < |steps| ==> steps[i].kind != k
    ensures Run(t, steps).Count(k) == 0
  {
    if steps != [] {
      LaterKindsAreNone(t, steps[..|steps| - 1], k);
    }
  }

  lemma OverrunShape(l: Limits, steps: seq<Step>)
    requires l.Configurable() && l.maxSize >= 10 && Accepted(l, steps) && InOrder(steps)
    requires Run(EMPTY, steps).Estimate() > l.maxSize
    ensures CanOverrun(l)
  {
    hide SingleBESize, Tally.Estimate, Run, Accepted, Low, High;
    SizeAlmostWithin(l, steps);
    CountsWithin(l, steps);
    SizesCover(l, steps);
    var t, k := Run(EMPTY, steps), steps[|steps| - 1].kind;
    forall o: Kind | Rank(o) > Rank(k)
      ensures t.Count(o) == 0
    {
      LaterKindsAreNone(EMPTY, steps, o);
    }
    SizeOf256();
    EstimateBounds(t);
    match k
    case VbkKind =>
      assert t.Count(VtbKind) == 0 && t.Count(AtvKind) == 0;
    case VtbKind =>
      assert t.Count(AtvKind) == 0 && t.vtbs == 256;
      LowMonotone(t.vbks, t.vtbs, 0);
      HighMonotone(t.vbks, 256, l.maxVbks, 256, 0);
    case AtvKind =>
      LowMonotone(t.vbks, t.vtbs, 256);
      HighMonotone(t.vbks, t.vtbs, l.maxVbks, l.maxVtbs, 256);
  }

  lemma EstimateBounds(t: Tally)
    requires SizesWithin(t)
    ensures Low(t.vbks, t.vtbs, t.atvs) <= t.Estimate() <= High(t.vbks, t.vtbs, t.atvs)
  {
    hide SingleBESize;
  }

  // ---------------------------------------------------------------- runs that overrun

  /** Every size in the range comes up for some counts. */
  lemma {:induction false} Descend(v: nat, b: nat, a: nat, total: nat) returns (v': nat, b': nat)
    requires v <= 50000 && b <= 50000 && total <= High(v, b, a)
    requires (a == 256 && Low(0, 0, 256) <= total) || (a == 0 && b == 256 && Low(0, 256, 0) <= total)
    ensures v' <= v && b' <= b && (a == 0 ==> b' == 256)
    ensures Low(v', b', a) <= total <= High(v', b', a)
    decreases v + b
  {
    hide SingleBESize;
    CountSize(a);
    CountSize(b);
    CountSize(v);
    if Low(v, b, a) <= total {
      v', b' := v, b;
    } else if a == 256 && b > 0 {
      CountSize(b - 1);
      v', b' := Descend(v, b - 1, a, total);
    } else {
      CountSize(v - 1);
      v', b' := Descend(v - 1, b, a, total);
    }
  }

  /** The greatest first size that leaves enough for the others. */
  function FirstSize(n: nat, min: nat, max: nat, total: nat): (x: int)
    requires n > 0 && min <= max && n * min <= total <= n * max
    ensures min <= x <= max && x <= total && (n - 1) * min <= total - x <= (n - 1) * max
  {
    FirstFits(n, min, max);
    if total - (n - 1) * min > max then max else total - (n - 1) * min
  }

  lemma FirstFits(n: nat, min: nat, max: nat)
    requires n > 0 && min <= max
    ensures n * min == (n - 1) * min + min && n * max == (n - 1) * max + max && 0 <= (n - 1) * min <= (n - 1) * max
  {
    MulMonotone(min, max, n - 1);
  }

  /** So many sizes between two bounds with a given sum. */
  function SizesFor(n: nat, min: nat, max: nat, total: nat): (r: seq<nat>)
    requires min <= max && n * min <= total <= n * max
    ensures |r| == n && forall x <- r :: min <= x <= max
  {
    if n == 0 then []
    else
      var x: nat := FirstSize(n, min, max, total);
      [x] + SizesFor(n - 1, min, max, total - x)
  }

  lemma {:induction false} SizesForSum(n: nat, min: nat, max: nat, total: nat)
    requires min <= max && n * min <= total <= n * max
    ensures Sum(SizesFor(n, min, max, total)) == total
  {
    hide FirstSize;
    if n > 0 {
      var x: nat := FirstSize(n, min, max, total);
      SizesForSum(n - 1, min, max, total - x);
      assert SizesFor(n, min, max, total)[1..] == SizesFor(n - 1, min, max, total - x);
    }
  }

  function StepsOf(k: Kind, sizes: seq<nat>): (r: seq<Step>)
    ensures |r| == |sizes|
  {
    seq(|sizes|, i requires 0 <= i < |sizes| => Step(k, sizes[i]))
  }

  function Plus(t: Tally, k: Kind, n: nat, size: nat): Tally {
    match k
    case AtvKind => t.(atvs := t.atvs + n, atvsSize := t.atvsSize + size)
    case VtbKind => t.(vtbs := t.vtbs + n, vtbsSize := t.vtbsSize + size)
    case VbkKind => t.(vbks := t.vbks + n, vbksSize := t.vbksSize + size)
  }

  lemma {:induction false} RunConcat(t: Tally, a: seq<Step>, b: seq<Step>)
    ensures Run(t, a + b) == Run(Run(t, a), b)
  {
    if b == [] {
      assert a + b == a;
    } else {
      var n := |b| - 1;
      assert (a + b)[..|a| + n] == a + b[..n];
      RunConcat(t, a, b[..n]);
    }
  }

  lemma {:induction false} RunOf(t: Tally, k: Kind, sizes: seq<nat>)
    ensures Run(t, StepsOf(k, sizes)) == Plus(t, k, |sizes|, Sum(sizes))
    decreases |sizes|
  {
    if sizes != [] {
      var first, rest := StepsOf(k, sizes[..1]), StepsOf(k, sizes[1..]);
      assert StepsOf(k, sizes) == first + rest;
      RunConcat(t, first, rest);
      assert first[..0] == [] && first == [Step(k, sizes[0])];
      assert Run(t, first) == Run(t, first[..0]).Add(k, sizes[0]);
      RunOf(t.Add(k, sizes[0]), k, sizes[1..]);
    }
  }

  /** A payload adds at least its size. */
  lemma EstimateGrows(t: Tally, k: Kind, size: nat)
    ensures t.Estimate() + size <= t.Add(k, size).Estimate()
  {
    hide SingleBESize;
    BiggerCount(t.Count(k));
  }

  lemma BiggerCount(n: nat)
    ensures SingleBESize(n) <= SingleBESize(n + 1)
  {
    hide ByteCount;
    ByteCountLeast(n, ByteCount(n + 1));
    ByteCountLeast(n + 1, ByteCount(n + 1));
  }

  /** A run is accepted when its last payload fits and the counts end within the limits. */
  lemma {:induction false} AcceptedWhenLastFits(l: Limits, steps: seq<Step>)
    requires forall s <- steps :: SizeOk(s.kind, s.size)
    requires var t := Run(EMPTY, steps); t.vbks <= l.maxVbks && t.vtbs <= l.maxVtbs && t.atvs <= l.maxAtvs
    requires steps != [] ==> Run(EMPTY, steps[..|steps| - 1]).Estimate() + steps[|steps| - 1].size <= l.maxSize
    ensures Accepted(l, steps)
  {
    hide SingleBESize, Tally.Estimate, SizeOk;
    if steps != [] {
      var before, last := steps[..|steps| - 1], steps[|steps| - 1];
      if before != [] {
        EstimateGrows(Run(EMPTY, before[..|before| - 1]), before[|before| - 1].kind, before[|before| - 1].size);
      }
      AcceptedWhenLastFits(l, before);
    }
  }

  /** A body with so many payloads whose estimate is `total`. */
  function Body(v: nat, b: nat, a: nat, vtbsSize: nat, atvsSize: nat): (steps: seq<Step>)
    requires MIN_VTB_SIZE * b <= vtbsSize <= MAX_VTB_SIZE * b && MIN_ATV_SIZE * a <= atvsSize <= MAX_ATV_SIZE * a
    ensures |steps| == v + b + a
  {
    StepsOf(VbkKind, SizesFor(v, VBK_BLOCK_SIZE, VBK_BLOCK_SIZE, VBK_BLOCK_SIZE * v))
    + StepsOf(VtbKind, SizesFor(b, MIN_VTB_SIZE, MAX_VTB_SIZE, vtbsSize))
    + StepsOf(AtvKind, SizesFor(a, MIN_ATV_SIZE, MAX_ATV_SIZE, atvsSize))
  }

  lemma BodyRun(v: nat, b: nat, a: nat, vtbsSize: nat, atvsSize: nat)
    requires MIN_VTB_SIZE * b <= vtbsSize <= MAX_VTB_SIZE * b && MIN_ATV_SIZE * a <= atvsSize <= MAX_ATV_SIZE * a
    ensures Run(EMPTY, Body(v, b, a, vtbsSize, atvsSize)) == Tally(v, b, a, VBK_BLOCK_SIZE * v, vtbsSize, atvsSize)
  {
    hide SizesFor, Run, StepsOf;
    var vs := SizesFor(v, VBK_BLOCK_SIZE, VBK_BLOCK_SIZE, VBK_BLOCK_SIZE * v);
    var bs, as_ := SizesFor(b, MIN_VTB_SIZE, MAX_VTB_SIZE, vtbsSize), SizesFor(a, MIN_ATV_SIZE, MAX_ATV_SIZE, atvsSize);
    SizesForSum(v, VBK_BLOCK_SIZE, VBK_BLOCK_SIZE, VBK_BLOCK_SIZE * v);
    SizesForSum(b, MIN_VTB_SIZE, MAX_VTB_SIZE, vtbsSize);
    SizesForSum(a, MIN_ATV_SIZE, MAX_ATV_SIZE, atvsSize);
    RunConcat(EMPTY, StepsOf(VbkKind, vs) + StepsOf(VtbKind, bs), StepsOf(AtvKind, as_));
    RunConcat(EMPTY, StepsOf(VbkKind, vs), StepsOf(VtbKind, bs));
    RunOf(EMPTY, VbkKind, vs);
    RunOf(Plus(EMPTY, VbkKind, v, VBK_BLOCK_SIZE * v), VtbKind, bs);
    RunOf(Plus(Plus(EMPTY, VbkKind, v, VBK_BLOCK_SIZE * v), VtbKind, b, vtbsSize), AtvKind, as_);
  }

  lemma BodyShape(v: nat, b: nat, a: nat, vtbsSize: nat, atvsSize: nat)
    requires MIN_VTB_SIZE * b <= vtbsSize <= MAX_VTB_SIZE * b && MIN_ATV_SIZE * a <= atvsSize <= MAX_ATV_SIZE * a
    ensures var steps := Body(v, b, a, vtbsSize, atvsSize);
            && InOrder(steps) && (forall s <- steps :: SizeOk(s.kind, s.size))
            && (steps != [] ==> steps[|steps| - 1].kind == if a > 0 then AtvKind else if b > 0 then VtbKind else VbkKind)
  {
    hide SizesFor;
    var vs := SizesFor(v, VBK_BLOCK_SIZE, VBK_BLOCK_SIZE, VBK_BLOCK_SIZE * v);
    var bs, as_ := SizesFor(b, MIN_VTB_SIZE, MAX_VTB_SIZE, vtbsSize), SizesFor(a, MIN_ATV_SIZE, MAX_ATV_SIZE, atvsSize);
    var steps := Body(v, b, a, vtbsSize, atvsSize);
    forall i | 0 <= i < |steps|
      ensures steps[i] == if i < v then Step(VbkKind, vs[i]) else if i < v + b then Step(VtbKind, bs[i - v])
                          else Step(AtvKind, as_[i - v - b])
      ensures SizeOk(steps[i].kind, steps[i].size)
    {
      if i < v {
        assert vs[i] in vs;
      } else if i < v + b {
        assert bs[i - v] in bs;
      } else {
        assert as_[i - v - b] in as_;
      }
    }
  }

  /** A run of real sizes, in order, that ends one byte above the limit. */
  lemma Overrun(l: Limits) returns (steps: seq<Step>)
    requires l.Configurable() && CanOverrun(l)
    ensures Accepted(l, steps) && InOrder(steps) && Run(EMPTY, steps).Estimate() == l.maxSize + 1
  {
    hide SingleBESize, Low, High, Run, Accepted, Tally.Estimate, SizesFor, StepsOf, Body, InOrder, SizeOk;
    SizeOf256();
    var v, b, a := 256, 0, 0;
    if l.maxVbks >= 256 && l.maxSize + 1 == Low(256, 0, 0) {
    } else if l.maxVtbs >= 256 && Low(0, 256, 0) <= l.maxSize + 1 <= High(l.maxVbks, 256, 0) {
      v, b := Descend(l.maxVbks, 256, 0, l.maxSize + 1);
    } else {
      a := 256;
      v, b := Descend(l.maxVbks, l.maxVtbs, 256, l.maxSize + 1);
    }
    var vtbsSize, atvsSize := Shares(v, b, a, l.maxSize + 1);
    steps := Body(v, b, a, vtbsSize, atvsSize);
    BodyRun(v, b, a, vtbsSize, atvsSize);
    BodyShape(v, b, a, vtbsSize, atvsSize);
    LastStep(l, steps);
    AcceptedWhenLastFits(l, steps);
  }

  /** Divides what is not overhead among the VTBs and the ATVs. */
  lemma Shares(v: nat, b: nat, a: nat, total: nat) returns (vtbsSize: nat, atvsSize: nat)
    requires Low(v, b, a) <= total <= High(v, b, a)
    ensures MIN_VTB_SIZE * b <= vtbsSize <= MAX_VTB_SIZE * b && MIN_ATV_SIZE * a <= atvsSize <= MAX_ATV_SIZE * a
    ensures Tally(v, b, a, VBK_BLOCK_SIZE * v, vtbsSize, atvsSize).Estimate() == total
  {
    hide SingleBESize;
    var s: nat := total - (4 + SingleBESize(v) + SingleBESize(b) + SingleBESize(a) + VBK_BLOCK_SIZE * v);
    atvsSize := if s - MIN_VTB_SIZE * b > MAX_ATV_SIZE * a then MAX_ATV_SIZE * a else s - MIN_VTB_SIZE * b;
    vtbsSize := s - atvsSize;
  }

  lemma LastStep(l: Limits, steps: seq<Step>)
    requires steps != [] && Run(EMPTY, steps).Estimate() == l.maxSize + 1
    requires Run(EMPTY, steps).Count(steps[|steps| - 1].kind) == 256
    ensures Run(EMPTY, steps[..|steps| - 1]).Estimate() + steps[|steps| - 1].size == l.maxSize
  {
    hide SingleBESize;
    CountSize(255);
    CountSize(256);
  }

  /** Every run keeps the limit, exactly when the limit holds an empty body and cannot be
      overrun; otherwise payloads of sizes that occur end one byte above it. */
  lemma SizeLimitIff(l: Limits)
    requires l.Configurable()
    ensures (forall steps: seq<Step> :: Accepted(l, steps) && InOrder(steps) ==> Run(EMPTY, steps).Estimate() <= l.maxSize)
            <==> l.maxSize >= 10 && !CanOverrun(l)
  {
    hide Tally.Estimate, Run, Accepted, InOrder, CanOverrun;
    if l.maxSize < 10 {
      Nothing(l);
      NothingInOrder();
      EmptyEstimate();
    } else if CanOverrun(l) {
      var steps := Overrun(l);
      assert Accepted(l, steps) && InOrder(steps);
    } else {
      forall steps: seq<Step> | Accepted(l, steps) && InOrder(steps)
        ensures Run(EMPTY, steps).Estimate() <= l.maxSize
      {
        if Run(EMPTY, steps).Estimate() > l.maxSize {
          OverrunShape(l, steps);
        }
      }
    }
  }

  lemma NothingInOrder()
    ensures InOrder([])
  {
  }

  /** The default configuration can be overrun, by 256 ATVs. */
  lemma DefaultLimitsCanBeOverrun() returns (steps: seq<Step>)
    ensures var l := Limits(5500000, 200, 200, 1000);
            Accepted(l, steps) && InOrder(steps) && Run(EMPTY, steps).Estimate() == l.maxSize + 1
  {
    hide SingleBESize, Run, Accepted, InOrder, Tally.Estimate;
    CountSize(0);
    CountSize(200);
    CountSize(256);
    steps := Overrun(Limits(5500000, 200, 200, 1000));
  }
}
