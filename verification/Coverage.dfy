/** How much of a target the catalog covers: overlapping ranges in any order are
    counted once. */
module Coverage {
  import opened Blocks
  import opened Ranges
  import opened Sorting
  import Filter
  import Float64

  function Interval(r: Range): (s: set<nat>) { set v: nat | r.start <= v <= r.end && InRange(r, v) }

  /** The addresses of a list of ranges, each once. */
  function AddressSet(rs: seq<Range>): (s: set<nat>) {
    if rs == [] then {} else AddressSet(rs[..|rs| - 1]) + Interval(rs[|rs| - 1])
  }

  lemma {:induction false} AddressSetHas(rs: seq<Range>, v: nat)
    ensures v in AddressSet(rs) <==> InRanges(rs, v)
  {
    if rs != [] {
      assert rs == rs[..|rs| - 1] + [rs[|rs| - 1]];
      AddressSetHas(rs[..|rs| - 1], v);
    }
  }

  lemma SameAddresses(rs: seq<Range>, ss: seq<Range>)
    requires forall r :: r in rs <==> r in ss
    ensures AddressSet(rs) == AddressSet(ss)
  {
    forall v: nat ensures v in AddressSet(rs) <==> v in AddressSet(ss) {
      AddressSetHas(rs, v);
      AddressSetHas(ss, v);
    }
  }

  lemma {:induction false} IntervalSize(r: Range)
    requires r.start <= r.end
    ensures |Interval(r)| == r.end - r.start + 1
    decreases r.end - r.start
  {
    if r.start == r.end {
      assert Interval(r) == {r.start};
    } else {
      var shorter := Range(r.start, r.end - 1);
      IntervalSize(shorter);
      assert Interval(r) == Interval(shorter) + {r.end};
    }
  }

  predicate RangeLe(r: Range, s: Range) { r.start < s.start || (r.start == s.start && r.end <= s.end) }

  function RangeSize(r: Range): int { r.end - r.start + 1 }

  lemma MergeIntervals(current: Range, next: Range)
    requires current.start <= next.start <= current.end + 1 && next.start <= next.end
    ensures Interval(current) + Interval(next) ==
            Interval(Range(current.start, if next.end > current.end then next.end else current.end))
  {}

  /** A finished stretch adds its size: it starts above everything counted. */
  lemma FinishStretch(done: set<nat>, current: Range)
    requires current.start <= current.end && forall v :: v in done ==> v < current.start
    ensures |done + Interval(current)| == |done| + RangeSize(current)
    ensures forall v :: v in done + Interval(current) ==> v <= current.end
  {
    IntervalSize(current);
    assert done * Interval(current) == {};
  }

  /** Counts the addresses of overlapping ranges, in any order. */
  method CoveredCount(ranges: array<Range>) returns (covered: int)
    requires NonEmpty(ranges[..])
    modifies ranges
    ensures covered == |AddressSet(old(ranges[..]))|
  {
    if ranges.Length == 0 {
      return 0;
    }
    ghost var input := ranges[..];
    SortSlice(ranges, RangeLe);
    SameElements(ranges[..], input);
    SameAddresses(ranges[..], input);
    covered := SweepSorted(ranges[..]);
  }

  /** What the sweep has counted after i ranges, and the stretch it is extending. */
  datatype Sweep = Sweep(covered: int, current: Range)

  function Extend(s: Sweep, next: Range): (t: Sweep) {
    if next.start <= s.current.end + 1 then
      s.(current := if next.end > s.current.end then Range(s.current.start, next.end) else s.current)
    else
      Sweep(s.covered + RangeSize(s.current), next)
  }

  function SweepTo(sorted: seq<Range>, i: nat): (s: Sweep)
    requires 0 < i <= |sorted|
  {
    if i == 1 then Sweep(0, sorted[0]) else Extend(SweepTo(sorted, i - 1), sorted[i - 1])
  }

  /** The counted addresses all lie below the stretch being extended. */
  ghost predicate Splits(s: Sweep, done: set<nat>, all: set<nat>) {
    s.current.start <= s.current.end && |done| == s.covered && (forall v :: v in done ==> v < s.current.start) &&
    all == done + Interval(s.current)
  }

  lemma ExtendSplits(s: Sweep, done: set<nat>, all: set<nat>, next: Range) returns (done': set<nat>)
    requires Splits(s, done, all) && s.current.start <= next.start <= next.end
    ensures Splits(Extend(s, next), done', all + Interval(next)) && Extend(s, next).current.start <= next.start
  {
    if next.start <= s.current.end + 1 {
      MergeIntervals(s.current, next);
      done' := done;
      assert all + Interval(next) == done + (Interval(s.current) + Interval(next));
    } else {
      FinishStretch(done, s.current);
      done' := done + Interval(s.current);
    }
  }

  /** The sweep splits the addresses so far into the counted ones and the stretch. */
  lemma {:induction false} SweepSplits(sorted: seq<Range>, i: nat) returns (done: set<nat>)
    requires 0 < i <= |sorted| && NonEmpty(sorted) && StartsAscend(sorted)
    ensures Splits(SweepTo(sorted, i), done, AddressSet(sorted[..i]))
    ensures SweepTo(sorted, i).current.start <= sorted[i - 1].start
  {
    TakeNext(sorted, i);
    var next := sorted[i - 1];
    assert next in sorted;
    assert sorted[..i][..i - 1] == sorted[..i - 1];
    if i == 1 {
      done := {};
    } else {
      done := SweepSplits(sorted, i - 1);
      done := ExtendSplits(SweepTo(sorted, i - 1), done, AddressSet(sorted[..i - 1]), next);
    }
  }

  /** Sweeps sorted ranges, adding up each merged stretch once. */
  method SweepSorted(sorted: seq<Range>) returns (covered: int)
    requires sorted != [] && NonEmpty(sorted) && SortedBy(sorted, RangeLe)
    ensures covered == |AddressSet(sorted)|
  {
    covered := 0;
    var current := sorted[0];
    for i := 1 to |sorted|
      invariant Sweep(covered, current) == SweepTo(sorted, i)
    {
      var next := sorted[i];
      if next.start <= current.end + 1 {
        if next.end > current.end {
          current := Range(current.start, next.end);
        }
        continue;
      }
      covered := covered + RangeSize(current);
      current := next;
    }
    assert StartsAscend(sorted) by { assert forall i, j :: 0 <= i < j < |sorted| ==> RangeLe(sorted[i], sorted[j]); }
    ghost var done := SweepSplits(sorted, |sorted|);
    assert sorted[..|sorted|] == sorted;
    FinishStretch(done, current);
    covered := covered + RangeSize(current);
  }

  function IntersectRanges(left: Range, right: Range): (r: (Range, bool))
    ensures r.1 <==> exists v: nat :: InRange(left, v) && InRange(right, v)
    ensures forall v: nat :: InRange(r.0, v) <==> InRange(left, v) && InRange(right, v)
  {
    var start := if left.start >= right.start then left.start else right.start;
    var end := if left.end <= right.end then left.end else right.end;
    assert start <= end ==> InRange(left, start) && InRange(right, start);
    (Range(start, end), start <= end)
  }

  /** Percentage of the target covered, in double precision and capped at 100. */
  method CoveragePercentage(target: Block, ranges: array<Range>) returns (percentage: real)
    requires NonEmpty(ranges[..])
    modifies ranges
    ensures percentage == Percentage(target, |AddressSet(old(ranges[..]))|)
  {
    if ranges.Length == 0 {
      assert AddressSet(ranges[..]) == {};
      Float64.ZeroIff(0, target.HostBits());
      return 0.0;
    }
    var covered := CoveredCount(ranges);
    var total := Pow2(Width(target.family) - target.bits);
    var ratio := Float64.Round(covered);
    percentage := Float64.Round(100 * ratio) as real / total as real;
    if percentage > 100.0 {
      percentage := 100.0;
    }
  }

  function Percentage(target: Block, covered: nat): (p: real) { Float64.Percentage(covered, target.HostBits()) }

  /** For ranges cut to the target, the count reaches the target's size exactly
      when every address of the target is covered. */
  lemma FullIffAllCovered(target: Block, rs: seq<Range>)
    requires forall r :: r in rs ==> target.addr <= r.start && r.end <= Hi(target)
    ensures |AddressSet(rs)| <= Size(target)
    ensures |AddressSet(rs)| == Size(target) <==> forall v: nat :: target.addr <= v <= Hi(target) ==> InRanges(rs, v)
  {
    var all := Range(target.addr, Hi(target));
    IntervalSize(all);
    forall v: nat ensures v in AddressSet(rs) <==> InRanges(rs, v) { AddressSetHas(rs, v); }
    assert AddressSet(rs) <= Interval(all);
    SubsetSize(AddressSet(rs), Interval(all));
    if forall v: nat :: target.addr <= v <= Hi(target) ==> InRanges(rs, v) {
      assert AddressSet(rs) == Interval(all);
    }
  }

  // ----- a lookup in the catalog -----

  /** Prefixes of the other family and default routes are passed over. */
  predicate Counts(target: Block, p: Block) { p.family == target.family && p.bits != 0 }

  /** What each prefix covers of the target. */
  function Cuts(target: Block, prefixes: seq<Block>): (rs: seq<Range>) {
    if prefixes == [] then []
    else
      var last := prefixes[|prefixes| - 1];
      var (overlap, ok) := IntersectRanges(PrefixToRange(target), PrefixToRange(last));
      Cuts(target, prefixes[..|prefixes| - 1]) + if Counts(target, last) && ok then [overlap] else []
  }

  ghost predicate CatalogCovers(target: Block, prefixes: seq<Block>, v: nat) {
    exists p :: p in prefixes && p.bits > 0 && Has(p, Addr(target.family, v))
  }

  lemma {:induction false} CutsHave(target: Block, prefixes: seq<Block>, v: nat)
    ensures InRanges(Cuts(target, prefixes), v) <==>
            target.addr <= v <= Hi(target) && CatalogCovers(target, prefixes, v)
    ensures forall r :: r in Cuts(target, prefixes) ==> target.addr <= r.start <= r.end <= Hi(target)
  {
    if prefixes != [] {
      var front, last := prefixes[..|prefixes| - 1], prefixes[|prefixes| - 1];
      CutsHave(target, front, v);
      if Counts(target, last) { CutHas(target, last, v); }
      var overlap := IntersectRanges(PrefixToRange(target), PrefixToRange(last));
      if overlap.1 { assert InRange(overlap.0, overlap.0.start) && InRange(overlap.0, overlap.0.end); }
      NextCut(Cuts(target, front), overlap.0, v);
      NextCovers(target, front, last, v);
      assert prefixes == front + [last];
    }
  }

  lemma NextCovers(target: Block, front: seq<Block>, last: Block, v: nat)
    ensures CatalogCovers(target, front + [last], v) <==>
            CatalogCovers(target, front, v) || (Counts(target, last) && Has(last, Addr(target.family, v)))
  {}

  lemma CutHas(target: Block, p: Block, v: nat)
    requires p.family == target.family
    ensures InRange(IntersectRanges(PrefixToRange(target), PrefixToRange(p)).0, v) <==>
            target.addr <= v <= Hi(target) && Has(p, Addr(target.family, v))
  {}

  lemma NextCut(rs: seq<Range>, r: Range, v: nat)
    ensures InRanges(rs + [r], v) <==> InRanges(rs, v) || InRange(r, v)
  {}

  /** The addresses of the target that the catalog covers. */
  function Covered(target: Block, prefixes: seq<Block>): (n: nat) { |AddressSet(Cuts(target, prefixes))| }

  datatype Standing = Absent | Partial(percentage: real) | Full

  /** How one service shows up in a lookup: a range for every prefix that meets
      the target, then the percentage they come to. */
  method Lookup(target: Block, prefixes: seq<Block>) returns (standing: Standing)
    ensures var p := Percentage(target, Covered(target, prefixes));
            standing == if p == 0.0 then Absent else if p == 100.0 then Full else Partial(p)
  {
    var found: seq<Range> := [];
    for i := 0 to |prefixes|
      invariant found == Cuts(target, prefixes[..i])
    {
      assert prefixes[..i + 1][..i] == prefixes[..i];
      var p := prefixes[i];
      if p.family == target.family && p.bits != 0 {
        var (overlap, ok) := IntersectRanges(PrefixToRange(target), PrefixToRange(p));
        if ok {
          found := found + [overlap];
        }
      }
    }
    assert prefixes[..|prefixes|] == prefixes;
    CutsHave(target, prefixes, 0);
    var ranges := new Range[|found|](i requires 0 <= i < |found| => found[i]);
    assert ranges[..] == found;
    var percentage := CoveragePercentage(target, ranges);
    standing := if percentage == 0.0 then Absent else if percentage == 100.0 then Full else Partial(percentage);
  }

  /** The count is complete exactly when the catalog covers the target, and zero
      exactly when it misses it. */
  lemma CoveredFacts(target: Block, prefixes: seq<Block>)
    ensures Covered(target, prefixes) <= Size(target)
    ensures Covered(target, prefixes) == Size(target) <==> AllCovered(target, prefixes)
    ensures Covered(target, prefixes) == 0 <==> NoneCovered(target, prefixes)
  {
    var rs := Cuts(target, prefixes);
    CutsHave(target, prefixes, 0);
    FullIffAllCovered(target, rs);
    forall v: nat
      ensures InRanges(rs, v) <==> target.addr <= v <= Hi(target) && CatalogCovers(target, prefixes, v)
      ensures v in AddressSet(rs) <==> InRanges(rs, v)
    {
      CutsHave(target, prefixes, v);
      AddressSetHas(rs, v);
    }
    if Covered(target, prefixes) == 0 { assert AddressSet(rs) == {}; }
    if NoneCovered(target, prefixes) { assert AddressSet(rs) == {}; }
  }

  ghost predicate AllCovered(target: Block, prefixes: seq<Block>) {
    forall v: nat :: target.addr <= v <= Hi(target) ==> CatalogCovers(target, prefixes, v)
  }

  ghost predicate NoneCovered(target: Block, prefixes: seq<Block>) {
    forall v: nat :: target.addr <= v <= Hi(target) ==> !CatalogCovers(target, prefixes, v)
  }

  /** A service is left out exactly when it covers nothing of the target, and
      filed as full from a slack below the whole of it on. */
  lemma StandingFacts(target: Block, prefixes: seq<Block>)
    ensures Percentage(target, Covered(target, prefixes)) == 0.0 <==> NoneCovered(target, prefixes)
    ensures Percentage(target, Covered(target, prefixes)) == 100.0 <==>
            Size(target) <= Covered(target, prefixes) + Float64.Slack(target.HostBits())
  {
    CoveredFacts(target, prefixes);
    Float64.ZeroIff(Covered(target, prefixes), target.HostBits());
    Float64.HundredIff(Covered(target, prefixes), target.HostBits());
  }

  /** The last address of a block, as a block. */
  function LastOf(target: Block): (b: Block)
    ensures b.family == target.family && b.addr == Hi(b) == Hi(target) && Inside(b, target)
  {
    BlockBound(target);
    Prefix(target.family, Hi(target), Width(target.family))
  }

  /** Everything but the last address, in blocks longer than the target. */
  function AllButLast(target: Block): (bs: seq<Block>) { Filter.Cut(target, LastOf(target)) }

  lemma {:induction false} CutLonger(current: Block, denied: Block)
    requires current.family == denied.family
    ensures forall b :: b in Filter.Cut(current, denied) ==> b.family == current.family && b.bits > current.bits
    decreases denied.bits - current.bits
  {
    if current.bits < denied.bits {
      var (left, right) := Filter.Children(current);
      if Contains(left, Addr(denied.family, denied.addr)) {
        CutLonger(left, denied);
      } else {
        CutLonger(right, denied);
      }
    }
  }

  /** With more than 2^53 addresses, covering all but the last one shows 100. */
  lemma AlmostFull(target: Block)
    requires target.HostBits() > Float64.PRECISION
    ensures Percentage(target, Covered(target, AllButLast(target))) == 100.0
    ensures !AllCovered(target, AllButLast(target))
  {
    var ps := AllButLast(target);
    AllButLastCovers(target);
    assert !CatalogCovers(target, ps, Hi(target));
    Pow2Monotone(1, target.HostBits());
    var most := Range(target.addr, Hi(target) - 1);
    IntervalSize(most);
    forall v: nat ensures v in AddressSet(Cuts(target, ps)) <==> v in Interval(most) {
      CutsHave(target, ps, v);
      AddressSetHas(Cuts(target, ps), v);
    }
    assert AddressSet(Cuts(target, ps)) == Interval(most);
    StandingFacts(target, ps);
  }

  lemma AllButLastCovers(target: Block)
    ensures forall v: nat :: target.addr <= v <= Hi(target) ==>
            (CatalogCovers(target, AllButLast(target), v) <==> v < Hi(target))
  {
    var ps := AllButLast(target);
    Filter.CutExact(target, LastOf(target));
    CutLonger(target, LastOf(target));
    SpaceSingle(target);
    SpaceSingle(LastOf(target));
    forall v: nat | target.addr <= v <= Hi(target) ensures CatalogCovers(target, ps, v) <==> v < Hi(target) {
      var a := Addr(target.family, v);
      assert a in Space(ps) <==> v < Hi(target);
      assert CatalogCovers(target, ps, v) <==> Covers(ps, a);
    }
  }

  /** Filed as full means covered, for every catalog, if and only if the target has
      at most 2^53 addresses. */
  lemma FullTellsIff(target: Block)
    ensures (forall prefixes :: FullTells(target, prefixes)) <==> target.HostBits() <= Float64.PRECISION
  {
    if target.HostBits() <= Float64.PRECISION {
      forall prefixes ensures FullTells(target, prefixes) {
        CoveredFacts(target, prefixes);
        Float64.TellsIff(target.HostBits());
      }
    } else {
      AlmostFull(target);
      assert !FullTells(target, AllButLast(target));
    }
  }

  ghost predicate FullTells(target: Block, prefixes: seq<Block>) {
    Percentage(target, Covered(target, prefixes)) == 100.0 <==> AllCovered(target, prefixes)
  }

  /** Any IPv6 /64, say 2001:db8::/64, is filed as full with its last address missing. */
  lemma AlmostFullHappens(target: Block)
    requires target.family.V6? && target.bits == 64
    ensures Percentage(target, Covered(target, AllButLast(target))) == 100.0 && !AllCovered(target, AllButLast(target))
  {
    AlmostFull(target);
  }

  lemma {:induction false} SubsetSize<T>(s: set<T>, t: set<T>)
    requires s <= t
    ensures |s| <= |t| && (|s| == |t| ==> s == t)
    decreases t
  {
    assert t == s + (t - s);
    assert |t| == |s| + |t - s|;
  }
}
