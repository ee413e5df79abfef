/** A prepared set of excluded prefixes, subtracted from many prefixes in turn.
    Only the run of excludes that overlaps the prefix is looked at. */
module Exclude {
  import opened Blocks
  import opened CanonicalLists
  import opened Sorting
  import opened Normalization
  import opened Filter

  ghost predicate Overlapped(bs: seq<Block>, p: Block) { exists b :: b in bs && !Apart(b, p) }

  /** Blocks overlap a prefix exactly when they share an address with it. */
  lemma OverlapIsShared(bs: seq<Block>, p: Block)
    ensures Overlapped(bs, p) <==> Space([p]) * Space(bs) != iset{}
  {
    SpaceSingle(p);
    if Overlapped(bs, p) {
      var b :| b in bs && !Apart(b, p);
      var a := Addr(p.family, if b.addr > p.addr then b.addr else p.addr);
      SpaceHas(bs, b, a);
      assert a in Space([p]) * Space(bs);
    }
    if Space([p]) * Space(bs) != iset{} {
      var a :| a in Space([p]) * Space(bs);
      var b :| b in bs && Has(b, a);
      assert !Apart(b, p);
    }
  }

  predicate AddrLe(b: Block, c: Block) { b.addr <= c.addr }

  /** Disjoint blocks of one family in address order: their ends ascend too. */
  ghost predicate OrderedRun(f: Family, bs: seq<Block>) {
    (forall b :: b in bs ==> b.family == f) &&
    forall i, j :: 0 <= i < j < |bs| ==> Hi(bs[i]) < bs[j].addr
  }

  function SetBit(v: nat, i: nat): (r: nat) { if Bit(v, i) then v else v + Pow2(i) }

  /** The highest address of a prefix, by setting its host bits one by one. */
  method LastAddr(p: Block) returns (v: nat)
    ensures v == Hi(p)
  {
    var width := Width(p.family);
    v := p.addr;
    for bit := p.bits to width
      invariant v == p.addr + Pow2(width - p.bits) - Pow2(width - bit)
      invariant Aligned(v, width - bit)
    {
      var low := width - 1 - bit;
      assert !Bit(v, low) by {
        if Bit(v, low) { BitStopsAlignment(v, low, width - bit); }
      }
      AlignedWeaken(v, width - bit, low);
      AlignedStep(v, low);
      v := SetBit(v, low);
    }
  }

  /** Binary search for the first exclude starting after the given address. */
  method FirstAfter(excludes: seq<Block>, end: nat) returns (idx: int)
    requires forall i, j :: 0 <= i < j < |excludes| ==> excludes[i].addr < excludes[j].addr
    ensures 0 <= idx <= |excludes|
    ensures forall i :: 0 <= i < idx ==> excludes[i].addr <= end
    ensures forall i :: idx <= i < |excludes| ==> end < excludes[i].addr
  {
    var low, high := 0, |excludes|;
    while low < high
      invariant 0 <= low <= high <= |excludes|
      invariant forall i :: 0 <= i < low ==> excludes[i].addr <= end
      invariant forall i :: high <= i < |excludes| ==> end < excludes[i].addr
    {
      var mid := (low + high) / 2;
      if end < excludes[mid].addr {
        high := mid;
      } else {
        low := mid + 1;
      }
    }
    idx := low;
  }

  /** A family's excludes in address order. */
  method SortByAddr(f: Family, bs: seq<Block>) returns (sorted: seq<Block>)
    requires PairwiseApart(bs) && forall b :: b in bs ==> b.family == f
    ensures OrderedRun(f, sorted) && Space(sorted) == Space(bs)
  {
    var slice := new Block[|bs|](i requires 0 <= i < |bs| => bs[i]);
    assert slice[..] == bs;
    SortSlice(slice, AddrLe);
    sorted := slice[..];
    SameElements(sorted, bs);
    SpaceSameElements(sorted, bs);
    ApartDistinct(bs);
    DistinctPermutation(sorted, bs);
    forall i, j | 0 <= i < j < |sorted| ensures Hi(sorted[i]) < sorted[j].addr {
      assert sorted[i] in bs && sorted[j] in bs && sorted[i] != sorted[j] && AddrLe(sorted[i], sorted[j]);
      var k :| 0 <= k < |bs| && bs[k] == sorted[i];
      var l :| 0 <= l < |bs| && bs[l] == sorted[j];
      assert Apart(bs[k], bs[l]);
    }
  }

  lemma ApartDistinct(bs: seq<Block>)
    requires PairwiseApart(bs)
    ensures Distinct(bs)
  {}

  class ExcludeSet {
    var v4: seq<Block>
    var v6: seq<Block>

    ghost predicate Valid()
      reads this
    {
      OrderedRun(V4, v4) && OrderedRun(V6, v6)
    }

    ghost function Excluded(): (s: iset<Addr>)
      reads this
    {
      Space(v4) + Space(v6)
    }

    function Of(f: Family): seq<Block>
      reads this
    {
      if f.V4? then v4 else v6
    }

    constructor (prefixes: seq<Prefix>)
      ensures Valid() && Excluded() == InputSpace(prefixes)
    {
      var normal := Normalize(prefixes);
      NormalFormFacts(normal, MaskedSet(prefixes));
      InputSpaceIsSetSpace(prefixes);
      var four, six := SplitFamilies(normal);
      SpaceConcat(four, six);
      ApartPart(four, six);
      four := SortByAddr(V4, four);
      six := SortByAddr(V6, six);
      v4, v6 := four, six;
    }

    predicate Empty()
      reads this
    {
      v4 == [] && v6 == []
    }

    /** Punches every overlapping exclude out of the prefix. The fragments are the
        fewest blocks denoting the prefix without the excluded addresses; the
        flag says whether anything overlapped. */
    method Subtract(prefix: Prefix) returns (fragments: seq<Block>, changed: bool)
      requires Valid() && prefix.IsValid()
      ensures Canonical(fragments)
      ensures Space(fragments) == Space([Masked(prefix)]) - Excluded()
      ensures changed <==> Space([Masked(prefix)]) * Excluded() != iset{}
      ensures changed <==> Overlapped(Of(prefix.family), Masked(prefix))
      ensures !changed ==> fragments == [Masked(prefix)]
    {
      var p := Masked(prefix);
      SpaceSingle(p);
      ghost var i, idx;
      fragments, changed, i, idx := ScanBack(p, Of(p.family));
      ScanExact(p, Of(p.family), i, idx, fragments);
      assert Space([p]) - Space(Of(p.family)) == Space([p]) - Excluded();
      OverlapIsShared(Of(p.family), p);
      assert Space([p]) * Space(Of(p.family)) == Space([p]) * Excluded();
    }
  }

  /** The scan stopped at i: nothing at or before i reaches the prefix, nothing at
      or after idx starts within it, or there is nothing left to punch. */
  ghost predicate ScanEnds(p: Block, excludes: seq<Block>, i: int, idx: int, fragments: seq<Block>) {
    -1 <= i < idx <= |excludes| &&
    (forall k :: idx <= k < |excludes| ==> Hi(p) < excludes[k].addr) &&
    fragments == PunchDown(p, excludes, i + 1, idx) &&
    (i + 1 < idx ==> excludes[idx - 1].addr <= Hi(p) && p.addr <= Hi(excludes[idx - 1])) &&
    (i < 0 || Hi(excludes[i]) < p.addr || (fragments == [] && i + 1 < idx))
  }

  /** Scans the overlapping run of excludes backwards from its end. */
  method ScanBack(p: Block, excludes: seq<Block>)
    returns (fragments: seq<Block>, changed: bool, ghost i: int, ghost idx: int)
    requires forall i, j :: 0 <= i < j < |excludes| ==> excludes[i].addr < excludes[j].addr
    ensures ScanEnds(p, excludes, i, idx, fragments)
    ensures changed <==> i + 1 < idx
  {
    var end := LastAddr(p);
    var first := FirstAfter(excludes, end);
    var at;
    fragments, changed, at := ScanFrom(p, excludes, first);
    i, idx := at, first;
  }

  method EndsBefore(exclude: Block, start: nat) returns (before: bool)
    ensures before <==> Hi(exclude) < start
  {
    var last := LastAddr(exclude);
    before := last < start;
  }

  /** Punches out excludes backwards from before `first`, until one ends before
      the prefix starts or nothing is left. */
  method ScanFrom(p: Block, excludes: seq<Block>, first: int) returns (fragments: seq<Block>, changed: bool, at: int)
    requires 0 <= first <= |excludes|
    ensures -1 <= at < first && fragments == PunchDown(p, excludes, at + 1, first)
    ensures changed <==> at + 1 < first
    ensures changed ==> p.addr <= Hi(excludes[first - 1])
    ensures at < 0 || Hi(excludes[at]) < p.addr || (fragments == [] && changed)
  {
    fragments := [p];
    changed := false;
    at := first - 1;
    var done := at < 0;
    if !done {
      done := EndsBefore(excludes[at], p.addr);
    }
    while !done
      invariant -1 <= at < first && (!done ==> at >= 0)
      invariant fragments == PunchDown(p, excludes, at + 1, first)
      invariant changed <==> at + 1 < first
      invariant at + 1 < first || !done ==> p.addr <= Hi(excludes[first - 1])
      invariant done ==> at < 0 || Hi(excludes[at]) < p.addr || (fragments == [] && changed)
      decreases at, !done
    {
      fragments := PunchOut(fragments, excludes[at]);
      changed := true;
      at := at - 1;
      done := at < 0 || |fragments| == 0;
      if !done {
        done := EndsBefore(excludes[at], p.addr);
      }
    }
  }

  /** Where the scan stops does not matter: the result is exact and shortest. */
  lemma ScanExact(p: Block, excludes: seq<Block>, i: int, idx: int, fragments: seq<Block>)
    requires OrderedRun(p.family, excludes) && ScanEnds(p, excludes, i, idx, fragments)
    ensures Canonical(fragments) && Space(fragments) == Space([p]) - Space(excludes)
    ensures i + 1 < idx <==> Overlapped(excludes, p)
    ensures i + 1 == idx ==> fragments == [p]
  {
    PunchDownExact(p, excludes, i + 1, idx);
    Remaining(p, excludes, i, idx, fragments);
    ChangedIffOverlap(p, excludes, i, idx);
  }

  /** The excludes from idx - 1 down to i, punched out one after the other. */
  function PunchDown(p: Block, excludes: seq<Block>, i: int, idx: int): (r: seq<Block>)
    requires 0 <= i <= idx <= |excludes|
    decreases idx - i
  {
    if i == idx then [p] else PunchEach(PunchDown(p, excludes, i + 1, idx), excludes[i])
  }

  lemma {:induction false} PunchDownExact(p: Block, excludes: seq<Block>, i: int, idx: int)
    requires 0 <= i <= idx <= |excludes|
    ensures Canonical(PunchDown(p, excludes, i, idx))
    ensures Space(PunchDown(p, excludes, i, idx)) == Space([p]) - Space(excludes[i..idx])
    decreases idx - i
  {
    if i == idx {
      CanonicalSingle(p);
      assert Space(excludes[i..idx]) == iset{};
    } else {
      PunchDownExact(p, excludes, i + 1, idx);
      CanonicalPunch(PunchDown(p, excludes, i + 1, idx), excludes[i]);
      assert excludes[i..idx] == [excludes[i]] + excludes[i + 1..idx];
      SpaceConcat([excludes[i]], excludes[i + 1..idx]);
    }
  }

  /** Something was punched out exactly when some exclude overlaps the prefix. */
  lemma ChangedIffOverlap(p: Block, excludes: seq<Block>, i: int, idx: int)
    requires OrderedRun(p.family, excludes) && -1 <= i < idx <= |excludes|
    requires forall k :: idx <= k < |excludes| ==> Hi(p) < excludes[k].addr
    requires i + 1 < idx ==> excludes[idx - 1].addr <= Hi(p) && p.addr <= Hi(excludes[idx - 1])
    requires i + 1 == idx ==> i < 0 || Hi(excludes[i]) < p.addr
    ensures i + 1 < idx <==> Overlapped(excludes, p)
  {
    if i + 1 < idx {
      assert excludes[idx - 1] in excludes;
    } else {
      forall e | e in excludes ensures Apart(e, p) {
        var k :| 0 <= k < |excludes| && excludes[k] == e;
        assert k < i ==> Hi(excludes[k]) < excludes[i].addr;
      }
    }
  }

  lemma ApartPart(bs: seq<Block>, cs: seq<Block>)
    requires PairwiseApart(bs + cs)
    ensures PairwiseApart(bs) && PairwiseApart(cs)
  {
    forall i, j | 0 <= i < |bs| && 0 <= j < |bs| && i != j ensures Apart(bs[i], bs[j]) {
      assert (bs + cs)[i] == bs[i] && (bs + cs)[j] == bs[j];
    }
    forall i, j | 0 <= i < |cs| && 0 <= j < |cs| && i != j ensures Apart(cs[i], cs[j]) {
      assert (bs + cs)[|bs| + i] == cs[i] && (bs + cs)[|bs| + j] == cs[j];
    }
  }

  method PunchOut(fragments: seq<Block>, exclude: Block) returns (next: seq<Block>)
    ensures next == PunchEach(fragments, exclude)
  {
    next := [];
    for k := 0 to |fragments|
      invariant next == PunchEach(fragments[..k], exclude)
    {
      assert fragments[..k + 1][..k] == fragments[..k];
      var pieces := Filter.Subtract(fragments[k], exclude);
      next := next + pieces;
    }
    assert fragments[..|fragments|] == fragments;
  }

  lemma CanonicalPunch(fragments: seq<Block>, exclude: Block)
    requires Canonical(fragments)
    ensures Canonical(PunchEach(fragments, exclude))
    ensures Space(PunchEach(fragments, exclude)) == Space(fragments) - Space([exclude])
  {
    PunchEachExact(fragments, exclude);
    var next := PunchEach(fragments, exclude);
    forall c: Block | Within(c, Space(next)) ensures InsideOne(c, next) {
      assert Within(c, Space(fragments));
    }
  }

  /** What is left after the scan is left after subtracting every exclude. */
  lemma Remaining(p: Block, excludes: seq<Block>, i: int, idx: int, fragments: seq<Block>)
    requires OrderedRun(p.family, excludes) && -1 <= i < idx <= |excludes|
    requires forall k :: idx <= k < |excludes| ==> Hi(p) < excludes[k].addr
    requires Space(fragments) == Space([p]) - Space(excludes[i + 1..idx])
    requires i < 0 || fragments == [] || Hi(excludes[i]) < p.addr
    ensures Space(fragments) == Space([p]) - Space(excludes)
  {}
}
