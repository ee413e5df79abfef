/** Minimal CIDR aggregation: ranges merged in place, then cut greedily into
    the largest aligned blocks. The result denotes the same addresses as the
    input and no list of blocks denoting them is shorter. */
module Aggregate {
  import opened Blocks
  import opened CanonicalLists
  import opened Ranges
  import opened Sorting

  ghost function RangeSpace(f: Family, rs: seq<Range>): (s: iset<Addr>) {
    iset a: Addr | a.family == f && InRanges(rs, a.v)
  }

  /** Maximal runs: ascending, with at least one uncovered address in between. */
  predicate Runs(rs: seq<Range>) {
    NonEmpty(rs) && forall i, j :: 0 <= i < j < |rs| ==> rs[i].end + 1 < rs[j].start
  }

  predicate StartLe(r: Range, s: Range) { r.start <= s.start }

  // ----- the in-place merge -----

  lemma RangeSpaceAppend(f: Family, rs: seq<Range>, r: Range)
    ensures RangeSpace(f, rs + [r]) == RangeSpace(f, rs) + RangeSpace(f, [r])
    ensures RangeSpace(f, [r]) == iset a: Addr | a.family == f && InRange(r, a.v)
  {}

  /** What one more range does to the merged ones. */
  function Absorb(merged: seq<Range>, r: Range): (after: seq<Range>)
    requires |merged| > 0
    ensures |after| > 0
  {
    var at := |merged| - 1;
    if r.start - merged[at].end > 1 then merged + [r]
    else if r.end > merged[at].end then merged[at := Range(merged[at].start, r.end)]
    else merged
  }

  lemma AbsorbKeepsRuns(merged: seq<Range>, r: Range)
    requires |merged| > 0 && Runs(merged) && merged[|merged| - 1].start <= r.start <= r.end
    ensures Runs(Absorb(merged, r)) && Absorb(merged, r)[|Absorb(merged, r)| - 1].start <= r.start
  {}

  lemma AbsorbAddsRange(f: Family, merged: seq<Range>, r: Range)
    requires |merged| > 0 && merged[|merged| - 1].start <= r.start <= r.end
    requires merged[|merged| - 1].start <= merged[|merged| - 1].end
    ensures RangeSpace(f, Absorb(merged, r)) == RangeSpace(f, merged) + RangeSpace(f, [r])
  {
    var front, last := merged[..|merged| - 1], merged[|merged| - 1];
    assert merged == front + [last];
    if r.start - last.end <= 1 {
      var widened := if r.end > last.end then Range(last.start, r.end) else last;
      RangeSpaceAppend(f, front, last);
      RangeSpaceAppend(f, front, widened);
      RangeSpaceAppend(f, [], r);
      assert RangeSpace(f, [widened]) == RangeSpace(f, [last]) + RangeSpace(f, [r]);
      assert Absorb(merged, r) == front + [widened];
    } else {
      RangeSpaceAppend(f, merged, r);
    }
  }

  /** The first i ranges merged one after the other. */
  function Merged(input: seq<Range>, i: nat): (runs: seq<Range>)
    requires 0 < i <= |input|
    ensures |runs| > 0
  {
    if i == 1 then [input[0]] else Absorb(Merged(input, i - 1), input[i - 1])
  }

  /** Sorted ranges merge into maximal runs with the same addresses. */
  lemma {:induction false} MergedIsRuns(f: Family, input: seq<Range>, i: nat)
    requires 0 < i <= |input| && NonEmpty(input) && StartsAscend(input)
    ensures Runs(Merged(input, i)) && Merged(input, i)[|Merged(input, i)| - 1].start <= input[i - 1].start
    ensures RangeSpace(f, Merged(input, i)) == RangeSpace(f, input[..i])
  {
    TakeNext(input, i);
    var r := input[i - 1];
    assert r in input;
    if i == 1 {
      assert input[..1] == [r];
    } else {
      MergedIsRuns(f, input, i - 1);
      var runs := Merged(input, i - 1);
      assert Merged(input, i) == Absorb(runs, r);
      AbsorbNext(f, runs, input[..i - 1], r);
    }
  }

  lemma AbsorbNext(f: Family, runs: seq<Range>, seen: seq<Range>, r: Range)
    requires |runs| > 0 && Runs(runs) && runs[|runs| - 1].start <= r.start <= r.end
    requires RangeSpace(f, runs) == RangeSpace(f, seen)
    ensures Runs(Absorb(runs, r)) && Absorb(runs, r)[|Absorb(runs, r)| - 1].start <= r.start
    ensures RangeSpace(f, Absorb(runs, r)) == RangeSpace(f, seen + [r])
  {
    assert runs[|runs| - 1] in runs;
    AbsorbKeepsRuns(runs, r);
    AbsorbAddsRange(f, runs, r);
    RangeSpaceAppend(f, seen, r);
  }

  /** Merges sorted ranges inside their own array: the merged ranges are built
      in the front part while the rest is still being read. */
  method MergeInPlace(ranges: array<Range>) returns (merged: nat)
    requires ranges.Length > 0
    modifies ranges
    ensures merged <= ranges.Length && ranges[..merged] == Merged(old(ranges[..]), ranges.Length)
  {
    ghost var input := ranges[..];
    merged := 1;
    var i := 1;
    while i < ranges.Length
      invariant 1 <= merged <= i <= ranges.Length
      invariant ranges[..merged] == Merged(input, i) && ranges[i..] == input[i..]
    {
      var r := ranges[i];
      assert r == ranges[i..][0] && ranges[i + 1..] == ranges[i..][1..];
      assert ranges[merged - 1] == ranges[..merged][merged - 1];
      if r.start - ranges[merged - 1].end <= 1 {
        if r.end > ranges[merged - 1].end {
          ranges[merged - 1] := Range(ranges[merged - 1].start, r.end);
        }
      } else {
        ranges[merged] := r;
        merged := merged + 1;
      }
      i := i + 1;
    }
  }

  // ----- greedy decomposition -----

  /** Counts the zero bits below the first one bit, at most bitLen. */
  method TrailingZeroBits(v: nat, bitLen: nat) returns (n: nat)
    ensures n <= bitLen && Aligned(v, n)
    ensures forall h :: n < h <= bitLen ==> !Aligned(v, h)
  {
    n := 0;
    while n < bitLen
      invariant n <= bitLen && Aligned(v, n)
    {
      if Bit(v, n) {
        forall h | n < h <= bitLen ensures !Aligned(v, h) { BitStopsAlignment(v, n, h); }
        return;
      }
      AlignedMore(v, n);
      n := n + 1;
    }
  }

  lemma {:induction false} AlignedMore(v: nat, i: nat)
    requires Aligned(v, i) && !Bit(v, i)
    ensures Aligned(v, i + 1)
  {
    if i > 0 { AlignedMore(v / 2, i - 1); }
  }

  /** The blocks, in order, cover [lo, hi) of the family without gap or overlap. */
  ghost predicate Tiles(bs: seq<Block>, f: Family, lo: nat, hi: nat) {
    if bs == [] then lo == hi
    else bs[|bs| - 1].family == f && bs[|bs| - 1].addr < hi == Hi(bs[|bs| - 1]) + 1 &&
         Tiles(bs[..|bs| - 1], f, lo, bs[|bs| - 1].addr)
  }

  lemma {:induction false} TilesCover(bs: seq<Block>, f: Family, lo: nat, hi: nat)
    requires Tiles(bs, f, lo, hi)
    ensures lo <= hi
    ensures Space(bs) == iset a: Addr | a.family == f && lo <= a.v < hi
    ensures Ascending(bs) && PairwiseApart(bs)
    ensures forall b :: b in bs ==> b.family == f && lo <= b.addr && Hi(b) < hi
  {
    if bs != [] {
      var front, last := bs[..|bs| - 1], bs[|bs| - 1];
      assert bs == front + [last];
      TilesCover(front, f, lo, last.addr);
      SpaceConcat(front, [last]);
      SpaceSingle(last);
      ConcatApart(front, [last]);
      forall i, j | 0 <= i < j < |bs| ensures AddrLess(bs[i], bs[j]) {
        assert bs[i] == front[i] && front[i] in front;
        if j < |front| { assert bs[j] == front[j]; }
      }
    }
  }

  /** Every block of the range lies inside one element of the list. */
  ghost predicate AbsorbsRange(f: Family, r: Range, bs: seq<Block>) {
    forall c: Block :: c.family == f && r.start <= c.addr && Hi(c) <= r.end ==> InsideOne(c, bs)
  }

  /** The same for blocks starting before some address. */
  ghost predicate AbsorbsUpTo(f: Family, r: Range, cur: nat, bs: seq<Block>) {
    forall c: Block :: c.family == f && r.start <= c.addr < cur && Hi(c) <= r.end ==> InsideOne(c, bs)
  }

  lemma AbsorbsNext(f: Family, r: Range, block: Block, bs: seq<Block>, alignBits: nat, fitBits: nat)
    requires block.family == f && r.start <= block.addr <= r.end && AbsorbsUpTo(f, r, block.addr, bs)
    requires block.HostBits() == if fitBits < alignBits then fitBits else alignBits
    requires forall h :: alignBits < h <= Width(f) ==> !Aligned(block.addr, h)
    requires r.end - block.addr + 1 < Pow2(fitBits + 1)
    ensures AbsorbsUpTo(f, r, Hi(block) + 1, bs + [block])
  {
    forall c: Block | c.family == f && r.start <= c.addr <= Hi(block) && Hi(c) <= r.end
      ensures InsideOne(c, bs + [block])
    {
      if c.addr < block.addr {
        var b :| b in bs && Inside(c, b);
        assert b in bs + [block];
      } else {
        NoStraddle(c, block, r.end, alignBits, fitBits);
        assert block in bs + [block];
      }
    }
  }

  /** The largest aligned block at an address that ends within the range. */
  method LargestAt(f: Family, cur: nat, end: nat) returns (block: Block, ghost alignBits: nat, ghost fitBits: nat)
    requires cur <= end < Pow2(Width(f))
    ensures block.family == f && block.addr == cur && Hi(block) <= end
    ensures block.HostBits() == if fitBits < alignBits then fitBits else alignBits
    ensures forall h :: alignBits < h <= Width(f) ==> !Aligned(cur, h)
    ensures end - cur + 1 < Pow2(fitBits + 1)
  {
    var bitLen := Width(f);
    var align := bitLen;
    if cur != 0 {
      align := TrailingZeroBits(cur, bitLen);
    } else {
      AlignedZero(bitLen);
    }
    var remaining := end - cur + 1;
    var fit := BitLen(remaining) - 1;
    var blockHostBits := align;
    if fit < blockHostBits {
      blockHostBits := fit;
    }
    AlignedWeaken(cur, align, blockHostBits);
    Pow2Monotone(blockHostBits, fit);
    alignBits, fitBits := align, fit;
    block := Prefix(f, cur, bitLen - blockHostBits);
  }

  /** Cuts a range into the largest aligned blocks that fit, left to right. No
      block of the range ever straddles two of the blocks it emits. */
  method RangeToPrefixes(f: Family, r: Range) returns (result: seq<Block>)
    requires r.start <= r.end < Pow2(Width(f))
    ensures Tiles(result, f, r.start, r.end + 1)
    ensures AbsorbsRange(f, r, result)
  {
    result := [];
    var cur := r.start;
    while cur <= r.end
      invariant r.start <= cur <= r.end + 1
      invariant Tiles(result, f, r.start, cur)
      invariant AbsorbsUpTo(f, r, cur, result)
      decreases r.end + 1 - cur
    {
      ghost var alignBits, fitBits;
      var block;
      block, alignBits, fitBits := LargestAt(f, cur, r.end);
      AbsorbsNext(f, r, block, result, alignBits, fitBits);
      ghost var was := result;
      result := result + [block];
      assert result[..|result| - 1] == was;
      cur := cur + Size(block);
    }
  }

  /** A block starting inside the emitted one, and within the range, is part of it. */
  lemma NoStraddle(c: Block, block: Block, end: nat, alignBits: nat, fitBits: nat)
    requires c.family == block.family && block.addr <= c.addr <= Hi(block) && Hi(c) <= end
    requires block.addr <= end
    requires block.HostBits() == if fitBits < alignBits then fitBits else alignBits
    requires forall h :: alignBits < h <= Width(block.family) ==> !Aligned(block.addr, h)
    requires end - block.addr + 1 < Pow2(fitBits + 1)
    ensures Inside(c, block)
  {
    if c.bits < block.bits {
      BlocksNest(block, c);
      assert c.addr == block.addr;
      if fitBits < c.HostBits() { Pow2Monotone(fitBits + 1, c.HostBits()); }
    } else {
      BlocksNest(c, block);
    }
  }

  // ----- aggregation -----

  /** The list decomposes the runs: ordered, exact, and absorbing every block of a run. */
  ghost predicate Decomposes(f: Family, runs: seq<Range>, bs: seq<Block>) {
    (forall b :: b in bs ==> b.family == f) &&
    Ascending(bs) && PairwiseApart(bs) &&
    Space(bs) == RangeSpace(f, runs) &&
    forall r :: r in runs ==> AbsorbsRange(f, r, bs)
  }

  /** Result of one family: canonical and denoting the same addresses. */
  method AggregateFamily(f: Family, prefixes: seq<Block>) returns (result: seq<Block>)
    requires forall p :: p in prefixes ==> p.family == f
    ensures forall b :: b in result ==> b.family == f
    ensures Ascending(result) && Canonical(result) && Space(result) == Space(prefixes)
  {
    if |prefixes| == 0 {
      forall c: Block ensures !Within(c, Space([])) { assert Addr(c.family, c.addr) !in Space([]); }
      return [];
    }
    var ranges := new Range[|prefixes|];
    for i := 0 to |prefixes|
      invariant forall k :: 0 <= k < i ==> ranges[k] == PrefixToRange(prefixes[k])
    {
      ranges[i] := PrefixToRange(prefixes[i]);
    }
    ghost var input := ranges[..];
    RangesOfBlocks(f, prefixes, input);
    SortSlice(ranges, StartLe);
    ReorderRanges(f, ranges[..], input);
    ghost var sorted := ranges[..];
    assert StartsAscend(sorted) by { assert forall i, j :: 0 <= i < j < |sorted| ==> StartLe(sorted[i], sorted[j]); }
    MergedIsRuns(f, sorted, |sorted|);
    assert sorted[..|sorted|] == sorted;
    var merged := MergeInPlace(ranges);
    result := DecomposeRuns(f, ranges[..merged], prefixes);
  }

  /** The last loop of the aggregation: every merged run is cut in turn. */
  method DecomposeRuns(f: Family, merged: seq<Range>, ghost prefixes: seq<Block>) returns (result: seq<Block>)
    requires Runs(merged) && RangeSpace(f, merged) == Space(prefixes)
    ensures forall b :: b in result ==> b.family == f
    ensures Ascending(result) && Canonical(result) && Space(result) == Space(prefixes)
  {
    result := [];
    for k := 0 to |merged|
      invariant Decomposes(f, merged[..k], result)
    {
      RunBounded(f, prefixes, merged, k);
      var piece := RangeToPrefixes(f, merged[k]);
      AppendPiece(f, merged, k, result, piece);
      result := result + piece;
    }
    assert merged[..|merged|] == merged;
    forall c: Block | Within(c, Space(result)) ensures InsideOne(c, result) {
      var run := InsideOneRun(f, merged, c);
    }
  }

  lemma ReorderRanges(f: Family, rs: seq<Range>, ss: seq<Range>)
    requires multiset(rs) == multiset(ss) && NonEmpty(ss)
    ensures RangeSpace(f, rs) == RangeSpace(f, ss) && NonEmpty(rs)
  {
    SameElements(rs, ss);
    assert forall v: nat :: InRanges(rs, v) <==> InRanges(ss, v);
  }

  lemma RangesOfBlocks(f: Family, prefixes: seq<Block>, ranges: seq<Range>)
    requires |ranges| == |prefixes| && forall k :: 0 <= k < |ranges| ==> ranges[k] == PrefixToRange(prefixes[k])
    requires forall p :: p in prefixes ==> p.family == f
    ensures NonEmpty(ranges)
    ensures Space(prefixes) == RangeSpace(f, ranges)
  {}

  /** A run ends at an input address, so inside the address space. */
  lemma RunBounded(f: Family, prefixes: seq<Block>, runs: seq<Range>, k: nat)
    requires NonEmpty(runs) && k < |runs| && Space(prefixes) == RangeSpace(f, runs)
    ensures runs[k].start <= runs[k].end < Pow2(Width(f))
  {
    var run := runs[k];
    assert run in runs && InRange(run, run.end);
    assert Addr(f, run.end) in Space(prefixes);
    var p :| p in prefixes && Has(p, Addr(f, run.end));
    BlockBound(p);
  }

  lemma AppendPiece(f: Family, runs: seq<Range>, k: nat, result: seq<Block>, piece: seq<Block>)
    requires Runs(runs) && k < |runs| && Decomposes(f, runs[..k], result)
    requires Tiles(piece, f, runs[k].start, runs[k].end + 1) && AbsorbsRange(f, runs[k], piece)
    ensures Decomposes(f, runs[..k + 1], result + piece)
  {
    TilesCover(piece, f, runs[k].start, runs[k].end + 1);
    var all := result + piece;
    assert runs[..k + 1] == runs[..k] + [runs[k]];
    RangeSpaceAppend(f, runs[..k], runs[k]);
    SpaceConcat(result, piece);
    forall b | b in result ensures Hi(b) < runs[k].start {
      SpaceHas(result, b, Addr(f, Hi(b)));
      var r :| r in runs[..k] && InRange(r, Hi(b));
    }
    ConcatApart(result, piece);
    forall i, j | 0 <= i < j < |all| ensures AddrLess(all[i], all[j]) {
      if i < |result| <= j { assert all[i] in result && all[j] in piece; }
    }
    forall r | r in runs[..k + 1] ensures AbsorbsRange(f, r, all) {
      assert r in runs[..k] ==> AbsorbsRange(f, r, result);
      WidenAbsorbs(f, r, result, piece);
    }
  }

  lemma WidenAbsorbs(f: Family, r: Range, bs: seq<Block>, cs: seq<Block>)
    requires AbsorbsRange(f, r, bs) || AbsorbsRange(f, r, cs)
    ensures AbsorbsRange(f, r, bs + cs)
  {}

  /** Covered addresses are contiguous only inside one run. */
  lemma InsideOneRun(f: Family, runs: seq<Range>, c: Block) returns (r: Range)
    requires Runs(runs) && Within(c, RangeSpace(f, runs))
    ensures r in runs && c.family == f && r.start <= c.addr && Hi(c) <= r.end
  {
    assert Addr(c.family, c.addr) in RangeSpace(f, runs);
    r :| r in runs && InRange(r, c.addr);
    var i :| 0 <= i < |runs| && runs[i] == r;
    GapAfterRun(runs, i);
    var next := Addr(c.family, r.end + 1);
    assert r.end < Hi(c) ==> next in RangeSpace(f, runs);
  }

  lemma GapAfterRun(runs: seq<Range>, i: nat)
    requires Runs(runs) && i < |runs|
    ensures !InRanges(runs, runs[i].end + 1)
  {}

  /** Aggregation of a mixed list. Invalid prefixes are ignored and host bits are
      masked; the result denotes exactly the input's addresses, is ordered, and
      is the shortest list of blocks that does, in whatever order. */
  method Aggregate(prefixes: seq<Prefix>) returns (result: seq<Block>)
    ensures Space(result) == InputSpace(prefixes)
    ensures Ascending(result) && Canonical(result)
    ensures forall cs: seq<Block> :: Space(cs) == InputSpace(prefixes) ==> |result| <= |cs|
    ensures forall cs: seq<Block> :: Space(cs) == InputSpace(prefixes) && |cs| == |result| ==> SameBlocks(cs, result)
  {
    var v4: seq<Block>, v6: seq<Block> := [], [];
    assert Space([] + []) == InputSpace(prefixes[..0]);
    for i := 0 to |prefixes|
      invariant forall b :: b in v4 ==> b.family == V4
      invariant forall b :: b in v6 ==> b.family == V6
      invariant Space(v4) + Space(v6) == InputSpace(prefixes[..i])
    {
      var p := prefixes[i];
      assert prefixes[..i + 1] == prefixes[..i] + [p];
      InputSpaceAppend(prefixes[..i], p);
      if !p.IsValid() {
        continue;
      }
      var b := Masked(p);
      SpaceConcat(v4, [b]);
      SpaceConcat(v6, [b]);
      if b.family.V4? {
        v4 := v4 + [b];
      } else {
        v6 := v6 + [b];
      }
    }
    assert prefixes[..|prefixes|] == prefixes;
    var r4 := AggregateFamily(V4, v4);
    var r6 := AggregateFamily(V6, v6);
    result := r4 + r6;
    SpaceConcat(r4, r6);
    JoinFamilies(r4, r6);
    forall cs: seq<Block> | Space(cs) == InputSpace(prefixes) ensures |result| <= |cs| {
      CanonicalIsMinimal(result, cs);
    }
    forall cs: seq<Block> | Space(cs) == InputSpace(prefixes) && |cs| == |result| ensures SameBlocks(cs, result) {
      MinimalIsUnique(result, cs);
    }
  }

  lemma JoinFamilies(r4: seq<Block>, r6: seq<Block>)
    requires forall b :: b in r4 ==> b.family == V4
    requires forall b :: b in r6 ==> b.family == V6
    requires Ascending(r4) && Ascending(r6) && Canonical(r4) && Canonical(r6)
    ensures Ascending(r4 + r6) && Canonical(r4 + r6)
  {
    var all := r4 + r6;
    ConcatApart(r4, r6);
    SpaceConcat(r4, r6);
    forall i, j | 0 <= i < j < |all| ensures AddrLess(all[i], all[j]) {
      if i < |r4| <= j { assert all[i] in r4 && all[j] in r6; }
    }
    forall c: Block | Within(c, Space(all)) ensures InsideOne(c, all) {
      var mine := if c.family.V4? then r4 else r6;
      assert Within(c, Space(mine));
      var b :| b in mine && Inside(c, b);
      assert b in all;
    }
  }
}
