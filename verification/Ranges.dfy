/** Inclusive address ranges. */
module Ranges {
  import opened Blocks

  datatype Range = Range(start: nat, end: nat)

  predicate InRange(r: Range, v: nat) { r.start <= v <= r.end }

  ghost predicate InRanges(rs: seq<Range>, v: nat) { exists r :: r in rs && InRange(r, v) }

  predicate NonEmpty(rs: seq<Range>) { forall r :: r in rs ==> r.start <= r.end }

  predicate StartsAscend(rs: seq<Range>) { forall i, j :: 0 <= i < j < |rs| ==> rs[i].start <= rs[j].start }

  function PrefixToRange(b: Block): (r: Range)
    ensures forall v: nat :: InRange(r, v) <==> Has(b, Addr(b.family, v))
    ensures r.start <= r.end
  {
    var span := Pow2(Width(b.family) - b.bits);
    Range(b.addr, b.addr + span - 1)
  }
}
