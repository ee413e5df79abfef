/** Canonical block lists: the coarsest way to write a set of addresses as
    blocks. Being canonical makes a list shortest and unique. */
module CanonicalLists {
  import opened Blocks
  import opened Sorting

  ghost predicate InsideOne(c: Block, bs: seq<Block>) { exists b :: b in bs && Inside(c, b) }

  /** Every address of the block belongs to the space. */
  ghost predicate Within(c: Block, s: iset<Addr>) {
    forall v: nat :: c.addr <= v <= Hi(c) ==> Addr(c.family, v) in s
  }

  /** Pairwise apart, and no block of denoted addresses straddles two elements. */
  ghost predicate Canonical(bs: seq<Block>) {
    PairwiseApart(bs) && forall c: Block :: Within(c, Space(bs)) ==> InsideOne(c, bs)
  }

  predicate AddrLess(b: Block, c: Block) {
    (b.family.V4? && c.family.V6?) || (b.family == c.family && b.addr < c.addr)
  }

  ghost predicate Ascending(bs: seq<Block>) {
    forall i, j :: 0 <= i < j < |bs| ==> AddrLess(bs[i], bs[j])
  }

  /** Pairwise different naturals below n are at most n. */
  lemma {:induction false} Pigeonhole(js: seq<nat>, n: nat)
    requires forall i :: 0 <= i < |js| ==> js[i] < n
    requires forall i, j :: 0 <= i < j < |js| ==> js[i] != js[j]
    ensures |js| <= n
  {
    if |js| > 0 {
      assert js[0] < n;
      if n - 1 in js {
        var k :| 0 <= k < |js| && js[k] == n - 1;
        Pigeonhole(js[..k] + js[k + 1..], n - 1);
      } else {
        Pigeonhole(js, n - 1);
      }
    }
  }

  lemma MemberWithin(bs: seq<Block>, b: Block)
    requires b in bs
    ensures Within(b, Space(bs))
  {}

  ghost predicate SameBlocks(bs: seq<Block>, cs: seq<Block>) { forall b :: b in bs <==> b in cs }

  /** For every element of one list, where in the other its first address is. */
  ghost predicate Homes(bs: seq<Block>, cs: seq<Block>, js: seq<nat>) {
    |js| <= |bs| && forall i :: 0 <= i < |js| ==> js[i] < |cs| && Has(cs[js[i]], Addr(bs[i].family, bs[i].addr))
  }

  lemma FindHomes(bs: seq<Block>, cs: seq<Block>) returns (js: seq<nat>)
    requires Canonical(bs) && Space(bs) == Space(cs)
    ensures |js| == |bs| && Homes(bs, cs, js) && forall i, j :: 0 <= i < j < |js| ==> js[i] != js[j]
  {
    js := [];
    while |js| < |bs|
      invariant Homes(bs, cs, js)
      decreases |bs| - |js|
    {
      var b := bs[|js|];
      SpaceHas(bs, b, Addr(b.family, b.addr));
      assert Covers(cs, Addr(b.family, b.addr));
      var c :| c in cs && Has(c, Addr(b.family, b.addr));
      var j :| 0 <= j < |cs| && cs[j] == c;
      js := js + [j];
    }
    forall i, j | 0 <= i < j < |js| ensures js[i] != js[j] {
      if js[i] == js[j] { OneHome(bs, cs, cs[js[i]], i, j); }
    }
  }

  /** Whatever list denotes the same addresses, it is at least as long. */
  lemma CanonicalIsMinimal(bs: seq<Block>, cs: seq<Block>)
    requires Canonical(bs) && Space(bs) == Space(cs)
    ensures |bs| <= |cs|
  {
    var js := FindHomes(bs, cs);
    Pigeonhole(js, |cs|);
  }

  /** And if it is no longer, it consists of the same blocks. */
  lemma MinimalIsUnique(bs: seq<Block>, cs: seq<Block>)
    requires Canonical(bs) && Space(bs) == Space(cs) && |cs| <= |bs|
    ensures SameBlocks(bs, cs)
  {
    var js := FindHomes(bs, cs);
    forall j: nat | j < |cs| ensures j in js { Onto(js, |cs|, j); }
    forall i | 0 <= i < |bs| ensures bs[i] == cs[js[i]] { HomeIsSame(bs, cs, js, i); }
    forall c | c in cs ensures c in bs {
      var j :| 0 <= j < |cs| && cs[j] == c;
      assert j in js;
      var i :| 0 <= i < |js| && js[i] == j;
      assert bs[i] == c;
    }
  }

  /** As many different naturals below n as there are leave none out. */
  lemma Onto(js: seq<nat>, n: nat, j: nat)
    requires |js| >= n && j < n && forall i :: 0 <= i < |js| ==> js[i] < n
    requires forall i, k :: 0 <= i < k < |js| ==> js[i] != js[k]
    ensures j in js
  {
    if j !in js { Pigeonhole(js + [j], n); }
  }

  /** Where every element of the other list is a home, homes are the elements. */
  lemma HomeIsSame(bs: seq<Block>, cs: seq<Block>, js: seq<nat>, i: nat)
    requires Canonical(bs) && Space(bs) == Space(cs) && |js| == |bs| && Homes(bs, cs, js) && i < |bs|
    requires forall j: nat :: j < |cs| ==> j in js
    ensures bs[i] == cs[js[i]]
  {
    HomeInside(bs, cs, js, i);
    var end := Addr(bs[i].family, Hi(bs[i]));
    SpaceHas(bs, bs[i], end);
    assert Covers(cs, end);
    var c :| c in cs && Has(c, end);
    var j :| 0 <= j < |cs| && cs[j] == c;
    assert j in js;
    var k :| 0 <= k < |js| && js[k] == j;
    HomeInside(bs, cs, js, k);
    assert Has(bs[k], end);
    assert Apart(bs[k], bs[i]) || k == i;
    InsideBits(bs[i], cs[js[i]]);
    InsideBits(cs[js[i]], bs[i]);
  }

  /** A home lies inside the element whose first address it holds. */
  lemma HomeInside(bs: seq<Block>, cs: seq<Block>, js: seq<nat>, i: nat)
    requires Canonical(bs) && Space(bs) == Space(cs) && Homes(bs, cs, js) && i < |js|
    ensures Inside(cs[js[i]], bs[i])
  {
    MemberWithin(cs, cs[js[i]]);
    var home :| home in bs && Inside(cs[js[i]], home);
    var k :| 0 <= k < |bs| && bs[k] == home;
    assert Apart(home, bs[i]) || k == i;
  }

  /** A block of the other list holds the start of at most one canonical block. */
  lemma OneHome(bs: seq<Block>, cs: seq<Block>, c: Block, i: nat, j: nat)
    requires Canonical(bs) && Space(bs) == Space(cs) && c in cs && i < |bs| && j < |bs|
    requires Has(c, Addr(bs[i].family, bs[i].addr)) && Has(c, Addr(bs[j].family, bs[j].addr))
    ensures i == j
  {
    MemberWithin(cs, c);
    var home :| home in bs && Inside(c, home);
    var k :| 0 <= k < |bs| && bs[k] == home;
    assert k == i && k == j;
  }

  /** The canonical list is determined by the addresses it denotes. */
  lemma CanonicalIsUnique(bs: seq<Block>, cs: seq<Block>)
    requires Canonical(bs) && Canonical(cs) && Space(bs) == Space(cs)
    ensures SameBlocks(bs, cs)
  {
    forall b | b in bs ensures b in cs { CanonicalMember(bs, cs, b); }
    forall c | c in cs ensures c in bs { CanonicalMember(cs, bs, c); }
  }

  lemma CanonicalMember(bs: seq<Block>, cs: seq<Block>, b: Block)
    requires Canonical(bs) && Canonical(cs) && Space(bs) == Space(cs) && b in bs
    ensures b in cs
  {
    MemberWithin(bs, b);
    var c :| c in cs && Inside(b, c);
    MemberWithin(cs, c);
    var d :| d in bs && Inside(c, d);
    assert Inside(b, d);
    var i :| 0 <= i < |bs| && bs[i] == b;
    var j :| 0 <= j < |bs| && bs[j] == d;
    assert i == j;
    InsideBits(b, c);
    InsideBits(c, d);
  }

  /** Two aggregations of inputs with the same addresses agree element for element. */
  lemma SameInputSameResult(bs: seq<Block>, cs: seq<Block>)
    requires Canonical(bs) && Canonical(cs) && Ascending(bs) && Ascending(cs) && Space(bs) == Space(cs)
    ensures bs == cs
  {
    CanonicalIsUnique(bs, cs);
    AscendingUnique(bs, cs);
  }

  lemma {:induction false} AscendingUnique(bs: seq<Block>, cs: seq<Block>)
    requires Ascending(bs) && Ascending(cs) && forall b :: b in bs <==> b in cs
    ensures bs == cs
  {
    SomeElement(bs);
    SomeElement(cs);
    if bs != [] {
      assert bs[0] in cs;
      var j :| 0 <= j < |cs| && cs[j] == bs[0];
      assert cs[0] in bs;
      var i :| 0 <= i < |bs| && bs[i] == cs[0];
      assert i == 0 && j == 0;
      forall b ensures b in bs[1..] <==> b in cs[1..] {
        if b in bs[1..] {
          var k :| 0 <= k < |bs[1..]| && bs[1..][k] == b;
          assert AddrLess(bs[0], bs[k + 1]);
          assert b in bs && b != bs[0];
          assert b in cs;
        }
        if b in cs[1..] {
          var k :| 0 <= k < |cs[1..]| && cs[1..][k] == b;
          assert AddrLess(cs[0], cs[k + 1]);
          assert b in cs && b != cs[0];
          assert b in bs;
        }
      }
      AscendingUnique(bs[1..], cs[1..]);
    }
  }
}
