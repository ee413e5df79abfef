/** Dropping duplicate and nested prefixes. The short-list algorithm looks up
    every parent of a prefix; the long-list one walks a binary trie. Both are
    proved to return the same sequence. */
module Normalization {
  import opened Blocks
  import opened Sorting
  import opened Wrappers

  /** Shorter prefixes first within a family, so parents precede children. */
  predicate NormLe(b: Block, c: Block) {
    if b.family != c.family then b.family.V4?
    else if b.bits != c.bits then b.bits < c.bits
    else b.addr <= c.addr
  }

  ghost predicate Distinct<T>(s: seq<T>) { forall i, j :: 0 <= i < j < |s| ==> s[i] != s[j] }

  predicate CoveredBy(b: Block, bs: seq<Block>) { exists q :: q in bs && Inside(b, q) }

  /** The elements no earlier element contains. */
  function Outermost(ps: seq<Block>): (r: seq<Block>)
  {
    if ps == [] then []
    else
      var front, last := ps[..|ps| - 1], ps[|ps| - 1];
      if CoveredBy(last, front) then Outermost(front) else Outermost(front) + [last]
  }

  lemma {:induction false} OutermostCovers(ps: seq<Block>, b: Block)
    ensures CoveredBy(b, Outermost(ps)) <==> CoveredBy(b, ps)
    ensures forall x :: x in Outermost(ps) ==> x in ps
    ensures |Outermost(ps)| <= |ps|
  {
    if ps != [] {
      var front, last := ps[..|ps| - 1], ps[|ps| - 1];
      assert ps == front + [last];
      OutermostCovers(front, b);
      OutermostCovers(front, last);
      if CoveredBy(b, ps) {
        var q :| q in ps && Inside(b, q);
        if q == last && CoveredBy(last, front) {
          var q' :| q' in Outermost(front) && Inside(last, q');
          assert Inside(b, q');
        } else if q == last {
          assert last in Outermost(ps);
        } else {
          assert q in front;
          var q' :| q' in Outermost(front) && Inside(b, q');
          assert q' in Outermost(ps);
        }
      }
      if CoveredBy(b, Outermost(ps)) {
        var q :| q in Outermost(ps) && Inside(b, q);
        assert q in ps;
      }
    }
  }

  /** On a list in parent-first order: what survives is what no other element contains. */
  lemma {:induction false} OutermostMembers(ps: seq<Block>)
    requires Distinct(ps) && SortedBy(ps, NormLe)
    ensures forall b :: b in Outermost(ps) <==> b in ps && forall q :: q in ps && Inside(b, q) ==> q == b
    ensures Distinct(Outermost(ps)) && SortedBy(Outermost(ps), NormLe)
  {
    if ps != [] {
      var front, last := ps[..|ps| - 1], ps[|ps| - 1];
      assert ps == front + [last];
      OutermostMembers(front);
      forall b | b in front && Inside(b, last) ensures false {
        var i :| 0 <= i < |front| && front[i] == b;
        assert NormLe(ps[i], ps[|ps| - 1]);
        InsideBits(b, last);
      }
      forall b | b in Outermost(front) ensures NormLe(b, last) && b != last {
        var i :| 0 <= i < |front| && front[i] == b;
        assert NormLe(ps[i], ps[|ps| - 1]) && ps[i] != ps[|ps| - 1];
      }
      assert last !in front;
    }
  }

  // ----- the short-list algorithm -----

  /** A containing block is the masked prefix of the same length. */
  lemma ParentIsMask(b: Block, q: Block)
    requires Inside(b, q)
    ensures q.bits <= b.bits && q == Masked(Prefix(b.family, b.addr, q.bits))
  {
    InsideBits(b, q);
    MaskUnique(b.addr, q.addr, q.HostBits());
  }

  lemma MaskIsParent(b: Block, bits: int)
    requires 0 <= bits <= b.bits
    ensures Inside(b, Masked(Prefix(b.family, b.addr, bits)))
  {
    var q := Masked(Prefix(b.family, b.addr, bits));
    MaskAligned(b.addr, q.HostBits());
    BlocksNest(b, q);
  }

  function Parent(b: Block, bits: nat): Block
    requires bits <= b.bits
  {
    Masked(Prefix(b.family, b.addr, bits))
  }

  ghost predicate SomeParent(b: Block, accepted: set<Block>) { exists k: nat :: k < b.bits && Parent(b, k) in accepted }

  /** Containment in an accepted prefix is acceptance of some shorter mask. */
  lemma CoveredByParent(b: Block, accepted: set<Block>)
    requires b !in accepted
    ensures SomeParent(b, accepted) <==> exists q :: q in accepted && Inside(b, q)
  {
    if SomeParent(b, accepted) {
      var k: nat :| k < b.bits && Parent(b, k) in accepted;
      MaskIsParent(b, k);
    }
    if exists q :: q in accepted && Inside(b, q) {
      var q :| q in accepted && Inside(b, q);
      ParentIsMask(b, q);
      InsideBits(b, q);
      assert Parent(b, q.bits) in accepted;
    }
  }

  /** Looks every shorter masked prefix up in the accepted set. */
  method ParentAccepted(prefix: Block, accepted: set<Block>) returns (covered: bool)
    requires prefix !in accepted
    ensures covered <==> exists q :: q in accepted && Inside(prefix, q)
  {
    CoveredByParent(prefix, accepted);
    covered := false;
    var bits := prefix.bits - 1;
    while bits >= 0
      invariant -1 <= bits < prefix.bits && !covered
      invariant forall k: nat :: bits < k < prefix.bits ==> Parent(prefix, k) !in accepted
    {
      if Parent(prefix, bits) in accepted {
        covered := true;
        break;
      }
      bits := bits - 1;
    }
  }

  method NormalizeSimple(prefixes: seq<Block>) returns (collapsed: seq<Block>)
    requires Distinct(prefixes)
    ensures collapsed == Outermost(prefixes)
  {
    var accepted: set<Block> := {};
    collapsed := [];
    for i := 0 to |prefixes|
      invariant collapsed == Outermost(prefixes[..i])
      invariant forall b :: b in accepted <==> b in collapsed
    {
      var prefix := prefixes[i];
      assert prefixes[..i + 1] == prefixes[..i] + [prefix];
      assert prefixes[..i + 1][..i] == prefixes[..i];
      OutermostCovers(prefixes[..i], prefix);
      assert prefix !in collapsed;
      var covered := ParentAccepted(prefix, accepted);
      assert covered <==> CoveredBy(prefix, collapsed);
      if !covered {
        accepted := accepted + {prefix};
        collapsed := collapsed + [prefix];
      }
    }
    assert prefixes[..|prefixes|] == prefixes;
  }

  // ----- bits as a path from the root -----

  lemma {:induction false} ShiftStep(v: nat, h: nat)
    ensures Shift(v, h) == 2 * Shift(v, h + 1) + if Bit(v, h) then 1 else 0
  {
    if h > 0 { ShiftStep(v / 2, h - 1); }
  }

  lemma {:induction false} SameShiftSameMask(v: nat, w: nat, h: nat)
    ensures Shift(v, h) == Shift(w, h) <==> Mask(v, h) == Mask(w, h)
  {
    if h > 0 { SameShiftSameMask(v / 2, w / 2, h - 1); }
  }

  lemma {:induction false} MaskOfAligned(v: nat, h: nat)
    requires Aligned(v, h)
    ensures Mask(v, h) == v
  {
    if h > 0 { MaskOfAligned(v / 2, h - 1); }
  }

  /** A trie position: the address bits on the way down from the root. */
  datatype Key = Root | Down(parent: Key, bit: bool)

  predicate BitAt(b: Block, depth: nat)
    requires depth < Width(b.family)
  {
    Bit(b.addr, Width(b.family) - 1 - depth)
  }

  function KeyAt(b: Block, depth: nat): (k: Key)
    requires depth <= Width(b.family)
  {
    if depth == 0 then Root else Down(KeyAt(b, depth - 1), BitAt(b, depth - 1))
  }

  /** Equal keys are equal address bits above the depth. */
  lemma {:induction false} KeyShift(b: Block, q: Block, depth: nat)
    requires b.family == q.family && depth <= Width(b.family)
    ensures KeyAt(b, depth) == KeyAt(q, depth)
      <==> Shift(b.addr, Width(b.family) - depth) == Shift(q.addr, Width(b.family) - depth)
  {
    if depth == 0 {
      BlockBound(b);
      BlockBound(q);
      ShiftZero(b.addr, Width(b.family));
      ShiftZero(q.addr, Width(b.family));
    } else {
      KeyShift(b, q, depth - 1);
      ShiftStep(b.addr, Width(b.family) - depth);
      ShiftStep(q.addr, Width(b.family) - depth);
    }
  }

  lemma {:induction false} ShiftZero(v: nat, h: nat)
    requires v < Pow2(h)
    ensures Shift(v, h) == 0
  {
    if h > 0 { ShiftZero(v / 2, h - 1); }
  }

  /** Containment is agreement of the paths down to the outer block's depth. */
  lemma KeyInside(b: Block, q: Block)
    requires b.family == q.family && q.bits <= b.bits
    ensures Inside(b, q) <==> KeyAt(b, q.bits) == KeyAt(q, q.bits)
  {
    ContainsInside(q, b);
    KeyShift(b, q, q.bits);
    SameShiftSameMask(b.addr, q.addr, q.HostBits());
    MaskOfAligned(q.addr, q.HostBits());
    MaskUnique(b.addr, q.addr, q.HostBits());
  }

  lemma {:induction false} KeyAbove(b: Block, q: Block, depth: nat, upper: nat)
    requires b.family == q.family && upper <= depth <= Width(b.family)
    requires KeyAt(b, depth) == KeyAt(q, depth)
    ensures KeyAt(b, upper) == KeyAt(q, upper)
  {
    if upper < depth { KeyAbove(b, q, depth - 1, upper); }
  }

  // ----- the trie -----

  class Node {
    ghost const key: Key
    var prefix: Option<Block>
    var left: Node?
    var right: Node?

    constructor (ghost k: Key)
      ensures key == k && prefix == None && left == null && right == null
    {
      key := k;
      prefix, left, right := None, null, null;
    }

    function Child(bit: bool): Node?
      reads this
    {
      if bit then right else left
    }
  }

  class Trie {
    const family: Family
    var root: Node?
    ghost var nodes: map<Key, Node>
    ghost var stored: set<Block>

    ghost predicate Valid()
      reads this, nodes.Values
    {
      root == Lookup(Root) &&
      (forall k {:trigger NodeOk(k)} :: k in nodes ==> NodeOk(k)) &&
      (forall b {:trigger StoredOk(b)} :: b in stored ==> StoredOk(b))
    }

    ghost function Lookup(k: Key): Node?
      reads this
    {
      if k in nodes then nodes[k] else null
    }

    /** The node sits at its own key, is linked exactly as the keys say, and holds
        only a stored prefix whose path ends there. */
    ghost predicate NodeOk(k: Key)
      requires k in nodes
      reads this, nodes.Values
    {
      var node := nodes[k];
      node.key == k &&
      node.left == Lookup(Down(k, false)) && node.right == Lookup(Down(k, true)) &&
      (k.Down? ==> k.parent in nodes) &&
      (node.prefix.Some? ==> node.prefix.value in stored && node.prefix.value.family == family &&
                             KeyAt(node.prefix.value, node.prefix.value.bits) == k)
    }

    /** The prefix is held by the node at the end of its path, and the path exists. */
    ghost predicate StoredOk(b: Block)
      reads this, nodes.Values
    {
      b.family == family && OnPath(b, b.bits) && nodes[KeyAt(b, b.bits)].prefix == Some(b)
    }

    /** Nodes exist along b's path down to the given depth. */
    ghost predicate OnPath(b: Block, depth: nat)
      requires depth <= Width(b.family)
      reads this
    {
      forall d :: 0 <= d <= depth ==> KeyAt(b, d) in nodes
    }

    constructor (f: Family)
      ensures Valid() && family == f && stored == {} && nodes == map[]
    {
      family := f;
      root := null;
      nodes := map[];
      stored := {};
    }

    /** Walks down p's bits, stopping at the first stored prefix that covers p. */
    method Covered(p: Block) returns (covered: bool)
      requires Valid() && p.family == family
      ensures covered <==> exists q :: q in stored && Inside(p, q)
    {
      covered := false;
      var node := root;
      var depth := 0;
      while node != null
        invariant 0 <= depth <= p.bits && !covered
        invariant node == Lookup(KeyAt(p, depth))
        invariant forall q :: q in stored && Inside(p, q) ==> q.bits >= depth
        decreases p.bits - depth, node != null
      {
        assert NodeOk(KeyAt(p, depth));
        if node.prefix.Some? {
          var q := node.prefix.value;
          ContainsWhenShorter(q, p);
          if q.bits <= p.bits && Contains(q, Addr(p.family, p.addr)) {
            covered := true;
            break;
          }
        }
        forall q | q in stored && Inside(p, q) ensures depth < q.bits <= p.bits { NotHere(p, q, depth); }
        if depth >= p.bits {
          break;
        }
        node := node.Child(BitAt(p, depth));
        depth := depth + 1;
      }
      if node == null {
        forall q | q in stored ensures !Inside(p, q) {
          assert StoredOk(q);
          if Inside(p, q) {
            InsideBits(p, q);
            KeyInside(p, q);
            KeyAbove(p, q, q.bits, depth);
          }
        }
      }
    }

    /** A covering prefix at this depth would be held by this very node. */
    lemma NotHere(p: Block, q: Block, depth: nat)
      requires Valid() && q in stored && Inside(p, q) && depth <= q.bits && depth <= p.bits
      requires KeyAt(p, depth) in nodes
      requires var held := nodes[KeyAt(p, depth)].prefix;
               held.Some? ==> held.value.bits > p.bits || !Contains(held.value, Addr(p.family, p.addr))
      ensures depth < q.bits <= p.bits
    {
      assert StoredOk(q);
      InsideBits(p, q);
      KeyInside(p, q);
      ContainsWhenShorter(q, p);
    }

    /** Adds the missing nodes of p's path and stores p at its end. */
    method Insert(p: Block)
      requires Valid() && p.family == family
      modifies this, nodes.Values
      ensures Valid() && stored == old(stored) + {p}
      ensures fresh(nodes.Values - old(nodes.Values))
    {
      if root == null {
        AddRoot();
      }
      var node := root;
      var depth := 0;
      while depth < p.bits
        invariant 0 <= depth <= p.bits && Valid() && stored == old(stored)
        invariant OnPath(p, depth) && node == nodes[KeyAt(p, depth)]
        invariant fresh(nodes.Values - old(nodes.Values))
      {
        var bit := BitAt(p, depth);
        assert NodeOk(KeyAt(p, depth));
        if node.Child(bit) == null {
          AddChild(node, KeyAt(p, depth), bit);
        }
        node := node.Child(bit);
        depth := depth + 1;
      }
      StoreAt(node, p);
    }

    method AddRoot()
      requires Valid() && root == null
      modifies this
      ensures Valid() && stored == old(stored) && Root in nodes && root == nodes[Root]
      ensures fresh(nodes.Values - old(nodes.Values))
    {
      NothingWithoutRoot();
      root := new Node(Root);
      nodes := map[Root := root];
    }

    lemma NothingWithoutRoot()
      requires Valid() && Root !in nodes
      ensures nodes == map[] && stored == {}
    {
      forall k ensures k !in nodes { NoNodes(k); }
      forall b ensures b !in stored {
        NoNodes(KeyAt(b, b.bits));
        assert b in stored ==> StoredOk(b);
      }
    }

    lemma {:induction false} NoNodes(k: Key)
      requires Valid() && Root !in nodes
      ensures k !in nodes
      decreases k
    {
      if k.Down? {
        NoNodes(k.parent);
        assert k in nodes ==> NodeOk(k);
      }
    }

    method AddChild(node: Node, ghost k: Key, bit: bool)
      requires Valid() && k in nodes && nodes[k] == node && node.Child(bit) == null
      modifies this`nodes, node
      ensures Valid() && Down(k, bit) in nodes && node.Child(bit) == nodes[Down(k, bit)]
      ensures fresh(nodes.Values - old(nodes.Values))
      ensures forall l :: l in old(nodes) ==> l in nodes && nodes[l] == old(nodes)[l]
    {
      assert NodeOk(k);
      ghost var c := Down(k, bit);
      var child := new Node(c);
      if bit { node.right := child; } else { node.left := child; }
      nodes := nodes[c := child];
      forall l | l in nodes ensures NodeOk(l) {
        if l == c {
          assert forall below :: below in old(nodes) && below == Down(c, false) ==> old(NodeOk(below));
          assert forall below :: below in old(nodes) && below == Down(c, true) ==> old(NodeOk(below));
        } else {
          assert old(NodeOk(l));
        }
      }
      forall b | b in stored ensures StoredOk(b) { assert old(StoredOk(b)); }
    }

    method StoreAt(node: Node, p: Block)
      requires Valid() && p.family == family && OnPath(p, p.bits) && node == nodes[KeyAt(p, p.bits)]
      modifies this`stored, node`prefix
      ensures Valid() && stored == old(stored) + {p}
    {
      node.prefix := Some(p);
      stored := stored + {p};
      forall l | l in nodes ensures NodeOk(l) { assert old(NodeOk(l)); assert old(NodeOk(KeyAt(p, p.bits))); }
      forall b | b in stored ensures StoredOk(b) {
        if b != p {
          assert old(StoredOk(b)) && old(NodeOk(KeyAt(b, b.bits))) && old(NodeOk(KeyAt(p, p.bits)));
          if KeyAt(b, b.bits) == KeyAt(p, p.bits) { SameKeySameBlock(b, p); }
        }
      }
    }
  }

  lemma ContainsWhenShorter(q: Block, p: Block)
    ensures q.bits <= p.bits ==> (Contains(q, Addr(p.family, p.addr)) <==> Inside(p, q))
  {
    if q.bits <= p.bits { ContainsInside(q, p); }
  }

  function KeyDepth(k: Key): nat { if k == Root then 0 else KeyDepth(k.parent) + 1 }

  lemma {:induction false} DepthOfKey(b: Block, depth: nat)
    requires depth <= Width(b.family)
    ensures KeyDepth(KeyAt(b, depth)) == depth
  {
    if depth > 0 { DepthOfKey(b, depth - 1); }
  }

  lemma SameKeySameBlock(b: Block, q: Block)
    requires b.family == q.family && KeyAt(b, b.bits) == KeyAt(q, q.bits)
    ensures b == q
  {
    DepthOfKey(b, b.bits);
    DepthOfKey(q, q.bits);
    KeyInside(b, q);
    InsideBits(b, q);
  }

  method NormalizeWithTrie(f: Family, prefixes: seq<Block>) returns (normalized: seq<Block>)
    requires forall p :: p in prefixes ==> p.family == f
    ensures normalized == Outermost(prefixes)
  {
    if |prefixes| <= 1 {
      assert |prefixes| == 1 ==> Outermost(prefixes) == Outermost(prefixes[..0]) + prefixes;
      return prefixes;
    }
    var trie := new Trie(f);
    normalized := [];
    for i := 0 to |prefixes|
      invariant trie.Valid() && trie.family == f
      invariant fresh(trie) && fresh(trie.nodes.Values)
      invariant normalized == Outermost(prefixes[..i])
      invariant forall b :: b in trie.stored <==> b in normalized
    {
      var p := prefixes[i];
      assert prefixes[..i + 1] == prefixes[..i] + [p];
      assert prefixes[..i + 1][..i] == prefixes[..i];
      OutermostCovers(prefixes[..i], p);
      var covered := trie.Covered(p);
      if !covered {
        normalized := normalized + [p];
        trie.Insert(p);
      }
    }
    assert prefixes[..|prefixes|] == prefixes;
  }

  // ----- normalisation of an arbitrary list -----

  function MaskedSet(ps: seq<Prefix>): (s: set<Block>) {
    if ps == [] then {}
    else MaskedSet(ps[..|ps| - 1]) + if ps[|ps| - 1].IsValid() then {Masked(ps[|ps| - 1])} else {}
  }

  lemma {:induction false} MaskedSetHas(ps: seq<Prefix>, b: Block)
    ensures b in MaskedSet(ps) <==> exists p :: p in ps && p.IsValid() && Masked(p) == b
  {
    if ps != [] {
      assert ps == ps[..|ps| - 1] + [ps[|ps| - 1]];
      MaskedSetHas(ps[..|ps| - 1], b);
    }
  }

  lemma MaskedBlock(b: Block)
    ensures Masked(b) == b
  {
    MaskOfAligned(b.addr, b.HostBits());
  }

  lemma MaskedBlocks(bs: seq<Block>)
    ensures forall b :: b in MaskedSet(bs) <==> b in bs
  {
    forall b ensures b in MaskedSet(bs) <==> b in bs {
      MaskedSetHas(bs, b);
      MaskedBlock(b);
      if b in MaskedSet(bs) {
        var p: Block :| p in bs && Masked(p) == b;
        MaskedBlock(p);
      }
    }
  }

  /** A member no other member contains. */
  ghost predicate OutermostIn(b: Block, s: set<Block>) { b in s && forall q :: q in s && Inside(b, q) ==> q == b }

  /** Ordered, and exactly the blocks of the set that no other one contains. */
  ghost predicate NormalForm(out: seq<Block>, s: set<Block>) {
    Distinct(out) && SortedBy(out, NormLe) && forall b :: b in out <==> OutermostIn(b, s)
  }

  /** Splitting an ordered list by family does not change what survives. */
  lemma {:induction false} OutermostSplit(v4: seq<Block>, v6: seq<Block>)
    requires (forall b :: b in v4 ==> b.family == V4) && (forall b :: b in v6 ==> b.family == V6)
    ensures Outermost(v4 + v6) == Outermost(v4) + Outermost(v6)
  {
    if v6 == [] {
      assert v4 + v6 == v4;
    } else {
      var front, last := v6[..|v6| - 1], v6[|v6| - 1];
      OutermostSplit(v4, front);
      var all := v4 + v6;
      assert all[..|all| - 1] == v4 + front && all[|all| - 1] == last;
      assert CoveredBy(last, v4 + front) <==> CoveredBy(last, front);
      assert Outermost(v4) + Outermost(front) + [last] == Outermost(v4) + (Outermost(front) + [last]);
    }
  }

  method SetToSlice(unique: set<Block>) returns (a: array<Block>)
    ensures fresh(a) && Distinct(a[..]) && a.Length == |unique|
    ensures forall b :: b in a[..] <==> b in unique
  {
    var rest := unique;
    var result: seq<Block> := [];
    while rest != {}
      invariant Distinct(result) && |result| + |rest| == |unique|
      invariant forall b :: b in result ==> b !in rest
      invariant forall b :: b in unique <==> b in result || b in rest
      decreases |rest|
    {
      var b :| b in rest;
      result := result + [b];
      rest := rest - {b};
    }
    a := new Block[|result|](i requires 0 <= i < |result| => result[i]);
    assert a[..] == result;
  }

  method SplitFamilies(sorted: seq<Block>) returns (v4: seq<Block>, v6: seq<Block>)
    requires SortedBy(sorted, NormLe)
    ensures (forall b :: b in v4 ==> b.family == V4) && (forall b :: b in v6 ==> b.family == V6)
    ensures v4 + v6 == sorted
  {
    v4, v6 := [], [];
    for i := 0 to |sorted|
      invariant (forall b :: b in v4 ==> b.family == V4) && (forall b :: b in v6 ==> b.family == V6)
      invariant v4 + v6 == sorted[..i]
    {
      assert sorted[..i + 1] == sorted[..i] + [sorted[i]];
      assert v6 != [] ==> sorted[..i][|v4|] == v6[0] && NormLe(v6[0], sorted[i]);
      if sorted[i].family.V4? {
        v4 := v4 + [sorted[i]];
      } else {
        v6 := v6 + [sorted[i]];
      }
    }
    assert sorted[..|sorted|] == sorted;
  }

  const THRESHOLD := 100

  /** Few prefixes take the parent look-up, many the tries: the result is the same. */
  method NormalizeSorted(sorted: seq<Block>) returns (result: seq<Block>)
    requires Distinct(sorted) && SortedBy(sorted, NormLe)
    ensures result == Outermost(sorted)
  {
    if |sorted| <= THRESHOLD {
      result := NormalizeSimple(sorted);
      return;
    }
    var v4, v6 := SplitFamilies(sorted);
    OutermostSplit(v4, v6);
    var r4 := NormalizeWithTrie(V4, v4);
    var r6 := NormalizeWithTrie(V6, v6);
    result := r4 + r6;
  }

  method Normalize(prefixes: seq<Prefix>) returns (result: seq<Block>)
    ensures NormalForm(result, MaskedSet(prefixes))
  {
    var unique: set<Block> := {};
    for i := 0 to |prefixes|
      invariant unique == MaskedSet(prefixes[..i])
    {
      assert prefixes[..i + 1][..i] == prefixes[..i];
      if prefixes[i].IsValid() {
        unique := unique + {Masked(prefixes[i])};
      }
    }
    assert prefixes[..|prefixes|] == prefixes;
    var slice := SetToSlice(unique);
    ghost var before := slice[..];
    if slice.Length <= 1 {
      AloneIsNormal(before, unique);
      return slice[..];
    }
    SortSlice(slice, NormLe);
    SortedIsNormal(slice[..], before, unique);
    result := NormalizeSorted(slice[..]);
  }

  lemma AloneIsNormal(s: seq<Block>, unique: set<Block>)
    requires |s| <= 1 && forall b :: b in s <==> b in unique
    ensures NormalForm(s, unique)
  {}

  lemma SortedIsNormal(sorted: seq<Block>, before: seq<Block>, unique: set<Block>)
    requires SortedBy(sorted, NormLe) && multiset(sorted) == multiset(before)
    requires Distinct(before) && forall b :: b in before <==> b in unique
    ensures Distinct(sorted) && NormalForm(Outermost(sorted), unique)
  {
    SameElements(sorted, before);
    DistinctPermutation(sorted, before);
    OutermostMembers(sorted);
    forall b ensures b in Outermost(sorted) <==> OutermostIn(b, unique) {
      assert forall q :: q in sorted <==> q in unique;
    }
  }

  lemma TwiceCounted<T>(s: seq<T>, i: nat, j: nat)
    requires i < j < |s| && s[i] == s[j]
    ensures multiset(s)[s[i]] >= 2
  {
    assert s == s[..i] + [s[i]] + s[i + 1..j] + [s[j]] + s[j + 1..];
  }

  lemma DistinctPermutation<T>(s: seq<T>, t: seq<T>)
    requires multiset(s) == multiset(t) && Distinct(t)
    ensures Distinct(s)
  {
    forall x | x in t ensures multiset(t)[x] == 1 {
      var i :| 0 <= i < |t| && t[i] == x;
      assert t == t[..i] + [x] + t[i + 1..];
      assert x !in t[..i] && x !in t[i + 1..];
    }
    forall i, j | 0 <= i < j < |s| ensures s[i] != s[j] {
      assert s[i] in multiset(s);
      if s[i] == s[j] { TwiceCounted(s, i, j); }
    }
  }

  // ----- what a normal form keeps -----

  /** Every block of the set lies inside some outermost one. */
  lemma {:induction false} HasOutermost(out: seq<Block>, s: set<Block>, b: Block)
    requires NormalForm(out, s) && b in s
    ensures CoveredBy(b, out)
    decreases b.bits
  {
    if exists q :: q in s && Inside(b, q) && q != b {
      var q :| q in s && Inside(b, q) && q != b;
      InsideBits(b, q);
      HasOutermost(out, s, q);
      var r :| r in out && Inside(q, r);
      assert Inside(b, r);
    } else {
      assert OutermostIn(b, s) && Inside(b, b);
    }
  }

  ghost predicate SetCovers(s: set<Block>, a: Addr) { exists b :: b in s && Has(b, a) }

  ghost function SetSpace(s: set<Block>): (r: iset<Addr>) { iset a | SetCovers(s, a) }

  /** Same addresses, no nesting and no more elements. */
  lemma NormalFormFacts(out: seq<Block>, s: set<Block>)
    requires NormalForm(out, s)
    ensures Space(out) == SetSpace(s) && PairwiseApart(out) && |out| <= |s|
  {
    forall a ensures a in Space(out) <==> a in SetSpace(s) {
      if a in SetSpace(s) {
        var b :| b in s && Has(b, a);
        HasOutermost(out, s, b);
        var q :| q in out && Inside(b, q);
        assert Has(q, a);
      }
    }
    forall i, j | 0 <= i < |out| && 0 <= j < |out| && i != j ensures Apart(out[i], out[j]) {
      assert out[i] in out && out[j] in out && out[i] != out[j];
      if out[i].family == out[j].family {
        if out[i].bits <= out[j].bits { BlocksNest(out[j], out[i]); } else { BlocksNest(out[i], out[j]); }
      }
    }
    DistinctCount(out, s);
  }

  lemma {:induction false} DistinctCount<T>(t: seq<T>, s: set<T>)
    requires Distinct(t) && forall x :: x in t ==> x in s
    ensures |t| <= |s|
  {
    if t != [] {
      var last := t[|t| - 1];
      DistinctCount(t[..|t| - 1], s - {last});
    }
  }

  lemma InputSpaceIsSetSpace(ps: seq<Prefix>)
    ensures InputSpace(ps) == SetSpace(MaskedSet(ps))
  {
    forall a ensures a in InputSpace(ps) <==> a in SetSpace(MaskedSet(ps)) {
      if a in SetSpace(MaskedSet(ps)) {
        var b :| b in MaskedSet(ps) && Has(b, a);
        MaskedSetHas(ps, b);
      }
      if a in InputSpace(ps) {
        var p :| p in ps && p.IsValid() && Has(Masked(p), a);
        MaskedSetHas(ps, Masked(p));
      }
    }
  }

  /** The normal form does not depend on which algorithm produced it. */
  lemma NormalFormUnique(out: seq<Block>, out': seq<Block>, s: set<Block>)
    requires NormalForm(out, s) && NormalForm(out', s)
    ensures out == out'
  {
    SortedDistinctUnique(out, out');
  }

  lemma {:induction false} SortedDistinctUnique(s: seq<Block>, t: seq<Block>)
    requires Distinct(s) && Distinct(t) && SortedBy(s, NormLe) && SortedBy(t, NormLe)
    requires forall b :: b in s <==> b in t
    ensures s == t
  {
    if s == [] || t == [] {
      SomeElement(s);
      SomeElement(t);
    } else {
      assert s[0] in t && t[0] in s;
      var j :| 0 <= j < |t| && t[j] == s[0];
      var i :| 0 <= i < |s| && s[i] == t[0];
      assert NormLe(s[0], t[0]) && NormLe(t[0], s[0]);
      assert s == [s[0]] + s[1..] && t == [t[0]] + t[1..];
      assert s[0] !in s[1..] && t[0] !in t[1..];
      forall b ensures b in s[1..] <==> b in t[1..] {
        assert b in s[1..] <==> b in s && b != s[0];
        assert b in t[1..] <==> b in t && b != t[0];
      }
      SortedDistinctUnique(s[1..], t[1..]);
    }
  }
}
