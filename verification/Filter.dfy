/** Allow and deny lists over prefixes: intersection, hole punching, and what a
    whole filter run denotes. */
module Filter {
  import opened Blocks
  import opened CanonicalLists
  import opened Normalization
  import opened Sorting
  import opened Wrappers

  // ----- hole punching -----

  /** The two halves of a block. */
  function Children(b: Block): (halves: (Block, Block))
    requires b.bits < Width(b.family)
    ensures halves.0.family == halves.1.family == b.family
    ensures halves.0.bits == halves.1.bits == b.bits + 1
    ensures halves.0.addr == b.addr && Hi(halves.0) + 1 == halves.1.addr && Hi(halves.1) == Hi(b)
  {
    var h := b.HostBits() - 1;
    AlignedWeaken(b.addr, h + 1, h);
    AlignedStep(b.addr, h);
    BlockBound(b);
    (Prefix(b.family, b.addr, b.bits + 1), Prefix(b.family, b.addr + Pow2(h), b.bits + 1))
  }

  /** The siblings along the way down from a block to a hole inside it. */
  function Cut(current: Block, denied: Block): (r: seq<Block>)
    requires current.family == denied.family
    decreases denied.bits - current.bits
  {
    if current.bits >= denied.bits then []
    else
      var (left, right) := Children(current);
      if Contains(left, Addr(denied.family, denied.addr)) then [right] + Cut(left, denied)
      else [left] + Cut(right, denied)
  }

  function Subtraction(prefix: Block, denied: Block): (r: seq<Block>)
  {
    if prefix.family != denied.family then [prefix]
    else if Contains(denied, Addr(prefix.family, prefix.addr)) && denied.bits <= prefix.bits then []
    else if !Contains(prefix, Addr(denied.family, denied.addr)) then [prefix]
    else if denied.bits <= prefix.bits then []
    else Cut(prefix, denied)
  }

  method Subtract(prefix: Block, denied: Block) returns (result: seq<Block>)
    ensures result == Subtraction(prefix, denied)
  {
    if prefix.family != denied.family {
      return [prefix];
    }
    if Contains(denied, Addr(prefix.family, prefix.addr)) && denied.bits <= prefix.bits {
      return [];
    }
    if !Contains(prefix, Addr(denied.family, denied.addr)) {
      return [prefix];
    }
    if denied.bits <= prefix.bits {
      return [];
    }
    result := CutPath(prefix, denied);
  }

  /** The loop of the subtraction: keep one half, descend into the other. */
  method CutPath(prefix: Block, denied: Block) returns (result: seq<Block>)
    requires prefix.family == denied.family
    ensures result == Cut(prefix, denied)
  {
    result := [];
    var current := prefix;
    while current.bits < denied.bits
      invariant current.family == denied.family
      invariant result + Cut(current, denied) == Cut(prefix, denied)
      decreases denied.bits - current.bits
    {
      var (left, right) := Children(current);
      if Contains(left, Addr(denied.family, denied.addr)) {
        assert result + Cut(current, denied) == (result + [right]) + Cut(left, denied);
        result := result + [right];
        current := left;
      } else {
        assert result + Cut(current, denied) == (result + [left]) + Cut(right, denied);
        result := result + [left];
        current := right;
      }
    }
  }

  lemma CanonicalSingle(b: Block)
    ensures Canonical([b])
  {
    SpaceSingle(b);
    forall c: Block | Within(c, Space([b])) ensures InsideOne(c, [b]) {
      assert Addr(c.family, c.addr) in Space([b]) && Addr(c.family, Hi(c)) in Space([b]);
      assert b in [b];
    }
  }

  lemma CanonicalEmpty()
    ensures Canonical([])
  {
    forall c: Block ensures !Within(c, Space([])) { assert Addr(c.family, c.addr) !in Space([]); }
  }

  /** One half kept whole beside what is kept of the other half. */
  lemma AddSibling(b: Block, kept: Block, half: Block, rest: seq<Block>, hole: Block)
    requires b.bits < Width(b.family) && (Children(b) == (kept, half) || Children(b) == (half, kept))
    requires Inside(hole, half) && Canonical(rest) && Space(rest) == Space([half]) - Space([hole])
    ensures Canonical([kept] + rest) && Space([kept] + rest) == Space([b]) - Space([hole])
  {
    SiblingSpace(b, kept, half, rest, hole);
    SiblingApart(kept, half, rest, hole);
    forall c: Block | Within(c, Space([kept] + rest)) ensures InsideOne(c, [kept] + rest) {
      SiblingAbsorbs(b, kept, half, rest, hole, c);
    }
  }

  lemma SiblingSpace(b: Block, kept: Block, half: Block, rest: seq<Block>, hole: Block)
    requires b.bits < Width(b.family) && (Children(b) == (kept, half) || Children(b) == (half, kept))
    requires Inside(hole, half) && Space(rest) == Space([half]) - Space([hole])
    ensures Space([kept] + rest) == Space([b]) - Space([hole]) && Apart(kept, half)
  {
    SpaceConcat([kept], rest);
    SpaceSingle(kept);
    SpaceSingle(half);
    SpaceSingle(hole);
    SpaceSingle(b);
  }

  lemma SiblingApart(kept: Block, half: Block, rest: seq<Block>, hole: Block)
    requires Apart(kept, half) && PairwiseApart(rest) && Space(rest) == Space([half]) - Space([hole])
    ensures PairwiseApart([kept] + rest)
  {
    SpaceSingle(half);
    forall r | r in rest ensures Apart(kept, r) {
      SpaceHas(rest, r, Addr(r.family, r.addr));
      SpaceHas(rest, r, Addr(r.family, Hi(r)));
    }
    ConcatApart([kept], rest);
  }

  lemma SiblingAbsorbs(b: Block, kept: Block, half: Block, rest: seq<Block>, hole: Block, c: Block)
    requires b.bits < Width(b.family) && (Children(b) == (kept, half) || Children(b) == (half, kept))
    requires Inside(hole, half) && Canonical(rest) && Space(rest) == Space([half]) - Space([hole])
    requires Space([kept] + rest) == Space([b]) - Space([hole]) && Within(c, Space([kept] + rest))
    ensures InsideOne(c, [kept] + rest)
  {
    SpaceConcat([kept], rest);
    SpaceSingle(kept);
    SpaceSingle(half);
    SpaceSingle(hole);
    SpaceSingle(b);
    assert Addr(c.family, c.addr) in Space([b]);
    if Inside(c, kept) {
      assert kept in [kept] + rest;
    } else {
      AvoidsHole(c, b, kept, half, hole, Space([kept] + rest));
      assert Within(c, Space(rest)) by {
        forall v: nat | c.addr <= v <= Hi(c) ensures Addr(c.family, v) in Space(rest) {
          assert Addr(c.family, v) in Space([kept] + rest);
        }
      }
      var r :| r in rest && Inside(c, r);
      assert r in [kept] + rest;
    }
  }

  /** A block that avoids the hole and is not inside the kept half misses it. */
  lemma AvoidsHole(c: Block, b: Block, kept: Block, half: Block, hole: Block, s: iset<Addr>)
    requires b.bits < Width(b.family) && (Children(b) == (kept, half) || Children(b) == (half, kept))
    requires Inside(hole, half) && Within(c, s) && Addr(hole.family, hole.addr) !in s
    requires c.family == b.family && !Inside(c, kept)
    ensures Apart(c, kept)
  {
    if c.bits >= kept.bits {
      BlocksNest(c, kept);
    } else {
      BlocksNest(kept, c);
      BlocksNest(b, c);
      assert Inside(b, c) ==> Addr(c.family, hole.addr) in s;
    }
  }

  /** Hole punching is exact, and its fragments are the fewest possible. */
  lemma {:induction false} CutExact(current: Block, denied: Block)
    requires Inside(denied, current)
    ensures Canonical(Cut(current, denied))
    ensures Space(Cut(current, denied)) == Space([current]) - Space([denied])
    decreases denied.bits - current.bits
  {
    InsideBits(denied, current);
    if current.bits >= denied.bits {
      CanonicalEmpty();
      assert Space([]) == iset{};
    } else {
      var (left, right) := Children(current);
      BlocksNest(denied, left);
      BlocksNest(denied, right);
      ContainsInside(left, denied);
      if Contains(left, Addr(denied.family, denied.addr)) {
        CutExact(left, denied);
        AddSibling(current, right, left, Cut(left, denied), denied);
      } else {
        CutExact(right, denied);
        AddSibling(current, left, right, Cut(right, denied), denied);
      }
    }
  }

  lemma SubtractionExact(prefix: Block, denied: Block)
    ensures Canonical(Subtraction(prefix, denied))
    ensures Space(Subtraction(prefix, denied)) == Space([prefix]) - Space([denied])
    ensures Subtraction(prefix, denied) != [prefix] <==> !Apart(prefix, denied)
  {
    SpaceSingle(prefix);
    SpaceSingle(denied);
    CanonicalSingle(prefix);
    CanonicalEmpty();
    if prefix.family == denied.family {
      if denied.bits <= prefix.bits {
        BlocksNest(prefix, denied);
        ContainsInside(denied, prefix);
      } else {
        BlocksNest(denied, prefix);
        ContainsInside(prefix, denied);
        if Inside(denied, prefix) {
          CutExact(prefix, denied);
          assert Addr(denied.family, denied.addr) !in Space(Cut(prefix, denied));
          assert Addr(denied.family, denied.addr) in Space([prefix]);
        }
      }
    }
  }

  // ----- punching a hole out of every element of a list -----

  function PunchEach(bs: seq<Block>, denied: Block): (r: seq<Block>)
  {
    if bs == [] then [] else PunchEach(bs[..|bs| - 1], denied) + Subtraction(bs[|bs| - 1], denied)
  }

  function PunchAll(bs: seq<Block>, denied: seq<Block>): (r: seq<Block>)
  {
    if denied == [] then bs else PunchEach(PunchAll(bs, denied[..|denied| - 1]), denied[|denied| - 1])
  }

  /** No block of an element's remaining addresses straddles two of its pieces. */
  ghost predicate Absorbing(bs: seq<Block>, pieces: seq<Block>) {
    forall c: Block :: InsideOne(c, bs) && Within(c, Space(pieces)) ==> InsideOne(c, pieces)
  }

  lemma {:induction false} PunchEachExact(bs: seq<Block>, denied: Block)
    requires PairwiseApart(bs)
    ensures Space(PunchEach(bs, denied)) == Space(bs) - Space([denied])
    ensures PairwiseApart(PunchEach(bs, denied))
    ensures forall b :: b in PunchEach(bs, denied) ==> InsideOne(b, bs)
    ensures Absorbing(bs, PunchEach(bs, denied))
  {
    if bs == [] {
      assert Space([]) == iset{};
    } else {
      var front, last := bs[..|bs| - 1], bs[|bs| - 1];
      assert bs == front + [last];
      PunchEachExact(front, denied);
      PunchLast(front, last, PunchEach(front, denied), denied);
    }
  }

  lemma PunchLast(front: seq<Block>, last: Block, done: seq<Block>, denied: Block)
    requires PairwiseApart(front + [last])
    requires Space(done) == Space(front) - Space([denied]) && PairwiseApart(done)
    requires forall b :: b in done ==> InsideOne(b, front)
    requires Absorbing(front, done)
    ensures Space(done + Subtraction(last, denied)) == Space(front + [last]) - Space([denied])
    ensures PairwiseApart(done + Subtraction(last, denied))
    ensures forall b :: b in done + Subtraction(last, denied) ==> InsideOne(b, front + [last])
    ensures Absorbing(front + [last], done + Subtraction(last, denied))
  {
    var bs, pieces := front + [last], Subtraction(last, denied);
    SubtractionExact(last, denied);
    SpaceConcat(front, [last]);
    SpaceConcat(done, pieces);
    SpaceSingle(last);
    forall x | x in front ensures Apart(x, last) {
      var i :| 0 <= i < |front| && front[i] == x;
      assert bs[i] == x && bs[|front|] == last;
    }
    forall b | b in pieces ensures Inside(b, last) { PieceInside(pieces, b, last); }
    forall b | b in done + pieces ensures InsideOne(b, bs) {
      if b in done {
        var x :| x in front && Inside(b, x);
        assert x in bs;
      } else {
        assert last in bs;
      }
    }
    forall b, p | b in done && p in pieces ensures Apart(b, p) {
      var x :| x in front && Inside(b, x);
    }
    ConcatApart(done, pieces);
    forall c: Block | InsideOne(c, bs) && Within(c, Space(done + pieces)) ensures InsideOne(c, done + pieces) {
      var x :| x in bs && Inside(c, x);
      if x == last {
        assert Within(c, Space(pieces)) by { KeepPart(c, last, front, done, pieces); }
        var p :| p in pieces && Inside(c, p);
        assert p in done + pieces;
      } else {
        assert Within(c, Space(done)) by {
          forall v: nat | c.addr <= v <= Hi(c) ensures Addr(c.family, v) in Space(done) {
            assert Addr(c.family, v) !in Space([last]);
          }
        }
        assert InsideOne(c, front);
        var p :| p in done && Inside(c, p);
        assert p in done + pieces;
      }
    }
  }

  lemma PieceInside(pieces: seq<Block>, b: Block, last: Block)
    requires b in pieces && Space(pieces) <= Space([last])
    ensures Inside(b, last)
  {
    SpaceSingle(last);
    SpaceHas(pieces, b, Addr(b.family, b.addr));
    SpaceHas(pieces, b, Addr(b.family, Hi(b)));
  }

  lemma KeepPart(c: Block, last: Block, front: seq<Block>, done: seq<Block>, pieces: seq<Block>)
    requires Inside(c, last) && Within(c, Space(done + pieces)) && Space(done) <= Space(front)
    requires forall x :: x in front ==> Apart(x, last)
    ensures Within(c, Space(pieces))
  {
    SpaceConcat(done, pieces);
    forall v: nat | c.addr <= v <= Hi(c) ensures Addr(c.family, v) in Space(pieces) {
      var a := Addr(c.family, v);
      assert a in Space(done + pieces);
      assert Has(last, a);
      assert !Covers(front, a);
    }
  }

  /** Subtracting a list of holes leaves exactly the other addresses. */
  lemma {:induction false} PunchAllExact(bs: seq<Block>, denied: seq<Block>)
    requires PairwiseApart(bs)
    ensures Space(PunchAll(bs, denied)) == Space(bs) - Space(denied)
    ensures PairwiseApart(PunchAll(bs, denied))
    ensures forall b :: b in PunchAll(bs, denied) ==> InsideOne(b, bs)
    ensures Canonical(bs) ==> Canonical(PunchAll(bs, denied))
  {
    if denied == [] {
      assert Space([]) == iset{};
      forall b | b in bs ensures InsideOne(b, bs) { assert Inside(b, b); }
    } else {
      var front, last := denied[..|denied| - 1], denied[|denied| - 1];
      assert denied == front + [last];
      var before := PunchAll(bs, front);
      PunchAllExact(bs, front);
      PunchEachExact(before, last);
      SpaceConcat(front, [last]);
      var after := PunchAll(bs, denied);
      forall b | b in after ensures InsideOne(b, bs) {
        var x :| x in before && Inside(b, x);
        var y :| y in bs && Inside(x, y);
        assert Inside(b, y);
      }
      if Canonical(bs) {
        forall c: Block | Within(c, Space(after)) ensures InsideOne(c, after) {
          assert Within(c, Space(before));
        }
      }
    }
  }

  // ----- intersection -----

  /** What the intersection records for one input and one allow prefix. */
  function Permitted(prefix: Block, permitted: Block): (r: seq<Block>)
  {
    if prefix.family != permitted.family then []
    else if Contains(prefix, Addr(permitted.family, permitted.addr)) then [permitted]
    else if Contains(permitted, Addr(prefix.family, prefix.addr)) then [prefix]
    else []
  }

  /** The case the intersection gets wrong: the allow prefix is wider than the
      input prefix but starts at the same address, so the whole of it is kept. */
  predicate Overshoots(prefix: Block, permitted: Block) {
    prefix.family == permitted.family && permitted.addr == prefix.addr && permitted.bits < prefix.bits
  }

  lemma PermittedSpace(p: Block, q: Block)
    ensures Space(Permitted(p, q)) == if Overshoots(p, q) then Space([q]) else Space([p]) * Space([q])
    ensures !Overshoots(p, q) ==> forall b :: b in Permitted(p, q) ==> Inside(b, p)
  {
    SpaceSingle(p);
    SpaceSingle(q);
    assert Space([]) == iset{};
    if p.family == q.family {
      if p.bits <= q.bits {
        BlocksNest(q, p);
        ContainsInside(p, q);
      } else {
        BlocksNest(p, q);
        ContainsInside(q, p);
      }
    }
  }

  ghost predicate OvershootCovers(input: seq<Block>, allow: seq<Block>, a: Addr) {
    exists p, q :: p in input && q in allow && Overshoots(p, q) && Has(q, a)
  }

  /** Addresses the same-start case may add beyond the true intersection. */
  ghost function Overshoot(input: seq<Block>, allow: seq<Block>): (s: iset<Addr>) {
    iset a | OvershootCovers(input, allow, a)
  }

  function PermittedRow(prefix: Block, allow: seq<Block>): (r: seq<Block>)
  {
    if allow == [] then [] else PermittedRow(prefix, allow[..|allow| - 1]) + Permitted(prefix, allow[|allow| - 1])
  }

  function PermittedPairs(input: seq<Block>, allow: seq<Block>): (r: seq<Block>)
  {
    if input == [] then [] else PermittedPairs(input[..|input| - 1], allow) + PermittedRow(input[|input| - 1], allow)
  }

  lemma OvershootSnoc(p: Block, front: seq<Block>, last: Block)
    ensures Overshoot([p], front + [last]) ==
            Overshoot([p], front) + if Overshoots(p, last) then Space([last]) else iset{}
  {}

  lemma {:induction false} RowSpace(p: Block, allow: seq<Block>)
    ensures Space(PermittedRow(p, allow)) == Space([p]) * Space(allow) + Overshoot([p], allow)
  {
    if allow == [] {
      assert Space(allow) == iset{} && Overshoot([p], allow) == iset{};
    } else {
      var front, last := allow[..|allow| - 1], allow[|allow| - 1];
      assert allow == front + [last];
      RowSpace(p, front);
      PermittedSpace(p, last);
      SpaceConcat(front, [last]);
      SpaceConcat(PermittedRow(p, front), Permitted(p, last));
      OvershootSnoc(p, front, last);
    }
  }

  lemma {:induction false} RowInside(p: Block, allow: seq<Block>)
    requires forall q :: q in allow ==> !Overshoots(p, q)
    ensures forall b :: b in PermittedRow(p, allow) ==> Inside(b, p)
  {
    if allow != [] {
      var front, last := allow[..|allow| - 1], allow[|allow| - 1];
      assert allow == front + [last];
      RowInside(p, front);
      PermittedSpace(p, last);
    }
  }

  lemma OvershootSplit(front: seq<Block>, last: Block, allow: seq<Block>)
    ensures Overshoot(front + [last], allow) == Overshoot(front, allow) + Overshoot([last], allow)
  {}

  lemma {:induction false} PairsSpace(input: seq<Block>, allow: seq<Block>)
    ensures Space(PermittedPairs(input, allow)) == Space(input) * Space(allow) + Overshoot(input, allow)
  {
    if input == [] {
      assert Space(input) == iset{} && Overshoot(input, allow) == iset{};
    } else {
      var front, last := input[..|input| - 1], input[|input| - 1];
      assert input == front + [last];
      PairsSpace(front, allow);
      RowSpace(last, allow);
      SpaceConcat(front, [last]);
      SpaceConcat(PermittedPairs(front, allow), PermittedRow(last, allow));
      OvershootSplit(front, last, allow);
    }
  }

  /** No allow prefix is wider than an input prefix starting at the same address. */
  predicate NoOvershoot(input: seq<Block>, allow: seq<Block>) {
    forall p, q :: p in input && q in allow ==> !Overshoots(p, q)
  }

  lemma {:induction false} PairsInside(input: seq<Block>, allow: seq<Block>, b: Block)
    requires NoOvershoot(input, allow) && b in PermittedPairs(input, allow)
    ensures InsideOne(b, input)
  {
    var front, last := input[..|input| - 1], input[|input| - 1];
    assert input == front + [last];
    if b in PermittedPairs(front, allow) {
      PairsInside(front, allow, b);
      var x :| x in front && Inside(b, x);
      assert x in input;
    } else {
      RowInside(last, allow);
      assert last in input;
    }
  }

  /** The prefixes left before any deny entry is applied. */
  ghost predicate AllowedSpec(input: seq<Prefix>, allow: seq<Prefix>, nin: seq<Block>, nal: seq<Block>,
                              allowed: seq<Block>) {
    NormalForm(nin, MaskedSet(input)) && NormalForm(nal, MaskedSet(allow)) &&
    if nal == [] then allowed == nin else NormalForm(allowed, MaskedSet(PermittedPairs(nin, nal)))
  }

  method Intersect(input: seq<Prefix>, allow: seq<Prefix>) returns (result: seq<Block>)
    ensures exists nin, nal :: AllowedSpec(input, allow, nin, nal, result)
  {
    var nin := Normalize(input);
    var nal := Normalize(allow);
    if |nal| == 0 {
      assert AllowedSpec(input, allow, nin, nal, nin);
      return nin;
    }
    var pairs := PermittedList(nin, nal);
    result := Normalize(pairs);
    assert AllowedSpec(input, allow, nin, nal, result);
  }

  method PermittedList(input: seq<Block>, allow: seq<Block>) returns (result: seq<Block>)
    ensures result == PermittedPairs(input, allow)
  {
    result := [];
    for i := 0 to |input|
      invariant result == PermittedPairs(input[..i], allow)
    {
      ghost var before := result;
      assert input[..i + 1][..i] == input[..i];
      for j := 0 to |allow|
        invariant result == before + PermittedRow(input[i], allow[..j])
      {
        assert allow[..j + 1][..j] == allow[..j];
        result := result + Permitted(input[i], allow[j]);
      }
      assert allow[..|allow|] == allow;
    }
    assert input[..|input|] == input;
  }

  // ----- the whole filter -----

  datatype Lists = Lists(allow: seq<Prefix>, deny: seq<Prefix>)

  const DEFAULT_MAX_PREFIXES := 65536

  function Limit(maxPrefixes: int): nat { if maxPrefixes <= 0 then DEFAULT_MAX_PREFIXES else maxPrefixes }

  /** No list grows past the limit, before, between or after the deny entries. */
  ghost predicate AllWithin(allowed: seq<Block>, denied: seq<Block>, limit: nat) {
    |PunchAll(allowed, denied)| <= limit && (denied == [] || AllWithin(allowed, denied[..|denied| - 1], limit))
  }

  lemma {:induction false} AllWithinPrefix(allowed: seq<Block>, denied: seq<Block>, k: nat, limit: nat)
    requires k <= |denied| && AllWithin(allowed, denied, limit)
    ensures AllWithin(allowed, denied[..k], limit)
    decreases |denied|
  {
    if k < |denied| {
      AllWithinPrefix(allowed, denied[..|denied| - 1], k, limit);
      assert denied[..|denied| - 1][..k] == denied[..k];
    } else {
      assert denied[..k] == denied;
    }
  }

  /** Everything a run of the filter depends on, tied to its outcome. */
  ghost predicate ApplySpec(input: seq<Prefix>, lists: Lists, limit: nat, r: Result<seq<Block>>,
                            nin: seq<Block>, nal: seq<Block>, allowed: seq<Block>, denied: seq<Block>) {
    AllowedSpec(input, lists.allow, nin, nal, allowed) && NormalForm(denied, MaskedSet(lists.deny)) &&
    (r.Ok? <==> AllWithin(allowed, denied, limit)) &&
    (r.Ok? ==> NormalForm(r.value, MaskedSet(PunchAll(allowed, denied))))
  }

  /** After some number of the deny entries the list is too long. */
  predicate TooLongAfter(allowed: seq<Block>, denied: seq<Block>, k: int, limit: nat) {
    0 <= k <= |denied| && |PunchAll(allowed, denied[..k])| > limit
  }

  lemma {:induction false} WithinUpTo(allowed: seq<Block>, denied: seq<Block>, limit: nat, n: nat)
    requires n <= |denied| && forall k :: 0 <= k <= n ==> !TooLongAfter(allowed, denied, k, limit)
    ensures AllWithin(allowed, denied[..n], limit)
  {
    assert !TooLongAfter(allowed, denied, n, limit);
    if n > 0 {
      WithinUpTo(allowed, denied, limit, n - 1);
      assert denied[..n][..n - 1] == denied[..n - 1];
    }
  }

  /** A run fails exactly when the list is too long after some number of the deny
      entries, none of them included. */
  lemma ApplyFailsIff(input: seq<Prefix>, lists: Lists, maxPrefixes: int, r: Result<seq<Block>>,
                      nin: seq<Block>, nal: seq<Block>, allowed: seq<Block>, denied: seq<Block>)
    requires ApplySpec(input, lists, Limit(maxPrefixes), r, nin, nal, allowed, denied)
    ensures var limit := if maxPrefixes > 0 then maxPrefixes else 65536;
            r.Err? <==> exists k :: TooLongAfter(allowed, denied, k, limit)
  {
    var limit := Limit(maxPrefixes);
    if k :| TooLongAfter(allowed, denied, k, limit) {
      if AllWithin(allowed, denied, limit) { AllWithinPrefix(allowed, denied, k, limit); }
    } else {
      WithinUpTo(allowed, denied, limit, |denied|);
      assert denied[..|denied|] == denied;
    }
  }

  lemma {:induction false} PunchEachGrows(bs: seq<Block>, k: nat, denied: Block)
    requires k <= |bs|
    ensures |PunchEach(bs[..k], denied)| <= |PunchEach(bs, denied)|
    decreases |bs|
  {
    if k < |bs| {
      PunchEachGrows(bs[..|bs| - 1], k, denied);
      assert bs[..|bs| - 1][..k] == bs[..k];
    } else {
      assert bs[..k] == bs;
    }
  }

  method Apply(input: seq<Prefix>, lists: Lists, maxPrefixes: int) returns (r: Result<seq<Block>>)
    ensures exists nin, nal, allowed, denied ::
              ApplySpec(input, lists, Limit(maxPrefixes), r, nin, nal, allowed, denied)
    ensures r.Ok? ==> PairwiseApart(r.value) && |r.value| <= Limit(maxPrefixes)
    ensures r.Ok? ==> forall a :: a in InputSpace(lists.deny) ==> !Covers(r.value, a)
  {
    var limit := Limit(maxPrefixes);
    var allowed := Intersect(input, lists.allow);
    ghost var nin, nal :| AllowedSpec(input, lists.allow, nin, nal, allowed);
    var denied := Normalize(lists.deny);
    var punched := PunchDenied(allowed, denied, limit);
    if punched.Err? {
      r := Err;
    } else {
      var value := Normalize(punched.value);
      r := Ok(value);
    }
    assert ApplySpec(input, lists, limit, r, nin, nal, allowed, denied);
    if r.Ok? { ApplyDenotes(input, lists, limit, r.value, nin, nal, allowed, denied); }
  }

  /** The deny entries one after the other, never more prefixes than the limit. */
  method PunchDenied(start: seq<Block>, denied: seq<Block>, limit: nat) returns (r: Result<seq<Block>>)
    ensures r == if AllWithin(start, denied, limit) then Ok(PunchAll(start, denied)) else Err
  {
    if |start| > limit {
      if AllWithin(start, denied, limit) { AllWithinPrefix(start, denied, 0, limit); }
      return Err;
    }
    var allowed := start;
    for k := 0 to |denied|
      invariant allowed == PunchAll(start, denied[..k]) && AllWithin(start, denied[..k], limit)
    {
      assert denied[..k + 1][..k] == denied[..k];
      var next, ok := PunchWithin(allowed, denied[k], limit);
      if !ok {
        if AllWithin(start, denied, limit) { AllWithinPrefix(start, denied, k + 1, limit); }
        return Err;
      }
      allowed := next;
    }
    assert denied[..|denied|] == denied;
    r := Ok(allowed);
  }

  /** One deny entry applied to every prefix, giving up once past the limit. */
  method PunchWithin(allowed: seq<Block>, denied: Block, limit: nat) returns (next: seq<Block>, ok: bool)
    ensures ok <==> |PunchEach(allowed, denied)| <= limit
    ensures ok ==> next == PunchEach(allowed, denied)
  {
    next := [];
    for i := 0 to |allowed|
      invariant next == PunchEach(allowed[..i], denied) && |next| <= limit
    {
      assert allowed[..i + 1][..i] == allowed[..i];
      var fragments := Subtract(allowed[i], denied);
      PunchEachGrows(allowed, i + 1, denied);
      if |next| + |fragments| > limit {
        return next, false;
      }
      next := next + fragments;
    }
    assert allowed[..|allowed|] == allowed;
    ok := true;
  }

  // ----- what a successful run denotes -----

  /** No allow list lets everything through. */
  ghost function Allowing(s: iset<Addr>, nal: seq<Block>): (r: iset<Addr>) {
    if nal == [] then s else s * Space(nal)
  }

  lemma SameSpace(s: set<Block>, bs: seq<Block>)
    requires forall b :: b in s <==> b in bs
    ensures SetSpace(s) == Space(bs)
  {}

  lemma SpaceOfMasked(bs: seq<Block>)
    ensures SetSpace(MaskedSet(bs)) == Space(bs)
  {
    MaskedBlocks(bs);
    SameSpace(MaskedSet(bs), bs);
  }

  lemma MaskedSetSize(ps: seq<Prefix>)
    ensures |MaskedSet(ps)| <= |ps|
  {}

  lemma AllowedSpace(input: seq<Prefix>, allow: seq<Prefix>, nin: seq<Block>, nal: seq<Block>, allowed: seq<Block>)
    requires AllowedSpec(input, allow, nin, nal, allowed)
    ensures Space(nin) == InputSpace(input) && Space(nal) == InputSpace(allow) && PairwiseApart(allowed)
    ensures Space(allowed) == Allowing(Space(nin), nal) + Overshoot(nin, nal)
  {
    NormalFormFacts(nin, MaskedSet(input));
    NormalFormFacts(nal, MaskedSet(allow));
    InputSpaceIsSetSpace(input);
    InputSpaceIsSetSpace(allow);
    if nal == [] {
      assert Overshoot(nin, nal) == iset{};
    } else {
      var pairs := PermittedPairs(nin, nal);
      NormalFormFacts(allowed, MaskedSet(pairs));
      PairsSpace(nin, nal);
      SpaceOfMasked(pairs);
    }
  }

  /** A successful run: an antichain within the limit, exactly the intersection
      and the overshoot without the denied addresses. Denied addresses never survive. */
  lemma ApplyDenotes(input: seq<Prefix>, lists: Lists, limit: nat, out: seq<Block>,
                     nin: seq<Block>, nal: seq<Block>, allowed: seq<Block>, denied: seq<Block>)
    requires ApplySpec(input, lists, limit, Ok(out), nin, nal, allowed, denied)
    ensures Space(out) == Allowing(InputSpace(input), nal) + Overshoot(nin, nal) - InputSpace(lists.deny)
    ensures PairwiseApart(out) && |out| <= limit
    ensures forall a :: a in InputSpace(lists.deny) ==> !Covers(out, a)
  {
    AllowedSpace(input, lists.allow, nin, nal, allowed);
    NormalFormFacts(denied, MaskedSet(lists.deny));
    InputSpaceIsSetSpace(lists.deny);
    PunchAllExact(allowed, denied);
    var punched := PunchAll(allowed, denied);
    NormalFormFacts(out, MaskedSet(punched));
    SpaceOfMasked(punched);
    MaskedSetSize(punched);
    assert Space(out) == Space(allowed) - Space(denied);
    forall a | a in InputSpace(lists.deny) ensures !Covers(out, a) { assert a !in Space(out); }
  }

  /** Every allow prefix that starts where a longer input prefix starts adds only
      addresses that are routed or denied anyway. */
  ghost predicate OvershootHarmless(nin: seq<Block>, nal: seq<Block>, s: iset<Addr>) {
    forall p, q :: p in nin && q in nal && Overshoots(p, q) ==> Within(q, s)
  }

  lemma HarmlessIff(nin: seq<Block>, nal: seq<Block>, s: iset<Addr>)
    ensures OvershootHarmless(nin, nal, s) <==> Overshoot(nin, nal) <= s
  {}

  lemma OvershootIsAllowed(nin: seq<Block>, nal: seq<Block>)
    ensures Overshoot(nin, nal) <= Space(nal)
    ensures nal == [] ==> Overshoot(nin, nal) == iset{}
  {}

  /** The filter is exact if and only if the same-start case is harmless. */
  lemma ApplyExactIff(input: seq<Prefix>, lists: Lists, limit: nat, out: seq<Block>,
                      nin: seq<Block>, nal: seq<Block>, allowed: seq<Block>, denied: seq<Block>)
    requires ApplySpec(input, lists, limit, Ok(out), nin, nal, allowed, denied)
    ensures Space(out) == Allowing(InputSpace(input), nal) - InputSpace(lists.deny)
            <==> OvershootHarmless(nin, nal, InputSpace(input) + InputSpace(lists.deny))
  {
    ApplyDenotes(input, lists, limit, out, nin, nal, allowed, denied);
    HarmlessIff(nin, nal, InputSpace(input) + InputSpace(lists.deny));
    OvershootIsAllowed(nin, nal);
    ExactSets(InputSpace(input), Allowing(InputSpace(input), nal), Overshoot(nin, nal), InputSpace(lists.deny),
      Space(nal), nal == []);
  }

  lemma ExactSets(input: iset<Addr>, kept: iset<Addr>, over: iset<Addr>, deny: iset<Addr>, allow: iset<Addr>,
                  open: bool)
    requires kept == (if open then input else input * allow) && over <= allow && (open ==> over == iset{})
    ensures kept + over - deny == kept - deny <==> over <= input + deny
  {
    if kept + over - deny == kept - deny {
      forall a | a in over ensures a in input + deny { assert a in kept + over - deny || a in deny; }
    }
  }

  /** 0.0.0.0/24 filtered by an allow list of 0.0.0.0/8 keeps the whole /8. */
  lemma OvershootHappens()
    ensures var p: Block, q: Block := Masked(Prefix(V4, 0, 24)), Masked(Prefix(V4, 0, 8));
            Overshoots(p, q) && Permitted(p, q) == [q] &&
            Addr(V4, 256) in Space(Permitted(p, q)) && Addr(V4, 256) !in Space([p])
  {
    var p: Block, q: Block := Masked(Prefix(V4, 0, 24)), Masked(Prefix(V4, 0, 8));
    MaskAligned(0, 24);
    MaskAligned(0, 8);
    Pow2Monotone(9, 24);
    assert Pow2(8) == 256 by { assert Pow2(4) == 16; }
    assert Has(p, Addr(V4, 0)) && Has(q, Addr(V4, 256));
    SpaceSingle(p);
    SpaceSingle(q);
  }

  lemma AllowedInsideInput(input: seq<Prefix>, allow: seq<Prefix>, nin: seq<Block>, nal: seq<Block>,
                           allowed: seq<Block>)
    requires AllowedSpec(input, allow, nin, nal, allowed)
    requires NoOvershoot(nin, nal)
    ensures forall x :: x in allowed ==> InsideOne(x, nin)
  {
    if nal == [] {
      forall x | x in allowed ensures InsideOne(x, nin) { assert Inside(x, x); }
    } else {
      MaskedBlocks(PermittedPairs(nin, nal));
      forall x | x in allowed ensures InsideOne(x, nin) {
        assert OutermostIn(x, MaskedSet(PermittedPairs(nin, nal)));
        PairsInside(nin, nal, x);
      }
    }
  }

  /** Without overshoot every result prefix lies inside one input route. */
  lemma ApplyKeepsRoutes(input: seq<Prefix>, lists: Lists, limit: nat, out: seq<Block>,
                         nin: seq<Block>, nal: seq<Block>, allowed: seq<Block>, denied: seq<Block>, b: Block)
    requires ApplySpec(input, lists, limit, Ok(out), nin, nal, allowed, denied) && b in out
    requires NoOvershoot(nin, nal)
    ensures exists p :: p in input && p.IsValid() && Inside(b, Masked(p))
  {
    AllowedInsideInput(input, lists.allow, nin, nal, allowed);
    AllowedSpace(input, lists.allow, nin, nal, allowed);
    PunchAllExact(allowed, denied);
    MaskedBlocks(PunchAll(allowed, denied));
    var x :| x in allowed && Inside(b, x);
    var y :| y in nin && Inside(x, y);
    MaskedSetHas(input, y);
    var p :| p in input && p.IsValid() && Masked(p) == y;
    assert Inside(b, Masked(p));
  }

  // ----- choosing the route a result prefix came from -----

  datatype Route = Route(prefix: Prefix, modeId: int, category: string, service: string)

  predicate Matches(needle: Block, r: Route) {
    r.prefix.IsValid() && Contains(Masked(r.prefix), Addr(needle.family, needle.addr)) && needle.bits >= r.prefix.bits
  }

  predicate BeatsEarlier(needle: Block, routes: seq<Route>, i: nat)
    requires i < |routes|
  {
    forall j :: 0 <= j < i && Matches(needle, routes[j]) ==> routes[j].prefix.bits < routes[i].prefix.bits
  }

  /** The first of the longest routes containing the whole needle, if any route does. */
  method FindBestMatch(needle: Block, routes: seq<Route>) returns (best: Option<Route>)
    ensures best.Some? <==> exists r :: r in routes && Matches(needle, r)
    ensures best.Some? ==> best.value in routes && best.value.prefix.IsValid()
    ensures best.Some? ==> Inside(needle, Masked(best.value.prefix))
    ensures best.Some? ==> forall r :: r in routes && Matches(needle, r) ==> r.prefix.bits <= best.value.prefix.bits
    ensures best.Some? ==> exists i :: 0 <= i < |routes| && routes[i] == best.value && BeatsEarlier(needle, routes, i)
  {
    best := None;
    ghost var at := 0;
    for i := 0 to |routes|
      invariant best == None ==> forall j :: 0 <= j < i ==> !Matches(needle, routes[j])
      invariant best.Some? ==> 0 <= at < i && routes[at] == best.value && Matches(needle, best.value)
      invariant best.Some? ==> forall j :: 0 <= j < i && Matches(needle, routes[j]) ==>
                routes[j].prefix.bits <= best.value.prefix.bits
      invariant best.Some? ==> BeatsEarlier(needle, routes, at)
    {
      var r := routes[i];
      if !r.prefix.IsValid() || !Contains(Masked(r.prefix), Addr(needle.family, needle.addr)) ||
        needle.bits < r.prefix.bits {
        continue;
      }
      if best == None || r.prefix.bits > best.value.prefix.bits {
        best := Some(r);
        at := i;
      }
    }
    if best.Some? { ContainsInside(Masked(best.value.prefix), needle); }
  }

  /** A result prefix that lies inside an input route is always attributed. */
  lemma InsideMatches(needle: Block, r: Route)
    requires r.prefix.IsValid() && Inside(needle, Masked(r.prefix))
    ensures Matches(needle, r)
  {
    InsideBits(needle, Masked(r.prefix));
    ContainsInside(Masked(r.prefix), needle);
  }

  function PrefixesOf(routes: seq<Route>): seq<Prefix> {
    seq(|routes|, i requires 0 <= i < |routes| => routes[i].prefix)
  }

  /** Filtering a user's routes, with no allow prefix overshooting, leaves only
      prefixes that some route accounts for: the best match never fails. */
  lemma FilteredIsMatched(routes: seq<Route>, lists: Lists, limit: nat, out: seq<Block>,
                          nin: seq<Block>, nal: seq<Block>, allowed: seq<Block>, denied: seq<Block>, b: Block)
    requires ApplySpec(PrefixesOf(routes), lists, limit, Ok(out), nin, nal, allowed, denied) && b in out
    requires NoOvershoot(nin, nal)
    ensures exists r :: r in routes && Matches(b, r)
  {
    ApplyKeepsRoutes(PrefixesOf(routes), lists, limit, out, nin, nal, allowed, denied, b);
    var p :| p in PrefixesOf(routes) && p.IsValid() && Inside(b, Masked(p));
    var i :| 0 <= i < |routes| && PrefixesOf(routes)[i] == p;
    InsideMatches(b, routes[i]);
  }

  // ----- exactly when every result is accounted for -----

  ghost predicate FromOne(bs: seq<Block>, denied: seq<Block>, b: Block) {
    exists x :: x in bs && b in PunchAll([x], denied)
  }

  lemma {:induction false} PunchEachHas(bs: seq<Block>, denied: Block, b: Block)
    ensures b in PunchEach(bs, denied) <==> exists x :: x in bs && b in Subtraction(x, denied)
  {
    if bs != [] {
      assert bs == bs[..|bs| - 1] + [bs[|bs| - 1]];
      PunchEachHas(bs[..|bs| - 1], denied, b);
    }
  }

  /** Subtracting from a list is subtracting from its elements one by one. */
  lemma {:induction false} PunchAllHas(bs: seq<Block>, denied: seq<Block>, b: Block)
    ensures b in PunchAll(bs, denied) <==> FromOne(bs, denied, b)
    decreases |denied|
  {
    if denied == [] {
      assert b in bs ==> b in PunchAll([b], denied);
    } else {
      var front, last := denied[..|denied| - 1], denied[|denied| - 1];
      PunchEachHas(PunchAll(bs, front), last, b);
      forall x
        ensures b in PunchAll([x], denied) <==> exists y :: y in PunchAll([x], front) && b in Subtraction(y, last)
      {
        PunchEachHas(PunchAll([x], front), last, b);
      }
      forall y ensures y in PunchAll(bs, front) <==> FromOne(bs, front, y) { PunchAllHas(bs, front, y); }
    }
  }

  /** Disjoint blocks are their own normal form. */
  lemma NormalOfApart(out: seq<Block>, bs: seq<Block>)
    requires NormalForm(out, MaskedSet(bs)) && PairwiseApart(bs)
    ensures forall b :: b in out <==> b in bs
  {
    MaskedBlocks(bs);
    forall b, q | b in bs && q in bs && Inside(b, q) ensures q == b { SameElement(bs, b, q); }
    forall b ensures b in out <==> b in bs { assert b in out <==> OutermostIn(b, MaskedSet(bs)); }
  }

  lemma SameElement(bs: seq<Block>, b: Block, q: Block)
    requires PairwiseApart(bs) && b in bs && q in bs && Inside(b, q)
    ensures q == b
  {}

  lemma {:induction false} RowHas(p: Block, allow: seq<Block>, b: Block)
    ensures b in PermittedRow(p, allow) <==> exists q :: q in allow && b in Permitted(p, q)
  {
    if allow != [] {
      assert allow == allow[..|allow| - 1] + [allow[|allow| - 1]];
      RowHas(p, allow[..|allow| - 1], b);
    }
  }

  ghost predicate FromPair(input: seq<Block>, allow: seq<Block>, b: Block) {
    exists p, q :: p in input && q in allow && b in Permitted(p, q)
  }

  lemma {:induction false} PairsHave(input: seq<Block>, allow: seq<Block>, b: Block)
    ensures b in PermittedPairs(input, allow) <==> FromPair(input, allow, b)
  {
    if input != [] {
      assert input == input[..|input| - 1] + [input[|input| - 1]];
      PairsHave(input[..|input| - 1], allow, b);
      RowHas(input[|input| - 1], allow, b);
    }
  }

  /** An overshooting allow prefix is kept as it is. */
  lemma OvershootKept(input: seq<Prefix>, allow: seq<Prefix>, nin: seq<Block>, nal: seq<Block>, allowed: seq<Block>,
                      p: Block, q: Block)
    requires AllowedSpec(input, allow, nin, nal, allowed) && p in nin && q in nal && Overshoots(p, q)
    ensures q in allowed && !InsideOne(q, nin)
  {
    NormalFormFacts(nin, MaskedSet(input));
    NormalFormFacts(nal, MaskedSet(allow));
    OvershootOutside(nin, p, q);
    MaskedBlocks(PermittedPairs(nin, nal));
    assert q in Permitted(p, q);
    PairsHave(nin, nal, q);
    forall x | x in MaskedSet(PermittedPairs(nin, nal)) && Inside(q, x) ensures x == q {
      OnlyItself(nin, nal, p, q, x);
    }
    assert OutermostIn(q, MaskedSet(PermittedPairs(nin, nal)));
  }

  /** Nothing else that is kept contains an overshooting allow prefix. */
  lemma OnlyItself(nin: seq<Block>, nal: seq<Block>, p: Block, q: Block, x: Block)
    requires PairwiseApart(nin) && PairwiseApart(nal) && p in nin && q in nal && Overshoots(p, q)
    requires x in PermittedPairs(nin, nal) && Inside(q, x)
    ensures x == q
  {
    OvershootOutside(nin, p, q);
    PairsHave(nin, nal, x);
    var p', q' :| p' in nin && q' in nal && x in Permitted(p', q');
    if x == q' { SameElement(nal, q, q'); }
  }

  lemma OvershootOutside(nin: seq<Block>, p: Block, q: Block)
    requires PairwiseApart(nin) && p in nin && Overshoots(p, q)
    ensures !InsideOne(q, nin)
  {
    if InsideOne(q, nin) {
      var y :| y in nin && Inside(q, y);
      BlocksNest(p, q);
      assert Inside(p, y);
      SameElement(nin, p, y);
      InsideBits(q, p);
    }
  }

  /** What is kept lies inside an input prefix or is an overshooting allow prefix. */
  lemma AllowedKinds(input: seq<Prefix>, allow: seq<Prefix>, nin: seq<Block>, nal: seq<Block>, allowed: seq<Block>,
                     x: Block)
    requires AllowedSpec(input, allow, nin, nal, allowed) && x in allowed
    ensures InsideOne(x, nin) || exists p, q :: p in nin && q in nal && Overshoots(p, q) && x == q
  {
    if nal == [] {
      assert Inside(x, x);
    } else {
      var pairs := PermittedPairs(nin, nal);
      MaskedBlocks(pairs);
      assert OutermostIn(x, MaskedSet(pairs));
      PairsHave(nin, nal, x);
      var p, q :| p in nin && q in nal && x in Permitted(p, q);
      PermittedSpace(p, q);
      if Overshoots(p, q) { assert x == q || x == p; BlocksNest(p, q); }
    }
  }

  ghost predicate SomeMatch(routes: seq<Route>, b: Block) { exists r :: r in routes && Matches(b, r) }

  /** A route accounts for a prefix exactly when a normalised input prefix holds it. */
  lemma MatchIsInside(routes: seq<Route>, nin: seq<Block>, b: Block)
    requires NormalForm(nin, MaskedSet(PrefixesOf(routes)))
    ensures SomeMatch(routes, b) <==> InsideOne(b, nin)
  {
    if SomeMatch(routes, b) {
      var r :| r in routes && Matches(b, r);
      var i :| 0 <= i < |routes| && routes[i] == r;
      assert PrefixesOf(routes)[i] == r.prefix;
      ContainsInside(Masked(r.prefix), b);
      MaskedSetHas(PrefixesOf(routes), Masked(r.prefix));
      HasOutermost(nin, MaskedSet(PrefixesOf(routes)), Masked(r.prefix));
      var y :| y in nin && Inside(Masked(r.prefix), y);
      assert Inside(b, y);
    }
    if InsideOne(b, nin) {
      var y :| y in nin && Inside(b, y);
      assert OutermostIn(y, MaskedSet(PrefixesOf(routes)));
      MaskedSetHas(PrefixesOf(routes), y);
      var p :| p in PrefixesOf(routes) && p.IsValid() && Masked(p) == y;
      var i :| 0 <= i < |routes| && PrefixesOf(routes)[i] == p;
      InsideMatches(b, routes[i]);
    }
  }

  /** What the deny list leaves of every overshooting allow prefix lies inside an
      input prefix. */
  ghost predicate Accounted(nin: seq<Block>, nal: seq<Block>, denied: seq<Block>) {
    forall p, q, b :: p in nin && q in nal && Overshoots(p, q) && b in PunchAll([q], denied) ==> InsideOne(b, nin)
  }

  /** Every result has a route to take its details from if and only if the
      overshooting allow prefixes are accounted for. */
  lemma MatchedIff(routes: seq<Route>, lists: Lists, limit: nat, out: seq<Block>,
                   nin: seq<Block>, nal: seq<Block>, allowed: seq<Block>, denied: seq<Block>)
    requires ApplySpec(PrefixesOf(routes), lists, limit, Ok(out), nin, nal, allowed, denied)
    ensures (forall b :: b in out ==> SomeMatch(routes, b)) <==> Accounted(nin, nal, denied)
  {
    var input := PrefixesOf(routes);
    AllowedSpace(input, lists.allow, nin, nal, allowed);
    PunchAllExact(allowed, denied);
    NormalOfApart(out, PunchAll(allowed, denied));
    forall b ensures SomeMatch(routes, b) <==> InsideOne(b, nin) { MatchIsInside(routes, nin, b); }
    forall b ensures b in out <==> FromOne(allowed, denied, b) { PunchAllHas(allowed, denied, b); }
    if forall b :: b in out ==> SomeMatch(routes, b) {
      forall p, q, b | p in nin && q in nal && Overshoots(p, q) && b in PunchAll([q], denied)
        ensures InsideOne(b, nin)
      {
        OvershootKept(input, lists.allow, nin, nal, allowed, p, q);
        assert FromOne(allowed, denied, b);
      }
    }
    if Accounted(nin, nal, denied) {
      forall b | b in out ensures SomeMatch(routes, b) {
        var x :| x in allowed && b in PunchAll([x], denied);
        AllowedKinds(input, lists.allow, nin, nal, allowed, x);
        if InsideOne(x, nin) { PieceOfInside(x, denied, b, nin); }
      }
    }
  }

  lemma PieceOfOne(x: Block, denied: seq<Block>, b: Block)
    requires b in PunchAll([x], denied)
    ensures Inside(b, x)
  {
    assert PairwiseApart([x]);
    PunchAllExact([x], denied);
    assert InsideOne(b, [x]);
  }

  lemma PieceOfInside(x: Block, denied: seq<Block>, b: Block, nin: seq<Block>)
    requires b in PunchAll([x], denied) && InsideOne(x, nin)
    ensures InsideOne(b, nin)
  {
    PieceOfOne(x, denied, b);
    var z :| z in nin && Inside(x, z);
    assert Inside(b, z);
  }

  /** Without deny entries every result has a route if and only if nothing overshoots. */
  lemma MatchedIffNoOvershoot(routes: seq<Route>, allow: seq<Prefix>, limit: nat, out: seq<Block>,
                              nin: seq<Block>, nal: seq<Block>, allowed: seq<Block>, denied: seq<Block>)
    requires ApplySpec(PrefixesOf(routes), Lists(allow, []), limit, Ok(out), nin, nal, allowed, denied)
    ensures (forall b :: b in out ==> SomeMatch(routes, b)) <==> NoOvershoot(nin, nal)
  {
    MatchedIff(routes, Lists(allow, []), limit, out, nin, nal, allowed, denied);
    NothingDenied(denied);
    forall p, q | p in nin && q in nal && Overshoots(p, q) ensures !InsideOne(q, nin) {
      OvershootKept(PrefixesOf(routes), allow, nin, nal, allowed, p, q);
    }
    if Accounted(nin, nal, denied) {
      forall p, q | p in nin && q in nal ensures !Overshoots(p, q) { assert q in PunchAll([q], denied); }
    }
  }

  lemma NothingDenied(denied: seq<Block>)
    requires NormalForm(denied, MaskedSet([]))
    ensures denied == []
  {
    forall b ensures b !in denied { assert b in denied <==> OutermostIn(b, MaskedSet([])); }
    SomeElement(denied);
  }

  // ----- the same-start case through a whole run -----

  lemma SingleNormal(p: Block, out: seq<Block>)
    requires NormalForm(out, MaskedSet([p]))
    ensures out == [p]
  {
    MaskedBlocks([p]);
    assert p in [p] && OutermostIn(p, MaskedSet([p]));
    NormalFormFacts(out, MaskedSet([p]));
    MaskedSetSize([p]);
    assert p in out && out == [out[0]];
  }

  /** A run on one prefix and one wider allow prefix with the same start keeps the
      whole allow prefix. */
  lemma WideResult(p: Block, q: Block, limit: nat, out: seq<Block>,
                   nin: seq<Block>, nal: seq<Block>, allowed: seq<Block>, denied: seq<Block>)
    requires Overshoots(p, q) && ApplySpec([p], Lists([q], []), limit, Ok(out), nin, nal, allowed, denied)
    ensures nin == [p] && nal == [q] && out == [q]
  {
    SingleNormal(p, nin);
    SingleNormal(q, nal);
    NothingDenied(denied);
    assert Permitted(p, q) == [q];
    OnePair(p, q);
    SingleNormal(q, allowed);
    assert PunchAll(allowed, denied) == [q];
    SingleNormal(q, out);
  }

  lemma OnePair(p: Block, q: Block)
    ensures PermittedPairs([p], [q]) == Permitted(p, q)
  {
    assert PermittedRow(p, [q]) == PermittedRow(p, []) + Permitted(p, q);
    assert PermittedPairs([p], [q]) == PermittedPairs([], [q]) + PermittedRow(p, [q]);
  }

  /** So the result is not the part of the route that is allowed, and the route
      does not account for it. */
  lemma ApplyOvershoots(r: Route, p: Block, q: Block, limit: nat, out: seq<Block>,
                        nin: seq<Block>, nal: seq<Block>, allowed: seq<Block>, denied: seq<Block>)
    requires Overshoots(p, q) && r.prefix == p
    requires ApplySpec(PrefixesOf([r]), Lists([q], []), limit, Ok(out), nin, nal, allowed, denied)
    ensures out == [q] && Space(out) != Allowing(InputSpace([p]), nal) && !SomeMatch([r], q)
  {
    assert PrefixesOf([r]) == [p];
    WideResult(p, q, limit, out, nin, nal, allowed, denied);
    assert p in nin && PairwiseApart(nin);
    OvershootOutside(nin, p, q);
    MatchIsInside([r], nin, q);
    OvershootSpace(p, q);
  }

  lemma OvershootSpace(p: Block, q: Block)
    requires Overshoots(p, q)
    ensures Space([q]) != InputSpace([p]) * Space([q])
  {
    OvershootAddress(p, q);
    InputSpaceAppend([], p);
    MaskedBlock(p);
    assert [] + [p] == [p];
    SpaceSingle(p);
    SpaceSingle(q);
    assert Addr(q.family, Hi(q)) in Space([q]) && Addr(q.family, Hi(q)) !in InputSpace([p]);
  }

  /** The last address of the wider block is not in the narrower one. */
  lemma OvershootAddress(p: Block, q: Block)
    requires Overshoots(p, q)
    ensures Has(q, Addr(q.family, Hi(q))) && !Has(p, Addr(q.family, Hi(q)))
  {
    Pow2Monotone(p.HostBits(), q.HostBits());
  }

  /** Such a run on the route 0.0.0.0/24 and the allow list 0.0.0.0/8 succeeds with
      0.0.0.0/8, which the route does not account for. */
  lemma ApplyOvershootHappens(route: Route, q: Block, limit: nat, r: Result<seq<Block>>,
                              nin: seq<Block>, nal: seq<Block>, allowed: seq<Block>, denied: seq<Block>)
    requires route.prefix.family.V4? && route.prefix.addr == 0 && route.prefix.bits == 24
    requires q.family.V4? && q.addr == 0 && q.bits == 8 && limit >= 1
    requires ApplySpec(PrefixesOf([route]), Lists([q], []), limit, r, nin, nal, allowed, denied)
    ensures r == Ok([q]) && !SomeMatch([route], q)
  {
    Pow2Monotone(0, 32);
    AlignedZero(8);
    OneSucceeds(PrefixesOf([route]), q, limit, r, nin, nal, allowed, denied);
    ApplyOvershoots(route, route.prefix, q, limit, r.value, nin, nal, allowed, denied);
  }

  /** One prefix and one allow prefix cannot exceed a limit. */
  lemma OneSucceeds(input: seq<Prefix>, q: Block, limit: nat, r: Result<seq<Block>>,
                    nin: seq<Block>, nal: seq<Block>, allowed: seq<Block>, denied: seq<Block>)
    requires |input| == 1 && input[0].IsValid() && limit >= 1
    requires ApplySpec(input, Lists([q], []), limit, r, nin, nal, allowed, denied)
    ensures r.Ok?
  {
    var p := Masked(input[0]);
    NothingDenied(denied);
    assert MaskedSet(input) == MaskedSet([p]) by { assert input == [input[0]]; MaskedBlock(p); }
    SingleNormal(p, nin);
    SingleNormal(q, nal);
    OnePair(p, q);
    NormalFormFacts(allowed, MaskedSet(Permitted(p, q)));
    MaskedSetSize(Permitted(p, q));
    assert PunchAll(allowed, denied) == allowed;
  }
}
