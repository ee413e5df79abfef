/** Address arithmetic shared by every prefix algorithm: prefixes as aligned
    power-of-two blocks of a 32- or 128-bit address space.

    Masking, shifting and bit tests are defined by halving, the way they act on
    the binary digits, so every fact about them is proved by the same induction. */
module Blocks {

  datatype Family = V4 | V6

  function Width(f: Family): nat { if f.V4? then 32 else 128 }

  function Pow2(n: nat): (r: nat)
    ensures 0 < r
  {
    if n == 0 then 1 else 2 * Pow2(n - 1)
  }

  /** The value with its h low bits removed. */
  function Shift(v: nat, h: nat): nat { if h == 0 then v else Shift(v / 2, h - 1) }

  /** The value with its h low bits cleared. */
  function Mask(v: nat, h: nat): nat { if h == 0 then v else 2 * Mask(v / 2, h - 1) }

  predicate Aligned(v: nat, h: nat) { h == 0 || (v % 2 == 0 && Aligned(v / 2, h - 1)) }

  /** Bit i of the value, counted from the least significant one. */
  predicate Bit(v: nat, i: nat) { if i == 0 then v % 2 == 1 else Bit(v / 2, i - 1) }

  /** Number of binary digits. */
  function BitLen(v: nat): (n: nat)
    ensures v > 0 ==> n > 0 && Pow2(n - 1) <= v < Pow2(n)
  {
    if v == 0 then 0 else if v == 1 then (assert Pow2(1) == 2; 1) else BitLen(v / 2) + 1
  }

  datatype Addr = Addr(family: Family, v: nat)

  /** A prefix as the callers hand it over: it may carry host bits, and a length
      outside the family's range stands for the invalid zero prefix. */
  datatype Prefix = Prefix(family: Family, addr: nat, bits: int) {
    predicate IsValid() { 0 <= bits <= Width(family) && addr < Pow2(Width(family)) }

    function HostBits(): nat
      requires IsValid()
    {
      Width(family) - bits
    }
  }

  /** A valid prefix without host bits: the block [addr, addr + Size). */
  type Block = p: Prefix | p.IsValid() && Aligned(p.addr, p.HostBits()) witness Prefix(V4, 0, 32)

  function Masked(p: Prefix): (b: Block)
    requires p.IsValid()
    ensures b.family == p.family && b.bits == p.bits
  {
    MaskAligned(p.addr, p.HostBits());
    Prefix(p.family, Mask(p.addr, p.HostBits()), p.bits)
  }

  function Size(b: Block): (s: nat)
    ensures 0 < s
  {
    Pow2(b.HostBits())
  }

  /** Last address of the block. */
  function Hi(b: Block): (v: nat)
    ensures b.addr <= v
  {
    b.addr + Size(b) - 1
  }

  predicate Has(b: Block, a: Addr) { a.family == b.family && b.addr <= a.v <= Hi(b) }

  predicate Inside(c: Block, b: Block) {
    c.family == b.family && b.addr <= c.addr && Hi(c) <= Hi(b)
  }

  predicate Apart(b: Block, c: Block) {
    b.family != c.family || Hi(b) < c.addr || Hi(c) < b.addr
  }

  /** The addresses a list of blocks denotes. */
  ghost predicate Covers(bs: seq<Block>, a: Addr) { exists b :: b in bs && Has(b, a) }

  ghost function Space(bs: seq<Block>): (s: iset<Addr>) { iset a | Covers(bs, a) }

  ghost predicate PairwiseApart(bs: seq<Block>) {
    forall i, j :: 0 <= i < |bs| && 0 <= j < |bs| && i != j ==> Apart(bs[i], bs[j])
  }

  // ----- arithmetic by halving -----

  lemma {:induction false} Pow2Monotone(m: nat, n: nat)
    requires m <= n
    ensures Pow2(m) <= Pow2(n)
    ensures m < n ==> 2 * Pow2(m) <= Pow2(n)
    decreases n
  {
    if m < n { Pow2Monotone(m, n - 1); }
  }

  lemma {:induction false} MaskAligned(v: nat, h: nat)
    ensures Mask(v, h) <= v < Mask(v, h) + Pow2(h)
    ensures Aligned(Mask(v, h), h)
  {
    if h > 0 { MaskAligned(v / 2, h - 1); }
  }

  /** Masking picks the one aligned start whose block holds the value. */
  lemma {:induction false} MaskUnique(v: nat, lo: nat, h: nat)
    requires Aligned(lo, h)
    ensures Mask(v, h) == lo <==> lo <= v < lo + Pow2(h)
  {
    if h > 0 { MaskUnique(v / 2, lo / 2, h - 1); }
  }

  lemma {:induction false} AlignedWeaken(v: nat, h: nat, k: nat)
    requires Aligned(v, h) && k <= h
    ensures Aligned(v, k)
  {
    if k > 0 { AlignedWeaken(v / 2, h - 1, k - 1); }
  }

  lemma {:induction false} AlignedZero(h: nat)
    ensures Aligned(0, h)
  {
    if h > 0 { AlignedZero(h - 1); }
  }

  /** Aligned starts stay aligned when moved by their own block size. */
  lemma {:induction false} AlignedStep(v: nat, h: nat)
    requires Aligned(v, h)
    ensures Aligned(v + Pow2(h), h)
  {
    if h > 0 {
      AlignedStep(v / 2, h - 1);
      assert (v + Pow2(h)) / 2 == v / 2 + Pow2(h - 1);
    }
  }

  /** A smaller aligned block lies inside a larger one or misses it. */
  lemma {:induction false} Laminar(a: nat, h: nat, b: nat, k: nat)
    requires Aligned(a, h) && Aligned(b, k) && h <= k
    ensures (b <= a && a + Pow2(h) <= b + Pow2(k)) || a + Pow2(h) <= b || b + Pow2(k) <= a
  {
    if h > 0 { Laminar(a / 2, h - 1, b / 2, k - 1); }
  }

  /** An aligned block starting below 2^w ends at or below it. */
  lemma AlignedFits(a: nat, h: nat, w: nat)
    requires Aligned(a, h) && h <= w && a < Pow2(w)
    ensures a + Pow2(h) <= Pow2(w)
  {
    AlignedZero(w);
    Laminar(a, h, 0, w);
  }

  lemma {:induction false} BitStopsAlignment(v: nat, i: nat, h: nat)
    requires Bit(v, i) && i < h
    ensures !Aligned(v, h)
  {
    if i > 0 { BitStopsAlignment(v / 2, i - 1, h - 1); }
  }

  // ----- blocks -----

  lemma BlockBound(b: Block)
    ensures Hi(b) < Pow2(Width(b.family))
  {
    AlignedFits(b.addr, b.HostBits(), Width(b.family));
  }

  /** Two blocks nest or are apart; the one with the longer prefix is the inner one. */
  lemma BlocksNest(c: Block, b: Block)
    requires c.family == b.family && b.bits <= c.bits
    ensures Inside(c, b) || Apart(c, b)
    ensures !(Inside(c, b) && Apart(c, b))
  {
    Laminar(c.addr, c.HostBits(), b.addr, b.HostBits());
  }

  /** A block inside another has at least as many prefix bits. */
  lemma InsideBits(c: Block, b: Block)
    requires Inside(c, b)
    ensures b.bits <= c.bits
    ensures b.bits == c.bits ==> c == b
  {
    if c.bits <= b.bits {
      Pow2Monotone(b.HostBits(), c.HostBits());
    }
  }

  /** The library's containment test compares the bits above the prefix length. */
  predicate Contains(b: Block, a: Addr)
    ensures Contains(b, a) <==> Has(b, a)
  {
    MaskUnique(a.v, b.addr, b.HostBits());
    a.family == b.family && Mask(a.v, b.HostBits()) == b.addr
  }

  /** Containing the first address of a longer prefix is containing all of it. */
  lemma ContainsInside(b: Block, c: Block)
    requires b.bits <= c.bits
    ensures Contains(b, Addr(c.family, c.addr)) <==> Inside(c, b)
  {
    if c.family == b.family { BlocksNest(c, b); }
  }

  // ----- denotations -----

  lemma SpaceConcat(bs: seq<Block>, cs: seq<Block>)
    ensures Space(bs + cs) == Space(bs) + Space(cs)
  {
    forall a ensures a in Space(bs + cs) <==> a in Space(bs) + Space(cs) {
      if Covers(bs, a) {
        var b :| b in bs && Has(b, a);
        assert b in bs + cs;
      }
      if Covers(cs, a) {
        var b :| b in cs && Has(b, a);
        assert b in bs + cs;
      }
    }
  }

  lemma SpaceSingle(b: Block)
    ensures Space([b]) == iset a | Has(b, a)
  {
    forall a ensures a in Space([b]) <==> Has(b, a) {
      if Has(b, a) { assert b in [b]; }
    }
  }

  lemma SpaceHas(bs: seq<Block>, b: Block, a: Addr)
    requires b in bs && Has(b, a)
    ensures a in Space(bs)
  {}

  /** Only the elements matter, neither their order nor repetitions. */
  lemma SpaceSameElements(bs: seq<Block>, cs: seq<Block>)
    requires forall b :: b in bs <==> b in cs
    ensures Space(bs) == Space(cs)
  {
    assert forall a :: Covers(bs, a) <==> Covers(cs, a);
  }

  lemma ConcatApart(bs: seq<Block>, cs: seq<Block>)
    requires PairwiseApart(bs) && PairwiseApart(cs)
    requires forall b, c :: b in bs && c in cs ==> Apart(b, c)
    ensures PairwiseApart(bs + cs)
  {
    var all := bs + cs;
    forall i, j | 0 <= i < |all| && 0 <= j < |all| && i != j ensures Apart(all[i], all[j]) {
      if i < |bs| { assert all[i] in bs; } else { assert all[i] in cs; }
      if j < |bs| { assert all[j] in bs; } else { assert all[j] in cs; }
    }
  }

  /** The addresses of every valid prefix of the input. */
  ghost predicate InputCovers(prefixes: seq<Prefix>, a: Addr) {
    exists p :: p in prefixes && p.IsValid() && Has(Masked(p), a)
  }

  ghost function InputSpace(prefixes: seq<Prefix>): (s: iset<Addr>) { iset a | InputCovers(prefixes, a) }

  lemma InputSpaceAppend(ps: seq<Prefix>, p: Prefix)
    ensures InputSpace(ps + [p]) == InputSpace(ps) + if p.IsValid() then Space([Masked(p)]) else iset{}
  {
    if p.IsValid() { SpaceSingle(Masked(p)); }
    forall a ensures InputCovers(ps + [p], a) <==> InputCovers(ps, a) || (p.IsValid() && Has(Masked(p), a)) {
      if InputCovers(ps, a) {
        var q :| q in ps && q.IsValid() && Has(Masked(q), a);
        assert q in ps + [p];
      }
      if p.IsValid() && Has(Masked(p), a) { assert p in ps + [p]; }
    }
  }
}
