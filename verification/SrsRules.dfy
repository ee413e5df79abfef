/** What rules match, and what address lists are extracted from them. */
module SrsRules {
  import opened Lists
  import opened Octets
  import opened SrsFraming
  import opened Wrappers

  datatype Addr = Addr(six: bool, value: nat)

  /** A range of addresses, both ends included. */
  datatype Span = Span(six: bool, lo: nat, hi: nat)

  predicate InSpan(a: Addr, s: Span) { a.six == s.six && s.lo <= a.value <= s.hi }

  ghost predicate Covers(spans: seq<Span>, a: Addr) { exists s :: s in spans && InSpan(a, s) }

  predicate NoEmptySpan(spans: seq<Span>) { forall s :: s in spans ==> s.lo <= s.hi }

  predicate ValidRange(r: RawRange) {
    (|r.from| == 4 || |r.from| == 16) && |r.to| == |r.from| && BigEndian(r.from) <= BigEndian(r.to)
  }

  function SpanOf(r: RawRange): Span { Span(|r.from| == 16, BigEndian(r.from), BigEndian(r.to)) }

  predicate ValidItem(i: Item) { i.Cidr? ==> forall r :: r in i.ranges ==> ValidRange(r) }

  function ItemSpans(i: Item): seq<Span> { if i.Cidr? then Gather(i.ranges, r => [SpanOf(r)]) else [] }

  /** Domain items are alternatives to the destination ranges; every other kind
      of item narrows the rule. */
  predicate Narrows(i: Item) { i.Other? && i.kind !in {2, 3, 4, 16} }

  predicate HasNarrowing(items: seq<Item>) { exists i :: i in items && Narrows(i) }

  // ----- what a rule matches -----

  /** Everything about a packet but its destination address. */
  datatype World = World(domain: Item -> bool, narrow: seq<Item> -> bool, lost: seq<Item> -> bool)

  predicate DestinationItem(i: Item, a: Addr, w: World) {
    if i.Cidr? then exists r :: r in i.ranges && InSpan(a, SpanOf(r)) else !Narrows(i) && w.domain(i)
  }

  /** Destination items are alternatives; a rule without any matches any. */
  predicate DestinationMatches(items: seq<Item>, a: Addr, w: World) {
    (forall i :: i in items ==> Narrows(i)) || exists i :: i in items && DestinationItem(i, a, w)
  }

  predicate Matches(rule: Rule, a: Addr, w: World) {
    match rule
    case Default(items, None) => w.lost(items)
    case Default(items, Some(invert)) =>
      (DestinationMatches(items, a, w) && (HasNarrowing(items) ==> w.narrow(items))) != (invert != 0)
    case Logical(mode, subs, invert) =>
      (if mode == 0 then forall i :: 0 <= i < |subs| ==> Matches(subs[i], a, w)
       else exists i :: 0 <= i < |subs| && Matches(subs[i], a, w)) != (invert != 0)
  }

  // ----- intersection -----

  function MeetOne(x: Span, y: Span): seq<Span> {
    var lo, hi := if x.lo > y.lo then x.lo else y.lo, if x.hi < y.hi then x.hi else y.hi;
    if x.six == y.six && lo <= hi then [Span(x.six, lo, hi)] else []
  }

  function Meet(xs: seq<Span>, ys: seq<Span>): seq<Span> { Gather(xs, x => Gather(ys, y => MeetOne(x, y))) }

  function IntersectAll(groups: seq<seq<Span>>): seq<Span>
    requires groups != []
  {
    if |groups| == 1 then groups[0] else Meet(IntersectAll(groups[..|groups| - 1]), groups[|groups| - 1])
  }

  lemma MeetMember(xs: seq<Span>, ys: seq<Span>, s: Span)
    ensures s in Meet(xs, ys) <==> exists x, y :: x in xs && y in ys && s in MeetOne(x, y)
  {
    GatherMember(xs, x => Gather(ys, y => MeetOne(x, y)), s);
    forall x | x in xs ensures s in Gather(ys, y => MeetOne(x, y)) <==> exists y :: y in ys && s in MeetOne(x, y) {
      GatherMember(ys, y => MeetOne(x, y), s);
    }
  }

  lemma MeetCovers(xs: seq<Span>, ys: seq<Span>, a: Addr)
    ensures Covers(Meet(xs, ys), a) <==> Covers(xs, a) && Covers(ys, a)
    ensures NoEmptySpan(Meet(xs, ys))
  {
    if Covers(xs, a) && Covers(ys, a) {
      var x :| x in xs && InSpan(a, x);
      var y :| y in ys && InSpan(a, y);
      MeetMember(xs, ys, MeetOne(x, y)[0]);
    }
    forall s | s in Meet(xs, ys) ensures s.lo <= s.hi && (InSpan(a, s) ==> Covers(xs, a) && Covers(ys, a)) {
      MeetMember(xs, ys, s);
    }
  }

  /** The intersection covers what every group covers. */
  lemma {:induction false} IntersectCovers(groups: seq<seq<Span>>, a: Addr)
    requires groups != []
    ensures Covers(IntersectAll(groups), a) <==> forall g :: g in groups ==> Covers(g, a)
    ensures (forall g :: g in groups ==> NoEmptySpan(g)) ==> NoEmptySpan(IntersectAll(groups))
  {
    if |groups| > 1 {
      var front, last := groups[..|groups| - 1], groups[|groups| - 1];
      IntersectCovers(front, a);
      MeetCovers(IntersectAll(front), last, a);
      assert forall g :: g in groups <==> g in front || g == last;
    }
  }

  method IntersectCIDRs(groups: seq<seq<Span>>) returns (result: seq<Span>)
    ensures result == if groups == [] then [] else IntersectAll(groups)
  {
    if |groups| == 0 {
      return [];
    }
    result := groups[0];
    assert groups[..1] == [groups[0]];
    for i := 1 to |groups|
      invariant result == IntersectAll(groups[..i])
    {
      assert groups[..i + 1][..i] == groups[..i];
      result := Meet(result, groups[i]);
    }
    assert groups[..|groups|] == groups;
  }

  // ----- what is extracted -----

  /** The address list taken from a rule, and whether the rule is constrained by
      something an address list cannot express. */
  datatype Extraction = Extraction(spans: seq<Span>, constrained: bool)

  datatype AndPart = Cut | Groups(groups: seq<seq<Span>>)

  /** The result for a rule, with or without extraction; none when a range read
      for extraction is malformed. */
  function Extracted(rule: Rule, on: bool): Option<Extraction> {
    match rule
    case Default(items, final) =>
      if on && exists i :: i in items && !ValidItem(i) then None
      else Some(
        if final.None? then Extraction([], false)
        else if final.value != 0 || HasNarrowing(items) then Extraction([], HasNarrowing(items))
        else Extraction(if on then Gather(items, ItemSpans) else [], false))
    case Logical(mode, subs, invert) =>
      if mode == 0 then
        match ExtractedAnd(subs, on)
        case None => None
        case Some(part) => Some(Conjoined(part, invert))
      else
        match ExtractedOr(subs, on)
        case None => None
        case Some(e) => Some(if invert != 0 then Extraction([], true) else e)
  }

  function Conjoined(part: AndPart, invert: Byte): Extraction {
    match part
    case Cut => Extraction([], true)
    case Groups(gs) =>
      if invert != 0 then Extraction([], true) else Extraction(if gs == [] then [] else IntersectAll(gs), false)
  }

  /** Sub-rules in order, up to the first that makes the conjunction useless. */
  function ExtractedAnd(subs: seq<Rule>, on: bool): Option<AndPart> {
    if subs == [] then Some(Groups([]))
    else
      match Extracted(subs[0], on)
      case None => None
      case Some(e) =>
        if e.constrained || e.spans == [] then Some(Cut)
        else
          match ExtractedAnd(subs[1..], on)
          case Some(Groups(gs)) => Some(Groups([e.spans] + gs))
          case other => other
  }

  /** The union of the unconstrained sub-rules. */
  function ExtractedOr(subs: seq<Rule>, on: bool): Option<Extraction> {
    if subs == [] then Some(Extraction([], true))
    else
      match Extracted(subs[0], on)
      case None => None
      case Some(e) =>
        match ExtractedOr(subs[1..], on)
        case None => None
        case Some(more) => Some(if e.constrained then more else Extraction(e.spans + more.spans, false))
  }

  // ----- extraction off -----

  /** Without extraction nothing is validated and nothing comes out. */
  lemma {:induction false} OffNeverFails(rule: Rule)
    ensures Extracted(rule, false).Some? && Extracted(rule, false).value.spans == []
  {
    if rule.Logical? { OffNeverFailsList(rule.subs); }
  }

  lemma {:induction false} OffNeverFailsList(subs: seq<Rule>)
    ensures ExtractedAnd(subs, false) == Some(if subs == [] then Groups([]) else Cut)
    ensures ExtractedOr(subs, false).Some? && ExtractedOr(subs, false).value.spans == []
  {
    if subs != [] {
      OffNeverFails(subs[0]);
      OffNeverFailsList(subs[1..]);
    }
  }

  // ----- an empty list means no address -----

  lemma {:induction false} NoneEmpty(rule: Rule, on: bool)
    ensures Extracted(rule, on).Some? ==> NoEmptySpan(Extracted(rule, on).value.spans)
    decreases rule, 1
  {
    match rule
    case Default(items, final) =>
      if on && forall i :: i in items ==> ValidItem(i) {
        forall s | s in Gather(items, ItemSpans) ensures s.lo <= s.hi {
          GatherMember(items, ItemSpans, s);
          var i :| i in items && s in ItemSpans(i);
          GatherMember(i.ranges, r => [SpanOf(r)], s);
        }
      }
    case Logical(mode, subs, invert) =>
      NoneEmptyList(subs, on);
      var part := ExtractedAnd(subs, on);
      if part.Some? && part.value.Groups? && part.value.groups != [] {
        IntersectCovers(part.value.groups, Addr(false, 0));
      }
  }

  lemma {:induction false} NoneEmptyList(subs: seq<Rule>, on: bool)
    ensures ExtractedOr(subs, on).Some? ==> NoEmptySpan(ExtractedOr(subs, on).value.spans)
    ensures var part := ExtractedAnd(subs, on);
            part.Some? && part.value.Groups? ==> forall g :: g in part.value.groups ==> NoEmptySpan(g)
    decreases subs, 0
  {
    if subs != [] {
      NoneEmpty(subs[0], on);
      NoneEmptyList(subs[1..], on);
    }
  }

  /** The tests for an empty list are tests for an empty set of addresses. */
  lemma EmptyIffNothingCovered(rule: Rule, on: bool)
    requires Extracted(rule, on).Some?
    ensures Extracted(rule, on).value.spans == [] <==> forall a :: !Covers(Extracted(rule, on).value.spans, a)
  {
    NoneEmpty(rule, on);
    var spans := Extracted(rule, on).value.spans;
    if spans != [] {
      assert spans[0] in spans;
      assert Covers(spans, Addr(spans[0].six, spans[0].lo));
    }
  }

  // ----- what is extracted, address by address -----

  /** The extraction of a rule has the address. */
  ghost predicate Gives(rule: Rule, on: bool, a: Addr) {
    Extracted(rule, on).Some? && Covers(Extracted(rule, on).value.spans, a)
  }

  /** A rule whose addresses a conjunction can use. */
  predicate Usable(rule: Rule, on: bool) {
    Extracted(rule, on).Some? && !Extracted(rule, on).value.constrained && Extracted(rule, on).value.spans != []
  }

  /** A default rule gives the addresses in its ranges if it is not inverted and has
      no item but ranges and domains; other items, and only those, constrain it. */
  lemma DefaultGives(items: seq<Item>, invert: Byte, a: Addr)
    requires forall i :: i in items ==> ValidItem(i)
    ensures var rule, others := Default(items, Some(invert)),
              exists i :: i in items && i.Other? && i.kind != 2 && i.kind != 3 && i.kind != 4 && i.kind != 16;
            Extracted(rule, true).Some? && Extracted(rule, true).value.constrained == others &&
            (Gives(rule, true, a) <==> invert == 0 && !others && InSomeRange(items, a))
  {
    forall i | i in items && i.Cidr?
      ensures Covers(ItemSpans(i), a) <==> exists r :: r in i.ranges && InSpan(a, SpanOf(r))
    {
      CidrCovers(i, a, World(_ => false, _ => false, _ => false));
    }
    GatherCovers(items, a);
    assert HasNarrowing(items) <==> exists i :: i in items && Narrows(i);
  }

  predicate InSomeRange(items: seq<Item>, a: Addr) {
    exists i :: i in items && i.Cidr? && exists r :: r in i.ranges && InSpan(a, SpanOf(r))
  }

  lemma GatherCovers(items: seq<Item>, a: Addr)
    ensures Covers(Gather(items, ItemSpans), a) <==> exists i :: i in items && Covers(ItemSpans(i), a)
  {
    if Covers(Gather(items, ItemSpans), a) {
      var s :| s in Gather(items, ItemSpans) && InSpan(a, s);
      GatherMember(items, ItemSpans, s);
    }
    if i :| i in items && Covers(ItemSpans(i), a) {
      var s :| s in ItemSpans(i) && InSpan(a, s);
      GatherMember(items, ItemSpans, s);
    }
  }

  predicate AllRead(subs: seq<Rule>, on: bool) { forall i :: 0 <= i < |subs| ==> Extracted(subs[i], on).Some? }

  predicate AllConstrained(subs: seq<Rule>, on: bool) {
    forall i :: 0 <= i < |subs| ==> Extracted(subs[i], on).Some? && Extracted(subs[i], on).value.constrained
  }

  /** A disjunction gives what any of its sub-rules gives; it is refused if one of
      them is, and constrained if all of them are. */
  lemma {:induction false} OrGives(subs: seq<Rule>, on: bool, a: Addr)
    ensures ExtractedOr(subs, on).Some? <==> AllRead(subs, on)
    ensures ExtractedOr(subs, on).Some? ==>
              var e := ExtractedOr(subs, on).value;
              (Covers(e.spans, a) <==> exists i :: 0 <= i < |subs| && Gives(subs[i], on, a)) &&
              (e.constrained <==> AllConstrained(subs, on))
  {
    if subs != [] {
      OrGives(subs[1..], on, a);
      ConstrainedIsEmpty(subs[0], on);
      OrConstrainedIsEmpty(subs[1..], on);
      Heads(subs);
    }
  }

  lemma Heads(subs: seq<Rule>)
    requires subs != []
    ensures forall i :: 1 <= i < |subs| ==> subs[i] == subs[1..][i - 1]
    ensures forall i :: 0 <= i < |subs| - 1 ==> subs[1..][i] == subs[i + 1]
  {}

  /** The first sub-rule a conjunction cannot use is refused. */
  predicate RefusedAt(subs: seq<Rule>, on: bool, i: int) {
    0 <= i < |subs| && Extracted(subs[i], on).None? && forall j :: 0 <= j < i ==> Usable(subs[j], on)
  }

  predicate AllUsable(subs: seq<Rule>, on: bool) { forall i :: 0 <= i < |subs| ==> Usable(subs[i], on) }

  /** A conjunction has the address lists of its sub-rules if it can use them all; it
      is refused if the first it cannot use is, and cut short otherwise. */
  lemma {:induction false} AndGives(subs: seq<Rule>, on: bool)
    ensures ExtractedAnd(subs, on).None? <==> exists i :: RefusedAt(subs, on, i)
    ensures ExtractedAnd(subs, on).Some? ==>
              var part := ExtractedAnd(subs, on).value;
              (part.Groups? <==> AllUsable(subs, on)) &&
              (part.Groups? ==> |part.groups| == |subs| && forall i :: 0 <= i < |subs| ==>
                part.groups[i] == Extracted(subs[i], on).value.spans)
  {
    if subs != [] {
      AndGives(subs[1..], on);
      Heads(subs);
      if i :| RefusedAt(subs[1..], on, i) && Usable(subs[0], on) { assert RefusedAt(subs, on, i + 1); }
      if i :| RefusedAt(subs, on, i) { assert i > 0 ==> RefusedAt(subs[1..], on, i - 1) && Usable(subs[0], on); }
      if Extracted(subs[0], on).None? { assert RefusedAt(subs, on, 0); }
    }
  }

  ghost predicate AllGive(subs: seq<Rule>, on: bool, a: Addr) {
    forall i :: 0 <= i < |subs| ==> Gives(subs[i], on, a)
  }

  /** A conjunction gives what all its sub-rules give, provided each is usable; a
      disjunction what any gives; an inverted rule gives nothing, and is no use. */
  lemma LogicalGives(mode: Byte, subs: seq<Rule>, invert: Byte, on: bool, a: Addr)
    ensures var rule := Logical(mode, subs, invert);
            if invert != 0 then !Gives(rule, on, a) && !Usable(rule, on)
            else if mode == 0 then Gives(rule, on, a) <==> subs != [] && AllUsable(subs, on) && AllGive(subs, on, a)
            else Gives(rule, on, a) <==> AllRead(subs, on) && exists i :: 0 <= i < |subs| && Gives(subs[i], on, a)
  {
    AndGives(subs, on);
    OrGives(subs, on, a);
    var part := ExtractedAnd(subs, on);
    if mode == 0 && part.Some? && part.value.Groups? && subs != [] { IntersectCovers(part.value.groups, a); }
  }

  // ----- soundness -----

  /** Every address extracted matches the rule, whatever else the packet is. */
  lemma {:induction false} Sound(rule: Rule, on: bool, a: Addr, w: World)
    requires Extracted(rule, on).Some? && Covers(Extracted(rule, on).value.spans, a)
    ensures Matches(rule, a, w)
    decreases rule, 1
  {
    match rule
    case Default(items, final) => DefaultCovers(items, a, w);
    case Logical(mode, subs, invert) =>
      if mode == 0 { SoundAnd(subs, on, a, w); } else { SoundOr(subs, on, a, w); }
  }

  lemma DefaultCovers(items: seq<Item>, a: Addr, w: World)
    ensures Covers(Gather(items, ItemSpans), a) ==> exists i :: i in items && i.Cidr? && DestinationItem(i, a, w)
    ensures (forall i :: i in items ==> i.Cidr?) && DestinationMatches(items, a, w) && items != [] ==>
              Covers(Gather(items, ItemSpans), a)
  {
    forall i | i in items && i.Cidr? ensures Covers(ItemSpans(i), a) <==> DestinationItem(i, a, w) {
      CidrCovers(i, a, w);
    }
    if Covers(Gather(items, ItemSpans), a) {
      var s :| s in Gather(items, ItemSpans) && InSpan(a, s);
      GatherMember(items, ItemSpans, s);
      var i :| i in items && s in ItemSpans(i);
      assert Covers(ItemSpans(i), a);
    }
    if (forall i :: i in items ==> i.Cidr?) && DestinationMatches(items, a, w) && items != [] {
      assert items[0] in items;
      var i :| i in items && DestinationItem(i, a, w);
      var s :| s in ItemSpans(i) && InSpan(a, s);
      GatherMember(items, ItemSpans, s);
    }
  }

  lemma CidrCovers(i: Item, a: Addr, w: World)
    requires i.Cidr?
    ensures Covers(ItemSpans(i), a) <==> DestinationItem(i, a, w)
  {
    forall s ensures s in ItemSpans(i) <==> exists r :: r in i.ranges && s == SpanOf(r) {
      GatherMember(i.ranges, r => [SpanOf(r)], s);
    }
  }

  lemma {:induction false} SoundAnd(subs: seq<Rule>, on: bool, a: Addr, w: World)
    requires ExtractedAnd(subs, on).Some? && ExtractedAnd(subs, on).value.Groups?
    ensures var gs := ExtractedAnd(subs, on).value.groups;
            (gs == [] <==> subs == []) &&
            (gs != [] && Covers(IntersectAll(gs), a) ==> forall i :: 0 <= i < |subs| ==> Matches(subs[i], a, w))
    decreases subs, 1
  {
    var gs := ExtractedAnd(subs, on).value.groups;
    if gs != [] && Covers(IntersectAll(gs), a) {
      IntersectCovers(gs, a);
      SoundEach(subs, on, a, w);
    }
  }

  lemma {:induction false} SoundEach(subs: seq<Rule>, on: bool, a: Addr, w: World)
    requires ExtractedAnd(subs, on).Some? && ExtractedAnd(subs, on).value.Groups?
    requires forall g :: g in ExtractedAnd(subs, on).value.groups ==> Covers(g, a)
    ensures forall i :: 0 <= i < |subs| ==> Matches(subs[i], a, w)
    decreases subs, 0
  {
    if subs != [] {
      var e, gs := Extracted(subs[0], on).value, ExtractedAnd(subs, on).value.groups;
      assert gs[0] == e.spans && gs[1..] == ExtractedAnd(subs[1..], on).value.groups;
      Sound(subs[0], on, a, w);
      SoundEach(subs[1..], on, a, w);
      forall i | 0 <= i < |subs| ensures Matches(subs[i], a, w) { assert i > 0 ==> subs[i] == subs[1..][i - 1]; }
    }
  }

  lemma {:induction false} SoundOr(subs: seq<Rule>, on: bool, a: Addr, w: World)
    requires ExtractedOr(subs, on).Some? && Covers(ExtractedOr(subs, on).value.spans, a)
    ensures exists i :: 0 <= i < |subs| && Matches(subs[i], a, w)
    decreases subs, 0
  {
    var e, more := Extracted(subs[0], on).value, ExtractedOr(subs[1..], on).value;
    if Covers(more.spans, a) {
      SoundOr(subs[1..], on, a, w);
      var i :| 0 <= i < |subs[1..]| && Matches(subs[1..][i], a, w);
      assert subs[i + 1] == subs[1..][i];
    } else {
      Sound(subs[0], on, a, w);
    }
  }

  // ----- exactness -----

  /** Uninverted trees whose leaves have destination ranges only. */
  predicate Pure(rule: Rule) {
    match rule
    case Default(items, final) => final == Some(0) && items != [] && forall i :: i in items ==> i.Cidr? && ValidItem(i)
    case Logical(mode, subs, invert) => invert == 0 && subs != [] && forall i :: 0 <= i < |subs| ==> Pure(subs[i])
  }

  lemma {:induction false} ConstrainedIsEmpty(rule: Rule, on: bool)
    ensures Extracted(rule, on).Some? && Extracted(rule, on).value.constrained ==> Extracted(rule, on).value.spans == []
  {
    if rule.Logical? && rule.mode != 0 { OrConstrainedIsEmpty(rule.subs, on); }
  }

  lemma {:induction false} OrConstrainedIsEmpty(subs: seq<Rule>, on: bool)
    ensures ExtractedOr(subs, on).Some? && ExtractedOr(subs, on).value.constrained ==>
            ExtractedOr(subs, on).value.spans == []
  {
    if subs != [] { OrConstrainedIsEmpty(subs[1..], on); }
  }

  /** On a pure tree the addresses extracted are exactly those that match. */
  lemma {:induction false} Exact(rule: Rule, a: Addr, w: World)
    requires Pure(rule)
    ensures Extracted(rule, true).Some?
    ensures Covers(Extracted(rule, true).value.spans, a) <==> Matches(rule, a, w)
    decreases rule, 1
  {
    match rule
    case Default(items, final) => DefaultCovers(items, a, w);
    case Logical(mode, subs, invert) =>
      if mode == 0 { ExactAnd(subs, a, w); } else { ExactOr(subs, a, w); }
  }

  predicate AllMatch(subs: seq<Rule>, a: Addr, w: World) { forall i :: 0 <= i < |subs| ==> Matches(subs[i], a, w) }

  lemma {:induction false} ExactAnd(subs: seq<Rule>, a: Addr, w: World)
    requires forall i :: 0 <= i < |subs| ==> Pure(subs[i])
    ensures ExtractedAnd(subs, true).Some?
    ensures match ExtractedAnd(subs, true).value
            case Cut => !AllMatch(subs, a, w)
            case Groups(gs) =>
              (gs == [] <==> subs == []) && (gs != [] ==> (Covers(IntersectAll(gs), a) <==> AllMatch(subs, a, w)))
    decreases subs, 1
  {
    ExactEach(subs, a, w);
    var part := ExtractedAnd(subs, true).value;
    if part.Groups? && part.groups != [] { IntersectCovers(part.groups, a); }
  }

  lemma {:induction false} ExactEach(subs: seq<Rule>, a: Addr, w: World)
    requires forall i :: 0 <= i < |subs| ==> Pure(subs[i])
    ensures ExtractedAnd(subs, true).Some?
    ensures match ExtractedAnd(subs, true).value
            case Cut => exists i :: 0 <= i < |subs| && !Matches(subs[i], a, w)
            case Groups(gs) => |gs| == |subs| && forall i :: 0 <= i < |subs| ==>
              (Covers(gs[i], a) <==> Matches(subs[i], a, w))
    decreases subs, 0
  {
    if subs != [] {
      Exact(subs[0], a, w);
      ConstrainedIsEmpty(subs[0], true);
      ExactEach(subs[1..], a, w);
      var e, more := Extracted(subs[0], true).value, ExtractedAnd(subs[1..], true).value;
      if !e.constrained && e.spans != [] && more.Cut? {
        var i :| 0 <= i < |subs[1..]| && !Matches(subs[1..][i], a, w);
        assert subs[i + 1] == subs[1..][i];
      }
    }
  }

  lemma {:induction false} ExactOr(subs: seq<Rule>, a: Addr, w: World)
    requires forall i :: 0 <= i < |subs| ==> Pure(subs[i])
    ensures ExtractedOr(subs, true).Some?
    ensures Covers(ExtractedOr(subs, true).value.spans, a) <==> exists i :: 0 <= i < |subs| && Matches(subs[i], a, w)
    decreases subs, 0
  {
    if subs != [] {
      Exact(subs[0], a, w);
      ConstrainedIsEmpty(subs[0], true);
      ExactOr(subs[1..], a, w);
      var e, more := Extracted(subs[0], true).value, ExtractedOr(subs[1..], true).value;
      assert Covers(e.spans + more.spans, a) <==> Covers(e.spans, a) || Covers(more.spans, a);
      if exists i :: 0 <= i < |subs[1..]| && Matches(subs[1..][i], a, w) {
        var i :| 0 <= i < |subs[1..]| && Matches(subs[1..][i], a, w);
        assert subs[i + 1] == subs[1..][i];
      }
      if exists i :: 0 <= i < |subs| && Matches(subs[i], a, w) {
        var i :| 0 <= i < |subs| && Matches(subs[i], a, w);
        assert i > 0 ==> subs[1..][i - 1] == subs[i];
      }
    }
  }
}
