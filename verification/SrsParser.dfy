/** The streaming rule-set parser: one pass over the bytes, skipping what it does
    not need. It is proved against the format and the rules' meaning. */
module SrsParser {
  import opened Lists
  import opened Octets
  import opened SrsFraming
  import opened SrsRules
  import opened Wrappers

  /** What parsing a rule returns, if the rule can be read. */
  function Parsed(r: Read<Rule>, on: bool): Option<Extraction> {
    if r.value.None? then None else Extracted(r.value.value, on)
  }

  /** Skipping stays in step: a rule that parses with extraction on parses with
      it off, to the same place; off, it parses whenever it can be read at all. */
  lemma SkippingStaysInStep(kind: Byte, b: Bytes, p: nat, depth: nat)
    ensures Parsed(ReadRule(kind, b, p, depth), true).Some? ==> Parsed(ReadRule(kind, b, p, depth), false).Some?
    ensures Parsed(ReadRule(kind, b, p, depth), false).Some? <==> ReadRule(kind, b, p, depth).value.Some?
  {
    var r := ReadRule(kind, b, p, depth);
    if r.value.Some? { OffNeverFails(r.value.value); }
  }

  /** The single passes agree: where a rule's items can be read with extraction
      on, they can be read with it off, and both end at the same byte. */
  lemma DefaultSkipsInStep(b: Bytes, p: nat)
    ensures var on, off := ItemsRead(b, p, true), ItemsRead(b, p, false);
            on.value.Some? ==> off.value.Some? && off.next == on.next
  {
    DefaultReadAgrees(b, p, true);
    DefaultReadAgrees(b, p, false);
    var r := ReadDefault(b, p);
    if r.value.Some? { OffNeverFails(r.value.value); }
  }

  /** The same for the sub-rules and invert byte of a logical rule: neither the
      short cut nor skipping moves the end. */
  lemma LogicalSkipsInStep(b: Bytes, p: nat, mode: Byte, count: nat, depth: nat)
    ensures var on, off := LogicalRead(b, p, mode, count, depth, true), LogicalRead(b, p, mode, count, depth, false);
            on.value.Some? ==> off.value.Some? && off.next == on.next
  {
    var subs := ReadRules(b, p, count, depth);
    if subs.value.Some? { OffNeverFailsList(subs.value.value); }
    if mode == 0 {
      AndReadAgrees(b, p, count, depth, true);
      AndReadAgrees(b, p, count, depth, false);
    } else {
      OrReadAgrees(b, p, count, depth, true);
      OrReadAgrees(b, p, count, depth, false);
    }
  }

  // ----- one pass over items -----

  /** What a default rule's items come to: the address list and whether any of
      them narrows the rule, or nothing past a broken matcher. */
  datatype ItemsPart = Lost | Items(spans: seq<Span>, constrained: bool, invert: Byte)

  function ItemsRead(b: Bytes, p: nat, on: bool): (r: Read<ItemsPart>)
    decreases |b| - p
  {
    match TakeByte(b, p)
    case Read(None, p1) => Read(None, p1)
    case Read(Some(kind), p1) =>
    if kind == FINAL then
      match TakeByte(b, p1)
      case Read(None, p2) => Read(None, p2)
      case Read(Some(invert), p2) => Read(Some(Items([], false, invert)), p2)
    else
      var item := ReadItem(kind, b, p1);
      if item.value.None? then
        if !IsMatcher(kind) then Read(None, item.next)
        else
          match SkipRest(b, item.next)
          case Read(None, p2) => Read(None, p2)
          case Read(Some(_), p2) => Read(Some(Lost), p2)
      else if on && !ValidItem(item.value.value) then Read(None, item.next)
      else
        var spans := if on then ItemSpans(item.value.value) else [];
        ItemsAfter(spans, Narrows(item.value.value), ItemsRead(b, item.next, on))
  }

  function ItemsAfter(spans: seq<Span>, constrained: bool, r: Read<ItemsPart>): Read<ItemsPart> {
    if r.value.Some? && r.value.value.Items? then
      var part := r.value.value;
      Read(Some(Items(spans + part.spans, constrained || part.constrained, part.invert)), r.next)
    else r
  }

  lemma ItemsAfterTwice(xs: seq<Span>, c: bool, ys: seq<Span>, d: bool, r: Read<ItemsPart>)
    ensures ItemsAfter(xs, c, ItemsAfter(ys, d, r)) == ItemsAfter(xs + ys, c || d, r) && ItemsAfter([], false, r) == r
  {
    if r.value.Some? && r.value.value.Items? {
      var zs := r.value.value.spans;
      assert xs + (ys + zs) == xs + ys + zs && [] + zs == zs;
    }
  }

  function Finished(part: ItemsPart): Extraction {
    match part
    case Lost => Extraction([], false)
    case Items(spans, constrained, invert) =>
      if invert != 0 || constrained then Extraction([], constrained) else Extraction(spans, false)
  }

  function WholeItems(items: seq<Item>, final: Option<Byte>, on: bool): ItemsPart {
    if final.None? then Lost
    else Items(if on then Gather(items, ItemSpans) else [], HasNarrowing(items), final.value)
  }

  lemma WholeItemsCons(item: Item, items: seq<Item>, final: Option<Byte>, on: bool)
    ensures var spans, rest := if on then ItemSpans(item) else [], Read(Some(WholeItems(items, final, on)), 0);
            ItemsAfter(spans, Narrows(item), rest) == Read(Some(WholeItems([item] + items, final, on)), 0)
    ensures (forall i :: i in [item] + items ==> ValidItem(i)) <==>
            (ValidItem(item) && forall i :: i in items ==> ValidItem(i))
  {
    assert ([item] + items)[1..] == items && item in [item] + items && forall i :: i in items ==> i in [item] + items;
    assert HasNarrowing([item] + items) <==> Narrows(item) || HasNarrowing(items);
    var none: seq<Span> := [];
    assert none + none == none;
  }

  lemma {:induction false} ItemsReadAgrees(b: Bytes, p: nat, on: bool)
    ensures var rule, r := ReadDefault(b, p), ItemsRead(b, p, on);
            (r.value.Some? ==> rule.value.Some? && r.next == rule.next &&
                               r.value.value == WholeItems(rule.value.value.items, rule.value.value.final, on)) &&
            (r.value.Some? <==> rule.value.Some? && (on ==> forall i :: i in rule.value.value.items ==> ValidItem(i)))
    decreases |b| - p
  {
    if p < |b| && b[p] != FINAL {
      var item := ReadItem(b[p], b, p + 1);
      if item.value.Some? {
        ItemsReadAgrees(b, item.next, on);
        var rest := ReadDefault(b, item.next);
        if rest.value.Some? { WholeItemsCons(item.value.value, rest.value.value.items, rest.value.value.final, on); }
      }
    }
  }

  /** The single pass over a default rule is what the rule comes to. */
  lemma DefaultReadAgrees(b: Bytes, p: nat, on: bool)
    ensures var r := ItemsRead(b, p, on);
            Parsed(ReadDefault(b, p), on) == (if r.value.None? then None else Some(Finished(r.value.value))) &&
            (r.value.Some? ==> r.next == ReadDefault(b, p).next)
  {
    ItemsReadAgrees(b, p, on);
  }

  // ----- one pass over ranges and sub-rules -----

  /** Ranges read for extraction: each is checked as it comes. */
  function RangesRead(b: Bytes, p: nat, count: nat): (r: Read<seq<Span>>)
    decreases count
  {
    if count == 0 then Read(Some([]), p)
    else
      match ReadRange(b, p)
      case Read(None, p1) => Read(None, p1)
      case Read(Some(range), p1) =>
      if !ValidRange(range) then Read(None, p1)
      else
        match RangesRead(b, p1, count - 1)
        case Read(None, p2) => Read(None, p2)
        case Read(Some(spans), p2) =>
        Read(Some([SpanOf(range)] + spans), p2)
  }

  lemma CidrCons(r: RawRange, rs: seq<RawRange>)
    ensures ItemSpans(Cidr([r] + rs)) == [SpanOf(r)] + ItemSpans(Cidr(rs))
    ensures ValidItem(Cidr([r] + rs)) <==> ValidRange(r) && ValidItem(Cidr(rs))
  {}

  lemma {:induction false} RangesReadAgrees(b: Bytes, p: nat, count: nat)
    ensures var r, s := ReadRanges(b, p, count), RangesRead(b, p, count);
            (s.value.Some? <==> r.value.Some? && ValidItem(Cidr(r.value.value))) &&
            (s.value.Some? ==> s == Read(Some(ItemSpans(Cidr(r.value.value))), r.next))
    decreases count
  {
    var one := ReadRange(b, p);
    if count > 0 && one.value.Some? {
      RangesReadAgrees(b, one.next, count - 1);
      var rest := ReadRanges(b, one.next, count - 1);
      if rest.value.Some? { CidrCons(one.value.value, rest.value.value); }
    }
  }

  /** A read of a list of which the front has been read already. */
  function After<T>(front: seq<T>, r: Read<seq<T>>): Read<seq<T>> {
    if r.value.None? then r else Read(Some(front + r.value.value), r.next)
  }

  lemma AfterNothing<T>(r: Read<seq<T>>)
    ensures After([], r) == r
  {
    if r.value.Some? { assert [] + r.value.value == r.value.value; }
  }

  lemma AfterTwice<T>(a: seq<T>, b: seq<T>, r: Read<seq<T>>)
    ensures After(a, After(b, r)) == After(a + b, r)
  {
    if r.value.Some? { assert a + (b + r.value.value) == a + b + r.value.value; }
  }

  /** A type byte and its rule, with what the rule comes to. */
  function RuleRead(b: Bytes, p: nat, depth: nat, on: bool): (r: Read<Extraction>) {
    match TakeByte(b, p)
    case Read(None, p1) => Read(None, p1)
    case Read(Some(kind), p1) => Read(Parsed(ReadRule(kind, b, p1, depth), on), ReadRule(kind, b, p1, depth).next)
  }

  /** A conjunction in one pass: after the first useless sub-rule the rest is
      only skipped. */
  function AndRead(b: Bytes, p: nat, count: nat, depth: nat, on: bool): (r: Read<AndPart>)
    decreases count
  {
    if count == 0 then Read(Some(Groups([])), p)
    else
      match RuleRead(b, p, depth, on)
      case Read(None, p2) => Read(None, p2)
      case Read(Some(e), p2) =>
        if e.constrained || e.spans == [] then
          match ReadRules(b, p2, count - 1, depth)
          case Read(None, p3) => Read(None, p3)
          case Read(Some(_), p3) =>
          Read(Some(Cut), p3)
        else GroupsAfter([e.spans], AndRead(b, p2, count - 1, depth, on))
  }

  function GroupsAfter(front: seq<seq<Span>>, r: Read<AndPart>): Read<AndPart> {
    if r.value.Some? && r.value.value.Groups? then Read(Some(Groups(front + r.value.value.groups)), r.next) else r
  }

  lemma GroupsAfterTwice(a: seq<seq<Span>>, b: seq<seq<Span>>, r: Read<AndPart>)
    ensures GroupsAfter(a, GroupsAfter(b, r)) == GroupsAfter(a + b, r) && GroupsAfter([], r) == r
  {
    if r.value.Some? && r.value.value.Groups? {
      assert a + (b + r.value.value.groups) == a + b + r.value.value.groups &&
             [] + r.value.value.groups == r.value.value.groups;
    }
  }

  /** The short cut changes neither the result nor where the stream ends up. */
  lemma {:induction false} AndReadAgrees(b: Bytes, p: nat, count: nat, depth: nat, on: bool)
    ensures var subs, r := ReadRules(b, p, count, depth), AndRead(b, p, count, depth, on);
            r.value == (if subs.value.None? then None else ExtractedAnd(subs.value.value, on)) &&
            (r.value.Some? ==> r.next == subs.next)
    decreases count
  {
    if count > 0 && TakeByte(b, p).value.Some? {
      var one := ReadRule(TakeByte(b, p).value.value, b, TakeByte(b, p).next, depth);
      if one.value.Some? {
        AndReadAgrees(b, one.next, count - 1, depth, on);
        var more := ReadRules(b, one.next, count - 1, depth);
        if more.value.Some? { assert ([one.value.value] + more.value.value)[1..] == more.value.value; }
      }
    }
  }

  /** A disjunction in one pass. */
  function OrRead(b: Bytes, p: nat, count: nat, depth: nat, on: bool): (r: Read<Extraction>)
    decreases count
  {
    if count == 0 then Read(Some(Extraction([], true)), p)
    else
      match RuleRead(b, p, depth, on)
      case Read(None, p2) => Read(None, p2)
      case Read(Some(e), p2) =>
        var one := if e.constrained then Extraction([], true) else Extraction(e.spans, false);
        UnionAfter(one, OrRead(b, p2, count - 1, depth, on))
  }

  function UnionAfter(e: Extraction, r: Read<Extraction>): Read<Extraction> {
    if r.value.None? then r
    else Read(Some(Extraction(e.spans + r.value.value.spans, e.constrained && r.value.value.constrained)), r.next)
  }

  lemma UnionAfterTwice(e: Extraction, f: Extraction, r: Read<Extraction>)
    ensures UnionAfter(e, UnionAfter(f, r)) ==
            UnionAfter(Extraction(e.spans + f.spans, e.constrained && f.constrained), r)
    ensures UnionAfter(Extraction([], true), r) == r
  {
    if r.value.Some? {
      var spans := r.value.value.spans;
      assert e.spans + (f.spans + spans) == e.spans + f.spans + spans && [] + spans == spans;
    }
  }

  lemma {:induction false} OrReadAgrees(b: Bytes, p: nat, count: nat, depth: nat, on: bool)
    ensures var subs, r := ReadRules(b, p, count, depth), OrRead(b, p, count, depth, on);
            r.value == (if subs.value.None? then None else ExtractedOr(subs.value.value, on)) &&
            (r.value.Some? ==> r.next == subs.next)
    decreases count
  {
    if count > 0 && TakeByte(b, p).value.Some? {
      var one := ReadRule(TakeByte(b, p).value.value, b, TakeByte(b, p).next, depth);
      if one.value.Some? {
        OrReadAgrees(b, one.next, count - 1, depth, on);
        var more := ReadRules(b, one.next, count - 1, depth);
        if more.value.Some? {
          assert ([one.value.value] + more.value.value)[1..] == more.value.value;
          OrConstrainedIsEmpty(more.value.value, on);
          UnionAfterTwice(Extraction([], true), Extraction([], true), OrRead(b, one.next, count - 1, depth, on));
        }
      }
    }
  }

  /** What is left of a logical rule after its mode and sub-rule count. */
  function LogicalRead(b: Bytes, p: nat, mode: Byte, count: nat, depth: nat, on: bool): (r: Read<Extraction>) {
    if mode == 0 then
      match AndRead(b, p, count, depth, on)
      case Read(None, p1) => Read(None, p1)
      case Read(Some(part), p1) =>
      match TakeByte(b, p1)
      case Read(None, p2) => Read(None, p2)
      case Read(Some(invert), p2) => Read(Some(Conjoined(part, invert)), p2)
    else
      match OrRead(b, p, count, depth, on)
      case Read(None, p1) => Read(None, p1)
      case Read(Some(e), p1) =>
      match TakeByte(b, p1)
      case Read(None, p2) => Read(None, p2)
      case Read(Some(invert), p2) => Read(Some(if invert != 0 then Extraction([], true) else e), p2)
  }

  lemma LogicalReadAgrees(b: Bytes, p: nat, depth: nat, on: bool)
    requires depth <= MAX_DEPTH
    ensures var mode := TakeByte(b, p);
            if mode.value.None? || mode.value.value > 1 then Parsed(ReadLogical(b, p, depth), on) == None
            else
              var count := Uvarint(b, mode.next);
              if count.value.None? then Parsed(ReadLogical(b, p, depth), on) == None
              else
                var r := LogicalRead(b, count.next, mode.value.value, count.value.value, depth + 1, on);
                r.value == Parsed(ReadLogical(b, p, depth), on) &&
                (r.value.Some? ==> r.next == ReadLogical(b, p, depth).next)
  {
    var mode := TakeByte(b, p);
    if mode.value.Some? && mode.value.value <= 1 {
      var count := Uvarint(b, mode.next);
      if count.value.Some? {
        AndReadAgrees(b, count.next, count.value.value, depth + 1, on);
        OrReadAgrees(b, count.next, count.value.value, depth + 1, on);
      }
    }
  }

  // ----- whole files -----

  /** The address lists of a file's rules, empty ones left out. */
  function Entries(rules: seq<Rule>, on: bool): Option<seq<seq<Span>>> {
    if rules == [] then Some([])
    else
      match (Extracted(rules[0], on), Entries(rules[1..], on))
      case (Some(e), Some(more)) => Some((if e.spans == [] then [] else [e.spans]) + more)
      case _ => None
  }

  function EntriesRead(b: Bytes, p: nat, count: nat, on: bool): (r: Option<seq<seq<Span>>>)
    decreases count
  {
    if count == 0 then Some([])
    else
      match RuleRead(b, p, 0, on)
      case Read(None, _) => None
      case Read(Some(e), p2) => EntriesAfter(if e.spans == [] then [] else [e.spans], EntriesRead(b, p2, count - 1, on))
  }

  function EntriesAfter(front: seq<seq<Span>>, r: Option<seq<seq<Span>>>): Option<seq<seq<Span>>> {
    if r.None? then None else Some(front + r.value)
  }

  lemma EntriesAfterTwice(a: seq<seq<Span>>, b: seq<seq<Span>>, r: Option<seq<seq<Span>>>)
    ensures EntriesAfter(a, EntriesAfter(b, r)) == EntriesAfter(a + b, r) && EntriesAfter([], r) == r
  {
    if r.Some? { assert a + (b + r.value) == a + b + r.value && [] + r.value == r.value; }
  }

  /** One more rule: it fails the file, or adds its address list unless empty. */
  lemma EntriesNext(found: seq<seq<Span>>, b: Bytes, p: nat, count: nat, on: bool)
    requires count > 0
    ensures var e, whole := RuleRead(b, p, 0, on), EntriesAfter(found, EntriesRead(b, p, count, on));
            if e.value.None? then whole == None
            else whole == EntriesAfter(WithEntry(found, e.value.value), EntriesRead(b, e.next, count - 1, on))
  {
    var e := RuleRead(b, p, 0, on);
    if e.value.Some? {
      var one := if e.value.value.spans == [] then [] else [e.value.value.spans];
      EntriesAfterTwice(found, one, EntriesRead(b, e.next, count - 1, on));
      assert one == [] ==> found + one == found;
    }
  }

  /** A rule's addresses are an entry of the file unless there are none. */
  function WithEntry(found: seq<seq<Span>>, e: Extraction): seq<seq<Span>> {
    if |e.spans| > 0 then found + [e.spans] else found
  }

  /** The file read so far: these entries, and whatever the rest gives. */
  predicate EntriesSoFar(found: seq<seq<Span>>, b: Bytes, p: nat, left: nat, on: bool, whole: Option<seq<seq<Span>>>) {
    EntriesAfter(found, EntriesRead(b, p, left, on)) == whole
  }

  lemma EntriesStart(b: Bytes, p: nat, count: nat, on: bool)
    ensures EntriesSoFar([], b, p, count, on, EntriesRead(b, p, count, on))
  {
    EntriesAfterTwice([], [], EntriesRead(b, p, count, on));
  }

  lemma EntriesEnd(found: seq<seq<Span>>, b: Bytes, p: nat, on: bool, whole: Option<seq<seq<Span>>>)
    requires EntriesSoFar(found, b, p, 0, on, whole)
    ensures whole == Some(found)
  {
    assert found + [] == found;
  }

  lemma {:induction false} EntriesReadAgrees(b: Bytes, p: nat, count: nat, on: bool)
    ensures var rules := ReadRules(b, p, count, 0);
            EntriesRead(b, p, count, on) == if rules.value.None? then None else Entries(rules.value.value, on)
    decreases count
  {
    var kind := TakeByte(b, p);
    if count > 0 && kind.value.Some? {
      var one := ReadRule(kind.value.value, b, kind.next, 0);
      if one.value.Some? {
        EntriesReadAgrees(b, one.next, count - 1, on);
        var more := ReadRules(b, one.next, count - 1, 0);
        if more.value.Some? { assert ([one.value.value] + more.value.value)[1..] == more.value.value; }
      }
    }
  }

  /** The rules of an inflated file. */
  function FileRules(b: Bytes): Option<seq<Rule>> {
    match Uvarint(b, 0)
    case Read(None, _) => None
    case Read(Some(count), p) => ReadRules(b, p, count, 0).value
  }

  function FileEntries(b: Bytes, on: bool): Option<seq<seq<Span>>> {
    if FileRules(b).None? then None else Entries(FileRules(b).value, on)
  }

  /** Every address a file yields matches one of its rules, whatever else the
      packet is; and with extraction off the file still parses. */
  lemma FileSound(b: Bytes, entry: seq<Span>, a: Addr, w: World)
    requires FileEntries(b, true).Some? && entry in FileEntries(b, true).value && Covers(entry, a)
    ensures exists rule :: rule in FileRules(b).value && Matches(rule, a, w)
    ensures FileEntries(b, false) == Some([])
  {
    EntriesSound(FileRules(b).value, entry, a, w);
    OffYieldsNothing(FileRules(b).value);
  }

  lemma {:induction false} EntriesSound(rules: seq<Rule>, entry: seq<Span>, a: Addr, w: World)
    requires Entries(rules, true).Some? && entry in Entries(rules, true).value && Covers(entry, a)
    ensures exists rule :: rule in rules && Matches(rule, a, w)
  {
    if entry in Entries(rules[1..], true).value {
      EntriesSound(rules[1..], entry, a, w);
    } else {
      Sound(rules[0], true, a, w);
      assert rules[0] in rules;
    }
  }

  /** What is extracted from a rule; nothing from one that is refused. */
  function Addresses(rule: Rule, on: bool): seq<Span> {
    match Extracted(rule, on)
    case None => []
    case Some(e) => e.spans
  }

  function AddressesOf(rules: seq<Rule>, on: bool): (r: seq<seq<Span>>)
    ensures |r| == |rules| && forall i :: 0 <= i < |rules| ==> r[i] == Addresses(rules[i], on)
  {
    seq(|rules|, i requires 0 <= i < |rules| => Addresses(rules[i], on))
  }

  ghost predicate HasAddress(spans: seq<Span>) { exists a :: Covers(spans, a) }

  /** These lists, in their order and no others, are the entries one by one. */
  ghost predicate GivenBy(at: seq<nat>, lists: seq<seq<Span>>, entries: seq<seq<Span>>) {
    Increasing(at) && Picks(at, lists, entries) && AllGiving(at, lists)
  }

  predicate Increasing(at: seq<nat>) { forall i, j :: 0 <= i < j < |at| ==> at[i] < at[j] }

  predicate Picks<T(==)>(at: seq<nat>, xs: seq<T>, ys: seq<T>) {
    |at| == |ys| && forall i :: 0 <= i < |at| ==> at[i] < |xs| && xs[at[i]] == ys[i]
  }

  ghost predicate AllGiving(at: seq<nat>, lists: seq<seq<Span>>) {
    forall j :: 0 <= j < |lists| ==> (j in at <==> HasAddress(lists[j]))
  }

  /** The same places counted from one earlier, and perhaps that one as well. */
  function Later(at: seq<nat>, first: bool): (r: seq<nat>)
    ensures |r| == |at| + if first then 1 else 0
    ensures forall i :: 0 <= i < |r| ==>
      r[i] == if first && i == 0 then 0 else if first then at[i - 1] + 1 else at[i] + 1
  {
    (if first then [0] else []) + seq(|at|, i requires 0 <= i < |at| => at[i] + 1)
  }

  lemma LaterIn(at: seq<nat>, first: bool, j: nat)
    ensures j in Later(at, first) <==> if j == 0 then first else j - 1 in at
  {
    var r := Later(at, first);
    if j > 0 && j - 1 in at {
      var i :| 0 <= i < |at| && at[i] == j - 1;
      assert r[if first then i + 1 else i] == j;
    }
    if j == 0 && first { assert r[0] == 0; }
  }

  lemma PicksNext<T>(at: seq<nat>, xs: seq<T>, ys: seq<T>, first: bool)
    requires xs != [] && Picks(at, xs[1..], ys)
    ensures Picks(Later(at, first), xs, (if first then [xs[0]] else []) + ys)
  {
    var r, zs := Later(at, first), (if first then [xs[0]] else []) + ys;
    forall i | 0 <= i < |r| ensures r[i] < |xs| && xs[r[i]] == zs[i] {
      var k := if first then i - 1 else i;
      if k >= 0 { assert xs[1..][at[k]] == ys[k] && zs[i] == ys[k]; }
    }
  }

  lemma AllGivingNext(at: seq<nat>, lists: seq<seq<Span>>)
    requires lists != [] && AllGiving(at, lists[1..])
    ensures AllGiving(Later(at, HasAddress(lists[0])), lists)
  {
    forall j | 0 <= j < |lists| ensures j in Later(at, HasAddress(lists[0])) <==> HasAddress(lists[j]) {
      LaterIn(at, HasAddress(lists[0]), j);
      assert j > 0 ==> lists[1..][j - 1] == lists[j];
    }
  }

  /** A file gives one entry for each rule whose extraction has an address, in the
      order of the rules, and nothing for the others. */
  lemma {:induction false} OneEntryEach(rules: seq<Rule>, on: bool) returns (at: seq<nat>)
    requires Entries(rules, on).Some?
    ensures GivenBy(at, AddressesOf(rules, on), Entries(rules, on).value)
  {
    if rules == [] {
      at := [];
    } else {
      at := OneEntryEach(rules[1..], on);
      var lists := AddressesOf(rules, on);
      assert lists[1..] == AddressesOf(rules[1..], on);
      EmptyIffNothingCovered(rules[0], on);
      PicksNext(at, lists, Entries(rules[1..], on).value, HasAddress(lists[0]));
      AllGivingNext(at, lists);
      at := Later(at, HasAddress(lists[0]));
    }
  }

  /** A file has entries exactly when no rule of it is refused. */
  lemma {:induction false} EntriesUnlessRefused(rules: seq<Rule>, on: bool)
    ensures Entries(rules, on).Some? <==> forall rule :: rule in rules ==> Extracted(rule, on).Some?
  {
    if rules != [] {
      EntriesUnlessRefused(rules[1..], on);
      assert forall rule :: rule in rules <==> rule == rules[0] || rule in rules[1..];
      assert Entries(rules, on).Some? <==> Extracted(rules[0], on).Some? && Entries(rules[1..], on).Some?;
    }
  }

  ghost predicate SomeCovers(entries: seq<seq<Span>>, a: Addr) { exists entry :: entry in entries && Covers(entry, a) }

  /** The extraction of some rule of the file has the address. */
  ghost predicate SomeExtracts(rules: seq<Rule>, on: bool, a: Addr) {
    exists rule :: rule in rules && Covers(Addresses(rule, on), a)
  }

  /** The entries cover what the extractions of the rules cover. */
  lemma FileCovers(b: Bytes, on: bool, a: Addr)
    requires FileEntries(b, on).Some?
    ensures SomeCovers(FileEntries(b, on).value, a) <==> SomeExtracts(FileRules(b).value, on, a)
  {
    var rules, entries := FileRules(b).value, FileEntries(b, on).value;
    var lists := AddressesOf(rules, on);
    var at := OneEntryEach(rules, on);
    if SomeCovers(entries, a) {
      var i :| 0 <= i < |entries| && Covers(entries[i], a);
      assert lists[at[i]] == entries[i] && rules[at[i]] in rules;
    }
    if SomeExtracts(rules, on, a) {
      var j :| 0 <= j < |rules| && Covers(Addresses(rules[j], on), a);
      assert HasAddress(lists[j]);
      var i :| 0 <= i < |at| && at[i] == j;
      assert lists[at[i]] == entries[i] && entries[i] in entries;
    }
  }

  /** A file of pure rules gives exactly the addresses some rule of it matches. */
  lemma FileExact(b: Bytes, a: Addr, w: World)
    requires FileRules(b).Some? && forall rule :: rule in FileRules(b).value ==> Pure(rule)
    ensures FileEntries(b, true).Some?
    ensures SomeCovers(FileEntries(b, true).value, a) <==>
              exists rule :: rule in FileRules(b).value && Matches(rule, a, w)
  {
    var rules := FileRules(b).value;
    forall rule | rule in rules
      ensures Extracted(rule, true).Some? && (Covers(Extracted(rule, true).value.spans, a) <==> Matches(rule, a, w))
    {
      Exact(rule, a, w);
    }
    EntriesUnlessRefused(rules, true);
    FileCovers(b, true, a);
  }

  lemma {:induction false} OffYieldsNothing(rules: seq<Rule>)
    ensures Entries(rules, false) == Some([])
  {
    if rules != [] {
      OffNeverFails(rules[0]);
      OffYieldsNothing(rules[1..]);
      var none: seq<seq<Span>> := [];
      assert none + none == none;
    }
  }

  class Reader {
    const bytes: Bytes
    var at: nat

    constructor (b: Bytes)
      ensures bytes == b && at == 0
    {
      bytes, at := b, 0;
    }

    method ReadByte() returns (b: Option<Byte>)
      modifies this
      ensures Read(b, at) == TakeByte(bytes, old(at))
    {
      if at >= |bytes| {
        return None;
      }
      b := Some(bytes[at]);
      at := at + 1;
    }

    method ReadUvarint() returns (n: Option<nat>)
      modifies this
      ensures Read(n, at) == Uvarint(bytes, old(at))
    {
      var r := Uvarint(bytes, at);
      n, at := r.value, r.next;
    }

    method ReadBytes(n: nat) returns (b: Option<Bytes>)
      modifies this
      ensures Read(b, at) == TakeBytes(bytes, old(at), n)
    {
      var r := TakeBytes(bytes, at, n);
      b, at := r.value, r.next;
    }

    method ReadLimited(limit: nat) returns (n: Option<nat>)
      modifies this
      ensures Read(n, at) == ReadCount(bytes, old(at), limit)
    {
      n := ReadUvarint();
      if n.Some? && n.value > limit {
        n := None;
      }
    }

    // ----- skipping -----

    method SkipBlob() returns (b: Option<Bytes>)
      modifies this
      ensures Read(b, at) == ReadBlob(bytes, old(at))
    {
      var n := ReadUvarint();
      if n.None? {
        return None;
      }
      b := ReadBytes(n.value);
    }

    method SkipIPSet() returns (ok: bool)
      modifies this
      ensures ok == ReadIPSet(bytes, old(at)).value.Some? && at == ReadIPSet(bytes, old(at)).next
    {
      var version := ReadByte();
      if version.None? || version.value != 1 {
        return false;
      }
      var count := ReadBytes(8);
      if count.None? || BigEndian(count.value) > MAX_COUNT {
        return false;
      }
      ok := SkipRanges(BigEndian(count.value));
    }

    method SkipRanges(n: nat) returns (ok: bool)
      modifies this
      ensures ok == ReadRanges(bytes, old(at), n).value.Some? && at == ReadRanges(bytes, old(at), n).next
    {
      for i := 0 to n
        invariant Alike(ReadRanges(bytes, at, n - i), ReadRanges(bytes, old(at), n))
      {
        var from := SkipBlob();
        if from.None? {
          return false;
        }
        var to := SkipBlob();
        if to.None? {
          return false;
        }
      }
      ok := true;
    }

    method SkipStringArray() returns (ok: bool)
      modifies this
      ensures ok == ReadStrings(bytes, old(at)).value.Some? && at == ReadStrings(bytes, old(at)).next
    {
      var n := ReadLimited(MAX_COUNT);
      if n.None? {
        return false;
      }
      ok := SkipBlobs(n.value);
    }

    method SkipBlobs(n: nat) returns (ok: bool)
      modifies this
      ensures ok == PassBlobs(bytes, old(at), n).value.Some? && at == PassBlobs(bytes, old(at), n).next
    {
      for i := 0 to n
        invariant PassBlobs(bytes, at, n - i) == PassBlobs(bytes, old(at), n)
      {
        var s := SkipBlob();
        if s.None? {
          return false;
        }
      }
      ok := true;
    }

    method SkipPrefix() returns (b: Option<Bytes>)
      modifies this
      ensures Read(b, at) == ReadPrefix(bytes, old(at))
    {
      var n := ReadUvarint();
      if n.None? || n.value > 16 {
        return None;
      }
      b := ReadBytes(n.value + 1);
    }

    method SkipPrefixArray() returns (ok: bool)
      modifies this
      ensures ok == ReadPrefixes(bytes, old(at)).value.Some? && at == ReadPrefixes(bytes, old(at)).next
    {
      var n := ReadLimited(MAX_COUNT);
      if n.None? {
        return false;
      }
      ok := SkipPrefixes(n.value);
    }

    method SkipPrefixes(n: nat) returns (ok: bool)
      modifies this
      ensures ok == PassPrefixes(bytes, old(at), n).value.Some? && at == PassPrefixes(bytes, old(at), n).next
    {
      for i := 0 to n
        invariant PassPrefixes(bytes, at, n - i) == PassPrefixes(bytes, old(at), n)
      {
        var p := SkipPrefix();
        if p.None? {
          return false;
        }
      }
      ok := true;
    }

    method SkipNetworkInterfaceAddress() returns (ok: bool)
      modifies this
      ensures ok == ReadInterfaces(bytes, old(at)).value.Some? && at == ReadInterfaces(bytes, old(at)).next
    {
      var n := ReadLimited(MAX_COUNT);
      if n.None? {
        return false;
      }
      for i := 0 to n.value
        invariant PassInterfaces(bytes, at, n.value - i) == ReadInterfaces(bytes, old(at))
      {
        var key := ReadBytes(1);
        if key.None? {
          return false;
        }
        var prefixes := SkipPrefixArray();
        if !prefixes {
          return false;
        }
      }
      ok := true;
    }

    method SkipMatcher() returns (ok: bool)
      modifies this
      ensures ok == ReadMatcher(bytes, old(at)).value.Some? && at == ReadMatcher(bytes, old(at)).next
    {
      var version := ReadByte();
      if version.None? {
        return false;
      }
      var leaves := ReadLimited(MAX_COUNT);
      if leaves.None? {
        return false;
      }
      var skipped := ReadBytes(8 * leaves.value);
      if skipped.None? {
        return false;
      }
      var bitmap := ReadLimited(MAX_COUNT);
      if bitmap.None? {
        return false;
      }
      skipped := ReadBytes(8 * bitmap.value);
      if skipped.None? {
        return false;
      }
      var labels := ReadLimited(MAX_MATCHER_BYTES);
      if labels.None? {
        return false;
      }
      skipped := ReadBytes(labels.value);
      ok := skipped.Some?;
    }

    method SkipArray(size: nat) returns (ok: bool)
      requires size == 1 || size == 2
      modifies this
      ensures var r := if size == 1 then SrsFraming.ReadBytes(bytes, old(at)) else ReadPorts(bytes, old(at));
              ok == r.value.Some? && at == r.next
    {
      var n := ReadLimited(MAX_COUNT);
      if n.None? {
        return false;
      }
      var skipped := ReadBytes(if size == 1 then n.value else 2 * n.value);
      ok := skipped.Some?;
    }

    method SkipItemPayload(kind: Byte) returns (ok: bool)
      modifies this
      ensures ok == SkipPayload(kind, bytes, old(at)).value.Some? && at == SkipPayload(kind, bytes, old(at)).next
    {
      if kind == 5 || kind == IP_CIDR {
        ok := SkipIPSet();
      } else if IsMatcher(kind) {
        ok := SkipMatcher();
      } else if kind == 0 || kind == 7 || kind == 9 {
        ok := SkipArray(2);
      } else if IsStrings(kind) {
        ok := SkipStringArray();
      } else if kind == 18 {
        ok := SkipArray(1);
      } else if kind == 19 || kind == 20 {
        ok := true;
      } else if kind == 21 {
        ok := SkipNetworkInterfaceAddress();
      } else if kind == 22 {
        ok := SkipPrefixArray();
      } else {
        ok := false;
      }
    }

    method SkipRemaining() returns (ok: bool)
      modifies this
      ensures ok == SkipRest(bytes, old(at)).value.Some? && at == SkipRest(bytes, old(at)).next
    {
      while true
        invariant SkipRest(bytes, old(at)) == SkipRest(bytes, at)
        decreases |bytes| - at
      {
        var kind := ReadByte();
        if kind.None? {
          return false;
        }
        if kind.value == FINAL {
          var invert := ReadByte();
          return invert.Some?;
        }
        var skipped := SkipItemPayload(kind.value);
        if !skipped {
          return false;
        }
      }
    }

    // ----- extraction -----

    /** Reads the ranges of an item, refusing malformed ones. */
    method ReadIPSetAsCIDRs() returns (spans: Option<seq<Span>>)
      modifies this
      ensures var r := ReadIPSet(bytes, old(at));
              (spans.Some? <==> r.value.Some? && ValidItem(Cidr(r.value.value))) &&
              (spans.Some? ==> spans.value == ItemSpans(Cidr(r.value.value)) && at == r.next)
    {
      var version := ReadByte();
      if version.None? || version.value != 1 {
        return None;
      }
      var count := ReadBytes(8);
      if count.None? || BigEndian(count.value) > MAX_COUNT {
        return None;
      }
      RangesReadAgrees(bytes, at, BigEndian(count.value));
      spans := ReadSpans(BigEndian(count.value));
    }

    method ReadSpans(n: nat) returns (spans: Option<seq<Span>>)
      modifies this
      ensures spans == RangesRead(bytes, old(at), n).value && (spans.Some? ==> at == RangesRead(bytes, old(at), n).next)
    {
      AfterNothing(RangesRead(bytes, at, n));
      var found: seq<Span> := [];
      for i := 0 to n
        invariant After(found, RangesRead(bytes, at, n - i)) == RangesRead(bytes, old(at), n)
      {
        ghost var one := ReadRange(bytes, at);
        if one.value.Some? { AfterTwice(found, [SpanOf(one.value.value)], RangesRead(bytes, one.next, n - i - 1)); }
        var range := ReadValidRange();
        if range.None? {
          return None;
        }
        found := found + [SpanOf(range.value)];
      }
      assert found + [] == found;
      spans := Some(found);
    }

    /** One range, both ends of one family and in order. */
    method ReadValidRange() returns (range: Option<RawRange>)
      modifies this
      ensures var r := ReadRange(bytes, old(at)).value;
              range.Some? <==> r.Some? && ValidRange(r.value)
      ensures range.Some? ==> Read(range, at) == ReadRange(bytes, old(at))
    {
      var from := ReadAddress();
      if from.None? {
        return None;
      }
      var to := ReadAddress();
      if to.None? || |from.value| != |to.value| || BigEndian(from.value) > BigEndian(to.value) {
        return None;
      }
      range := Some(RawRange(from.value, to.value));
    }

    /** An address of four or sixteen bytes. */
    method ReadAddress() returns (b: Option<Bytes>)
      modifies this
      ensures var r := ReadBlob(bytes, old(at));
              (b.Some? <==> r.value.Some? && (|r.value.value| == 4 || |r.value.value| == 16)) &&
              (b.Some? ==> b == r.value && at == r.next)
    {
      var n := ReadUvarint();
      if n.None? || (n.value != 4 && n.value != 16) {
        return None;
      }
      b := ReadBytes(n.value);
    }

    /** An item's payload: destination ranges are read for extraction, everything
        else is skipped. */
    method ReadItemPayload(kind: Byte, on: bool) returns (cidrs: Option<seq<Span>>)
      modifies this
      ensures var r := ReadItem(kind, bytes, old(at));
              (cidrs.Some? <==> r.value.Some? && (on ==> ValidItem(r.value.value))) &&
              (cidrs.Some? ==> cidrs.value == (if on then ItemSpans(r.value.value) else [])) &&
              (kind != IP_CIDR || !on || cidrs.Some? ==> at == r.next)
    {
      if kind == IP_CIDR && on {
        cidrs := ReadIPSetAsCIDRs();
      } else {
        var ok := SkipItemPayload(kind);
        cidrs := if ok then Some([]) else None;
      }
    }

    method ParseDefaultRule(on: bool) returns (e: Option<Extraction>)
      modifies this
      ensures e == Parsed(ReadDefault(bytes, old(at)), on) && (e.Some? ==> at == ReadDefault(bytes, old(at)).next)
    {
      DefaultReadAgrees(bytes, at, on);
      var allCIDRs: seq<Span>, hasConstraint := [], false;
      ItemsAfterTwice([], false, [], false, ItemsRead(bytes, at, on));
      while true
        invariant ItemsAfter(allCIDRs, hasConstraint, ItemsRead(bytes, at, on)) == ItemsRead(bytes, old(at), on)
        decreases |bytes| - at
      {
        var kind := ReadByte();
        if kind.None? {
          return None;
        }
        if kind.value == FINAL {
          assert allCIDRs + [] == allCIDRs;
          var invert := ReadByte();
          if invert.None? {
            return None;
          }
          if invert.value != 0 || hasConstraint {
            return Some(Extraction([], hasConstraint));
          }
          return Some(Extraction(allCIDRs, false));
        }
        var cidrs := ReadItemPayload(kind.value, on);
        if cidrs.None? {
          if !IsMatcher(kind.value) {
            return None;
          }
          var recovered := SkipRemaining();
          if !recovered {
            return None;
          }
          return Some(Extraction([], false));
        }
        ItemsAfterTwice(allCIDRs, hasConstraint, cidrs.value, kind.value !in {2, 3, 4, 16, IP_CIDR},
          ItemsRead(bytes, at, on));
        allCIDRs := allCIDRs + cidrs.value;
        if kind.value !in {2, 3, 4, 16, IP_CIDR} {
          hasConstraint := true;
        }
      }
    }

    /** A rule after its type byte. */
    method ParseRule(kind: Byte, on: bool, depth: nat) returns (e: Option<Extraction>)
      modifies this
      ensures e == Parsed(ReadRule(kind, bytes, old(at), depth), on)
      ensures e.Some? ==> at == ReadRule(kind, bytes, old(at), depth).next
      decreases if depth <= MAX_DEPTH then MAX_DEPTH + 1 - depth else 0, 1
    {
      if kind == 0 {
        e := ParseDefaultRule(on);
      } else if kind == 1 {
        e := ParseLogicalRule(on, depth);
      } else {
        e := None;
      }
    }

    /** A type byte and its rule. */
    method ParseTypedRule(on: bool, depth: nat) returns (e: Option<Extraction>)
      modifies this
      ensures e == RuleRead(bytes, old(at), depth, on).value
      ensures e.Some? ==> at == RuleRead(bytes, old(at), depth, on).next
      decreases if depth <= MAX_DEPTH then MAX_DEPTH + 1 - depth else 0, 2
    {
      var kind := ReadByte();
      if kind.None? {
        return None;
      }
      e := ParseRule(kind.value, on, depth);
    }

    /** Reads past sub-rules with extraction off. */
    method SkipRules(count: nat, depth: nat) returns (ok: bool)
      modifies this
      ensures ok == ReadRules(bytes, old(at), count, depth).value.Some?
      ensures ok ==> at == ReadRules(bytes, old(at), count, depth).next
      decreases if depth <= MAX_DEPTH then MAX_DEPTH + 1 - depth else 0, 2
    {
      for i := 0 to count
        invariant Alike(ReadRules(bytes, at, count - i, depth), ReadRules(bytes, old(at), count, depth))
      {
        var kind := ReadByte();
        if kind.None? {
          return false;
        }
        SkippingStaysInStep(kind.value, bytes, at, depth);
        var e := ParseRule(kind.value, false, depth);
        if e.None? {
          return false;
        }
      }
      ok := true;
    }

    method ParseLogicalRule(on: bool, depth: nat) returns (e: Option<Extraction>)
      modifies this
      ensures e == Parsed(ReadLogical(bytes, old(at), depth), on)
      ensures e.Some? ==> at == ReadLogical(bytes, old(at), depth).next
      decreases if depth <= MAX_DEPTH then MAX_DEPTH + 1 - depth else 0, 0
    {
      if depth > MAX_DEPTH {
        return None;
      }
      LogicalReadAgrees(bytes, at, depth, on);
      var mode := ReadByte();
      if mode.None? {
        return None;
      }
      var count := ReadUvarint();
      if count.None? {
        return None;
      }
      if mode.value > 1 {
        var ok := SkipRules(count.value, depth + 1);
        return None;
      }
      if mode.value == 0 {
        e := ParseAnd(on, depth + 1, count.value);
      } else {
        e := ParseOr(on, depth + 1, count.value);
      }
    }

    /** The sub-rules of a conjunction; once cut, the rest is skipped. */
    method ReadAnd(on: bool, depth: nat, count: nat) returns (part: Option<AndPart>)
      modifies this
      ensures part == AndRead(bytes, old(at), count, depth, on).value
      ensures part.Some? ==> at == AndRead(bytes, old(at), count, depth, on).next
      decreases if depth <= MAX_DEPTH then MAX_DEPTH + 1 - depth else 0, 3
    {
      var allGroups: seq<seq<Span>> := [];
      GroupsAfterTwice([], [], AndRead(bytes, at, count, depth, on));
      for i := 0 to count
        invariant GroupsAfter(allGroups, AndRead(bytes, at, count - i, depth, on)) ==
                  AndRead(bytes, old(at), count, depth, on)
      {
        var sub := ParseTypedRule(on, depth);
        if sub.None? {
          return None;
        }
        if sub.value.constrained || sub.value.spans == [] {
          var ok := SkipRules(count - i - 1, depth);
          return if ok then Some(Cut) else None;
        }
        GroupsAfterTwice(allGroups, [sub.value.spans], AndRead(bytes, at, count - i - 1, depth, on));
        allGroups := allGroups + [sub.value.spans];
      }
      assert allGroups + [] == allGroups;
      part := Some(Groups(allGroups));
    }

    /** The sub-rules and invert byte of a conjunction. */
    method ParseAnd(on: bool, depth: nat, count: nat) returns (e: Option<Extraction>)
      modifies this
      ensures e == LogicalRead(bytes, old(at), 0, count, depth, on).value
      ensures e.Some? ==> at == LogicalRead(bytes, old(at), 0, count, depth, on).next
      decreases if depth <= MAX_DEPTH then MAX_DEPTH + 1 - depth else 0, 4
    {
      var part := ReadAnd(on, depth, count);
      if part.None? {
        return None;
      }
      var invert := ReadByte();
      if invert.None? {
        return None;
      }
      if part.value.Cut? || invert.value != 0 {
        return Some(Extraction([], true));
      }
      if |part.value.groups| == 0 {
        return Some(Extraction([], false));
      }
      var result := IntersectCIDRs(part.value.groups);
      e := Some(Extraction(result, false));
    }

    /** The sub-rules of a disjunction. */
    method ReadOr(on: bool, depth: nat, count: nat) returns (e: Option<Extraction>)
      modifies this
      ensures e == OrRead(bytes, old(at), count, depth, on).value
      ensures e.Some? ==> at == OrRead(bytes, old(at), count, depth, on).next
      decreases if depth <= MAX_DEPTH then MAX_DEPTH + 1 - depth else 0, 3
    {
      var allCIDRs: seq<Span>, allConstrained := [], true;
      UnionAfterTwice(Extraction([], true), Extraction([], true), OrRead(bytes, at, count, depth, on));
      for i := 0 to count
        invariant UnionAfter(Extraction(allCIDRs, allConstrained), OrRead(bytes, at, count - i, depth, on)) ==
                  OrRead(bytes, old(at), count, depth, on)
      {
        var sub := ParseTypedRule(on, depth);
        if sub.None? {
          return None;
        }
        ghost var one := if sub.value.constrained then Extraction([], true) else Extraction(sub.value.spans, false);
        UnionAfterTwice(Extraction(allCIDRs, allConstrained), one, OrRead(bytes, at, count - i - 1, depth, on));
        assert allCIDRs + [] == allCIDRs;
        if !sub.value.constrained {
          allCIDRs := allCIDRs + sub.value.spans;
          allConstrained := false;
        }
      }
      assert allCIDRs + [] == allCIDRs;
      e := Some(Extraction(allCIDRs, allConstrained));
    }

    /** The sub-rules and invert byte of a disjunction. */
    method ParseOr(on: bool, depth: nat, count: nat) returns (e: Option<Extraction>)
      modifies this
      ensures e == LogicalRead(bytes, old(at), 1, count, depth, on).value
      ensures e.Some? ==> at == LogicalRead(bytes, old(at), 1, count, depth, on).next
      decreases if depth <= MAX_DEPTH then MAX_DEPTH + 1 - depth else 0, 4
    {
      e := ReadOr(on, depth, count);
      if e.None? {
        return;
      }
      var invert := ReadByte();
      if invert.None? {
        return None;
      }
      if invert.value != 0 {
        e := Some(Extraction([], true));
      }
    }

    method ParseRules(on: bool) returns (entries: Option<seq<seq<Span>>>)
      requires at == 0
      modifies this
      ensures entries == FileEntries(bytes, on)
    {
      var count := ReadUvarint();
      if count.None? {
        return None;
      }
      EntriesReadAgrees(bytes, at, count.value, on);
      entries := ParseEntries(count.value, on);
    }

    method ParseEntries(count: nat, on: bool) returns (entries: Option<seq<seq<Span>>>)
      modifies this
      ensures entries == EntriesRead(bytes, old(at), count, on)
    {
      ghost var whole := EntriesRead(bytes, at, count, on);
      var found: seq<seq<Span>> := [];
      EntriesStart(bytes, at, count, on);
      for i := 0 to count
        invariant EntriesSoFar(found, bytes, at, count - i, on, whole)
      {
        var ok;
        ok, found := ParseEntry(found, on, count - i, whole);
        if !ok {
          return None;
        }
      }
      EntriesEnd(found, bytes, at, on, whole);
      entries := Some(found);
    }

    /** One rule of the file, adding its addresses to those found. */
    method ParseEntry(found: seq<seq<Span>>, on: bool, ghost left: nat, ghost whole: Option<seq<seq<Span>>>)
      returns (ok: bool, grown: seq<seq<Span>>)
      requires left > 0 && EntriesSoFar(found, bytes, at, left, on, whole)
      modifies this
      ensures if ok then EntriesSoFar(grown, bytes, at, left - 1, on, whole) else whole == None
    {
      EntriesNext(found, bytes, at, left, on);
      var e := ParseTypedRule(on, 0);
      if e.None? {
        return false, found;
      }
      ok, grown := true, found;
      if |e.value.spans| > 0 {
        grown := found + [e.value.spans];
      }
    }
  }

  predicate GoodHeader(data: Bytes) { |data| >= 4 && data[..3] == [83, 82, 83] && 1 <= data[3] <= 5 }

  /** A file: magic, version, then compressed rules. */
  method ParseSRS(data: Bytes, inflate: Bytes -> Option<Bytes>, on: bool) returns (entries: Option<seq<seq<Span>>>)
    ensures entries ==
            if GoodHeader(data) && inflate(data[4..]).Some? then FileEntries(inflate(data[4..]).value, on) else None
  {
    if |data| < 4 {
      return None;
    }
    if data[0] != 83 || data[1] != 82 || data[2] != 83 || data[3] < 1 || data[3] > 5 {
      return None;
    }
    var inflated := inflate(data[4..]);
    if inflated.None? {
      return None;
    }
    var reader := new Reader(inflated.value);
    entries := reader.ParseRules(on);
  }
}
