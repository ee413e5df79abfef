/** Packing routes into UPDATE messages: routes with the same attributes share
    messages, at most a hundred prefixes each. */
module Packing {
  import opened Lists
  import opened Octets
  import opened Wrappers
  import opened Wire

  datatype Route = Route(prefix: Prefix, communities: seq<LargeCommunity>, nextHop: IP)

  const MAX_PREFIXES_PER_UPDATE := 100

  predicate Is6(p: Prefix) { |p.ip| == 16 }

  // ----- the grouping key -----

  function Digit(n: nat): char
    requires n < 10
  {
    "0123456789"[n]
  }

  function Decimal(n: nat): (s: string)
    ensures |s| > 0 && (|s| == 1 <==> n < 10)
  {
    if n < 10 then [Digit(n)] else Decimal(n / 10) + [Digit(n % 10)]
  }

  lemma {:induction false} DecimalDigits(n: nat)
    ensures forall c :: c in Decimal(n) ==> '0' <= c <= '9'
  {
    if n >= 10 { DecimalDigits(n / 10); }
  }

  lemma {:induction false} DecimalInjective(m: nat, n: nat)
    requires Decimal(m) == Decimal(n)
    ensures m == n
  {
    var s, t := Decimal(m), Decimal(n);
    assert s[|s| - 1] == Digit(m % 10) && t[|t| - 1] == Digit(n % 10);
    if m >= 10 && n >= 10 {
      assert s[..|s| - 1] == Decimal(m / 10) && t[..|t| - 1] == Decimal(n / 10);
      DecimalInjective(m / 10, n / 10);
    }
  }

  function CommunityText(c: LargeCommunity): (s: string) {
    Decimal(c.globalAdmin) + (":" + (Decimal(c.localData1) + (":" + Decimal(c.localData2))))
  }

  function CommunitiesText(cs: seq<LargeCommunity>): (s: string) {
    if cs == [] then "" else "|" + (CommunityText(cs[0]) + CommunitiesText(cs[1..]))
  }

  /** How the address library prints addresses: injective and without a bar. */
  ghost predicate AddressText(text: IP -> string) {
    (forall a, b :: text(a) == text(b) ==> a == b) && forall a :: '|' !in text(a)
  }

  function Key(six: bool, hop: IP, comms: seq<LargeCommunity>, text: IP -> string): (k: string) {
    (if six then "6|" else "4|") + (text(hop) + CommunitiesText(comms))
  }

  lemma FirstIn<T>(s: seq<T>)
    ensures s == [] || s[0] in s
  {}

  /** Text before the first separator is determined by the whole. */
  lemma {:induction false} SplitAt(sep: char, a: string, b: string, c: string, d: string)
    requires sep !in a && sep !in c && a + b == c + d
    requires (b == "" || b[0] == sep) && (d == "" || d[0] == sep)
    ensures a == c && b == d
  {
    if a == "" || c == "" {
      FirstIn(a);
      FirstIn(c);
      assert a == "" ==> a + b == b;
      assert c == "" ==> c + d == d;
    } else {
      assert (a + b)[0] == a[0] && (c + d)[0] == c[0];
      assert (a + b)[1..] == a[1..] + b && (c + d)[1..] == c[1..] + d;
      SplitAt(sep, a[1..], b, c[1..], d);
      assert a == [a[0]] + a[1..] && c == [c[0]] + c[1..];
    }
  }

  lemma CommunityTextInjective(c: LargeCommunity, d: LargeCommunity)
    requires CommunityText(c) == CommunityText(d)
    ensures c == d
  {
    forall n: nat ensures ':' !in Decimal(n) { DecimalDigits(n); }
    SplitAt(':', Decimal(c.globalAdmin), ":" + (Decimal(c.localData1) + (":" + Decimal(c.localData2))),
      Decimal(d.globalAdmin), ":" + (Decimal(d.localData1) + (":" + Decimal(d.localData2))));
    var cTail, dTail := ":" + Decimal(c.localData2), ":" + Decimal(d.localData2);
    DropFirst(':', Decimal(c.localData1) + cTail, Decimal(d.localData1) + dTail);
    SplitAt(':', Decimal(c.localData1), cTail, Decimal(d.localData1), dTail);
    DropFirst(':', Decimal(c.localData2), Decimal(d.localData2));
    DecimalInjective(c.globalAdmin, d.globalAdmin);
    DecimalInjective(c.localData1, d.localData1);
    DecimalInjective(c.localData2, d.localData2);
  }

  lemma DropFirst(ch: char, s: string, t: string)
    requires [ch] + s == [ch] + t
    ensures s == t
  {
    assert ([ch] + s)[1..] == s && ([ch] + t)[1..] == t;
  }

  lemma NoBar(c: LargeCommunity)
    ensures '|' !in CommunityText(c)
  {
    DecimalDigits(c.globalAdmin);
    DecimalDigits(c.localData1);
    DecimalDigits(c.localData2);
  }

  lemma {:induction false} CommunitiesTextInjective(cs: seq<LargeCommunity>, ds: seq<LargeCommunity>)
    requires CommunitiesText(cs) == CommunitiesText(ds)
    ensures cs == ds
  {
    if cs != [] && ds != [] {
      DropFirst('|', CommunityText(cs[0]) + CommunitiesText(cs[1..]), CommunityText(ds[0]) + CommunitiesText(ds[1..]));
      NoBar(cs[0]);
      NoBar(ds[0]);
      SplitAt('|', CommunityText(cs[0]), CommunitiesText(cs[1..]), CommunityText(ds[0]), CommunitiesText(ds[1..]));
      CommunityTextInjective(cs[0], ds[0]);
      CommunitiesTextInjective(cs[1..], ds[1..]);
      assert cs == [cs[0]] + cs[1..] && ds == [ds[0]] + ds[1..];
    }
  }

  /** The string key separates attribute sets: equal keys, equal attributes. */
  lemma KeySeparates(six: bool, hop: IP, comms: seq<LargeCommunity>, six': bool, hop': IP, comms': seq<LargeCommunity>,
                     text: IP -> string)
    requires AddressText(text)
    ensures Key(six, hop, comms, text) == Key(six', hop', comms', text) <==>
            six == six' && hop == hop' && comms == comms'
  {
    var k, k' := Key(six, hop, comms, text), Key(six', hop', comms', text);
    if k == k' {
      assert k[0] == (if six then '6' else '4') && k'[0] == (if six' then '6' else '4');
      assert k[2..] == text(hop) + CommunitiesText(comms) && k'[2..] == text(hop') + CommunitiesText(comms');
      SplitAt('|', text(hop), CommunitiesText(comms), text(hop'), CommunitiesText(comms'));
      CommunitiesTextInjective(comms, comms');
    }
  }

  // ----- grouping -----

  datatype Group = Group(nextHop: IP, comms: seq<LargeCommunity>, six: bool, nlri: seq<Prefix>)

  datatype Grouping = Grouping(order: seq<string>, groups: map<string, Group>, sent: seq<Prefix>)

  function AddRoute(g: Grouping, r: Route, cap: bool, text: IP -> string): (h: Grouping) {
    if Is6(r.prefix) && !cap then g
    else
      var k := Key(Is6(r.prefix), r.nextHop, r.communities, text);
      var was := if k in g.groups then g.groups[k] else Group(r.nextHop, r.communities, Is6(r.prefix), []);
      Grouping(if k in g.groups then g.order else g.order + [k], g.groups[k := was.(nlri := was.nlri + [r.prefix])],
               g.sent + [r.prefix])
  }

  function GroupAll(routes: seq<Route>, cap: bool, text: IP -> string): (g: Grouping) {
    if routes == [] then Grouping([], map[], [])
    else AddRoute(GroupAll(routes[..|routes| - 1], cap, text), routes[|routes| - 1], cap, text)
  }

  function GroupAt(groups: map<string, Group>, k: string): (g: Group) {
    if k in groups then groups[k] else Group([0, 0, 0, 0], [], false, [])
  }

  /** The groups in the order their keys were first met. */
  function Ordered(order: seq<string>, groups: map<string, Group>): (gs: seq<Group>) {
    seq(|order|, i requires 0 <= i < |order| => GroupAt(groups, order[i]))
  }

  /** The routes a peer with or without the IPv6 capability is sent. */
  function Capable(routes: seq<Route>, cap: bool): (r: seq<Route>) {
    if routes == [] then []
    else
      var last := routes[|routes| - 1];
      Capable(routes[..|routes| - 1], cap) + if Is6(last.prefix) && !cap then [] else [last]
  }

  lemma GroupAllNext(routes: seq<Route>, cap: bool, text: IP -> string, i: nat)
    requires i < |routes|
    ensures GroupAll(routes[..i + 1], cap, text) == AddRoute(GroupAll(routes[..i], cap, text), routes[i], cap, text)
  {
    assert routes[..i + 1][..i] == routes[..i];
  }

  method GroupRoutes(routes: seq<Route>, cap: bool, text: IP -> string)
    returns (order: seq<string>, groups: map<string, Group>, sent: seq<Prefix>)
    ensures Grouping(order, groups, sent) == GroupAll(routes, cap, text)
  {
    order, groups, sent := [], map[], [];
    for i := 0 to |routes|
      invariant Grouping(order, groups, sent) == GroupAll(routes[..i], cap, text)
    {
      var r := routes[i];
      GroupAllNext(routes, cap, text, i);
      if Is6(r.prefix) && !cap {
        continue;
      }
      order, groups := PlaceRoute(order, groups, r, text);
      sent := sent + [r.prefix];
    }
    assert routes[..|routes|] == routes;
  }

  /** Adds a route to the group of its key, which it opens if need be. */
  method PlaceRoute(order: seq<string>, groups: map<string, Group>, r: Route, text: IP -> string)
    returns (keys: seq<string>, grown: map<string, Group>)
    ensures forall sent: seq<Prefix> ::
      Grouping(keys, grown, sent + [r.prefix]) == AddRoute(Grouping(order, groups, sent), r, true, text)
  {
    keys, grown := order, groups;
    var k := Key(Is6(r.prefix), r.nextHop, r.communities, text);
    if k !in grown {
      grown := grown[k := Group(r.nextHop, r.communities, Is6(r.prefix), [])];
      keys := keys + [k];
    }
    var g := grown[k];
    grown := grown[k := g.(nlri := g.nlri + [r.prefix])];
  }

  // ----- chunking -----

  function ChunkSize(n: nat): nat { if n < MAX_PREFIXES_PER_UPDATE then n else MAX_PREFIXES_PER_UPDATE }

  function Chunks(ps: seq<Prefix>): (c: seq<seq<Prefix>>)
    decreases |ps|
  {
    if ps == [] then [] else [ps[..ChunkSize(|ps|)]] + Chunks(ps[ChunkSize(|ps|)..])
  }

  /** The chunks from a start on, which may be past the end. */
  function ChunksFrom(ps: seq<Prefix>, start: nat): (c: seq<seq<Prefix>>) {
    if start < |ps| then Chunks(ps[start..]) else []
  }

  lemma ChunksNext(ps: seq<Prefix>, start: nat, end: nat, chunks: seq<seq<Prefix>>)
    requires start < end <= |ps| && end - start == ChunkSize(|ps| - start)
    ensures chunks + ChunksFrom(ps, start) ==
            chunks + [ps[start..end]] + ChunksFrom(ps, start + MAX_PREFIXES_PER_UPDATE)
  {
    assert ps[start..][..end - start] == ps[start..end] && ps[start..][end - start..] == ps[end..];
    assert Chunks(ps[start..]) == [ps[start..end]] + Chunks(ps[end..]);
  }

  method ChunkPrefixes(prefixes: seq<Prefix>) returns (chunks: seq<seq<Prefix>>)
    ensures chunks == Chunks(prefixes)
  {
    chunks := [];
    var start := 0;
    assert prefixes[0..] == prefixes;
    while start < |prefixes|
      invariant 0 <= start
      invariant chunks + ChunksFrom(prefixes, start) == Chunks(prefixes)
      decreases |prefixes| - start
    {
      var end := start + MAX_PREFIXES_PER_UPDATE;
      if end > |prefixes| {
        end := |prefixes|;
      }
      ChunksNext(prefixes, start, end, chunks);
      chunks := chunks + [prefixes[start..end]];
      start := start + MAX_PREFIXES_PER_UPDATE;
    }
  }

  lemma SliceOfRest(ps: seq<Prefix>, n: nat, a: nat, b: nat)
    requires n + b <= |ps| && a <= b
    ensures ps[n..][a..b] == ps[n + a..n + b]
  {}

  /** The chunks are the consecutive pieces of the list, every one but the last full. */
  lemma {:induction false} ChunksFull(ps: seq<Prefix>, i: nat)
    requires i < |Chunks(ps)|
    ensures var n := |Chunks(ps)[i]|;
            100 * i + n <= |ps| && Chunks(ps)[i] == ps[100 * i..100 * i + n] &&
            if i < |Chunks(ps)| - 1 then n == 100 else 0 < n <= 100 && |ps| == 100 * i + n
    decreases i
  {
    var n := ChunkSize(|ps|);
    assert Chunks(ps)[1..] == Chunks(ps[n..]);
    if i > 0 {
      ChunksFull(ps[n..], i - 1);
      SliceOfRest(ps, n, 100 * (i - 1), 100 * (i - 1) + |Chunks(ps)[i]|);
    } else if |ps| > n {
      assert Chunks(ps[n..]) != [];
    }
  }

  // ----- messages -----

  /** The parts of the session that shape an announcement. */
  datatype Speaker = Speaker(asn: U32, as4: bool)

  function Announcement(s: Speaker, hop: IP, comms: seq<LargeCommunity>, six: bool, chunk: seq<Prefix>): (m: Message) {
    if six then
      Update([], [Origin(0), ASPath(s.asn, s.as4), MpReach(hop, chunk), LargeCommunities(comms)], [])
    else
      Update([], [Origin(0), ASPath(s.asn, s.as4), NextHop(hop), LargeCommunities(comms)], chunk)
  }

  function GroupMessages(s: Speaker): Group -> seq<Message> {
    (g: Group) => ChunkMessages(s, g, Chunks(g.nlri))
  }

  function ChunkMessages(s: Speaker, g: Group, chunks: seq<seq<Prefix>>): (ms: seq<Message>)
    ensures |ms| == |chunks|
  {
    if chunks == [] then []
    else [Announcement(s, g.nextHop, g.comms, g.six, chunks[0])] + ChunkMessages(s, g, chunks[1..])
  }

  // ----- conservation -----

  /** The routes a list of prefixes with common attributes stands for. */
  function Routes(hop: IP, comms: seq<LargeCommunity>, ps: seq<Prefix>): (r: seq<Route>) {
    seq(|ps|, i requires 0 <= i < |ps| => Route(ps[i], comms, hop))
  }

  lemma RoutesConcat(hop: IP, comms: seq<LargeCommunity>, ps: seq<Prefix>, qs: seq<Prefix>)
    ensures Routes(hop, comms, ps + qs) == Routes(hop, comms, ps) + Routes(hop, comms, qs)
  {}

  function CommunitiesIn(attrs: seq<PathAttribute>): seq<LargeCommunity> {
    if attrs == [] then []
    else if attrs[0].LargeCommunities? then attrs[0].communities
    else CommunitiesIn(attrs[1..])
  }

  function HopIn(attrs: seq<PathAttribute>): Option<IP> {
    if attrs == [] then None else if attrs[0].NextHop? then Some(attrs[0].nextHop) else HopIn(attrs[1..])
  }

  function ReachedIn(attrs: seq<PathAttribute>, comms: seq<LargeCommunity>): seq<Route> {
    if attrs == [] then []
    else
      var first := if attrs[0].MpReach? then Routes(attrs[0].reachHop, comms, attrs[0].reach) else [];
      first + ReachedIn(attrs[1..], comms)
  }

  function UnreachedIn(attrs: seq<PathAttribute>): seq<Prefix> {
    if attrs == [] then []
    else (if attrs[0].MpUnreach? then attrs[0].unreach else []) + UnreachedIn(attrs[1..])
  }

  /** The routes a receiver reads out of an UPDATE. */
  function Carried(m: Message): (r: seq<Route>) {
    if m.Update? then
      var comms := CommunitiesIn(m.attributes);
      ReachedIn(m.attributes, comms) +
      match HopIn(m.attributes) case None => [] case Some(hop) => Routes(hop, comms, m.nlri)
    else []
  }

  lemma AnnouncementCarries(s: Speaker, hop: IP, comms: seq<LargeCommunity>, six: bool, chunk: seq<Prefix>)
    ensures Carried(Announcement(s, hop, comms, six, chunk)) == Routes(hop, comms, chunk)
    ensures UnreachedIn(Announcement(s, hop, comms, six, chunk).attributes) == []
  {
    var third := if six then MpReach(hop, chunk) else NextHop(hop);
    var last := [LargeCommunities(comms)];
    ReadFirst(LargeCommunities(comms), [], comms);
    ReadFirst(third, last, comms);
    ReadFirst(ASPath(s.asn, s.as4), [third] + last, comms);
    ReadFirst(Origin(0), [ASPath(s.asn, s.as4)] + ([third] + last), comms);
    assert [LargeCommunities(comms)] + [] == last;
    assert Announcement(s, hop, comms, six, chunk).attributes ==
           [Origin(0)] + ([ASPath(s.asn, s.as4)] + ([third] + last));
    assert Routes(hop, comms, []) == [];
  }

  lemma ReadFirst(a: PathAttribute, rest: seq<PathAttribute>, comms: seq<LargeCommunity>)
    ensures CommunitiesIn([a] + rest) == if a.LargeCommunities? then a.communities else CommunitiesIn(rest)
    ensures HopIn([a] + rest) == if a.NextHop? then Some(a.nextHop) else HopIn(rest)
    ensures ReachedIn([a] + rest, comms) ==
            (if a.MpReach? then Routes(a.reachHop, comms, a.reach) else []) + ReachedIn(rest, comms)
    ensures UnreachedIn([a] + rest) == (if a.MpUnreach? then a.unreach else []) + UnreachedIn(rest)
  {}

  function CarriedAll(ms: seq<Message>): (r: seq<Route>) { Gather(ms, Carried) }

  lemma {:induction false} ChunksCarry(s: Speaker, g: Group, ps: seq<Prefix>)
    ensures CarriedAll(ChunkMessages(s, g, Chunks(ps))) == Routes(g.nextHop, g.comms, ps)
    decreases |ps|
  {
    if ps != [] {
      var n := ChunkSize(|ps|);
      var front, rest := ps[..n], Chunks(ps[n..]);
      ChunksCarry(s, g, ps[n..]);
      AnnouncementCarries(s, g.nextHop, g.comms, g.six, front);
      assert ps == front + ps[n..];
      RoutesConcat(g.nextHop, g.comms, front, ps[n..]);
      FirstChunkCarries(s, g, front, rest);
    }
  }

  lemma FirstChunkCarries(s: Speaker, g: Group, chunk: seq<Prefix>, rest: seq<seq<Prefix>>)
    ensures CarriedAll(ChunkMessages(s, g, [chunk] + rest))
         == Carried(Announcement(s, g.nextHop, g.comms, g.six, chunk)) + CarriedAll(ChunkMessages(s, g, rest))
  {}

  /** The routes a group holds. */
  function HeldBy(g: Group): (r: seq<Route>) { Routes(g.nextHop, g.comms, g.nlri) }

  function Grouped(g: Grouping): (r: seq<Route>) { Gather(Ordered(g.order, g.groups), HeldBy) }

  lemma {:induction false} GroupsCarry(s: Speaker, gs: seq<Group>)
    ensures CarriedAll(Gather(gs, GroupMessages(s))) == Gather(gs, HeldBy)
  {
    if gs != [] {
      GroupsCarry(s, gs[1..]);
      ChunksCarry(s, gs[0], gs[0].nlri);
      GatherConcat(GroupMessages(s)(gs[0]), Gather(gs[1..], GroupMessages(s)), Carried);
    }
  }

  predicate DistinctKeys(order: seq<string>) { forall i, j :: 0 <= i < j < |order| ==> order[i] != order[j] }

  /** Adding a prefix to one group adds that one route to the whole. */
  lemma GrowOneGroup(gs: seq<Group>, i: nat, p: Prefix)
    requires i < |gs|
    ensures multiset(Gather(gs[i := gs[i].(nlri := gs[i].nlri + [p])], HeldBy))
         == multiset(Gather(gs, HeldBy)) + multiset{Route(p, gs[i].comms, gs[i].nextHop)}
  {
    var after := gs[i := gs[i].(nlri := gs[i].nlri + [p])];
    GatherAround(gs, HeldBy, i);
    GatherAround(after, HeldBy, i);
    assert after[..i] == gs[..i] && after[i + 1..] == gs[i + 1..];
    RoutesConcat(gs[i].nextHop, gs[i].comms, gs[i].nlri, [p]);
    assert Routes(gs[i].nextHop, gs[i].comms, [p]) == [Route(p, gs[i].comms, gs[i].nextHop)];
  }

  predicate KeyedBy(k: string, g: Group, text: IP -> string) { k == Key(g.six, g.nextHop, g.comms, text) }

  /** Every group sits under the key of its own attributes, once. */
  ghost predicate WellKeyed(g: Grouping, text: IP -> string) {
    DistinctKeys(g.order) && (forall k :: k in g.order <==> k in g.groups) &&
    forall k :: k in g.groups ==> KeyedBy(k, g.groups[k], text)
  }

  lemma AddRouteKeyed(g: Grouping, r: Route, text: IP -> string)
    requires WellKeyed(g, text)
    ensures WellKeyed(AddRoute(g, r, true, text), text)
  {}

  /** A route whose key has a group joins it: the group has the same attributes. */
  lemma ExtendGroup(g: Grouping, r: Route, text: IP -> string, k: string)
    requires AddressText(text) && WellKeyed(g, text)
    requires k == Key(Is6(r.prefix), r.nextHop, r.communities, text) && k in g.groups
    ensures var grown := g.groups[k].(nlri := g.groups[k].nlri + [r.prefix]);
            multiset(Gather(Ordered(g.order, g.groups[k := grown]), HeldBy)) == multiset(Grouped(g)) + multiset{r}
  {
    assert KeyedBy(k, g.groups[k], text);
    KeySeparates(g.groups[k].six, g.groups[k].nextHop, g.groups[k].comms, Is6(r.prefix), r.nextHop, r.communities,
      text);
    assert k in g.order;
    var i :| 0 <= i < |g.order| && g.order[i] == k;
    var grown := g.groups[k].(nlri := g.groups[k].nlri + [r.prefix]);
    OrderedUpdate(g.order, g.groups, i, grown);
    GrowOneGroup(Ordered(g.order, g.groups), i, r.prefix);
  }

  lemma OrderedUpdate(order: seq<string>, groups: map<string, Group>, i: nat, grown: Group)
    requires DistinctKeys(order) && i < |order|
    ensures Ordered(order, groups[order[i] := grown]) == Ordered(order, groups)[i := grown]
  {}

  lemma StartGroup(order: seq<string>, groups: map<string, Group>, r: Route, k: string)
    requires k !in order
    ensures var h := groups[k := Group(r.nextHop, r.communities, Is6(r.prefix), [] + [r.prefix])];
            Gather(Ordered(order + [k], h), HeldBy) == Gather(Ordered(order, groups), HeldBy) + [r]
  {
    var g := Group(r.nextHop, r.communities, Is6(r.prefix), [] + [r.prefix]);
    forall i | 0 <= i < |order| ensures order[i] != k { assert order[i] in order; }
    assert Ordered(order + [k], groups[k := g]) == Ordered(order, groups) + [g];
    GatherConcat(Ordered(order, groups), [g], HeldBy);
    GatherOne(g, HeldBy);
    assert HeldBy(g) == [r];
  }

  lemma AddRouteConserves(g: Grouping, r: Route, text: IP -> string)
    requires AddressText(text) && WellKeyed(g, text)
    ensures WellKeyed(AddRoute(g, r, true, text), text)
    ensures multiset(Grouped(AddRoute(g, r, true, text))) == multiset(Grouped(g)) + multiset{r}
  {
    AddRouteKeyed(g, r, text);
    var k := Key(Is6(r.prefix), r.nextHop, r.communities, text);
    if k in g.groups {
      ExtendGroup(g, r, text, k);
    } else {
      StartGroup(g.order, g.groups, r, k);
    }
  }

  /** Grouping keeps each capable route once, under its own attributes. */
  lemma {:induction false} GroupingConserves(routes: seq<Route>, cap: bool, text: IP -> string)
    requires AddressText(text)
    ensures WellKeyed(GroupAll(routes, cap, text), text)
    ensures multiset(Grouped(GroupAll(routes, cap, text))) == multiset(Capable(routes, cap))
  {
    if routes != [] {
      var front, last := routes[..|routes| - 1], routes[|routes| - 1];
      var g := GroupAll(front, cap, text);
      GroupingConserves(front, cap, text);
      if !Is6(last.prefix) || cap {
        AddRouteConserves(g, last, text);
        assert AddRoute(g, last, cap, text) == AddRoute(g, last, true, text);
        assert Capable(routes, cap) == Capable(front, cap) + [last];
      } else {
        assert Capable(routes, cap) == Capable(front, cap);
      }
    }
  }

  lemma {:induction false} SentIsCapable(routes: seq<Route>, cap: bool, text: IP -> string)
    ensures GroupAll(routes, cap, text).sent == PrefixesOf(Capable(routes, cap))
  {
    if routes != [] {
      SentIsCapable(routes[..|routes| - 1], cap, text);
    }
  }

  function PrefixesOf(rs: seq<Route>): (ps: seq<Prefix>) {
    seq(|rs|, i requires 0 <= i < |rs| => rs[i].prefix)
  }

  function Announcements(s: Speaker, routes: seq<Route>, cap: bool, text: IP -> string): (ms: seq<Message>) {
    var g := GroupAll(routes, cap, text);
    Gather(Ordered(g.order, g.groups), GroupMessages(s))
  }

  /** Packing announces each capable route exactly once, with its own attributes. */
  lemma PackingConserves(s: Speaker, routes: seq<Route>, cap: bool, text: IP -> string)
    requires AddressText(text)
    ensures multiset(CarriedAll(Announcements(s, routes, cap, text))) == multiset(Capable(routes, cap))
  {
    GroupingConserves(routes, cap, text);
    var g := GroupAll(routes, cap, text);
    GroupsCarry(s, Ordered(g.order, g.groups));
  }

  // ----- message sizes -----

  /** What a peer may be asked to announce: a valid prefix, a next hop the family
      can carry, and at most the three communities a route is built with. */
  predicate RouteOk(r: Route) {
    ValidPrefix(r.prefix) && (!Is6(r.prefix) ==> Is4(r.nextHop)) && |r.communities| <= 3
  }

  const MAX_MESSAGE := 1800

  lemma {:induction false} PrefixesSize(ps: seq<Prefix>, six: bool)
    requires forall p :: p in ps ==> ValidPrefix(p) && Is6(p) == six
    ensures AllValid(ps) && |Prefixes(ps)| <= if six then 17 * |ps| else 5 * |ps|
  {
    if ps != [] {
      PrefixesSize(ps[1..], six);
      assert ps[0] in ps && |ps[0].ip| == if six then 16 else 4;
    }
  }

  lemma AttributesOfFour(a: PathAttribute, b: PathAttribute, c: PathAttribute, d: PathAttribute)
    requires EncodableAttribute(a) && EncodableAttribute(b) && EncodableAttribute(c) && EncodableAttribute(d)
    ensures AllEncodable([a, b, c, d])
    ensures |Attributes([a, b, c, d])|
         == |SerializeAttribute(a)| + |SerializeAttribute(b)| + |SerializeAttribute(c)| + |SerializeAttribute(d)|
  {
    assert [a, b, c, d][1..] == [b, c, d] && [b, c, d][1..] == [c, d] && [c, d][1..] == [d] && [d][1..] == [];
    assert Attributes([d]) == SerializeAttribute(d) + [];
    assert Attributes([c, d]) == SerializeAttribute(c) + Attributes([d]);
    assert Attributes([b, c, d]) == SerializeAttribute(b) + Attributes([c, d]);
  }

  /** No announcement comes near the 4096 bytes of section 4.1 of RFC 4271. */
  lemma AnnouncementSize(s: Speaker, hop: IP, comms: seq<LargeCommunity>, six: bool, chunk: seq<Prefix>)
    requires |chunk| <= MAX_PREFIXES_PER_UPDATE && |comms| <= 3 && (!six ==> Is4(hop))
    requires forall p :: p in chunk ==> ValidPrefix(p) && Is6(p) == six
    ensures Encodable(Announcement(s, hop, comms, six, chunk))
    ensures |Serialize(Announcement(s, hop, comms, six, chunk))| <= MAX_MESSAGE
  {
    PrefixesSize(chunk, six);
    var third := if six then MpReach(hop, chunk) else NextHop(hop);
    AttributesOfFour(Origin(0), ASPath(s.asn, s.as4), third, LargeCommunities(comms));
    assert |SerializeAttribute(LargeCommunities(comms))| <= 39;
    assert |SerializeAttribute(ASPath(s.asn, s.as4))| <= 9;
    assert |SerializeAttribute(Origin(0))| == 4;
    assert Prefixes([]) == [];
    if six {
      assert |SerializeAttribute(third)| <= 1725;
    } else {
      assert |SerializeAttribute(third)| == 7;
    }
  }

  function Withdrawal(six: bool, chunk: seq<Prefix>): (m: Message) {
    if six then Update([], [MpUnreach(chunk)], []) else Update(chunk, [], [])
  }

  lemma WithdrawalSize(six: bool, chunk: seq<Prefix>)
    requires |chunk| <= MAX_PREFIXES_PER_UPDATE && forall p :: p in chunk ==> ValidPrefix(p) && Is6(p) == six
    ensures Encodable(Withdrawal(six, chunk)) && |Serialize(Withdrawal(six, chunk))| <= MAX_MESSAGE
  {
    PrefixesSize(chunk, six);
    assert Prefixes([]) == [];
    if six {
      assert [MpUnreach(chunk)][1..] == [];
      assert Attributes([MpUnreach(chunk)]) == SerializeAttribute(MpUnreach(chunk)) + [];
    }
  }

  predicate FitsWire(m: Message) { m.Update? && Encodable(m) && |Serialize(m)| <= MAX_MESSAGE }

  predicate GroupOk(g: Group) {
    (!g.six ==> Is4(g.nextHop)) && |g.comms| <= 3 && forall p :: p in g.nlri ==> ValidPrefix(p) && Is6(p) == g.six
  }

  lemma AddRouteOk(g: Grouping, r: Route, cap: bool, text: IP -> string)
    requires AddressText(text) && WellKeyed(g, text) && RouteOk(r)
    requires forall k :: k in g.groups ==> GroupOk(g.groups[k])
    ensures forall k :: k in AddRoute(g, r, cap, text).groups ==> GroupOk(AddRoute(g, r, cap, text).groups[k])
  {
    var k := Key(Is6(r.prefix), r.nextHop, r.communities, text);
    if k in g.groups {
      assert KeyedBy(k, g.groups[k], text);
      KeySeparates(g.groups[k].six, g.groups[k].nextHop, g.groups[k].comms, Is6(r.prefix), r.nextHop, r.communities,
        text);
    }
  }

  lemma {:induction false} GroupsOk(routes: seq<Route>, cap: bool, text: IP -> string)
    requires AddressText(text) && forall r :: r in routes ==> RouteOk(r)
    ensures forall k :: k in GroupAll(routes, cap, text).groups ==> GroupOk(GroupAll(routes, cap, text).groups[k])
  {
    if routes != [] {
      var front, r := routes[..|routes| - 1], routes[|routes| - 1];
      assert r in routes;
      GroupsOk(front, cap, text);
      GroupingConserves(front, cap, text);
      AddRouteOk(GroupAll(front, cap, text), r, cap, text);
    }
  }

  lemma {:induction false} ChunkElements(ps: seq<Prefix>, chunk: seq<Prefix>)
    requires chunk in Chunks(ps)
    ensures 0 < |chunk| <= MAX_PREFIXES_PER_UPDATE && forall p :: p in chunk ==> p in ps
    decreases |ps|
  {
    var n := ChunkSize(|ps|);
    if chunk != ps[..n] { ChunkElements(ps[n..], chunk); }
  }

  lemma {:induction false} ChunkMessagesFit(s: Speaker, g: Group, chunks: seq<seq<Prefix>>, m: Message)
    requires GroupOk(g) && m in ChunkMessages(s, g, chunks) && forall c :: c in chunks ==> c in Chunks(g.nlri)
    ensures FitsWire(m)
  {
    if m in ChunkMessages(s, g, chunks[1..]) {
      ChunkMessagesFit(s, g, chunks[1..], m);
    } else {
      ChunkElements(g.nlri, chunks[0]);
      AnnouncementSize(s, g.nextHop, g.comms, g.six, chunks[0]);
    }
  }

  /** Every announcement written for acceptable routes fits. */
  lemma AnnouncementsFit(s: Speaker, routes: seq<Route>, cap: bool, text: IP -> string, m: Message)
    requires AddressText(text) && forall r :: r in routes ==> RouteOk(r)
    requires m in Announcements(s, routes, cap, text)
    ensures FitsWire(m)
  {
    GroupsOk(routes, cap, text);
    GroupingConserves(routes, cap, text);
    var g := GroupAll(routes, cap, text);
    GatherMember(Ordered(g.order, g.groups), GroupMessages(s), m);
    var h :| h in Ordered(g.order, g.groups) && m in GroupMessages(s)(h);
    var i :| 0 <= i < |g.order| && Ordered(g.order, g.groups)[i] == h;
    assert g.order[i] in g.order;
    ChunkMessagesFit(s, h, Chunks(h.nlri), m);
  }

  /** What every announcement of a session looks like: nothing withdrawn, origin
      IGP, the speaker's own AS number in the session's width, one set of
      communities; IPv6 prefixes with their next hop in MP_REACH_NLRI, IPv4 ones
      beside a NEXT_HOP. */
  predicate WellShaped(s: Speaker, m: Message) {
    m.Update? && m.withdrawn == [] && |m.attributes| == 4 && m.attributes[0] == Origin(0) &&
    m.attributes[1] == ASPath(s.asn, s.as4) && m.attributes[3].LargeCommunities? &&
    if m.nlri == [] then m.attributes[2].MpReach? && OneFamily(m.attributes[2].reach, true)
    else m.attributes[2].NextHop? && OneFamily(m.nlri, false)
  }

  predicate OneFamily(ps: seq<Prefix>, six: bool) { 0 < |ps| <= 100 && forall p :: p in ps ==> Is6(p) == six }

  lemma {:induction false} ChunkMessagesShape(s: Speaker, g: Group, chunks: seq<seq<Prefix>>, m: Message)
    requires GroupOk(g) && m in ChunkMessages(s, g, chunks) && forall c :: c in chunks ==> c in Chunks(g.nlri)
    ensures WellShaped(s, m)
  {
    if m in ChunkMessages(s, g, chunks[1..]) {
      ChunkMessagesShape(s, g, chunks[1..], m);
    } else {
      ChunkElements(g.nlri, chunks[0]);
    }
  }

  lemma AnnouncementsShape(s: Speaker, routes: seq<Route>, cap: bool, text: IP -> string, m: Message)
    requires AddressText(text) && forall r :: r in routes ==> RouteOk(r)
    requires m in Announcements(s, routes, cap, text)
    ensures WellShaped(s, m)
  {
    GroupsOk(routes, cap, text);
    GroupingConserves(routes, cap, text);
    var g := GroupAll(routes, cap, text);
    GatherMember(Ordered(g.order, g.groups), GroupMessages(s), m);
    var h :| h in Ordered(g.order, g.groups) && m in GroupMessages(s)(h);
    var i :| 0 <= i < |g.order| && Ordered(g.order, g.groups)[i] == h;
    assert g.order[i] in g.order;
    ChunkMessagesShape(s, h, Chunks(h.nlri), m);
  }

  // ----- building a route -----

  datatype Local = Local(asn: U32, v4: IP, v6: Option<IP>)

  datatype CommunityKey = CommunityKey(category: string, service: string)

  /** One route of a user: its own community, then the category's and the
      service's where assigned, and a next hop of the prefix's family. */
  method BuildRoute(local: Local, prefix: Prefix, userId: int, userHop: Option<IP>, category: string, service: string,
                    communities: map<CommunityKey, U32>) returns (r: Result<Route>)
    requires ValidPrefix(prefix) && Is4(local.v4) && (local.v6.Some? ==> !Is4(local.v6.value)) && 0 <= userId
    ensures r.Err? <==> userId > 4294967295 || (Is6(prefix) && local.v6.None?)
    ensures r.Ok? ==> r.value.prefix == prefix && RouteOk(r.value) && Is4(r.value.nextHop) == !Is6(prefix)
    ensures r.Ok? ==> r.value.nextHop == if userHop.Some? && Is4(userHop.value) == !Is6(prefix) then userHop.value
                                         else if Is6(prefix) then local.v6.value else local.v4
    ensures r.Ok? ==> r.value.communities == CommunitiesFor(local.asn, userId, category, service, communities)
  {
    if userId > 4294967295 {
      return Err;
    }
    var comms := [LargeCommunity(local.asn, userId, 0)];
    if category != "" {
      if CommunityKey(category, "") in communities {
        comms := comms + [LargeCommunity(local.asn, 0, communities[CommunityKey(category, "")])];
      }
      if service != "" {
        if CommunityKey(category, service) in communities {
          comms := comms + [LargeCommunity(local.asn, 0, communities[CommunityKey(category, service)])];
        }
      }
    }
    var nextHop := local.v4;
    if Is6(prefix) {
      if local.v6.None? {
        return Err;
      }
      nextHop := local.v6.value;
    }
    if userHop.Some? && Is4(userHop.value) == !Is6(prefix) {
      nextHop := userHop.value;
    }
    r := Ok(Route(prefix, comms, nextHop));
  }

  /** The community a category or service has been given, if any. */
  function Assigned(asn: U32, communities: map<CommunityKey, U32>, category: string,
                    service: string): seq<LargeCommunity> {
    if category != "" && CommunityKey(category, service) in communities then
      [LargeCommunity(asn, 0, communities[CommunityKey(category, service)])]
    else []
  }

  function CommunitiesFor(asn: U32, userId: U32, category: string, service: string,
                          communities: map<CommunityKey, U32>): seq<LargeCommunity> {
    [LargeCommunity(asn, userId, 0)] + Assigned(asn, communities, category, "") +
    if service == "" then [] else Assigned(asn, communities, category, service)
  }

  /** The number is that of a route's category or of its service. */
  predicate About(k: CommunityKey, category: string, service: string) {
    category != "" && k.category == category && (k.service == "" || k.service == service)
  }

  /** A route's communities: the user's, then those of its category and its service,
      each only if the route has one and a number has been given to it. */
  lemma CommunitiesIff(asn: U32, userId: U32, category: string, service: string, communities: map<CommunityKey, U32>,
                       c: LargeCommunity)
    ensures var cs := CommunitiesFor(asn, userId, category, service, communities);
            cs[0] == LargeCommunity(asn, userId, 0) &&
            (c in cs[1..] <==>
              exists k :: k in communities && About(k, category, service) &&
                          c == LargeCommunity(asn, 0, communities[k]))
  {
    var cs := CommunitiesFor(asn, userId, category, service, communities);
    var own, its := Assigned(asn, communities, category, ""), Assigned(asn, communities, category, service);
    assert cs[1..] == own + if service == "" then [] else its;
    if category != "" && CommunityKey(category, "") in communities {
      assert own[0] == LargeCommunity(asn, 0, communities[CommunityKey(category, "")]);
    }
    if category != "" && service != "" && CommunityKey(category, service) in communities {
      assert its[0] == LargeCommunity(asn, 0, communities[CommunityKey(category, service)]);
    }
  }
}
