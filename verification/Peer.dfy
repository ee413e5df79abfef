/** Keeping one remote router in step with the desired routes: the resync that
    withdraws and announces, its failures, and the session protocol around it. */
module Peers {
  import opened Lists
  import opened Octets
  import opened Wrappers
  import opened Wire
  import opened Packing

  // ----- the remote router -----

  datatype Attrs = Attrs(hop: IP, comms: seq<LargeCommunity>)

  /** What the remote router holds from this speaker. */
  type Table = map<Prefix, Attrs>

  function LearnOne(t: Table, r: Route): (u: Table) { t[r.prefix := Attrs(r.nextHop, r.communities)] }

  function Learn(t: Table, rs: seq<Route>): (u: Table) { Fold(t, rs, LearnOne) }

  function Forget(t: Table, ps: seq<Prefix>): (u: Table) { map p | p in t && p !in ps :: t[p] }

  /** An UPDATE withdraws first and announces after; other messages carry no routes. */
  function ApplyUpdate(t: Table, m: Message): (u: Table) {
    if m.Update? then Learn(Forget(Forget(t, m.withdrawn), UnreachedIn(m.attributes)), Carried(m)) else t
  }

  function ApplyAll(t: Table, ms: seq<Message>): (u: Table) { Fold(t, ms, ApplyUpdate) }

  // ----- what a resync sends -----

  predicate Desired(p: Prefix, routes: seq<Route>) { exists r :: r in routes && r.prefix == p }

  function DesiredSet(routes: seq<Route>): (s: set<Prefix>)
    ensures forall p :: p in s <==> Desired(p, routes)
  {
    set r | r in routes :: r.prefix
  }

  /** Prefixes of one family sent before and no longer desired. */
  function Stale(lastSent: seq<Prefix>, routes: seq<Route>, six: bool): (ps: seq<Prefix>)
    ensures forall p :: p in ps <==> p in lastSent && Is6(p) == six && !Desired(p, routes)
  {
    if lastSent == [] then []
    else
      var last := lastSent[|lastSent| - 1];
      Stale(lastSent[..|lastSent| - 1], routes, six) + if Is6(last) == six && !Desired(last, routes) then [last] else []
  }

  function Withdrawals(six: bool, chunks: seq<seq<Prefix>>): (ms: seq<Message>)
    ensures |ms| == |chunks|
  {
    if chunks == [] then [] else [Withdrawal(six, chunks[0])] + Withdrawals(six, chunks[1..])
  }

  /** Everything a resync needs to know about its session. */
  datatype Session = Session(speaker: Speaker, cap: bool)

  function StaleMessages(routes: seq<Route>, lastSent: seq<Prefix>): (ms: seq<Message>) {
    Withdrawals(false, Chunks(Stale(lastSent, routes, false))) +
      Withdrawals(true, Chunks(Stale(lastSent, routes, true)))
  }

  function ResyncMessages(ss: Session, routes: seq<Route>, lastSent: seq<Prefix>,
                          text: IP -> string): (ms: seq<Message>) {
    StaleMessages(routes, lastSent) + Announcements(ss.speaker, routes, ss.cap, text)
  }

  function SentBy(routes: seq<Route>, cap: bool): (ps: seq<Prefix>) { PrefixesOf(Capable(routes, cap)) }

  // ----- what a complete resync achieves -----

  /** Learning adds the routes' prefixes, each with some route's attributes. */
  lemma {:induction false} LearnFacts(t: Table, rs: seq<Route>, p: Prefix)
    ensures p in Learn(t, rs) <==> p in t || Desired(p, rs)
    ensures Desired(p, rs) ==>
            exists r :: r in rs && r.prefix == p && Learn(t, rs)[p] == Attrs(r.nextHop, r.communities)
    ensures p in t && !Desired(p, rs) ==> Learn(t, rs)[p] == t[p]
    decreases |rs|
  {
    if rs != [] {
      var next := LearnOne(t, rs[0]);
      LearnFacts(next, rs[1..], p);
      assert rs[0] in rs && forall r :: r in rs[1..] ==> r in rs;
      assert forall r :: r in rs ==> r == rs[0] || r in rs[1..];
    }
  }

  /** Messages that only announce act as learning what they carry. */
  predicate OnlyAnnounce(ms: seq<Message>) { forall m :: m in ms ==> Announces(m) }

  predicate Announces(m: Message) { m.Update? && m.withdrawn == [] && UnreachedIn(m.attributes) == [] }

  lemma {:induction false} AnnounceIsLearn(t: Table, ms: seq<Message>)
    requires OnlyAnnounce(ms)
    ensures ApplyAll(t, ms) == Learn(t, CarriedAll(ms))
    decreases |ms|
  {
    if ms != [] {
      assert ms[0] in ms;
      assert Forget(Forget(t, []), []) == t;
      var next := ApplyUpdate(t, ms[0]);
      AnnounceIsLearn(next, ms[1..]);
      FoldConcat(t, Carried(ms[0]), CarriedAll(ms[1..]), LearnOne);
    }
  }

  lemma {:induction false} ChunksOnlyAnnounce(s: Speaker, g: Group, chunks: seq<seq<Prefix>>)
    ensures OnlyAnnounce(ChunkMessages(s, g, chunks))
  {
    if chunks != [] {
      AnnouncementCarries(s, g.nextHop, g.comms, g.six, chunks[0]);
      ChunksOnlyAnnounce(s, g, chunks[1..]);
    }
  }

  lemma GroupsOnlyAnnounce(s: Speaker, gs: seq<Group>)
    ensures OnlyAnnounce(Gather(gs, GroupMessages(s)))
  {
    forall m | m in Gather(gs, GroupMessages(s)) ensures Announces(m) {
      GatherMember(gs, GroupMessages(s), m);
      var g :| g in gs && m in GroupMessages(s)(g);
      ChunksOnlyAnnounce(s, g, Chunks(g.nlri));
    }
  }

  lemma WithdrawalForgets(t: Table, six: bool, chunk: seq<Prefix>)
    ensures ApplyUpdate(t, Withdrawal(six, chunk)) == Forget(t, chunk)
  {
    WithdrawalCarriesNothing(six, chunk);
    if six {
      assert Forget(t, []) == t;
    } else {
      assert Forget(Forget(t, chunk), []) == Forget(t, chunk);
    }
  }

  lemma WithdrawalCarriesNothing(six: bool, chunk: seq<Prefix>)
    ensures Carried(Withdrawal(six, chunk)) == []
    ensures UnreachedIn(Withdrawal(six, chunk).attributes) == if six then chunk else []
  {
    if six {
      var a := MpUnreach(chunk);
      assert Withdrawal(six, chunk).attributes == [a] + [];
      ReadFirst(a, [], CommunitiesIn([a] + []));
      assert chunk + [] == chunk;
    }
  }

  lemma {:induction false} WithdrawalsForget(t: Table, six: bool, ps: seq<Prefix>)
    ensures ApplyAll(t, Withdrawals(six, Chunks(ps))) == Forget(t, ps)
    decreases |ps|
  {
    if ps == [] {
      assert Forget(t, ps) == t;
    } else {
      var n := ChunkSize(|ps|);
      var front, rest := ps[..n], ps[n..];
      WithdrawalForgets(t, six, front);
      WithdrawalsForget(Forget(t, front), six, rest);
      ForgetConcat(t, front, rest);
      assert ps == front + rest;
      var ms := Withdrawals(six, Chunks(ps));
      assert Chunks(ps)[1..] == Chunks(rest);
      assert ms[0] == Withdrawal(six, front) && ms[1..] == Withdrawals(six, Chunks(rest));
    }
  }

  lemma ForgetConcat(t: Table, ps: seq<Prefix>, qs: seq<Prefix>)
    ensures Forget(Forget(t, ps), qs) == Forget(t, ps + qs)
  {}

  predicate IsStale(p: Prefix, lastSent: seq<Prefix>, routes: seq<Route>) { p in lastSent && !Desired(p, routes) }

  function WithoutStale(t: Table, routes: seq<Route>, lastSent: seq<Prefix>): (u: Table) {
    map p | p in t && !IsStale(p, lastSent, routes) :: t[p]
  }

  lemma ForgetStale(t: Table, routes: seq<Route>, lastSent: seq<Prefix>, s4: seq<Prefix>, s6: seq<Prefix>)
    requires s4 == Stale(lastSent, routes, false) && s6 == Stale(lastSent, routes, true)
    ensures Forget(Forget(t, s4), s6) == WithoutStale(t, routes, lastSent)
  {}

  lemma WithdrawBoth(t: Table, routes: seq<Route>, lastSent: seq<Prefix>)
    ensures ApplyAll(t, StaleMessages(routes, lastSent)) == WithoutStale(t, routes, lastSent)
  {
    var s4, s6 := Stale(lastSent, routes, false), Stale(lastSent, routes, true);
    FoldConcat(t, Withdrawals(false, Chunks(s4)), Withdrawals(true, Chunks(s6)), ApplyUpdate);
    WithdrawalsForget(t, false, s4);
    WithdrawalsForget(Forget(t, s4), true, s6);
    ForgetStale(t, routes, lastSent, s4, s6);
  }

  lemma ResyncTable(ss: Session, t: Table, routes: seq<Route>, lastSent: seq<Prefix>, text: IP -> string)
    ensures ApplyAll(t, ResyncMessages(ss, routes, lastSent, text)) ==
            Learn(WithoutStale(t, routes, lastSent), CarriedAll(Announcements(ss.speaker, routes, ss.cap, text)))
  {
    var w := StaleMessages(routes, lastSent);
    var anns := Announcements(ss.speaker, routes, ss.cap, text);
    FoldConcat(t, w, anns, ApplyUpdate);
    WithdrawBoth(t, routes, lastSent);
    var g := GroupAll(routes, ss.cap, text);
    GroupsOnlyAnnounce(ss.speaker, Ordered(g.order, g.groups));
    AnnounceIsLearn(WithoutStale(t, routes, lastSent), anns);
  }

  /** The table holds exactly the capable routes' prefixes, each with the
      attributes of a desired route for it. */
  ghost predicate Serves(t: Table, routes: seq<Route>, cap: bool) { forall p :: ServesAt(t, p, Capable(routes, cap)) }

  predicate ServesAt(t: Table, p: Prefix, rs: seq<Route>) {
    (p in t <==> Desired(p, rs)) && (p in t ==> HeldAs(t[p], p, rs))
  }

  predicate HeldAs(a: Attrs, p: Prefix, rs: seq<Route>) {
    exists r :: r in rs && r.prefix == p && a == Attrs(r.nextHop, r.communities)
  }

  /** One complete resync, point by point: stale prefixes go, capable ones are
      held with a desired route's attributes, everything else stays. */
  lemma ResyncEffect(ss: Session, t: Table, routes: seq<Route>, lastSent: seq<Prefix>, text: IP -> string, p: Prefix)
    requires AddressText(text)
    ensures var u, rs := ApplyAll(t, ResyncMessages(ss, routes, lastSent, text)), Capable(routes, ss.cap);
            (p in u <==> Desired(p, rs) || (p in t && !IsStale(p, lastSent, routes))) &&
            (Desired(p, rs) ==> HeldAs(u[p], p, rs))
  {
    var rs, carried := Capable(routes, ss.cap), CarriedAll(Announcements(ss.speaker, routes, ss.cap, text));
    ResyncTable(ss, t, routes, lastSent, text);
    PackingConserves(ss.speaker, routes, ss.cap, text);
    SameMembers(carried, rs);
    LearnFacts(WithoutStale(t, routes, lastSent), carried, p);
  }

  lemma SameMembers(s: seq<Route>, t: seq<Route>)
    requires multiset(s) == multiset(t)
    ensures forall r :: r in s <==> r in t
  {
    forall r ensures r in s <==> r in t {
      assert r in s <==> r in multiset(s);
      assert r in t <==> r in multiset(t);
    }
  }

  /** A complete resync leaves the router serving exactly the desired routes if
      and only if whatever else it held is withdrawn by this very resync. */
  lemma ResyncServesIff(ss: Session, t: Table, routes: seq<Route>, lastSent: seq<Prefix>, text: IP -> string)
    requires AddressText(text)
    ensures Serves(ApplyAll(t, ResyncMessages(ss, routes, lastSent, text)), routes, ss.cap)
       <==> forall p :: p in t ==> Desired(p, Capable(routes, ss.cap)) || IsStale(p, lastSent, routes)
  {
    var u := ApplyAll(t, ResyncMessages(ss, routes, lastSent, text));
    var rs := Capable(routes, ss.cap);
    forall p ensures ServesAt(u, p, rs) <==> (p in t ==> Desired(p, rs) || IsStale(p, lastSent, routes)) {
      ResyncEffect(ss, t, routes, lastSent, text, p);
    }
  }

  /** With one route per prefix, serving pins the whole table down. */
  lemma ServesDistinct(t: Table, u: Table, routes: seq<Route>, cap: bool)
    requires Serves(t, routes, cap) && Serves(u, routes, cap)
    requires forall r, q :: r in routes && q in routes && r.prefix == q.prefix ==> r == q
    ensures t == u
  {
    forall p ensures p in t <==> p in u {
      assert ServesAt(t, p, Capable(routes, cap)) && ServesAt(u, p, Capable(routes, cap));
    }
    forall p | p in t ensures p in u && t[p] == u[p] {
      assert ServesAt(t, p, Capable(routes, cap)) && ServesAt(u, p, Capable(routes, cap));
      var r :| r in Capable(routes, cap) && r.prefix == p && t[p] == Attrs(r.nextHop, r.communities);
      var q :| q in Capable(routes, cap) && q.prefix == p && u[p] == Attrs(q.nextHop, q.communities);
      CapableMember(routes, cap, r);
      CapableMember(routes, cap, q);
    }
  }

  lemma {:induction false} CapableMember(routes: seq<Route>, cap: bool, r: Route)
    ensures r in Capable(routes, cap) <==> r in routes && (!Is6(r.prefix) || cap)
  {
    if routes != [] {
      assert routes == routes[..|routes| - 1] + [routes[|routes| - 1]];
      CapableMember(routes[..|routes| - 1], cap, r);
    }
  }
}
