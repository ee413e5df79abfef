/** A peer object and its session: what a resync writes before it succeeds or is
    cut off, and what every run of the session protocol keeps. */
module PeerSession {
  import opened Lists
  import opened Octets
  import opened Wrappers
  import opened Wire
  import opened Packing
  import opened Peers

  /** The bytes of one write; only encodable messages are ever written. */
  function WireBytes(m: Message): Bytes { if Encodable(m) then Serialize(m) else [] }

  /** The bytes of a list of messages, one element per write. */
  function Written<M>(ms: seq<M>, wire: M -> Bytes): (b: seq<Bytes>)
    ensures |b| == |ms|
  {
    if ms == [] then [] else Written(ms[..|ms| - 1], wire) + [wire(ms[|ms| - 1])]
  }

  lemma WrittenNext<M>(before: seq<Bytes>, ms: seq<M>, wire: M -> Bytes, at: nat, part: seq<M>, i: nat)
    requires at + |part| <= |ms| && ms[at..at + |part|] == part && i < |part|
    ensures before + Written(ms[..at + i], wire) + [wire(part[i])] == before + Written(ms[..at + i + 1], wire)
  {
    assert ms[..at + i + 1][..at + i] == ms[..at + i] && ms[at + i] == part[i];
  }

  lemma PartsOf<M>(a: seq<M>, b: seq<M>, c: seq<M>)
    ensures var ms := a + b + c;
            ms[..|a|] == a && ms[|a|..|a| + |b|] == b && ms[..|a| + |b|] == a + b && ms[0..|a|] == a
  {}

  /** What one element gives follows what those before it gave. */
  lemma PartAt<M, T>(w: seq<T>, ms: seq<M>, f: M -> seq<T>, j: nat)
    requires j < |ms|
    ensures var all, head := w + Gather(ms, f), w + Gather(ms[..j], f);
            |head| + |f(ms[j])| <= |all| && all[..|head|] == head &&
            all[|head|..|head| + |f(ms[j])|] == f(ms[j]) && all[..|head| + |f(ms[j])|] == w + Gather(ms[..j + 1], f)
  {
    var head, tail := w + Gather(ms[..j], f), Gather(ms[j + 1..], f);
    GatherNext(ms, f, j);
    GatherAround(ms, f, j);
    assert w + Gather(ms, f) == head + f(ms[j]) + tail;
    PartsOf(head, f(ms[j]), tail);
    assert head + f(ms[j]) == w + Gather(ms[..j + 1], f);
  }

  predicate AllFit(ms: seq<Message>) { forall m :: m in ms ==> FitsWire(m) }

  function Min(a: nat, b: nat): nat { if a < b then a else b }

  /** A session socket that takes some number of messages and then fails. */
  class Conn {
    var budget: nat
    var delivered: seq<Bytes>

    constructor (messages: nat)
      ensures budget == messages && delivered == []
    {
      budget, delivered := messages, [];
    }

    method Write(data: Bytes) returns (ok: bool)
      modifies this
      ensures ok <==> old(budget) > 0
      ensures budget == old(budget) - (if ok then 1 else 0)
      ensures delivered == if ok then old(delivered) + [data] else old(delivered)
    {
      if budget == 0 {
        return false;
      }
      budget := budget - 1;
      delivered := delivered + [data];
      ok := true;
    }

    /** Writes the next part of a longer list of messages, until done or until the
        socket fails; then exactly what it still took has been delivered. */
    method SendPart<M>(part: seq<M>, wire: M -> Bytes, ghost ms: seq<M>, ghost at: nat, ghost before: seq<Bytes>)
      returns (ok: bool)
      requires at + |part| <= |ms| && ms[at..at + |part|] == part
      requires delivered == before + Written(ms[..at], wire)
      modifies this
      ensures ok <==> |part| <= old(budget)
      ensures ok ==> delivered == before + Written(ms[..at + |part|], wire) && budget == old(budget) - |part|
      ensures !ok ==> delivered == before + Written(ms[..at + old(budget)], wire)
    {
      for i := 0 to |part|
        invariant budget == old(budget) - i
        invariant delivered == before + Written(ms[..at + i], wire)
      {
        WrittenNext(before, ms, wire, at, part, i);
        var sent := Write(wire(part[i]));
        if !sent {
          return false;
        }
      }
      ok := true;
    }

    /** Two parts in a row, with a third still to come. */
    method SendTwo<M>(a: seq<M>, b: seq<M>, ghost c: seq<M>, wire: M -> Bytes) returns (ok: bool)
      modifies this
      ensures ok <==> |a + b| <= old(budget)
      ensures ok ==> delivered == old(delivered) + Written(a + b, wire) && budget == old(budget) - |a + b|
      ensures !ok ==> delivered == old(delivered) + Written((a + b + c)[..old(budget)], wire)
    {
      PartsOf(a, b, c);
      ghost var before := delivered;
      ok := SendPart(a, wire, a + b + c, 0, before);
      if ok {
        ok := SendPart(b, wire, a + b + c, |a|, before);
      }
    }

    /** After a first list `w`, what the first `j` elements gave has been sent. */
    ghost predicate Sent<K, M>(before: seq<Bytes>, limit: nat, w: seq<M>, ks: seq<K>, f: K -> seq<M>, wire: M -> Bytes,
                               j: nat)
      requires j <= |ks|
      reads this
    {
      var done := w + Gather(ks[..j], f);
      delivered == before + Written(done, wire) && budget + |done| == limit
    }

    /** Sends what the next element gives. */
    method SendNext<K, M>(part: seq<M>, wire: M -> Bytes, ghost before: seq<Bytes>, ghost limit: nat, ghost w: seq<M>,
                          ghost ks: seq<K>, ghost f: K -> seq<M>, ghost j: nat) returns (ok: bool)
      requires j < |ks| && part == f(ks[j]) && Sent(before, limit, w, ks, f, wire, j)
      modifies this
      ensures ok ==> Sent(before, limit, w, ks, f, wire, j + 1)
      ensures !ok ==> limit < |w + Gather(ks, f)| && delivered == before + Written((w + Gather(ks, f))[..limit], wire)
    {
      ghost var done := w + Gather(ks[..j], f);
      PartAt(w, ks, f, j);
      ok := SendPart(part, wire, w + Gather(ks, f), |done|, before);
    }
  }

  class Peer {
    const speaker: Speaker
    var routes: seq<Route>
    var lastSent: seq<Prefix>
    var needsUpdate: bool
    var hasIPv6Cap: bool

    ghost predicate Valid()
      reads this
    {
      (forall r :: r in routes ==> RouteOk(r)) && forall p :: p in lastSent ==> ValidPrefix(p)
    }

    constructor (s: Speaker)
      ensures Valid() && speaker == s && routes == [] && lastSent == [] && !needsUpdate
    {
      speaker := s;
      routes, lastSent, needsUpdate, hasIPv6Cap := [], [], false, false;
    }

    ghost function Pending(text: IP -> string): (ms: seq<Message>)
      reads this
    {
      ResyncMessages(Session(speaker, hasIPv6Cap), routes, lastSent, text)
    }

    /** One resync: withdrawals first, then the announcements group by group. It
        stops at the first failed write, in which case the record of what was
        sent is left alone and the retry flag is set. */
    method ResyncRoutes(conn: Conn, text: IP -> string) returns (ok: bool)
      requires Valid() && AddressText(text)
      modifies this`lastSent, this`needsUpdate, conn
      ensures Valid()
      ensures AllFit(old(Pending(text)))
      ensures ok <==> |old(Pending(text))| <= old(conn.budget)
      ensures conn.delivered ==
        old(conn.delivered) + Written(old(Pending(text))[..Min(|old(Pending(text))|, old(conn.budget))], WireBytes)
      ensures ok ==> lastSent == SentBy(routes, hasIPv6Cap) && needsUpdate == old(needsUpdate)
      ensures !ok ==> lastSent == old(lastSent) && needsUpdate
    {
      ghost var ms, before, budget := Pending(text), conn.delivered, conn.budget;
      ResyncFits(Session(speaker, hasIPv6Cap), routes, lastSent, text);
      ghost var w := StaleMessages(routes, lastSent);
      assert ms == w + Announcements(speaker, routes, hasIPv6Cap, text);
      ok := SendWithdrawals(conn, Announcements(speaker, routes, hasIPv6Cap, text));
      if !ok {
        needsUpdate := true;
        return;
      }
      var sentPrefixes;
      ok, sentPrefixes := SendGroups(conn, text, w, before, budget);
      if !ok {
        needsUpdate := true;
        return;
      }
      forall p | p in sentPrefixes ensures ValidPrefix(p) { SentValid(routes, hasIPv6Cap, p); }
      lastSent := sentPrefixes;
    }

    /** The withdrawal half of a resync: IPv4 prefixes, then IPv6 ones. */
    method SendWithdrawals(conn: Conn, ghost rest: seq<Message>) returns (ok: bool)
      modifies conn
      ensures var w := StaleMessages(routes, lastSent);
              (ok <==> |w| <= old(conn.budget)) &&
              (ok ==> conn.delivered == old(conn.delivered) + Written(w, WireBytes)) &&
              (ok ==> conn.budget == old(conn.budget) - |w|) &&
              (!ok ==> conn.delivered == old(conn.delivered) + Written((w + rest)[..old(conn.budget)], WireBytes))
    {
      var withdrawV4, withdrawV6 := CollectStale();
      var chunks4 := ChunkPrefixes(withdrawV4);
      var chunks6 := ChunkPrefixes(withdrawV6);
      ok := conn.SendTwo(Withdrawals(false, chunks4), Withdrawals(true, chunks6), rest, WireBytes);
    }

    /** The announcement half of a resync. */
    method SendGroups(conn: Conn, text: IP -> string, ghost w: seq<Message>, ghost before: seq<Bytes>,
                      ghost budget: nat)
      returns (ok: bool, sentPrefixes: seq<Prefix>)
      requires conn.delivered == before + Written(w, WireBytes) && conn.budget + |w| == budget
      modifies conn
      ensures sentPrefixes == SentBy(routes, hasIPv6Cap)
      ensures var ms := w + Announcements(speaker, routes, hasIPv6Cap, text);
              (ok <==> |ms| <= budget) && conn.delivered == before + Written(ms[..Min(|ms|, budget)], WireBytes)
    {
      var order, groups;
      order, groups, sentPrefixes := GroupRoutes(routes, hasIPv6Cap, text);
      SentIsCapable(routes, hasIPv6Cap, text);
      ok := SendOrder(conn, order, groups, w, before, budget);
    }

    method SendOrder(conn: Conn, order: seq<string>, groups: map<string, Group>, ghost w: seq<Message>,
                     ghost before: seq<Bytes>, ghost budget: nat) returns (ok: bool)
      requires conn.delivered == before + Written(w, WireBytes) && conn.budget + |w| == budget
      modifies conn
      ensures var ms := w + Gather(Ordered(order, groups), GroupMessages(speaker));
              (ok <==> |ms| <= budget) && conn.delivered == before + Written(ms[..Min(|ms|, budget)], WireBytes)
    {
      ghost var gs := Ordered(order, groups);
      assert w + Gather(gs[..0], GroupMessages(speaker)) == w;
      for j := 0 to |order|
        invariant conn.Sent(before, budget, w, gs, GroupMessages(speaker), WireBytes, j)
      {
        var group := GroupAt(groups, order[j]);
        var chunks := ChunkPrefixes(group.nlri);
        var part := ChunkMessages(speaker, group, chunks);
        ok := conn.SendNext(part, WireBytes, before, budget, w, gs, GroupMessages(speaker), j);
        if !ok {
          return;
        }
      }
      assert gs[..|order|] == gs;
      ghost var ms := w + Gather(gs, GroupMessages(speaker));
      assert ms[..|ms|] == ms;
      ok := true;
    }

    /** The prefixes last sent and no longer desired, split by family. */
    method CollectStale() returns (withdrawV4: seq<Prefix>, withdrawV6: seq<Prefix>)
      ensures withdrawV4 == Stale(lastSent, routes, false) && withdrawV6 == Stale(lastSent, routes, true)
    {
      var desired := DesiredSet(routes);
      withdrawV4, withdrawV6 := [], [];
      for i := 0 to |lastSent|
        invariant withdrawV4 == Stale(lastSent[..i], routes, false) && withdrawV6 == Stale(lastSent[..i], routes, true)
      {
        assert lastSent[..i + 1][..i] == lastSent[..i];
        var p := lastSent[i];
        if p !in desired {
          if Is6(p) {
            withdrawV6 := withdrawV6 + [p];
          } else {
            withdrawV4 := withdrawV4 + [p];
          }
        }
      }
      assert lastSent[..|lastSent|] == lastSent;
    }

    /** Stores a new desired set; on an established session it is resynced at once,
        otherwise the establish path will send it. */
    method AnnounceRoutes(desired: seq<Route>, conn: Conn?, text: IP -> string) returns (ok: bool)
      requires Valid() && AddressText(text) && forall r :: r in desired ==> RouteOk(r)
      modifies this`routes, this`lastSent, this`needsUpdate, conn
      ensures Valid() && routes == desired
      ensures conn == null ==> ok && needsUpdate && lastSent == old(lastSent)
      ensures conn != null ==> !ok ==> needsUpdate && lastSent == old(lastSent)
      ensures conn != null && ok ==> lastSent == SentBy(desired, hasIPv6Cap)
      ensures conn != null ==>
                var ms := ResyncMessages(Session(speaker, hasIPv6Cap), desired, old(lastSent), text);
                (ok <==> |ms| <= old(conn.budget)) &&
                conn.delivered == old(conn.delivered) + Written(ms[..Min(|ms|, old(conn.budget))], WireBytes)
    {
      routes := desired;
      if conn != null {
        ok := ResyncRoutes(conn, text);
        return;
      }
      needsUpdate := true;
      ok := true;
    }

    /** Takes prefixes out of the desired set, then does as above. */
    method WithdrawRoutes(prefixes: seq<Prefix>, conn: Conn?, text: IP -> string) returns (ok: bool)
      requires Valid() && AddressText(text)
      modifies this`routes, this`lastSent, this`needsUpdate, conn
      ensures Valid() && routes == Kept(old(routes), prefixes)
      ensures conn == null ==> ok && needsUpdate && lastSent == old(lastSent)
      ensures conn != null ==> !ok ==> needsUpdate && lastSent == old(lastSent)
      ensures conn != null && ok ==> lastSent == SentBy(routes, hasIPv6Cap)
      ensures conn != null ==>
                var ms := ResyncMessages(Session(speaker, hasIPv6Cap), routes, old(lastSent), text);
                (ok <==> |ms| <= old(conn.budget)) &&
                conn.delivered == old(conn.delivered) + Written(ms[..Min(|ms|, old(conn.budget))], WireBytes)
    {
      var kept := [];
      for i := 0 to |routes|
        invariant routes == old(routes) && kept == Kept(routes[..i], prefixes)
      {
        assert routes[..i + 1][..i] == routes[..i];
        if routes[i].prefix !in prefixes {
          kept := kept + [routes[i]];
        }
      }
      assert routes[..|routes|] == routes;
      forall r | r in kept ensures RouteOk(r) { KeptMember(routes, prefixes, r); }
      ok := AnnounceRoutes(kept, conn, text);
    }
  }

  lemma {:induction false} KeptMember(routes: seq<Route>, dropped: seq<Prefix>, r: Route)
    ensures r in Kept(routes, dropped) <==> r in routes && r.prefix !in dropped
  {
    if routes != [] {
      assert routes == routes[..|routes| - 1] + [routes[|routes| - 1]];
      KeptMember(routes[..|routes| - 1], dropped, r);
    }
  }

  lemma {:induction false} WithdrawalsFit(six: bool, ps: seq<Prefix>, chunks: seq<seq<Prefix>>, m: Message)
    requires (forall p :: p in ps ==> ValidPrefix(p) && Is6(p) == six) && forall c :: c in chunks ==> c in Chunks(ps)
    requires m in Withdrawals(six, chunks)
    ensures FitsWire(m)
  {
    if m in Withdrawals(six, chunks[1..]) {
      WithdrawalsFit(six, ps, chunks[1..], m);
    } else {
      ChunkElements(ps, chunks[0]);
      WithdrawalSize(six, chunks[0]);
    }
  }

  /** Every message a resync writes is at most 1800 bytes long. */
  lemma ResyncFits(ss: Session, routes: seq<Route>, lastSent: seq<Prefix>, text: IP -> string)
    requires AddressText(text) && (forall r :: r in routes ==> RouteOk(r)) &&
             forall p :: p in lastSent ==> ValidPrefix(p)
    ensures AllFit(ResyncMessages(ss, routes, lastSent, text))
  {
    var s4, s6 := Stale(lastSent, routes, false), Stale(lastSent, routes, true);
    forall m | m in ResyncMessages(ss, routes, lastSent, text) ensures FitsWire(m) {
      if m in Announcements(ss.speaker, routes, ss.cap, text) {
        AnnouncementsFit(ss.speaker, routes, ss.cap, text, m);
      } else if m in Withdrawals(false, Chunks(s4)) {
        WithdrawalsFit(false, s4, Chunks(s4), m);
      } else {
        WithdrawalsFit(true, s6, Chunks(s6), m);
      }
    }
  }

  lemma SentValid(routes: seq<Route>, cap: bool, p: Prefix)
    requires p in SentBy(routes, cap) && forall r :: r in routes ==> RouteOk(r)
    ensures ValidPrefix(p)
  {
    var i :| 0 <= i < |SentBy(routes, cap)| && SentBy(routes, cap)[i] == p;
    CapableMember(routes, cap, Capable(routes, cap)[i]);
  }

  // ----- the session protocol -----

  /** One peer, its current session if established, the callers that have stored
      a route set and not yet resynced it (each with the session it saw), and the
      router's table. The last synced set is carried along to state what holds. */
  datatype State = State(routes: seq<Route>, lastSent: seq<Prefix>, needsUpdate: bool, session: Option<nat>, next: nat,
                         ss: Session, callers: map<nat, nat>, table: Table, synced: seq<Route>)

  datatype Event =
    | Store(desired: seq<Route>, caller: nat)
    | StoreWithout(dropped: seq<Prefix>, caller: nat)
    | CallerResync(caller: nat)
    | Trigger
    | Refresh
    | Teardown
    | Establish(ss: Session)

  const Start := State([], [], false, None, 0, Session(Speaker(0, false), false), map[], map[], [])

  function Kept(routes: seq<Route>, dropped: seq<Prefix>): (r: seq<Route>) {
    if routes == [] then []
    else
      var last := routes[|routes| - 1];
      Kept(routes[..|routes| - 1], dropped) + if last.prefix in dropped then [] else [last]
  }

  /** Store: keep the set, and resync later if a session is up. */
  function Stored(s: State, desired: seq<Route>, caller: nat): State {
    if s.session.Some? then s.(routes := desired, callers := s.callers[caller := s.session.value])
    else s.(routes := desired, needsUpdate := true)
  }

  /** A complete resync on the live session. */
  function Synced(s: State, text: IP -> string): State {
    var ms := ResyncMessages(s.ss, s.routes, s.lastSent, text);
    s.(lastSent := SentBy(s.routes, s.ss.cap), table := ApplyAll(s.table, ms), synced := s.routes)
  }

  /** A resync on the connection of an earlier session: every write fails, so it
      succeeds only if it has nothing to write. */
  function OnDeadConn(s: State, text: IP -> string): State {
    if ResyncMessages(s.ss, s.routes, s.lastSent, text) == [] then s.(lastSent := SentBy(s.routes, s.ss.cap))
    else s.(needsUpdate := true)
  }

  predicate Enabled(s: State, e: Event) {
    match e
    case Store(_, c) => c !in s.callers
    case StoreWithout(_, c) => c !in s.callers
    case CallerResync(c) => c in s.callers
    case Trigger => true
    case Refresh => s.session.Some? && s.needsUpdate
    case Teardown => s.session.Some?
    case Establish(_) => s.session.None?
  }

  function Step(s: State, e: Event, text: IP -> string): State
    requires Enabled(s, e)
  {
    match e
    case Store(desired, c) => Stored(s, desired, c)
    case StoreWithout(dropped, c) => Stored(s, Kept(s.routes, dropped), c)
    case CallerResync(c) =>
      var after := if s.session == Some(s.callers[c]) then Synced(s, text) else OnDeadConn(s, text);
      after.(callers := s.callers - {c})
    case Trigger => s.(needsUpdate := true)
    case Refresh => Synced(s.(needsUpdate := false), text)
    case Teardown => s.(session := None, table := map[])
    case Establish(ss) =>
      Synced(s.(session := Some(s.next), next := s.next + 1, ss := ss, lastSent := [], table := map[]), text)
  }

  ghost predicate Run(s: State, es: seq<Event>, t: State, text: IP -> string)
    decreases |es|
  {
    if es == [] then s == t
    else Enabled(s, es[0]) && Run(Step(s, es[0], text), es[1..], t, text)
  }

  /** Someone stored a set on the live session and has not resynced it yet. */
  predicate Outstanding(s: State) { exists c :: c in s.callers && Some(s.callers[c]) == s.session }

  ghost predicate Inv(s: State) {
    (s.session.None? ==> s.table == map[]) &&
    (s.session.Some? ==>
       Serves(s.table, s.synced, s.ss.cap) && s.lastSent == SentBy(s.synced, s.ss.cap) &&
       (s.routes == s.synced || Outstanding(s))) &&
    (s.session.Some? ==> s.session.value < s.next) &&
    forall c :: c in s.callers ==> s.callers[c] < s.next
  }

  lemma SentDesired(routes: seq<Route>, cap: bool, p: Prefix)
    ensures p in SentBy(routes, cap) <==> Desired(p, Capable(routes, cap))
  {
    var rs := Capable(routes, cap);
    if p in SentBy(routes, cap) {
      var i :| 0 <= i < |rs| && SentBy(routes, cap)[i] == p;
      assert rs[i] in rs;
    }
    if Desired(p, rs) {
      var r :| r in rs && r.prefix == p;
      var i :| 0 <= i < |rs| && rs[i] == r;
      assert SentBy(routes, cap)[i] == p;
    }
  }

  /** A complete resync restores service, whatever set was synced before. */
  lemma SyncedServes(s: State, text: IP -> string)
    requires AddressText(text) && Serves(s.table, s.synced, s.ss.cap) && s.lastSent == SentBy(s.synced, s.ss.cap)
    ensures Serves(Synced(s, text).table, s.routes, s.ss.cap)
  {
    forall p | p in s.table ensures Desired(p, Capable(s.routes, s.ss.cap)) || IsStale(p, s.lastSent, s.routes) {
      assert ServesAt(s.table, p, Capable(s.synced, s.ss.cap));
      SentDesired(s.synced, s.ss.cap, p);
      if Desired(p, s.routes) { CapableDesired(s.synced, s.routes, s.ss.cap, p); }
    }
    ResyncServesIff(s.ss, s.table, s.routes, s.lastSent, text);
  }

  /** A prefix sent in this session and still desired is still announced. */
  lemma CapableDesired(synced: seq<Route>, routes: seq<Route>, cap: bool, p: Prefix)
    requires Desired(p, Capable(synced, cap)) && Desired(p, routes)
    ensures Desired(p, Capable(routes, cap))
  {
    var q :| q in Capable(synced, cap) && q.prefix == p;
    CapableMember(synced, cap, q);
    var r :| r in routes && r.prefix == p;
    CapableMember(routes, cap, r);
  }

  /** A resync with nothing to write finds nothing recorded as sent. */
  lemma NothingToWrite(s: State, text: IP -> string)
    requires AddressText(text) && s.lastSent == SentBy(s.synced, s.ss.cap)
    requires ResyncMessages(s.ss, s.routes, s.lastSent, text) == []
    ensures SentBy(s.routes, s.ss.cap) == [] && s.lastSent == []
  {
    PackingConserves(s.ss.speaker, s.routes, s.ss.cap, text);
    assert Announcements(s.ss.speaker, s.routes, s.ss.cap, text) == [];
    assert |multiset(Capable(s.routes, s.ss.cap))| == 0;
    var s4, s6 := Stale(s.lastSent, s.routes, false), Stale(s.lastSent, s.routes, true);
    assert |Withdrawals(false, Chunks(s4))| == 0 && |Withdrawals(true, Chunks(s6))| == 0;
    assert s4 == [] && s6 == [];
    forall p ensures p !in s.lastSent {
      assert p !in s4 && p !in s6;
      SentDesired(s.synced, s.ss.cap, p);
      if p in s.lastSent && Desired(p, s.routes) { CapableDesired(s.synced, s.routes, s.ss.cap, p); }
    }
    FirstIn(s.lastSent);
  }

  lemma StepKeepsInv(s: State, e: Event, text: IP -> string)
    requires AddressText(text) && Inv(s) && Enabled(s, e)
    ensures Inv(Step(s, e, text))
  {
    var t := Step(s, e, text);
    match e
    case Store(_, c) => assert s.session.Some? ==> c in t.callers && Some(t.callers[c]) == t.session;
    case StoreWithout(_, c) => assert s.session.Some? ==> c in t.callers && Some(t.callers[c]) == t.session;
    case CallerResync(c) =>
      if s.session == Some(s.callers[c]) {
        SyncedServes(s, text);
      } else {
        if s.session.Some? && ResyncMessages(s.ss, s.routes, s.lastSent, text) == [] { NothingToWrite(s, text); }
        if Outstanding(s) {
          var d :| d in s.callers && Some(s.callers[d]) == s.session;
          assert d in t.callers && Some(t.callers[d]) == t.session;
        }
      }
    case Trigger =>
      if Outstanding(s) {
        var d :| d in s.callers && Some(s.callers[d]) == s.session;
        assert Some(t.callers[d]) == t.session;
      }
    case Refresh => SyncedServes(s.(needsUpdate := false), text);
    case Teardown =>
    case Establish(ss) =>
      var up := s.(session := Some(s.next), next := s.next + 1, ss := ss, lastSent := [], table := map[], synced := []);
      SyncedServes(up, text);
      assert t == Synced(up, text);
  }

  /** Every run: whenever no caller is between storing and resyncing, an
      established router serves exactly the desired routes, and the record of
      what was sent lists exactly the prefixes it holds. */
  lemma {:induction false} RunServes(s: State, es: seq<Event>, t: State, text: IP -> string)
    requires AddressText(text) && Inv(s) && Run(s, es, t, text)
    ensures Inv(t)
    ensures t.session.Some? && !Outstanding(t) ==>
      Serves(t.table, t.routes, t.ss.cap) && forall p :: p in t.table <==> p in t.lastSent
    decreases |es|
  {
    if es != [] {
      StepKeepsInv(s, es[0], text);
      RunServes(Step(s, es[0], text), es[1..], t, text);
    } else if t.session.Some? {
      forall p ensures p in t.table <==> p in t.lastSent {
        assert ServesAt(t.table, p, Capable(t.synced, t.ss.cap));
        SentDesired(t.synced, t.ss.cap, p);
      }
    }
  }

  lemma StartInv()
    ensures Inv(Start)
  {}

  // ----- failures -----

  /** A resync attempt: the set it was made for, and how many of its messages the
      socket took. One that is cut off has failed and leaves the record of what
      was sent alone. */
  datatype Attempt = Attempt(routes: seq<Route>, cut: nat)

  function DeliveredBy(ss: Session, a: Attempt, lastSent: seq<Prefix>, text: IP -> string): (ms: seq<Message>) {
    var all := ResyncMessages(ss, a.routes, lastSent, text);
    all[..Min(a.cut, |all|)]
  }

  /** The table after attempts one after the other. */
  function AfterAttempts(ss: Session, t: Table, tries: seq<Attempt>, lastSent: seq<Prefix>,
                         text: IP -> string): (u: Table)
    decreases |tries|
  {
    if tries == [] then t
    else AfterAttempts(ss, ApplyAll(t, DeliveredBy(ss, tries[0], lastSent, text)), tries[1..], lastSent, text)
  }

  /** Some attempt got as far as announcing the prefix. */
  predicate Announced(ss: Session, tries: seq<Attempt>, lastSent: seq<Prefix>, text: IP -> string, p: Prefix) {
    exists i :: 0 <= i < |tries| && Desired(p, CarriedAll(DeliveredBy(ss, tries[i], lastSent, text)))
  }

  predicate Withdraws(m: Message, p: Prefix) { m.Update? && (p in m.withdrawn || p in UnreachedIn(m.attributes)) }

  predicate WithdrawsAny(ms: seq<Message>, p: Prefix) { exists m :: m in ms && Withdraws(m, p) }

  /** After part of a resync the router holds what it held and what was announced,
      except for prefixes withdrawn. */
  lemma {:induction false} PartEffect(t: Table, ms: seq<Message>, p: Prefix)
    ensures p in ApplyAll(t, ms) ==> p in t || Desired(p, CarriedAll(ms))
    ensures !WithdrawsAny(ms, p) && (p in t || Desired(p, CarriedAll(ms))) ==> p in ApplyAll(t, ms)
    decreases |ms|
  {
    if ms != [] {
      var next := ApplyUpdate(t, ms[0]);
      PartEffect(next, ms[1..], p);
      assert CarriedAll(ms) == Carried(ms[0]) + CarriedAll(ms[1..]);
      assert ms == [ms[0]] + ms[1..];
      MessageEffect(t, ms[0], p);
    }
  }

  lemma MessageEffect(t: Table, m: Message, p: Prefix)
    ensures p in ApplyUpdate(t, m) ==> p in t || Desired(p, Carried(m))
    ensures !Withdraws(m, p) && (p in t || Desired(p, Carried(m))) ==> p in ApplyUpdate(t, m)
  {
    if m.Update? { LearnFacts(Forget(Forget(t, m.withdrawn), UnreachedIn(m.attributes)), Carried(m), p); }
  }

  lemma {:induction false} WithdrawalsOnly(six: bool, ps: seq<Prefix>, chunks: seq<seq<Prefix>>, p: Prefix)
    requires forall c :: c in chunks ==> c in Chunks(ps)
    ensures WithdrawsAny(Withdrawals(six, chunks), p) ==> p in ps
  {
    if chunks != [] {
      WithdrawalsOnly(six, ps, chunks[1..], p);
      ChunkElements(ps, chunks[0]);
      WithdrawalCarriesNothing(six, chunks[0]);
    }
  }

  /** A resync withdraws only what was recorded as sent. */
  lemma ResyncWithdraws(ss: Session, routes: seq<Route>, lastSent: seq<Prefix>, text: IP -> string, p: Prefix)
    ensures WithdrawsAny(ResyncMessages(ss, routes, lastSent, text), p) ==> p in lastSent
  {
    var s4, s6 := Stale(lastSent, routes, false), Stale(lastSent, routes, true);
    WithdrawalsOnly(false, s4, Chunks(s4), p);
    WithdrawalsOnly(true, s6, Chunks(s6), p);
    var g := GroupAll(routes, ss.cap, text);
    GroupsOnlyAnnounce(ss.speaker, Ordered(g.order, g.groups));
    assert forall m :: m in Announcements(ss.speaker, routes, ss.cap, text) ==> Announces(m) && !Withdraws(m, p);
  }

  lemma {:induction false} WithdrawalsCarryNothing(six: bool, chunks: seq<seq<Prefix>>)
    ensures CarriedAll(Withdrawals(six, chunks)) == []
  {
    if chunks != [] {
      WithdrawalsCarryNothing(six, chunks[1..]);
      WithdrawalCarriesNothing(six, chunks[0]);
    }
  }

  lemma ResyncCarries(ss: Session, routes: seq<Route>, lastSent: seq<Prefix>, text: IP -> string)
    requires AddressText(text)
    ensures forall r :: r in CarriedAll(ResyncMessages(ss, routes, lastSent, text)) ==> r in Capable(routes, ss.cap)
  {
    var w4, w6 := Withdrawals(false, Chunks(Stale(lastSent, routes, false))),
      Withdrawals(true, Chunks(Stale(lastSent, routes, true)));
    var anns := Announcements(ss.speaker, routes, ss.cap, text);
    WithdrawalsCarryNothing(false, Chunks(Stale(lastSent, routes, false)));
    WithdrawalsCarryNothing(true, Chunks(Stale(lastSent, routes, true)));
    GatherConcat(w4 + w6, anns, Carried);
    GatherConcat(w4, w6, Carried);
    PackingConserves(ss.speaker, routes, ss.cap, text);
    SameMembers(CarriedAll(anns), Capable(routes, ss.cap));
  }

  /** After any attempts the router holds what it held and what they announced,
      except for prefixes recorded as sent. */
  lemma {:induction false} AttemptsLeave(ss: Session, t: Table, tries: seq<Attempt>, lastSent: seq<Prefix>,
                                         text: IP -> string, p: Prefix)
    ensures var u := AfterAttempts(ss, t, tries, lastSent, text);
            (p in u ==> p in t || Announced(ss, tries, lastSent, text, p)) &&
            (p !in lastSent && (p in t || Announced(ss, tries, lastSent, text, p)) ==> p in u)
    decreases |tries|
  {
    if tries != [] {
      var part := DeliveredBy(ss, tries[0], lastSent, text);
      AttemptsLeave(ss, ApplyAll(t, part), tries[1..], lastSent, text, p);
      PartEffect(t, part, p);
      PartWithdraws(ss, tries[0], lastSent, text, p);
      AnnouncedFirst(ss, tries, lastSent, text, p);
    }
  }

  lemma PartWithdraws(ss: Session, a: Attempt, lastSent: seq<Prefix>, text: IP -> string, p: Prefix)
    ensures WithdrawsAny(DeliveredBy(ss, a, lastSent, text), p) ==> p in lastSent
  {
    ResyncWithdraws(ss, a.routes, lastSent, text, p);
    assert forall m :: m in DeliveredBy(ss, a, lastSent, text) ==> m in ResyncMessages(ss, a.routes, lastSent, text);
  }

  lemma AnnouncedFirst(ss: Session, tries: seq<Attempt>, lastSent: seq<Prefix>, text: IP -> string, p: Prefix)
    requires tries != []
    ensures Announced(ss, tries, lastSent, text, p) <==>
            Desired(p, CarriedAll(DeliveredBy(ss, tries[0], lastSent, text))) ||
            Announced(ss, tries[1..], lastSent, text, p)
  {
    if Announced(ss, tries[1..], lastSent, text, p) {
      var i :| 0 <= i < |tries[1..]| && Desired(p, CarriedAll(DeliveredBy(ss, tries[1..][i], lastSent, text)));
      assert tries[i + 1] == tries[1..][i];
    }
    if Announced(ss, tries, lastSent, text, p) {
      var i :| 0 <= i < |tries| && Desired(p, CarriedAll(DeliveredBy(ss, tries[i], lastSent, text)));
      if i > 0 { assert tries[1..][i - 1] == tries[i]; }
    }
  }

  /** Any attempts at any sets, then one success: the router serves the last set if
      and only if every prefix an attempt announced is still desired or was
      recorded as sent before the attempts. */
  lemma RetryServesIff(ss: Session, t: Table, synced: seq<Route>, tries: seq<Attempt>, routes: seq<Route>,
                       text: IP -> string)
    requires AddressText(text) && Serves(t, synced, ss.cap)
    ensures var lastSent := SentBy(synced, ss.cap);
            var u := AfterAttempts(ss, t, tries, lastSent, text);
            Serves(ApplyAll(u, ResyncMessages(ss, routes, lastSent, text)), routes, ss.cap) <==>
            forall p :: Announced(ss, tries, lastSent, text, p) ==> Desired(p, Capable(routes, ss.cap)) || p in lastSent
  {
    var lastSent, rs := SentBy(synced, ss.cap), Capable(routes, ss.cap);
    var u := AfterAttempts(ss, t, tries, lastSent, text);
    ResyncServesIff(ss, u, routes, lastSent, text);
    forall p
      ensures (p in u ==> Desired(p, rs) || IsStale(p, lastSent, routes)) <==>
              (Announced(ss, tries, lastSent, text, p) ==> Desired(p, rs) || p in lastSent)
    {
      AttemptsLeave(ss, t, tries, lastSent, text, p);
      assert ServesAt(t, p, Capable(synced, ss.cap));
      SentDesired(synced, ss.cap, p);
      if p in lastSent && Desired(p, routes) { CapableDesired(synced, routes, ss.cap, p); }
    }
  }

  /** Any number of attempts cut off anywhere, then one success for the same set:
      the router serves exactly that set. */
  lemma RetryConverges(ss: Session, t: Table, synced: seq<Route>, tries: seq<Attempt>, routes: seq<Route>,
                       text: IP -> string)
    requires AddressText(text) && Serves(t, synced, ss.cap) && forall a :: a in tries ==> a.routes == routes
    ensures var lastSent := SentBy(synced, ss.cap);
            var u := AfterAttempts(ss, t, tries, lastSent, text);
            Serves(ApplyAll(u, ResyncMessages(ss, routes, lastSent, text)), routes, ss.cap)
  {
    RetryServesIff(ss, t, synced, tries, routes, text);
    forall p | Announced(ss, tries, SentBy(synced, ss.cap), text, p) ensures Desired(p, Capable(routes, ss.cap)) {
      var i :| 0 <= i < |tries| && Desired(p, CarriedAll(DeliveredBy(ss, tries[i], SentBy(synced, ss.cap), text)));
      assert tries[i] in tries;
      DeliveredIsDesired(ss, tries[i], SentBy(synced, ss.cap), text, p);
    }
  }

  /** An attempt announces only what it was made for. */
  lemma DeliveredIsDesired(ss: Session, a: Attempt, lastSent: seq<Prefix>, text: IP -> string, p: Prefix)
    requires AddressText(text) && Desired(p, CarriedAll(DeliveredBy(ss, a, lastSent, text)))
    ensures Desired(p, Capable(a.routes, ss.cap))
  {
    var ms := ResyncMessages(ss, a.routes, lastSent, text);
    var n := Min(a.cut, |ms|);
    ResyncCarries(ss, a.routes, lastSent, text);
    assert ms == ms[..n] + ms[n..];
    GatherConcat(ms[..n], ms[n..], Carried);
    var r :| r in CarriedAll(ms[..n]) && r.prefix == p;
    assert r in CarriedAll(ms);
  }

  /** Two IPv4 routes that cannot share an UPDATE take two messages. */
  lemma TwoMessages(ss: Session, r: Route, q: Route, text: IP -> string)
    requires AddressText(text) && !Is6(r.prefix) && !Is6(q.prefix) && r.communities != q.communities
    ensures var ms := ResyncMessages(ss, [r, q], [], text);
            |ms| == 2 && ms[..1] == [Announcement(ss.speaker, r.nextHop, r.communities, false, [r.prefix])]
  {
    KeySeparates(false, r.nextHop, r.communities, false, q.nextHop, q.communities, text);
    TwoGroups(ss, r, q, text);
    var gr, gq := Alone(r), Alone(q);
    OneMessage(ss.speaker, gr, r.prefix);
    OneMessage(ss.speaker, gq, q.prefix);
    assert [gr, gq] == [gr] + [gq];
    GatherConcat([gr], [gq], GroupMessages(ss.speaker));
    GatherOne(gr, GroupMessages(ss.speaker));
    GatherOne(gq, GroupMessages(ss.speaker));
  }

  /** The group of a single IPv4 route. */
  function Alone(r: Route): (g: Group) { Group(r.nextHop, r.communities, false, [r.prefix]) }

  function KeyOf(r: Route, text: IP -> string): (k: string) { Key(false, r.nextHop, r.communities, text) }

  lemma OneGroup(r: Route, cap: bool, text: IP -> string)
    requires !Is6(r.prefix)
    ensures GroupAll([r], cap, text) == Grouping([KeyOf(r, text)], map[KeyOf(r, text) := Alone(r)], [r.prefix])
  {
    assert [r][..0] == [] && [] + [r.prefix] == [r.prefix] && [] + [KeyOf(r, text)] == [KeyOf(r, text)];
    assert GroupAll([], cap, text) == Grouping([], map[], []);
    assert GroupAll([r], cap, text) == AddRoute(GroupAll([], cap, text), r, cap, text);
  }

  lemma TwoGroups(ss: Session, r: Route, q: Route, text: IP -> string)
    requires !Is6(r.prefix) && !Is6(q.prefix) && KeyOf(r, text) != KeyOf(q, text)
    ensures ResyncMessages(ss, [r, q], [], text) == Gather([Alone(r), Alone(q)], GroupMessages(ss.speaker))
  {
    OneGroup(r, ss.cap, text);
    assert [r, q][..1] == [r] && [] + [q.prefix] == [q.prefix];
    var two := GroupAll([r, q], ss.cap, text);
    assert two == AddRoute(GroupAll([r], ss.cap, text), q, ss.cap, text);
    assert Ordered(two.order, two.groups) == [Alone(r), Alone(q)];
    assert StaleMessages([r, q], []) == [];
  }

  lemma OneMessage(s: Speaker, g: Group, p: Prefix)
    requires g.nlri == [p]
    ensures GroupMessages(s)(g) == [Announcement(s, g.nextHop, g.comms, g.six, [p])]
  {
    assert [p][..1] == [p] && [p][1..] == [];
    assert Chunks([p]) == [[p]];
  }

  lemma AnnouncesOne(s: Speaker, r: Route)
    ensures Desired(r.prefix, CarriedAll([Announcement(s, r.nextHop, r.communities, false, [r.prefix])]))
  {
    var m := Announcement(s, r.nextHop, r.communities, false, [r.prefix]);
    AnnouncementCarries(s, r.nextHop, r.communities, false, [r.prefix]);
    GatherOne(m, Carried);
    assert Routes(r.nextHop, r.communities, [r.prefix])[0] in CarriedAll([m]);
  }

  /** Two routes in two messages, the socket failing in between, and the first
      route dropped before the retry: the retry does not withdraw it. */
  lemma DroppedAfterFailureStays(ss: Session, r: Route, q: Route, text: IP -> string)
    requires AddressText(text) && !Is6(r.prefix) && !Is6(q.prefix)
    requires r.prefix != q.prefix && r.communities != q.communities
    ensures var ms := ResyncMessages(ss, [r, q], [], text);
            |ms| == 2 &&
            var retried := ApplyAll(ApplyAll(map[], ms[..1]), ResyncMessages(ss, [q], [], text));
            r.prefix in retried && !Serves(retried, [q], ss.cap)
  {
    TwoMessages(ss, r, q, text);
    var part := ResyncMessages(ss, [r, q], [], text)[..1];
    AnnouncesOne(ss.speaker, r);
    PartEffect(map[], part, r.prefix);
    PartWithdraws(ss, Attempt([r, q], 1), [], text, r.prefix);
    var retried := ApplyAll(ApplyAll(map[], part), ResyncMessages(ss, [q], [], text));
    ResyncEffect(ss, ApplyAll(map[], part), [q], [], text, r.prefix);
    CapableMember([q], ss.cap, q);
    assert !Desired(r.prefix, Capable([q], ss.cap)) by {
      forall x | x in Capable([q], ss.cap) ensures x.prefix != r.prefix { CapableMember([q], ss.cap, x); }
    }
    assert !ServesAt(retried, r.prefix, Capable([q], ss.cap));
  }
}
