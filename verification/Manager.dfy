/** The route manager's announce cache: what it believes each peer stores, kept
    through adding, changing and deleting peers, restarts and reconciliation. */
module Managers {
  import opened Packing
  import opened Wrappers

  datatype Addr = Addr(six: bool, value: nat)

  datatype User = User(id: nat, peerIP: string, asn: nat, password: string, activeDial: bool, enabled: bool)

  datatype PeerConfig = PeerConfig(addr: Addr, port: int, asn: nat, password: string, local: Addr)

  /** The speaker's name for a peer, and the manager's. */
  datatype Key = Key(addr: Addr, asn: nat)
  datatype CacheKey = CacheKey(ip: string, asn: nat)

  /** A peer object: how it was configured and the route set it stores. */
  datatype Stored = Stored(config: PeerConfig, routes: seq<Route>)

  function KeyOf(c: PeerConfig): Key { Key(c.addr, c.asn) }

  /** Nothing changed that would make the speaker restart the peer. */
  predicate SameSession(a: PeerConfig, b: PeerConfig) {
    a.asn == b.asn && a.password == b.password && a.port == b.port && a.local == b.local
  }

  /** The configured peers by key; of two with one key the later counts. */
  function ByKey(configs: seq<PeerConfig>): (m: map<Key, PeerConfig>) {
    if configs == [] then map[]
    else ByKey(configs[..|configs| - 1])[KeyOf(configs[|configs| - 1]) := configs[|configs| - 1]]
  }

  /** What setting the peer list leaves: kept peers keep their routes, restarted
      and new ones start with none. */
  function Replaced(peers: map<Key, Stored>, wanted: map<Key, PeerConfig>): (r: map<Key, Stored>) {
    map k | k in wanted ::
      if k in peers && SameSession(peers[k].config, wanted[k]) then peers[k] else Stored(wanted[k], [])
  }

  class Speaker {
    var peers: map<Key, Stored>

    constructor ()
      ensures peers == map[]
    {
      peers := map[];
    }

    /** Sets the peer list, unless refreshing the listener's keys fails first. */
    method SetPeers(configs: seq<PeerConfig>, listenerOk: bool) returns (ok: bool)
      modifies this
      ensures ok == listenerOk
      ensures peers == if ok then Replaced(old(peers), ByKey(configs)) else old(peers)
    {
      var newSet: map<Key, PeerConfig> := map[];
      for i := 0 to |configs|
        invariant newSet == ByKey(configs[..i]) && peers == old(peers)
      {
        assert configs[..i + 1][..i] == configs[..i];
        newSet := newSet[KeyOf(configs[i]) := configs[i]];
      }
      assert configs[..|configs|] == configs;
      if !listenerOk {
        return false;
      }
      peers := map k | k in peers && k in newSet :: peers[k];
      var left := newSet.Keys;
      while left != {}
        invariant left <= newSet.Keys
        invariant forall k :: k in peers ==> k in newSet
        invariant forall k :: k in newSet.Keys - left ==> k in peers && peers[k] == Replaced(old(peers), newSet)[k]
        invariant forall k :: k in left ==>
                  (k in peers <==> k in old(peers)) && (k in peers ==> peers[k] == old(peers)[k])
        decreases |left|
      {
        var key :| key in left;
        left := left - {key};
        if key !in peers || !SameSession(peers[key].config, newSet[key]) {
          peers := peers[key := Stored(newSet[key], [])];
        }
      }
      ok := true;
    }

    /** Stores a peer's route set; delivering it may fail, storing does not. */
    method Announce(key: Key, routes: seq<Route>, delivered: bool) returns (ok: bool)
      modifies this
      ensures ok <==> key in old(peers) && delivered
      ensures peers == if key in old(peers) then old(peers)[key := old(peers)[key].(routes := routes)] else old(peers)
    {
      if key !in peers {
        return false;
      }
      peers := peers[key := peers[key].(routes := routes)];
      ok := delivered;
    }
  }

  /** What the manager took over from the settings when it last started. */
  datatype Snapshot = Snapshot(v4: Addr, v6: Option<Addr>, activeDial: bool)

  function CacheKeyOf(u: User): CacheKey { CacheKey(u.peerIP, u.asn) }

  function Port(u: User, activeDial: bool): int {
    if u.peerIP == "0.0.0.0" || u.peerIP == "::" || !activeDial || !u.activeDial then -1 else 0
  }

  function ConfigOf(u: User, addr: Addr, local: Snapshot): PeerConfig {
    PeerConfig(addr, Port(u, local.activeDial), u.asn, u.password,
               if addr.six && local.v6.Some? then local.v6.value else local.v4)
  }

  /** The configurations of a user list; none if an IPv6 peer has no local address. */
  function Configs(users: seq<User>, parse: string -> Option<Addr>, local: Snapshot): Option<seq<PeerConfig>> {
    if users == [] then Some([])
    else
      var u, front := users[|users| - 1], Configs(users[..|users| - 1], parse, local);
      if front.None? then None
      else
        match parse(u.peerIP)
        case None => front
        case Some(addr) => if addr.six && local.v6.None? then None else Some(front.value + [ConfigOf(u, addr, local)])
  }

  /** No two users are the same user or the same session. */
  ghost predicate Separate(users: seq<User>, parse: string -> Option<Addr>) {
    forall i, j :: 0 <= i < j < |users| ==> Apart(users[i], users[j], parse)
  }

  predicate Apart(u: User, v: User, parse: string -> Option<Addr>) {
    u.id != v.id &&
    (u.asn != v.asn || (u.peerIP != v.peerIP && (parse(u.peerIP).None? || parse(u.peerIP) != parse(v.peerIP))))
  }

  /** With separate users, each user's key leads to that user's configuration. */
  lemma {:induction false} ConfigsByKey(users: seq<User>, parse: string -> Option<Addr>, local: Snapshot, u: User)
    requires Separate(users, parse) && u in users && Configs(users, parse, local).Some? && parse(u.peerIP).Some?
    ensures var addr, m := parse(u.peerIP).value, ByKey(Configs(users, parse, local).value);
            Key(addr, u.asn) in m && m[Key(addr, u.asn)] == ConfigOf(u, addr, local)
  {
    var front, last := users[..|users| - 1], users[|users| - 1];
    var cs := Configs(front, parse, local).value;
    if u == last {
      var all := cs + [ConfigOf(u, parse(u.peerIP).value, local)];
      assert all[..|all| - 1] == cs;
    } else {
      var i :| 0 <= i < |users| && users[i] == u;
      assert front[i] == u && Apart(users[i], users[|users| - 1], parse);
      ConfigsByKey(front, parse, local, u);
      if parse(last.peerIP).Some? {
        var all := cs + [ConfigOf(last, parse(last.peerIP).value, local)];
        assert all[..|all| - 1] == cs;
      }
    }
  }

  /** Users with different cache keys have different sessions. */
  lemma OtherKey(users: seq<User>, parse: string -> Option<Addr>, u: User, v: User)
    requires Separate(users, parse) && u in users && v in users && CacheKeyOf(u) != CacheKeyOf(v)
    ensures parse(u.peerIP).Some? && parse(u.peerIP) == parse(v.peerIP) ==> u.asn != v.asn
  {}

  lemma SameUser(users: seq<User>, parse: string -> Option<Addr>, u: User, v: User)
    requires Separate(users, parse) && u in users && v in users && u.id == v.id
    ensures u == v
  {}

  // ----- one peer's reconciliation -----

  /** What a peer stores after reconciliation: untouched if the cache says it
      already has the desired set, else the desired set. */
  function AfterReconcile(cache: map<CacheKey, seq<Route>>, ck: CacheKey, stored: seq<Route>,
                          desired: seq<Route>): seq<Route> {
    if ck in cache && cache[ck] == desired then stored else desired
  }

  /** Reconciling gets every desired set through if and only if there is no entry
      or the entry is true. So the empty entry a failed update leaves, or a cache
      kept through a failed start, strands some desired set for good. */
  lemma EntryMustBeTrue(cache: map<CacheKey, seq<Route>>, ck: CacheKey, stored: seq<Route>)
    ensures (forall desired :: AfterReconcile(cache, ck, stored, desired) == desired) <==>
            (ck in cache ==> cache[ck] == stored)
  {
    if ck in cache && cache[ck] != stored {
      assert AfterReconcile(cache, ck, stored, cache[ck]) != cache[ck];
    }
  }

  /** The manager's cache and the speaker's peers. */
  datatype Tables = Tables(cache: map<CacheKey, seq<Route>>, peers: map<Key, Stored>)

  /** Reconciling one user: its peer, if there is one, stores what the cache let through. */
  predicate LetThrough(u: User, key: Key, routes: seq<Route>, was: Tables, now: Tables) {
    (key in now.peers <==> key in was.peers) &&
    (key in now.peers ==>
      now.peers[key].routes == AfterReconcile(was.cache, CacheKeyOf(u), was.peers[key].routes, routes))
  }

  /** Reconciling with nothing failing: routes were built and let through. */
  predicate Outcome(u: User, parse: string -> Option<Addr>, build: User -> Result<seq<Route>>, was: Tables, now: Tables)
  {
    u.enabled && parse(u.peerIP).Some? ==>
      build(u).Ok? && LetThrough(u, Key(parse(u.peerIP).value, u.asn), build(u).value, was, now)
  }

  predicate Settled(u: User, parse: string -> Option<Addr>, build: User -> Result<seq<Route>>, now: Tables) {
    u.enabled && parse(u.peerIP).Some? ==>
      build(u).Ok? &&
      var key := Key(parse(u.peerIP).value, u.asn);
      key in now.peers && now.peers[key].routes == build(u).value
  }

  /** Whether reconciling a user succeeds: there is nothing to do for it, or its routes
      can be built and the cache has them already or they are delivered. */
  predicate Succeeds(u: User, parse: string -> Option<Addr>, build: User -> Result<seq<Route>>, delivered: bool,
                     was: Tables)
  {
    u.enabled && parse(u.peerIP).Some? ==>
      build(u).Ok? &&
      ((CacheKeyOf(u) in was.cache && was.cache[CacheKeyOf(u)] == build(u).value) ||
       (delivered && Key(parse(u.peerIP).value, u.asn) in was.peers))
  }

  /** The user's entry, if there is one, says what the user's peer stores. */
  predicate TrueFor(u: User, parse: string -> Option<Addr>, was: Tables) {
    parse(u.peerIP).Some? && CacheKeyOf(u) in was.cache ==>
      var key := Key(parse(u.peerIP).value, u.asn);
      key in was.peers && was.peers[key].routes == was.cache[CacheKeyOf(u)]
  }

  /** Where the entry is true, what is let through is the desired set. */
  lemma OutcomeSettles(u: User, parse: string -> Option<Addr>, build: User -> Result<seq<Route>>, delivered: bool,
                       was: Tables, now: Tables)
    requires TrueFor(u, parse, was) && Succeeds(u, parse, build, delivered, was) && Outcome(u, parse, build, was, now)
    ensures Settled(u, parse, build, now)
  {}

  /** The same at a start, when every user with an address has a peer. */
  predicate Starts(u: User, parse: string -> Option<Addr>, build: User -> Result<seq<Route>>, delivered: bool,
                   cache: map<CacheKey, seq<Route>>)
  {
    u.enabled && parse(u.peerIP).Some? ==>
      build(u).Ok? && (delivered || (CacheKeyOf(u) in cache && cache[CacheKeyOf(u)] == build(u).value))
  }

  lemma OutcomeFrom(u: User, parse: string -> Option<Addr>, build: User -> Result<seq<Route>>,
                    start: Tables, before: Tables, now: Tables)
    requires SameFor(u, parse, start, before) && Outcome(u, parse, build, before, now)
    ensures Outcome(u, parse, build, start, now)
  {}

  lemma OutcomeStays(u: User, parse: string -> Option<Addr>, build: User -> Result<seq<Route>>,
                     start: Tables, before: Tables, now: Tables)
    requires Outcome(u, parse, build, start, before) && SameFor(u, parse, before, now)
    ensures Outcome(u, parse, build, start, now)
  {}

  /** Neither the user's entry nor its peer has changed. */
  predicate SameFor(u: User, parse: string -> Option<Addr>, was: Tables, now: Tables) {
    (CacheKeyOf(u) in now.cache <==> CacheKeyOf(u) in was.cache) &&
    (CacheKeyOf(u) in now.cache ==> now.cache[CacheKeyOf(u)] == was.cache[CacheKeyOf(u)]) &&
    (parse(u.peerIP).Some? ==>
      var key := Key(parse(u.peerIP).value, u.asn);
      (key in now.peers <==> key in was.peers) && (key in now.peers ==> now.peers[key] == was.peers[key]))
  }

  /** What is done for one user leaves the others' entries and peers alone. */
  lemma OthersSame(users: seq<User>, parse: string -> Option<Addr>, i: nat, j: nat, was: Tables, now: Tables)
    requires Separate(users, parse) && i < |users| && j < |users| && i != j && parse(users[i].peerIP).Some?
    requires now.cache - {CacheKeyOf(users[i])} == was.cache - {CacheKeyOf(users[i])}
    requires var key := Key(parse(users[i].peerIP).value, users[i].asn); now.peers - {key} == was.peers - {key}
    ensures SameFor(users[j], parse, was, now)
  {
    assert (i < j ==> Apart(users[i], users[j], parse)) && (j < i ==> Apart(users[j], users[i], parse));
    var rest := was.cache - {CacheKeyOf(users[i])};
    assert CacheKeyOf(users[j]) in now.cache <==> CacheKeyOf(users[j]) in rest;
    if parse(users[j].peerIP).Some? {
      var key, mine := Key(parse(users[i].peerIP).value, users[i].asn), Key(parse(users[j].peerIP).value, users[j].asn);
      var others := was.peers - {key};
      assert mine in now.peers <==> mine in others;
    }
  }

  /** Every user with an address has a peer that stores nothing. */
  predicate AllBare(users: seq<User>, parse: string -> Option<Addr>, peers: map<Key, Stored>) {
    forall u :: u in users && parse(u.peerIP).Some? ==>
      var key := Key(parse(u.peerIP).value, u.asn);
      key in peers && peers[key].routes == []
  }

  /** One place of the user list and what goes there. */
  datatype Change = Change(at: nat, user: User)

  class Manager {
    const parse: string -> Option<Addr>
    var local: Snapshot
    var speaker: Speaker?
    var peerConfigs: seq<User>
    var peerRoutes: map<CacheKey, seq<Route>>

    /** The peer a user is configured as stores this route set. */
    ghost predicate Stores(u: User, routes: seq<Route>)
      reads this, speaker
    {
      speaker != null && parse(u.peerIP).Some? &&
      var addr := parse(u.peerIP).value;
      var key := Key(addr, u.asn);
      key in speaker.peers && speaker.peers[key].routes == routes
    }

    /** A cache entry belongs to a configured user whose peer stores just that. */
    ghost predicate TrueEntry(ck: CacheKey)
      reads this, speaker
      requires ck in peerRoutes
    {
      exists u :: u in peerConfigs && CacheKeyOf(u) == ck && Stores(u, peerRoutes[ck])
    }

    ghost predicate Honest()
      reads this, speaker
    {
      speaker != null ==> forall ck :: ck in peerRoutes ==> TrueEntry(ck)
    }

    /** A configured user's peer, if the speaker has it, runs on that user's settings. */
    ghost predicate Matched()
      reads this, speaker
    {
      speaker != null ==> forall u :: u in peerConfigs && parse(u.peerIP).Some? ==> MatchedUser(u)
    }

    predicate MatchedUser(u: User)
      requires speaker != null && parse(u.peerIP).Some?
      reads this, speaker
    {
      var key := Key(parse(u.peerIP).value, u.asn);
      key in speaker.peers ==> SameSession(speaker.peers[key].config, ConfigOf(u, key.addr, local))
    }

    /** Separate users whose peers run on their settings, whatever the cache says. */
    ghost predicate Consistent()
      reads this, speaker
    {
      Separate(peerConfigs, parse) && Matched()
    }

    ghost predicate Valid()
      reads this, speaker
    {
      Consistent() && Honest()
    }

    constructor (p: string -> Option<Addr>)
      ensures Valid() && speaker == null && peerRoutes == map[] && peerConfigs == [] && parse == p
    {
      parse, local, speaker, peerConfigs, peerRoutes := p, Snapshot(Addr(false, 0), None, false), null, [], map[];
    }

    predicate SettledAs(u: User, build: User -> Result<seq<Route>>)
      reads this, speaker
    {
      u.enabled && parse(u.peerIP).Some? ==> speaker != null && Settled(u, parse, build, Now())
    }

    /** The cache and the speaker's peers. */
    function Now(): Tables
      requires speaker != null
      reads this, speaker
    {
      Tables(peerRoutes, speaker.peers)
    }

    /** Announces each peer's desired set unless the cache says it has it. With a
        true cache, a nil error means every enabled configured peer now stores its
        desired set; with any other, only what the cache lets through. */
    method Reconcile(build: User -> Result<seq<Route>>, delivers: User -> bool) returns (ok: bool)
      requires Consistent()
      modifies this`peerRoutes, speaker
      ensures Consistent() && (old(Valid()) ==> Valid())
      ensures ok <==> speaker != null &&
                      forall u :: u in peerConfigs ==> Succeeds(u, parse, build, delivers(u), old(Now()))
      ensures ok ==> forall u :: u in peerConfigs ==> Outcome(u, parse, build, old(Now()), Now())
      ensures ok && old(Valid()) ==> forall u :: u in peerConfigs ==> SettledAs(u, build)
    {
      if speaker == null {
        return false;
      }
      ghost var start := Now();
      if Valid() { EntriesTrue(); }
      ok := ReconcileAll(build, delivers);
      forall u | ok && old(Valid()) && u in peerConfigs ensures SettledAs(u, build) {
        OutcomeSettles(u, parse, build, delivers(u), start, Now());
      }
    }

    /** The loop over the users. */
    method ReconcileAll(build: User -> Result<seq<Route>>, delivers: User -> bool) returns (ok: bool)
      requires Consistent() && speaker != null
      modifies this`peerRoutes, speaker
      ensures Consistent() && (old(Valid()) ==> Valid())
      ensures ok <==> forall u :: u in peerConfigs ==> Succeeds(u, parse, build, delivers(u), old(Now()))
      ensures ok ==> forall u :: u in peerConfigs ==> Outcome(u, parse, build, old(Now()), Now())
    {
      ghost var start := Now();
      ok := true;
      for i := 0 to |peerConfigs|
        invariant Consistent() && (old(Valid()) ==> Valid())
        invariant ok <==>
                  forall j :: 0 <= j < i ==> Succeeds(peerConfigs[j], parse, build, delivers(peerConfigs[j]), start)
        invariant ok ==> forall j :: 0 <= j < i ==> Outcome(peerConfigs[j], parse, build, start, Now())
        invariant forall j :: i <= j < |peerConfigs| ==> SameFor(peerConfigs[j], parse, start, Now())
      {
        ghost var before := Now();
        var built, sent := ReconcileUser(i, build, delivers(peerConfigs[i]));
        assert built && sent <==> Succeeds(peerConfigs[i], parse, build, delivers(peerConfigs[i]), start);
        if !built {
          assert peerConfigs[i] in peerConfigs;
          return false;
        }
        ok := ok && sent;
        if ok { OutcomeFrom(peerConfigs[i], parse, build, start, before, Now()); }
        forall j | ok && 0 <= j < i ensures Outcome(peerConfigs[j], parse, build, start, Now()) {
          OutcomeStays(peerConfigs[j], parse, build, start, before, Now());
        }
      }
    }

    /** With a true cache, each user's entry says what the user's own peer stores. */
    lemma EntriesTrue()
      requires Valid() && speaker != null
      ensures forall u :: u in peerConfigs ==> TrueFor(u, parse, Now())
    {
      forall u | u in peerConfigs && CacheKeyOf(u) in peerRoutes ensures TrueFor(u, parse, Now()) {
        assert TrueEntry(CacheKeyOf(u));
        var v :| v in peerConfigs && CacheKeyOf(v) == CacheKeyOf(u) && Stores(v, peerRoutes[CacheKeyOf(u)]);
        var i :| 0 <= i < |peerConfigs| && peerConfigs[i] == u;
        var j :| 0 <= j < |peerConfigs| && peerConfigs[j] == v;
        assert (i < j ==> Apart(u, v, parse)) && (j < i ==> Apart(v, u, parse));
      }
    }

    /** One user of a reconciliation: disabled ones and ones without an address are
        passed over, and a route that cannot be built ends it. */
    method ReconcileUser(i: nat, build: User -> Result<seq<Route>>, delivered: bool) returns (built: bool, sent: bool)
      requires Consistent() && speaker != null && i < |peerConfigs|
      modifies this`peerRoutes, speaker
      ensures Consistent() && (old(Valid()) ==> Valid())
      ensures forall j :: 0 <= j < |peerConfigs| && j != i ==> SameFor(peerConfigs[j], parse, old(Now()), Now())
      ensures built && sent <==> Succeeds(peerConfigs[i], parse, build, delivered, old(Now()))
      ensures built && sent ==> Outcome(peerConfigs[i], parse, build, old(Now()), Now())
      ensures built && sent && old(Valid()) ==> Settled(peerConfigs[i], parse, build, Now())
    {
      var u := peerConfigs[i];
      if !u.enabled || parse(u.peerIP).None? {
        return true, true;
      }
      var routes := build(u);
      if routes.Err? {
        return false, false;
      }
      built := true;
      sent := ReconcileOne(i, routes.value, delivered);
      forall j | 0 <= j < |peerConfigs| && j != i ensures SameFor(peerConfigs[j], parse, old(Now()), Now()) {
        OthersSame(peerConfigs, parse, i, j, old(Now()), Now());
      }
    }

    /** One peer: skipped, or announced to; a failed delivery drops the entry. */
    method ReconcileOne(i: nat, routes: seq<Route>, delivered: bool) returns (ok: bool)
      requires Consistent() && speaker != null && i < |peerConfigs| && parse(peerConfigs[i].peerIP).Some?
      modifies this`peerRoutes, speaker
      ensures Consistent() && OnlyRoutesOf(SessionOf(peerConfigs[i]))
      ensures EntryOnly(CacheKeyOf(peerConfigs[i]), routes, ok)
      ensures LetThrough(peerConfigs[i], SessionOf(peerConfigs[i]), routes, old(Now()), Now())
      ensures ok <==> old(HasEntry(CacheKeyOf(peerConfigs[i]), routes)) ||
                      (delivered && SessionOf(peerConfigs[i]) in speaker.peers)
      ensures old(Valid()) ==> Valid() && (ok ==> Stores(peerConfigs[i], routes))
    {
      var u := peerConfigs[i];
      if CacheKeyOf(u) in peerRoutes && peerRoutes[CacheKeyOf(u)] == routes {
        assert Honest() ==> TrueEntry(CacheKeyOf(u));
        return true;
      }
      ok := AnnounceTo(u, routes, delivered);
    }

    predicate HasEntry(ck: CacheKey, routes: seq<Route>)
      reads this`peerRoutes
    {
      ck in peerRoutes && peerRoutes[ck] == routes
    }

    method AnnounceTo(u: User, routes: seq<Route>, delivered: bool) returns (ok: bool)
      requires Consistent() && speaker != null && u in peerConfigs && parse(u.peerIP).Some?
      modifies this`peerRoutes, speaker
      ensures Consistent() && OnlyRoutesOf(SessionOf(u))
      ensures ok <==> delivered && SessionOf(u) in speaker.peers
      ensures EntryOnly(CacheKeyOf(u), routes, ok)
      ensures SessionOf(u) in speaker.peers ==> Stores(u, routes)
      ensures old(Valid()) ==> Valid()
    {
      ok := speaker.Announce(SessionOf(u), routes, delivered);
      peerRoutes := if ok then peerRoutes[CacheKeyOf(u) := routes] else peerRoutes - {CacheKeyOf(u)};
      OneAnnounced(u);
    }

    /** The session a user's address and AS number lead to. */
    function SessionOf(u: User): Key
      requires parse(u.peerIP).Some?
    {
      Key(parse(u.peerIP).value, u.asn)
    }

    /** Only one entry may have changed: it holds these routes, or is gone. */
    twostate predicate EntryOnly(ck: CacheKey, routes: seq<Route>, present: bool)
      reads this
    {
      peerRoutes == if present then old(peerRoutes)[ck := routes] else old(peerRoutes) - {ck}
    }

    /** After an announcement to one user's peer the other entries are as true as before. */
    twostate lemma OneAnnounced(u: User)
      requires old(Consistent()) && speaker == old(speaker) && speaker != null && peerConfigs == old(peerConfigs) &&
               local == old(local)
      requires u in peerConfigs && parse(u.peerIP).Some? && OnlyRoutesOf(SessionOf(u))
      requires forall ck :: ck in peerRoutes && ck != CacheKeyOf(u) ==>
               ck in old(peerRoutes) && peerRoutes[ck] == old(peerRoutes)[ck]
      requires CacheKeyOf(u) in peerRoutes ==> Stores(u, peerRoutes[CacheKeyOf(u)])
      ensures Consistent() && (old(Honest()) ==> Honest())
    {
      forall v | v in peerConfigs && parse(v.peerIP).Some? ensures MatchedUser(v) { assert old(MatchedUser(v)); }
      forall ck | old(Honest()) && ck in peerRoutes ensures TrueEntry(ck) {
        if ck != CacheKeyOf(u) {
          assert old(TrueEntry(ck));
          var v :| v in peerConfigs && CacheKeyOf(v) == ck && old(Stores(v, peerRoutes[ck]));
          OtherKey(peerConfigs, parse, u, v);
          assert Stores(v, peerRoutes[ck]);
        }
      }
    }

    /** No peer but one stores other routes than before, and none runs on other settings. */
    twostate predicate OnlyRoutesOf(key: Key)
      requires speaker != null && speaker == old(speaker)
      reads this, speaker
    {
      speaker.peers.Keys == old(speaker.peers).Keys &&
      forall k :: k in speaker.peers ==>
        var now, was := speaker.peers[k], old(speaker.peers)[k];
        now.config == was.config && (k != key ==> now == was)
    }

    // ----- changing the peer list -----

    method BuildPeerConfigs() returns (configs: Option<seq<PeerConfig>>)
      ensures configs == Configs(peerConfigs, parse, local)
    {
      var cs: seq<PeerConfig> := [];
      for i := 0 to |peerConfigs|
        invariant Some(cs) == Configs(peerConfigs[..i], parse, local)
      {
        assert peerConfigs[..i + 1][..i] == peerConfigs[..i];
        var u := peerConfigs[i];
        match parse(u.peerIP)
        case None =>
        case Some(addr) =>
          if addr.six && local.v6.None? {
            NoConfigs(peerConfigs, parse, local, i + 1);
            return None;
          }
          cs := cs + [ConfigOf(u, addr, local)];
      }
      assert peerConfigs[..|peerConfigs|] == peerConfigs;
      configs := Some(cs);
    }

    /** A cache entry that will still be true once the peer list is set: its user
        is configured, and nothing about the session changes. */
    ghost predicate Survives(ck: CacheKey)
      reads this, speaker
      requires ck in peerRoutes && speaker != null
    {
      exists u :: u in peerConfigs && CacheKeyOf(u) == ck && Stores(u, peerRoutes[ck]) && MatchedUser(u)
    }

    /** Every entry survives. */
    ghost predicate AllSurvive()
      reads this, speaker
      requires speaker != null
    {
      forall ck :: ck in peerRoutes ==> Survives(ck)
    }

    /** Pushes the configured list to the speaker. */
    method SetPeers(cfgs: seq<PeerConfig>, listenerOk: bool) returns (ok: bool)
      requires speaker != null && Separate(peerConfigs, parse) && Some(cfgs) == Configs(peerConfigs, parse, local)
      modifies speaker
      ensures ok == listenerOk
      ensures speaker.peers == if ok then Replaced(old(speaker.peers), ByKey(cfgs)) else old(speaker.peers)
      ensures ok ==> Consistent() && (old(AllSurvive()) ==> Valid())
      ensures ok ==> forall u :: u in peerConfigs && parse(u.peerIP).Some? ==> SessionOf(u) in speaker.peers
    {
      ok := speaker.SetPeers(cfgs, listenerOk);
      if ok {
        forall u | u in peerConfigs && parse(u.peerIP).Some?
          ensures SessionOf(u) in speaker.peers && MatchedUser(u)
        {
          ConfigsByKey(peerConfigs, parse, local, u);
        }
        forall ck | old(AllSurvive()) && ck in peerRoutes ensures TrueEntry(ck) {
          assert old(Survives(ck));
          var u :| u in peerConfigs && CacheKeyOf(u) == ck && old(Stores(u, peerRoutes[ck])) && old(MatchedUser(u));
          ConfigsByKey(peerConfigs, parse, local, u);
          assert Stores(u, peerRoutes[ck]);
        }
      }
    }

    /** The sessions the user list asks for. */
    function Wanted(): map<Key, PeerConfig>
      reads this
    {
      var cs := Configs(peerConfigs, parse, local);
      if cs.None? then map[] else ByKey(cs.value)
    }

    /** The speaker has just the sessions of the list, those unchanged with their routes. */
    twostate predicate Pushed()
      reads this, speaker
    {
      old(speaker) != null && speaker == old(speaker) && Configs(peerConfigs, parse, local).Some? &&
      speaker.peers == Replaced(old(speaker.peers), Wanted())
    }

    /** Builds the list and pushes it, which may fail at either step. */
    method PushPeers(listenerOk: bool) returns (ok: bool, built: bool)
      requires speaker != null && Separate(peerConfigs, parse)
      modifies speaker
      ensures built <==> Configs(peerConfigs, parse, local).Some?
      ensures ok <==> listenerOk && built
      ensures if ok then Pushed() else speaker.peers == old(speaker.peers)
      ensures ok ==> Consistent() && (old(AllSurvive()) ==> Valid())
      ensures ok && old(speaker.peers) == map[] ==> AllBare(peerConfigs, parse, speaker.peers)
    {
      var cfgs := BuildPeerConfigs();
      ok, built := false, cfgs.Some?;
      if built {
        ok := SetPeers(cfgs.value, listenerOk);
      }
    }

    /** A new user; its address is written as the others' are, and its ID is new. */
    method AddPeer(user: User, listenerOk: bool) returns (ok: bool)
      requires Valid()
      requires forall u :: u in peerConfigs ==> u.id != user.id && SameText(u, user, parse)
      modifies this`peerConfigs, speaker
      ensures Valid()
      ensures peerConfigs == if ok then old(peerConfigs) + [user] else old(peerConfigs)
      ensures ok <==> speaker != null && listenerOk && Configs(old(peerConfigs) + [user], parse, local).Some? &&
                      forall u :: u in old(peerConfigs) ==> CacheKeyOf(u) != CacheKeyOf(user)
      ensures if ok then Pushed() else speaker != null ==> speaker.peers == old(speaker.peers)
    {
      if speaker == null {
        return false;
      }
      if exists u :: u in peerConfigs && u.peerIP == user.peerIP && u.asn == user.asn {
        return false;
      }
      ghost var was := peerConfigs;
      peerConfigs := peerConfigs + [user];
      AppendSeparate(was, user);
      KeptByAdding(user);
      var built;
      ok, built := PushPeers(listenerOk);
      if !ok {
        peerConfigs := peerConfigs[..|peerConfigs| - 1];
        assert peerConfigs == was;
        SameState();
      }
    }

    twostate lemma KeptByAdding(user: User)
      requires old(Valid()) && speaker == old(speaker) && speaker != null && speaker.peers == old(speaker.peers)
      requires peerConfigs == old(peerConfigs) + [user] && peerRoutes == old(peerRoutes) && local == old(local)
      ensures forall ck :: ck in peerRoutes ==> Survives(ck)
    {
      forall ck | ck in peerRoutes ensures Survives(ck) {
        assert old(TrueEntry(ck));
        var u :| u in old(peerConfigs) && CacheKeyOf(u) == ck && old(Stores(u, peerRoutes[ck]));
        assert u in peerConfigs && Stores(u, peerRoutes[ck]) && old(MatchedUser(u));
      }
    }

    lemma AppendSeparate(list: seq<User>, user: User)
      requires Separate(list, parse)
      requires forall u :: u in list ==>
               u.id != user.id && SameText(u, user, parse) && CacheKeyOf(u) != CacheKeyOf(user)
      ensures Separate(list + [user], parse)
    {}

    /** The lists, cache and peers are as before, so everything said of them is. */
    twostate lemma SameState()
      requires old(Valid()) && speaker == old(speaker) && (speaker != null ==> speaker.peers == old(speaker.peers))
      requires peerConfigs == old(peerConfigs) && peerRoutes == old(peerRoutes) && local == old(local)
      ensures Valid()
    {
      if speaker != null {
        forall ck | ck in peerRoutes ensures TrueEntry(ck) {
          assert old(TrueEntry(ck));
          var u :| u in peerConfigs && CacheKeyOf(u) == ck && old(Stores(u, peerRoutes[ck]));
          assert Stores(u, peerRoutes[ck]);
        }
        forall u | u in peerConfigs && parse(u.peerIP).Some? ensures MatchedUser(u) { assert old(MatchedUser(u)); }
      }
    }

    method Find(id: nat) returns (i: nat)
      ensures i <= |peerConfigs| && (i < |peerConfigs| ==> peerConfigs[i].id == id)
      ensures i == |peerConfigs| ==> forall u :: u in peerConfigs ==> u.id != id
    {
      i := 0;
      while i < |peerConfigs| && peerConfigs[i].id != id
        invariant i <= |peerConfigs| && forall j :: 0 <= j < i ==> peerConfigs[j].id != id
      {
        i := i + 1;
      }
    }

    /** Forgets what was announced to a peer that is about to be restarted. */
    method ForgetIfRestarted(was: User, now: User)
      modifies this`peerRoutes
      ensures peerRoutes == Kept(old(peerRoutes), was, now, local.activeDial)
    {
      var oldPort, newPort := Port(was, local.activeDial), Port(now, local.activeDial);
      if CacheKeyOf(was) != CacheKeyOf(now) || was.password != now.password || oldPort != newPort {
        peerRoutes := peerRoutes - {CacheKeyOf(was)};
      }
    }

    /** Changes a tracked user. When refreshing the listener fails, the list is
        rolled back but an empty entry is left for the user's peer. */
    method ChangePeer(at: nat, user: User, listenerOk: bool) returns (ok: bool)
      requires Valid() && speaker != null && at < |peerConfigs| && peerConfigs[at].id == user.id
      requires forall u :: u in peerConfigs && u.id != user.id ==>
               SameText(u, user, parse) && CacheKeyOf(u) != CacheKeyOf(user)
      modifies this`peerConfigs, this`peerRoutes, speaker
      ensures peerConfigs == if ok then old(peerConfigs)[at := user] else old(peerConfigs)
      ensures Consistent() && (ok ==> Valid())
      ensures ok ==> peerRoutes == Kept(old(peerRoutes), old(peerConfigs)[at], user, local.activeDial)
      ensures ok <==> listenerOk && Configs(old(peerConfigs)[at := user], parse, local).Some?
      ensures !ok ==> (Valid() <==> old(Harmless(at, user))) && speaker.peers == old(speaker.peers)
      ensures ok ==> Pushed()
      ensures !ok && Configs(old(peerConfigs)[at := user], parse, local).Some? ==>
                peerRoutes == Cleared(Kept(old(peerRoutes), old(peerConfigs)[at], user, local.activeDial),
                                      CacheKeyOf(old(peerConfigs)[at]), CacheKeyOf(user))
    {
      ghost var list := peerConfigs;
      var oldUser := peerConfigs[at];
      peerConfigs := peerConfigs[at := user];
      ForgetIfRestarted(oldUser, user);
      StillSeparate(list, at, user);
      StillSurvive(Change(at, user));
      var built;
      ok, built := PushPeers(listenerOk);
      if !ok {
        peerConfigs := peerConfigs[at := oldUser];
        assert peerConfigs == list;
        if built {
          peerRoutes := Cleared(peerRoutes, CacheKeyOf(oldUser), CacheKeyOf(user));
          ClearedEntry(oldUser);
        } else {
          FewerEntries();
        }
      }
    }

    /** A failing change does no harm if the list is refused before it reaches the
        listener, or if the peer stores nothing anyway. */
    ghost predicate Harmless(at: nat, user: User)
      requires at < |peerConfigs|
      reads this, speaker
    {
      Configs(peerConfigs[at := user], parse, local).None? || Stores(peerConfigs[at], [])
    }

    lemma StillSeparate(list: seq<User>, at: nat, user: User)
      requires Separate(list, parse) && at < |list| && list[at].id == user.id
      requires forall u :: u in list && u.id != user.id ==>
               SameText(u, user, parse) && CacheKeyOf(u) != CacheKeyOf(user)
      ensures Separate(list[at := user], parse)
    {}

    /** Entries kept after a change to one user stay true through the restart. */
    twostate lemma StillSurvive(c: Change)
      requires old(Valid()) && speaker == old(speaker) && speaker != null && speaker.peers == old(speaker.peers) &&
               local == old(local)
      requires c.at < |old(peerConfigs)| && peerConfigs == old(peerConfigs)[c.at := c.user] &&
               old(peerConfigs)[c.at].id == c.user.id
      requires peerRoutes == Kept(old(peerRoutes), old(peerConfigs)[c.at], c.user, local.activeDial)
      ensures forall ck :: ck in peerRoutes ==> Survives(ck)
    {
      forall ck | ck in peerRoutes ensures Survives(ck) {
        assert old(TrueEntry(ck));
        var u :| u in old(peerConfigs) && CacheKeyOf(u) == ck && old(Stores(u, peerRoutes[ck]));
        assert old(MatchedUser(u));
        var i :| 0 <= i < |old(peerConfigs)| && old(peerConfigs)[i] == u;
        var now := peerConfigs[i];
        assert now in peerConfigs && CacheKeyOf(now) == ck && Stores(now, peerRoutes[ck]) && MatchedUser(now);
      }
    }

    /** Dropping entries never makes the cache lie. */
    twostate lemma FewerEntries()
      requires old(Valid()) && speaker == old(speaker) && (speaker != null ==> speaker.peers == old(speaker.peers))
      requires peerConfigs == old(peerConfigs) && local == old(local)
      requires forall ck :: ck in peerRoutes ==> ck in old(peerRoutes) && peerRoutes[ck] == old(peerRoutes)[ck]
      ensures Valid()
    {
      if speaker != null {
        forall ck | ck in peerRoutes ensures TrueEntry(ck) {
          assert old(TrueEntry(ck));
          var u :| u in peerConfigs && CacheKeyOf(u) == ck && old(Stores(u, peerRoutes[ck]));
          assert Stores(u, peerRoutes[ck]);
        }
        forall u | u in peerConfigs && parse(u.peerIP).Some? ensures MatchedUser(u) { assert old(MatchedUser(u)); }
      }
    }

    /** An empty entry is true exactly when the peer stores nothing. */
    twostate lemma ClearedEntry(user: User)
      requires old(Valid()) && speaker == old(speaker) && speaker != null && speaker.peers == old(speaker.peers)
      requires peerConfigs == old(peerConfigs) && local == old(local) && user in peerConfigs
      requires CacheKeyOf(user) in peerRoutes && peerRoutes[CacheKeyOf(user)] == []
      requires forall ck :: ck in peerRoutes && ck != CacheKeyOf(user) ==>
               ck in old(peerRoutes) && peerRoutes[ck] == old(peerRoutes)[ck]
      ensures Valid() <==> Stores(user, [])
    {
      if Honest() {
        assert TrueEntry(CacheKeyOf(user));
      }
      if Stores(user, []) {
        forall ck | ck in peerRoutes ensures TrueEntry(ck) {
          if ck != CacheKeyOf(user) {
            assert old(TrueEntry(ck));
            var u :| u in peerConfigs && CacheKeyOf(u) == ck && old(Stores(u, peerRoutes[ck]));
            assert Stores(u, peerRoutes[ck]);
          }
        }
        forall u | u in peerConfigs && parse(u.peerIP).Some? ensures MatchedUser(u) { assert old(MatchedUser(u)); }
      }
    }

    /** A user changed, or one not tracked so far, such as one enabled again. */
    method UpdatePeer(user: User, listenerOk: bool) returns (ok: bool)
      requires Valid()
      requires forall u :: u in peerConfigs && u.id != user.id ==> SameText(u, user, parse)
      requires forall u, v :: u in peerConfigs && v in peerConfigs && u.id == user.id != v.id ==>
                 CacheKeyOf(v) != CacheKeyOf(user)
      modifies this`peerConfigs, this`peerRoutes, speaker
      ensures ok || listenerOk ==> Valid()
      ensures ok <==> speaker != null && listenerOk && old(Acceptable(user)) &&
                      (local.v6.Some? || forall u :: old(NewList(user, u)) ==> !NeedsV6(u, parse))
      ensures ok ==> forall u :: u in peerConfigs <==> u == user || (u in old(peerConfigs) && u.id != user.id)
      ensures !ok ==> peerConfigs == old(peerConfigs)
      ensures if ok then Pushed() else speaker != null ==> speaker.peers == old(speaker.peers)
    {
      if speaker == null {
        return false;
      }
      var at := Find(user.id);
      if at < |peerConfigs| {
        ghost var list := peerConfigs;
        ok := ChangePeer(at, user, listenerOk);
        assert ok ==> peerConfigs[at] == user;
        ReplacedOne(list, at, user);
        NoConfigsIff(list[at := user], parse, local);
      } else {
        NoConfigsIff(peerConfigs + [user], parse, local);
        ok := AddPeer(user, listenerOk);
      }
    }

    /** A tracked user, or a new one whose session no other user has. */
    predicate Acceptable(user: User)
      reads this
    {
      (exists u :: u in peerConfigs && u.id == user.id) ||
      forall u :: u in peerConfigs ==> CacheKeyOf(u) != CacheKeyOf(user)
    }

    /** The users of the list once this one is replaced or added. */
    predicate NewList(user: User, u: User)
      reads this
    {
      u == user || (u in peerConfigs && u.id != user.id)
    }

    lemma ReplacedOne(list: seq<User>, at: nat, user: User)
      requires Separate(list, parse) && at < |list| && list[at].id == user.id
      ensures forall u :: u in list[at := user] <==> u == user || (u in list && u.id != user.id)
    {
      var after := list[at := user];
      forall u ensures u in after <==> u == user || (u in list && u.id != user.id) {
        if u in after && u != user {
          var i :| 0 <= i < |after| && after[i] == u;
          assert list[i] == u && (i < at ==> Apart(list[i], list[at], parse)) &&
                 (at < i ==> Apart(list[at], list[i], parse));
        }
        if u in list && u.id != user.id {
          var i :| 0 <= i < |list| && list[i] == u;
          assert after[i] == u;
        }
        assert after[at] == user;
      }
    }

    method DeletePeer(userID: nat, listenerOk: bool) returns (ok: bool)
      requires Valid()
      modifies this`peerConfigs, this`peerRoutes, speaker
      ensures Valid()
      ensures ok <==> speaker != null && listenerOk && Configs(peerConfigs, parse, local).Some? &&
                      exists u :: u in old(peerConfigs) && u.id == userID
      ensures if ok then Pushed() else speaker != null ==> speaker.peers == old(speaker.peers)
      ensures var gone := speaker != null && exists u :: u in old(peerConfigs) && u.id == userID;
              (forall u :: u in peerConfigs <==> u in old(peerConfigs) && !(gone && u.id == userID)) &&
              (!gone ==> peerRoutes == old(peerRoutes)) &&
              forall u :: u in old(peerConfigs) && u.id == userID && gone ==>
                peerRoutes == old(peerRoutes) - {CacheKeyOf(u)}
    {
      if speaker == null {
        return false;
      }
      var idx := Find(userID);
      if idx == |peerConfigs| {
        return false;
      }
      var removed := peerConfigs[idx];
      WithoutOne(peerConfigs, idx);
      peerConfigs := peerConfigs[..idx] + peerConfigs[idx + 1..];
      peerRoutes := peerRoutes - {CacheKeyOf(removed)};
      OthersStayTrue(removed);
      var built;
      ok, built := PushPeers(listenerOk);
      if !ok {
        OthersStayTrue(removed);
      }
    }

    /** With one user gone and that user's entry forgotten, nothing else changes. */
    twostate lemma OthersStayTrue(removed: User)
      requires old(Valid()) && speaker == old(speaker) && speaker != null && speaker.peers == old(speaker.peers) &&
               local == old(local)
      requires Separate(peerConfigs, parse)
      requires forall u :: u in peerConfigs <==> u in old(peerConfigs) && u.id != removed.id
      requires removed in old(peerConfigs) && peerRoutes == old(peerRoutes) - {CacheKeyOf(removed)}
      ensures Valid() && forall ck :: ck in peerRoutes ==> Survives(ck)
    {
      forall u | u in peerConfigs && parse(u.peerIP).Some? ensures MatchedUser(u) { assert old(MatchedUser(u)); }
      forall ck | ck in peerRoutes ensures TrueEntry(ck) && Survives(ck) {
        assert old(TrueEntry(ck));
        var u :| u in old(peerConfigs) && CacheKeyOf(u) == ck && old(Stores(u, peerRoutes[ck]));
        if u.id == removed.id { SameUser(old(peerConfigs), parse, u, removed); }
        assert u in peerConfigs && Stores(u, peerRoutes[ck]) && MatchedUser(u);
      }
    }

    lemma WithoutOne(list: seq<User>, idx: nat)
      requires Separate(list, parse) && idx < |list|
      ensures var rest := list[..idx] + list[idx + 1..];
              Separate(rest, parse) && forall u :: u in rest <==> u in list && u.id != list[idx].id
    {}

    /** A configured user's peer runs on just the user's settings: whatever the
        speaker keeps of an earlier list, it never keeps a session that differs. */
    lemma RunsOnSettings(u: User)
      requires Consistent() && speaker != null && u in peerConfigs && parse(u.peerIP).Some?
      requires SessionOf(u) in speaker.peers
      ensures var c, addr := speaker.peers[SessionOf(u)].config, parse(u.peerIP).value;
              c.asn == u.asn && c.password == u.password &&
              c.local == (if addr.six && local.v6.Some? then local.v6.value else local.v4) &&
              (c.port == 0 <==> local.activeDial && u.activeDial && u.peerIP != "0.0.0.0" && u.peerIP != "::")
    {
      assert MatchedUser(u);
    }

    // ----- starting and stopping -----

    /** A fresh start: the enabled users become peers, which store nothing yet and
        are announced their desired sets unless an entry left by an earlier start
        says they have them. Any failure leaves nothing running. With an empty cache
        every desired set gets through. */
    method Start(users: seq<User>, settings: Snapshot, opens: bool, listenerOk: bool,
                 build: User -> Result<seq<Route>>, delivers: User -> bool) returns (ok: bool)
      requires speaker == null && Separate(users, parse) && Separate(peerConfigs, parse)
      modifies this
      ensures Consistent() && (ok <==> speaker != null)
      ensures ok <==> opens && listenerOk &&
                      forall u :: u in Startable(users, parse, settings) ==>
                        Starts(u, parse, build, delivers(u), old(peerRoutes))
      ensures !ok || old(peerRoutes) == map[] ==> Valid()
      ensures ok ==> fresh(speaker) && peerConfigs == Startable(users, parse, settings) && local == settings
      ensures ok ==> forall u :: u in peerConfigs ==> StartedAs(u, build, old(peerRoutes))
      ensures ok && old(peerRoutes) == map[] ==> forall u :: u in peerConfigs ==> SettledAs(u, build)
    {
      local := settings;
      if !opens {
        return false;
      }
      speaker := new Speaker();
      ghost var cache := peerRoutes;
      var configured: seq<User> := [];
      for i := 0 to |users|
        invariant configured == Startable(users[..i], parse, settings) && speaker != null && fresh(speaker)
        invariant peerRoutes == cache && local == settings && Separate(peerConfigs, parse) && speaker.peers == map[]
      {
        assert users[..i + 1][..i] == users[..i];
        var addr := parse(users[i].peerIP);
        if addr.Some? && (!addr.value.six || local.v6.Some?) {
          configured := configured + [users[i]];
        }
      }
      assert users[..|users|] == users;
      StartableSeparate(users, parse, settings);
      peerConfigs := configured;
      ok := Launch(listenerOk, build, delivers);
      if !ok {
        speaker := null;
      }
    }

    /** The end of a start: the new speaker gets its peers and they their routes. */
    method Launch(listenerOk: bool, build: User -> Result<seq<Route>>, delivers: User -> bool) returns (ok: bool)
      requires speaker != null && speaker.peers == map[] && Separate(peerConfigs, parse)
      modifies this`peerRoutes, speaker
      ensures ok ==> Consistent() && (old(peerRoutes) == map[] ==> Valid())
      ensures ok <==> listenerOk && Configs(peerConfigs, parse, local).Some? &&
                      forall u :: u in peerConfigs ==> Starts(u, parse, build, delivers(u), old(peerRoutes))
      ensures ok ==> forall u :: u in peerConfigs ==> StartedAs(u, build, old(peerRoutes))
    {
      var built;
      ok, built := PushPeers(listenerOk);
      if ok {
        ghost var start := Now();
        forall u | u in peerConfigs
          ensures Succeeds(u, parse, build, delivers(u), start) <==>
                    Starts(u, parse, build, delivers(u), old(peerRoutes))
        {}
        ok := Reconcile(build, delivers);
        forall u | ok && u in peerConfigs ensures StartedAs(u, build, old(peerRoutes)) {
          assert Outcome(u, parse, build, start, Now());
        }
      }
    }

    /** After a start a user's peer stores its desired set, or nothing if an entry
        of the cache says it has the set. */
    predicate StartedAs(u: User, build: User -> Result<seq<Route>>, cache: map<CacheKey, seq<Route>>)
      reads this, speaker
    {
      u.enabled && parse(u.peerIP).Some? ==>
        speaker != null && build(u).Ok? && SessionOf(u) in speaker.peers &&
        speaker.peers[SessionOf(u)].routes == AfterReconcile(cache, CacheKeyOf(u), [], build(u).value)
    }

    method ReloadPeers(users: seq<User>, settings: Snapshot, opens: bool, listenerOk: bool,
                       build: User -> Result<seq<Route>>, delivers: User -> bool) returns (ok: bool)
      requires Valid() && Separate(users, parse)
      modifies this
      ensures Valid() && (ok <==> speaker != null)
      ensures ok <==> opens && listenerOk &&
                      forall u :: u in Startable(users, parse, settings) ==> Starts(u, parse, build, delivers(u), map[])
      ensures ok ==> peerConfigs == Startable(users, parse, settings)
      ensures ok ==> forall u :: u in peerConfigs ==> SettledAs(u, build)
    {
      speaker := null;
      peerRoutes := map[];
      ok := Start(users, settings, opens, listenerOk, build, delivers);
    }

    method Stop()
      modifies this
      ensures Valid() && speaker == null && peerConfigs == [] && peerRoutes == map[]
    {
      speaker, peerConfigs, peerRoutes := null, [], map[];
    }
  }

  /** The entries left once a changed user's peer restarts, if it does. */
  function Kept(cache: map<CacheKey, seq<Route>>, was: User, now: User, dial: bool): map<CacheKey, seq<Route>> {
    if Restarts(was, now, dial) then cache - {CacheKeyOf(was)} else cache
  }

  /** The entries a failed change leaves: an empty one for the old key, none for a new one. */
  function Cleared(cache: map<CacheKey, seq<Route>>, oldKey: CacheKey, newKey: CacheKey): map<CacheKey, seq<Route>> {
    if newKey == oldKey then cache[oldKey := []] else cache[oldKey := []] - {newKey}
  }

  /** Changes after which the speaker runs another session for the user. */
  predicate Restarts(was: User, now: User, activeDial: bool) {
    CacheKeyOf(was) != CacheKeyOf(now) || was.password != now.password || Port(was, activeDial) != Port(now, activeDial)
  }

  /** The users a start can configure. */
  function Startable(users: seq<User>, parse: string -> Option<Addr>, local: Snapshot): (r: seq<User>) {
    if users == [] then []
    else
      var u := users[|users| - 1];
      Startable(users[..|users| - 1], parse, local) +
      if parse(u.peerIP).Some? && (!parse(u.peerIP).value.six || local.v6.Some?) then [u] else []
  }

  /** The last user is apart from any of those before. */
  lemma LastApart(users: seq<User>, s: seq<User>, parse: string -> Option<Addr>)
    requires users != [] && Separate(users, parse) && Separate(s, parse) &&
             forall u :: u in s ==> u in users[..|users| - 1]
    ensures Separate(s + [users[|users| - 1]], parse)
  {
    var r := s + [users[|users| - 1]];
    forall i, j | 0 <= i < j < |r| ensures Apart(r[i], r[j], parse) {
      if j < |s| {
        assert Apart(s[i], s[j], parse);
      } else {
        var front := users[..|users| - 1];
        assert s[i] in s;
        var k :| 0 <= k < |front| && front[k] == s[i];
        assert Apart(users[k], users[|users| - 1], parse);
      }
    }
  }

  lemma {:induction false} StartableSeparate(users: seq<User>, parse: string -> Option<Addr>, local: Snapshot)
    requires Separate(users, parse)
    ensures var r := Startable(users, parse, local);
            Separate(r, parse) && Configs(r, parse, local).Some? && forall u :: u in r ==> u in users
  {
    if users != [] {
      var front, last := users[..|users| - 1], users[|users| - 1];
      StartableSeparate(front, parse, local);
      var r := Startable(users, parse, local);
      var s := Startable(front, parse, local);
      LastApart(users, s, parse);
      assert r != s ==> r[..|r| - 1] == s && r[|r| - 1] == last;
    }
  }

  /** One address is written one way. */
  predicate SameText(u: User, v: User, parse: string -> Option<Addr>) {
    parse(u.peerIP).Some? && parse(u.peerIP) == parse(v.peerIP) ==> u.peerIP == v.peerIP
  }

  lemma {:induction false} NoConfigs(users: seq<User>, parse: string -> Option<Addr>, local: Snapshot, n: nat)
    requires n <= |users| && Configs(users[..n], parse, local).None?
    ensures Configs(users, parse, local).None?
    decreases |users|
  {
    if n < |users| {
      assert users[..|users| - 1][..n] == users[..n];
      NoConfigs(users[..|users| - 1], parse, local, n);
    } else {
      assert users[..n] == users;
    }
  }

  // ----- which sessions are configured, and when they change -----

  /** Setting a peer list: a wanted peer keeps its routes exactly when its AS number,
      password, port and local address are what they were, and starts empty with the
      wanted settings otherwise; no other peer is left. */
  lemma ReplacedMeans(peers: map<Key, Stored>, wanted: map<Key, PeerConfig>, k: Key)
    ensures var r := Replaced(peers, wanted);
            (k in r <==> k in wanted) &&
            (k in wanted ==>
              var w := wanted[k];
              if k in peers && peers[k].config == w.(addr := peers[k].config.addr) then r[k] == peers[k]
              else r[k] == Stored(w, []))
  {}

  /** A user's session restarts, and what was announced to it is forgotten, exactly
      when its cache key or the configuration made for it changes. */
  lemma RestartsIff(was: User, now: User, addr: Addr, local: Snapshot)
    ensures Restarts(was, now, local.activeDial) <==>
              was.peerIP != now.peerIP || ConfigOf(was, addr, local) != ConfigOf(now, addr, local)
  {}

  /** The speaker dials a peer exactly when dialing is on, for the speaker and for the
      user, and the user's address is that of one router; all else stays passive. */
  lemma DialsIff(u: User, addr: Addr, local: Snapshot)
    ensures var c := ConfigOf(u, addr, local);
            (c.port == 0 <==> local.activeDial && u.activeDial && u.peerIP != "0.0.0.0" && u.peerIP != "::") &&
            (c.port != 0 ==> c.port == -1)
    ensures var c := ConfigOf(u, addr, local);
            c.addr == addr && c.asn == u.asn && c.password == u.password &&
            (addr.six && local.v6.Some? ==> Some(c.local) == local.v6) && (!addr.six ==> c.local == local.v4)
  {}

  predicate NeedsV6(u: User, parse: string -> Option<Addr>) { parse(u.peerIP).Some? && parse(u.peerIP).value.six }

  /** The whole list is refused exactly when a user has an IPv6 address and there is
      no local one. */
  lemma {:induction false} NoConfigsIff(users: seq<User>, parse: string -> Option<Addr>, local: Snapshot)
    ensures Configs(users, parse, local).None? <==> local.v6.None? && exists u :: u in users && NeedsV6(u, parse)
  {
    if users != [] {
      var front, last := users[..|users| - 1], users[|users| - 1];
      NoConfigsIff(front, parse, local);
      LastConfig(users, parse, local);
      assert forall u :: u in users <==> u in front || u == last;
    }
  }

  lemma LastConfig(users: seq<User>, parse: string -> Option<Addr>, local: Snapshot)
    requires users != []
    ensures Configs(users, parse, local).None? <==>
              Configs(users[..|users| - 1], parse, local).None? ||
              (local.v6.None? && NeedsV6(users[|users| - 1], parse))
  {}

  /** Every session configured is some user's. */
  lemma {:induction false} ConfigsOfUsers(users: seq<User>, parse: string -> Option<Addr>, local: Snapshot, k: Key)
    requires Configs(users, parse, local).Some? && k in ByKey(Configs(users, parse, local).value)
    ensures exists u :: u in users && parse(u.peerIP) == Some(k.addr) && u.asn == k.asn
  {
    var front, last := users[..|users| - 1], users[|users| - 1];
    assert users == front + [last];
    var cs := Configs(front, parse, local).value;
    if parse(last.peerIP).Some? {
      var all := cs + [ConfigOf(last, parse(last.peerIP).value, local)];
      assert all[..|all| - 1] == cs;
    }
    if k in ByKey(cs) { ConfigsOfUsers(front, parse, local, k); }
  }

  /** A start configures the users with an address that the speaker has a local
      address for, and no others. */
  lemma {:induction false} StartableIff(users: seq<User>, parse: string -> Option<Addr>, local: Snapshot, u: User)
    ensures u in Startable(users, parse, local) <==>
              u in users && parse(u.peerIP).Some? && (parse(u.peerIP).value.six ==> local.v6.Some?)
  {
    if users != [] {
      StartableIff(users[..|users| - 1], parse, local, u);
      assert users == users[..|users| - 1] + [users[|users| - 1]];
    }
  }

  /** A failed change leaves an empty entry for the user's old key, none for a new
      one, and the others as they were. */
  lemma ClearedMeans(cache: map<CacheKey, seq<Route>>, oldKey: CacheKey, newKey: CacheKey, ck: CacheKey)
    ensures var c := Cleared(cache, oldKey, newKey);
            (ck in c <==> ck == oldKey || (ck in cache && ck != newKey)) &&
            (ck in c ==> c[ck] == if ck == oldKey then [] else cache[ck])
  {}

  // ----- what a false entry does -----

  /** A peer stores a set, a change of its user fails at the listener, and then the
      set is emptied: reconciling reports success and the peer still stores it. */
  method FailedChangeStrands(m: Manager, at: nat, user: User, delivered: bool) returns (changed: bool, sent: bool)
    requires m.Valid() && m.speaker != null && at < |m.peerConfigs| && m.peerConfigs[at].id == user.id
    requires forall u :: u in m.peerConfigs && u.id != user.id ==>
             SameText(u, user, m.parse) && CacheKeyOf(u) != CacheKeyOf(user)
    requires m.parse(m.peerConfigs[at].peerIP).Some? && Configs(m.peerConfigs[at := user], m.parse, m.local).Some?
    requires m.SessionOf(m.peerConfigs[at]) in m.speaker.peers
    modifies m`peerConfigs, m`peerRoutes, m.speaker
    ensures !changed && sent && m.speaker == old(m.speaker) && m.peerConfigs == old(m.peerConfigs)
    ensures var key := m.SessionOf(m.peerConfigs[at]);
            key in m.speaker.peers && m.speaker.peers[key].routes == old(m.speaker.peers)[key].routes
  {
    changed := m.ChangePeer(at, user, false);
    assert m.HasEntry(CacheKeyOf(m.peerConfigs[at]), []);
    sent := m.ReconcileOne(at, [], delivered);
  }

  /** A user's entry, left by a start that failed on a later user, and a second
      start: it reports success and the user's peer stores nothing. */
  method LeftoverSkipsPeer(m: Manager, u: User, users: seq<User>, settings: Snapshot, listenerOk: bool,
                           build: User -> Result<seq<Route>>, delivers: User -> bool) returns (ok: bool)
    requires m.speaker == null && Separate(users, m.parse) && Separate(m.peerConfigs, m.parse)
    requires u in Startable(users, m.parse, settings) && u.enabled && m.parse(u.peerIP).Some? && build(u).Ok?
    requires m.HasEntry(CacheKeyOf(u), build(u).value)
    modifies m
    ensures ok ==> m.speaker != null && m.Stores(u, [])
  {
    ok := m.Start(users, settings, true, listenerOk, build, delivers);
    assert ok ==> m.StartedAs(u, build, old(m.peerRoutes));
  }
}
