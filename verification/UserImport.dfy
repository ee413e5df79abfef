/** Importing users under a uniqueness constraint on their peer identities.
    Users whose identity changes are first staged away to placeholder identities,
    so that the order of the real writes does not matter. */
module UserImport {
  import opened Communities
  import opened Octets
  import opened Wrappers

  datatype Identity = Identity(ip: Bytes, asn: nat)

  type Users = map<nat, Identity>

  predicate Unique(t: Users) { forall i, j :: i in t && j in t && i != j ==> t[i] != t[j] }

  /** A user of the imported snapshot; its address is text. */
  datatype SnapUser = SnapUser(name: string, ip: string, asn: nat, modeKnown: bool)

  /** What an existing user looks like in the current export. */
  datatype Shown = Shown(ip: string, asn: nat)

  predicate DistinctUsers(snap: seq<SnapUser>) {
    forall i, j :: 0 <= i < j < |snap| ==> snap[i].name != snap[j].name
  }

  /** Names lead to different rows, all older than the next one to be inserted. */
  predicate NamesOk(names: map<string, nat>, next: nat) {
    (forall n :: n in names ==> names[n] < next) &&
    forall m, n :: m in names && n in names && m != n ==> names[m] != names[n]
  }

  datatype Write = Write(id: nat, identity: Identity)

  /** The identity writes an import makes, in order; none if an address of a user
      that is to be written cannot be parsed. */
  function Writes(snap: seq<SnapUser>, names: map<string, nat>, next: nat,
                  parse: string -> Option<Bytes>): Option<seq<Write>>
    decreases |snap|
  {
    if snap == [] then Some([])
    else if !snap[0].modeKnown then Writes(snap[1..], names, next, parse)
    else
      match parse(snap[0].ip)
      case None => None
      case Some(ip) =>
        var id := if snap[0].name in names then names[snap[0].name] else next;
        Before([Write(id, Identity(ip, snap[0].asn))],
               Writes(snap[1..], names[snap[0].name := id], if snap[0].name in names then next else next + 1, parse))
  }

  function Before(front: seq<Write>, ws: Option<seq<Write>>): Option<seq<Write>> {
    if ws.None? then None else Some(front + ws.value)
  }

  lemma BeforeTwice(a: seq<Write>, b: seq<Write>, ws: Option<seq<Write>>)
    ensures Before(a, Before(b, ws)) == Before(a + b, ws) && Before([], ws) == ws
  {
    if ws.Some? { assert a + (b + ws.value) == a + b + ws.value && [] + ws.value == ws.value; }
  }

  /** The table the writes lead to. */
  function After(t: Users, ws: seq<Write>): (u: Users) {
    if ws == [] then t else After(t, ws[..|ws| - 1])[ws[|ws| - 1].id := ws[|ws| - 1].identity]
  }

  predicate DistinctIds(ws: seq<Write>) { forall i, j :: 0 <= i < j < |ws| ==> ws[i].id != ws[j].id }

  predicate Writing(ws: seq<Write>, id: nat) { exists w :: w in ws && w.id == id }

  lemma {:induction false} AfterFacts(t: Users, ws: seq<Write>)
    requires DistinctIds(ws)
    ensures forall w :: w in ws ==> w.id in After(t, ws) && After(t, ws)[w.id] == w.identity
    ensures forall i :: i in After(t, ws) <==> i in t || Writing(ws, i)
    ensures forall i :: i in t && !Writing(ws, i) ==> After(t, ws)[i] == t[i]
  {
    if ws != [] {
      var front, last := ws[..|ws| - 1], ws[|ws| - 1];
      AfterFacts(t, front);
      assert last in ws && forall w :: w in ws <==> w in front || w == last;
      forall w | w in front ensures w.id != last.id {
        var k :| 0 <= k < |front| && front[k] == w;
        assert ws[k].id != ws[|ws| - 1].id;
      }
    }
  }

  // ----- what the writes are -----

  /** A write comes from a snapshot user that is to be written. */
  predicate FromUser(w: Write, u: SnapUser, names: map<string, nat>, next: nat, parse: string -> Option<Bytes>) {
    u.modeKnown && parse(u.ip) == Some(w.identity.ip) && w.identity.asn == u.asn &&
    if u.name in names then w.id == names[u.name] else w.id >= next
  }

  lemma {:induction false} WriteFrom(snap: seq<SnapUser>, names: map<string, nat>, next: nat,
                                     parse: string -> Option<Bytes>, w: Write)
    requires NamesOk(names, next) && DistinctUsers(snap)
    requires Writes(snap, names, next, parse).Some? && w in Writes(snap, names, next, parse).value
    ensures exists u :: u in snap && FromUser(w, u, names, next, parse)
    decreases |snap|
  {
    var u := snap[0];
    if u.modeKnown {
      var id := if u.name in names then names[u.name] else next;
      var first := Write(id, Identity(parse(u.ip).value, u.asn));
      if w == first {
        assert FromUser(w, u, names, next, parse);
      } else {
        var names', next' := names[u.name := id], if u.name in names then next else next + 1;
        WriteFrom(snap[1..], names', next', parse, w);
        var v :| v in snap[1..] && FromUser(w, v, names', next', parse);
        OtherName(snap, v);
        assert FromUser(w, v, names, next, parse);
      }
    } else {
      WriteFrom(snap[1..], names, next, parse, w);
      var v :| v in snap[1..] && FromUser(w, v, names, next, parse);
    }
  }

  lemma OtherName(snap: seq<SnapUser>, v: SnapUser)
    requires DistinctUsers(snap) && snap != [] && v in snap[1..]
    ensures v.name != snap[0].name && v in snap
  {}

  lemma {:induction false} WritesDistinct(snap: seq<SnapUser>, names: map<string, nat>, next: nat,
                                          parse: string -> Option<Bytes>)
    requires NamesOk(names, next) && DistinctUsers(snap) && Writes(snap, names, next, parse).Some?
    ensures DistinctIds(Writes(snap, names, next, parse).value)
    decreases |snap|
  {
    if snap != [] && snap[0].modeKnown {
      var u, id := snap[0], if snap[0].name in names then names[snap[0].name] else next;
      var names', next' := names[u.name := id], if u.name in names then next else next + 1;
      WritesDistinct(snap[1..], names', next', parse);
      var rest := Writes(snap[1..], names', next', parse).value;
      forall w | w in rest ensures w.id != id {
        WriteFrom(snap[1..], names', next', parse, w);
        var v :| v in snap[1..] && FromUser(w, v, names', next', parse);
        OtherName(snap, v);
      }
      var ws := Writes(snap, names, next, parse).value;
      forall i, j | 0 <= i < j < |ws| ensures ws[i].id != ws[j].id {
        assert ws[j] == rest[j - 1] && rest[j - 1] in rest;
        if i > 0 { assert ws[i] == rest[i - 1]; }
      }
    } else if snap != [] {
      WritesDistinct(snap[1..], names, next, parse);
    }
  }

  lemma {:induction false} KnownUserWritten(snap: seq<SnapUser>, names: map<string, nat>, next: nat,
                                            parse: string -> Option<Bytes>, u: SnapUser)
    requires DistinctUsers(snap) && Writes(snap, names, next, parse).Some? && u in snap && u.modeKnown &&
             u.name in names
    ensures parse(u.ip).Some?
    ensures Write(names[u.name], Identity(parse(u.ip).value, u.asn)) in Writes(snap, names, next, parse).value
    decreases |snap|
  {
    if u != snap[0] {
      if snap[0].modeKnown {
        var id := if snap[0].name in names then names[snap[0].name] else next;
        var k :| 0 <= k < |snap| && snap[k] == u;
        assert snap[1..][k - 1] == u && snap[0].name != snap[k].name;
        var next' := if snap[0].name in names then next else next + 1;
        KnownUserWritten(snap[1..], names[snap[0].name := id], next', parse, u);
      } else {
        KnownUserWritten(snap[1..], names, next, parse, u);
      }
    }
  }

  /** An import has no writes exactly when a user that is to be written has an
      address that cannot be parsed. */
  lemma {:induction false} NoWritesIff(snap: seq<SnapUser>, names: map<string, nat>, next: nat,
                                       parse: string -> Option<Bytes>)
    ensures Writes(snap, names, next, parse).None? <==>
              exists u :: u in snap && u.modeKnown && parse(u.ip).None?
    decreases |snap|
  {
    if snap != [] {
      var u := snap[0];
      assert forall v :: v in snap <==> v == u || v in snap[1..];
      if u.modeKnown {
        var id := if u.name in names then names[u.name] else next;
        NoWritesIff(snap[1..], names[u.name := id], if u.name in names then next else next + 1, parse);
      } else {
        NoWritesIff(snap[1..], names, next, parse);
      }
    }
  }

  /** Every user to be written gets a write, a new one under an ID not used yet. */
  lemma {:induction false} EveryUserWritten(snap: seq<SnapUser>, names: map<string, nat>, next: nat,
                                            parse: string -> Option<Bytes>, u: SnapUser)
    requires DistinctUsers(snap) && Writes(snap, names, next, parse).Some? && u in snap && u.modeKnown
    ensures exists w :: w in Writes(snap, names, next, parse).value && FromUser(w, u, names, next, parse)
    decreases |snap|
  {
    var first := snap[0];
    if u == first {
      var w := Write(if u.name in names then names[u.name] else next, Identity(parse(u.ip).value, u.asn));
      assert w in Writes(snap, names, next, parse).value && FromUser(w, u, names, next, parse);
    } else {
      assert u in snap[1..];
      OtherName(snap, u);
      var id := if first.name in names then names[first.name] else next;
      var names' := if first.modeKnown then names[first.name := id] else names;
      var next' := if first.modeKnown && first.name !in names then next + 1 else next;
      EveryUserWritten(snap[1..], names', next', parse, u);
      var w :| w in Writes(snap[1..], names', next', parse).value && FromUser(w, u, names', next', parse);
      assert FromUser(w, u, names, next, parse);
    }
  }

  // ----- half-way through -----

  /** ASNs that real users have, or are about to have, at the placeholder address. */
  function Reserved(t: Users, snap: seq<SnapUser>, parse: string -> Option<Bytes>, staging: Bytes): set<nat> {
    (set i | i in t && t[i].ip == staging :: t[i].asn) + (set u | u in snap && parse(u.ip) == Some(staging) :: u.asn)
  }

  predicate Staged(x: Identity, staging: Bytes, reserved: set<nat>) { x.ip == staging && x.asn !in reserved }

  /** After k writes every row is final, or staged with its own write still to come. */
  ghost predicate Midway(t: Users, final: Users, ws: seq<Write>, k: nat, staging: Bytes, reserved: set<nat>)
    requires k <= |ws|
  {
    (forall i :: i in t ==>
      i in final && (t[i] == final[i] || (Staged(t[i], staging, reserved) && Writing(ws[k..], i)))) &&
    forall i :: i in final ==> i in t || Writing(ws[k..], i)
  }

  predicate Holds(t: Users, id: nat, x: Identity) { exists i :: i in t && i != id && t[i] == x }

  /** No final identity is a placeholder. */
  ghost predicate PlaceholdersFree(final: Users, staging: Bytes, reserved: set<nat>) {
    forall i :: i in final ==> !Staged(final[i], staging, reserved)
  }

  /** One more write: it can only be refused if the final assignment has a duplicate. */
  lemma MidwayStep(t: Users, final: Users, ws: seq<Write>, k: nat, staging: Bytes, reserved: set<nat>)
    requires k < |ws| && DistinctIds(ws) && Midway(t, final, ws, k, staging, reserved) &&
             PlaceholdersFree(final, staging, reserved)
    requires forall w :: w in ws ==> w.id in final && final[w.id] == w.identity
    ensures Midway(t[ws[k].id := ws[k].identity], final, ws, k + 1, staging, reserved)
    ensures Holds(t, ws[k].id, ws[k].identity) ==> !Unique(final)
  {}

  lemma MidwayEnd(t: Users, final: Users, ws: seq<Write>, staging: Bytes, reserved: set<nat>)
    requires Midway(t, final, ws, |ws|, staging, reserved)
    ensures t == final
  {}

  predicate Known(u: SnapUser, names: map<string, nat>) { u.modeKnown && u.name in names }

  /** Users whose shown identity differs from the imported one. */
  predicate Changes(u: SnapUser, names: map<string, nat>, shown: map<string, Shown>) {
    Known(u, names) && (u.name !in shown || shown[u.name] != Shown(u.ip, u.asn))
  }

  /** What staging leaves: exactly the changing users at placeholders. */
  ghost predicate StagedAway(was: Users, now: Users, snap: seq<SnapUser>, names: map<string, nat>,
                             shown: map<string, Shown>,
                             staging: Bytes, reserved: set<nat>) {
    was.Keys == now.Keys && forall i :: i in was ==>
      if Moving(snap, names, shown, i) then Staged(now[i], staging, reserved) else now[i] == was[i]
  }

  predicate Moving(snap: seq<SnapUser>, names: map<string, nat>, shown: map<string, Shown>, id: nat) {
    exists u :: u in snap && Changes(u, names, shown) && names[u.name] == id
  }

  /** The export shows each existing user as the table has it. */
  predicate ShownTrue(t: Users, names: map<string, nat>, shown: map<string, Shown>, parse: string -> Option<Bytes>) {
    forall n :: n in names ==>
      names[n] in t && n in shown && parse(shown[n].ip) == Some(t[names[n]].ip) && shown[n].asn == t[names[n]].asn
  }

  lemma MidwayStart(was: Users, now: Users, snap: seq<SnapUser>, names: map<string, nat>, next: nat,
                    shown: map<string, Shown>,
                    parse: string -> Option<Bytes>, staging: Bytes)
    requires NamesOk(names, next) && DistinctUsers(snap) && ShownTrue(was, names, shown, parse) &&
             forall i :: i in was ==> i < next
    requires Writes(snap, names, next, parse).Some?
    requires StagedAway(was, now, snap, names, shown, staging, Reserved(was, snap, parse, staging))
    ensures var ws, reserved := Writes(snap, names, next, parse).value, Reserved(was, snap, parse, staging);
            var final := After(was, ws);
            DistinctIds(ws) && Midway(now, final, ws, 0, staging, reserved) &&
              PlaceholdersFree(final, staging, reserved) &&
            forall w :: w in ws ==> w.id in final && final[w.id] == w.identity
  {
    var ws, reserved := Writes(snap, names, next, parse).value, Reserved(was, snap, parse, staging);
    WritesDistinct(snap, names, next, parse);
    AfterFacts(was, ws);
    assert ws[0..] == ws;
    forall i | i in now ensures now[i] == After(was, ws)[i] || (Staged(now[i], staging, reserved) && Writing(ws, i)) {
      StartOf(was, now, snap, names, next, shown, parse, staging, i);
    }
    FinalNotStaged(was, snap, names, next, parse, staging);
  }

  lemma StartOf(was: Users, now: Users, snap: seq<SnapUser>, names: map<string, nat>, next: nat,
                shown: map<string, Shown>,
                parse: string -> Option<Bytes>, staging: Bytes, i: nat)
    requires NamesOk(names, next) && DistinctUsers(snap) && ShownTrue(was, names, shown, parse) && i in was && i < next
    requires Writes(snap, names, next, parse).Some? && DistinctIds(Writes(snap, names, next, parse).value)
    requires StagedAway(was, now, snap, names, shown, staging, Reserved(was, snap, parse, staging))
    ensures var ws := Writes(snap, names, next, parse).value;
            i in After(was, ws) && (now[i] == After(was, ws)[i] ||
              (Staged(now[i], staging, Reserved(was, snap, parse, staging)) && Writing(ws, i)))
  {
    var ws := Writes(snap, names, next, parse).value;
    AfterFacts(was, ws);
    if Moving(snap, names, shown, i) {
      var u :| u in snap && Changes(u, names, shown) && names[u.name] == i;
      KnownUserWritten(snap, names, next, parse, u);
    } else if Writing(ws, i) {
      var w :| w in ws && w.id == i;
      WriteFrom(snap, names, next, parse, w);
      var u :| u in snap && FromUser(w, u, names, next, parse);
      assert Known(u, names) && !Changes(u, names, shown);
    }
  }

  lemma FinalNotStaged(was: Users, snap: seq<SnapUser>, names: map<string, nat>, next: nat,
                       parse: string -> Option<Bytes>, staging: Bytes)
    requires NamesOk(names, next) && DistinctUsers(snap) && Writes(snap, names, next, parse).Some?
    requires DistinctIds(Writes(snap, names, next, parse).value)
    ensures PlaceholdersFree(After(was, Writes(snap, names, next, parse).value), staging,
            Reserved(was, snap, parse, staging))
  {
    var ws, reserved := Writes(snap, names, next, parse).value, Reserved(was, snap, parse, staging);
    AfterFacts(was, ws);
    forall i | i in After(was, ws) ensures !Staged(After(was, ws)[i], staging, reserved) {
      if Writing(ws, i) {
        var w :| w in ws && w.id == i;
        WriteFrom(snap, names, next, parse, w);
        var u :| u in snap && FromUser(w, u, names, next, parse);
        assert parse(u.ip) == Some(staging) ==> u.asn in reserved;
      } else {
        assert was[i].ip == staging ==> was[i].asn in reserved;
      }
    }
  }

  // ----- the table -----

  const FIRST_PLACEHOLDER_ASN := 4200000000

  class UserTable {
    var users: Users
    var names: map<string, nat>
    var next: nat

    ghost predicate Valid()
      reads this
    {
      Unique(users) && NamesOk(names, next) && (forall n :: n in names ==> names[n] in users) &&
        forall i :: i in users ==> i < next
    }

    constructor ()
      ensures Valid() && users == map[] && names == map[]
    {
      users, names, next := map[], map[], 0;
    }

    /** Inserts or updates a row's identity under the uniqueness constraint. */
    method Put(id: nat, x: Identity) returns (ok: bool)
      requires Unique(users)
      modifies this`users
      ensures ok == !Holds(old(users), id, x) && Unique(users)
      ensures users == if ok then old(users)[id := x] else old(users)
    {
      if exists i :: i in users && i != id && users[i] == x {
        return false;
      }
      users := users[id := x];
      ok := true;
    }

    /** Moves every changing user to a placeholder. No such write is ever refused. */
    method Stage(snap: seq<SnapUser>, shown: map<string, Shown>, parse: string -> Option<Bytes>, staging: Bytes)
      requires Unique(users) && NamesOk(names, next) && DistinctUsers(snap) &&
               forall n :: n in names ==> names[n] in users
      modifies this`users
      ensures Unique(users) && StagedAway(old(users), users, snap, names, shown, staging,
              Reserved(old(users), snap, parse, staging))
    {
      var taken := Reserved(users, snap, parse, staging);
      ghost var reserved := taken;
      for j := 0 to |snap|
        invariant Unique(users) && reserved <= taken
        invariant forall i :: i in users && users[i].ip == staging ==> users[i].asn in taken
        invariant StagedAway(old(users), users, snap[..j], names, shown, staging, reserved)
      {
        var u := snap[j];
        ghost var before := users;
        if Changes(u, names, shown) {
          var id := names[u.name];
          var asn := FindFirstFree(FIRST_PLACEHOLDER_ASN + id, taken);
          taken := taken + {asn};
          var ok := Put(id, Identity(staging, asn));
          assert ok;
        }
        StagedAwayNext(old(users), before, users, snap, j, names, shown, staging, reserved);
      }
      assert snap[..|snap|] == snap;
    }

    /** The import: staging, then the real writes in snapshot order. It is accepted
        if and only if every address parses and the final assignment is unique. */
    method Import(snap: seq<SnapUser>, shown: map<string, Shown>, parse: string -> Option<Bytes>, staging: Bytes)
      returns (ok: bool)
      requires Valid() && DistinctUsers(snap) && ShownTrue(users, names, shown, parse)
      modifies this
      ensures Valid()
      ensures var ws := Writes(snap, old(names), old(next), parse);
              ok == (ws.Some? && Unique(After(old(users), ws.value))) &&
              users == (if ok then After(old(users), ws.value) else old(users))
    {
      ghost var ws := Writes(snap, names, next, parse);
      ghost var final := if ws.Some? then After(users, ws.value) else map[];
      ghost var reserved := Reserved(users, snap, parse, staging);
      var users0, names0, next0 := users, names, next;
      Stage(snap, shown, parse, staging);
      if ws.Some? { MidwayStart(users0, users, snap, names, next, shown, parse, staging); }
      ok := WriteAll(snap, parse, ws, final, staging, reserved);
      if !ok {
        users, names, next := users0, names0, next0;
      }
    }

    /** The real writes. A refused one shows a duplicate in the final assignment. */
    method WriteAll(snap: seq<SnapUser>, parse: string -> Option<Bytes>, ghost ws: Option<seq<Write>>,
                    ghost final: Users,
                    ghost staging: Bytes, ghost reserved: set<nat>) returns (ok: bool)
      requires Valid() && ws == Writes(snap, names, next, parse)
      requires ws.Some? ==> Ready(users, final, ws.value, 0, staging, reserved)
      modifies this
      ensures ok ==> Valid() && ws.Some? && users == final
      ensures !ok ==> ws.None? || !Unique(final)
    {
      ghost var done := [];
      BeforeTwice([], [], ws);
      for j := 0 to |snap|
        invariant Valid() && Before(done, Writes(snap[j..], names, next, parse)) == ws
        invariant ws.Some? ==> |done| <= |ws.value| && Ready(users, final, ws.value, |done|, staging, reserved)
      {
        assert snap[j..][0] == snap[j] && snap[j..][1..] == snap[j + 1..];
        if snap[j].modeKnown {
          var ip := parse(snap[j].ip);
          if ip.None? {
            return false;
          }
          ghost var write;
          ok, write := WriteUser(snap[j], ip.value, parse, snap[j..], ws, final, done, staging, reserved);
          if !ok {
            return;
          }
          done := done + [write];
        }
      }
      assert snap[|snap|..] == [] && done + [] == done;
      MidwayEnd(users, final, ws.value, staging, reserved);
      ok := true;
    }

    /** One of the real writes. */
    method WriteUser(u: SnapUser, ip: Bytes, parse: string -> Option<Bytes>, ghost left: seq<SnapUser>,
                     ghost ws: Option<seq<Write>>,
                     ghost final: Users, ghost done: seq<Write>, ghost staging: Bytes, ghost reserved: set<nat>)
      returns (ok: bool, ghost write: Write)
      requires Valid() && left != [] && left[0] == u && u.modeKnown && parse(u.ip) == Some(ip)
      requires Before(done, Writes(left, names, next, parse)) == ws
      requires ws.Some? ==> |done| <= |ws.value| && Ready(users, final, ws.value, |done|, staging, reserved)
      modifies this
      ensures Valid()
      ensures ok ==> Before(done + [write], Writes(left[1..], names, next, parse)) == ws
      ensures ok && ws.Some? ==> |done| < |ws.value| && Ready(users, final, ws.value, |done| + 1, staging, reserved)
      ensures !ok ==> ws.None? || !Unique(final)
    {
      ghost var id := if u.name in names then names[u.name] else next;
      write := Write(id, Identity(ip, u.asn));
      ghost var rest := Writes(left[1..], names[u.name := id], if u.name in names then next else next + 1, parse);
      BeforeTwice(done, [write], rest);
      if ws.Some? { ReadyStep(users, final, ws.value, |done|, staging, reserved, write, done, rest); }
      ok := PutUser(u.name, Identity(ip, u.asn));
    }

    /** Updates the named user, or inserts a new one. */
    method PutUser(name: string, x: Identity) returns (ok: bool)
      requires Valid()
      modifies this
      ensures Valid()
      ensures var id := if name in old(names) then old(names)[name] else old(next);
              ok == !Holds(old(users), id, x) &&
              (ok ==> users == old(users)[id := x] && names == old(names)[name := id]) &&
              (ok ==> next == if name in old(names) then old(next) else old(next) + 1)
    {
      var existed := name in names;
      var id := if existed then names[name] else next;
      ok := Put(id, x);
      if ok {
        names := names[name := id];
        if !existed {
          next := next + 1;
        }
      }
    }
  }

  ghost predicate Ready(t: Users, final: Users, ws: seq<Write>, k: nat, staging: Bytes, reserved: set<nat>)
    requires k <= |ws|
  {
    DistinctIds(ws) && Midway(t, final, ws, k, staging, reserved) && PlaceholdersFree(final, staging, reserved) &&
    forall w :: w in ws ==> w.id in final && final[w.id] == w.identity
  }

  lemma ReadyStep(t: Users, final: Users, ws: seq<Write>, k: nat, staging: Bytes, reserved: set<nat>,
                  write: Write, done: seq<Write>, rest: Option<seq<Write>>)
    requires k == |done| && Before(done + [write], rest) == Some(ws)
    requires k <= |ws| && Ready(t, final, ws, k, staging, reserved)
    ensures k < |ws| && Ready(t[write.id := write.identity], final, ws, k + 1, staging, reserved)
    ensures Holds(t, write.id, write.identity) ==> !Unique(final)
  {
    assert (done + [write] + rest.value)[k] == write;
    MidwayStep(t, final, ws, k, staging, reserved);
  }

  lemma StagedAwayNext(was: Users, before: Users, now: Users, snap: seq<SnapUser>, j: nat, names: map<string, nat>,
                       shown: map<string, Shown>, staging: Bytes, reserved: set<nat>)
    requires j < |snap| && StagedAway(was, before, snap[..j], names, shown, staging, reserved)
    requires if Changes(snap[j], names, shown) then
               var id := names[snap[j].name];
               id in was && id in now && now == before[id := now[id]] && Staged(now[id], staging, reserved)
             else now == before
    ensures StagedAway(was, now, snap[..j + 1], names, shown, staging, reserved)
  {}

}
