/** The writes on a mode's community table. Whatever they are and in whatever
    order they come, no two pairs of the mode share a number. */
module CommunityStore {
  import opened Communities
  import opened Wrappers

  datatype Update = Update(pair: Pair, community: nat)

  /** Another pair holds the number. */
  predicate Taken(t: Table, p: Pair, n: nat) { exists q :: q in t && q != p && t[q] == n }

  function Cleared(t: Table, updates: seq<Update>): (u: Table) {
    if updates == [] then t else Cleared(t, updates[..|updates| - 1]) - {updates[|updates| - 1].pair}
  }

  function Laid(t: Table, updates: seq<Update>): (u: Table) {
    if updates == [] then t
    else Laid(t, updates[..|updates| - 1])[updates[|updates| - 1].pair := updates[|updates| - 1].community]
  }

  /** The numbering an imported list asks for, laid over what it does not mention. */
  function Merged(t: Table, updates: seq<Update>): (u: Table) { Laid(Cleared(t, updates), updates) }

  predicate DistinctPairs(updates: seq<Update>) {
    forall i, j :: 0 <= i < j < |updates| ==> updates[i].pair != updates[j].pair
  }

  lemma {:induction false} ClearedFacts(t: Table, updates: seq<Update>)
    ensures forall p :: p in Cleared(t, updates) <==> p in t && !Mentions(updates, p)
    ensures forall p :: p in Cleared(t, updates) ==> Cleared(t, updates)[p] == t[p]
  {
    if updates != [] {
      var front, last := updates[..|updates| - 1], updates[|updates| - 1];
      ClearedFacts(t, front);
      assert last in updates;
      assert forall u :: u in updates <==> u in front || u == last;
      forall p ensures Mentions(updates, p) <==> Mentions(front, p) || p == last.pair {}
    }
  }

  predicate Mentions(updates: seq<Update>, p: Pair) { exists u :: u in updates && u.pair == p }

  lemma {:induction false} LaidPairs(t: Table, updates: seq<Update>)
    ensures forall p :: p in Laid(t, updates) <==> p in t || Mentions(updates, p)
  {
    if updates != [] {
      var front, last := updates[..|updates| - 1], updates[|updates| - 1];
      LaidPairs(t, front);
      assert last in updates && forall u :: u in updates <==> u in front || u == last;
    }
  }

  /** Assigning to pairs not yet in the table, an earlier prefix is never undone. */
  lemma {:induction false} LaidKeeps(t: Table, updates: seq<Update>, i: nat)
    requires i <= |updates| && DistinctPairs(updates) && forall u :: u in updates ==> u.pair !in t
    ensures Keeps(Laid(t, updates[..i]), Laid(t, updates))
    decreases |updates|
  {
    if i == |updates| {
      assert updates[..i] == updates;
    } else {
      var front, last := updates[..|updates| - 1], updates[|updates| - 1];
      assert last in updates && forall u :: u in front ==> u in updates;
      LaidKeeps(t, front, i);
      assert updates[..i] == front[..i];
      LaidPairs(t, front);
      assert !Mentions(front, last.pair) by {
        forall u | u in front ensures u.pair != last.pair {
          var k :| 0 <= k < |front| && front[k] == u;
          assert updates[k].pair != updates[|updates| - 1].pair;
        }
      }
    }
  }

  /** A batch applied in order; none if one of its numbers is taken at its turn. */
  function Updated(t: Table, updates: seq<Update>): (u: Option<Table>) {
    if updates == [] then Some(t)
    else
      var last := updates[|updates| - 1];
      match Updated(t, updates[..|updates| - 1])
      case None => None
      case Some(v) =>
        if last.community == 0 then Some(v - {last.pair})
        else if Taken(v, last.pair, last.community) then None
        else Some(v[last.pair := last.community])
  }

  lemma {:induction false} NotUpdated(t: Table, updates: seq<Update>, i: nat)
    requires i <= |updates| && Updated(t, updates[..i]).None?
    ensures Updated(t, updates).None?
    decreases |updates|
  {
    if i < |updates| {
      assert updates[..|updates| - 1][..i] == updates[..i];
      NotUpdated(t, updates[..|updates| - 1], i);
    } else {
      assert updates[..i] == updates;
    }
  }

  predicate LastFor(updates: seq<Update>, p: Pair, i: int) {
    0 <= i < |updates| && updates[i].pair == p && forall j :: i < j < |updates| ==> updates[j].pair != p
  }

  /** In an accepted batch the last number given to a pair counts, zero leaving it
      without one; a pair not named keeps what it had. */
  lemma {:induction false} LastUpdateCounts(t: Table, updates: seq<Update>, p: Pair, i: int)
    requires Updated(t, updates).Some?
    ensures LastFor(updates, p, i) ==>
              var u, n := Updated(t, updates).value, updates[i].community;
              (p in u <==> n != 0) && (p in u ==> u[p] == n)
    ensures !Mentions(updates, p) ==>
              var u := Updated(t, updates).value;
              (p in u <==> p in t) && (p in u ==> u[p] == t[p])
  {
    if updates != [] {
      var front, last := updates[..|updates| - 1], updates[|updates| - 1];
      LastUpdateCounts(t, front, p, i);
      assert last in updates && forall u :: u in front ==> u in updates;
    }
  }

  /** At its turn the number belongs to another pair. */
  predicate RefusedAt(t: Table, updates: seq<Update>, i: int) {
    0 <= i < |updates| && updates[i].community != 0 &&
    var sofar := Updated(t, updates[..i]);
    sofar.Some? && exists q :: q in sofar.value && q != updates[i].pair && sofar.value[q] == updates[i].community
  }

  lemma LastRefused(t: Table, updates: seq<Update>)
    requires updates != []
    ensures var n := |updates| - 1;
            Updated(t, updates).None? <==> Updated(t, updates[..n]).None? || RefusedAt(t, updates, n)
  {}

  /** A batch is refused exactly when some number of it is refused at its turn. */
  lemma {:induction false} RefusedIff(t: Table, updates: seq<Update>)
    ensures Updated(t, updates).None? <==> exists i :: RefusedAt(t, updates, i)
  {
    if updates != [] {
      var n := |updates| - 1;
      RefusedIff(t, updates[..n]);
      LastRefused(t, updates);
      forall i ensures RefusedAt(t, updates[..n], i) <==> i != n && RefusedAt(t, updates, i) {
        RefusedEarlier(t, updates, i);
      }
    }
  }

  lemma RefusedEarlier(t: Table, updates: seq<Update>, i: int)
    requires updates != []
    ensures RefusedAt(t, updates[..|updates| - 1], i) <==> i != |updates| - 1 && RefusedAt(t, updates, i)
  {
    if 0 <= i < |updates| - 1 { assert updates[..|updates| - 1][..i] == updates[..i]; }
  }

  /** A mode's numbers before and after a reset. */
  datatype Preview = Preview(before: Table, after: Table)

  class CommunityTable {
    var table: Table

    ghost predicate Valid()
      reads this
    {
      Distinct(table)
    }

    constructor ()
      ensures Valid() && table == map[]
    {
      table := map[];
    }

    /** Sets one number, unless another pair of the mode has it. */
    method Set(p: Pair, n: nat) returns (ok: bool)
      requires Valid()
      modifies this
      ensures Valid() && ok == !Taken(old(table), p, n)
      ensures table == if ok then old(table)[p := n] else old(table)
    {
      if exists q :: q in table && q != p && table[q] == n {
        return false;
      }
      table := table[p := n];
      ok := true;
    }

    method Delete(p: Pair)
      requires Valid()
      modifies this
      ensures Valid() && table == old(table) - {p}
    {
      table := table - {p};
    }

    /** Fills in every missing number. */
    method Generate(groups: seq<Group>) returns (generated: int)
      requires Valid()
      modifies this
      ensures Valid() && table == Generated(old(table), groups) && generated == |table| - |old(table)|
      ensures forall g :: g in groups ==> Assigned(table, g)
    {
      generated := 0;
      for i := 0 to |groups|
        invariant table == Generated(old(table), groups[..i]) && generated == |table| - |old(table)|
      {
        assert groups[..i + 1][..i] == groups[..i];
        var added := GenerateGroup(groups[i], i);
        generated := generated + added;
      }
      assert groups[..|groups|] == groups;
      GenerationKeeps(old(table), groups);
    }

    method GenerateGroup(g: Group, index: nat) returns (generated: int)
      modifies this
      ensures table == WithGroup(old(table), g, index) && generated == |table| - |old(table)|
    {
      generated := 0;
      var own := Pair(g.category, "");
      if own !in table {
        var groupCommunity := FindFirstFree((index + 1) * 10000, table.Values);
        table := table[own := groupCommunity];
        generated := 1;
      }
      var added := GenerateServices(table[own], g.category, g.services);
      generated := generated + added;
    }

    method GenerateServices(base: nat, category: string, services: seq<string>) returns (generated: int)
      modifies this
      ensures table == WithServices(old(table), base, category, services) && generated == |table| - |old(table)|
    {
      generated := 0;
      for k := 0 to |services|
        invariant table == WithServices(old(table), base, category, services[..k])
        invariant generated == |table| - |old(table)|
      {
        assert services[..k + 1][..k] == services[..k];
        var p := Pair(category, services[k]);
        if p !in table {
          var community := FindFirstFree(base + 1, table.Values);
          table := table[p := community];
          generated := generated + 1;
        }
      }
      assert services[..|services|] == services;
    }

    /** What a reset would do, found by doing it and rolling it back. */
    method PreviewReset(groups: seq<Group>) returns (preview: Preview)
      requires Valid()
      modifies this
      ensures table == old(table) && preview == Preview(table, Generated(map[], groups))
    {
      var before := table;
      table := map[];
      var generated := Generate(groups);
      preview := Preview(before, table);
      table := before;
    }

    /** Renumbers from scratch, unless the table or what a reset makes of it has
        changed since the operator's preview. */
    method Reset(groups: seq<Group>, previewed: Preview) returns (ok: bool)
      requires Valid()
      modifies this
      ensures Valid() && ok == (Preview(old(table), Generated(map[], groups)) == previewed)
      ensures table == if ok then previewed.after else old(table)
    {
      var before := table;
      table := map[];
      var generated := Generate(groups);
      ok := Preview(before, table) == previewed;
      if !ok {
        table := before;
      }
    }

    /** A batch of manual numbers, zero clearing one, then the missing ones; one
        conflict undoes it all. */
    method SetAll(updates: seq<Update>, groups: seq<Group>) returns (ok: bool)
      requires Valid()
      modifies this
      ensures Valid() && ok == Updated(old(table), updates).Some?
      ensures table == if ok then Generated(Updated(old(table), updates).value, groups) else old(table)
    {
      var before := table;
      for i := 0 to |updates|
        invariant Valid() && Updated(before, updates[..i]) == Some(table)
      {
        assert updates[..i + 1][..i] == updates[..i];
        if updates[i].community == 0 {
          Delete(updates[i].pair);
        } else {
          ok := Set(updates[i].pair, updates[i].community);
          if !ok {
            NotUpdated(before, updates, i + 1);
            table := before;
            return;
          }
        }
      }
      assert updates[..|updates|] == updates;
      var generated := Generate(groups);
      ok := true;
    }

    /** Imports a list: clears every pair it names, then sets them one by one. It
        is accepted if and only if no number is taken at its turn. */
    method Import(updates: seq<Update>) returns (ok: bool)
      requires Valid()
      modifies this
      ensures Valid() && ok == Settable(Cleared(old(table), updates), updates)
      ensures table == if ok then Merged(old(table), updates) else old(table)
    {
      var before := table;
      for i := 0 to |updates|
        invariant Valid() && table == Cleared(before, updates[..i])
      {
        assert updates[..i + 1][..i] == updates[..i];
        Delete(updates[i].pair);
      }
      assert updates[..|updates|] == updates;
      ghost var cleared := table;
      for i := 0 to |updates|
        invariant Valid() && table == Laid(cleared, updates[..i])
        invariant forall j :: 0 <= j < i ==> SettableAt(cleared, updates, j)
      {
        assert updates[..i + 1][..i] == updates[..i];
        ok := Set(updates[i].pair, updates[i].community);
        if !ok {
          assert !SettableAt(cleared, updates, i);
          table := before;
          return;
        }
      }
      ok := true;
    }
  }

  // ----- what an import accepts -----

  /** At its turn the number is free for the pair. */
  predicate SettableAt(cleared: Table, updates: seq<Update>, i: nat)
    requires i < |updates|
  {
    !Taken(Laid(cleared, updates[..i]), updates[i].pair, updates[i].community)
  }

  predicate Settable(cleared: Table, updates: seq<Update>) {
    forall i :: 0 <= i < |updates| ==> SettableAt(cleared, updates, i)
  }

  /** Setting free numbers one by one keeps them distinct. */
  lemma {:induction false} SettableIsDistinct(cleared: Table, updates: seq<Update>, n: nat)
    requires n <= |updates| && Distinct(cleared) && Settable(cleared, updates)
    ensures Distinct(Laid(cleared, updates[..n]))
  {
    if n > 0 {
      SettableIsDistinct(cleared, updates, n - 1);
      assert updates[..n][..n - 1] == updates[..n - 1] && SettableAt(cleared, updates, n - 1);
    }
  }

  /** What a list lays over a table is what it lays over nothing. */
  lemma {:induction false} LaidOver(t: Table, updates: seq<Update>, p: Pair)
    ensures p in Laid(t, updates) <==> p in t || p in Laid(map[], updates)
    ensures p in Laid(map[], updates) <==> Mentions(updates, p)
    ensures p in Laid(t, updates) ==>
            Laid(t, updates)[p] == if p in Laid(map[], updates) then Laid(map[], updates)[p] else t[p]
  {
    if updates != [] {
      var front, last := updates[..|updates| - 1], updates[|updates| - 1];
      LaidOver(t, front, p);
      assert last in updates && forall u :: u in updates <==> u in front || u == last;
    }
  }

  /** Every number of the list is one of those it ends with. */
  predicate AllFinal(updates: seq<Update>) {
    forall i :: 0 <= i < |updates| ==> updates[i].community in Laid(map[], updates).Values
  }

  /** The list on its own is accepted, and no number in it is superseded. */
  predicate Clean(updates: seq<Update>) { Settable(map[], updates) && AllFinal(updates) }

  /** The merged numbering tells whether a list is accepted. */
  ghost predicate MergeTells(t: Table, updates: seq<Update>) {
    Settable(Cleared(t, updates), updates) <==> Distinct(Merged(t, updates))
  }

  /** It tells so on every table if and only if the list is clean, or contradicts
      itself so that nothing could make it acceptable. */
  lemma MergeTellsIff(updates: seq<Update>)
    ensures (forall t: Table :: Distinct(t) ==> MergeTells(t, updates)) <==>
            Clean(updates) || !Distinct(Laid(map[], updates))
  {
    if Clean(updates) || !Distinct(Laid(map[], updates)) {
      forall t: Table | Distinct(t) ensures MergeTells(t, updates) { TellsOn(t, updates); }
    }
    if (forall t: Table :: Distinct(t) ==> MergeTells(t, updates)) && Distinct(Laid(map[], updates)) {
      ClearedNothing(updates);
      assert Distinct(map[]) && MergeTells(map[], updates);
      forall i | 0 <= i < |updates| ensures updates[i].community in Laid(map[], updates).Values {
        if updates[i].community !in Laid(map[], updates).Values { SupersededIsRefused(updates, i); }
      }
    }
  }

  lemma {:induction false} ClearedNothing(updates: seq<Update>)
    ensures Cleared(map[], updates) == map[]
  {
    if updates != [] { ClearedNothing(updates[..|updates| - 1]); }
  }

  lemma ClearedDistinct(t: Table, updates: seq<Update>)
    requires Distinct(t)
    ensures Distinct(Cleared(t, updates))
  {
    ClearedFacts(t, updates);
  }

  lemma TellsOn(t: Table, updates: seq<Update>)
    requires Distinct(t) && (Clean(updates) || !Distinct(Laid(map[], updates)))
    ensures MergeTells(t, updates)
  {
    var cleared := Cleared(t, updates);
    ClearedDistinct(t, updates);
    assert updates[..|updates|] == updates;
    if Settable(cleared, updates) {
      SettableIsDistinct(cleared, updates, |updates|);
    } else if Distinct(Merged(t, updates)) {
      PartDistinct(cleared, updates);
      var i :| 0 <= i < |updates| && !SettableAt(cleared, updates, i);
      FreeAtTurn(t, updates, i);
    }
  }

  lemma PartDistinct(cleared: Table, updates: seq<Update>)
    requires Distinct(Laid(cleared, updates))
    ensures Distinct(Laid(map[], updates))
  {
    forall p ensures p in Laid(map[], updates) ==>
               p in Laid(cleared, updates) && Laid(cleared, updates)[p] == Laid(map[], updates)[p] {
      LaidOver(cleared, updates, p);
    }
  }

  /** In a clean list merged without duplicates every number is free at its turn. */
  lemma FreeAtTurn(t: Table, updates: seq<Update>, i: nat)
    requires i < |updates| && Clean(updates) && Distinct(Merged(t, updates))
    ensures SettableAt(Cleared(t, updates), updates, i)
  {
    var cleared, u := Cleared(t, updates), updates[i];
    if Taken(Laid(cleared, updates[..i]), u.pair, u.community) {
      var q :| q in Laid(cleared, updates[..i]) && q != u.pair && Laid(cleared, updates[..i])[q] == u.community;
      LaidOver(cleared, updates[..i], q);
      assert q !in Laid(map[], updates[..i]) by { assert SettableAt(map[], updates, i); }
      ClearedFacts(t, updates);
      FinalHolder(cleared, updates, i, q);
    }
  }

  /** A pair the list does not mention cannot share a number with a final one. */
  lemma FinalHolder(cleared: Table, updates: seq<Update>, i: nat, q: Pair)
    requires i < |updates| && AllFinal(updates) && Distinct(Laid(cleared, updates))
    requires q in cleared && !Mentions(updates, q)
    ensures cleared[q] != updates[i].community
  {
    var n := updates[i].community;
    assert n in Laid(map[], updates).Values;
    var b :| b in Laid(map[], updates) && Laid(map[], updates)[b] == n;
    LaidOver(cleared, updates, b);
    LaidOver(cleared, updates, q);
  }

  /** A number that does not stay is refused where an unmentioned pair has it,
      although the merged numbering has no duplicate. */
  lemma SupersededIsRefused(updates: seq<Update>, i: nat)
    requires i < |updates| && updates[i].community !in Laid(map[], updates).Values && Distinct(Laid(map[], updates))
    ensures exists t: Table :: Distinct(t) && !MergeTells(t, updates)
  {
    var c := Pair(Longest(updates) + "+", "");
    var t: Table := map[c := updates[i].community];
    LongestBounds(updates);
    ClearedFacts(t, updates);
    assert !Mentions(updates, c);
    assert Cleared(t, updates) == t;
    forall p ensures p in Merged(t, updates) <==> p == c || p in Laid(map[], updates) { LaidOver(t, updates, p); }
    forall p | p in Merged(t, updates)
      ensures Merged(t, updates)[p] == if p in Laid(map[], updates) then Laid(map[], updates)[p] else t[p]
    {
      LaidOver(t, updates, p);
    }
    LaidOver(map[], updates, c);
    assert Distinct(Merged(t, updates));
    LaidOver(t, updates[..i], c);
    LaidOver(map[], updates[..i], c);
    assert !Mentions(updates[..i], c);
    assert updates[i] in updates && updates[i].pair != c;
    assert !SettableAt(t, updates, i);
    assert Distinct(t) && !MergeTells(t, updates);
  }

  /** The longest category name of a list. */
  function Longest(updates: seq<Update>): (s: string) {
    if updates == [] then ""
    else
      var front, last := Longest(updates[..|updates| - 1]), updates[|updates| - 1].pair.category;
      if |last| > |front| then last else front
  }

  lemma {:induction false} LongestBounds(updates: seq<Update>)
    ensures forall u :: u in updates ==> |u.pair.category| <= |Longest(updates)|
  {
    if updates != [] {
      LongestBounds(updates[..|updates| - 1]);
      assert forall u :: u in updates ==> u in updates[..|updates| - 1] || u == updates[|updates| - 1];
    }
  }

  /** A list that names every pair once is clean unless it contradicts itself: it
      is accepted if and only if the merged numbering has no duplicate. */
  lemma DistinctPairsTell(t: Table, updates: seq<Update>)
    requires Distinct(t) && DistinctPairs(updates)
    ensures MergeTells(t, updates)
  {
    if Distinct(Laid(map[], updates)) {
      forall i | 0 <= i < |updates|
        ensures SettableAt(map[], updates, i) && updates[i].community in Laid(map[], updates).Values
      {
        Conflict(map[], updates, i);
        LaidKeeps(map[], updates, i + 1);
        assert updates[..i + 1][..i] == updates[..i] && updates[i].pair in Laid(map[], updates[..i + 1]);
        assert Laid(map[], updates)[updates[i].pair] == updates[i].community;
      }
    }
    TellsOn(t, updates);
  }

  /** A number refused on the way is a duplicate of the merged numbering. */
  lemma Conflict(cleared: Table, updates: seq<Update>, i: nat)
    requires i < |updates| && DistinctPairs(updates) && forall u :: u in updates ==> u.pair !in cleared
    ensures SettableAt(cleared, updates, i) || !Distinct(Laid(cleared, updates))
  {
    var now, all, u := Laid(cleared, updates[..i]), Laid(cleared, updates), updates[i];
    LaidKeeps(cleared, updates, i);
    LaidKeeps(cleared, updates, i + 1);
    assert updates[..i + 1][..i] == updates[..i] && Laid(cleared, updates[..i + 1])[u.pair] == u.community;
    if Taken(now, u.pair, u.community) {
      var q :| q in now && q != u.pair && now[q] == u.community;
      assert all[q] == all[u.pair];
    }
  }

  /** Where one pair has 100 and the list gives another 100 and then 200, the import
      is refused, and yet the merged numbering has no duplicate. */
  lemma RepeatedPairRefused(a: Pair, c: Pair)
    requires a != c
    ensures var t: Table, updates := map[c := 100], [Update(a, 100), Update(a, 200)];
            Distinct(Merged(t, updates)) && !Settable(Cleared(t, updates), updates)
  {
    var t: Table, updates := map[c := 100], [Update(a, 100), Update(a, 200)];
    assert updates[..0] == [] && updates[..1] == [Update(a, 100)] && [Update(a, 100)][..0] == [];
    assert Cleared(t, [Update(a, 100)]) == t - {a} == t;
    assert Cleared(t, updates) == Cleared(t, [Update(a, 100)]) - {a} == t;
    assert Laid(t, [Update(a, 100)]) == map[c := 100, a := 100];
    assert Merged(t, updates) == map[c := 100, a := 200];
    assert Laid(t, updates[..0]) == t && Taken(t, a, 100) by { assert c in t && t[c] == 100; }
    assert !SettableAt(t, updates, 0);
  }
}
