/** Numbering the categories and services of one mode: manual assignments,
    generation of the missing ones, resetting, and importing a list. */
module Communities {

  /** A service of a category; the empty service names the category itself. */
  datatype Pair = Pair(category: string, service: string)

  type Table = map<Pair, nat>

  predicate Distinct(t: Table) { forall p, q :: p in t && q in t && p != q ==> t[p] != t[q] }

  function From(used: set<nat>, start: nat): (s: set<nat>) { set x | x in used && x >= start }

  lemma FromShrinks(used: set<nat>, start: nat)
    requires start in used
    ensures From(used, start + 1) < From(used, start)
  {
    assert start in From(used, start) && start !in From(used, start + 1);
  }

  /** The first number from a start on that is not used. */
  function FirstFree(start: nat, used: set<nat>): (n: nat)
    ensures n >= start && n !in used && forall m :: start <= m < n ==> m in used
    decreases From(used, start)
  {
    if start in used then
      FromShrinks(used, start);
      FirstFree(start + 1, used)
    else start
  }

  method FindFirstFree(start: nat, used: set<nat>) returns (n: nat)
    ensures n == FirstFree(start, used)
  {
    n := start;
    while n in used
      invariant FirstFree(n, used) == FirstFree(start, used)
      decreases From(used, n)
    {
      FromShrinks(used, n);
      n := n + 1;
    }
  }

  /** A category and its services, in name order. */
  datatype Group = Group(category: string, services: seq<string>)

  /** Every pair of the catalog is listed once, and services have names. */
  predicate WellListed(groups: seq<Group>) {
    (forall i, j :: 0 <= i < j < |groups| ==> groups[i].category != groups[j].category) &&
    forall g :: g in groups ==> DistinctNames(g.services)
  }

  predicate DistinctNames(names: seq<string>) {
    "" !in names && forall i, j :: 0 <= i < j < |names| ==> names[i] != names[j]
  }

  // ----- generation -----

  /** The numbers of a category's services: kept, or the next free after its own. */
  function WithServices(t: Table, base: nat, category: string, services: seq<string>): (u: Table) {
    if services == [] then t
    else
      var before, p := WithServices(t, base, category, services[..|services| - 1]),
        Pair(category, services[|services| - 1]);
      if p in before then before else before[p := FirstFree(base + 1, before.Values)]
  }

  function WithCategory(t: Table, category: string, index: nat): (u: Table)
    ensures Pair(category, "") in u
  {
    var p := Pair(category, "");
    if p in t then t else t[p := FirstFree((index + 1) * 10000, t.Values)]
  }

  function WithGroup(t: Table, g: Group, index: nat): (u: Table) {
    var u := WithCategory(t, g.category, index);
    WithServices(u, u[Pair(g.category, "")], g.category, g.services)
  }

  function Generated(t: Table, groups: seq<Group>): (u: Table) {
    if groups == [] then t
    else WithGroup(Generated(t, groups[..|groups| - 1]), groups[|groups| - 1], |groups| - 1)
  }

  /** Everything assigned before is still assigned to the same number. */
  predicate Keeps(t: Table, u: Table) { forall p :: p in t ==> p in u && u[p] == t[p] }

  lemma AddDistinct(t: Table, p: Pair, n: nat)
    requires Distinct(t) && p !in t && n !in t.Values
    ensures Distinct(t[p := n]) && Keeps(t, t[p := n])
  {}

  lemma {:induction false} ServicesKeep(t: Table, base: nat, category: string, services: seq<string>)
    ensures var u := WithServices(t, base, category, services);
            Keeps(t, u) && (Distinct(t) ==> Distinct(u)) && forall s :: s in services ==> Pair(category, s) in u
  {
    if services != [] {
      var front, last := services[..|services| - 1], services[|services| - 1];
      ServicesKeep(t, base, category, front);
      var before, p := WithServices(t, base, category, front), Pair(category, last);
      if p !in before && Distinct(t) { AddDistinct(before, p, FirstFree(base + 1, before.Values)); }
      assert forall s :: s in services <==> s in front || s == last;
    }
  }

  lemma GroupKeeps(t: Table, g: Group, index: nat)
    ensures var u := WithGroup(t, g, index);
            Keeps(t, u) && (Distinct(t) ==> Distinct(u)) && Assigned(u, g)
  {
    var p, u := Pair(g.category, ""), WithCategory(t, g.category, index);
    if p !in t && Distinct(t) { AddDistinct(t, p, FirstFree((index + 1) * 10000, t.Values)); }
    ServicesKeep(u, u[p], g.category, g.services);
  }

  predicate Assigned(t: Table, g: Group) {
    Pair(g.category, "") in t && forall s :: s in g.services ==> Pair(g.category, s) in t
  }

  /** Generation moves nothing, keeps numbers distinct and assigns every pair. */
  lemma {:induction false} GenerationKeeps(t: Table, groups: seq<Group>)
    ensures var u := Generated(t, groups);
            Keeps(t, u) && (Distinct(t) ==> Distinct(u)) && forall g :: g in groups ==> Assigned(u, g)
  {
    if groups != [] {
      var front, last := groups[..|groups| - 1], groups[|groups| - 1];
      GenerationKeeps(t, front);
      GroupKeeps(Generated(t, front), last, |groups| - 1);
      assert forall g :: g in groups <==> g in front || g == last;
    }
  }

  /** With every pair assigned there is nothing to generate. */
  lemma {:induction false} NothingToGenerate(t: Table, groups: seq<Group>)
    requires forall g :: g in groups ==> Assigned(t, g)
    ensures Generated(t, groups) == t
  {
    if groups != [] {
      var front, last := groups[..|groups| - 1], groups[|groups| - 1];
      NothingToGenerate(t, front);
      assert last in groups;
      NoNewServices(t, t[Pair(last.category, "")], last.category, last.services);
    }
  }

  lemma {:induction false} NoNewServices(t: Table, base: nat, category: string, services: seq<string>)
    requires forall s :: s in services ==> Pair(category, s) in t
    ensures WithServices(t, base, category, services) == t
  {
    if services != [] { NoNewServices(t, base, category, services[..|services| - 1]); }
  }

  /** Generating twice is generating once. */
  lemma GenerationIdempotent(t: Table, groups: seq<Group>)
    ensures Generated(Generated(t, groups), groups) == Generated(t, groups)
  {
    GenerationKeeps(t, groups);
    NothingToGenerate(Generated(t, groups), groups);
  }

  // ----- which numbers are given -----

  /** No number from a start on was left out for this one. */
  ghost predicate FirstFrom(t: Table, start: nat, n: nat) {
    n >= start && forall m: nat :: start <= m < n ==> m in t.Values
  }

  lemma KeepsFirst(t: Table, u: Table, start: nat, n: nat)
    requires Keeps(t, u) && FirstFrom(t, start, n)
    ensures FirstFrom(u, start, n)
  {
    forall m: nat | start <= m < n ensures m in u.Values {
      assert m in t.Values;
      var p :| p in t && t[p] == m;
      assert u[p] == m;
    }
  }

  lemma {:induction false} ServiceNumber(t: Table, base: nat, category: string, services: seq<string>, s: string)
    requires s in services && Pair(category, s) !in t
    ensures var u := WithServices(t, base, category, services);
            Pair(category, s) in u && FirstFrom(u, base + 1, u[Pair(category, s)])
  {
    var front, last := services[..|services| - 1], services[|services| - 1];
    var before, u, p := WithServices(t, base, category, front), WithServices(t, base, category, services),
      Pair(category, s);
    ServicesKeep(t, base, category, front);
    if s in front {
      ServiceNumber(t, base, category, front, s);
      KeepsFirst(before, u, base + 1, before[p]);
    } else if p in before {
      OnlyListed(t, base, category, front, p);
    } else {
      KeepsFirst(before, u, base + 1, FirstFree(base + 1, before.Values));
    }
  }

  lemma {:induction false} OnlyListed(t: Table, base: nat, category: string, services: seq<string>, p: Pair)
    requires p in WithServices(t, base, category, services)
    ensures p in t || (p.category == category && p.service in services)
  {
    if services != [] && p in WithServices(t, base, category, services[..|services| - 1]) {
      OnlyListed(t, base, category, services[..|services| - 1], p);
    }
  }

  predicate Listed(g: Group, p: Pair) { p.category == g.category && (p.service == "" || p.service in g.services) }

  lemma GroupNumbers(t: Table, g: Group, index: nat, p: Pair)
    requires p in WithGroup(t, g, index) && p !in t
    ensures var u, own := WithGroup(t, g, index), Pair(g.category, "");
            Listed(g, p) && own in u && FirstFrom(u, if p == own then (index + 1) * 10000 else u[own] + 1, u[p])
  {
    var own, v, u := Pair(g.category, ""), WithCategory(t, g.category, index), WithGroup(t, g, index);
    GroupKeeps(t, g, index);
    ServicesKeep(v, v[own], g.category, g.services);
    if p == own {
      KeepsFirst(t, u, (index + 1) * 10000, FirstFree((index + 1) * 10000, t.Values));
    } else {
      OnlyListed(v, v[own], g.category, g.services, p);
      ServiceNumber(v, v[own], g.category, g.services, p.service);
    }
  }

  /** From any table, what generation adds are pairs of the catalog. A service gets
      the first number after its category's own that was not used, a category the
      first from its place in the list on. */
  lemma {:induction false} GeneratedNumbers(t: Table, groups: seq<Group>, p: Pair)
    requires p in Generated(t, groups) && p !in t
    ensures var u, own := Generated(t, groups), Pair(p.category, "");
            own in u && exists i :: 0 <= i < |groups| && Listed(groups[i], p) &&
                                    FirstFrom(u, if p == own then (i + 1) * 10000 else u[own] + 1, u[p])
  {
    var u, own, n := Generated(t, groups), Pair(p.category, ""), |groups| - 1;
    var front := groups[..n];
    var before := Generated(t, front);
    GroupKeeps(before, groups[n], n);
    if p in before {
      GeneratedNumbers(t, front, p);
      var i :| 0 <= i < |front| && Listed(front[i], p) &&
        FirstFrom(before, if p == own then (i + 1) * 10000 else before[own] + 1, before[p]);
      KeepsFirst(before, u, if p == own then (i + 1) * 10000 else before[own] + 1, before[p]);
      assert Listed(groups[i], p);
    } else {
      GroupNumbers(before, groups[n], n, p);
    }
  }

  // ----- from an empty table -----

  /** The positional estimates shown to the operator. */
  function AutoGroupCommunity(group: nat): nat { (group + 1) * 10000 }

  function AutoCommunity(group: nat, service: nat): nat
    decreases service
  {
    if service >= 9999 then AutoCommunity(group + 1, service - 9999) else (group + 1) * 10000 + service + 1
  }

  /** From an empty table the numbers are the positional ones. */
  predicate Positional(t: Table, groups: seq<Group>) {
    forall i :: 0 <= i < |groups| ==> PositionalGroup(t, groups[i], i)
  }

  predicate PositionalGroup(t: Table, g: Group, i: nat) {
    Pair(g.category, "") in t && t[Pair(g.category, "")] == AutoGroupCommunity(i) &&
    forall k :: 0 <= k < |g.services| ==> PositionalService(t, g, i, k)
  }

  predicate PositionalService(t: Table, g: Group, i: nat, k: nat)
    requires k < |g.services|
  {
    Pair(g.category, g.services[k]) in t && t[Pair(g.category, g.services[k])] == AutoCommunity(i, k)
  }

  predicate Small(groups: seq<Group>) { forall g :: g in groups ==> |g.services| <= 9999 }

  /** Only the first groups' categories, and only numbers below a bound. */
  predicate Below(t: Table, groups: seq<Group>, bound: nat) {
    (forall p :: p in t ==> t[p] < bound) && forall p :: p in t ==> exists g :: g in groups && g.category == p.category
  }

  /** A category's services take the numbers right after its own. */
  lemma {:induction false} ServicesInRow(t: Table, base: nat, category: string, services: seq<string>)
    requires DistinctNames(services) && Pair(category, "") in t && t[Pair(category, "")] == base
    requires (forall p :: p in t ==> t[p] <= base) && forall s :: s in services ==> Pair(category, s) !in t
    ensures var u := WithServices(t, base, category, services);
            (forall p :: p in u <==> p in t || (p.category == category && p.service in services)) && Keeps(t, u) &&
            (forall k :: 0 <= k < |services| ==> u[Pair(category, services[k])] == base + 1 + k) &&
            forall p :: p in u ==> u[p] <= base + |services|
  {
    if services != [] {
      var front, last := services[..|services| - 1], services[|services| - 1];
      ServicesInRow(t, base, category, front);
      var before, p := WithServices(t, base, category, front), Pair(category, last);
      assert last !in front by {
        forall i | 0 <= i < |front| ensures front[i] != last { assert services[i] != services[|services| - 1]; }
      }
      forall m | base + 1 <= m < base + |services| ensures m in before.Values {
        assert front[m - base - 1] in front && before[Pair(category, front[m - base - 1])] == m;
      }
      NextInRow(before, base, |services|);
      assert forall s :: s in services <==> s in front || s == last;
    }
  }

  lemma NextInRow(before: Table, base: nat, n: nat)
    requires n > 0 && (forall p :: p in before ==> before[p] < base + n)
    requires forall m :: base + 1 <= m < base + n ==> m in before.Values
    ensures FirstFree(base + 1, before.Values) == base + n
  {
    var free := FirstFree(base + 1, before.Values);
    assert base + n !in before.Values;
  }

  lemma {:induction false} SmallIsPositional(groups: seq<Group>)
    requires WellListed(groups) && Small(groups)
    ensures var t := Generated(map[], groups);
            Positional(t, groups) && Below(t, groups, (|groups| + 1) * 10000)
  {
    if groups != [] {
      var front, last, i := groups[..|groups| - 1], groups[|groups| - 1], |groups| - 1;
      assert forall g :: g in front ==> g in groups;
      SmallIsPositional(front);
      var t := Generated(map[], front);
      assert last in groups;
      OtherCategories(t, groups, i, |groups| * 10000);
      LastGroupPositional(t, groups);
    }
  }

  /** Numbers that are kept stay positional. */
  lemma EarlierStay(t: Table, u: Table, groups: seq<Group>, i: nat)
    requires i <= |groups| && Keeps(t, u) && Positional(t, groups[..i])
    ensures forall j :: 0 <= j < i ==> PositionalGroup(u, groups[j], j)
  {
    forall j | 0 <= j < i ensures PositionalGroup(u, groups[j], j) {
      assert groups[..i][j] == groups[j] && PositionalGroup(t, groups[..i][j], j);
      forall k | 0 <= k < |groups[j].services| ensures PositionalService(u, groups[j], j, k) {
        assert PositionalService(t, groups[j], j, k);
      }
    }
  }

  /** A new category after numbers below its own: it and its services get the
      positional numbers, and nothing else is added. */
  lemma NewGroup(t: Table, g: Group, i: nat)
    requires DistinctNames(g.services) && |g.services| <= 9999
    requires forall p :: p in t ==> p.category != g.category && t[p] < (i + 1) * 10000
    ensures var u := WithGroup(t, g, i);
            Keeps(t, u) && PositionalGroup(u, g, i) &&
            forall p :: p in u ==> u[p] < (i + 2) * 10000 && (p in t || p.category == g.category)
  {
    var base, v, u := (i + 1) * 10000, WithCategory(t, g.category, i), WithGroup(t, g, i);
    assert v[Pair(g.category, "")] == base by { assert base !in t.Values; }
    ServicesInRow(v, base, g.category, g.services);
    forall k | 0 <= k < |g.services| ensures PositionalService(u, g, i, k) {
      assert u[Pair(g.category, g.services[k])] == base + 1 + k;
    }
  }

  lemma LastGroupPositional(t: Table, groups: seq<Group>)
    requires groups != [] && DistinctNames(groups[|groups| - 1].services) && |groups[|groups| - 1].services| <= 9999
    requires var front := groups[..|groups| - 1]; Positional(t, front) && Below(t, front, |groups| * 10000)
    requires forall p :: p in t ==> p.category != groups[|groups| - 1].category
    ensures var u := WithGroup(t, groups[|groups| - 1], |groups| - 1);
            Positional(u, groups) && Below(u, groups, (|groups| + 1) * 10000)
  {
    var front, last, i := groups[..|groups| - 1], groups[|groups| - 1], |groups| - 1;
    var u := WithGroup(t, last, i);
    NewGroup(t, last, i);
    EarlierStay(t, u, groups, i);
    forall p | p in u ensures exists g :: g in groups && g.category == p.category {
      if p in t {
        var g :| g in front && g.category == p.category;
        assert g in groups;
      } else {
        assert last in groups && last.category == p.category;
      }
    }
  }

  /** The estimates are exact if and only if no category has more than 9999
      services: the next one would get the number of the next category. */
  lemma {:induction false} PositionalIffSmall(groups: seq<Group>)
    requires WellListed(groups)
    ensures Positional(Generated(map[], groups), groups) <==> Small(groups)
  {
    if Small(groups) {
      SmallIsPositional(groups);
    } else {
      var i := FirstLarge(groups);
      LargeIsOff(groups, i);
      assert !PositionalGroup(Generated(map[], groups), groups[i], i);
    }
  }

  lemma FirstLarge(groups: seq<Group>) returns (i: nat)
    requires !Small(groups)
    ensures i < |groups| && |groups[i].services| > 9999 && Small(groups[..i])
  {
    var g :| g in groups && |g.services| > 9999;
    var last :| 0 <= last < |groups| && groups[last] == g;
    i := 0;
    while |groups[i].services| <= 9999
      invariant i <= last && forall j :: 0 <= j < i ==> |groups[j].services| <= 9999
      decreases last - i
    {
      i := i + 1;
    }
  }

  lemma OtherCategories(t: Table, groups: seq<Group>, i: nat, bound: nat)
    requires WellListed(groups) && i < |groups| && Below(t, groups[..i], bound)
    ensures forall p :: p in t ==> p.category != groups[i].category
  {}

  /** In a new category above all numbers so far, services follow its own number. */
  lemma RowOfGroup(t: Table, g: Group, i: nat)
    requires DistinctNames(g.services) && forall p :: p in t ==> p.category != g.category && t[p] < (i + 1) * 10000
    ensures var u := WithGroup(t, g, i);
            forall k :: 0 <= k < |g.services| ==>
              Pair(g.category, g.services[k]) in u && u[Pair(g.category, g.services[k])] == (i + 1) * 10000 + 1 + k
  {
    var base, v := (i + 1) * 10000, WithCategory(t, g.category, i);
    assert v[Pair(g.category, "")] == base by { assert base !in t.Values; }
    ServicesInRow(v, base, g.category, g.services);
  }

  /** After positional groups, a category's services follow its own number. */
  lemma RowAfter(groups: seq<Group>, i: nat, k: nat)
    requires WellListed(groups) && i < |groups| && Small(groups[..i]) && k < |groups[i].services|
    ensures var u, p := Generated(map[], groups[..i + 1]), Pair(groups[i].category, groups[i].services[k]);
            p in u && u[p] == (i + 1) * 10000 + 1 + k
  {
    var t := Generated(map[], groups[..i]);
    PrefixListed(groups, i);
    SmallIsPositional(groups[..i]);
    OtherCategories(t, groups, i, (i + 1) * 10000);
    RowOfGroup(t, groups[i], i);
    GeneratedNext(groups, i);
  }

  lemma GeneratedNext(groups: seq<Group>, i: nat)
    requires i < |groups|
    ensures Generated(map[], groups[..i + 1]) == WithGroup(Generated(map[], groups[..i]), groups[i], i)
  {
    assert groups[..i + 1][..i] == groups[..i] && groups[..i + 1][i] == groups[i];
  }

  lemma PrefixListed(groups: seq<Group>, i: nat)
    requires WellListed(groups) && i < |groups|
    ensures WellListed(groups[..i]) && DistinctNames(groups[i].services)
  {}

  lemma LargeIsOff(groups: seq<Group>, i: nat)
    requires WellListed(groups) && i < |groups| && |groups[i].services| > 9999 && Small(groups[..i])
    ensures !PositionalGroup(Generated(map[], groups), groups[i], i)
  {
    RowAfter(groups, i, 9999);
    LaterKeeps(groups, i + 1);
    assert AutoCommunity(i, 9999) == AutoCommunity(i + 1, 0) == (i + 1) * 10000 + 10001;
    assert !PositionalService(Generated(map[], groups), groups[i], i, 9999);
  }

  lemma {:induction false} LaterKeeps(groups: seq<Group>, n: nat)
    requires n <= |groups|
    ensures Keeps(Generated(map[], groups[..n]), Generated(map[], groups))
  {
    if n < |groups| {
      var front := groups[..|groups| - 1];
      LaterKeeps(front, n);
      assert front[..n] == groups[..n];
      GroupKeeps(Generated(map[], front), groups[|groups| - 1], |groups| - 1);
    } else {
      assert groups[..n] == groups;
    }
  }
}
