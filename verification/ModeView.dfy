/** The materialised merge of each catalog mode, and every write that has to keep
    it up to date. Each write is one transaction. */
module ModeView {
  import opened Blocks
  import opened CanonicalLists
  import Normalization
  import opened Exclude
  import opened Filter

  type Id = nat

  /** A row: a service announces a prefix. */
  datatype Entry = Entry(service: Id, prefix: Block)

  datatype Feed = Feed(enabled: bool, entries: set<Entry>)

  /** Which feed is linked to which mode, and whether as an exclude. */
  datatype Link = Link(mode: Id, feed: Id)

  // ----- what a mode should hold -----

  /** The rows of a mode's enabled feeds in one role. */
  function Contributed(feeds: map<Id, Feed>, links: map<Link, bool>, mode: Id, exclude: bool): (es: set<Entry>) {
    set k, e | k in links && k.mode == mode && links[k] == exclude && k.feed in feeds && feeds[k.feed].enabled &&
      e in feeds[k.feed].entries :: e
  }

  ghost predicate Held(es: set<Entry>, a: Addr) { exists e :: e in es && Has(e.prefix, a) }

  ghost function SpaceOf(es: set<Entry>): (s: iset<Addr>) { iset a | Held(es, a) }

  /** A largest block among those lying within a set of addresses. */
  ghost predicate Largest(b: Block, s: iset<Addr>) {
    Within(b, s) && forall c: Block :: Within(c, s) && Inside(b, c) ==> c == b
  }

  /** A row of the merge that comes from one include row: a default route as it
      is, any other prefix cut down to the largest blocks without the excludes. */
  ghost predicate ComesFrom(e: Entry, row: Entry, excluded: iset<Addr>) {
    e.service == row.service &&
    if row.prefix.bits == 0 then e.prefix == row.prefix else Largest(e.prefix, Space([row.prefix]) - excluded)
  }

  ghost predicate FromSome(e: Entry, rows: set<Entry>, excluded: iset<Addr>) {
    exists row :: row in rows && ComesFrom(e, row, excluded)
  }

  /** The merge: exactly what comes from the include rows. */
  ghost predicate IsMerge(view: set<Entry>, includes: set<Entry>, excluded: iset<Addr>) {
    forall e :: e in view <==> FromSome(e, includes, excluded)
  }

  // ----- blocks within a set -----

  /** The shortest block list of a set consists of its largest blocks. */
  lemma CanonicalIsLargest(bs: seq<Block>, b: Block)
    requires Canonical(bs)
    ensures b in bs <==> Largest(b, Space(bs))
  {
    if b in bs {
      MemberWithin(bs, b);
      forall c: Block | Within(c, Space(bs)) && Inside(b, c) ensures c == b {
        var d :| d in bs && Inside(c, d);
        SameHome(bs, b, d);
        InsideBits(b, c);
        InsideBits(c, d);
      }
    } else if Largest(b, Space(bs)) {
      var d :| d in bs && Inside(b, d);
      MemberWithin(bs, d);
    }
  }

  /** Of blocks apart from each other, one cannot lie inside another. */
  lemma SameHome(bs: seq<Block>, b: Block, d: Block)
    requires PairwiseApart(bs) && b in bs && d in bs && Inside(b, d)
    ensures b == d
  {}

  /** A prefix without excludes in it is its own only fragment. */
  lemma UntouchedIsLargest(p: Block, b: Block)
    ensures Largest(b, Space([p])) <==> b == p
  {
    CanonicalSingle(p);
    CanonicalIsLargest([p], b);
  }

  // ----- what the merge means, address by address -----

  ghost predicate Announces(es: set<Entry>, service: Id, a: Addr) {
    exists e :: e in es && e.service == service && e.prefix.bits > 0 && Has(e.prefix, a)
  }

  /** Around any address of a set, and within the set, there is a largest block. */
  lemma {:induction false} LargestAround(b: Block, s: iset<Addr>, a: Addr) returns (g: Block)
    requires Within(b, s) && Has(b, a)
    ensures Largest(g, s) && Has(g, a)
    decreases b.bits
  {
    if Largest(b, s) {
      g := b;
    } else {
      var c: Block :| Within(c, s) && Inside(b, c) && c != b;
      InsideBits(b, c);
      g := LargestAround(c, s, a);
    }
  }

  lemma AnnouncedTo(row: Entry, view: set<Entry>, includes: set<Entry>, excluded: iset<Addr>, a: Addr)
    requires IsMerge(view, includes, excluded) && row in includes && row.prefix.bits > 0
    requires Has(row.prefix, a) && a !in excluded
    ensures Announces(view, row.service, a)
  {
    var s := Space([row.prefix]) - excluded;
    SpaceSingle(row.prefix);
    BlockBound(row.prefix);
    var one: Block := Prefix(a.family, a.v, Width(a.family));
    assert Within(one, s);
    var g := LargestAround(one, s, a);
    var e := Entry(row.service, g);
    assert ComesFrom(e, row, excluded);
    PieceBits(g, row.prefix, excluded);
  }

  lemma PieceBits(g: Block, p: Block, excluded: iset<Addr>)
    requires Within(g, Space([p]) - excluded)
    ensures g.bits >= p.bits
  {
    SpaceSingle(p);
    assert Addr(g.family, g.addr) in Space([p]) && Addr(g.family, Hi(g)) in Space([p]);
    InsideBits(g, p);
  }

  /** In every mode, for every service: the addresses announced are those of its
      include rows less the excluded ones. */
  lemma MergeMeans(view: set<Entry>, includes: set<Entry>, excluded: iset<Addr>, service: Id, a: Addr)
    requires IsMerge(view, includes, excluded)
    ensures Announces(view, service, a) <==> Announces(includes, service, a) && a !in excluded
  {
    if Announces(view, service, a) {
      var e :| e in view && e.service == service && e.prefix.bits > 0 && Has(e.prefix, a);
      var row :| row in includes && ComesFrom(e, row, excluded);
      SpaceSingle(row.prefix);
      assert a in Space([row.prefix]) - excluded;
    }
    if Announces(includes, service, a) && a !in excluded {
      var row :| row in includes && row.service == service && row.prefix.bits > 0 && Has(row.prefix, a);
      AnnouncedTo(row, view, includes, excluded, a);
    }
  }

  /** Default routes pass through, whatever is excluded, and none appears. */
  lemma DefaultsPass(view: set<Entry>, includes: set<Entry>, excluded: iset<Addr>, service: Id, p: Block)
    requires IsMerge(view, includes, excluded) && p.bits == 0
    ensures Entry(service, p) in view <==> Entry(service, p) in includes
  {
    var e := Entry(service, p);
    if e in includes { assert ComesFrom(e, e, excluded); }
    if e in view {
      var row :| row in includes && ComesFrom(e, row, excluded);
      if row.prefix.bits > 0 { PieceBits(p, row.prefix, excluded); }
    }
  }

  // ----- in terms of the feeds and links -----

  /** An enabled feed linked for inclusion has a row of the service, not a default
      route, with the address. */
  ghost predicate Included(feeds: map<Id, Feed>, links: map<Link, bool>, mode: Id, service: Id, a: Addr) {
    exists f, e :: Link(mode, f) in links && !links[Link(mode, f)] && f in feeds && feeds[f].enabled &&
      e in feeds[f].entries && e.service == service && e.prefix.bits > 0 && Has(e.prefix, a)
  }

  /** An enabled feed linked for exclusion has a row with the address. */
  ghost predicate ExcludedBy(feeds: map<Id, Feed>, links: map<Link, bool>, mode: Id, a: Addr) {
    exists f, e :: Link(mode, f) in links && links[Link(mode, f)] && f in feeds && feeds[f].enabled &&
      e in feeds[f].entries && Has(e.prefix, a)
  }

  /** An enabled feed linked for inclusion has the row. */
  predicate IncludesRow(feeds: map<Id, Feed>, links: map<Link, bool>, mode: Id, e: Entry) {
    exists f :: f in feeds && Link(mode, f) in links && !links[Link(mode, f)] && feeds[f].enabled &&
      e in feeds[f].entries
  }

  /** What is announced, feed by feed: for each service the addresses of the include
      feeds that no exclude feed has, and the default routes of the include feeds. */
  ghost predicate Serves(view: set<Entry>, feeds: map<Id, Feed>, links: map<Link, bool>, mode: Id) {
    (forall service, a :: Announces(view, service, a) <==>
      Included(feeds, links, mode, service, a) && !ExcludedBy(feeds, links, mode, a)) &&
    forall e: Entry :: e.prefix.bits == 0 ==> (e in view <==> IncludesRow(feeds, links, mode, e))
  }

  lemma IncludedRows(feeds: map<Id, Feed>, links: map<Link, bool>, mode: Id, service: Id, a: Addr)
    ensures Included(feeds, links, mode, service, a) <==>
              Announces(Contributed(feeds, links, mode, false), service, a)
  {
    if Announces(Contributed(feeds, links, mode, false), service, a) {
      var e :| e in Contributed(feeds, links, mode, false) && e.service == service && e.prefix.bits > 0 &&
        Has(e.prefix, a);
      var k :| k in links && k.mode == mode && !links[k] && k.feed in feeds && feeds[k.feed].enabled &&
        e in feeds[k.feed].entries;
      assert k == Link(mode, k.feed);
    }
  }

  lemma ExcludedRows(feeds: map<Id, Feed>, links: map<Link, bool>, mode: Id, a: Addr)
    ensures ExcludedBy(feeds, links, mode, a) <==> a in SpaceOf(Contributed(feeds, links, mode, true))
  {
    if Held(Contributed(feeds, links, mode, true), a) {
      var e :| e in Contributed(feeds, links, mode, true) && Has(e.prefix, a);
      var k :| k in links && k.mode == mode && links[k] && k.feed in feeds && feeds[k.feed].enabled &&
        e in feeds[k.feed].entries;
      assert k == Link(mode, k.feed);
    }
  }

  lemma IncludedRow(feeds: map<Id, Feed>, links: map<Link, bool>, mode: Id, e: Entry)
    ensures IncludesRow(feeds, links, mode, e) <==> e in Contributed(feeds, links, mode, false)
  {
    if e in Contributed(feeds, links, mode, false) {
      var k :| k in links && k.mode == mode && !links[k] && k.feed in feeds && feeds[k.feed].enabled &&
        e in feeds[k.feed].entries;
      assert k == Link(mode, k.feed);
    }
  }

  /** A merge of the contributed rows serves exactly what feeds and links say. */
  lemma MergeServes(view: set<Entry>, feeds: map<Id, Feed>, links: map<Link, bool>, mode: Id)
    requires IsMerge(view, Contributed(feeds, links, mode, false), SpaceOf(Contributed(feeds, links, mode, true)))
    ensures Serves(view, feeds, links, mode)
  {
    var includes, excluded := Contributed(feeds, links, mode, false), SpaceOf(Contributed(feeds, links, mode, true));
    forall service, a
      ensures Announces(view, service, a) <==>
                Included(feeds, links, mode, service, a) && !ExcludedBy(feeds, links, mode, a)
    {
      MergeMeans(view, includes, excluded, service, a);
      IncludedRows(feeds, links, mode, service, a);
      ExcludedRows(feeds, links, mode, a);
    }
    forall e: Entry | e.prefix.bits == 0 ensures e in view <==> IncludesRow(feeds, links, mode, e) {
      DefaultsPass(view, includes, excluded, e.service, e.prefix);
      IncludedRow(feeds, links, mode, e);
    }
  }

  // ----- the tables -----

  method InSomeOrder<T(==)>(s: set<T>) returns (q: seq<T>)
    ensures forall x :: x in q <==> x in s
  {
    q := [];
    var left := s;
    while left != {}
      invariant left <= s && forall x :: x in q <==> x in s - left
      decreases |left|
    {
      var x :| x in left;
      q := q + [x];
      left := left - {x};
    }
  }

  /** The excludes of a mode denote the addresses of its exclude feeds' rows. */
  lemma ExcludedSpace(rows: set<Entry>, prefixes: seq<Prefix>)
    requires forall p :: p in prefixes <==> p in (set e | e in rows :: e.prefix)
    ensures InputSpace(prefixes) == SpaceOf(rows)
  {
    forall a ensures a in InputSpace(prefixes) <==> a in SpaceOf(rows) {
      if Held(rows, a) {
        var e :| e in rows && Has(e.prefix, a);
        assert e.prefix in prefixes;
        Normalization.MaskedBlock(e.prefix);
      }
      if a in InputSpace(prefixes) {
        var p :| p in prefixes && p.IsValid() && Has(Masked(p), a);
        var e :| e in rows && e.prefix == p;
        Normalization.MaskedBlock(e.prefix);
      }
    }
  }

  ghost predicate FromFirst(e: Entry, rows: seq<Entry>, n: nat, excluded: iset<Addr>)
    requires n <= |rows|
  {
    exists i :: 0 <= i < n && ComesFrom(e, rows[i], excluded)
  }

  /** The rows one include row becomes. */
  method Cut(row: Entry, excludes: ExcludeSet) returns (es: set<Entry>)
    requires excludes.Valid()
    ensures forall e :: e in es <==> ComesFrom(e, row, excludes.Excluded())
  {
    if row.prefix.bits == 0 {
      return {row};
    }
    Normalization.MaskedBlock(row.prefix);
    var pieces, changed := excludes.Subtract(row.prefix);
    forall b: Block ensures b in pieces <==> Largest(b, Space([row.prefix]) - excludes.Excluded()) {
      CanonicalIsLargest(pieces, b);
    }
    if !changed {
      return {row};
    }
    es := set b | b in pieces :: Entry(row.service, b);
    forall e ensures e in es <==> ComesFrom(e, row, excludes.Excluded()) {
      assert e.prefix in pieces && e.service == row.service <==> e in es;
    }
  }

  /** The merge of a mode, rebuilt from its feeds. */
  method Merge(feeds: map<Id, Feed>, links: map<Link, bool>, mode: Id) returns (view: set<Entry>)
    ensures IsMerge(view, Contributed(feeds, links, mode, false), SpaceOf(Contributed(feeds, links, mode, true)))
    ensures Serves(view, feeds, links, mode)
  {
    var includes, excludedRows := Contributed(feeds, links, mode, false), Contributed(feeds, links, mode, true);
    var prefixes: seq<Prefix> := InSomeOrder(set e | e in excludedRows :: e.prefix);
    ExcludedSpace(excludedRows, prefixes);
    var excludes := new ExcludeSet(prefixes);
    if excludes.Empty() {
      PlainCopy(includes, excludes.Excluded());
      MergeServes(includes, feeds, links, mode);
      return includes;
    }
    view := CutAll(includes, excludes);
    MergeServes(view, feeds, links, mode);
  }

  method CutAll(includes: set<Entry>, excludes: ExcludeSet) returns (view: set<Entry>)
    requires excludes.Valid()
    ensures IsMerge(view, includes, excludes.Excluded())
  {
    var rows := InSomeOrder(includes);
    view := {};
    for i := 0 to |rows|
      invariant forall e :: e in view <==> FromFirst(e, rows, i, excludes.Excluded())
    {
      var es := Cut(rows[i], excludes);
      view := view + es;
    }
    forall e ensures e in view <==> FromSome(e, includes, excludes.Excluded()) {
      if FromSome(e, includes, excludes.Excluded()) {
        var row :| row in includes && ComesFrom(e, row, excludes.Excluded());
        var i :| 0 <= i < |rows| && rows[i] == row;
      }
    }
  }

  /** Nothing excluded: the merge is a plain copy. */
  lemma PlainCopy(includes: set<Entry>, excluded: iset<Addr>)
    requires excluded == iset{}
    ensures IsMerge(includes, includes, excluded)
  {
    forall e, row | row in includes ensures ComesFrom(e, row, excluded) <==> e == row {
      assert Space([row.prefix]) - excluded == Space([row.prefix]);
      UntouchedIsLargest(row.prefix, e.prefix);
    }
  }
}
