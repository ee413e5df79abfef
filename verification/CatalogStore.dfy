/** The writes on feeds, links and modes, each of which keeps every mode's
    materialised merge up to date although most rebuild only a few modes. */
module CatalogStore {
  import opened Blocks
  import opened ModeView

  predicate AgreeAt(feeds: map<Id, Feed>, feeds': map<Id, Feed>, f: Id) {
    (f in feeds <==> f in feeds') && (f in feeds ==> feeds[f] == feeds'[f])
  }

  /** A mode's rows depend only on its own links and the feeds they name. */
  lemma OnlyOwnLinks(feeds: map<Id, Feed>, links: map<Link, bool>, feeds': map<Id, Feed>, links': map<Link, bool>,
                     mode: Id)
    requires forall f :: Link(mode, f) in links <==> Link(mode, f) in links'
    requires forall f :: Link(mode, f) in links ==> links[Link(mode, f)] == links'[Link(mode, f)]
    requires forall f :: Link(mode, f) in links ==> AgreeAt(feeds, feeds', f)
    ensures Contributed(feeds, links, mode, false) == Contributed(feeds', links', mode, false)
    ensures Contributed(feeds, links, mode, true) == Contributed(feeds', links', mode, true)
  {}

  /** A feed without rows contributes nothing, however it is linked. */
  lemma EmptyFeedAddsNothing(feeds: map<Id, Feed>, links: map<Link, bool>, f: Id, enabled: bool,
                             links': map<Link, bool>, m: Id, x: bool)
    requires f !in feeds && forall k :: k in links ==> k.feed in feeds
    requires forall k :: k in links ==> k in links' && links'[k] == links[k]
    requires forall k :: k in links' && k !in links ==> k.feed == f
    ensures Contributed(feeds[f := Feed(enabled, {})], links', m, x) == Contributed(feeds, links, m, x)
  {
    var feeds' := feeds[f := Feed(enabled, {})];
    forall e ensures e in Contributed(feeds', links', m, x) <==> e in Contributed(feeds, links, m, x) {
      if e in Contributed(feeds', links', m, x) {
        var k :| k in links' && k.mode == m && links'[k] == x && k.feed in feeds' && feeds'[k.feed].enabled &&
          e in feeds'[k.feed].entries;
        assert k.feed != f && k in links && feeds'[k.feed] == feeds[k.feed];
      }
      if e in Contributed(feeds, links, m, x) {
        var k :| k in links && k.mode == m && links[k] == x && k.feed in feeds && feeds[k.feed].enabled &&
          e in feeds[k.feed].entries;
        assert k in links' && k.feed != f && feeds'[k.feed] == feeds[k.feed];
      }
    }
  }

  datatype ModeLink = ModeLink(feed: Id, exclude: bool)

  class Catalog {
    var modes: set<Id>
    var feeds: map<Id, Feed>
    var links: map<Link, bool>
    var view: map<Id, set<Entry>>

    function ViewOf(m: Id): set<Entry>
      reads this`view
    {
      if m in view then view[m] else {}
    }

    /** A mode's stored rows are its merge. */
    ghost predicate Fresh(m: Id)
      reads this
    {
      IsMerge(ViewOf(m), Contributed(feeds, links, m, false), SpaceOf(Contributed(feeds, links, m, true)))
    }

    /** Links name existing modes and feeds, and no view is stale. */
    ghost predicate Valid()
      reads this
    {
      (forall k :: k in links ==> k.mode in modes && k.feed in feeds) && forall m :: Fresh(m)
    }

    /** Whatever writes led here, every mode announces, service by service, exactly
        what its enabled include feeds have and none of its enabled exclude feeds has. */
    lemma ValidServes(m: Id)
      requires Valid()
      ensures Serves(ViewOf(m), feeds, links, m)
    {
      assert Fresh(m);
      MergeServes(ViewOf(m), feeds, links, m);
    }

    constructor ()
      ensures Valid() && modes == {} && feeds == map[] && links == map[] && view == map[]
    {
      modes, feeds, links, view := {}, map[], map[], map[];
    }

    // ----- rebuilding -----

    method Rebuild(m: Id)
      modifies this`view
      ensures m in view && view == old(view)[m := view[m]] && Fresh(m)
    {
      var rows := Merge(feeds, links, m);
      view := view[m := rows];
    }

    /** Rebuilds the given modes; the others must be up to date already. */
    method RebuildAll(ms: set<Id>)
      requires forall m :: m !in ms ==> Fresh(m)
      modifies this`view
      ensures forall m :: Fresh(m)
    {
      var left := ms;
      while left != {}
        invariant forall m :: m !in left ==> Fresh(m)
        decreases |left|
      {
        var m :| m in left;
        label Before:
        Rebuild(m);
        forall n | n !in left ensures Fresh(n) { assert old@Before(Fresh(n)); }
        left := left - {m};
      }
    }

    /** The modes a feed is linked to, in either role. */
    function ModesOf(f: Id): set<Id>
      reads this`links
    {
      set k | k in links && k.feed == f :: k.mode
    }

    // ----- writes on a feed's rows -----

    /** After a change to one feed, only the modes linked to it can be stale. */
    twostate lemma OthersFresh(f: Id)
      requires old(Valid()) && links == old(links) && view == old(view)
      requires forall g :: g != f ==> AgreeAt(old(feeds), feeds, g)
      ensures forall m :: m !in ModesOf(f) ==> Fresh(m)
    {
      forall m | m !in ModesOf(f) ensures Fresh(m) {
        assert old(Fresh(m));
        assert Link(m, f) !in links;
        OnlyOwnLinks(old(feeds), old(links), feeds, links, m);
      }
    }

    /** A finished sync replaces the feed's rows, unless the feed was changed or
        disabled in the meantime. */
    method SyncFeed(f: Id, entries: set<Entry>, current: bool) returns (ok: bool)
      requires Valid()
      modifies this`feeds, this`view
      ensures Valid()
      ensures ok <==> f in old(feeds) && current && old(feeds)[f].enabled
      ensures feeds == if ok then old(feeds)[f := Feed(true, entries)] else old(feeds)
    {
      if f !in feeds || !current || !feeds[f].enabled {
        return false;
      }
      feeds := feeds[f := Feed(true, entries)];
      OthersFresh(f);
      RebuildAll(ModesOf(f));
      ok := true;
    }

    /** Adds rows to a feed. */
    method InsertEntries(f: Id, entries: set<Entry>) returns (ok: bool)
      requires Valid()
      modifies this`feeds, this`view
      ensures Valid() && ok == (f in old(feeds))
      ensures feeds == if ok then old(feeds)[f := old(feeds)[f].(entries := old(feeds)[f].entries + entries)]
              else old(feeds)
    {
      if f !in feeds {
        return false;
      }
      feeds := feeds[f := feeds[f].(entries := feeds[f].entries + entries)];
      OthersFresh(f);
      RebuildAll(ModesOf(f));
      ok := true;
    }

    /** Changes a feed's settings; anything but its enabled flag drops its rows. */
    method UpdateFeed(f: Id, enabled: bool, reconfigured: bool) returns (ok: bool)
      requires Valid()
      modifies this`feeds, this`view
      ensures Valid() && ok == (f in old(feeds))
      ensures feeds == if ok then old(feeds)[f := Feed(enabled, if reconfigured then {} else old(feeds)[f].entries)]
              else old(feeds)
    {
      if f !in feeds {
        return false;
      }
      feeds := feeds[f := feeds[f].(enabled := enabled)];
      if reconfigured {
        feeds := feeds[f := feeds[f].(entries := {})];
      }
      OthersFresh(f);
      RebuildAll(ModesOf(f));
      ok := true;
    }

    // ----- writes on feeds and links -----

    /** Adds a feed, linked to a mode if one is given. Nothing is rebuilt. */
    method AddFeedWithMode(f: Id, enabled: bool, mode: Id) returns (ok: bool)
      requires Valid() && f !in feeds
      modifies this`feeds, this`links
      ensures Valid() && ok == (mode == 0 || mode in modes)
      ensures feeds == if ok then old(feeds)[f := Feed(enabled, {})] else old(feeds)
      ensures links == if ok && mode != 0 then old(links)[Link(mode, f) := false] else old(links)
    {
      if mode != 0 && mode !in modes {
        return false;
      }
      feeds := feeds[f := Feed(enabled, {})];
      if mode > 0 {
        links := links[Link(mode, f) := false];
      }
      forall m ensures Fresh(m) {
        assert old(Fresh(m));
        EmptyFeedAddsNothing(old(feeds), old(links), f, enabled, links, m, false);
        EmptyFeedAddsNothing(old(feeds), old(links), f, enabled, links, m, true);
      }
      ok := true;
    }

    /** Deletes a feed with its rows and links, then rebuilds the modes it was in. */
    method DeleteFeed(f: Id) returns (ok: bool)
      requires Valid()
      modifies this`feeds, this`links, this`view
      ensures Valid() && ok == (f in old(feeds))
      ensures feeds == old(feeds) - {f}
      ensures links == if ok then map k | k in old(links) && k.feed != f :: old(links)[k] else old(links)
    {
      if f !in feeds {
        assert feeds - {f} == feeds;
        return false;
      }
      var affected := ModesOf(f);
      feeds := feeds - {f};
      links := map k | k in links && k.feed != f :: links[k];
      forall m | m !in affected ensures Fresh(m) {
        assert old(Fresh(m)) && Link(m, f) !in old(links);
        OnlyOwnLinks(old(feeds), old(links), feeds, links, m);
      }
      RebuildAll(affected);
      ok := true;
    }

    /** After a change to one mode's links, only that mode can be stale. */
    twostate lemma OtherModesFresh(m: Id)
      requires old(Valid()) && feeds == old(feeds) && view == old(view)
      requires forall k: Link :: k.mode != m ==> (k in links <==> k in old(links))
      requires forall k: Link :: k.mode != m && k in links ==> links[k] == old(links)[k]
      ensures forall n :: n != m ==> Fresh(n)
    {
      forall n | n != m ensures Fresh(n) {
        assert old(Fresh(n));
        OnlyOwnLinks(old(feeds), old(links), feeds, links, n);
      }
    }

    /** Links a feed to a mode, or changes its role there. */
    method AddFeedToMode(m: Id, f: Id, exclude: bool) returns (ok: bool)
      requires Valid()
      modifies this`links, this`view
      ensures Valid() && ok == (m in modes && f in feeds)
      ensures links == if ok then old(links)[Link(m, f) := exclude] else old(links)
    {
      if m !in modes || f !in feeds {
        return false;
      }
      links := links[Link(m, f) := exclude];
      OtherModesFresh(m);
      RebuildAll({m});
      ok := true;
    }

    method RemoveFeedFromMode(m: Id, f: Id) returns (ok: bool)
      requires Valid()
      modifies this`links, this`view
      ensures Valid() && ok == (Link(m, f) in old(links))
      ensures links == old(links) - {Link(m, f)}
    {
      if Link(m, f) !in links {
        assert links - {Link(m, f)} == links;
        return false;
      }
      links := links - {Link(m, f)};
      OtherModesFresh(m);
      RebuildAll({m});
      ok := true;
    }

    /** Replaces a mode's membership; an unknown or repeated feed undoes it all. */
    method ReplaceModeFeeds(m: Id, wanted: seq<ModeLink>) returns (ok: bool)
      requires Valid()
      modifies this`links, this`view
      ensures Valid() && (!ok ==> links == old(links) && view == old(view))
      ensures ok <==> Linkable(m, wanted, modes, feeds.Keys)
      ensures ok ==> links == WithoutMode(old(links), m) + LinksOf(m, wanted)
    {
      var kept, added, i := map k | k in links && k.mode != m :: links[k], map[], 0;
      ok := true;
      while i < |wanted|
        modifies {}
        invariant i <= |wanted| && added == LinksOf(m, wanted[..i]) && Linkable(m, wanted[..i], modes, feeds.Keys)
      {
        assert wanted[..i + 1][..i] == wanted[..i];
        LinkablePrefix(m, wanted, i + 1, modes, feeds.Keys);
        var link := wanted[i];
        if link.feed > 0 {
          if m !in modes || link.feed !in feeds || Link(m, link.feed) in added {
            assert !Linkable(m, wanted[..i + 1], modes, feeds.Keys);
            return false;
          }
          added := added[Link(m, link.feed) := link.exclude];
        }
        i := i + 1;
      }
      assert wanted[..|wanted|] == wanted;
      LinksOfMode(m, wanted, modes, feeds.Keys);
      links := kept + added;
      assert forall k: Link :: k.mode != m ==> k !in added;
      OtherModesFresh(m);
      RebuildAll({m});
    }

    /** A new mode starts without links and rows. */
    method AddMode(m: Id)
      requires Valid() && m !in modes
      modifies this`modes
      ensures Valid() && modes == old(modes) + {m}
    {
      modes := modes + {m};
      forall n ensures Fresh(n) { assert old(Fresh(n)); }
    }

    /** Deleting a mode takes its links and rows along. */
    method DeleteMode(m: Id) returns (ok: bool)
      requires Valid()
      modifies this`modes, this`links, this`view
      ensures Valid() && ok == (m > 3 && m in old(modes))
      ensures modes == (if ok then old(modes) - {m} else old(modes)) &&
              links == (if ok then WithoutMode(old(links), m) else old(links))
    {
      if m <= 3 || m !in modes {
        return false;
      }
      modes := modes - {m};
      links := map k | k in links && k.mode != m :: links[k];
      OtherModesFresh(m);
      view := view - {m};
      forall n ensures Fresh(n) {
        if n == m {
          assert Contributed(feeds, links, m, false) == {};
        } else {
          OnlyOwnLinks(old(feeds), old(links), feeds, links, n);
          assert old(Fresh(n));
        }
      }
      ok := true;
    }
  }

  function WithoutMode(links: map<Link, bool>, m: Id): map<Link, bool> { map k | k in links && k.mode != m :: links[k] }

  /** The links a membership list asks for; entries without a feed are ignored. */
  function LinksOf(m: Id, wanted: seq<ModeLink>): map<Link, bool> {
    if wanted == [] then map[]
    else
      var last := wanted[|wanted| - 1];
      if last.feed == 0 then LinksOf(m, wanted[..|wanted| - 1])
      else LinksOf(m, wanted[..|wanted| - 1])[Link(m, last.feed) := last.exclude]
  }

  predicate Linkable(m: Id, wanted: seq<ModeLink>, modes: set<Id>, feeds: set<Id>) {
    wanted == [] ||
    var front, last := wanted[..|wanted| - 1], wanted[|wanted| - 1];
    Linkable(m, front, modes, feeds) &&
    (last.feed == 0 || (m in modes && last.feed in feeds && Link(m, last.feed) !in LinksOf(m, front)))
  }

  lemma {:induction false} LinkablePrefix(m: Id, wanted: seq<ModeLink>, n: nat, modes: set<Id>, feeds: set<Id>)
    requires n <= |wanted|
    ensures Linkable(m, wanted, modes, feeds) ==> Linkable(m, wanted[..n], modes, feeds)
  {
    if n < |wanted| {
      LinkablePrefix(m, wanted[..|wanted| - 1], n, modes, feeds);
      assert wanted[..|wanted| - 1][..n] == wanted[..n];
    } else {
      assert wanted[..n] == wanted;
    }
  }

  lemma {:induction false} LinksOfMode(m: Id, wanted: seq<ModeLink>, modes: set<Id>, feeds: set<Id>)
    requires Linkable(m, wanted, modes, feeds)
    ensures forall k :: k in LinksOf(m, wanted) ==> k.mode == m && m in modes && k.feed in feeds
  {
    if wanted != [] { LinksOfMode(m, wanted[..|wanted| - 1], modes, feeds); }
  }

  predicate NoRepeat(wanted: seq<ModeLink>) {
    forall i, j :: 0 <= i < j < |wanted| && wanted[i].feed != 0 ==> wanted[i].feed != wanted[j].feed
  }

  /** A membership list is accepted exactly when it names existing feeds, each once,
      for an existing mode; entries without a feed do not count. */
  lemma {:induction false} LinkableIff(m: Id, wanted: seq<ModeLink>, modes: set<Id>, feeds: set<Id>)
    ensures Linkable(m, wanted, modes, feeds) <==>
              NoRepeat(wanted) && forall w :: w in wanted && w.feed != 0 ==> m in modes && w.feed in feeds
  {
    if wanted != [] {
      var front, last := wanted[..|wanted| - 1], wanted[|wanted| - 1];
      LinkableIff(m, front, modes, feeds);
      assert wanted == front + [last] && last in wanted;
      LinkedIff(m, front, last.feed);
    }
  }

  lemma {:induction false} LinkedIff(m: Id, wanted: seq<ModeLink>, f: Id)
    ensures Link(m, f) in LinksOf(m, wanted) <==> f != 0 && exists w :: w in wanted && w.feed == f
  {
    if wanted != [] {
      var front, last := wanted[..|wanted| - 1], wanted[|wanted| - 1];
      LinkedIff(m, front, f);
      assert wanted == front + [last];
    }
  }

  /** Each feed of an accepted list is linked in the role the list gives it. */
  lemma {:induction false} LinkedAs(m: Id, wanted: seq<ModeLink>, w: ModeLink)
    requires NoRepeat(wanted) && w in wanted && w.feed != 0
    ensures Link(m, w.feed) in LinksOf(m, wanted) && LinksOf(m, wanted)[Link(m, w.feed)] == w.exclude
  {
    var front, last := wanted[..|wanted| - 1], wanted[|wanted| - 1];
    if w != last {
      var i :| 0 <= i < |wanted| && wanted[i] == w;
      assert front[i] == w && wanted[i].feed != wanted[|front|].feed;
      LinkedAs(m, front, w);
    }
  }
}
