/** The reader object: it splits the fetched rows once, finds the first change
    after a sync by binary search, and remembers what it has answered. */
module HistoryReader {
  import opened History
  import opened Wrappers

  /** Changes in the order the trail gives them. */
  predicate Stamped(n: nat, at: nat -> (int, nat)) {
    forall i, j :: 0 <= i < j < n ==> StampBefore(at(i), at(j))
  }

  predicate StampBefore(a: (int, nat), b: (int, nat)) { a.0 < b.0 || (a.0 == b.0 && a.1 <= b.1) }

  /** The first change after the point. */
  method StartIndex(n: nat, at: nat -> (int, nat), p: Point) returns (i: nat)
    requires Stamped(n, at)
    ensures i <= n
    ensures forall k :: 0 <= k < n ==> (IsAfter(at(k).0, at(k).1, p) <==> i <= k)
  {
    i := 0;
    var j := n;
    while i < j
      invariant i <= j <= n
      invariant forall k :: 0 <= k < i ==> !IsAfter(at(k).0, at(k).1, p)
      invariant forall k :: j <= k < n ==> IsAfter(at(k).0, at(k).1, p)
    {
      var h := (i + j) / 2;
      if IsAfter(at(h).0, at(h).1, p) {
        forall k | h <= k < n ensures IsAfter(at(k).0, at(k).1, p) { assert h < k ==> StampBefore(at(h), at(k)); }
        j := h;
      } else {
        forall k | 0 <= k <= h ensures !IsAfter(at(k).0, at(k).1, p) { assert k < h ==> StampBefore(at(k), at(h)); }
        i := h + 1;
      }
    }
  }

  function ModeStamps(ms: seq<ModeChange>): nat -> (int, nat) {
    (i: nat) => if i < |ms| then (ms[i].at, ms[i].id) else (0, 0)
  }

  function SelectionStamps(cs: seq<SelectionChange>): nat -> (int, nat) {
    (i: nat) => if i < |cs| then (cs[i].at, cs[i].id) else (0, 0)
  }

  lemma {:induction false} ModeAnswerAt(ms: seq<ModeChange>, p: Point, current: nat, i: nat)
    requires i <= |ms| && forall k :: 0 <= k < |ms| ==> (IsAfter(ms[k].at, ms[k].id, p) <==> i <= k)
    ensures ModeAnswer(ms, p, current) ==
      if i == |ms| then Some(current)
      else if (!p.hasSeq && ms[i].at == p.at) || !ms[i].known then None else Some(ms[i].before)
  {
    if i > 0 { ModeAnswerAt(ms[1..], p, current, i - 1); }
  }

  lemma {:induction false} SelectionAnswerFrom(cs: seq<SelectionChange>, p: Point, mode: nat, current: Selection,
                                               i: nat)
    requires i <= |cs| && forall k :: 0 <= k < i ==> !IsAfter(cs[k].at, cs[k].id, p)
    ensures SelectionAnswer(cs, p, mode, current) == SelectionAnswer(cs[i..], p, mode, current)
  {
    if i > 0 {
      SelectionAnswerFrom(cs[1..], p, mode, current, i - 1);
      assert cs[1..][i - 1..] == cs[i..];
    } else {
      assert cs[0..] == cs;
    }
  }

  // ----- the split keeps the order -----

  predicate RowsInOrder(rows: seq<Row>) {
    forall i, j :: 0 <= i < j < |rows| ==> rows[i].id < rows[j].id && rows[i].at <= rows[j].at
  }

  lemma {:induction false} ModesNext(rows: seq<Row>, i: nat)
    requires i < |rows|
    ensures Modes(rows[..i + 1]) == Modes(rows[..i]) + if rows[i].ModeRow? then [ReadMode(rows[i])] else []
  {
    var last := if rows[i].ModeRow? then [ReadMode(rows[i])] else [];
    if i == 0 {
      assert rows[..1][1..] == [];
    } else {
      ModesNext(rows[1..], i - 1);
      assert rows[..i + 1][1..] == rows[1..][..i] && rows[..i][1..] == rows[1..][..i - 1];
      var first := if rows[0].ModeRow? then [ReadMode(rows[0])] else [];
      assert first + (Modes(rows[1..][..i - 1]) + last) == first + Modes(rows[1..][..i - 1]) + last;
    }
  }

  lemma {:induction false} SelectionsNext(rows: seq<Row>, i: nat)
    requires i < |rows|
    ensures Selections(rows[..i + 1]) ==
            Selections(rows[..i]) + if rows[i].SelectionRow? then [ReadSelection(rows[i])] else []
  {
    var last := if rows[i].SelectionRow? then [ReadSelection(rows[i])] else [];
    if i == 0 {
      assert rows[..1][1..] == [];
    } else {
      SelectionsNext(rows[1..], i - 1);
      assert rows[..i + 1][1..] == rows[1..][..i] && rows[..i][1..] == rows[1..][..i - 1];
      var first := if rows[0].SelectionRow? then [ReadSelection(rows[0])] else [];
      assert first + (Selections(rows[1..][..i - 1]) + last) == first + Selections(rows[1..][..i - 1]) + last;
    }
  }

  predicate From(id: nat, at: int, rows: seq<Row>) {
    exists i :: 0 <= i < |rows| && rows[i].id == id && rows[i].at == at
  }

  lemma {:induction false} ModesFrom(rows: seq<Row>, k: nat)
    requires k < |Modes(rows)|
    ensures From(Modes(rows)[k].id, Modes(rows)[k].at, rows)
  {
    var first := if rows[0].ModeRow? then 1 else 0;
    if k >= first {
      ModesFrom(rows[1..], k - first);
      var i :| 0 <= i < |rows[1..]| && rows[1..][i].id == Modes(rows[1..])[k - first].id &&
        rows[1..][i].at == Modes(rows[1..])[k - first].at;
      assert rows[i + 1] == rows[1..][i];
    }
  }

  lemma {:induction false} SelectionsFrom(rows: seq<Row>, k: nat)
    requires k < |Selections(rows)|
    ensures From(Selections(rows)[k].id, Selections(rows)[k].at, rows)
  {
    var first := if rows[0].SelectionRow? then 1 else 0;
    if k >= first {
      SelectionsFrom(rows[1..], k - first);
      var i :| 0 <= i < |rows[1..]| && rows[1..][i].id == Selections(rows[1..])[k - first].id &&
        rows[1..][i].at == Selections(rows[1..])[k - first].at;
      assert rows[i + 1] == rows[1..][i];
    }
  }

  lemma {:induction false} ModesStamped(rows: seq<Row>)
    requires RowsInOrder(rows)
    ensures Stamped(|Modes(rows)|, ModeStamps(Modes(rows)))
  {
    if rows != [] {
      ModesStamped(rows[1..]);
      var ms, at, first := Modes(rows), ModeStamps(Modes(rows)), if rows[0].ModeRow? then 1 else 0;
      forall i, j | 0 <= i < j < |ms| ensures StampBefore(at(i), at(j)) {
        ModesFrom(rows[1..], j - first);
        if i >= first {
          assert StampBefore(ModeStamps(Modes(rows[1..]))(i - first), ModeStamps(Modes(rows[1..]))(j - first));
        }
      }
    }
  }

  lemma {:induction false} SelectionsStamped(rows: seq<Row>)
    requires RowsInOrder(rows)
    ensures Stamped(|Selections(rows)|, SelectionStamps(Selections(rows)))
  {
    if rows != [] {
      SelectionsStamped(rows[1..]);
      var cs, at, first := Selections(rows), SelectionStamps(Selections(rows)), if rows[0].SelectionRow? then 1 else 0;
      forall i, j | 0 <= i < j < |cs| ensures StampBefore(at(i), at(j)) {
        SelectionsFrom(rows[1..], j - first);
        if i >= first {
          assert StampBefore(SelectionStamps(Selections(rows[1..]))(i - first),
                 SelectionStamps(Selections(rows[1..]))(j - first));
        }
      }
    }
  }

  /** What the query returns for a reachable trail is in order. */
  lemma FetchedInOrder(s: State, since: int, maxRows: nat)
    requires Inv(s) && since >= s.complete
    ensures var rows := Fetched(Trail(s), since, s.floor, maxRows);
            RowsInOrder(rows) && forall i :: 0 <= i < |rows| ==> rows[i].id > 0
  {
    var c := FetchedIsSuffix(s, since, maxRows);
  }

  /** Splits the rows by kind and finds the oldest. */
  method SplitRows(rows: seq<Row>) returns (modes: seq<ModeChange>, selections: seq<SelectionChange>, oldest: nat)
    requires rows != [] ==> rows[0].id > 0
    requires forall i :: 0 < i < |rows| ==> rows[0].id < rows[i].id
    ensures modes == Modes(rows) && selections == Selections(rows) && oldest == if rows == [] then 0 else rows[0].id
  {
    modes, selections, oldest := [], [], 0;
    for i := 0 to |rows|
      invariant modes == Modes(rows[..i]) && selections == Selections(rows[..i])
      invariant oldest == if i == 0 then 0 else rows[0].id
    {
      ModesNext(rows, i);
      SelectionsNext(rows, i);
      var r := rows[i];
      if oldest == 0 || r.id < oldest {
        oldest := r.id;
      }
      if r.ModeRow? {
        modes := modes + [ReadMode(r)];
      } else {
        selections := selections + [ReadSelection(r)];
      }
    }
    assert rows[..|rows|] == rows;
  }

  class UserHistory {
    const currentMode: nat
    const stored: nat -> Selection
    var horizon: nat
    var modes: seq<ModeChange>
    var selections: seq<SelectionChange>
    var selCache: map<(Point, nat), Option<Selection>>
    var live: map<nat, Selection>

    /** The caches hold only what the rows and the stored selections say. */
    ghost predicate Valid()
      reads this
    {
      Stamped(|modes|, ModeStamps(modes)) && Stamped(|selections|, SelectionStamps(selections)) &&
      (forall k :: k in selCache ==> selCache[k] == SelectionAnswer(selections, k.0, k.1, stored(k.1))) &&
      forall m :: m in live ==> live[m] == stored(m)
    }

    /** A full read sets the horizon to its oldest row. */
    constructor (rows: seq<Row>, maxRows: nat, mode: nat, current: nat -> Selection)
      requires RowsInOrder(rows) && forall i :: 0 <= i < |rows| ==> rows[i].id > 0
      ensures Valid() && currentMode == mode && stored == current
      ensures modes == Modes(rows) && selections == Selections(rows) && horizon == Horizon(rows, maxRows)
    {
      var ms, cs, oldest := SplitRows(rows);
      modes, selections := ms, cs;
      currentMode, stored := mode, current;
      horizon := if |rows| == maxRows then oldest else 0;
      selCache, live := map[], map[];
      new;
      ModesStamped(rows);
      SelectionsStamped(rows);
    }

    method ModeAt(p: Point) returns (mode: Option<nat>)
      requires Valid()
      ensures mode == ModeAnswer(modes, p, currentMode)
    {
      var ms := modes;
      var i := StartIndex(|ms|, ModeStamps(ms), p);
      forall k | 0 <= k < |ms| ensures IsAfter(ms[k].at, ms[k].id, p) <==> i <= k {
        assert ModeStamps(ms)(k) == (ms[k].at, ms[k].id);
      }
      ModeAnswerAt(ms, p, currentMode, i);
      if i == |ms| {
        return Some(currentMode);
      }
      if !p.hasSeq && ms[i].at == p.at {
        return None;
      }
      mode := if ms[i].known then Some(ms[i].before) else None;
    }

    method SelectionAt(p: Point, mode: nat) returns (sel: Option<Selection>)
      requires Valid()
      modifies this`selCache, this`live
      ensures Valid() && sel == SelectionAnswer(selections, p, mode, stored(mode))
    {
      if (p, mode) in selCache {
        return selCache[(p, mode)];
      }
      var found;
      found, sel := SearchChanges(p, mode);
      if !found {
        if mode !in live {
          live := live[mode := stored(mode)];
        }
        sel := Some(live[mode]);
      }
      selCache := selCache[(p, mode) := sel];
    }

    /** The first change after the point that settles the mode's selection. */
    method SearchChanges(p: Point, mode: nat) returns (found: bool, sel: Option<Selection>)
      requires Valid()
      ensures SelectionAnswer(selections, p, mode, stored(mode)) == if found then sel else Some(stored(mode))
    {
      var cs := selections;
      var i := StartIndex(|cs|, SelectionStamps(cs), p);
      forall k | 0 <= k < |cs| ensures IsAfter(cs[k].at, cs[k].id, p) <==> i <= k {
        assert SelectionStamps(cs)(k) == (cs[k].at, cs[k].id);
      }
      SelectionAnswerFrom(cs, p, mode, stored(mode), i);
      while i < |cs|
        invariant i <= |cs| && forall k :: i <= k < |cs| ==> IsAfter(cs[k].at, cs[k].id, p)
        invariant SelectionAnswer(cs, p, mode, stored(mode)) == SelectionAnswer(cs[i..], p, mode, stored(mode))
      {
        var c := cs[i];
        assert cs[i..][1..] == cs[i + 1..];
        if c.legacy && (c.mode == 0 || c.mode == mode) {
          return true, None;
        }
        if c.mode == mode {
          if !p.hasSeq && c.at == p.at {
            return true, None;
          }
          return true, Some(c.before);
        }
        i := i + 1;
      }
      found, sel := false, None;
    }
  }
}
