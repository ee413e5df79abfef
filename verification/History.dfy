/** Rebuilding a user's past mode and selection backwards from the audit trail.

    Every change writes an audit row with the state before it, so the state at an
    earlier moment is the "before" of the first later change, or the current state
    when there is none. Rows can be unreadable, too large to hold names, purged,
    or cut off by the read limit; then the answer must be "unknown". */
module History {
  import opened Wrappers

  datatype Selection = Selection(categories: set<string>, services: set<(string, string)>)

  /** A selection audit value: names, or for a large selection only its mode, or
      the bare counts written by older versions. */
  datatype Payload = Names(mode: nat, sel: Selection) | Bounded(mode: nat) | Counts

  /** Audit rows of one user. `about` is the mode a selection row is about, which
      a reader learns only from a payload that says so. */
  datatype Row =
    | ModeRow(id: nat, at: int, before: Option<nat>)
    | SelectionRow(id: nat, at: int, about: nat, earlier: Payload, later: Payload)

  /** A feed sync's place: its time, and the newest audit row before it if known. */
  datatype Point = Point(at: int, lastId: nat, hasSeq: bool)

  // ----- reading the trail -----

  datatype ModeChange = ModeChange(id: nat, at: int, known: bool, before: nat)

  datatype SelectionChange = SelectionChange(id: nat, at: int, legacy: bool, mode: nat, before: Selection)

  function BoundedMode(earlier: Payload, later: Payload): nat {
    if later.Bounded? then later.mode else if earlier.Bounded? then earlier.mode else 0
  }

  const NOTHING := Selection({}, {})

  function ReadSelection(r: Row): (c: SelectionChange)
    requires r.SelectionRow?
  {
    if r.earlier.Names? && !r.later.Counts? then SelectionChange(r.id, r.at, false, r.later.mode, r.earlier.sel)
    else SelectionChange(r.id, r.at, true, BoundedMode(r.earlier, r.later), NOTHING)
  }

  function ReadMode(r: Row): (c: ModeChange)
    requires r.ModeRow?
  {
    ModeChange(r.id, r.at, r.before.Some?, if r.before.Some? then r.before.value else 0)
  }

  function Modes(rows: seq<Row>): (ms: seq<ModeChange>) {
    if rows == [] then [] else (if rows[0].ModeRow? then [ReadMode(rows[0])] else []) + Modes(rows[1..])
  }

  function Selections(rows: seq<Row>): (cs: seq<SelectionChange>) {
    if rows == [] then [] else (if rows[0].SelectionRow? then [ReadSelection(rows[0])] else []) + Selections(rows[1..])
  }

  function Wanted(rows: seq<Row>, since: int, floor: nat): (r: seq<Row>) {
    if rows == [] then []
    else (if rows[0].at >= since && rows[0].id > floor then [rows[0]] else []) + Wanted(rows[1..], since, floor)
  }

  /** The newest rows of the wanted ones, oldest first. */
  function Fetched(rows: seq<Row>, since: int, floor: nat, maxRows: nat): (r: seq<Row>) {
    var wanted := Wanted(rows, since, floor);
    if |wanted| <= maxRows then wanted else wanted[|wanted| - maxRows..]
  }

  /** The oldest row read, when the read may have been cut short. */
  function Horizon(fetched: seq<Row>, maxRows: nat): nat {
    if |fetched| == maxRows && fetched != [] then fetched[0].id else 0
  }

  predicate IsAfter(at: int, id: nat, p: Point) {
    if p.hasSeq then at > p.at || (at == p.at && id > p.lastId) else at >= p.at
  }

  /** The mode at a point; none when it cannot be known. */
  function ModeAnswer(ms: seq<ModeChange>, p: Point, current: nat): Option<nat> {
    if ms == [] then Some(current)
    else if !IsAfter(ms[0].at, ms[0].id, p) then ModeAnswer(ms[1..], p, current)
    else if (!p.hasSeq && ms[0].at == p.at) || !ms[0].known then None
    else Some(ms[0].before)
  }

  /** The selection in a mode at a point; none when it cannot be known. */
  function SelectionAnswer(cs: seq<SelectionChange>, p: Point, mode: nat, current: Selection): Option<Selection> {
    if cs == [] then Some(current)
    else if !IsAfter(cs[0].at, cs[0].id, p) then SelectionAnswer(cs[1..], p, mode, current)
    else if cs[0].legacy && (cs[0].mode == 0 || cs[0].mode == mode) then None
    else if cs[0].mode != mode then SelectionAnswer(cs[1..], p, mode, current)
    else if !p.hasSeq && cs[0].at == p.at then None
    else Some(cs[0].before)
  }

  // ----- what really happened -----

  datatype Snap = Snap(mode: nat, sel: map<nat, Selection>)

  function SelOf(s: Snap, mode: nat): Selection { if mode in s.sel then s.sel[mode] else NOTHING }

  /** What a row's payload may say about a selection. */
  predicate Tells(p: Payload, mode: nat, sel: Selection) {
    match p
    case Names(m, s) => m == mode && s == sel
    case Bounded(m) => m == mode
    case Counts => true
  }

  ghost predicate RowOk(pre: Snap, r: Row, post: Snap) {
    match r
    case ModeRow(_, _, before) => (before.Some? ==> before.value == pre.mode) && post.sel == pre.sel
    case SelectionRow(_, _, about, earlier, later) =>
      about > 0 && post.mode == pre.mode && (forall m :: m != about ==> SelOf(post, m) == SelOf(pre, m)) &&
      Tells(earlier, about, SelOf(pre, about)) && Tells(later, about, SelOf(post, about))
  }

  /** A row is on the right side of a point as far as the point can tell. */
  predicate Sided(r: Row, p: Point, after: bool) {
    if after then r.at > p.at || (r.at == p.at && (p.hasSeq ==> r.id > p.lastId))
    else r.at < p.at || (r.at == p.at && (p.hasSeq ==> r.id <= p.lastId))
  }

  /** Rows from some moment on, the states between them, and a point among them. */
  ghost predicate Story(rows: seq<Row>, past: seq<Snap>, p: Point, k: nat) {
    |past| == |rows| + 1 && k <= |rows| &&
    (forall i :: 0 <= i < |rows| ==> RowOk(past[i], rows[i], past[i + 1])) &&
    (forall i :: 0 <= i < |rows| ==> Sided(rows[i], p, i >= k))
  }

  lemma StoryTail(rows: seq<Row>, past: seq<Snap>, p: Point, k: nat)
    requires Story(rows, past, p, k) && rows != []
    ensures Story(rows[1..], past[1..], p, if k > 0 then k - 1 else 0)
  {
    forall i | 0 <= i < |rows[1..]| ensures RowOk(past[1..][i], rows[1..][i], past[1..][i + 1]) {
      assert RowOk(past[i + 1], rows[i + 1], past[i + 2]);
    }
    forall i | 0 <= i < |rows[1..]| ensures Sided(rows[1..][i], p, i >= if k > 0 then k - 1 else 0) {
      assert Sided(rows[i + 1], p, i + 1 >= k);
    }
  }

  /** A known mode is the mode the user had. */
  lemma {:induction false} ModeCorrect(rows: seq<Row>, past: seq<Snap>, p: Point, k: nat)
    requires Story(rows, past, p, k)
    ensures var answer := ModeAnswer(Modes(rows), p, past[|rows|].mode);
            answer.Some? ==> answer.value == past[k].mode
  {
    if rows != [] {
      StoryTail(rows, past, p, k);
      ModeCorrect(rows[1..], past[1..], p, if k > 0 then k - 1 else 0);
      assert Sided(rows[0], p, 0 >= k) && RowOk(past[0], rows[0], past[1]);
      if rows[0].ModeRow? {
        assert Modes(rows)[1..] == Modes(rows[1..]);
      } else {
        assert Modes(rows) == Modes(rows[1..]);
      }
    }
  }

  /** A known selection is the selection the user had in that mode. */
  lemma {:induction false} SelectionCorrect(rows: seq<Row>, past: seq<Snap>, p: Point, k: nat, mode: nat)
    requires Story(rows, past, p, k) && mode > 0
    ensures var answer := SelectionAnswer(Selections(rows), p, mode, SelOf(past[|rows|], mode));
            answer.Some? ==> answer.value == SelOf(past[k], mode)
  {
    if rows != [] {
      StoryTail(rows, past, p, k);
      SelectionCorrect(rows[1..], past[1..], p, if k > 0 then k - 1 else 0, mode);
      assert Sided(rows[0], p, 0 >= k) && RowOk(past[0], rows[0], past[1]);
      if rows[0].SelectionRow? {
        assert Selections(rows)[1..] == Selections(rows[1..]);
      } else {
        assert Selections(rows) == Selections(rows[1..]);
      }
    }
  }

  // ----- runs -----

  /** A recorded sync: the point stored with it, the audit sequence at that moment
      and how many of the user's rows were written before it. */
  datatype Sync = Sync(point: Point, lastId: nat, rows: nat)

  /** The user now; the rows of an earlier holder of the same ID; this user's rows
      and the states between them; the audit sequence, clock and history floor;
      the boundary before which audit rows may have been purged; the syncs. */
  datatype State = State(now: Snap, older: seq<Row>, rows: seq<Row>, past: seq<Snap>, issued: nat, clock: int,
                         floor: nat, complete: int, syncs: seq<Sync>)

  datatype Event =
    | SwitchMode(at: int, to: nat, readable: bool)
    | Select(at: int, mode: nat, sel: Selection, earlier: Payload, later: Payload)
    | OtherAudit
    | RecordSync(at: int, hasSeq: bool)
    | Purge(cutoff: int)

  predicate Enabled(s: State, e: Event) {
    match e
    case SwitchMode(at, _, _) => at >= s.clock
    case Select(at, mode, sel, earlier, later) =>
      at >= s.clock && mode > 0 && Tells(earlier, mode, SelOf(s.now, mode)) && Tells(later, mode, sel)
    case OtherAudit => true
    case RecordSync(at, _) => at >= s.clock
    case Purge(_) => true
  }

  function Wrote(s: State, r: Row, now: Snap): State {
    s.(now := now, rows := s.rows + [r], past := s.past + [now], issued := s.issued + 1, clock := r.at)
  }

  /** A change that changes nothing writes no row. */
  function Step(s: State, e: Event): State {
    match e
    case SwitchMode(at, to, readable) =>
      if to == s.now.mode then s
      else Wrote(s, ModeRow(s.issued + 1, at, if readable then Some(s.now.mode) else None), s.now.(mode := to))
    case Select(at, mode, sel, earlier, later) =>
      if sel == SelOf(s.now, mode) then s
      else Wrote(s, SelectionRow(s.issued + 1, at, mode, earlier, later), s.now.(sel := s.now.sel[mode := sel]))
    case OtherAudit => s.(issued := s.issued + 1)
    case RecordSync(at, hasSeq) =>
      s.(clock := at, syncs := s.syncs + [Sync(Point(at, if hasSeq then s.issued else 0, hasSeq), s.issued, |s.rows|)])
    case Purge(cutoff) => s.(complete := if cutoff > s.complete then cutoff else s.complete)
  }

  ghost predicate Run(s: State, es: seq<Event>, t: State)
    decreases |es|
  {
    if es == [] then s == t else Enabled(s, es[0]) && Run(Step(s, es[0]), es[1..], t)
  }

  /** The audit rows still stored. */
  function Trail(s: State): seq<Row> { Wanted(s.older, s.complete, 0) + Wanted(s.rows, s.complete, 0) }

  predicate RowsOrdered(rows: seq<Row>, floor: nat, issued: nat, clock: int) {
    (forall i :: 0 <= i < |rows| ==> floor < rows[i].id <= issued && rows[i].at <= clock) &&
    forall i, j :: 0 <= i < j < |rows| ==> rows[i].id < rows[j].id && rows[i].at <= rows[j].at
  }

  predicate SyncPlaced(y: Sync, rows: seq<Row>) {
    y.rows <= |rows| && (y.point.hasSeq ==> y.point.lastId == y.lastId) &&
    (forall i :: 0 <= i < y.rows ==> rows[i].id <= y.lastId && rows[i].at <= y.point.at) &&
    forall i :: y.rows <= i < |rows| ==> rows[i].id > y.lastId && rows[i].at >= y.point.at
  }

  ghost predicate RowsTold(past: seq<Snap>, rows: seq<Row>) {
    |past| == |rows| + 1 && forall i :: 0 <= i < |rows| ==> RowOk(past[i], rows[i], past[i + 1])
  }

  predicate SyncsPlaced(syncs: seq<Sync>, rows: seq<Row>, issued: nat, clock: int) {
    forall y :: y in syncs ==> SyncPlaced(y, rows) && y.lastId <= issued && y.point.at <= clock
  }

  ghost predicate Inv(s: State) {
    (forall i :: 0 <= i < |s.older| ==> s.older[i].id <= s.floor) && s.floor <= s.issued &&
    RowsOrdered(s.rows, s.floor, s.issued, s.clock) &&
    RowsTold(s.past, s.rows) && s.past[|s.rows|] == s.now &&
    SyncsPlaced(s.syncs, s.rows, s.issued, s.clock)
  }

  lemma WroteKeepsInv(s: State, r: Row, now: Snap)
    requires Inv(s) && r.id == s.issued + 1 && r.at >= s.clock && RowOk(s.now, r, now)
    ensures Inv(Wrote(s, r, now))
  {
    var t := Wrote(s, r, now);
    RowsToldNext(s.past, s.rows, r, now);
    forall y | y in t.syncs ensures SyncPlaced(y, t.rows) { assert SyncPlaced(y, s.rows); }
  }

  lemma RowsToldNext(past: seq<Snap>, rows: seq<Row>, r: Row, now: Snap)
    requires RowsTold(past, rows) && RowOk(past[|rows|], r, now)
    ensures RowsTold(past + [now], rows + [r])
  {
    forall i | 0 <= i < |rows + [r]| ensures RowOk((past + [now])[i], (rows + [r])[i], (past + [now])[i + 1]) {
      if i < |rows| { assert RowOk(past[i], rows[i], past[i + 1]); }
    }
  }

  lemma SyncKeepsInv(s: State, at: int, hasSeq: bool)
    requires Inv(s) && at >= s.clock
    ensures Inv(Step(s, RecordSync(at, hasSeq)))
  {
    var t := Step(s, RecordSync(at, hasSeq));
    assert SyncPlaced(Sync(Point(at, if hasSeq then s.issued else 0, hasSeq), s.issued, |s.rows|), s.rows);
    assert RowsOrdered(t.rows, t.floor, t.issued, t.clock);
  }

  lemma SwitchKeepsInv(s: State, at: int, to: nat, readable: bool)
    requires Inv(s) && at >= s.clock
    ensures Inv(Step(s, SwitchMode(at, to, readable)))
  {
    if to != s.now.mode {
      WroteKeepsInv(s, ModeRow(s.issued + 1, at, if readable then Some(s.now.mode) else None), s.now.(mode := to));
    }
  }

  lemma SelectKeepsInv(s: State, at: int, mode: nat, sel: Selection, earlier: Payload, later: Payload)
    requires Inv(s) && Enabled(s, Select(at, mode, sel, earlier, later))
    ensures Inv(Step(s, Select(at, mode, sel, earlier, later)))
  {
    if sel != SelOf(s.now, mode) {
      WroteKeepsInv(s, SelectionRow(s.issued + 1, at, mode, earlier, later), s.now.(sel := s.now.sel[mode := sel]));
    }
  }

  lemma StepKeepsInv(s: State, e: Event)
    requires Inv(s) && Enabled(s, e)
    ensures Inv(Step(s, e))
  {
    match e
    case SwitchMode(at, to, readable) => SwitchKeepsInv(s, at, to, readable);
    case Select(at, mode, sel, earlier, later) => SelectKeepsInv(s, at, mode, sel, earlier, later);
    case OtherAudit => assert RowsOrdered(s.rows, s.floor, s.issued + 1, s.clock);
    case RecordSync(at, hasSeq) => SyncKeepsInv(s, at, hasSeq);
    case Purge(cutoff) =>
  }

  lemma {:induction false} RunKeepsInv(s: State, es: seq<Event>, t: State)
    requires Inv(s) && Run(s, es, t)
    ensures Inv(t)
    decreases |es|
  {
    if es != [] {
      StepKeepsInv(s, es[0]);
      RunKeepsInv(Step(s, es[0]), es[1..], t);
    }
  }

  /** A user's history starts empty, whatever an earlier holder of the ID left. */
  lemma StartInv(now: Snap, older: seq<Row>, floor: nat, clock: int, complete: int)
    requires forall i :: 0 <= i < |older| ==> older[i].id <= floor
    ensures Inv(State(now, older, [], [now], floor, clock, floor, complete, []))
  {}

  predicate Readable(r: Row) { if r.ModeRow? then r.before.Some? else r.earlier.Names? && !r.later.Counts? }

  /** With readable rows and a recorded sequence, nothing is left unknown. */
  lemma {:induction false} ReadableIsKnown(rows: seq<Row>, p: Point, mode: nat, sel: Selection, current: nat)
    requires p.hasSeq && forall i :: 0 <= i < |rows| ==> Readable(rows[i])
    ensures ModeAnswer(Modes(rows), p, current).Some? && SelectionAnswer(Selections(rows), p, mode, sel).Some?
  {
    if rows != [] {
      assert Readable(rows[0]);
      ReadableIsKnown(rows[1..], p, mode, sel, current);
      if rows[0].ModeRow? {
        assert Modes(rows)[1..] == Modes(rows[1..]) && Selections(rows) == Selections(rows[1..]);
      } else {
        assert Selections(rows)[1..] == Selections(rows[1..]) && Modes(rows) == Modes(rows[1..]);
      }
    }
  }

  /** A selection row that may have changed a mode's selection after a point: it is
      about that mode, or it is unreadable and does not say which mode it is about. */
  predicate MayTouch(r: Row, p: Point, mode: nat) {
    r.SelectionRow? && Sided(r, p, true) &&
    match (r.earlier, r.later)
    case (Names(_, _), Names(m, _)) => m == mode
    case (Names(_, _), Bounded(m)) => m == mode
    case (_, Bounded(m)) => m == mode || m == 0
    case (Bounded(m), _) => m == mode || m == 0
    case _ => true
  }

  /** In the sync's own second, without a sequence to order them by. */
  predicate Tied(r: Row, p: Point) { !p.hasSeq && r.at == p.at }

  /** The selection in a mode is known exactly when no row after the point may have
      touched it, or the first that may is readable and not tied with the sync. */
  lemma {:induction false} SelectionKnownIff(rows: seq<Row>, p: Point, mode: nat, current: Selection, i: nat)
    requires i <= |rows| && (forall k :: 0 <= k < i ==> !MayTouch(rows[k], p, mode))
    requires i < |rows| ==> MayTouch(rows[i], p, mode)
    ensures var answer := SelectionAnswer(Selections(rows), p, mode, current);
            if i == |rows| then answer == Some(current)
            else answer == if Readable(rows[i]) && !Tied(rows[i], p) then Some(rows[i].earlier.sel) else None
  {
    if rows != [] {
      if rows[0].SelectionRow? {
        assert Selections(rows)[0] == ReadSelection(rows[0]) && Selections(rows)[1..] == Selections(rows[1..]);
      } else {
        assert Selections(rows) == Selections(rows[1..]);
      }
      if i > 0 {
        assert !MayTouch(rows[0], p, mode);
        SelectionKnownIff(rows[1..], p, mode, current, i - 1);
      }
    }
  }

  predicate SwitchedAfter(r: Row, p: Point) { r.ModeRow? && Sided(r, p, true) }

  /** The mode is known exactly when there is no switch after the point, or the
      first is readable and not tied with the sync. */
  lemma {:induction false} ModeKnownIff(rows: seq<Row>, p: Point, current: nat, i: nat)
    requires i <= |rows| && (forall k :: 0 <= k < i ==> !SwitchedAfter(rows[k], p))
    requires i < |rows| ==> SwitchedAfter(rows[i], p)
    ensures var answer := ModeAnswer(Modes(rows), p, current);
            if i == |rows| then answer == Some(current)
            else answer == if Tied(rows[i], p) then None else rows[i].before
  {
    if rows != [] {
      if rows[0].ModeRow? {
        assert Modes(rows)[0] == ReadMode(rows[0]) && Modes(rows)[1..] == Modes(rows[1..]);
      } else {
        assert Modes(rows) == Modes(rows[1..]);
      }
      if i > 0 {
        assert !SwitchedAfter(rows[0], p);
        ModeKnownIff(rows[1..], p, current, i - 1);
      }
    }
  }

  // ----- the read covers what it must -----

  lemma {:induction false} WantedConcat(a: seq<Row>, b: seq<Row>, since: int, floor: nat)
    ensures Wanted(a + b, since, floor) == Wanted(a, since, floor) + Wanted(b, since, floor)
  {
    if a == [] {
      assert a + b == b;
    } else {
      assert (a + b)[1..] == a[1..] + b;
      WantedConcat(a[1..], b, since, floor);
    }
  }

  /** A purge below the window does not change what is read. */
  lemma {:induction false} WantedTwice(rows: seq<Row>, complete: int, since: int, floor: nat)
    requires since >= complete
    ensures Wanted(Wanted(rows, complete, 0), since, floor) == Wanted(rows, since, floor)
  {
    if rows != [] {
      WantedTwice(rows[1..], complete, since, floor);
      var first := if rows[0].at >= complete && rows[0].id > 0 then [rows[0]] else [];
      WantedConcat(first, Wanted(rows[1..], complete, 0), since, floor);
    }
  }

  lemma {:induction false} NoneWanted(rows: seq<Row>, since: int, floor: nat)
    requires forall i :: 0 <= i < |rows| ==> rows[i].id <= floor || rows[i].at < since
    ensures Wanted(rows, since, floor) == []
  {
    if rows != [] { NoneWanted(rows[1..], since, floor); }
  }

  lemma {:induction false} AllWanted(rows: seq<Row>, since: int, floor: nat)
    requires forall i :: 0 <= i < |rows| ==> rows[i].at >= since && rows[i].id > floor
    ensures Wanted(rows, since, floor) == rows
  {
    if rows != [] { AllWanted(rows[1..], since, floor); }
  }

  lemma WantedSplit(early: seq<Row>, late: seq<Row>, since: int, floor: nat)
    requires forall i :: 0 <= i < |early| ==> early[i].at < since
    requires forall i :: 0 <= i < |late| ==> late[i].at >= since && late[i].id > floor
    ensures Wanted(early + late, since, floor) == late
  {
    WantedConcat(early, late, since, floor);
    NoneWanted(early, since, floor);
    AllWanted(late, since, floor);
    assert [] + late == late;
  }

  /** Rows written in time order: the window starts at some row. */
  lemma WindowStart(rows: seq<Row>, since: int) returns (c: nat)
    requires forall i, j :: 0 <= i < j < |rows| ==> rows[i].at <= rows[j].at
    ensures c <= |rows| && forall i :: 0 <= i < |rows| ==> (rows[i].at < since <==> i < c)
  {
    c := 0;
    while c < |rows| && rows[c].at < since
      invariant c <= |rows| && forall i :: 0 <= i < c ==> rows[i].at < since
    {
      c := c + 1;
    }
  }

  lemma WantedIsSuffix(rows: seq<Row>, since: int, floor: nat, issued: nat, clock: int) returns (c: nat)
    requires RowsOrdered(rows, floor, issued, clock)
    ensures c <= |rows| && Wanted(rows, since, floor) == rows[c..]
    ensures forall i :: 0 <= i < c ==> rows[i].at < since
  {
    c := WindowStart(rows, since);
    assert rows == rows[..c] + rows[c..];
    WantedSplit(rows[..c], rows[c..], since, floor);
  }

  lemma WantedOfTrail(s: State, since: int)
    requires Inv(s) && since >= s.complete
    ensures Wanted(Trail(s), since, s.floor) == Wanted(s.rows, since, s.floor)
  {
    WantedConcat(Wanted(s.older, s.complete, 0), Wanted(s.rows, s.complete, 0), since, s.floor);
    WantedTwice(s.older, s.complete, since, s.floor);
    WantedTwice(s.rows, s.complete, since, s.floor);
    NoneWanted(s.older, since, s.floor);
    var none: seq<Row> := [];
    assert none + Wanted(s.rows, since, s.floor) == Wanted(s.rows, since, s.floor);
  }

  /** The newest rows of a suffix are a suffix. */
  lemma NewestOfSuffix(trail: seq<Row>, rows: seq<Row>, d: nat, since: int, floor: nat, maxRows: nat) returns (c: nat)
    requires d <= |rows| && Wanted(trail, since, floor) == rows[d..]
    ensures d <= c <= |rows| && (c == d || |rows| - c == maxRows) && Fetched(trail, since, floor, maxRows) == rows[c..]
  {
    c := if |rows| - d <= maxRows then d else |rows| - maxRows;
  }

  /** What is read is a suffix of the user's rows: everything in the window, or
      the newest rows of it. */
  lemma FetchedIsSuffix(s: State, since: int, maxRows: nat) returns (c: nat)
    requires Inv(s) && since >= s.complete
    ensures c <= |s.rows| && Fetched(Trail(s), since, s.floor, maxRows) == s.rows[c..]
    ensures (forall i :: 0 <= i < c ==> s.rows[i].at < since) || |s.rows| - c == maxRows
  {
    WantedOfTrail(s, since);
    var d := WantedIsSuffix(s.rows, since, s.floor, s.issued, s.clock);
    c := NewestOfSuffix(Trail(s), s.rows, d, since, s.floor, maxRows);
  }

  /** A sync that can be placed at all: inside the window, not before the user's
      history, and not before the horizon of a read that was cut short. */
  predicate Placeable(y: Sync, since: int, floor: nat, horizon: nat) {
    y.point.at >= since && y.lastId >= floor && (if y.point.hasSeq then y.lastId >= horizon else horizon == 0)
  }

  /** A read that was not full places every sync of the window; a full one places
      those recorded, with their sequence, at or after its oldest row. */
  lemma PlaceableIff(s: State, y: Sync, since: int, maxRows: nat)
    requires Inv(s) && since >= s.complete && maxRows > 0
    ensures var rows := Fetched(Trail(s), since, s.floor, maxRows);
            Placeable(y, since, s.floor, Horizon(rows, maxRows)) <==>
              y.point.at >= since && y.lastId >= s.floor &&
              (|rows| < maxRows || (y.point.hasSeq && rows[0].id <= y.lastId))
  {
    var c := FetchedIsSuffix(s, since, maxRows);
    assert c < |s.rows| ==> s.rows[c..][0] == s.rows[c];
  }

  /** In every state a run can reach, whenever the history reports a mode or a
      selection as known for a sync it can place, that is exactly what the user
      had when the sync was recorded. */
  lemma HistoryRight(s: State, y: Sync, since: int, maxRows: nat, mode: nat)
    requires Inv(s) && y in s.syncs && since >= s.complete && maxRows > 0 && mode > 0
    requires Placeable(y, since, s.floor, Horizon(Fetched(Trail(s), since, s.floor, maxRows), maxRows))
    ensures var rows := Fetched(Trail(s), since, s.floor, maxRows);
            var m, sel := ModeAnswer(Modes(rows), y.point, s.now.mode),
              SelectionAnswer(Selections(rows), y.point, mode, SelOf(s.now, mode));
            (m.Some? ==> m.value == s.past[y.rows].mode) && (sel.Some? ==> sel.value == SelOf(s.past[y.rows], mode))
  {
    var c := FetchedIsSuffix(s, since, maxRows);
    assert SyncPlaced(y, s.rows);
    if y.rows < |s.rows| { assert s.rows[y.rows].at >= since && s.rows[y.rows].id > y.lastId; }
    var rows, past, k := s.rows[c..], s.past[c..], y.rows - c;
    forall i | 0 <= i < |rows| ensures RowOk(past[i], rows[i], past[i + 1]) {
      assert RowOk(s.past[c + i], s.rows[c + i], s.past[c + i + 1]);
    }
    ModeCorrect(rows, past, y.point, k);
    SelectionCorrect(rows, past, y.point, k, mode);
  }
}
