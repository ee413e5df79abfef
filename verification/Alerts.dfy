/** Prefix-drop alerts: the persisted state of each user's episode, the checker
    that measures and collects, and the single delivery loop with its queue. */
module Alerts {
  import opened Wrappers

  datatype Kind = Drop | Recovered

  /** What a webhook would report. `at` is when the episode's change was seen. */
  datatype Transition = Transition(kind: Kind, at: int, base4: nat, base6: nat, cur4: nat, cur6: nat, duration: int)

  /** A user's persisted alert row. */
  datatype Row = Row(base4: nat, base6: nat, since: Option<int>, dropDelivered: bool,
                     recPending: bool, recAt: int, recBase4: nat, recBase6: nat, recDuration: int)

  datatype Limits = Limits(threshold: nat, minimum: nat)

  predicate Sensible(l: Limits) { 1 <= l.threshold <= 99 }

  function DropLine(base: nat, l: Limits): int { base * (100 - l.threshold) / 100 }

  datatype Verdict = Verdict(row: Row, transition: Option<Transition>)

  /** One measurement against the stored row, if there is one. */
  function Evaluated(row: Option<Row>, v4: nat, v6: nat, now: int, l: Limits): (v: Verdict) {
    if row.None? then Verdict(Row(v4, v6, None, true, false, 0, 0, 0, 0), None)
    else
      var r := row.value;
      var line := DropLine(r.base4 + r.base6, l);
      if r.since.None? then
        if r.base4 + r.base6 > 0 && r.base4 + r.base6 >= l.minimum && v4 + v6 <= line then
          Verdict(r.(since := Some(now), dropDelivered := false, recPending := false),
                  Some(Transition(Drop, now, r.base4, r.base6, v4, v6, 0)))
        else Verdict(r.(base4 := v4, base6 := v6), None)
      else if v4 + v6 <= line then Verdict(r, None)
      else if !r.dropDelivered then Verdict(r.(base4 := v4, base6 := v6, since := None, dropDelivered := true), None)
      else
        var duration := now - r.since.value;
        Verdict(Row(v4, v6, None, true, true, now, r.base4, r.base6, duration),
                Some(Transition(Recovered, now, r.base4, r.base6, v4, v6, duration)))
  }

  function PendingDrop(r: Row, v4: nat, v6: nat): Option<Transition> {
    if r.since.None? || r.dropDelivered then None
    else Some(Transition(Drop, r.since.value, r.base4, r.base6, v4, v6, 0))
  }

  function PendingRecovery(r: Row, v4: nat, v6: nat): Option<Transition> {
    if !r.recPending then None
    else Some(Transition(Recovered, r.recAt, r.recBase4, r.recBase6, v4, v6, r.recDuration))
  }

  /** Whether the row still describes the very episode a queued transition is about. */
  predicate StillPending(r: Row, t: Transition) {
    if t.kind.Drop? then r.since == Some(t.at) && !r.dropDelivered else r.recPending && r.recAt == t.at
  }

  function Marked(r: Row, kind: Kind): Row { if kind.Drop? then r.(dropDelivered := true) else r.(recPending := false) }

  /** What a measurement gives the delivery side: a transition, or else an event
      that is still waiting to be delivered, with the fresh counts. */
  function Offered(v: Verdict, v4: nat, v6: nat): Option<Transition> {
    if v.transition.Some? then v.transition
    else if PendingDrop(v.row, v4, v6).Some? then PendingDrop(v.row, v4, v6)
    else PendingRecovery(v.row, v4, v6)
  }

  predicate SameEvent(t: Transition, u: Transition) { t.kind == u.kind && t.at == u.at }

  /** The reported percentage, as the payload computes it. */
  function DropPercent(t: Transition): int {
    if t.base4 + t.base6 > 0 then 100 - (t.cur4 + t.cur6) * 100 / (t.base4 + t.base6) else 0
  }

  lemma BelowLine(base: nat, current: nat, l: Limits)
    requires Sensible(l) && base > 0 && current <= DropLine(base, l)
    ensures 100 - current * 100 / base >= l.threshold
  {
    DivideBound(current * 100, base, 100 - l.threshold);
  }

  /** The current count has fallen to the threshold: no more than the baseline less
      that percentage of it is left. */
  predicate Fallen(r: Row, v4: nat, v6: nat, l: Limits) {
    (v4 + v6) * 100 <= (r.base4 + r.base6) * (100 - l.threshold)
  }

  lemma LineIsFallen(r: Row, v4: nat, v6: nat, l: Limits)
    ensures Fallen(r, v4, v6, l) <==> v4 + v6 <= DropLine(r.base4 + r.base6, l)
  {
    var kept := (r.base4 + r.base6) * (100 - l.threshold);
    assert v4 + v6 <= kept / 100 <==> (v4 + v6) * 100 <= kept;
  }

  /** Outside an episode a drop is reported, and an episode begun, exactly when the
      baseline is large enough and the count has fallen to the threshold; otherwise
      the counts become the new baseline, family by family, and nothing else moves. */
  lemma DropFiresIff(r: Row, v4: nat, v6: nat, now: int, l: Limits)
    requires r.since.None?
    ensures var v := Evaluated(Some(r), v4, v6, now, l);
            if r.base4 + r.base6 > 0 && r.base4 + r.base6 >= l.minimum && Fallen(r, v4, v6, l)
            then v == Verdict(r.(since := Some(now), dropDelivered := false, recPending := false),
                              Some(Transition(Drop, now, r.base4, r.base6, v4, v6, 0)))
            else v == Verdict(r.(base4 := v4, base6 := v6), None)
  {
    LineIsFallen(r, v4, v6, l);
  }

  /** During an episode nothing moves while the count is as low. Above that the
      episode ends with the counts as the new baseline, and a recovery is reported
      exactly when the drop was delivered, with the baseline from before it. */
  lemma EpisodeEndsIff(r: Row, v4: nat, v6: nat, now: int, l: Limits)
    requires r.since.Some?
    ensures var v, ended := Evaluated(Some(r), v4, v6, now, l),
              r.(base4 := v4, base6 := v6, since := None, dropDelivered := true);
            if Fallen(r, v4, v6, l) then v == Verdict(r, None)
            else if !r.dropDelivered then v == Verdict(ended, None)
            else
              v.transition == Some(Transition(Recovered, now, r.base4, r.base6, v4, v6, now - r.since.value)) &&
              v.row == ended.(recPending := true, recAt := now, recBase4 := r.base4, recBase6 := r.base6,
                              recDuration := now - r.since.value)
  {
    LineIsFallen(r, v4, v6, l);
  }

  /** What a measurement offers for delivery is what the row afterwards says is not
      yet delivered, a drop before a recovery, with the counts just measured. */
  lemma OfferedIsPending(row: Option<Row>, v4: nat, v6: nat, now: int, l: Limits)
    ensures var v := Evaluated(row, v4, v6, now, l);
            Offered(v, v4, v6) ==
              if v.row.since.Some? && !v.row.dropDelivered
              then Some(Transition(Drop, v.row.since.value, v.row.base4, v.row.base6, v4, v6, 0))
              else if v.row.recPending
              then Some(Transition(Recovered, v.row.recAt, v.row.recBase4, v.row.recBase6, v4, v6, v.row.recDuration))
              else None
  {}

  /** The reported percentage is the part of the baseline that is gone, in whole
      percent, a started percent counted as gone; none without a baseline. */
  lemma DropPercentMeans(t: Transition)
    ensures var base, cur, p := t.base4 + t.base6, t.cur4 + t.cur6, DropPercent(t);
            if base == 0 then p == 0 else (100 - p) * base <= cur * 100 < (101 - p) * base
  {
    var base, x := t.base4 + t.base6, (t.cur4 + t.cur6) * 100;
    if base > 0 {
      DivideAround(x, base);
      assert DropPercent(t) == 100 - x / base;
    }
  }

  lemma DivideAround(x: nat, b: nat)
    requires b > 0
    ensures x / b * b <= x < (x / b + 1) * b
  {
    assert x == x / b * b + x % b;
  }

  lemma DivideBound(x: int, b: int, c: int)
    requires b > 0 && x <= b * c
    ensures x / b <= c
  {}

  // ----- measurements that stay the same -----

  /** After one measurement, repeating it changes nothing and reports nothing. */
  lemma ConstantIsQuiet(row: Option<Row>, v4: nat, v6: nat, now: int, later: int, l: Limits)
    requires Sensible(l)
    ensures var once := Evaluated(row, v4, v6, now, l);
            Evaluated(Some(once.row), v4, v6, later, l) == Verdict(once.row, None)
  {}

  function TransitionsOf(row: Option<Row>, v4: nat, v6: nat, times: seq<int>, l: Limits): (n: nat)
    decreases |times|
  {
    if times == [] then 0
    else
      var v := Evaluated(row, v4, v6, times[0], l);
      (if v.transition.Some? then 1 else 0) + TransitionsOf(Some(v.row), v4, v6, times[1..], l)
  }

  /** However long the counts stay constant, at most one more transition fires. */
  lemma {:induction false} ConstantFiresOnce(row: Option<Row>, v4: nat, v6: nat, times: seq<int>, l: Limits)
    requires Sensible(l)
    ensures TransitionsOf(row, v4, v6, times, l) <= 1
  {
    if times != [] {
      QuietForever(row, v4, v6, times[0], times[1..], l);
    }
  }

  lemma {:induction false} QuietForever(row: Option<Row>, v4: nat, v6: nat, now: int, times: seq<int>, l: Limits)
    requires Sensible(l)
    ensures TransitionsOf(Some(Evaluated(row, v4, v6, now, l).row), v4, v6, times, l) == 0
    decreases |times|
  {
    if times != [] {
      ConstantIsQuiet(row, v4, v6, now, times[0], l);
      QuietForever(row, v4, v6, now, times[1..], l);
    }
  }

  // ----- the system -----

  datatype Delivery = Delivery(user: nat, t: Transition)

  /** All rows, each user's last measurement time, what the current tick has
      collected, the delivery loop's batch and queue, and what was delivered. */
  datatype State = State(rows: map<nat, Row>, clock: map<nat, int>, collected: seq<Delivery>, delivering: bool,
                         batch: seq<Delivery>, queued: map<nat, Delivery>, log: seq<Delivery>)

  datatype Event =
    | Measure(user: nat, v4: nat, v6: nat, now: int, webhook: bool)
    | HandOff
    | Deliver(ok: bool)
    | NextPass(order: seq<Delivery>)
    | Disable

  function RowOf(s: State, u: nat): Option<Row> { if u in s.rows then Some(s.rows[u]) else None }

  function Measured(s: State, u: nat, v4: nat, v6: nat, now: int, webhook: bool, l: Limits): State {
    var v := Evaluated(RowOf(s, u), v4, v6, now, l);
    var offer := Offered(v, v4, v6);
    s.(rows := s.rows[u := v.row], clock := s.clock[u := now],
       collected := s.collected + if webhook && offer.Some? then [Delivery(u, offer.value)] else [])
  }

  function Merged(queued: map<nat, Delivery>, ds: seq<Delivery>): map<nat, Delivery> {
    if ds == [] then queued else Merged(queued, ds[..|ds| - 1])[ds[|ds| - 1].user := ds[|ds| - 1]]
  }

  function HandedOff(s: State): State {
    if s.collected == [] then s
    else if s.delivering then s.(queued := Merged(s.queued, s.collected), collected := [])
    else s.(delivering := true, batch := s.collected, collected := [])
  }

  /** Checking, posting and marking one delivery. */
  function Delivered(s: State, ok: bool): State
    requires s.batch != []
  {
    var d, rest := s.batch[0], s.(batch := s.batch[1..]);
    if d.user !in s.rows || !StillPending(s.rows[d.user], d.t) || !ok then rest
    else rest.(rows := s.rows[d.user := Marked(s.rows[d.user], d.t.kind)], log := s.log + [d])
  }

  predicate Lists(order: seq<Delivery>, queued: map<nat, Delivery>) {
    (forall d :: d in order ==> d.user in queued && queued[d.user] == d) &&
      forall u :: u in queued ==> queued[u] in order
  }

  predicate Enabled(s: State, e: Event) {
    match e
    case Measure(u, _, _, now, _) => u in s.clock ==> now > s.clock[u]
    case HandOff => true
    case Deliver(_) => s.delivering && s.batch != []
    case NextPass(order) => s.delivering && s.batch == [] && Lists(order, s.queued)
    case Disable => s.delivering
  }

  function Step(s: State, e: Event, l: Limits): State
    requires Enabled(s, e)
  {
    match e
    case Measure(u, v4, v6, now, webhook) => Measured(s, u, v4, v6, now, webhook, l)
    case HandOff => HandedOff(s)
    case Deliver(ok) => Delivered(s, ok)
    case NextPass(order) => s.(delivering := s.queued != map[], batch := order, queued := map[])
    case Disable => s.(delivering := false, batch := [], queued := map[])
  }

  ghost predicate Run(s: State, es: seq<Event>, t: State, l: Limits)
    decreases |es|
  {
    if es == [] then s == t else Enabled(s, es[0]) && Run(Step(s, es[0], l), es[1..], t, l)
  }

  const START := State(map[], map[], [], false, [], map[], [])

  // ----- what every run keeps -----

  /** The last thing a user was told. */
  function LastTold(log: seq<Delivery>, u: nat): Option<Transition> {
    if log == [] then None
    else if log[|log| - 1].user == u then Some(log[|log| - 1].t)
    else LastTold(log[..|log| - 1], u)
  }

  /** The last thing told was the drop that began at a time, from a baseline. */
  predicate ToldDrop(log: seq<Delivery>, u: nat, at: int, base4: nat, base6: nat) {
    var last := LastTold(log, u);
    last.Some? && last.value.kind.Drop? && last.value.at == at && last.value.base4 == base4 && last.value.base6 == base6
  }

  predicate DropIsReal(t: Transition, l: Limits) {
    t.kind.Drop? ==> t.base4 + t.base6 > 0 && t.cur4 + t.cur6 <= DropLine(t.base4 + t.base6, l)
  }

  /** A delivery fits onto a log: it is not in it already, and a recovery follows
      the drop of its own episode, with the baseline from before the incident. */
  predicate Follows(log: seq<Delivery>, d: Delivery, l: Limits) {
    (forall e :: e in log && e.user == d.user && e.t.kind == d.t.kind ==> e.t.at != d.t.at) && DropIsReal(d.t, l) &&
    (d.t.kind.Recovered? ==> ToldDrop(log, d.user, d.t.at - d.t.duration, d.t.base4, d.t.base6))
  }

  predicate GoodLog(log: seq<Delivery>, l: Limits) {
    log == [] || (GoodLog(log[..|log| - 1], l) && Follows(log[..|log| - 1], log[|log| - 1], l))
  }

  predicate RowInv(r: Row, u: nat, clock: int, log: seq<Delivery>) {
    (r.since.Some? ==> r.since.value <= clock && !r.recPending && r.base4 + r.base6 > 0) &&
    (r.since.Some? && r.dropDelivered ==> ToldDrop(log, u, r.since.value, r.base4, r.base6)) &&
    (r.recPending ==> r.recAt <= clock && ToldDrop(log, u, r.recAt - r.recDuration, r.recBase4, r.recBase6))
  }

  /** A waiting delivery, as long as it is still pending, says what the row says. */
  predicate WaitingInv(d: Delivery, r: Row, clock: int, l: Limits) {
    d.t.at <= clock && DropIsReal(d.t, l) &&
    (d.t.kind.Drop? && r.since == Some(d.t.at) ==> d.t.base4 == r.base4 && d.t.base6 == r.base6) &&
    (d.t.kind.Recovered? && r.recPending && r.recAt == d.t.at ==>
       d.t.base4 == r.recBase4 && d.t.base6 == r.recBase6 && d.t.duration == r.recDuration)
  }

  /** What was told is over or marked. */
  predicate ToldInv(d: Delivery, r: Row, clock: int) {
    d.t.at <= clock && !StillPending(r, d.t)
  }

  predicate Waiting(s: State, d: Delivery) {
    d in s.collected || d in s.batch || (d.user in s.queued && s.queued[d.user] == d)
  }

  ghost predicate Inv(s: State, l: Limits) {
    GoodLog(s.log, l) && s.rows.Keys == s.clock.Keys &&
    (forall u :: u in s.rows ==> RowInv(s.rows[u], u, s.clock[u], s.log)) &&
    (forall d :: Waiting(s, d) ==> d.user in s.rows && WaitingInv(d, s.rows[d.user], s.clock[d.user], l)) &&
    forall d :: d in s.log ==> d.user in s.rows && ToldInv(d, s.rows[d.user], s.clock[d.user])
  }

  /** What one measurement does to a row and to everything waiting on it. */
  lemma MeasureRow(row: Option<Row>, u: nat, v4: nat, v6: nat, clock: int, now: int, l: Limits, log: seq<Delivery>)
    requires Sensible(l) && (row.Some? ==> now > clock && RowInv(row.value, u, clock, log))
    ensures var v := Evaluated(row, v4, v6, now, l);
            RowInv(v.row, u, now, log) &&
            (Offered(v, v4, v6).Some? ==> WaitingInv(Delivery(u, Offered(v, v4, v6).value), v.row, now, l))
  {}

  lemma OthersUnmoved(r: Row, v4: nat, v6: nat, clock: int, now: int, l: Limits, d: Delivery)
    requires now > clock
    ensures WaitingInv(d, r, clock, l) ==> WaitingInv(d, Evaluated(Some(r), v4, v6, now, l).row, now, l)
    ensures ToldInv(d, r, clock) ==> ToldInv(d, Evaluated(Some(r), v4, v6, now, l).row, now)
  {}

  lemma MeasureKeepsInv(s: State, u: nat, v4: nat, v6: nat, now: int, webhook: bool, l: Limits)
    requires Sensible(l) && Inv(s, l) && Enabled(s, Measure(u, v4, v6, now, webhook))
    ensures Inv(Measured(s, u, v4, v6, now, webhook, l), l)
  {
    var t := Measured(s, u, v4, v6, now, webhook, l);
    MeasureRow(RowOf(s, u), u, v4, v6, if u in s.clock then s.clock[u] else 0, now, l, s.log);
    forall d | Waiting(t, d) ensures d.user in t.rows && WaitingInv(d, t.rows[d.user], t.clock[d.user], l) {
      if Waiting(s, d) && d.user == u { OthersUnmoved(s.rows[u], v4, v6, s.clock[u], now, l, d); }
    }
    forall d | d in t.log ensures d.user in t.rows && ToldInv(d, t.rows[d.user], t.clock[d.user]) {
      if d.user == u { OthersUnmoved(s.rows[u], v4, v6, s.clock[u], now, l, d); }
    }
  }

  lemma {:induction false} MergedFrom(queued: map<nat, Delivery>, ds: seq<Delivery>, u: nat)
    requires u in Merged(queued, ds)
    ensures Merged(queued, ds)[u] in ds || (u in queued && queued[u] == Merged(queued, ds)[u])
  {
    if ds != [] && ds[|ds| - 1].user != u { MergedFrom(queued, ds[..|ds| - 1], u); }
  }

  lemma HandOffKeepsInv(s: State, l: Limits)
    requires Inv(s, l)
    ensures Inv(HandedOff(s), l)
  {
    var t := HandedOff(s);
    forall d | Waiting(t, d) ensures Waiting(s, d) || d.user in s.rows {
      if d.user in t.queued && t.queued[d.user] == d && s.delivering && s.collected != [] {
        MergedFrom(s.queued, s.collected, d.user);
      }
    }
    forall d | Waiting(t, d) ensures d.user in t.rows && WaitingInv(d, t.rows[d.user], t.clock[d.user], l) {
      if d.user in t.queued && t.queued[d.user] == d && s.delivering && s.collected != [] {
        MergedFrom(s.queued, s.collected, d.user);
      }
      assert Waiting(s, d);
    }
  }

  /** Telling one thing keeps every row's account of what its user was told last. */
  lemma TellRow(r: Row, u: nat, clock: int, log: seq<Delivery>, d: Delivery, l: Limits)
    requires RowInv(r, u, clock, log)
    requires d.user == u ==> StillPending(r, d.t) && WaitingInv(d, r, clock, l)
    ensures RowInv(if d.user == u then Marked(r, d.t.kind) else r, u, clock, log + [d])
  {}

  /** Marking what was told leaves what was told or is waiting in step with the row. */
  lemma MarkOne(r: Row, kind: Kind, clock: int, l: Limits, e: Delivery)
    ensures WaitingInv(e, r, clock, l) ==> WaitingInv(e, Marked(r, kind), clock, l)
    ensures ToldInv(e, r, clock) ==> ToldInv(e, Marked(r, kind), clock)
    ensures WaitingInv(e, r, clock, l) && e.t.kind == kind ==> ToldInv(e, Marked(r, kind), clock)
  {}

  lemma TellFollows(log: seq<Delivery>, d: Delivery, r: Row, clock: int, l: Limits)
    requires RowInv(r, d.user, clock, log) && WaitingInv(d, r, clock, l) && StillPending(r, d.t) && GoodLog(log, l)
    requires forall e :: e in log && e.user == d.user ==> ToldInv(e, r, clock)
    ensures GoodLog(log + [d], l)
  {}

  lemma DeliverKeepsInv(s: State, ok: bool, l: Limits)
    requires Sensible(l) && Inv(s, l) && s.batch != []
    ensures Inv(Delivered(s, ok), l)
  {
    var d, t := s.batch[0], Delivered(s, ok);
    assert Waiting(s, d);
    forall e | Waiting(t, e) ensures Waiting(s, e) {}
    if t.log != s.log {
      TellFollows(s.log, d, s.rows[d.user], s.clock[d.user], l);
      forall u | u in t.rows ensures RowInv(t.rows[u], u, t.clock[u], t.log) {
        TellRow(s.rows[u], u, s.clock[u], s.log, d, l);
      }
      forall e | Waiting(t, e) || e in t.log
        ensures e.user in t.rows && (Waiting(t, e) ==> WaitingInv(e, t.rows[e.user], t.clock[e.user], l)) &&
                (e in t.log ==> ToldInv(e, t.rows[e.user], t.clock[e.user]))
      {
        if e.user == d.user { MarkOne(s.rows[d.user], d.t.kind, s.clock[d.user], l, e); }
      }
    }
  }

  /** With a webhook a measurement collects the user's undelivered drop, or else the
      undelivered recovery, as the row has it; without one nothing is collected. */
  lemma MeasureCollects(s: State, u: nat, v4: nat, v6: nat, now: int, webhook: bool, l: Limits)
    ensures var t := Measured(s, u, v4, v6, now, webhook, l);
            u in t.rows && t.collected == s.collected +
              (var r := t.rows[u];
               if webhook && r.since.Some? && !r.dropDelivered
               then [Delivery(u, Transition(Drop, r.since.value, r.base4, r.base6, v4, v6, 0))]
               else if webhook && r.recPending
               then [Delivery(u, Transition(Recovered, r.recAt, r.recBase4, r.recBase6, v4, v6, r.recDuration))]
               else [])
    ensures var t := Measured(s, u, v4, v6, now, webhook, l);
            t.rows - {u} == s.rows - {u} && t.clock == s.clock[u := now] &&
            t.(rows := s.rows, clock := s.clock, collected := s.collected) == s
  {
    OfferedIsPending(RowOf(s, u), v4, v6, now, l);
  }

  /** The first measurement of a user only sets the baseline. */
  lemma FirstSetsBaseline(v4: nat, v6: nat, now: int, l: Limits)
    ensures var v := Evaluated(None, v4, v6, now, l);
            v.transition.None? && v.row.base4 == v4 && v.row.base6 == v6 && v.row.since.None? && !v.row.recPending &&
            Offered(v, v4, v6).None?
  {}

  /** A posted delivery is logged and its event marked exactly when the row still
      describes that very event; any other only leaves the batch. */
  lemma DeliveredIff(s: State, ok: bool)
    requires s.batch != []
    ensures var d, t := s.batch[0], Delivered(s, ok);
            var told := ok && d.user in s.rows &&
              if d.t.kind.Drop? then s.rows[d.user].since == Some(d.t.at) && !s.rows[d.user].dropDelivered
              else s.rows[d.user].recPending && s.rows[d.user].recAt == d.t.at;
            t.log == (if told then s.log + [d] else s.log) && (!told ==> t.rows == s.rows) &&
            t.(rows := s.rows, log := s.log) == s.(batch := s.batch[1..])
    ensures var d, t := s.batch[0], Delivered(s, ok);
            t.log != s.log ==>
              t.rows == s.rows[d.user := if d.t.kind.Drop? then s.rows[d.user].(dropDelivered := true)
                                         else s.rows[d.user].(recPending := false)]
  {}

  predicate LastOf(ds: seq<Delivery>, u: nat, i: int) {
    0 <= i < |ds| && ds[i].user == u && forall j :: i < j < |ds| ==> ds[j].user != u
  }

  /** For each user the queue keeps the last delivery it was given, else its own. */
  lemma {:induction false} LatestIsQueued(queued: map<nat, Delivery>, ds: seq<Delivery>, u: nat)
    ensures var q := Merged(queued, ds);
            if exists i :: LastOf(ds, u, i) then u in q && exists i :: LastOf(ds, u, i) && q[u] == ds[i]
            else (u in q <==> u in queued) && (u in q ==> q[u] == queued[u])
  {
    if ds != [] {
      var front, n := ds[..|ds| - 1], |ds| - 1;
      if ds[n].user == u {
        assert LastOf(ds, u, n);
      } else {
        LatestIsQueued(queued, front, u);
        if i :| LastOf(ds, u, i) { assert LastOf(front, u, i); }
        if i :| LastOf(front, u, i) && Merged(queued, front)[u] == front[i] { assert LastOf(ds, u, i); }
      }
    }
  }

  /** Handing off starts the delivery loop on everything collected, or queues it for
      the running one, where only a later event of the same user replaces it. */
  lemma HandOffLosesNothing(s: State)
    ensures var t := HandedOff(s);
            t.collected == [] && t.delivering == (s.delivering || s.collected != []) &&
            t.(collected := [], delivering := false, batch := [], queued := map[]) ==
              s.(collected := [], delivering := false, batch := [], queued := map[]) &&
            t.batch == (if s.delivering || s.collected == [] then s.batch else s.collected)
    ensures forall u, i :: s.delivering && LastOf(s.collected, u, i) ==>
              u in HandedOff(s).queued && HandedOff(s).queued[u] == s.collected[i]
    ensures forall u :: u in s.queued && (forall i :: !LastOf(s.collected, u, i)) ==>
              u in HandedOff(s).queued && HandedOff(s).queued[u] == s.queued[u]
  {
    forall u: nat, i: int | s.delivering && LastOf(s.collected, u, i)
      ensures u in HandedOff(s).queued && HandedOff(s).queued[u] == s.collected[i]
    {
      LatestIsQueued(s.queued, s.collected, u);
    }
    forall u | u in s.queued && forall i :: !LastOf(s.collected, u, i)
      ensures u in HandedOff(s).queued && HandedOff(s).queued[u] == s.queued[u]
    {
      LatestIsQueued(s.queued, s.collected, u);
    }
  }

  lemma StepKeepsInv(s: State, e: Event, l: Limits)
    requires Sensible(l) && Inv(s, l) && Enabled(s, e)
    ensures Inv(Step(s, e, l), l)
  {
    match e
    case Measure(u, v4, v6, now, webhook) => MeasureKeepsInv(s, u, v4, v6, now, webhook, l);
    case HandOff => HandOffKeepsInv(s, l);
    case Deliver(ok) => DeliverKeepsInv(s, ok, l);
    case NextPass(order) =>
      forall d | Waiting(Step(s, e, l), d) ensures Waiting(s, d) {}
    case Disable =>
      forall d | Waiting(Step(s, e, l), d) ensures Waiting(s, d) {}
  }

  /** Over every run: nothing is told twice, and a recovery is told only right
      after the drop of its own episode, with the baseline from before it. */
  lemma {:induction false} RunTellsTruth(s: State, es: seq<Event>, t: State, l: Limits)
    requires Sensible(l) && Inv(s, l) && Run(s, es, t, l)
    ensures Inv(t, l) && GoodLog(t.log, l)
    decreases |es|
  {
    if es != [] {
      StepKeepsInv(s, es[0], l);
      RunTellsTruth(Step(s, es[0], l), es[1..], t, l);
    }
  }

  lemma StartInv(l: Limits)
    ensures Inv(START, l)
  {}

  /** Every drop ever told reports at least the threshold. */
  lemma {:induction false} ToldAtLeastThreshold(log: seq<Delivery>, l: Limits, d: Delivery)
    requires Sensible(l) && GoodLog(log, l) && d in log && d.t.kind.Drop?
    ensures DropPercent(d.t) >= l.threshold
  {
    if d == log[|log| - 1] {
      BelowLine(d.t.base4 + d.t.base6, d.t.cur4 + d.t.cur6, l);
    } else {
      ToldAtLeastThreshold(log[..|log| - 1], l, d);
    }
  }

  /** In a good log no two entries of a user announce the same drop or recovery. */
  lemma {:induction false} ToldOnce(log: seq<Delivery>, l: Limits, i: nat, j: nat)
    requires GoodLog(log, l) && i < j < |log|
    requires log[i].user == log[j].user && log[i].t.kind == log[j].t.kind
    ensures log[i].t.at != log[j].t.at
  {
    var front := log[..|log| - 1];
    if j == |log| - 1 {
      assert front[i] in front;
    } else {
      ToldOnce(front, l, i, j);
    }
  }

  /** With a webhook configured, a measured user's pending event is never left
      without a delivery to try it. */
  lemma PendingIsOffered(s: State, u: nat, v4: nat, v6: nat, now: int, l: Limits, t: Transition)
    requires var r := Measured(s, u, v4, v6, now, true, l).rows[u];
             (t.kind.Drop? && StillPending(r, t)) || (t.kind.Recovered? && StillPending(r, t) && r.since.None?)
    ensures exists d :: d in Measured(s, u, v4, v6, now, true, l).collected && d.user == u && SameEvent(d.t, t)
  {}
}
