/** The alert rows and the checker as they are updated in place, tied to the
    steps of the alert system. */
module AlertChecker {
  import opened Alerts
  import opened Wrappers

  datatype Measurement = Measurement(user: nat, v4: nat, v6: nat, now: int)

  function MeasuredAll(s: State, ms: seq<Measurement>, webhook: bool, l: Limits): State
    decreases |ms|
  {
    if ms == [] then s
    else MeasuredAll(Measured(s, ms[0].user, ms[0].v4, ms[0].v6, ms[0].now, webhook, l), ms[1..], webhook, l)
  }

  lemma {:induction false} MeasuredNext(s: State, ms: seq<Measurement>, i: nat, webhook: bool, l: Limits)
    requires i < |ms|
    ensures MeasuredAll(s, ms[..i + 1], webhook, l) ==
            Measured(MeasuredAll(s, ms[..i], webhook, l), ms[i].user, ms[i].v4, ms[i].v6, ms[i].now, webhook, l)
    decreases i
  {
    if i == 0 {
      assert ms[..1][1..] == [];
    } else {
      var next := Measured(s, ms[0].user, ms[0].v4, ms[0].v6, ms[0].now, webhook, l);
      MeasuredNext(next, ms[1..], i - 1, webhook, l);
      assert ms[..i + 1][1..] == ms[1..][..i] && ms[..i][1..] == ms[1..][..i - 1];
    }
  }

  class Checker {
    var rows: map<nat, Row>
    var delivering: bool
    var batch: seq<Delivery>
    var queued: map<nat, Delivery>
    ghost var clock: map<nat, int>
    ghost var log: seq<Delivery>

    ghost function System(collected: seq<Delivery>): State
      reads this
    {
      State(rows, clock, collected, delivering, batch, queued, log)
    }

    constructor ()
      ensures System([]) == START
    {
      rows, delivering, batch, queued, clock, log := map[], false, [], map[], map[], [];
    }

    // ----- the persisted row -----

    method Evaluate(u: nat, v4: nat, v6: nat, now: int, l: Limits) returns (t: Option<Transition>)
      modifies this`rows
      ensures var v := Evaluated(if u in old(rows) then Some(old(rows)[u]) else None, v4, v6, now, l);
              rows == old(rows)[u := v.row] && t == v.transition
    {
      if u !in rows {
        rows := rows[u := Row(v4, v6, None, true, false, 0, 0, 0, 0)];
        return None;
      }
      var row := rows[u];
      var baselineTotal, currentTotal := row.base4 + row.base6, v4 + v6;
      var dropLine := DropLine(baselineTotal, l);
      if row.since.None? {
        if baselineTotal > 0 && baselineTotal >= l.minimum && currentTotal <= dropLine {
          rows := rows[u := row.(since := Some(now), dropDelivered := false, recPending := false)];
          return Some(Transition(Drop, now, row.base4, row.base6, v4, v6, 0));
        }
        rows := rows[u := row.(base4 := v4, base6 := v6)];
        return None;
      }
      if currentTotal > dropLine {
        if !row.dropDelivered {
          rows := rows[u := row.(base4 := v4, base6 := v6, since := None, dropDelivered := true)];
          return None;
        }
        var duration := now - row.since.value;
        rows := rows[u := row.(base4 := v4, base6 := v6, since := None, dropDelivered := true, recPending := true,
                               recAt := now, recBase4 := row.base4, recBase6 := row.base6, recDuration := duration)];
        return Some(Transition(Recovered, now, row.base4, row.base6, v4, v6, duration));
      }
      assert rows[u := row] == rows;
      t := None;
    }

    method DropPending(u: nat, v4: nat, v6: nat) returns (t: Option<Transition>)
      ensures t == if u in rows then PendingDrop(rows[u], v4, v6) else None
    {
      if u !in rows || rows[u].since.None? || rows[u].dropDelivered {
        return None;
      }
      t := Some(Transition(Drop, rows[u].since.value, rows[u].base4, rows[u].base6, v4, v6, 0));
    }

    method RecoveryPending(u: nat, v4: nat, v6: nat) returns (t: Option<Transition>)
      ensures t == if u in rows then PendingRecovery(rows[u], v4, v6) else None
    {
      if u !in rows || !rows[u].recPending {
        return None;
      }
      var row := rows[u];
      t := Some(Transition(Recovered, row.recAt, row.recBase4, row.recBase6, v4, v6, row.recDuration));
    }

    method Mark(u: nat, kind: Kind)
      modifies this`rows
      ensures rows == if u in old(rows) then old(rows)[u := Marked(old(rows)[u], kind)] else old(rows)
    {
      if u in rows {
        if kind.Drop? {
          rows := rows[u := rows[u].(dropDelivered := true)];
        } else {
          rows := rows[u := rows[u].(recPending := false)];
        }
      }
    }

    // ----- measuring -----

    /** One user of a tick: evaluate, and offer what is to be delivered. */
    method MeasureUser(m: Measurement, webhook: bool, l: Limits, ghost collected: seq<Delivery>)
      returns (found: seq<Delivery>)
      modifies this`rows, this`clock
      ensures System(collected + found) == Measured(old(System(collected)), m.user, m.v4, m.v6, m.now, webhook, l)
    {
      clock := clock[m.user := m.now];
      var t := Evaluate(m.user, m.v4, m.v6, m.now, l);
      if !webhook {
        return [];
      }
      if t.None? {
        t := DropPending(m.user, m.v4, m.v6);
      }
      if t.None? {
        t := RecoveryPending(m.user, m.v4, m.v6);
      }
      found := if t.Some? then [Delivery(m.user, t.value)] else [];
    }

    /** A tick: measures every user once, then hands what was collected to the one
        delivery loop, starting it or leaving it in its queue. */
    method Run(ms: seq<Measurement>, webhook: bool, l: Limits)
      modifies this
      ensures System([]) == HandedOff(MeasuredAll(old(System([])), ms, webhook, l))
    {
      var deliveries: seq<Delivery> := [];
      for i := 0 to |ms|
        invariant System(deliveries) == MeasuredAll(old(System([])), ms[..i], webhook, l)
      {
        MeasuredNext(old(System([])), ms, i, webhook, l);
        var found := MeasureUser(ms[i], webhook, l, deliveries);
        deliveries := deliveries + found;
      }
      assert ms[..|ms|] == ms;
      if |deliveries| == 0 {
        return;
      }
      if delivering {
        ghost var was := queued;
        for i := 0 to |deliveries|
          invariant queued == Merged(was, deliveries[..i]) && delivering
          invariant System(deliveries).(queued := was) == MeasuredAll(old(System([])), ms, webhook, l)
        {
          assert deliveries[..i + 1][..i] == deliveries[..i];
          queued := queued[deliveries[i].user := deliveries[i]];
        }
        assert deliveries[..|deliveries|] == deliveries;
        return;
      }
      delivering := true;
      batch := deliveries;
    }

    // ----- the delivery loop -----

    /** The next delivery of the batch: still pending, posted, then marked. */
    method DeliverNext(posted: bool)
      requires batch != []
      modifies this
      ensures System([]) == Delivered(old(System([])), posted)
    {
      var d := batch[0];
      batch := batch[1..];
      if d.user !in rows || !StillPending(rows[d.user], d.t) {
        return;
      }
      if !posted {
        return;
      }
      Mark(d.user, d.t.kind);
      log := log + [d];
    }

    /** The end of a pass: stop, or take over what was queued meanwhile. */
    method TakeQueue() returns (ghost order: seq<Delivery>)
      requires delivering && batch == []
      requires forall u :: u in queued ==> queued[u].user == u
      modifies this`delivering, this`batch, this`queued
      ensures Lists(order, old(queued))
      ensures System([]) == old(System([])).(delivering := old(queued) != map[], batch := order, queued := map[])
    {
      if queued == map[] {
        delivering := false;
        order := [];
        return;
      }
      var left := queued.Keys;
      while left != {}
        invariant left <= queued.Keys && queued == old(queued) && delivering
        invariant forall d :: d in batch ==> d.user in queued && queued[d.user] == d
        invariant forall u :: u in queued.Keys - left ==> queued[u] in batch
        decreases |left|
      {
        var u :| u in left;
        batch := batch + [queued[u]];
        left := left - {u};
      }
      queued := map[];
      order := batch;
    }
  }
}
