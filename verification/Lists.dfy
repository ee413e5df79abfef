/** Two ways of going through a list: collecting what each element gives, and
    letting each element change a state in turn. */
module Lists {

  function Gather<M, T>(ms: seq<M>, f: M -> seq<T>): (r: seq<T>) {
    if ms == [] then [] else f(ms[0]) + Gather(ms[1..], f)
  }

  lemma {:induction false} GatherConcat<M, T>(ms: seq<M>, ns: seq<M>, f: M -> seq<T>)
    ensures Gather(ms + ns, f) == Gather(ms, f) + Gather(ns, f)
  {
    if ms == [] {
      assert ms + ns == ns;
    } else {
      assert (ms + ns)[1..] == ms[1..] + ns;
      GatherConcat(ms[1..], ns, f);
    }
  }

  lemma GatherOne<M, T>(m: M, f: M -> seq<T>)
    ensures Gather([m], f) == f(m)
  {}

  lemma GatherNext<M, T>(ms: seq<M>, f: M -> seq<T>, j: nat)
    requires j < |ms|
    ensures Gather(ms[..j + 1], f) == Gather(ms[..j], f) + f(ms[j])
  {
    assert ms[..j + 1] == ms[..j] + [ms[j]];
    GatherConcat(ms[..j], [ms[j]], f);
    GatherOne(ms[j], f);
  }

  /** Around one element: what comes before it, its own, what comes after. */
  lemma {:induction false} GatherAround<M, T>(ms: seq<M>, f: M -> seq<T>, j: nat)
    requires j < |ms|
    ensures Gather(ms, f) == Gather(ms[..j], f) + f(ms[j]) + Gather(ms[j + 1..], f)
  {
    if j == 0 {
      assert [] + f(ms[0]) == f(ms[0]);
    } else {
      GatherAround(ms[1..], f, j - 1);
      assert ms[1..][..j - 1] == ms[..j][1..] && ms[1..][j..] == ms[j + 1..];
      var head, own, tail := Gather(ms[..j][1..], f), f(ms[j]), Gather(ms[j + 1..], f);
      assert f(ms[0]) + (head + own + tail) == f(ms[0]) + head + own + tail;
    }
  }

  lemma {:induction false} GatherMember<M, T>(ms: seq<M>, f: M -> seq<T>, x: T)
    ensures x in Gather(ms, f) <==> exists m :: m in ms && x in f(m)
  {
    if ms != [] {
      GatherMember(ms[1..], f, x);
      assert forall m :: m in ms <==> m == ms[0] || m in ms[1..];
    }
  }

  function Fold<S, M>(s: S, ms: seq<M>, step: (S, M) -> S): (t: S)
    decreases |ms|
  {
    if ms == [] then s else Fold(step(s, ms[0]), ms[1..], step)
  }

  lemma {:induction false} FoldConcat<S, M>(s: S, ms: seq<M>, ns: seq<M>, step: (S, M) -> S)
    ensures Fold(s, ms + ns, step) == Fold(Fold(s, ms, step), ns, step)
    decreases |ms|
  {
    if ms == [] {
      assert ms + ns == ns;
    } else {
      assert (ms + ns)[1..] == ms[1..] + ns;
      FoldConcat(step(s, ms[0]), ms[1..], ns, step);
    }
  }
}
