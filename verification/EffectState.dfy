/** The abstract effect state: which state variables may have been read and written, and which
    effects have run. */
module EffectState {
  import opened Graphs
  import opened EffectModel

  datatype AbstractState = AbstractState(mayWrite: set<NodeId>, mayRead: set<NodeId>, executed: set<NodeId>) {
    function Join(other: AbstractState): AbstractState {
      AbstractState(mayWrite + other.mayWrite, mayRead + other.mayRead, executed + other.executed)
    }

    function Transfer(id: NodeId, e: Effect): AbstractState {
      AbstractState(mayWrite + e.writeSet, mayRead + e.readSet, executed + {id})
    }

    predicate Subsumes(other: AbstractState) {
      other.mayWrite <= mayWrite && other.mayRead <= mayRead && other.executed <= executed
    }
  }

  const Bottom := AbstractState({}, {}, {})

  /** `Join` is the least upper bound in the order of `Subsumes`, and `Bottom` the least state. */
  lemma JoinIsLeastUpperBound(s: AbstractState, t: AbstractState, u: AbstractState)
    ensures u.Subsumes(s.Join(t)) <==> u.Subsumes(s) && u.Subsumes(t)
    ensures s.Join(t) == t.Join(s) && s.Join(Bottom) == s && s.Subsumes(Bottom)
    ensures s.Subsumes(t) <==> s.Join(t) == s
  {
  }

  ghost predicate RunsOf(m: Model, ids: seq<NodeId>) {
    forall id :: id in ids ==> id in m.effects
  }

  /** Abstract execution of a whole schedule. */
  function Run(s: AbstractState, m: Model, ids: seq<NodeId>): AbstractState
    requires RunsOf(m, ids)
    decreases |ids|
  {
    if ids == [] then s
    else
      assert forall id :: id in ids[1..] ==> id in ids;
      Run(s.Transfer(ids[0], m.effects[ids[0]]), m, ids[1..])
  }

  /** A run accumulates exactly what its effects read and write; their order is irrelevant. */
  lemma {:induction false} RunAccumulates(s: AbstractState, m: Model, ids: seq<NodeId>)
    requires RunsOf(m, ids)
    ensures Run(s, m, ids).executed == s.executed + set id | id in ids
    ensures Run(s, m, ids).mayWrite == s.mayWrite + set id, v | id in ids && v in m.effects[id].writeSet :: v
    ensures Run(s, m, ids).mayRead == s.mayRead + set id, v | id in ids && v in m.effects[id].readSet :: v
    decreases |ids|
  {
    if ids != [] {
      RunAccumulates(s.Transfer(ids[0], m.effects[ids[0]]), m, ids[1..]);
      assert forall id :: id in ids <==> id == ids[0] || id in ids[1..];
    }
  }

  /** Two schedules of the same effects end in the same abstract state, and a schedule of more effects
      ends in one that subsumes it: the fixpoint test never depends on the order chosen. */
  lemma ScheduleIndependent(s: AbstractState, m: Model, a: seq<NodeId>, b: seq<NodeId>)
    requires RunsOf(m, a) && RunsOf(m, b)
    requires forall id :: id in a ==> id in b
    ensures Run(s, m, b).Subsumes(Run(s, m, a))
    ensures (forall id :: id in b ==> id in a) ==> Run(s, m, a) == Run(s, m, b)
  {
    RunAccumulates(s, m, a);
    RunAccumulates(s, m, b);
  }

  /** A run starting from a state adds to it what the run from nothing collects. */
  lemma {:induction false} RunFromBottom(s: AbstractState, m: Model, ids: seq<NodeId>)
    requires RunsOf(m, ids)
    ensures Run(s, m, ids) == s.Join(Run(Bottom, m, ids))
  {
    RunAccumulates(s, m, ids);
    RunAccumulates(Bottom, m, ids);
  }

  lemma {:induction false} RunInTwo(s: AbstractState, m: Model, a: seq<NodeId>, b: seq<NodeId>)
    requires RunsOf(m, a) && RunsOf(m, b)
    ensures Run(s, m, a + b) == Run(Run(s, m, a), m, b)
    decreases |a|
  {
    if a == [] {
      assert a + b == b;
    } else {
      assert (a + b)[0] == a[0] && (a + b)[1..] == a[1..] + b;
      assert forall id :: id in a[1..] ==> id in a;
      assert forall id :: id in a[1..] + b ==> id in a + b;
      RunInTwo(s.Transfer(a[0], m.effects[a[0]]), m, a[1..], b);
    }
  }

  /** Runs respect the lattice: joining two starts and running is running and joining, a larger start ends in a larger
      state, and a schedule cut in two gives the join of its parts. */
  lemma RunRespectsJoin(s: AbstractState, t: AbstractState, m: Model, a: seq<NodeId>, b: seq<NodeId>)
    requires RunsOf(m, a) && RunsOf(m, b)
    ensures Run(s.Join(t), m, a) == Run(s, m, a).Join(Run(t, m, a))
    ensures s.Subsumes(t) ==> Run(s, m, a).Subsumes(Run(t, m, a))
    ensures Run(Bottom, m, a + b) == Run(Bottom, m, a).Join(Run(Bottom, m, b))
  {
    hide Run, RunsOf;
    RunFromBottom(s.Join(t), m, a);
    RunFromBottom(s, m, a);
    RunFromBottom(t, m, a);
    RunInTwo(Bottom, m, a, b);
    RunFromBottom(Run(Bottom, m, a), m, b);
  }
}
