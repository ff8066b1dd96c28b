/** Interleaved transactions on one graph: each takes the graph's row lock, runs its statements over
    what is committed plus its own writes, and commits or rolls back. */
module ConcurrentChanges {
  import opened Paths
  import opened Closure
  import opened GraphRuns

  type TxnId = int

  // The statement a transaction has just finished.
  datatype Pc = AtBegin | AtEarlyGuard | AtLock | AtGuard | AtInsert | AtSeed | AtExtend
              | AtDelete | AtSlice | AtRederive | AtPrune

  /** A transaction's uncommitted row writes: edges and closure keys added or replaced, and removed. */
  datatype Txn = Txn(change: Change, pc: Pc, plusEdges: set<Edge>, minusEdges: set<Edge>, put: Rows, gone: set<Pair>)

  datatype System = System(committed: GraphState, lock: set<TxnId>, txns: map<TxnId, Txn>)

  datatype Action =
    | Begin(change: Change) | GuardEarly | TakeLock | Guard | InsertEdge | Seed | Extend
    | DeleteEdge | DeleteSlice | Rederive(out: Rows) | Prune | Commit | Rollback

  /** What a statement of the transaction reads. */
  function View(s: GraphState, t: Txn): GraphState {
    GraphState((s.edges - t.minusEdges) + t.plusEdges, (s.closure - t.gone) + t.put)
  }

  /** The transaction's writes after a statement that took its view from v to w. */
  function Wrote(t: Txn, pc: Pc, v: GraphState, w: GraphState): Txn {
    var removed := v.closure.Keys - w.closure.Keys;
    var stored := map k | k in w.closure && (k !in v.closure || v.closure[k] != w.closure[k]) :: w.closure[k];
    t.(pc := pc,
       plusEdges := w.edges - (v.edges - t.plusEdges),
       minusEdges := t.minusEdges + (v.edges - w.edges),
       put := (t.put - removed) + stored,
       gone := t.gone + removed)
  }

  /** A write to row sets shows in the view exactly as the statement left it. */
  lemma WroteShows(s: GraphState, t: Txn, pc: Pc, w: GraphState)
    ensures View(s, Wrote(t, pc, View(s, t), w)) == w
  {
    var v := View(s, t);
    var u := Wrote(t, pc, v, w);
    var after := View(s, u);
    assert after.edges == w.edges;
    assert after.closure.Keys == w.closure.Keys;
    assert after.closure == w.closure;
  }

  ghost predicate NamesFresh(s: System, child: UnitId) {
    && child !in Nodes(s.committed.edges)
    && forall i :: i in s.txns ==> s.txns[i].change.parent != child && s.txns[i].change.child != child
  }

  ghost predicate NotMinted(s: System, u: UnitId) {
    forall i :: i in s.txns && s.txns[i].change.CreateUnit? ==> s.txns[i].change.child != u
  }

  /** The statement order of each kind of transaction. */
  predicate Follows(change: Change, pc: Pc, next: Pc) {
    match change
    case CreateUnit(_, _) =>
      (pc == AtLock && next == AtSeed) || (pc == AtSeed && next == AtExtend) || (pc == AtExtend && next == AtInsert)
    case Attach(_, _) =>
      (pc == AtLock && next == AtGuard) || (pc == AtGuard && next == AtInsert)
      || (pc == AtInsert && next == AtSeed) || (pc == AtSeed && next == AtExtend)
    case Detach(_, _) =>
      (pc == AtLock && next == AtDelete) || (pc == AtDelete && next == AtSlice)
      || (pc == AtSlice && next == AtRederive) || (pc == AtRederive && next == AtPrune)
  }

  predicate MayCommit(t: Txn, view: GraphState) {
    match t.change
    case CreateUnit(_, _) => t.pc == AtInsert
    case Attach(_, _) => t.pc == AtExtend
    case Detach(parent, child) => t.pc == AtPrune || (t.pc == AtLock && Edge(parent, child) !in view.edges)
  }

  /** The rows a statement leaves in the transaction's view. */
  ghost function Effect(change: Change, action: Action, v: GraphState): GraphState {
    var parent, child := change.parent, change.child;
    match action
    case InsertEdge => v.(edges := v.edges + {Edge(parent, child)})
    case Seed => v.(closure := Seeded(v.closure, parent, child))
    case Extend => v.(closure := Extended(v.closure, parent, child))
    case DeleteEdge => v.(edges := v.edges - {Edge(parent, child)})
    case DeleteSlice => v.(closure := WithoutSlice(v.closure, parent, child))
    case Rederive(out) => v.(closure := v.closure + out)
    case Prune => v.(closure := Pruned(v.edges, v.closure, parent, child))
    case _ => v
  }

  /** The writing statements, and where each leaves its transaction. */
  predicate IsWrite(action: Action, next: Pc) {
    match action
    case InsertEdge => next == AtInsert
    case Seed => next == AtSeed
    case Extend => next == AtExtend
    case DeleteEdge => next == AtDelete
    case DeleteSlice => next == AtSlice
    case Rederive(_) => next == AtRederive
    case Prune => next == AtPrune
    case _ => false
  }

  /** InsertEdge fails on a stored edge; the rest of a detach follows only a real deletion. */
  ghost predicate Enabled(change: Change, action: Action, v: GraphState) {
    var e := Edge(change.parent, change.child);
    && (action.InsertEdge? ==> e !in v.edges)
    && (action.DeleteEdge? ==> e in v.edges)
    && (action.Rederive? ==> IsRederived(v.edges, v.closure, change.parent, change.child, action.out))
  }

  ghost predicate Writes(s: System, i: TxnId, action: Action, next: Pc, s': System) {
    && i in s.txns
    && IsWrite(action, next)
    && var t, v := s.txns[i], View(s.committed, s.txns[i]);
    && Follows(t.change, t.pc, next)
    && Enabled(t.change, action, v)
    && s' == s.(txns := s.txns[i := Wrote(t, next, v, Effect(t.change, action, v))])
  }

  ghost predicate Moves(s: System, i: TxnId, from: Pc, next: Pc, s': System) {
    && i in s.txns
    && s.txns[i].pc == from
    && s' == s.(txns := s.txns[i := s.txns[i].(pc := next)])
  }

  ghost predicate GuardPasses(s: System, i: TxnId)
    requires i in s.txns
  {
    var t := s.txns[i];
    && t.change.Attach?
    && t.change.parent != t.change.child
    && (t.change.child, t.change.parent) !in View(s.committed, t).closure
  }

  /** One step of transaction i. lockFirst is the code's order; without it an attach may run its
      guard before it asks for the lock. */
  ghost predicate Step(lockFirst: bool, s: System, i: TxnId, action: Action, s': System) {
    match action
    case Begin(change) =>
      && i !in s.txns
      && NotMinted(s, change.parent) && NotMinted(s, change.child)
      && (change.CreateUnit? ==> NamesFresh(s, change.child) && change.child != change.parent)
      && s' == s.(txns := s.txns[i := Txn(change, AtBegin, {}, {}, map[], {})])
    case GuardEarly =>
      !lockFirst && Moves(s, i, AtBegin, AtEarlyGuard, s') && GuardPasses(s, i)
    case TakeLock =>
      && i in s.txns && s.lock == {}
      && (s.txns[i].pc == AtBegin || s.txns[i].pc == AtEarlyGuard)
      && s' == s.(lock := {i}, txns := s.txns[i := s.txns[i].(pc := if s.txns[i].pc == AtBegin then AtLock else AtGuard)])
    case Guard =>
      Moves(s, i, AtLock, AtGuard, s') && GuardPasses(s, i)
    case Commit =>
      && i in s.txns
      && var v := View(s.committed, s.txns[i]);
      && MayCommit(s.txns[i], v)
      && s' == System(v, s.lock - {i}, s.txns - {i})
    case Rollback =>
      && i in s.txns
      && s' == s.(lock := s.lock - {i}, txns := s.txns - {i})
    case _ =>
      exists next :: Writes(s, i, action, next, s')
  }

  // ---- what every transaction has written so far

  /** The lock holder's view, as a function of what is committed. */
  ghost predicate Progress(s: GraphState, change: Change, pc: Pc, view: GraphState) {
    var parent, child := change.parent, change.child;
    var e := Edge(parent, child);
    match change
    case CreateUnit(_, _) =>
      (match pc
       case AtLock => view == s
       case AtSeed => view == s.(closure := Seeded(s.closure, parent, child))
       case AtExtend => view == s.(closure := Attached(s, parent, child).closure)
       case AtInsert => view == Attached(s, parent, child)
       case _ => false)
    case Attach(_, _) =>
      (match pc
       case AtLock => view == s
       case AtGuard => view == s
       case AtInsert => view == s.(edges := s.edges + {e})
       case AtSeed => view == GraphState(s.edges + {e}, Seeded(s.closure, parent, child))
       case AtExtend => view == Attached(s, parent, child)
       case _ => false)
      && (pc != AtLock ==> parent != child && (child, parent) !in s.closure)
    case Detach(_, _) =>
      (match pc
       case AtLock => view == s
       case AtDelete => view == s.(edges := s.edges - {e})
       case AtSlice => view == GraphState(s.edges - {e}, WithoutSlice(s.closure, parent, child))
       case AtRederive =>
         exists out :: IsRederived(s.edges - {e}, WithoutSlice(s.closure, parent, child), parent, child, out)
                       && view == GraphState(s.edges - {e}, WithoutSlice(s.closure, parent, child) + out)
       case AtPrune => IsDetached(s, parent, child, view)
       case _ => false)
      && (pc != AtLock ==> e in s.edges)
  }

  ghost predicate Unwritten(t: Txn) {
    t.pc == AtBegin && t.plusEdges == {} && t.minusEdges == {} && t.put == map[] && t.gone == {}
  }

  ghost predicate Inv(s: System) {
    && Sound(s.committed)
    && (forall i :: i in s.lock ==> i in s.txns && s.lock == {i})
    && (forall i :: i in s.txns ==>
          if i in s.lock then Progress(s.committed, s.txns[i].change, s.txns[i].pc, View(s.committed, s.txns[i])) else Unwritten(s.txns[i]))
    && MintsApart(s)
  }

  /** An id minted by an open transaction is known to that transaction alone. */
  ghost predicate MintsApart(s: System) {
    && (forall i :: i in s.txns && s.txns[i].change.CreateUnit? ==>
          s.txns[i].change.child != s.txns[i].change.parent && s.txns[i].change.child !in Nodes(s.committed.edges))
    && (forall i, j :: i in s.txns && j in s.txns && i != j && s.txns[i].change.CreateUnit? ==>
          s.txns[i].change.child !in {s.txns[j].change.parent, s.txns[j].change.child})
  }

  lemma UnwrittenView(s: GraphState, t: Txn)
    requires Unwritten(t)
    ensures View(s, t) == s
  {
    assert s.closure - {} + map[] == s.closure;
  }

  /** Each statement, run in its order, takes the view from one stage to the next. */
  lemma StatementProgress(s: GraphState, change: Change, pc: Pc, next: Pc, action: Action, v: GraphState)
    requires Progress(s, change, pc, v) && Follows(change, pc, next) && IsWrite(action, next) && Enabled(change, action, v)
    ensures Progress(s, change, next, Effect(change, action, v))
  {}

  lemma WriteKeepsInv(s: System, i: TxnId, action: Action, next: Pc, s': System)
    requires Inv(s) && Writes(s, i, action, next, s')
    ensures Inv(s')
  {
    var t, t' := s.txns[i], s'.txns[i];
    var v := View(s.committed, t);
    assert i in s.lock;
    WroteShows(s.committed, t, next, Effect(t.change, action, v));
    StatementProgress(s.committed, t.change, t.pc, next, action, v);
    LocalStep(s, i, t', s');
  }

  /** A step of the lock holder alone, within its transaction. */
  lemma LocalStep(s: System, i: TxnId, t: Txn, s': System)
    requires Inv(s) && i in s.lock
    requires s' == s.(txns := s.txns[i := t]) && t.change == s.txns[i].change
    requires Progress(s.committed, t.change, t.pc, View(s.committed, t))
    ensures Inv(s')
  {}

  /** A commit publishes one whole change of the sequential system, or none. */
  lemma CommitIsChange(s: System, i: TxnId, s': System)
    requires Inv(s) && Step(true, s, i, Commit, s')
    ensures i in s.lock && Performs(s.committed, s.txns[i].change, s'.committed)
  {
    var t := s.txns[i];
    var v := View(s.committed, t);
    assert i in s.lock;
    if t.change.Attach? && Edge(t.change.parent, t.change.child) in s.committed.edges {
      ReAttachIsNothing(s.committed, t.change.parent, t.change.child);
    }
  }

  /** Extending for an edge that is already stored changes no row. */
  lemma ReAttachIsNothing(s: GraphState, parent: UnitId, child: UnitId)
    requires Sound(s) && Edge(parent, child) in s.edges
    ensures Attached(s, parent, child) == s
  {
    var e := Edge(parent, child);
    assert s.edges + {e} == s.edges;
    AttachIsExact(s.edges, s.closure, parent, child);
    ExactIsUnique(s.edges, s.closure, Attached(s, parent, child).closure);
  }

  /** With the lock taken before the guard, every step keeps the invariant. */
  lemma StepKeepsInv(s: System, i: TxnId, action: Action, s': System)
    requires Inv(s) && Step(true, s, i, action, s')
    ensures Inv(s')
  {
    match action
    case Begin(change) =>
      BeginKeepsInv(s, i, change, s');
    case TakeLock =>
      TakeLockKeepsInv(s, i, s');
    case Guard =>
      assert i in s.lock;
      assert View(s.committed, s'.txns[i]) == View(s.committed, s.txns[i]);
      LocalStep(s, i, s'.txns[i], s');
    case Commit =>
      CommitIsChange(s, i, s');
      CommitKeepsInv(s, i, s');
    case Rollback =>
    case GuardEarly =>
    case _ =>
      var next :| Writes(s, i, action, next, s');
      WriteKeepsInv(s, i, action, next, s');
  }

  lemma BeginKeepsInv(s: System, i: TxnId, change: Change, s': System)
    requires Inv(s) && Step(true, s, i, Begin(change), s')
    ensures Inv(s')
  {
    assert Unwritten(s'.txns[i]);
  }

  lemma TakeLockKeepsInv(s: System, i: TxnId, s': System)
    requires Inv(s) && Step(true, s, i, TakeLock, s')
    ensures Inv(s')
  {
    UnwrittenView(s.committed, s.txns[i]);
    assert View(s.committed, s'.txns[i]) == s.committed;
  }

  lemma CommitKeepsInv(s: System, i: TxnId, s': System)
    requires Inv(s) && Step(true, s, i, Commit, s')
    requires i in s.lock && Performs(s.committed, s.txns[i].change, s'.committed)
    ensures Inv(s')
  {
    var c := s.txns[i].change;
    ChangeKeepsSound(s.committed, c, s'.committed);
    ChangeNodes(s.committed, c, s'.committed);
    CommitKeepsMints(s, i, s');
    UnlockedInv(s');
  }

  lemma UnlockedInv(s: System)
    requires Sound(s.committed) && s.lock == {} && MintsApart(s)
    requires forall i :: i in s.txns ==> Unwritten(s.txns[i])
    ensures Inv(s)
  {}

  lemma CommitKeepsMints(s: System, i: TxnId, s': System)
    requires MintsApart(s) && i in s.txns && s'.txns == s.txns - {i}
    requires Nodes(s'.committed.edges) <= Nodes(s.committed.edges) + {s.txns[i].change.parent, s.txns[i].change.child}
    ensures MintsApart(s')
  {
    var c := s.txns[i].change;
    forall j | j in s'.txns && s'.txns[j].change.CreateUnit?
      ensures s'.txns[j].change.child !in Nodes(s'.committed.edges)
    {
      assert s.txns[j].change.child !in {c.parent, c.child};
    }
  }

  lemma ChangeNodes(s: GraphState, c: Change, t: GraphState)
    requires Performs(s, c, t)
    ensures Nodes(t.edges) <= Nodes(s.edges) + {c.parent, c.child}
  {
    assert t.edges <= s.edges + {Edge(c.parent, c.child)};
    NodesAfterAdd(s.edges, Edge(c.parent, c.child));
    assert Nodes(t.edges) <= Nodes(s.edges + {Edge(c.parent, c.child)});
  }

  ghost predicate Chain(lockFirst: bool, states: seq<System>, steps: seq<(TxnId, Action)>) {
    && |states| == |steps| + 1
    && forall n :: 0 <= n < |steps| ==> Step(lockFirst, states[n], steps[n].0, steps[n].1, states[n+1])
  }

  const EMPTY := System(GraphState({}, map[]), {}, map[])

  ghost predicate IsRun(lockFirst: bool, states: seq<System>, steps: seq<(TxnId, Action)>) {
    Chain(lockFirst, states, steps) && states[0] == EMPTY
  }

  /** Whatever the interleaving, crashes included, every committed state is acyclic and carries the
      exact closure of its edges. */
  lemma {:induction false} EveryCommittedStateIsSound(states: seq<System>, steps: seq<(TxnId, Action)>, n: nat)
    requires IsRun(true, states, steps) && n <= |steps|
    ensures Inv(states[n]) && Sound(states[n].committed)
  {
    if n == 0 {
      EmptySound();
    } else {
      EveryCommittedStateIsSound(states, steps, n - 1);
      assert Step(true, states[n-1], steps[n-1].0, steps[n-1].1, states[n]);
      StepKeepsInv(states[n-1], steps[n-1].0, steps[n-1].1, states[n]);
    }
  }

  // ---- why the lock comes first

  lemma ChainAppend(lockFirst: bool, p: seq<System>, ps: seq<(TxnId, Action)>, q: seq<System>, qs: seq<(TxnId, Action)>)
    requires Chain(lockFirst, p, ps) && Chain(lockFirst, q, qs) && p[|ps|] == q[0]
    ensures Chain(lockFirst, p + q[1..], ps + qs)
  {
    var r, rs := p + q[1..], ps + qs;
    forall n | 0 <= n < |rs|
      ensures Step(lockFirst, r[n], rs[n].0, rs[n].1, r[n+1])
    {
      if n < |ps| {
        assert r[n] == p[n] && r[n+1] == p[n+1];
      } else {
        var m := n - |ps|;
        assert r[n] == q[m] && r[n+1] == q[m+1] && rs[n] == qs[m];
      }
    }
  }

  lemma StepIsChain(s: System, i: TxnId, action: Action, s': System)
    requires Step(false, s, i, action, s')
    ensures Chain(false, [s, s'], [(i, action)])
  {}

  lemma WriteStep(s: System, i: TxnId, action: Action, next: Pc) returns (s': System)
    requires i in s.txns && IsWrite(action, next) && Follows(s.txns[i].change, s.txns[i].pc, next)
    requires Enabled(s.txns[i].change, action, View(s.committed, s.txns[i]))
    ensures Chain(false, [s, s'], [(i, action)])
    ensures s'.committed == s.committed && s'.lock == s.lock && i in s'.txns && s'.txns == s.txns[i := s'.txns[i]]
    ensures s'.txns[i].pc == next && s'.txns[i].change == s.txns[i].change
    ensures View(s'.committed, s'.txns[i]) == Effect(s.txns[i].change, action, View(s.committed, s.txns[i]))
  {
    var t, v := s.txns[i], View(s.committed, s.txns[i]);
    s' := s.(txns := s.txns[i := Wrote(t, next, v, Effect(t.change, action, v))]);
    WroteShows(s.committed, t, next, Effect(t.change, action, v));
    assert Writes(s, i, action, next, s');
    StepIsChain(s, i, action, s');
  }

  /** The three writes of an attach that holds the lock. */
  lemma WriteAttach(s: System, i: TxnId) returns (states: seq<System>, steps: seq<(TxnId, Action)>)
    requires i in s.txns && s.txns[i].pc == AtGuard && s.txns[i].change.Attach?
    requires View(s.committed, s.txns[i]) == s.committed
    requires Edge(s.txns[i].change.parent, s.txns[i].change.child) !in s.committed.edges
    ensures Chain(false, states, steps) && states[0] == s
    ensures var t := states[|steps|];
            && t.committed == s.committed && t.lock == s.lock && i in t.txns && t.txns == s.txns[i := t.txns[i]]
            && t.txns[i].change == s.txns[i].change && t.txns[i].pc == AtExtend
            && View(t.committed, t.txns[i]).edges == s.committed.edges + {Edge(t.txns[i].change.parent, t.txns[i].change.child)}
  {
    var s2, s3 := InsertAndSeed(s, i);
    var s4 := WriteStep(s3, i, Extend, AtExtend);
    states, steps := ChainOfThree(i, s, s2, s3, s4);
  }

  lemma InsertAndSeed(s: System, i: TxnId) returns (s2: System, s3: System)
    requires i in s.txns && s.txns[i].pc == AtGuard && s.txns[i].change.Attach?
    requires View(s.committed, s.txns[i]) == s.committed
    requires Edge(s.txns[i].change.parent, s.txns[i].change.child) !in s.committed.edges
    ensures Chain(false, [s, s2], [(i, InsertEdge)]) && Chain(false, [s2, s3], [(i, Seed)])
    ensures s3.committed == s.committed && s3.lock == s.lock && i in s3.txns && s3.txns == s.txns[i := s3.txns[i]]
    ensures s3.txns[i].change == s.txns[i].change && s3.txns[i].pc == AtSeed
    ensures View(s3.committed, s3.txns[i]).edges == s.committed.edges + {Edge(s.txns[i].change.parent, s.txns[i].change.child)}
  {
    s2 := WriteStep(s, i, InsertEdge, AtInsert);
    s3 := WriteStep(s2, i, Seed, AtSeed);
  }

  lemma ChainOfThree(i: TxnId, s1: System, s2: System, s3: System, s4: System)
    returns (states: seq<System>, steps: seq<(TxnId, Action)>)
    requires Chain(false, [s1, s2], [(i, InsertEdge)]) && Chain(false, [s2, s3], [(i, Seed)])
    requires Chain(false, [s3, s4], [(i, Extend)])
    ensures Chain(false, states, steps) && states[0] == s1 && states[|steps|] == s4
  {
    ChainAppend(false, [s1, s2], [(i, InsertEdge)], [s2, s3], [(i, Seed)]);
    states, steps := [s1, s2] + [s2, s3][1..], [(i, InsertEdge)] + [(i, Seed)];
    ChainAppend(false, states, steps, [s3, s4], [(i, Extend)]);
    states, steps := states + [s3, s4][1..], steps + [(i, Extend)];
  }

  /** An attach that has passed its guard early can lock, write and commit alone. */
  lemma FinishAttach(s: System, i: TxnId) returns (states: seq<System>, steps: seq<(TxnId, Action)>)
    requires i in s.txns && s.lock == {} && s.txns[i].pc == AtEarlyGuard && s.txns[i].change.Attach?
    requires View(s.committed, s.txns[i]) == s.committed
    requires Edge(s.txns[i].change.parent, s.txns[i].change.child) !in s.committed.edges
    ensures Chain(false, states, steps) && states[0] == s
    ensures states[|steps|].lock == {} && states[|steps|].txns == s.txns - {i}
    ensures states[|steps|].committed.edges == s.committed.edges + {Edge(s.txns[i].change.parent, s.txns[i].change.child)}
  {
    var s1 := s.(lock := {i}, txns := s.txns[i := s.txns[i].(pc := AtGuard)]);
    StepIsChain(s, i, TakeLock, s1);
    assert View(s1.committed, s1.txns[i]) == s.committed;
    var more, moreSteps := WriteAttach(s1, i);
    var s4 := more[|moreSteps|];
    ChainAppend(false, [s, s1], [(i, TakeLock)], more, moreSteps);
    states, steps := [s, s1] + more[1..], [(i, TakeLock)] + moreSteps;
    assert states[|steps|] == s4;
    var s5 := System(View(s4.committed, s4.txns[i]), s4.lock - {i}, s4.txns - {i});
    StepIsChain(s4, i, Commit, s5);
    ChainAppend(false, states, steps, [s4, s5], [(i, Commit)]);
    states, steps := states + [s4, s5][1..], steps + [(i, Commit)];
    assert s5.txns == s.txns - {i};
  }

  /** Two attaches in opposite directions, both past an early guard. */
  lemma BothPassEarly() returns (states: seq<System>, steps: seq<(TxnId, Action)>)
    ensures IsRun(false, states, steps)
    ensures states[|steps|] == EMPTY.(txns := map[
              1 := Txn(Attach(U(1), U(2)), AtEarlyGuard, {}, {}, map[], {}), 2 := Txn(Attach(U(2), U(1)), AtEarlyGuard, {}, {}, map[], {})])
  {
    var up, down := Txn(Attach(U(1), U(2)), AtBegin, {}, {}, map[], {}), Txn(Attach(U(2), U(1)), AtBegin, {}, {}, map[], {});
    var s1 := EMPTY.(txns := map[1 := up]);
    var s2 := EMPTY.(txns := map[1 := up, 2 := down]);
    var s3 := EMPTY.(txns := map[1 := up.(pc := AtEarlyGuard), 2 := down]);
    var s4 := EMPTY.(txns := map[1 := up.(pc := AtEarlyGuard), 2 := down.(pc := AtEarlyGuard)]);
    states, steps := [EMPTY, s1, s2, s3, s4], [(1, Begin(Attach(U(1), U(2)))), (2, Begin(Attach(U(2), U(1)))), (1, GuardEarly), (2, GuardEarly)];
    assert Step(false, EMPTY, 1, Begin(Attach(U(1), U(2))), s1);
    assert Step(false, s1, 2, Begin(Attach(U(2), U(1))), s2);
    assert Step(false, s2, 1, GuardEarly, s3);
    assert Step(false, s3, 2, GuardEarly, s4);
    assert Chain(false, states, steps);
  }

  /** If attaches could run their guard before taking the lock, two of them could each pass it and
      together commit a cycle. */
  lemma EarlyGuardsCloseACycle() returns (states: seq<System>, steps: seq<(TxnId, Action)>)
    ensures IsRun(false, states, steps)
    ensures !Acyclic(states[|steps|].committed.edges)
  {
    states, steps := BothPassEarly();
    var more, moreSteps := FinishAttach(states[|steps|], 1);
    var mid := more[|moreSteps|];
    ChainAppend(false, states, steps, more, moreSteps);
    states, steps := states + more[1..], steps + moreSteps;
    assert states[|steps|] == mid;
    assert View(mid.committed, mid.txns[2]) == mid.committed;
    more, moreSteps := FinishAttach(mid, 2);
    ChainAppend(false, states, steps, more, moreSteps);
    states, steps := states + more[1..], steps + moreSteps;
    var edges := states[|steps|].committed.edges;
    assert edges == {Edge(U(1), U(2)), Edge(U(2), U(1))};
    assert IsPath(edges, [U(1), U(2), U(1)]);
  }
}
