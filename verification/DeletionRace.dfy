/** Deleting a unit while others are put under it: DeleteUnit's transaction does not take the graph's
    lock, and the two transactions that add edges look at their units before they take it. */
module DeletionRace {
  import opened Paths

  type TxnId = nat

  datatype Change = Create(parent: UnitId, child: UnitId) | Attach(parent: UnitId, child: UnitId) | Delete(unit: UnitId)

  // How far a transaction is; its writes are buffered and become visible when it commits.
  datatype Pc = Begun | Checked | Held | Ready

  datatype Txn = Txn(change: Change, pc: Pc)

  /** The committed unit and edge tables. */
  datatype Tables = Tables(root: UnitId, live: set<UnitId>, deleted: set<UnitId>, edges: set<Edge>)

  datatype System = System(committed: Tables, lock: set<TxnId>, txns: map<TxnId, Txn>)

  datatype Action = Begin(change: Change) | Check | TakeLock | Commit | Rollback

  /** What a transaction reads before it writes: GetUnit of the units to join, or HasChildren. */
  ghost predicate CheckPasses(c: Tables, change: Change) {
    match change
    case Create(parent, child) => parent in c.live && child !in c.live + c.deleted
    case Attach(parent, child) => parent in c.live && child in c.live
    case Delete(u) => u != c.root && u in c.live && forall e :: e in c.edges && e.parent == u ==> e.child !in c.live
  }

  function After(c: Tables, change: Change): Tables {
    match change
    case Create(parent, child) => c.(live := c.live + {child}, edges := c.edges + {Edge(parent, child)})
    case Attach(parent, child) => c.(edges := c.edges + {Edge(parent, child)})
    case Delete(u) => c.(live := c.live - {u}, deleted := c.deleted + {u})
  }

  /** The order of the statements. In the code the check comes first, and a deletion takes no lock;
      lockFirst is the order in which everybody takes the lock and then checks. */
  predicate Follows(lockFirst: bool, change: Change, action: Action, pc: Pc, next: Pc) {
    if lockFirst then
      (action == TakeLock && pc == Begun && next == Held) || (action == Check && pc == Held && next == Ready)
    else if change.Delete? then
      action == Check && pc == Begun && next == Ready
    else
      (action == Check && pc == Begun && next == Checked) || (action == TakeLock && pc == Checked && next == Ready)
  }

  /** One step of transaction i. */
  ghost predicate Step(lockFirst: bool, s: System, i: TxnId, action: Action, t: System) {
    match action
    case Begin(change) =>
      i !in s.txns && t == s.(txns := s.txns[i := Txn(change, Begun)])
    case Commit =>
      && i in s.txns && s.txns[i].pc == Ready
      && t == System(After(s.committed, s.txns[i].change), s.lock - {i}, s.txns - {i})
    case Rollback =>
      i in s.txns && t == System(s.committed, s.lock - {i}, s.txns - {i})
    case _ =>
      && i in s.txns
      && (action == TakeLock ==> s.lock == {})
      && (action == Check ==> CheckPasses(s.committed, s.txns[i].change))
      && exists next ::
           && Follows(lockFirst, s.txns[i].change, action, s.txns[i].pc, next)
           && t == System(s.committed, if action == TakeLock then {i} else s.lock, s.txns[i := s.txns[i].(pc := next)])
  }

  ghost predicate Init(s: System) {
    s.committed == Tables(s.committed.root, {s.committed.root}, {}, {}) && s.lock == {} && s.txns == map[]
  }

  /** No unit that is not deleted hangs under a deleted one. */
  ghost predicate NoOrphans(c: Tables) {
    forall e :: e in c.edges && e.child in c.live ==> e.parent in c.live
  }

  ghost predicate TablesOk(c: Tables) {
    && NoOrphans(c) && c.root in c.live && c.live !! c.deleted
    && forall e :: e in c.edges ==> e.child in c.live + c.deleted
  }

  // ---- with the lock first

  ghost predicate Inv(s: System) {
    && TablesOk(s.committed)
    && (forall i :: i in s.txns && (s.txns[i].pc == Held || s.txns[i].pc == Ready) ==> s.lock == {i})
    && (forall i :: i in s.txns && s.txns[i].pc == Ready ==> CheckPasses(s.committed, s.txns[i].change))
    && (forall i :: i in s.lock ==> i in s.txns)
  }

  lemma CommitKeepsTables(c: Tables, change: Change)
    requires TablesOk(c) && CheckPasses(c, change)
    ensures TablesOk(After(c, change))
  {}

  lemma StepKeepsInv(s: System, i: TxnId, action: Action, t: System)
    requires Inv(s) && Step(true, s, i, action, t)
    ensures Inv(t)
  {
    if action == Commit {
      CommitKeepsTables(s.committed, s.txns[i].change);
    }
  }

  ghost predicate IsRun(lockFirst: bool, states: seq<System>, steps: seq<(TxnId, Action)>) {
    && |states| == |steps| + 1 && Init(states[0])
    && forall n :: 0 <= n < |steps| ==> Step(lockFirst, states[n], steps[n].0, steps[n].1, states[n+1])
  }

  /** Were the lock taken first by all three, no interleaving would ever commit a live unit under a
      deleted one. */
  lemma {:induction false} LockFirstLeavesNoOrphans(states: seq<System>, steps: seq<(TxnId, Action)>, n: nat)
    requires IsRun(true, states, steps) && n <= |steps|
    ensures Inv(states[n]) && NoOrphans(states[n].committed)
  {
    if n == 0 {
    } else {
      LockFirstLeavesNoOrphans(states, steps, n - 1);
      assert Step(true, states[n-1], steps[n-1].0, steps[n-1].1, states[n]);
      StepKeepsInv(states[n-1], steps[n-1].0, steps[n-1].1, states[n]);
    }
  }

  /** Nor does that order stand in the way: any transaction whose check holds can lock, check and commit. */
  lemma LoneTransactionCommits(s: System, i: TxnId, change: Change) returns (states: seq<System>, steps: seq<(TxnId, Action)>)
    requires s.lock == {} && i !in s.txns && CheckPasses(s.committed, change)
    ensures |states| == |steps| + 1 && states[0] == s && states[|steps|] == System(After(s.committed, change), {}, s.txns)
    ensures forall n :: 0 <= n < |steps| ==> Step(true, states[n], steps[n].0, steps[n].1, states[n+1])
  {
    var begun := s.(txns := s.txns[i := Txn(change, Begun)]);
    var held := System(s.committed, {i}, s.txns[i := Txn(change, Held)]);
    var ready := System(s.committed, {i}, s.txns[i := Txn(change, Ready)]);
    var done := System(After(s.committed, change), {}, s.txns);
    states, steps := [s, begun, held, ready, done], [(i, Begin(change)), (i, TakeLock), (i, Check), (i, Commit)];
    assert Follows(true, change, TakeLock, Begun, Held) && held.txns == begun.txns[i := begun.txns[i].(pc := Held)];
    assert Follows(true, change, Check, Held, Ready) && ready.txns == held.txns[i := held.txns[i].(pc := Ready)];
    assert ready.lock - {i} == {} && ready.txns - {i} == s.txns;
    assert Step(true, s, i, Begin(change), begun);
    assert Step(true, begun, i, TakeLock, held);
    assert Step(true, held, i, Check, ready);
    assert Step(true, ready, i, Commit, done);
  }

  /** What has to be true of the tables as they are when a transaction commits. */
  ghost predicate StillStands(c: Tables, change: Change) {
    match change
    case Create(parent, _) => parent in c.live
    case Attach(parent, child) => child in c.live ==> parent in c.live
    case Delete(u) => forall e :: e in c.edges && e.parent == u && e.child != u ==> e.child !in c.live
  }

  /** A commit leaves an orphan exactly when that is no longer true. */
  lemma CommitOrphansIff(c: Tables, change: Change)
    requires NoOrphans(c) && (change.Create? ==> change.child != change.parent && forall e :: e in c.edges ==> e.child != change.child)
    ensures NoOrphans(After(c, change)) <==> StillStands(c, change)
  {
    if !change.Delete? {
      assert Edge(change.parent, change.child) in After(c, change).edges;
    }
  }

  // ---- in the code's order

  ghost predicate Reachable(s: System) {
    exists states, steps :: IsRun(false, states, steps) && states[|steps|] == s
  }

  lemma Onward(s: System, i: TxnId, action: Action, t: System)
    requires Reachable(s) && Step(false, s, i, action, t)
    ensures Reachable(t)
  {
    var states, steps :| IsRun(false, states, steps) && states[|steps|] == s;
    var more, moreSteps := states + [t], steps + [(i, action)];
    forall n | 0 <= n < |moreSteps|
      ensures Step(false, more[n], moreSteps[n].0, moreSteps[n].1, more[n+1])
    {
      assert n < |steps| ==> more[n] == states[n] && more[n+1] == states[n+1] && moreSteps[n] == steps[n];
    }
    assert IsRun(false, more, moreSteps) && more[|moreSteps|] == t;
  }

  lemma Advance(s: System, i: TxnId, action: Action, next: Pc) returns (t: System)
    requires Reachable(s) && i in s.txns && (action == Check || action == TakeLock)
    requires action == TakeLock ==> s.lock == {}
    requires action == Check ==> CheckPasses(s.committed, s.txns[i].change)
    requires Follows(false, s.txns[i].change, action, s.txns[i].pc, next)
    ensures Reachable(t)
    ensures t == System(s.committed, if action == TakeLock then {i} else s.lock, s.txns[i := s.txns[i].(pc := next)])
  {
    t := System(s.committed, if action == TakeLock then {i} else s.lock, s.txns[i := s.txns[i].(pc := next)]);
    Onward(s, i, action, t);
  }

  /** A creation up to the point where only its commit is left. */
  lemma CreateAlmost(s: System, i: TxnId, parent: UnitId, child: UnitId) returns (t: System)
    requires Reachable(s) && i !in s.txns && s.lock == {} && CheckPasses(s.committed, Create(parent, child))
    ensures Reachable(t) && t == System(s.committed, {i}, s.txns[i := Txn(Create(parent, child), Ready)])
  {
    t := s.(txns := s.txns[i := Txn(Create(parent, child), Begun)]);
    Onward(s, i, Begin(Create(parent, child)), t);
    t := Advance(t, i, Check, Checked);
    t := Advance(t, i, TakeLock, Ready);
  }

  lemma CreateCommits(s: System, i: TxnId, parent: UnitId, child: UnitId) returns (t: System)
    requires Reachable(s) && i in s.txns && s.txns[i] == Txn(Create(parent, child), Ready) && s.lock == {i}
    ensures Reachable(t) && t == System(After(s.committed, Create(parent, child)), {}, s.txns - {i})
  {
    t := System(After(s.committed, Create(parent, child)), {}, s.txns - {i});
    assert s.lock - {i} == {};
    Onward(s, i, Commit, t);
  }

  /** Unit 1 under the root, and a deletion of it that has found no children. */
  lemma DeleteChecked() returns (s: System)
    ensures Reachable(s) && s.lock == {} && s.txns == map[2 := Txn(Delete(U(1)), Ready)]
    ensures s.committed == Tables(U(0), {U(0), U(1)}, {}, {Edge(U(0), U(1))})
  {
    s := System(Tables(U(0), {U(0)}, {}, {}), {}, map[]);
    assert IsRun(false, [s], []);
    s := CreateAlmost(s, 1, U(0), U(1));
    s := CreateCommits(s, 1, U(0), U(1));
    var t := s.(txns := map[2 := Txn(Delete(U(1)), Begun)]);
    assert s.txns == map[];
    Onward(s, 2, Begin(Delete(U(1))), t);
    s := Advance(t, 2, Check, Ready);
  }

  /** In the code's order a unit can be created under another while that one is being deleted: both
      commit, and a live unit hangs under a deleted one, its only parent. */
  lemma UncheckedDeleteOrphans() returns (s: System)
    ensures Reachable(s) && !NoOrphans(s.committed)
    ensures U(2) in s.committed.live && U(1) in s.committed.deleted && s.committed.edges == {Edge(U(0), U(1)), Edge(U(1), U(2))}
  {
    s := DeleteChecked();
    s := CreateAlmost(s, 1, U(1), U(2));
    s := CreateCommits(s, 1, U(1), U(2));
    assert s.txns == map[2 := Txn(Delete(U(1)), Ready)];
    var t := System(After(s.committed, Delete(U(1))), {}, map[]);
    assert s.lock - {2} == {} && s.txns - {2} == map[];
    Onward(s, 2, Commit, t);
    s := t;
    assert Edge(U(1), U(2)) in s.committed.edges;
  }
}
