/** What every run of the directory guarantees: reachability of the root, and moves that survive
    any schedule of failures, crashes and resumes. */
module MoveRuns {
  import opened Options
  import opened Paths
  import opened Directory

  /** Every live unit has a live path up to the root. */
  lemma EveryLiveUnitReachesRoot(states: seq<System>, actions: seq<Action>, n: nat, u: UnitId)
    requires IsRun(states, actions) && n <= |actions|
    requires u in states[n].dir.live
    ensures exists p :: Connects(states[n].dir.edges, states[n].dir.root, u, p)
                        && forall i :: 0 <= i < |p| ==> p[i] in states[n].dir.live
  {
    RunKeepsInv(states, actions, n);
    var p := Climb(states[n].dir, u, [u]);
  }

  /** Climbing parent by parent ends at the root, because paths of an acyclic graph are bounded. */
  lemma {:induction false} Climb(d: Dir, u: UnitId, p: seq<UnitId>) returns (q: seq<UnitId>)
    requires UnitsOk(d) && |p| > 0 && Connects(d.edges, p[0], u, p)
    requires forall i :: 0 <= i < |p| ==> p[i] in d.live
    ensures Connects(d.edges, d.root, u, q) && forall i :: 0 <= i < |q| ==> q[i] in d.live
    decreases |Nodes(d.edges)| + 1 - |p|
  {
    AcyclicPathBounded(d.edges, p);
    if p[0] == d.root {
      q := p;
    } else {
      var parent :| parent in Parents(d.edges, p[0]);
      EdgeReach(d.edges, parent, p[0]);
      Append(d.edges, parent, p[0], u, [parent, p[0]], p);
      var longer := [parent, p[0]] + p[1..];
      assert longer == [parent] + p;
      assert Edge(parent, p[0]) in d.edges;
      AcyclicPathBounded(d.edges, longer);
      q := Climb(d, u, longer);
    }
  }

  /** The job status implies which of the two edges exist; VERIFIED means the parents are the old
      ones, minus the old parent, plus the new one. */
  lemma StatusTellsParents(states: seq<System>, actions: seq<Action>, n: nat, i: nat)
    requires IsRun(states, actions) && n <= |actions| && IsLatest(states[n].dir.jobs, i)
    ensures var d, j := states[n].dir, states[n].dir.jobs[i];
            var old_, new_ := Edge(j.oldParent, j.unit), Edge(j.newParent, j.unit);
            var parents := Parents(d.edges, j.unit);
            && j.oldParent != j.newParent
            && (j.status.Pending? && j.oldParent in j.startParents ==> old_ in d.edges)
            && (j.status.NewEdgeAdded? ==> new_ in d.edges)
            && (j.status.OldEdgeRemoved? || j.status.Verified? ==> new_ in d.edges && old_ !in d.edges)
            && (j.status.Verified? ==> parents == Moved(j))
            && (j.status.Failed? ==> parents in {j.startParents, Added(j), Moved(j)})
  {
    RunKeepsInv(states, actions, n);
    var d, j := states[n].dir, states[n].dir.jobs[i];
    assert Accounts(d, j);
    assert forall p :: p in Parents(d.edges, j.unit) <==> Edge(p, j.unit) in d.edges;
  }

  /** What a VERIFIED job did, exactly: it took one parent for one other if and only if, when it was
      inserted, the old parent was a parent and the new one was not. The number of parents is the same
      if and only if just one of the two was. */
  lemma MoveExchangesIff(states: seq<System>, actions: seq<Action>, n: nat, i: nat)
    requires IsRun(states, actions) && n <= |actions| && IsLatest(states[n].dir.jobs, i)
    requires states[n].dir.jobs[i].status.Verified?
    ensures var j := states[n].dir.jobs[i];
            var before, after := j.startParents, Parents(states[n].dir.edges, j.unit);
            && (before - after == {j.oldParent} && after - before == {j.newParent} <==> j.oldParent in before && j.newParent !in before)
            && (|after| == |before| <==> (j.oldParent in before <==> j.newParent !in before))
  {
    StatusTellsParents(states, actions, n, i);
    var j := states[n].dir.jobs[i];
    var before, after := j.startParents, Parents(states[n].dir.edges, j.unit);
    ExchangedIff(before, after, j.oldParent, j.newParent);
    ExchangedCount(before, after, j.oldParent, j.newParent);
  }

  lemma ExchangedIff(before: set<UnitId>, after: set<UnitId>, out: UnitId, in_: UnitId)
    requires out != in_ && after == before - {out} + {in_}
    ensures before - after == {out} && after - before == {in_} <==> out in before && in_ !in before
  {
    assert out in before <==> out in before - after;
    assert in_ !in before <==> in_ in after - before;
    assert before - after == {out} * before && after - before == {in_} - before;
  }

  lemma Without(s: set<UnitId>, x: UnitId)
    ensures |s - {x}| == |s| - if x in s then 1 else 0
  {
    assert x !in s ==> s - {x} == s;
  }

  lemma ExchangedCount(before: set<UnitId>, after: set<UnitId>, out: UnitId, in_: UnitId)
    requires out != in_ && after == before - {out} + {in_}
    ensures |after| == |before| <==> (out in before <==> in_ !in before)
  {
    var rest := before - {out};
    Without(before, out);
    Without(after, in_);
    Without(rest, in_);
    assert after - {in_} == rest - {in_};
  }

  // ---- how a drive ends

  /** Verification never turns a live unit's move down: only a fault of the store can. */
  lemma VerificationPasses(d: Dir, i: nat)
    requires Inv(Quiet(d)) && i < |d.jobs| && d.jobs[i].status.OldEdgeRemoved?
    ensures Succeeds(d, d.jobs[i], false) <==> d.jobs[i].newParent in d.live
    ensures d.jobs[i].unit in d.live ==> d.jobs[i].newParent in d.live
  {
    var j := d.jobs[i];
    assert IsLatest(d.jobs, i);
    assert j.newParent in Parents(d.edges, j.unit);
    EdgeReach(d.edges, j.newParent, j.unit);
    PathNotLoop(d.edges, j.newParent, j.unit);
    assert Edge(j.newParent, j.unit).child == j.unit;
  }

  /** The last two phases of a fault-free drive. */
  lemma TailOfDrive(d: Dir, i: nat)
    requires Inv(Quiet(d)) && i < |d.jobs| && InProgress(d.jobs[i]) && !d.jobs[i].status.Pending?
    ensures var j, t := d.jobs[i], PhaseIfDue(PhaseIfDue(d, i, RemoveOld, NO_FAULT), i, Verify, NO_FAULT);
            && t.jobs[i] == j.(status := if j.newParent in d.live then MoveStatus.Verified else Failed(Verify))
            && t.edges == d.edges - {Edge(j.oldParent, j.unit)}
  {
    var j := d.jobs[i];
    assert IsLatest(d.jobs, i) && Accounts(d, j);
    PhaseIfDueKeepsInv(d, i, RemoveOld, NO_FAULT);
    var e := PhaseIfDue(d, i, RemoveOld, NO_FAULT);
    VerificationPasses(e, i);
    if j.status.OldEdgeRemoved? {
      assert j.oldParent !in Parents(d.edges, j.unit);
    }
  }

  /** How a fault-free drive ends, from any status: VERIFIED exactly when the new edge could still be
      added, or was, and the new parent is not deleted; a refused addition leaves every edge in place. */
  lemma DriveOutcome(d: Dir, i: nat)
    requires Inv(Quiet(d)) && i < |d.jobs| && InProgress(d.jobs[i])
    ensures var j, t := d.jobs[i], Driven(d, i, NO_FAULTS);
            && (t.jobs[i].status.Verified? <==>
                  j.newParent in d.live && (j.status.Pending? ==> j.unit in d.live && !Reaches(d.edges, j.unit, j.newParent)))
            && (t.jobs[i].status.Verified? ==>
                  && t.jobs[i] == j.(status := MoveStatus.Verified)
                  && t.edges == d.edges + {Edge(j.newParent, j.unit)} - {Edge(j.oldParent, j.unit)}
                  && Parents(t.edges, j.unit) == Moved(j))
            && (j.status.Pending? && !CanAdd(d, j) ==> t == d.(jobs := d.jobs[i := j.(status := Failed(AddNew))]))
  {
    var j := d.jobs[i];
    assert IsLatest(d.jobs, i) && Accounts(d, j);
    PhaseIfDueKeepsInv(d, i, AddNew, NO_FAULT);
    var e := PhaseIfDue(d, i, AddNew, NO_FAULT);
    DrivenKeepsInv(d, i, NO_FAULTS);
    var t := Driven(d, i, NO_FAULTS);
    if j.status.Pending? && !CanAdd(d, j) {
      assert e == t;
    } else {
      TailOfDrive(e, i);
      if !j.status.Pending? {
        assert j.newParent in Parents(d.edges, j.unit);
        assert d.edges + {Edge(j.newParent, j.unit)} == d.edges;
      }
      DrivenAccounts(d, i);
    }
  }

  lemma DrivenAccounts(d: Dir, i: nat)
    requires Inv(Quiet(d)) && i < |d.jobs| && IsLatest(d.jobs, i)
    ensures Accounts(Driven(d, i, NO_FAULTS), Driven(d, i, NO_FAULTS).jobs[i])
  {
    DrivenKeepsInv(d, i, NO_FAULTS);
    PhaseKeepsLatest(d, i, AddNew);
    var d1 := PhaseIfDue(d, i, AddNew, NO_FAULT);
    PhaseKeepsLatest(d1, i, RemoveOld);
    var d2 := PhaseIfDue(d1, i, RemoveOld, NO_FAULT);
    PhaseKeepsLatest(d2, i, Verify);
  }

  lemma PhaseKeepsLatest(d: Dir, i: nat, phase: Phase)
    requires IsLatest(d.jobs, i)
    ensures IsLatest(PhaseIfDue(d, i, phase, NO_FAULT).jobs, i)
  {
    SameUnitsSameLatest(d.jobs, i, PhaseIfDue(d, i, phase, NO_FAULT).jobs[i]);
  }

  /** Once its new edge is in, a live unit's job is driven to VERIFIED by any fault-free resume. */
  lemma ResumeFinishes(d: Dir, i: nat)
    requires Inv(Quiet(d)) && i < |d.jobs| && InProgress(d.jobs[i])
    requires d.jobs[i].unit in d.live && !d.jobs[i].status.Pending?
    ensures Driven(d, i, NO_FAULTS).jobs[i] == d.jobs[i].(status := MoveStatus.Verified)
    ensures Parents(Driven(d, i, NO_FAULTS).edges, d.jobs[i].unit) == Moved(d.jobs[i])
  {
    var j := d.jobs[i];
    assert IsLatest(d.jobs, i) && Accounts(d, j);
    assert j.newParent in Parents(d.edges, j.unit);
    assert Edge(j.newParent, j.unit).child == j.unit;
    DriveOutcome(d, i);
  }

  // ---- a move under the unit's own descendant

  /** The driver has found that the new edge cannot be added, and nothing has changed. */
  ghost predicate IsRefused(s: System, i: nat) {
    && i < |s.dir.jobs| && s.dir.jobs[i].status.Pending?
    && i in s.memory && !s.memory[i]
    && Parents(s.dir.edges, s.dir.jobs[i].unit) == s.dir.jobs[i].startParents
  }

  /** A move under the unit's own descendant is refused: the transaction changes nothing, */
  lemma MoveUnderDescendantIsRefused(s: System, i: nat, fault: bool, t: System)
    requires Inv(s) && Step(s, Work(i, fault), t)
    requires s.dir.jobs[i].status.Pending? && Reaches(s.dir.edges, s.dir.jobs[i].unit, s.dir.jobs[i].newParent)
    ensures t.dir == s.dir && IsRefused(t, i)
  {
    var d, j := s.dir, s.dir.jobs[i];
    assert IsLatest(d.jobs, i);
    if Edge(j.newParent, j.unit) in d.edges {
      EdgeReach(d.edges, j.newParent, j.unit);
      NoWayBack(d.edges, j.newParent, j.unit);
      PathNotLoop(d.edges, j.newParent, j.unit);
    }
  }

  /** whatever happens before the driver goes on, the refusal stands, */
  lemma RefusalStands(s: System, action: Action, t: System, i: nat)
    requires Inv(s) && Step(s, action, t) && IsRefused(s, i) && action != Record(i) && action != Crash(i)
    ensures IsRefused(t, i)
  {
    var j := s.dir.jobs[i];
    match action
    case CreateUnit(parent, child) =>
      ParentsAfterAdd(s.dir.edges, parent, child, j.unit);
    case Work(k, fault) =>
      assert IsLatest(s.dir.jobs, i) && IsLatest(s.dir.jobs, k);
      OtherLatest(s.dir.jobs, i, k);
      WorkKeepsAccount(s.dir, s.dir.jobs[k], fault);
    case _ =>
  }

  /** and then the job fails with the parents it began with. */
  lemma RefusedMoveFails(s: System, i: nat, t: System)
    requires IsRefused(s, i) && Step(s, Record(i), t)
    ensures t.dir == s.dir.(jobs := s.dir.jobs[i := s.dir.jobs[i].(status := Failed(AddNew))])
    ensures Parents(t.dir.edges, t.dir.jobs[i].unit) == t.dir.jobs[i].startParents
  {}

  // ---- two calls that start moves of one unit

  /** The old parent a job is started with is still a parent, unless another move of the unit was begun
      since this call found no live one. */
  lemma UndisturbedStartIsCurrent(s: System, c: nat, t: System)
    requires Inv(s) && Step(s, StartMove(c), t)
    requires s.asked[c].unit in s.dir.live && IsUndisturbed(s.dir, s.asked[c])
    ensures var j := t.dir.jobs[|s.dir.jobs|]; j.oldParent in j.startParents && j.startParents == Parents(t.dir.edges, j.unit)
  {
    assert AskOk(s.dir, s.asked[c]);
  }

  ghost predicate Reachable(s: System) {
    exists states, actions :: IsRun(states, actions) && states[|actions|] == s
  }

  lemma Onward(s: System, action: Action, t: System)
    requires Reachable(s) && Step(s, action, t)
    ensures Reachable(t)
  {
    var states, actions :| IsRun(states, actions) && states[|actions|] == s;
    var more, moreActions := states + [t], actions + [action];
    forall n | 0 <= n < |moreActions|
      ensures Step(more[n], moreActions[n], more[n+1])
    {
      assert n < |actions| ==> more[n] == states[n] && more[n+1] == states[n+1] && moreActions[n] == actions[n];
    }
    assert IsRun(more, moreActions) && more[|moreActions|] == t;
  }

  lemma ReachableInv(s: System)
    requires Reachable(s)
    ensures Inv(s)
  {
    var states, actions :| IsRun(states, actions) && states[|actions|] == s;
    RunKeepsInv(states, actions, |actions|);
  }

  /** One phase of one job, worked and recorded without a fault. */
  lemma PhaseOnward(s: System, i: nat) returns (t: System)
    requires Reachable(s) && i < |s.dir.jobs| && InProgress(s.dir.jobs[i]) && i !in s.memory
    ensures Reachable(t) && t == System(AfterPhase(s.dir, i, NO_FAULT), s.memory, s.asked)
  {
    var d, j := s.dir, s.dir.jobs[i];
    var worked := System(d.(edges := EdgesAfter(d, j, false)), s.memory[i := Succeeds(d, j, false)], s.asked);
    Onward(s, Work(i, false), worked);
    t := System(AfterPhase(d, i, NO_FAULT), worked.memory - {i}, s.asked);
    Onward(worked, Record(i), t);
    assert t.memory == s.memory;
  }

  /** A whole fault-free drive as a run. */
  lemma DriveOnward(s: System, i: nat) returns (t: System)
    requires Reachable(s) && i < |s.dir.jobs| && s.memory == map[]
    ensures Reachable(t) && t == System(Driven(s.dir, i, NO_FAULTS), map[], s.asked)
  {
    t := s;
    if IsDue(t.dir, i, AddNew) { t := PhaseOnward(t, i); }
    if IsDue(t.dir, i, RemoveOld) { t := PhaseOnward(t, i); }
    if IsDue(t.dir, i, Verify) { t := PhaseOnward(t, i); }
  }

  /** A call inserts its job and drives it to the end; nothing hangs below the moved unit. */
  lemma StartAndDrive(s: System, c: nat) returns (t: System)
    requires Reachable(s) && s.memory == map[] && c in s.asked && s.asked[c].known.Told?
    requires LiveJob(s.dir.jobs, s.asked[c].unit) < 0 && s.asked[c].known.parent != s.asked[c].newParent
    requires s.asked[c].unit in s.dir.live && s.asked[c].newParent in s.dir.live && s.asked[c].unit != s.asked[c].newParent
    requires forall e :: e in s.dir.edges ==> e.parent != s.asked[c].unit
    ensures Reachable(t) && t.memory == map[] && t.asked == s.asked - {c}
    ensures var k := s.asked[c];
            && t.dir == s.dir.(edges := t.dir.edges, jobs := t.dir.jobs)
            && t.dir.edges == s.dir.edges + {Edge(k.newParent, k.unit)} - {Edge(k.known.parent, k.unit)}
            && |t.dir.jobs| == |s.dir.jobs| + 1
            && t.dir.jobs[|s.dir.jobs|] == MoveJob(k.unit, k.known.parent, k.newParent, MoveStatus.Verified, Parents(s.dir.edges, k.unit))
  {
    var k := s.asked[c];
    var begun := System(WithJob(s.dir, k.unit, k.known.parent, k.newParent), map[], s.asked - {c});
    Onward(s, StartMove(c), begun);
    ReachableInv(begun);
    NoEdgeOut(s.dir.edges, k.unit, k.newParent);
    QuietInv(begun);
    DriveOutcome(begun.dir, |s.dir.jobs|);
    t := DriveOnward(begun, |s.dir.jobs|);
  }

  /** When two calls overlap, the later job can be VERIFIED and leave its unit under two parents: it
      removes a parent the earlier move had already removed, and keeps the one that move put there. */
  lemma RacedStartKeepsAParent() returns (s: System)
    ensures Reachable(s) && IsLatest(s.dir.jobs, 1) && s.dir.jobs[1].status.Verified?
    ensures var j := s.dir.jobs[1]; |j.startParents| == 1 && |Parents(s.dir.edges, j.unit)| == 2
  {
    s := TwoCallsHaveRead();
    s := StartAndDrive(s, 1);
    assert s.dir.edges == {Edge(U(0), U(1)), Edge(U(0), U(2)), Edge(U(1), U(3))};
    assert Parents(s.dir.edges, U(3)) == {U(1)};
    s := StartAndDrive(s, 0);
    assert Parents(s.dir.edges, U(3)) == {U(1), U(2)};
  }

  lemma QuietInv(s: System)
    requires Inv(s)
    ensures Inv(Quiet(s.dir))
  {}

  lemma NoEdgeOut(edges: set<Edge>, a: UnitId, d: UnitId)
    requires a != d && forall e :: e in edges ==> e.parent != a
    ensures !Reaches(edges, a, d)
  {
    if Reaches(edges, a, d) {
      LeavesByEdge(edges, a, d);
    }
  }

  /** Units 1, 2 and 3 under the root; two calls have read that 3 is under the root. */
  lemma TwoCallsHaveRead() returns (s: System)
    ensures Reachable(s) && s.memory == map[]
    ensures s.dir == Dir(U(0), {U(0), U(1), U(2), U(3)}, {}, {Edge(U(0), U(1)), Edge(U(0), U(2)), Edge(U(0), U(3))}, [])
    ensures s.asked == map[0 := Ask(U(3), U(2), Told(U(0)), 0), 1 := Ask(U(3), U(1), Told(U(0)), 0)]
  {
    s := Quiet(Dir(U(0), {U(0)}, {}, {}, []));
    assert IsRun([s], []);
    s := CreatedUnderRoot(s, U(1));
    s := CreatedUnderRoot(s, U(2));
    s := CreatedUnderRoot(s, U(3));
    assert s.dir.edges == {Edge(U(0), U(1)), Edge(U(0), U(2)), Edge(U(0), U(3))};
    s := ReadBoth(s, 0, U(2));
    s := ReadBoth(s, 1, U(1));
  }

  lemma CreatedUnderRoot(s: System, u: UnitId) returns (t: System)
    requires Reachable(s) && s.dir.root in s.dir.live && u !in s.dir.live + s.dir.deleted
    ensures t == s.(dir := s.dir.(live := s.dir.live + {u}, edges := s.dir.edges + {Edge(s.dir.root, u)})) && Reachable(t)
  {
    t := s.(dir := s.dir.(live := s.dir.live + {u}, edges := s.dir.edges + {Edge(s.dir.root, u)}));
    Onward(s, CreateUnit(s.dir.root, u), t);
  }

  lemma ReadBoth(s: System, c: nat, newParent: UnitId) returns (t: System)
    requires Reachable(s) && c !in s.asked && s.dir.jobs == [] && s.dir.root == U(0) && U(0) in s.dir.live
    requires s.dir.edges == {Edge(U(0), U(1)), Edge(U(0), U(2)), Edge(U(0), U(3))}
    ensures t == s.(asked := s.asked[c := Ask(U(3), newParent, Told(U(0)), 0)]) && Reachable(t)
  {
    var asked := s.(asked := s.asked[c := Ask(U(3), newParent, Unread, 0)]);
    Onward(s, LookForLive(c, U(3), newParent), asked);
    var read := s.(asked := s.asked[c := Ask(U(3), newParent, Untold, 0)]);
    Onward(asked, ReadHistory(c), read);
    OnlyParentIsNearest(s.dir, U(3), U(0));
    t := s.(asked := s.asked[c := Ask(U(3), newParent, Told(U(0)), 0)]);
    Onward(read, ReadGraph(c, U(0)), t);
  }

  lemma OnlyParentIsNearest(d: Dir, u: UnitId, p: UnitId)
    requires p != u && p in d.live && Edge(p, u) in d.edges && forall e :: e in d.edges ==> e.parent == p
    ensures IsNearest(d, p, u)
  {
    EdgeReach(d.edges, p, u);
    forall b | IsLiveAncestor(d, b, u)
      ensures b == p
    {
      LeavesByEdge(d.edges, b, u);
    }
  }

  // ---- deleted units

  /** For a deleted unit currentParent can name a unit that was never its parent: here unit 2 hangs
      under the deleted unit 1, and its nearest live ancestor is the root. */
  lemma DeletedUnitNamesNonParent() returns (states: seq<System>, actions: seq<Action>)
    ensures IsRun(states, actions)
    ensures U(2) in states[|actions|].dir.deleted && IsCurrentParent(states[|actions|].dir, U(2), U(0))
    ensures forall n :: 0 <= n <= |actions| ==> Edge(U(0), U(2)) !in states[n].dir.edges
  {
    var zero, one, two := U(0), U(1), U(2);
    var e1, e2 := Edge(zero, one), Edge(one, two);
    var s0 := Quiet(Dir(zero, {zero}, {}, {}, []));
    var s1 := Quiet(Dir(zero, {zero, one}, {}, {e1}, []));
    var s2 := Quiet(Dir(zero, {zero, one, two}, {}, {e1, e2}, []));
    var s3 := Quiet(Dir(zero, {zero, one}, {two}, {e1, e2}, []));
    var s4 := Quiet(Dir(zero, {zero}, {one, two}, {e1, e2}, []));
    states, actions := [s0, s1, s2, s3, s4], [CreateUnit(zero, one), CreateUnit(one, two), DeleteUnit(two), DeleteUnit(one)];
    assert Step(s0, CreateUnit(zero, one), s1);
    assert Step(s1, CreateUnit(one, two), s2);
    assert Step(s2, DeleteUnit(two), s3);
    assert Step(s3, DeleteUnit(one), s4);
    assert Connects({e1, e2}, zero, two, [zero, one, two]);
    assert IsLiveAncestor(s4.dir, zero, two);
    assert IsNearest(s4.dir, zero, two);
  }
}
