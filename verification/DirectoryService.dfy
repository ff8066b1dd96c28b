/** The directory service over its tables: unit creation and deletion, edge changes, and the move
    driver, each transaction changing the stored rows in place. */
module DirectoryService {
  import opened Options
  import opened Paths
  import opened Closure
  import opened GraphTables
  import opened Directory

  datatype EdgeResult = EdgeDone | EdgeWouldCycle | EdgeThere | UnitMissing

  datatype DeleteResult = UnitDeleted | RootProtected | UnitHasChildren | UnitHasProfile | UnitHasAssignments | UnitNotFound

  datatype MoveResult = MoveRan(job: MoveJob) | MoveOfRoot | AlreadyAtParent | MoveConflict | NoCurrentParent | NoSuchUnit
    | StatusNotStored

  datatype Found = Parent(id: UnitId) | NoParent

  class Service {
    const root: UnitId
    var live: set<UnitId>
    var deleted: set<UnitId>
    var jobs: seq<MoveJob>
    const tables: Tables

    ghost function State(): Dir
      reads this, tables
    {
      Dir(root, live, deleted, tables.edges, jobs)
    }

    ghost predicate Valid()
      reads this, tables
    {
      tables.Valid() && Inv(Quiet(State()))
    }

    constructor (root: UnitId)
      ensures Valid() && fresh(tables)
      ensures State() == Dir(root, {root}, {}, {}, [])
    {
      this.root, live, deleted, jobs := root, {root}, {}, [];
      tables := new Tables();
      new;
      InitHolds(Quiet(State()));
    }

    // ---- units

    /** CreateUnitWithEdge; child is the id minted for the new unit. */
    method CreateUnitWithEdge(parent: UnitId, child: UnitId) returns (ok: bool)
      requires Valid() && child !in live + deleted
      modifies this, tables
      ensures Valid() && ok == (parent in old(live))
      ensures ok ==> Step(Quiet(old(State())), CreateUnit(parent, child), Quiet(State()))
      ensures ok ==> live == old(live) + {child} && tables.edges == old(tables.edges) + {Edge(parent, child)}
      ensures deleted == old(deleted) && jobs == old(jobs)
      ensures !ok ==> State() == old(State())
    {
      if parent !in live {
        return false;
      }
      ghost var before := Quiet(State());
      assert forall e :: e in tables.edges ==> e.parent != child && e.child != child;
      tables.AttachFresh(parent, child);
      live := live + {child};
      ok := true;
      StepKeepsInv(before, CreateUnit(parent, child), Quiet(State()));
    }

    method HasChildren(u: UnitId) returns (has: bool)
      ensures has <==> exists c :: Edge(u, c) in tables.edges && c in live
    {
      has := exists e | e in tables.edges :: e.parent == u && e.child in live;
      assert forall e :: e in tables.edges && e.parent == u ==> e == Edge(u, e.child);
    }

    /** core's DeleteUnit with directory's inside: the guards in their order, then the soft delete.
        The other modules' two checks come in as their answers. */
    method DeleteUnit(u: UnitId, hasProfile: bool, hasAssignments: bool) returns (r: DeleteResult)
      requires Valid()
      modifies this`live, this`deleted
      ensures Valid()
      ensures r == (if u == root then RootProtected
                    else if exists c :: Edge(u, c) in tables.edges && c in old(live) then UnitHasChildren
                    else if hasProfile then UnitHasProfile
                    else if hasAssignments then UnitHasAssignments
                    else if u !in old(live) then UnitNotFound
                    else UnitDeleted)
      ensures r.UnitDeleted? ==> Step(Quiet(old(State())), Action.DeleteUnit(u), Quiet(State()))
      ensures r.UnitDeleted? ==> live == old(live) - {u} && deleted == old(deleted) + {u}
      ensures !r.UnitDeleted? ==> State() == old(State())
    {
      if u == root {
        return RootProtected;
      }
      var has := HasChildren(u);
      if has {
        return UnitHasChildren;
      }
      if hasProfile {
        return UnitHasProfile;
      }
      if hasAssignments {
        return UnitHasAssignments;
      }
      if u !in live {
        return UnitNotFound;
      }
      ghost var before := Quiet(State());
      live, deleted := live - {u}, deleted + {u};
      r := UnitDeleted;
      StepKeepsInv(before, Action.DeleteUnit(u), Quiet(State()));
    }

    // ---- edges

    method AddEdge(child: UnitId, parent: UnitId) returns (r: EdgeResult)
      requires tables.Valid()
      modifies tables
      ensures tables.Valid()
      ensures r == (if parent == child then EdgeWouldCycle
                    else if child !in live || parent !in live then UnitMissing
                    else if Reaches(old(tables.edges), child, parent) then EdgeWouldCycle
                    else if Edge(parent, child) in old(tables.edges) then EdgeThere
                    else EdgeDone)
      ensures tables.edges == if r.EdgeDone? then old(tables.edges) + {Edge(parent, child)} else old(tables.edges)
    {
      if parent == child {
        SelfReach(tables.edges, child);
        return EdgeWouldCycle;
      }
      if child !in live || parent !in live {
        return UnitMissing;
      }
      var out := tables.AddEdge(child, parent);
      r := match out case EdgeOk => EdgeDone case EdgeCycle => EdgeWouldCycle case EdgeExists => EdgeThere;
    }

    // ---- ancestors

    /** Strict ancestors that are not deleted, nearest first. */
    method ListAncestors(u: UnitId) returns (list: seq<UnitId>)
      requires tables.Valid()
      ensures forall a :: a in list <==> a in live && a != u && Reaches(tables.edges, a, u)
      ensures NearestFirst(tables.closure, u, list)
      ensures forall i, k :: 0 <= i < k < |list| ==>
                list[i] != list[k] && Reaches(tables.edges, list[i], u) && Reaches(tables.edges, list[k], u)
                && Distance(tables.edges, list[i], u) <= Distance(tables.edges, list[k], u)
    {
      var rows := tables.closure;
      var found := set a | a in AncestorsOf(rows, u) && rows[(a, u)] > 0 && a in live;
      LiveAncestorRows(State(), rows, u);
      list := SortByDepth(rows, u, found);
    }

    /** currentParent, as job history or the graph tells it. */
    method CurrentParent(u: UnitId) returns (r: Found)
      requires tables.Valid()
      ensures r.Parent? ==> IsCurrentParent(State(), u, r.id)
      ensures r.NoParent? ==> forall p :: !IsCurrentParent(State(), u, p)
      ensures (exists i :: IsLastMove(jobs, u, i) && jobs[i].status.Verified?) ==>
                exists i :: IsLastMove(jobs, u, i) && r == Parent(jobs[i].newParent)
      ensures !(exists i :: IsLastMove(jobs, u, i) && jobs[i].status.Verified?) ==>
                (r.NoParent? <==> forall a :: a in live && a != u ==> !Reaches(tables.edges, a, u))
    {
      var i := Latest(jobs, u);
      if 0 <= i && jobs[i].status.Verified? {
        return Parent(jobs[i].newParent);
      }
      var ancestors := ListAncestors(u);
      if ancestors == [] {
        return NoParent;
      }
      FirstIsNearest(State(), tables.closure, u, ancestors);
      r := Parent(ancestors[0]);
    }

    // ---- moves

    /** The root guard of core's MoveUnit, then Move: resume the live job for the same target, or
        start one. */
    method Move(u: UnitId, newParent: UnitId, faults: Faults) returns (r: MoveResult)
      requires Valid()
      modifies this`jobs, tables
      ensures Valid() && Moves(old(State()), u, newParent, faults, r, State())
      ensures r.MoveOfRoot? <==> u == root
      ensures r.MoveConflict? <==> u != root && exists i :: IsUnderWay(old(State()), i, u) && old(jobs)[i].newParent != newParent
      ensures r.MoveRan? ==> r.job.unit == u && r.job.newParent == newParent && r.job in jobs && (r.job.status.Verified? || r.job.status.Failed?)
      ensures r.StatusNotStored? ==> exists i :: IsUnderWay(State(), i, u) && jobs[i].newParent == newParent
      ensures !r.MoveRan? && !r.StatusNotStored? ==> State() == old(State())
    {
      ghost var before := State();
      r := StartOrResume(u, newParent, faults);
      MoveKeepsInv(before, u, newParent, faults, r, State());
      MoveAnswersRequest(before, u, newParent, faults, r, State());
    }

    method StartOrResume(u: UnitId, newParent: UnitId, faults: Faults) returns (r: MoveResult)
      requires tables.Valid()
      modifies this`jobs, tables
      ensures tables.Valid() && Moves(old(State()), u, newParent, faults, r, State())
    {
      if u == root {
        return MoveOfRoot;
      }
      var i := LiveJob(jobs, u);
      if 0 <= i {
        if jobs[i].newParent != newParent {
          return MoveConflict;
        }
        var stored := RunMoveSteps(i, faults);
        return if stored then MoveRan(jobs[i]) else StatusNotStored;
      }
      var found := CurrentParent(u);
      if found.NoParent? {
        return NoCurrentParent;
      }
      if found.id == newParent {
        return AlreadyAtParent;
      }
      if u !in live + deleted || newParent !in live + deleted {
        return NoSuchUnit;  // the job row's foreign keys
      }
      i := |jobs|;
      jobs := jobs + [MoveJob(u, found.id, newParent, Pending, Parents(tables.edges, u))];
      var stored := RunMoveSteps(i, faults);
      r := if stored then MoveRan(jobs[i]) else StatusNotStored;
    }

    /** Each phase is its own transaction, and its outcome is stored before the next one runs; if it
        cannot be stored the call ends there with an error. */
    method RunMoveSteps(i: nat, faults: Faults) returns (stored: bool)
      requires tables.Valid() && i < |jobs|
      modifies this`jobs, tables
      ensures tables.Valid()
      ensures |jobs| == |old(jobs)| && State() == Driven(old(State()), i, faults)
      ensures stored <==> !LosesWrite(old(State()), i, faults)
    {
      stored := true;
      if jobs[i].status.Pending? {
        stored := RunPhase(i, faults.add);
        if !stored { return; }
      }
      if jobs[i].status.NewEdgeAdded? {
        stored := RunPhase(i, faults.remove);
        if !stored { return; }
      }
      if jobs[i].status.OldEdgeRemoved? {
        stored := RunPhase(i, faults.verify);
      }
    }

    method RunPhase(i: nat, fault: Fault) returns (stored: bool)
      requires tables.Valid() && i < |jobs| && InProgress(jobs[i])
      modifies this`jobs, tables
      ensures tables.Valid()
      ensures State() == AfterPhase(old(State()), i, fault)
      ensures stored <==> !fault.write
      ensures !stored ==> jobs == old(jobs)
    {
      var j := jobs[i];
      var success := false;
      if !fault.transaction {
        match PhaseOf(j)
        case AddNew =>
          ghost var e, before := Edge(j.newParent, j.unit), tables.edges;
          assert e in before ==> before + {e} == before;
          SelfReach(before, j.unit);
          var r := AddEdge(j.unit, j.newParent);
          success := r.EdgeDone? || r.EdgeThere?;
        case RemoveOld =>
          var _ := tables.RemoveEdge(j.unit, j.oldParent);
          success := true;
        case Verify =>
          var ancestors := ListAncestors(j.unit);
          success := j.newParent in ancestors;
      }
      if fault.write {
        return false;
      }
      jobs := jobs[i := Recorded(j, success)];
      stored := true;
    }
  }

  /** What a Move call does to the directory d, and what it answers. */
  ghost predicate Moves(d: Dir, u: UnitId, newParent: UnitId, faults: Faults, r: MoveResult, t: Dir) {
    var i := LiveJob(d.jobs, u);
    var resuming := 0 <= i;
    if u == d.root then r.MoveOfRoot? && t == d
    else if resuming && d.jobs[i].newParent != newParent then r.MoveConflict? && t == d
    else if resuming then Drives(d, i, faults, r, t)
    else if r.MoveRan? || r.StatusNotStored? then
      exists p ::
        && IsCurrentParent(d, u, p) && p != newParent
        && u in d.live + d.deleted && newParent in d.live + d.deleted
        && Drives(WithJob(d, u, p, newParent), |d.jobs|, faults, r, t)
    else
      && t == d
      && match r
         case NoCurrentParent => forall p :: !IsCurrentParent(d, u, p)
         case AlreadyAtParent => IsCurrentParent(d, u, newParent)
         case NoSuchUnit => u !in d.live + d.deleted || newParent !in d.live + d.deleted
         case _ => false
  }

  /** A drive of job i: the job as it then stands, or the error of a lost status write. */
  ghost predicate Drives(d: Dir, i: nat, faults: Faults, r: MoveResult, t: Dir) {
    && i < |d.jobs| && i < |t.jobs| && t == Driven(d, i, faults)
    && r == if LosesWrite(d, i, faults) then StatusNotStored else MoveRan(t.jobs[i])
  }

  ghost predicate NearestFirst(rows: Rows, u: UnitId, list: seq<UnitId>) {
    && (forall i :: 0 <= i < |list| ==> (list[i], u) in rows)
    && (forall i, k :: 0 <= i < k < |list| ==> list[i] != list[k] && rows[(list[i], u)] <= rows[(list[k], u)])
  }

  /** ORDER BY depth, each unit once; equal depths in any order. */
  method SortByDepth(rows: Rows, u: UnitId, units: set<UnitId>) returns (list: seq<UnitId>)
    requires forall a :: a in units ==> (a, u) in rows
    ensures forall a :: a in list <==> a in units
    ensures NearestFirst(rows, u, list)
  {
    list := [];
    var todo := units;
    while todo != {}
      invariant todo <= units
      invariant forall a :: a in list <==> a in units - todo
      invariant NearestFirst(rows, u, list)
      invariant forall i, a :: 0 <= i < |list| && a in todo ==> rows[(list[i], u)] <= rows[(a, u)]
    {
      var some :| some in todo;
      NearestExists(rows, u, todo, some);
      var a :| a in todo && forall b :: b in todo ==> rows[(a, u)] <= rows[(b, u)];
      assert a !in list;
      list, todo := list + [a], todo - {a};
    }
  }

  lemma FirstIsNearest(d: Dir, rows: Rows, u: UnitId, list: seq<UnitId>)
    requires Acyclic(d.edges) && Exact(d.edges, rows) && list != []
    requires forall a :: a in list <==> IsLiveAncestor(d, a, u)
    requires NearestFirst(rows, u, list)
    ensures IsNearest(d, list[0], u)
  {
    LiveAncestorRows(d, rows, u);
    assert list[0] in list;
    forall b | IsLiveAncestor(d, b, u)
      ensures Distance(d.edges, list[0], u) <= Distance(d.edges, b, u)
    {
      assert b in list;
      var k :| 0 <= k < |list| && list[k] == b;
    }
  }

  lemma LiveAncestorRows(d: Dir, rows: Rows, u: UnitId)
    requires Acyclic(d.edges) && Exact(d.edges, rows)
    ensures forall a :: (a, u) in rows && rows[(a, u)] > 0 && a in d.live <==> IsLiveAncestor(d, a, u)
    ensures forall a :: IsLiveAncestor(d, a, u) ==> rows[(a, u)] == Distance(d.edges, a, u)
  {
    NodesClosed(d.edges);
    forall a | (a, u) in rows
      ensures rows[(a, u)] == Distance(d.edges, a, u)
      ensures rows[(a, u)] > 0 <==> a != u
    {
      DistanceIs(d.edges, a, u, rows[(a, u)]);
      SelfReach(d.edges, u);
      var n := rows[(a, u)];
      assert ReachesIn(d.edges, a, u, n);
    }
  }

  lemma {:induction false} NearestExists(rows: Rows, u: UnitId, s: set<UnitId>, x: UnitId)
    requires x in s && forall a :: a in s ==> (a, u) in rows
    ensures exists a :: a in s && forall b :: b in s ==> rows[(a, u)] <= rows[(b, u)]
    decreases rows[(x, u)]
  {
    if y :| y in s && rows[(y, u)] < rows[(x, u)] {
      NearestExists(rows, u, s, y);
    }
  }

  predicate IsLastMove(jobs: seq<MoveJob>, u: UnitId, i: int) {
    0 <= i < |jobs| && jobs[i].unit == u && forall k :: i < k < |jobs| ==> jobs[k].unit != u
  }

  // ---- what Move's answers mean

  /** Job i of the directory is a move of u that has not ended. */
  predicate IsUnderWay(d: Dir, i: int, u: UnitId) {
    0 <= i < |d.jobs| && d.jobs[i].unit == u && !d.jobs[i].status.Verified? && !d.jobs[i].status.Failed?
  }

  /** The job at i moves the same unit from and to the same places as before. */
  predicate SameMove(j: MoveJob, k: MoveJob) {
    j == k.(status := j.status)
  }

  lemma DrivenIsSameMove(d: Dir, i: nat, faults: Faults)
    requires i < |d.jobs|
    ensures |Driven(d, i, faults).jobs| == |d.jobs| && SameMove(Driven(d, i, faults).jobs[i], d.jobs[i])
    ensures forall k :: 0 <= k < |d.jobs| && k != i ==> Driven(d, i, faults).jobs[k] == d.jobs[k]
  {}

  /** A drive ends its job, unless a status write is lost: then the job is still under way. */
  lemma DriveEndsIff(d: Dir, i: nat, faults: Faults)
    requires i < |d.jobs| && InProgress(d.jobs[i])
    ensures LosesWrite(d, i, faults) <==> InProgress(Driven(d, i, faults).jobs[i])
  {}

  /** Of a unit's jobs only the latest can be under way, so the call meets that one. */
  lemma UnderWayIsLive(d: Dir, i: nat, u: UnitId)
    requires JobsOk(d) && IsUnderWay(d, i, u)
    ensures LiveJob(d.jobs, u) == i
  {
    var k := LiveJob(d.jobs, u);
    NoLiveJob(d.jobs, u);
    assert IsLatest(d.jobs, i) && IsLatest(d.jobs, k);
  }

  /** A move under way is resumed by a call for its own target and refused to any other; the job that
      ran is of this unit, to this parent, and has ended, unless the status could not be stored. */
  lemma MoveAnswersRequest(d: Dir, u: UnitId, newParent: UnitId, faults: Faults, r: MoveResult, t: Dir)
    requires Inv(Quiet(d)) && Moves(d, u, newParent, faults, r, t)
    ensures r.MoveOfRoot? <==> u == d.root
    ensures r.MoveConflict? <==> u != d.root && exists i :: IsUnderWay(d, i, u) && d.jobs[i].newParent != newParent
    ensures r.MoveRan? ==> r.job.unit == u && r.job.newParent == newParent && r.job in t.jobs && (r.job.status.Verified? || r.job.status.Failed?)
    ensures r.StatusNotStored? ==> exists i :: IsUnderWay(t, i, u) && t.jobs[i].newParent == newParent
    ensures !r.MoveRan? && !r.StatusNotStored? ==> t == d
  {
    var i := LiveJob(d.jobs, u);
    forall k | IsUnderWay(d, k, u)
      ensures k == i
    {
      UnderWayIsLive(d, k, u);
    }
    if r.MoveConflict? {
      assert IsUnderWay(d, i, u);
    }
    if r.MoveRan? || r.StatusNotStored? {
      if 0 <= i {
        assert IsUnderWay(d, i, u);
        DriveAnswers(d, i, faults, r, t);
      } else {
        var p :| IsCurrentParent(d, u, p) && Drives(WithJob(d, u, p, newParent), |d.jobs|, faults, r, t);
        DriveAnswers(WithJob(d, u, p, newParent), |d.jobs|, faults, r, t);
      }
    }
  }

  lemma DriveAnswers(d: Dir, i: nat, faults: Faults, r: MoveResult, t: Dir)
    requires Drives(d, i, faults, r, t) && InProgress(d.jobs[i])
    ensures r.MoveRan? ==> SameMove(r.job, d.jobs[i]) && r.job in t.jobs && (r.job.status.Verified? || r.job.status.Failed?)
    ensures r.StatusNotStored? ==> SameMove(t.jobs[i], d.jobs[i]) && IsUnderWay(t, i, d.jobs[i].unit)
  {
    DrivenIsSameMove(d, i, faults);
    DriveEndsIff(d, i, faults);
  }

  lemma MoveKeepsInv(d: Dir, u: UnitId, newParent: UnitId, faults: Faults, r: MoveResult, t: Dir)
    requires Inv(Quiet(d)) && Moves(d, u, newParent, faults, r, t)
    ensures Inv(Quiet(t))
  {
    var i := LiveJob(d.jobs, u);
    if t != d && 0 <= i {
      DrivenKeepsInv(d, i, faults);
    } else if t != d {
      var p :| && IsCurrentParent(d, u, p) && p != newParent
               && u in d.live + d.deleted && newParent in d.live + d.deleted
               && Drives(WithJob(d, u, p, newParent), |d.jobs|, faults, r, t);
      AtomicStartKeepsInv(d, u, newParent, p);
      DrivenKeepsInv(WithJob(d, u, p, newParent), |d.jobs|, faults);
    }
  }

  /** With no other call in between, reading the current parent and inserting the job are steps that
      read one state. */
  lemma AtomicStartKeepsInv(d: Dir, u: UnitId, newParent: UnitId, p: UnitId)
    requires Inv(Quiet(d)) && LiveJob(d.jobs, u) < 0
    requires IsCurrentParent(d, u, p) && p != newParent && u in d.live + d.deleted && newParent in d.live + d.deleted
    ensures Inv(Quiet(WithJob(d, u, p, newParent)))
  {
    var told := ParentRead(d, u, newParent, p);
    var begun := Quiet(WithJob(d, u, p, newParent));
    assert told.asked - {0} == map[];
    assert Step(told, StartMove(0), begun);
    StartKeepsInv(told, 0, begun);
  }

  lemma ParentRead(d: Dir, u: UnitId, newParent: UnitId, p: UnitId) returns (told: System)
    requires Inv(Quiet(d)) && LiveJob(d.jobs, u) < 0 && IsCurrentParent(d, u, p)
    ensures Inv(told) && told == Quiet(d).(asked := map[0 := Ask(u, newParent, Told(p), |d.jobs|)])
  {
    var read := HistoryRead(d, u, newParent);
    var k := read.asked[0];
    told := Quiet(d).(asked := map[0 := k.(known := Told(p))]);
    if k.known.Untold? {
      assert Step(read, ReadGraph(0, p), told);
      ReadGraphKeepsInv(read, 0, p, told);
    } else {
      assert told == read;
    }
  }

  lemma HistoryRead(d: Dir, u: UnitId, newParent: UnitId) returns (read: System)
    requires Inv(Quiet(d)) && LiveJob(d.jobs, u) < 0
    ensures Inv(read) && read == Quiet(d).(asked := map[0 := Ask(u, newParent, FromHistory(d, u), |d.jobs|)])
  {
    var looked := Quiet(d).(asked := map[0 := Ask(u, newParent, Unread, |d.jobs|)]);
    assert Step(Quiet(d), LookForLive(0, u, newParent), looked);
    LookForLiveKeepsInv(Quiet(d), 0, u, newParent, looked);
    read := Quiet(d).(asked := map[0 := Ask(u, newParent, FromHistory(d, u), |d.jobs|)]);
    assert Step(looked, ReadHistory(0), read);
    ReadHistoryKeepsInv(looked, 0, read);
  }
}
