/** The unit hierarchy as a transition system: units are created and soft-deleted, and resumable
    move jobs change parents in separate transactions, with a crash possible between any two. */
module Directory {
  import opened Options
  import opened Paths

  // Where a job stood when it failed; the stored error text starts with this step's name.
  datatype Phase = AddNew | RemoveOld | Verify

  datatype MoveStatus = Pending | NewEdgeAdded | OldEdgeRemoved | Verified | Failed(at: Phase)

  /** One move attempt. startParents is not a stored column: it records the unit's parents when the
      job was created, so that later parents can be accounted for. */
  datatype MoveJob = MoveJob(unit: UnitId, oldParent: UnitId, newParent: UnitId, status: MoveStatus, startParents: set<UnitId>)

  datatype Dir = Dir(root: UnitId, live: set<UnitId>, deleted: set<UnitId>, edges: set<Edge>, jobs: seq<MoveJob>)

  /** The partial unique index over live jobs excludes FAILED and VERIFIED rows. */
  predicate InProgress(j: MoveJob) {
    !j.status.Verified? && !j.status.Failed?
  }

  function Parents(edges: set<Edge>, u: UnitId): (ps: set<UnitId>)
    ensures forall p :: p in ps <==> Edge(p, u) in edges
  {
    var ps := set e | e in edges && e.child == u :: e.parent;
    assert forall p :: Edge(p, u) in edges ==> Edge(p, u).parent in ps;
    ps
  }

  /** GetLatestMoveJob: the position of u's most recently created job, or -1. */
  function Latest(jobs: seq<MoveJob>, u: UnitId): (i: int)
    ensures -1 <= i < |jobs|
    ensures 0 <= i ==> jobs[i].unit == u
    ensures forall k :: i < k < |jobs| ==> jobs[k].unit != u
  {
    if jobs == [] then -1
    else if jobs[|jobs|-1].unit == u then |jobs| - 1
    else Latest(jobs[..|jobs|-1], u)
  }

  /** GetLiveMoveJob: the position of u's job in progress, or -1. */
  function LiveJob(jobs: seq<MoveJob>, u: UnitId): (i: int)
    ensures -1 <= i < |jobs|
    ensures 0 <= i ==> jobs[i].unit == u && InProgress(jobs[i])
    ensures i < 0 ==> forall k :: 0 <= k < |jobs| && jobs[k].unit == u ==> !InProgress(jobs[k])
  {
    if jobs == [] then -1
    else if jobs[|jobs|-1].unit == u && InProgress(jobs[|jobs|-1]) then |jobs| - 1
    else LiveJob(jobs[..|jobs|-1], u)
  }

  predicate IsLatest(jobs: seq<MoveJob>, i: nat) {
    i < |jobs| && forall k :: i < k < |jobs| ==> jobs[k].unit != jobs[i].unit
  }

  // ---- what a move reads

  /** A row of ListAncestors: strict ancestors that are not deleted. */
  ghost predicate IsLiveAncestor(d: Dir, a: UnitId, u: UnitId) {
    a in d.live && a != u && Reaches(d.edges, a, u)
  }

  /** Its first row: a nearest one, ties broken either way. */
  ghost predicate IsNearest(d: Dir, a: UnitId, u: UnitId) {
    && IsLiveAncestor(d, a, u)
    && forall b :: IsLiveAncestor(d, b, u) ==> Distance(d.edges, a, u) <= Distance(d.edges, b, u)
  }

  /** currentParent: the target of the latest job if that job is VERIFIED, else a nearest ancestor. */
  ghost predicate IsCurrentParent(d: Dir, u: UnitId, p: UnitId) {
    var i := Latest(d.jobs, u);
    if 0 <= i && d.jobs[i].status.Verified? then p == d.jobs[i].newParent else IsNearest(d, p, u)
  }

  ghost predicate HasLiveChild(d: Dir, u: UnitId) {
    exists c :: Edge(u, c) in d.edges && c in d.live
  }

  // ---- one transaction of a move job

  /** AddEdge succeeds, or finds the edge there already, exactly when both units exist and the new
      edge closes no cycle. */
  ghost predicate CanAdd(d: Dir, j: MoveJob) {
    j.unit in d.live && j.newParent in d.live && !Reaches(d.edges, j.unit, j.newParent)
  }

  function PhaseOf(j: MoveJob): Phase
    requires InProgress(j)
  {
    match j.status case Pending => AddNew case NewEdgeAdded => RemoveOld case OldEdgeRemoved => Verify
  }

  /** Whether the current phase's transaction succeeds, given whether the store faults on it. */
  ghost predicate Succeeds(d: Dir, j: MoveJob, fault: bool)
    requires InProgress(j)
  {
    && !fault
    && match PhaseOf(j)
       case AddNew => CanAdd(d, j)
       case RemoveOld => true
       case Verify => IsLiveAncestor(d, j.newParent, j.unit)
  }

  /** The edges it leaves behind. A failing transaction is rolled back. */
  ghost function EdgesAfter(d: Dir, j: MoveJob, fault: bool): set<Edge>
    requires InProgress(j)
  {
    if !Succeeds(d, j, fault) then d.edges
    else match PhaseOf(j)
         case AddNew => d.edges + {Edge(j.newParent, j.unit)}
         case RemoveOld => d.edges - {Edge(j.oldParent, j.unit)}
         case Verify => d.edges
  }

  /** AdvanceMoveJob or FailMoveJob, as the phase's transaction went. */
  function Recorded(j: MoveJob, success: bool): MoveJob
    requires InProgress(j)
  {
    j.(status :=
      if !success then Failed(PhaseOf(j))
      else match PhaseOf(j) case AddNew => NewEdgeAdded case RemoveOld => OldEdgeRemoved case Verify => MoveStatus.Verified)
  }

  // What the store does to one phase: it may fault on the transaction, or on the status write after it.
  datatype Fault = Fault(transaction: bool, write: bool)

  const NO_FAULT := Fault(false, false)

  /** One phase end to end: its transaction, then the recorded outcome, if that can be written. */
  ghost function AfterPhase(d: Dir, i: nat, fault: Fault): Dir
    requires i < |d.jobs| && InProgress(d.jobs[i])
  {
    var j := d.jobs[i];
    d.(edges := EdgesAfter(d, j, fault.transaction),
       jobs := if fault.write then d.jobs else d.jobs[i := Recorded(j, Succeeds(d, j, fault.transaction))])
  }

  datatype Faults = Faults(add: Fault, remove: Fault, verify: Fault)

  const NO_FAULTS := Faults(NO_FAULT, NO_FAULT, NO_FAULT)

  predicate IsDue(d: Dir, i: nat, phase: Phase)
    requires i < |d.jobs|
  {
    InProgress(d.jobs[i]) && PhaseOf(d.jobs[i]) == phase
  }

  ghost function PhaseIfDue(d: Dir, i: nat, phase: Phase, fault: Fault): (t: Dir)
    requires i < |d.jobs|
    ensures |t.jobs| == |d.jobs|
  {
    if IsDue(d, i, phase) then AfterPhase(d, i, fault) else d
  }

  /** runMoveSteps: whichever phases have not durably landed yet, in order. */
  ghost function Driven(d: Dir, i: nat, faults: Faults): Dir
    requires i < |d.jobs|
  {
    PhaseIfDue(PhaseIfDue(PhaseIfDue(d, i, AddNew, faults.add), i, RemoveOld, faults.remove), i, Verify, faults.verify)
  }

  /** runMoveSteps ends in an error exactly when a status write is lost on the way. */
  ghost predicate LosesWrite(d: Dir, i: nat, faults: Faults)
    requires i < |d.jobs|
  {
    var d1 := PhaseIfDue(d, i, AddNew, faults.add);
    var d2 := PhaseIfDue(d1, i, RemoveOld, faults.remove);
    || (IsDue(d, i, AddNew) && faults.add.write)
    || (IsDue(d1, i, RemoveOld) && faults.remove.write)
    || (IsDue(d2, i, Verify) && faults.verify.write)
  }

  /** CreateMoveJob. */
  function WithJob(d: Dir, u: UnitId, oldParent: UnitId, newParent: UnitId): Dir {
    d.(jobs := d.jobs + [MoveJob(u, oldParent, newParent, Pending, Parents(d.edges, u))])
  }

  // ---- runs

  /** What a Move call knows of the current parent: nothing before it reads the job history, which may
      not tell, and then the graph has to. */
  datatype Known = Unread | Untold | Told(parent: UnitId)

  /** A Move call that found no live job and has not yet inserted its own: what it was asked, what it has
      read, and how many jobs there were when it looked for a live one (which it does not look at). */
  datatype Ask = Ask(unit: UnitId, newParent: UnitId, known: Known, jobsSeen: nat)

  /** The stored directory; what the running drivers remember, for each job whose current phase's
      transaction has ended, of how it ended; and the calls about to start a move. A crash forgets
      the last two. */
  datatype System = System(dir: Dir, memory: map<nat, bool>, asked: map<nat, Ask>)

  datatype Action =
    | CreateUnit(parent: UnitId, child: UnitId)
    | DeleteUnit(unit: UnitId)
    | LookForLive(call: nat, unit: UnitId, newParent: UnitId)
    | ReadHistory(call: nat)
    | ReadGraph(call: nat, parent: UnitId)
    | StartMove(call: nat)
    | GiveUp(call: nat)
    | Work(job: nat, fault: bool)
    | Record(job: nat)
    | Crash(job: nat)

  /** The first half of currentParent: the target of the latest job, if that job is VERIFIED. */
  function FromHistory(d: Dir, u: UnitId): Known {
    var i := Latest(d.jobs, u);
    if 0 <= i && d.jobs[i].status.Verified? then Told(d.jobs[i].newParent) else Untold
  }

  /** One statement or transaction. Starting a move takes up to four: no live job is found, the history
      is read, the graph is read if the history does not tell, and the job is inserted, which the index
      on live jobs refuses while the unit has one. */
  ghost predicate Step(s: System, action: Action, t: System) {
    var d := s.dir;
    match action
    case CreateUnit(parent, child) =>
      && parent in d.live && child !in d.live + d.deleted
      && t == s.(dir := d.(live := d.live + {child}, edges := d.edges + {Edge(parent, child)}))
    case DeleteUnit(u) =>
      && u != d.root && u in d.live && !HasLiveChild(d, u)
      && t == s.(dir := d.(live := d.live - {u}, deleted := d.deleted + {u}))
    case LookForLive(c, u, newParent) =>
      && c !in s.asked && LiveJob(d.jobs, u) < 0
      && t == s.(asked := s.asked[c := Ask(u, newParent, Unread, |d.jobs|)])
    case ReadHistory(c) =>
      && c in s.asked && s.asked[c].known.Unread?
      && t == s.(asked := s.asked[c := s.asked[c].(known := FromHistory(d, s.asked[c].unit))])
    case ReadGraph(c, p) =>
      && c in s.asked && s.asked[c].known.Untold? && IsNearest(d, p, s.asked[c].unit)
      && t == s.(asked := s.asked[c := s.asked[c].(known := Told(p))])
    case StartMove(c) =>
      && c in s.asked && s.asked[c].known.Told? && s.asked[c].known.parent != s.asked[c].newParent
      && s.asked[c].unit in d.live + d.deleted && s.asked[c].newParent in d.live + d.deleted
      && LiveJob(d.jobs, s.asked[c].unit) < 0
      && t == System(WithJob(d, s.asked[c].unit, s.asked[c].known.parent, s.asked[c].newParent), s.memory, s.asked - {c})
    case GiveUp(c) =>
      t == s.(asked := s.asked - {c})
    case Work(i, fault) =>
      && i < |d.jobs| && InProgress(d.jobs[i]) && i !in s.memory
      && t == System(d.(edges := EdgesAfter(d, d.jobs[i], fault)), s.memory[i := Succeeds(d, d.jobs[i], fault)], s.asked)
    case Record(i) =>
      && i < |d.jobs| && InProgress(d.jobs[i]) && i in s.memory
      && t == System(d.(jobs := d.jobs[i := Recorded(d.jobs[i], s.memory[i])]), s.memory - {i}, s.asked)
    case Crash(i) =>
      t == s.(memory := s.memory - {i})
  }

  // ---- the invariant

  ghost predicate UnitsOk(d: Dir) {
    && d.root in d.live && d.live !! d.deleted
    && Acyclic(d.edges)
    && (forall e :: e in d.edges ==> {e.parent, e.child} <= d.live + d.deleted && e.child != d.root)
    && (forall e :: e in d.edges && e.child in d.live ==> e.parent in d.live)
    && (forall u :: u in d.live && u != d.root ==> Parents(d.edges, u) != {})
  }

  ghost predicate JobsOk(d: Dir) {
    && (forall i :: 0 <= i < |d.jobs| ==>
          d.jobs[i].unit != d.root && d.jobs[i].unit in d.live + d.deleted && d.jobs[i].oldParent != d.jobs[i].newParent)
    && (forall i :: 0 <= i < |d.jobs| && InProgress(d.jobs[i]) ==> IsLatest(d.jobs, i))
  }

  function Added(j: MoveJob): set<UnitId> { j.startParents + {j.newParent} }

  function Moved(j: MoveJob): set<UnitId> { j.startParents - {j.oldParent} + {j.newParent} }

  /** What the status of a unit's latest job says about the unit's parents. */
  ghost predicate Accounts(d: Dir, j: MoveJob) {
    var now := Parents(d.edges, j.unit);
    match j.status
       case Pending => now == j.startParents || now == Added(j)
       case NewEdgeAdded => now == Added(j) || now == Moved(j)
       case OldEdgeRemoved => now == Moved(j)
       case Verified => now == Moved(j)
       case Failed(AddNew) => now == j.startParents || now == Added(j)
       case Failed(RemoveOld) => now == Added(j) || now == Moved(j)
       case Failed(Verify) => now == Moved(j)
  }

  /** What a driver remembers of a successful transaction still holds. */
  ghost predicate Remembers(d: Dir, j: MoveJob) {
    match j.status
    case Pending => Parents(d.edges, j.unit) == Added(j)
    case NewEdgeAdded => Parents(d.edges, j.unit) == Moved(j)
    case _ => true
  }

  ghost predicate Inv(s: System) {
    && UnitsOk(s.dir) && JobsOk(s.dir)
    && (forall i: nat :: IsLatest(s.dir.jobs, i) ==> Accounts(s.dir, s.dir.jobs[i]))
    && MemoryOk(s.dir, s.memory) && AsksOk(s.dir, s.asked)
  }

  /** No move of the unit has been begun since the call looked for a live one. */
  predicate IsUndisturbed(d: Dir, k: Ask) {
    forall i :: k.jobsSeen <= i < |d.jobs| ==> d.jobs[i].unit != k.unit
  }

  /** What a call has read of a live unit still holds unless another move of it was begun. */
  ghost predicate AskOk(d: Dir, k: Ask) {
    && k.jobsSeen <= |d.jobs|
    && (k.known.Told? ==> k.unit != d.root && k.unit in d.live + d.deleted)
    && (IsUndisturbed(d, k) ==> LiveJob(d.jobs, k.unit) < 0)
    && (IsUndisturbed(d, k) && k.known.Told? && k.unit in d.live ==> k.known.parent in Parents(d.edges, k.unit))
  }

  ghost predicate AsksOk(d: Dir, asked: map<nat, Ask>) {
    forall c :: c in asked ==> AskOk(d, asked[c])
  }

  ghost predicate MemoryOk(d: Dir, memory: map<nat, bool>) {
    && (forall i :: i in memory ==> i < |d.jobs| && InProgress(d.jobs[i]))
    && (forall i :: i in memory && memory[i] ==> Remembers(d, d.jobs[i]))
  }

  ghost predicate Init(s: System) {
    s.dir.live == {s.dir.root} && s.dir.deleted == {} && s.dir.edges == {} && s.dir.jobs == []
    && s.memory == map[] && s.asked == map[]
  }

  // ---- every step keeps the invariant

  lemma ParentsAfterAdd(edges: set<Edge>, p: UnitId, u: UnitId, x: UnitId)
    ensures Parents(edges + {Edge(p, u)}, x) == Parents(edges, x) + if x == u then {p} else {}
  {}

  lemma ParentsAfterRemove(edges: set<Edge>, p: UnitId, u: UnitId, x: UnitId)
    ensures Parents(edges - {Edge(p, u)}, x) == Parents(edges, x) - if x == u then {p} else {}
  {}

  /** Jobs of units whose parents did not change stay accounted for. */
  lemma AccountsElsewhere(d: Dir, d': Dir, j: MoveJob)
    requires Accounts(d, j) && Parents(d'.edges, j.unit) == Parents(d.edges, j.unit)
    requires j.unit in d.deleted ==> j.unit in d'.deleted
    ensures Accounts(d', j)
  {}

  /** A call's reading stays good while its unit's jobs and parents stay as they are. */
  lemma AskElsewhere(d: Dir, d': Dir, k: Ask)
    requires AskOk(d, k) && d'.root == d.root && d'.jobs == d.jobs
    requires k.unit in d.live + d.deleted ==> k.unit in d'.live + d'.deleted
    requires k.known.Told? && k.unit in d'.live ==> k.unit in d.live
    requires k.known.Told? && k.unit in d'.live && LiveJob(d.jobs, k.unit) < 0 ==> Parents(d'.edges, k.unit) == Parents(d.edges, k.unit)
    ensures AskOk(d', k)
  {}

  lemma OtherLatest(jobs: seq<MoveJob>, i: nat, k: nat)
    requires IsLatest(jobs, i) && IsLatest(jobs, k) && i != k
    ensures jobs[i].unit != jobs[k].unit
  {}

  lemma LeavesByEdge(edges: set<Edge>, a: UnitId, d: UnitId)
    requires a != d && Reaches(edges, a, d)
    ensures exists e :: e in edges && e.parent == a
  {
    var p :| Connects(edges, a, d, p);
    assert Edge(p[0], p[1]) in edges;
  }

  lemma CreateKeepsUnits(d: Dir, parent: UnitId, child: UnitId)
    requires UnitsOk(d) && parent in d.live && child !in d.live + d.deleted
    ensures UnitsOk(d.(live := d.live + {child}, edges := d.edges + {Edge(parent, child)}))
  {
    var d' := d.(live := d.live + {child}, edges := d.edges + {Edge(parent, child)});
    if Reaches(d.edges, child, parent) {
      LeavesByEdge(d.edges, child, parent);
    }
    GuardIsExact(d.edges, Edge(parent, child));
    forall u | u in d'.live && u != d'.root
      ensures Parents(d'.edges, u) != {}
    {
      ParentsAfterAdd(d.edges, parent, child, u);
    }
  }

  lemma CreateKeepsInv(s: System, parent: UnitId, child: UnitId, t: System)
    requires Inv(s) && Step(s, CreateUnit(parent, child), t)
    ensures Inv(t)
  {
    var d, d' := s.dir, t.dir;
    CreateKeepsUnits(d, parent, child);
    forall x | x != child
      ensures Parents(d'.edges, x) == Parents(d.edges, x)
    {
      ParentsAfterAdd(d.edges, parent, child, x);
    }
    forall i: nat | IsLatest(d'.jobs, i)
      ensures Accounts(d', d'.jobs[i])
    {
      AccountsElsewhere(d, d', d.jobs[i]);
    }
    forall c | c in s.asked
      ensures AskOk(d', s.asked[c])
    {
      AskElsewhere(d, d', s.asked[c]);
    }
  }

  lemma DeleteKeepsInv(s: System, u: UnitId, t: System)
    requires Inv(s) && Step(s, DeleteUnit(u), t)
    ensures Inv(t)
  {
    var d, d' := s.dir, t.dir;
    forall e | e in d.edges && e.child in d'.live
      ensures e.parent in d'.live
    {
      assert e == Edge(e.parent, e.child);
    }
    forall i: nat | IsLatest(d'.jobs, i)
      ensures Accounts(d', d'.jobs[i])
    {
      AccountsElsewhere(d, d', d.jobs[i]);
    }
    forall c | c in s.asked
      ensures AskOk(d', s.asked[c])
    {
      AskElsewhere(d, d', s.asked[c]);
    }
  }

  lemma LatestAfterAppend(jobs: seq<MoveJob>, j: MoveJob)
    ensures forall i: nat :: IsLatest(jobs + [j], i) <==> i == |jobs| || (IsLatest(jobs, i) && jobs[i].unit != j.unit)
  {
    var more := jobs + [j];
    forall i: nat
      ensures IsLatest(more, i) <==> i == |jobs| || (IsLatest(jobs, i) && jobs[i].unit != j.unit)
    {
      assert forall k :: 0 <= k < |jobs| ==> more[k] == jobs[k];
      assert more[|jobs|] == j;
    }
  }

  lemma LookForLiveKeepsInv(s: System, c: nat, u: UnitId, newParent: UnitId, t: System)
    requires Inv(s) && Step(s, LookForLive(c, u, newParent), t)
    ensures Inv(t)
  {
    assert AskOk(s.dir, t.asked[c]);
  }

  lemma ReadHistoryKeepsInv(s: System, c: nat, t: System)
    requires Inv(s) && Step(s, ReadHistory(c), t)
    ensures Inv(t)
  {
    var d, u := s.dir, s.asked[c].unit;
    var i := Latest(d.jobs, u);
    assert AskOk(d, s.asked[c]);
    if FromHistory(d, u).Told? {
      assert IsLatest(d.jobs, i) && Accounts(d, d.jobs[i]);
      assert d.jobs[i].newParent in Moved(d.jobs[i]);
    }
    assert AskOk(d, t.asked[c]);
  }

  lemma ReadGraphKeepsInv(s: System, c: nat, p: UnitId, t: System)
    requires Inv(s) && Step(s, ReadGraph(c, p), t)
    ensures Inv(t)
  {
    var d, u := s.dir, s.asked[c].unit;
    ArrivesByEdge(d.edges, p, u);
    if u in d.live {
      var q :| q in Parents(d.edges, u);
      assert Edge(q, u) in d.edges;
      NearestIsParent(d, u, p, q);
    }
    assert AskOk(d, s.asked[c]);
    assert AskOk(d, t.asked[c]);
  }

  lemma ArrivesByEdge(edges: set<Edge>, a: UnitId, d: UnitId)
    requires a != d && Reaches(edges, a, d)
    ensures exists e :: e in edges && e.child == d
  {
    var p :| Connects(edges, a, d, p);
    assert Edge(p[|p|-2], p[|p|-1]) in edges;
  }

  lemma StartKeepsInv(s: System, c: nat, t: System)
    requires Inv(s) && Step(s, StartMove(c), t)
    ensures Inv(t)
  {
    var d, d', k := s.dir, t.dir, s.asked[c];
    var j := MoveJob(k.unit, k.known.parent, k.newParent, Pending, Parents(d.edges, k.unit));
    LatestAfterAppend(d.jobs, j);
    assert AskOk(d, k);
    StartKeepsJobs(d, j);
    forall i: nat | IsLatest(d'.jobs, i)
      ensures Accounts(d', d'.jobs[i])
    {
      if i < |d.jobs| {
        AccountsElsewhere(d, d', d.jobs[i]);
      }
    }
    forall b | b in t.asked
      ensures AskOk(d', t.asked[b])
    {
      AskAfterAppend(d, j, t.asked[b]);
    }
  }

  lemma AskAfterAppend(d: Dir, j: MoveJob, k: Ask)
    requires AskOk(d, k)
    ensures AskOk(d.(jobs := d.jobs + [j]), k)
  {
    var d' := d.(jobs := d.jobs + [j]);
    assert d'.jobs[|d.jobs|] == j;
    if IsUndisturbed(d', k) {
      assert forall i :: k.jobsSeen <= i < |d.jobs| ==> d'.jobs[i] == d.jobs[i];
      assert j.unit != k.unit;
      NoLiveJob(d.jobs, k.unit);
      forall i | 0 <= i < |d'.jobs| && d'.jobs[i].unit == k.unit
        ensures !InProgress(d'.jobs[i])
      {
        assert d'.jobs[i] == d.jobs[i];
      }
    }
  }

  lemma NoLiveJob(jobs: seq<MoveJob>, u: UnitId)
    ensures LiveJob(jobs, u) < 0 <==> forall i :: 0 <= i < |jobs| && jobs[i].unit == u ==> !InProgress(jobs[i])
  {}

  lemma StartKeepsJobs(d: Dir, j: MoveJob)
    requires JobsOk(d) && LiveJob(d.jobs, j.unit) < 0
    requires j.unit != d.root && j.unit in d.live + d.deleted && j.oldParent != j.newParent
    ensures JobsOk(d.(jobs := d.jobs + [j]))
  {
    LatestAfterAppend(d.jobs, j);
  }

  lemma WorkKeepsUnits(d: Dir, j: MoveJob, fault: bool)
    requires UnitsOk(d) && InProgress(j) && Accounts(d, j)
    requires j.unit in d.live + d.deleted && j.unit != d.root && j.oldParent != j.newParent
    ensures UnitsOk(d.(edges := EdgesAfter(d, j, fault)))
  {
    var d' := d.(edges := EdgesAfter(d, j, fault));
    if Succeeds(d, j, fault) {
      match PhaseOf(j)
      case AddNew =>
        GuardIsExact(d.edges, Edge(j.newParent, j.unit));
        forall x { ParentsAfterAdd(d.edges, j.newParent, j.unit, x); }
      case RemoveOld =>
        AcyclicFewer(d'.edges, d.edges);
        forall x { ParentsAfterRemove(d.edges, j.oldParent, j.unit, x); }
        assert j.newParent in Parents(d'.edges, j.unit);
      case Verify =>
    }
  }

  lemma WorkKeepsAccount(d: Dir, j: MoveJob, fault: bool)
    requires InProgress(j) && Accounts(d, j) && j.oldParent != j.newParent
    ensures Accounts(d.(edges := EdgesAfter(d, j, fault)), j)
    ensures Succeeds(d, j, fault) ==> Remembers(d.(edges := EdgesAfter(d, j, fault)), j)
    ensures forall x :: x != j.unit ==> Parents(EdgesAfter(d, j, fault), x) == Parents(d.edges, x)
  {
    if Succeeds(d, j, fault) {
      match PhaseOf(j)
      case AddNew =>
        forall x { ParentsAfterAdd(d.edges, j.newParent, j.unit, x); }
      case RemoveOld =>
        forall x { ParentsAfterRemove(d.edges, j.oldParent, j.unit, x); }
        assert Added(j) - {j.oldParent} == Moved(j) && Moved(j) - {j.oldParent} == Moved(j);
      case Verify =>
    }
  }

  lemma WorkKeepsInv(s: System, i: nat, fault: bool, t: System)
    requires Inv(s) && Step(s, Work(i, fault), t)
    ensures Inv(t)
  {
    var d, d' := s.dir, t.dir;
    var j := d.jobs[i];
    assert IsLatest(d.jobs, i);
    WorkKeepsUnits(d, j, fault);
    WorkKeepsAccount(d, j, fault);
    forall k: nat | IsLatest(d.jobs, k) && k != i
      ensures Accounts(d', d.jobs[k])
    {
      OtherLatest(d.jobs, i, k);
      AccountsElsewhere(d, d', d.jobs[k]);
    }
    forall c | c in s.asked
      ensures AskOk(d', s.asked[c])
    {
      assert s.asked[c].unit == j.unit ==> LiveJob(d.jobs, j.unit) >= 0;
      AskElsewhere(d, d', s.asked[c]);
    }
    forall k | k in t.memory && t.memory[k]
      ensures Remembers(d', d'.jobs[k])
    {
      if k != i {
        assert IsLatest(d.jobs, k);
        OtherLatest(d.jobs, i, k);
      }
    }
  }

  lemma SameUnitsSameLatest(jobs: seq<MoveJob>, i: nat, j: MoveJob)
    requires i < |jobs| && j.unit == jobs[i].unit
    ensures forall k: nat :: IsLatest(jobs[i := j], k) <==> IsLatest(jobs, k)
  {
    assert forall k :: 0 <= k < |jobs| ==> jobs[i := j][k].unit == jobs[k].unit;
  }

  lemma RecordKeepsInv(s: System, i: nat, t: System)
    requires Inv(s) && Step(s, Record(i), t)
    ensures Inv(t)
  {
    var d, d' := s.dir, t.dir;
    var j := Recorded(d.jobs[i], s.memory[i]);
    assert IsLatest(d.jobs, i);
    RecordKeepsAccount(d, d.jobs[i], s.memory[i]);
    RecordKeepsJobs(d, i, j);
    RecordKeepsAccounts(d, i, j, d');
    RecordKeepsMemory(d, s.memory, i, j);
    forall c | c in s.asked
      ensures AskOk(d', s.asked[c])
    {
      AskAfterRecord(d, i, j, s.asked[c]);
    }
  }

  lemma AskAfterRecord(d: Dir, i: nat, j: MoveJob, k: Ask)
    requires AskOk(d, k) && i < |d.jobs| && j.unit == d.jobs[i].unit && InProgress(d.jobs[i])
    ensures AskOk(d.(jobs := d.jobs[i := j]), k)
  {
    var d' := d.(jobs := d.jobs[i := j]);
    if IsUndisturbed(d', k) {
      assert forall n :: k.jobsSeen <= n < |d.jobs| ==> d'.jobs[n].unit == d.jobs[n].unit;
      NoLiveJob(d.jobs, k.unit);
      NoLiveJob(d'.jobs, k.unit);
    }
  }

  lemma RecordKeepsMemory(d: Dir, memory: map<nat, bool>, i: nat, j: MoveJob)
    requires i < |d.jobs| && MemoryOk(d, memory)
    ensures MemoryOk(d.(jobs := d.jobs[i := j]), memory - {i})
  {}

  lemma RecordKeepsAccounts(d: Dir, i: nat, j: MoveJob, d': Dir)
    requires i < |d.jobs| && j.unit == d.jobs[i].unit && Accounts(d, j)
    requires forall k: nat :: IsLatest(d.jobs, k) ==> Accounts(d, d.jobs[k])
    requires d' == d.(jobs := d.jobs[i := j])
    ensures forall k: nat :: IsLatest(d'.jobs, k) ==> Accounts(d', d'.jobs[k])
  {
    SameUnitsSameLatest(d.jobs, i, j);
    forall k: nat | IsLatest(d'.jobs, k)
      ensures Accounts(d', d'.jobs[k])
    {
      AccountsElsewhere(d, d', d'.jobs[k]);
    }
  }

  lemma RecordKeepsJobs(d: Dir, i: nat, j: MoveJob)
    requires JobsOk(d) && i < |d.jobs| && InProgress(d.jobs[i])
    requires j == d.jobs[i].(status := j.status)
    ensures JobsOk(d.(jobs := d.jobs[i := j]))
  {
    SameUnitsSameLatest(d.jobs, i, j);
  }

  lemma RecordKeepsAccount(d: Dir, j: MoveJob, success: bool)
    requires InProgress(j) && Accounts(d, j) && (success ==> Remembers(d, j))
    ensures Accounts(d, Recorded(j, success))
  {}

  /** The invariant is inductive: every transaction, failure, crash and resume keeps it. */
  lemma StepKeepsInv(s: System, action: Action, t: System)
    requires Inv(s) && Step(s, action, t)
    ensures Inv(t)
  {
    match action
    case CreateUnit(parent, child) => CreateKeepsInv(s, parent, child, t);
    case DeleteUnit(u) => DeleteKeepsInv(s, u, t);
    case LookForLive(c, u, newParent) => LookForLiveKeepsInv(s, c, u, newParent, t);
    case ReadHistory(c) => ReadHistoryKeepsInv(s, c, t);
    case ReadGraph(c, p) => ReadGraphKeepsInv(s, c, p, t);
    case StartMove(c) => StartKeepsInv(s, c, t);
    case GiveUp(c) =>
    case Work(i, fault) => WorkKeepsInv(s, i, fault, t);
    case Record(i) => RecordKeepsInv(s, i, t);
    case Crash(i) =>
  }

  ghost predicate IsRun(states: seq<System>, actions: seq<Action>) {
    && |states| == |actions| + 1
    && Init(states[0])
    && forall n :: 0 <= n < |actions| ==> Step(states[n], actions[n], states[n+1])
  }

  lemma InitHolds(s: System)
    requires Init(s)
    ensures Inv(s)
  {
    EmptyIsAcyclic();
  }

  lemma {:induction false} RunKeepsInv(states: seq<System>, actions: seq<Action>, n: nat)
    requires IsRun(states, actions) && n <= |actions|
    ensures Inv(states[n])
  {
    if n == 0 {
      InitHolds(states[0]);
    } else {
      RunKeepsInv(states, actions, n - 1);
      assert Step(states[n-1], actions[n-1], states[n]);
      StepKeepsInv(states[n-1], actions[n-1], states[n]);
    }
  }

  /** A directory with no call under way. */
  function Quiet(d: Dir): System {
    System(d, map[], map[])
  }

  lemma PhaseKeepsInv(d: Dir, i: nat, fault: Fault)
    requires Inv(Quiet(d)) && i < |d.jobs| && InProgress(d.jobs[i])
    ensures Inv(Quiet(AfterPhase(d, i, fault)))
  {
    var j, tx := d.jobs[i], fault.transaction;
    var worked := System(d.(edges := EdgesAfter(d, j, tx)), map[i := Succeeds(d, j, tx)], map[]);
    StepKeepsInv(Quiet(d), Work(i, tx), worked);
    var t := Quiet(AfterPhase(d, i, fault));
    StepKeepsInv(worked, if fault.write then Crash(i) else Record(i), t);
  }

  lemma DrivenKeepsInv(d: Dir, i: nat, faults: Faults)
    requires Inv(Quiet(d)) && i < |d.jobs|
    ensures Inv(Quiet(Driven(d, i, faults)))
  {
    PhaseIfDueKeepsInv(d, i, AddNew, faults.add);
    var d1 := PhaseIfDue(d, i, AddNew, faults.add);
    PhaseIfDueKeepsInv(d1, i, RemoveOld, faults.remove);
    var d2 := PhaseIfDue(d1, i, RemoveOld, faults.remove);
    PhaseIfDueKeepsInv(d2, i, Verify, faults.verify);
  }

  lemma PhaseIfDueKeepsInv(d: Dir, i: nat, phase: Phase, fault: Fault)
    requires Inv(Quiet(d)) && i < |d.jobs|
    ensures Inv(Quiet(PhaseIfDue(d, i, phase, fault)))
  {
    if IsDue(d, i, phase) {
      PhaseKeepsInv(d, i, fault);
    }
  }

  // ---- consequences of the invariant

  lemma PathNotLoop(edges: set<Edge>, a: UnitId, b: UnitId)
    requires Acyclic(edges) && Edge(a, b) in edges
    ensures a != b
  {
    assert IsPath(edges, [a, b]);
  }

  /** With a live parent at hand, the nearest live ancestor is one of the parents. */
  lemma NearestIsParent(d: Dir, u: UnitId, p: UnitId, q: UnitId)
    requires Acyclic(d.edges) && IsNearest(d, p, u)
    requires Edge(q, u) in d.edges && q in d.live
    ensures Edge(p, u) in d.edges
  {
    EdgeReach(d.edges, q, u);
    PathNotLoop(d.edges, q, u);
    assert IsLiveAncestor(d, q, u);
    assert IsShortest(d.edges, q, u, Distance(d.edges, q, u));
    var n := Distance(d.edges, p, u);
    assert n <= 1;
    var path :| Connects(d.edges, p, u, path) && |path| == n + 1;
    assert n == 1;
  }

  /** currentParent names a present edge exactly when the latest job is VERIFIED or some parent is
      not deleted. */
  lemma CurrentParentIsEdgeIff(s: System, u: UnitId, p: UnitId)
    requires Inv(s) && IsCurrentParent(s.dir, u, p)
    ensures Edge(p, u) in s.dir.edges <==>
              (Latest(s.dir.jobs, u) >= 0 && s.dir.jobs[Latest(s.dir.jobs, u)].status.Verified?)
              || Parents(s.dir.edges, u) * s.dir.live != {}
  {
    var i := Latest(s.dir.jobs, u);
    if 0 <= i && s.dir.jobs[i].status.Verified? {
      assert IsLatest(s.dir.jobs, i);
      assert Accounts(s.dir, s.dir.jobs[i]);
      assert p in Parents(s.dir.edges, u);
    } else {
      if q :| q in Parents(s.dir.edges, u) * s.dir.live {
        NearestIsParent(s.dir, u, p, q);
      }
      if Edge(p, u) in s.dir.edges {
        assert p in Parents(s.dir.edges, u) * s.dir.live;
      }
    }
  }

  /** So it does for every live unit but the root, whatever jobs the unit has had. */
  lemma CurrentParentIsParent(s: System, u: UnitId, p: UnitId)
    requires Inv(s) && u in s.dir.live && u != s.dir.root && IsCurrentParent(s.dir, u, p)
    ensures Edge(p, u) in s.dir.edges
  {
    var q :| q in Parents(s.dir.edges, u);
    assert Edge(q, u) in s.dir.edges;
    assert q in Parents(s.dir.edges, u) * s.dir.live;
    CurrentParentIsEdgeIff(s, u, p);
  }
}
