/** What one run of the jurisdiction sync has to do, whatever order it takes the nodes in. */
module SyncJob {
  import opened Options
  import opened SlugCodes

  datatype Ext = X(id: string)

  datatype Unit = J(id: int)

  datatype Node = Node(parent: Option<Ext>, name: string, kind: string)

  /** A row of the durable table, keyed by external id within one source. */
  datatype Row = Pending | Created(unit: Unit) | Failed

  type Rows = map<Ext, Row>

  /** A unit of the directory, with its code and its parent; no two units that stand share a code. */
  datatype Stand = Stand(code: string, parent: Unit)

  type Units = map<Unit, Stand>

  predicate IsTaken(units: Units, code: string) {
    exists u :: u in units && units[u].code == code
  }

  /** How the calls made for one node go, and the id its unit gets if one is made. CreateChildOrg is
      not one transaction: it may be refused before it makes the unit, and once the unit and its edge
      are committed it may still fail over the unit's profile. */
  datatype Behaviour = Behaviour(insertOk: bool, admitted: bool, profileOk: bool, markCreatedOk: bool, markFailedOk: bool, unit: Unit)

  datatype Tally = WasCreated | WasSkipped | WasFailed

  /** All that a run depends on; lower is the table strings are lowered by. Where nodes share codes the
      order of work can matter, and lost says how: the nodes that would make a unit but find their code
      taken by one of this very run. */
  datatype Job = Job(nodes: map<Ext, Node>, anchor: Unit, kinds: set<string>, before: Rows, standing: Units,
                     calls: map<Ext, Behaviour>, lower: char -> char, lost: set<Ext>)

  predicate WellFormed(job: Job) {
    job.nodes.Keys <= job.calls.Keys
  }

  predicate CreatedIn(rows: Rows, e: Ext) {
    e in rows && rows[e].Created?
  }

  // ---- what happens to a node once its turn comes

  /** CreateChildOrg is called for the node. */
  predicate Calls(job: Job, e: Ext)
    requires WellFormed(job) && e in job.nodes
  {
    !CreatedIn(job.before, e) && (e in job.before || job.calls[e].insertOk) && job.nodes[e].kind in job.kinds
  }

  function CodeOf(job: Job, e: Ext): string
    requires e in job.nodes
  {
    Code(job.lower, job.nodes[e].name, e.id)
  }

  /** The call commits a unit: it is admitted, and no unit has the node's code, neither one that stood
      before nor one of this run. */
  predicate MakesUnit(job: Job, e: Ext)
    requires WellFormed(job) && e in job.nodes
  {
    Calls(job, e) && job.calls[e].admitted && !IsTaken(job.standing, CodeOf(job, e)) && e !in job.lost
  }

  /** The call returns without an error. */
  predicate Returns(job: Job, e: Ext)
    requires WellFormed(job) && e in job.nodes
  {
    MakesUnit(job, e) && job.calls[e].profileOk
  }

  function Fate(job: Job, e: Ext): Tally
    requires WellFormed(job) && e in job.nodes
  {
    if CreatedIn(job.before, e) then WasSkipped
    else if Returns(job, e) && job.calls[e].markCreatedOk then WasCreated
    else WasFailed
  }

  predicate Resolves(job: Job, e: Ext)
    requires WellFormed(job) && e in job.nodes
  {
    !Fate(job, e).WasFailed?
  }

  function UnitOf(job: Job, e: Ext): Unit
    requires WellFormed(job) && e in job.nodes && Resolves(job, e)
  {
    if CreatedIn(job.before, e) then job.before[e].unit else job.calls[e].unit
  }

  /** The node's row afterwards, if it has one. */
  function RowAfter(job: Job, e: Ext): Option<Row>
    requires WellFormed(job) && e in job.nodes
  {
    if Resolves(job, e) then Some(Created(UnitOf(job, e)))
    else if e !in job.before && !job.calls[e].insertOk then None
    else if !Returns(job, e) && job.calls[e].markFailedOk then Some(Failed)
    else if e in job.before then Some(job.before[e])
    else Some(Pending)
  }

  // ---- which nodes get a turn

  /** The node's parent has a unit, given the nodes already done. */
  predicate Ready(job: Job, done: set<Ext>, e: Ext)
    requires WellFormed(job) && e in job.nodes
  {
    var p := job.nodes[e].parent;
    p.None? || CreatedIn(job.before, p.value) || (p.value in done && p.value in job.nodes && Resolves(job, p.value))
  }

  predicate Closed(job: Job, done: set<Ext>)
    requires WellFormed(job)
  {
    forall e {:trigger Ready(job, done, e)} :: e in job.nodes && Ready(job, done, e) ==> e in done
  }

  /** The least closed set: in every closed set. */
  ghost predicate IsLeast(job: Job, done: set<Ext>)
    requires WellFormed(job)
  {
    && done <= job.nodes.Keys && Closed(job, done)
    && forall other: set<Ext> :: Closed(job, other) ==> done <= other
  }

  /** There is exactly one least closed set. */
  lemma LeastExists(job: Job) returns (done: set<Ext>)
    requires WellFormed(job)
    ensures IsLeast(job, done)
    ensures forall other :: IsLeast(job, other) ==> other == done
  {
    done := set e | e in job.nodes && InEveryClosed(job, e);
    forall other: set<Ext> | Closed(job, other)
      ensures done <= other
    {
      forall e | e in done
        ensures e in other
      {
        assert InEveryClosed(job, e);
      }
    }
    forall e | e in job.nodes && Ready(job, done, e)
      ensures e in done
    {
      forall other: set<Ext> | Closed(job, other)
        ensures e in other
      {
        assert Ready(job, other, e);
      }
    }
    assert Closed(job, done);
  }

  ghost predicate InEveryClosed(job: Job, e: Ext)
    requires WellFormed(job)
  {
    forall other: set<Ext> :: Closed(job, other) ==> e in other
  }

  /** Adding a ready node to a set that lies in every closed set leaves it there. */
  lemma ReadyStaysLeast(job: Job, done: set<Ext>, e: Ext, other: set<Ext>)
    requires WellFormed(job) && e in job.nodes && Ready(job, done, e)
    requires Closed(job, other) && done <= other
    ensures done + {e} <= other
  {
    assert Ready(job, other, e);
  }

  /** Why a set of nodes gets no turn: each one's parent has no unit yet and is in the set too, or
      is not among the nodes, or fails. Cycles and dangling parents are cases of it. */
  predicate Ungrounded(job: Job, stuck: set<Ext>)
    requires WellFormed(job)
  {
    forall e :: e in stuck && e in job.nodes ==> IsStuck(job, stuck, e)
  }

  predicate IsStuck(job: Job, stuck: set<Ext>, e: Ext)
    requires WellFormed(job) && e in job.nodes
  {
    var p := job.nodes[e].parent;
    p.Some? && !CreatedIn(job.before, p.value) && (p.value in stuck || p.value !in job.nodes || !Resolves(job, p.value))
  }

  /** The nodes left over are the largest set that is stuck in this way. */
  lemma LeftOverIsLargestStuck(job: Job, done: set<Ext>, stuck: set<Ext>)
    requires WellFormed(job) && IsLeast(job, done) && stuck <= job.nodes.Keys
    ensures Ungrounded(job, job.nodes.Keys - done)
    ensures Ungrounded(job, stuck) ==> stuck <= job.nodes.Keys - done
  {
    forall e | e in job.nodes.Keys - done
      ensures IsStuck(job, job.nodes.Keys - done, e)
    {
      assert !Ready(job, done, e);
    }
    if Ungrounded(job, stuck) {
      var other := job.nodes.Keys - stuck;
      forall e | e in stuck
        ensures !Ready(job, other, e)
      {
        assert IsStuck(job, stuck, e);
      }
      assert Closed(job, other);
    }
  }

  // ---- the table and the tree after a run

  /** The table after a run that dealt with the nodes in done. */
  ghost predicate RowsAfter(job: Job, done: set<Ext>, rows: Rows)
    requires WellFormed(job) && done <= job.nodes.Keys
  {
    forall e :: RowIs(rows, e, if e in done then RowAfter(job, e) else RowOf(job.before, e))
  }

  function RowOf(rows: Rows, e: Ext): Option<Row> {
    if e in rows then Some(rows[e]) else None
  }

  predicate RowIs(rows: Rows, e: Ext, row: Option<Row>) {
    RowOf(rows, e) == row
  }

  /** The unit a ready node's unit goes under. */
  function ParentUnit(job: Job, done: set<Ext>, e: Ext): Unit
    requires WellFormed(job) && e in job.nodes && Ready(job, done, e)
  {
    var p := job.nodes[e].parent;
    if p.None? then job.anchor
    else if CreatedIn(job.before, p.value) then job.before[p.value].unit
    else UnitOf(job, p.value)
  }

  /** Two runs of one job leave the same table. */
  lemma SameTable(job: Job, one: set<Ext>, two: set<Ext>, rows: Rows, others: Rows)
    requires WellFormed(job) && IsLeast(job, one) && IsLeast(job, two)
    requires RowsAfter(job, one, rows) && RowsAfter(job, two, others)
    ensures rows == others
  {
    var least := LeastExists(job);
    assert one == least && two == least;
    forall e
      ensures RowOf(rows, e) == RowOf(others, e)
    {
      assert RowIs(rows, e, if e in one then RowAfter(job, e) else RowOf(job.before, e));
      assert RowIs(others, e, if e in one then RowAfter(job, e) else RowOf(job.before, e));
    }
    RowsAreEqual(rows, others);
  }

  lemma RowsAreEqual(rows: Rows, others: Rows)
    requires forall e :: RowOf(rows, e) == RowOf(others, e)
    ensures rows == others
  {
    forall e
      ensures e in rows <==> e in others
      ensures e in rows ==> rows[e] == others[e]
    {
      assert RowOf(rows, e) == RowOf(others, e);
    }
  }

  /** Two nodes of the job share a unit id only if they are one node. */
  predicate MintsApart(job: Job)
    requires WellFormed(job)
  {
    forall e, f :: e in job.nodes && f in job.nodes && job.calls[e].unit == job.calls[f].unit ==> e == f
  }

  // ---- runs after runs

  /** The next run of the same source: the rows are those the last run left. */
  predicate Follows(job: Job, next: Job, rows: Rows) {
    WellFormed(job) && WellFormed(next) && next.before == rows
  }

  /** Once CREATED, always CREATED with the same unit, and no later run calls CreateChildOrg for it. */
  lemma CreatedStays(job: Job, done: set<Ext>, rows: Rows, e: Ext)
    requires WellFormed(job) && done <= job.nodes.Keys && RowsAfter(job, done, rows) && CreatedIn(job.before, e)
    ensures CreatedIn(rows, e) && rows[e] == job.before[e]
    ensures e in job.nodes ==> !Calls(job, e) && Fate(job, e).WasSkipped?
  {
    assert RowIs(rows, e, if e in done then RowAfter(job, e) else RowOf(job.before, e));
  }

  /** A node whose unit was made is taken up again by a later run exactly when the call failed over
      the profile or its row could not be marked CREATED. */
  lemma TakenUpAgainIff(job: Job, done: set<Ext>, rows: Rows, next: Job, e: Ext)
    requires Follows(job, next, rows) && next.nodes == job.nodes && next.kinds == job.kinds
    requires done <= job.nodes.Keys && RowsAfter(job, done, rows) && e in done && MakesUnit(job, e)
    ensures Calls(next, e) <==> !(job.calls[e].profileOk && job.calls[e].markCreatedOk)
  {
    assert RowIs(rows, e, RowAfter(job, e));
  }

  // ---- a unit made but not recorded

  /** A series of runs, each over the table the one before left. What is fetched, how calls go and which
      units stand may change from run to run. */
  ghost predicate IsHistory(jobs: seq<Job>, dones: seq<set<Ext>>) {
    && |jobs| == |dones| + 1
    && (forall k :: 0 <= k < |jobs| ==> WellFormed(jobs[k]))
    && (forall k :: 0 <= k < |dones| ==> IsLeast(jobs[k], dones[k]) && RowsAfter(jobs[k], dones[k], jobs[k+1].before))
  }

  /** Some unit stands under the node's code while the node's row does not say so. */
  predicate IsBlocked(job: Job, e: Ext) {
    !CreatedIn(job.before, e) && (e in job.nodes ==> IsTaken(job.standing, CodeOf(job, e)))
  }

  /** Each of these nodes hangs under another of them or under e, and has no unit yet. */
  predicate IsSubtree(job: Job, below: set<Ext>, e: Ext) {
    forall f :: f in below ==>
      !CreatedIn(job.before, f) && (f in job.nodes ==> job.nodes[f].parent.Some? && job.nodes[f].parent.value in below + {e})
  }

  /** Such a node fails, and nothing below it gets a turn. */
  lemma BlockedNodeFails(job: Job, done: set<Ext>, e: Ext, below: set<Ext>)
    requires WellFormed(job) && IsLeast(job, done) && IsBlocked(job, e) && IsSubtree(job, below, e)
    ensures e in job.nodes ==> Fate(job, e).WasFailed? && !MakesUnit(job, e)
    ensures done !! below - {e}
  {
    var stuck := (below - {e}) * job.nodes.Keys;
    LeftOverIsLargestStuck(job, done, stuck);
  }

  lemma BlockedRowStays(job: Job, done: set<Ext>, e: Ext, rows: Rows)
    requires WellFormed(job) && done <= job.nodes.Keys && RowsAfter(job, done, rows) && !CreatedIn(job.before, e)
    requires e in done ==> Fate(job, e).WasFailed?
    ensures !CreatedIn(rows, e)
  {
    assert RowIs(rows, e, if e in done then RowAfter(job, e) else RowOf(job.before, e));
  }

  /** A unit made but not recorded blocks its node, and the whole subtree under it, in every later run
      for as long as it stands and the node keeps its code, which is then taken by the node's own unit. */
  lemma {:induction false} OrphanBlocksForGood(jobs: seq<Job>, dones: seq<set<Ext>>, n: nat, e: Ext, below: set<Ext>)
    requires IsHistory(jobs, dones) && n < |jobs| && e !in below
    requires !CreatedIn(jobs[0].before, e) && forall f :: f in below ==> !CreatedIn(jobs[0].before, f)
    requires forall k :: 0 <= k < |jobs| ==> (e in jobs[k].nodes ==> IsTaken(jobs[k].standing, CodeOf(jobs[k], e)))
    requires forall k, f :: 0 <= k < |jobs| && f in below && f in jobs[k].nodes ==>
               jobs[k].nodes[f].parent.Some? && jobs[k].nodes[f].parent.value in below + {e}
    ensures !CreatedIn(jobs[n].before, e) && forall f :: f in below ==> !CreatedIn(jobs[n].before, f)
    ensures n < |dones| ==> dones[n] !! below && (e in dones[n] ==> Fate(jobs[n], e).WasFailed?)
  {
    if n == 0 {
    } else {
      OrphanBlocksForGood(jobs, dones, n - 1, e, below);
      BlockedRowStays(jobs[n-1], dones[n-1], e, jobs[n].before);
      forall f | f in below
        ensures !CreatedIn(jobs[n].before, f)
      {
        BlockedRowStays(jobs[n-1], dones[n-1], f, jobs[n].before);
      }
    }
    if n < |dones| {
      assert IsBlocked(jobs[n], e) && IsSubtree(jobs[n], below, e);
      BlockedNodeFails(jobs[n], dones[n], e, below);
      assert below - {e} == below;
    }
  }

  // ---- codes within one run

  /** The node gets a unit unless it loses its code to another node of the run. */
  predicate WouldMake(job: Job, e: Ext)
    requires WellFormed(job) && e in job.nodes
  {
    MakesUnit(job.(lost := {}), e)
  }

  /** Two nodes that would both get a unit share a code only if they are one node. */
  predicate CodesApart(job: Job)
    requires WellFormed(job)
  {
    forall e, f :: e in job.nodes && f in job.nodes && WouldMake(job, e) && WouldMake(job, f) && CodeOf(job, e) == CodeOf(job, f) ==> e == f
  }

  /** Hyphen-free ids that differ when lowered are enough, whatever the nodes are called. */
  lemma HyphenFreeIdsAreApart(job: Job)
    requires WellFormed(job)
    requires forall e :: e in job.nodes ==> '-' !in e.id && SparesHyphen(job.lower, e.id)
    requires forall e, f :: e in job.nodes && f in job.nodes && Lower(job.lower, e.id) == Lower(job.lower, f.id) ==> e == f
    ensures forall e, f :: e in job.nodes && f in job.nodes && CodeOf(job, e) == CodeOf(job, f) ==> e == f
    ensures CodesApart(job)
  {
    forall e, f | e in job.nodes && f in job.nodes && CodeOf(job, e) == CodeOf(job, f)
      ensures e == f
    {
      HyphenFreeCodesAreApart(job.lower, job.nodes[e].name, e.id, job.nodes[f].name, f.id);
    }
  }

  /** A later run over the same nodes gets at least as far, however its calls go. */
  lemma LaterRunGetsAsFar(job: Job, done: set<Ext>, rows: Rows, next: Job, later: set<Ext>)
    requires Follows(job, next, rows) && next.nodes == job.nodes
    requires IsLeast(job, done) && RowsAfter(job, done, rows) && IsLeast(next, later)
    ensures done <= later
  {
    var both := later * done;
    forall e | e in job.nodes && Ready(job, both, e)
      ensures e in both
    {
      assert Ready(job, done, e);
      var p := job.nodes[e].parent;
      if p.Some? {
        if CreatedIn(job.before, p.value) {
          CreatedStays(job, done, rows, p.value);
        } else {
          LaterParent(job, done, rows, next, later, p.value);
        }
      }
      assert Ready(next, later, e);
    }
    assert Closed(job, both);
  }

  lemma LaterParent(job: Job, done: set<Ext>, rows: Rows, next: Job, later: set<Ext>, p: Ext)
    requires Follows(job, next, rows) && next.nodes == job.nodes && done <= job.nodes.Keys && RowsAfter(job, done, rows)
    requires p in job.nodes && Resolves(job, p) && p in done
    ensures CreatedIn(next.before, p)
  {
    assert RowIs(rows, p, RowAfter(job, p));
  }

  /** After a run in which every node got its unit, the next run creates nothing, calls nothing and
      leaves the table as it is. */
  lemma RerunCreatesNothing(job: Job, done: set<Ext>, rows: Rows, next: Job, later: set<Ext>, rows': Rows)
    requires Follows(job, next, rows) && next.nodes == job.nodes
    requires done == job.nodes.Keys && RowsAfter(job, done, rows) && forall e :: e in job.nodes ==> Resolves(job, e)
    requires IsLeast(next, later) && RowsAfter(next, later, rows')
    ensures forall e :: e in next.nodes ==> Fate(next, e).WasSkipped? && !Calls(next, e)
    ensures rows' == rows
  {
    forall e | e in next.nodes
      ensures CreatedIn(next.before, e)
    {
      assert RowIs(rows, e, RowAfter(job, e));
    }
    forall e
      ensures RowOf(rows', e) == RowOf(rows, e)
    {
      assert RowIs(rows', e, if e in later then RowAfter(next, e) else RowOf(next.before, e));
    }
    RowsAreEqual(rows', rows);
  }
}
