/** What the answers of Move mean, in terms of the units, edges and jobs before and after the call. */
module MoveAnswers {
  import opened Options
  import opened Paths
  import opened Directory
  import opened MoveRuns
  import opened DirectoryService

  /** A call for the target of a live unit's interrupted move finishes it: once its new edge is in, always,
      and before that exactly when the new edge can be added. */
  lemma MoveResumes(d: Dir, u: UnitId, i: nat, r: MoveResult, t: Dir)
    requires Inv(Quiet(d)) && u in d.live && IsUnderWay(d, i, u)
    requires Moves(d, u, d.jobs[i].newParent, NO_FAULTS, r, t)
    ensures r.MoveRan? && SameMove(r.job, d.jobs[i])
    ensures var j := d.jobs[i];
            var fits := !j.status.Pending? || (j.newParent in d.live && !Reaches(d.edges, u, j.newParent));
            && (r.job.status.Verified? <==> fits)
            && Parents(t.edges, u) == if fits then j.startParents - {j.oldParent} + {j.newParent} else Parents(d.edges, u)
  {
    UnderWayIsLive(d, i, u);
    DrivenIsSameMove(d, i, NO_FAULTS);
    DriveEndsIff(d, i, NO_FAULTS);
    NothingLost(d, i);
    DriveOutcome(d, i);
    if !d.jobs[i].status.Pending? {
      ResumeFinishes(d, i);
    }
  }

  lemma NothingLost(d: Dir, i: nat)
    requires i < |d.jobs|
    ensures !LosesWrite(d, i, NO_FAULTS)
  {}

  /** A fresh move of a live unit takes one of its parents for the new one, and changes no other edge,
      exactly when the new parent is not deleted and not below the unit; otherwise the job fails and no
      edge changes. */
  lemma MoveStarts(d: Dir, u: UnitId, newParent: UnitId, r: MoveResult, t: Dir)
    requires Inv(Quiet(d)) && u in d.live && u != d.root && (forall i :: !IsUnderWay(d, i, u))
    requires newParent in d.live + d.deleted && newParent !in Parents(d.edges, u)
    requires Moves(d, u, newParent, NO_FAULTS, r, t)
    ensures r.MoveRan? && r.job.unit == u && r.job.newParent == newParent
    ensures r.job.status.Verified? <==> newParent in d.live && !Reaches(d.edges, u, newParent)
    ensures exists p :: Edge(p, u) in d.edges &&
              t.edges == if r.job.status.Verified? then d.edges + {Edge(newParent, u)} - {Edge(p, u)} else d.edges
    ensures t == d.(edges := t.edges, jobs := d.jobs + [r.job])
  {
    NoLiveJob(d.jobs, u);
    forall i | 0 <= i < |d.jobs| && d.jobs[i].unit == u
      ensures !InProgress(d.jobs[i])
    {
      assert !IsUnderWay(d, i, u);
    }
    SomeCurrentParent(d, u);
    assert !r.AlreadyAtParent? by {
      if IsCurrentParent(d, u, newParent) { CurrentParentIsParent(Quiet(d), u, newParent); }
    }
    var p :| IsCurrentParent(d, u, p) && p != newParent && Drives(WithJob(d, u, p, newParent), |d.jobs|, NO_FAULTS, r, t);
    CurrentParentIsParent(Quiet(d), u, p);
    AtomicStartKeepsInv(d, u, newParent, p);
    StartDrives(d, u, p, newParent, r, t);
  }

  lemma StartDrives(d: Dir, u: UnitId, p: UnitId, newParent: UnitId, r: MoveResult, t: Dir)
    requires Inv(Quiet(WithJob(d, u, p, newParent))) && u in d.live
    requires Drives(WithJob(d, u, p, newParent), |d.jobs|, NO_FAULTS, r, t)
    ensures r.MoveRan? && r.job.unit == u && r.job.newParent == newParent
    ensures r.job.status.Verified? <==> newParent in d.live && !Reaches(d.edges, u, newParent)
    ensures t.edges == if r.job.status.Verified? then d.edges + {Edge(newParent, u)} - {Edge(p, u)} else d.edges
    ensures t == d.(edges := t.edges, jobs := d.jobs + [r.job])
  {
    var begun, i := WithJob(d, u, p, newParent), |d.jobs|;
    NothingLost(begun, i);
    DriveOutcome(begun, i);
    DrivenIsSameMove(begun, i, NO_FAULTS);
    assert t.jobs == d.jobs + [r.job];
  }

  /** A live unit but the root has a current parent. */
  lemma SomeCurrentParent(d: Dir, u: UnitId)
    requires Inv(Quiet(d)) && u in d.live && u != d.root
    ensures exists p :: IsCurrentParent(d, u, p)
  {
    var i := Latest(d.jobs, u);
    if 0 <= i && d.jobs[i].status.Verified? {
      assert IsCurrentParent(d, u, d.jobs[i].newParent);
    } else {
      var q :| q in Parents(d.edges, u);
      assert Edge(q, u) in d.edges;
      EdgeReach(d.edges, q, u);
      PathNotLoop(d.edges, q, u);
      NearestBelow(d, u, q);
      var p :| IsNearest(d, p, u);
      assert IsCurrentParent(d, u, p);
    }
  }

  lemma {:induction false} NearestBelow(d: Dir, u: UnitId, q: UnitId)
    requires IsLiveAncestor(d, q, u)
    ensures exists p :: IsNearest(d, p, u)
    decreases Distance(d.edges, q, u)
  {
    if b :| IsLiveAncestor(d, b, u) && Distance(d.edges, b, u) < Distance(d.edges, q, u) {
      NearestBelow(d, u, b);
    } else {
      assert IsNearest(d, q, u);
    }
  }

  /** A fault of the store in the phase that is due fails the job there, with every edge in place. */
  lemma FaultFailsMove(d: Dir, i: nat, faults: Faults)
    requires i < |d.jobs| && InProgress(d.jobs[i])
    requires var f := match d.jobs[i].status case Pending => faults.add case NewEdgeAdded => faults.remove case _ => faults.verify;
             f.transaction && !f.write
    ensures Driven(d, i, faults).edges == d.edges && Driven(d, i, faults).jobs[i].status.Failed?
    ensures !LosesWrite(d, i, faults)
  {}

  /** A drive whose first write is lost leaves the jobs as they were, so that the next one can take them
      up; what the phase did to the edges stays done. */
  lemma LostWriteKeepsJobs(d: Dir, i: nat, faults: Faults)
    requires i < |d.jobs| && InProgress(d.jobs[i])
    requires (match d.jobs[i].status case Pending => faults.add case NewEdgeAdded => faults.remove case _ => faults.verify).write
    ensures LosesWrite(d, i, faults) && Driven(d, i, faults).jobs == d.jobs
    ensures var j := d.jobs[i];
            Driven(d, i, faults).edges ==
              match j.status
              case Pending =>
                if !faults.add.transaction && j.unit in d.live && j.newParent in d.live && !Reaches(d.edges, j.unit, j.newParent)
                then d.edges + {Edge(j.newParent, j.unit)} else d.edges
              case NewEdgeAdded => if faults.remove.transaction then d.edges else d.edges - {Edge(j.oldParent, j.unit)}
              case _ => d.edges
  {}
}
