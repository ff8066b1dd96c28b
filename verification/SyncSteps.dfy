/** Between two turns of the jurisdiction sync: what the tables and the local variables say of the nodes
    done so far, and what one more turn adds. */
module SyncSteps {
  import opened Options
  import opened SlugCodes
  import opened SyncJob

  /** RunJurisdictionSync's local variables. */
  datatype Work = Work(remaining: set<Ext>, resolved: map<Ext, Unit>, created: nat, skipped: nat, failed: nat)

  // ---- what each step adds to the work done so far

  ghost predicate Forced(job: Job, done: set<Ext>)
    requires WellFormed(job)
  {
    done <= job.nodes.Keys && forall other: set<Ext> :: Closed(job, other) ==> done <= other
  }

  lemma ForcedAdvance(job: Job, done: set<Ext>, e: Ext)
    requires WellFormed(job) && Forced(job, done) && e in job.nodes && Ready(job, done, e)
    ensures Forced(job, done + {e})
  {
    forall other: set<Ext> | Closed(job, other)
      ensures done + {e} <= other
    {
      ReadyStaysLeast(job, done, e, other);
    }
  }

  lemma RowsAdvance(job: Job, done: set<Ext>, rows: Rows, e: Ext)
    requires WellFormed(job) && done <= job.nodes.Keys && e in job.nodes && e !in done && RowsAfter(job, done, rows)
    ensures RowsAfter(job, done + {e}, WithRow(rows, e, RowAfter(job, e)))
    ensures RowOf(rows, e) == RowOf(job.before, e)
  {
    assert RowIs(rows, e, RowOf(job.before, e));
    var after := WithRow(rows, e, RowAfter(job, e));
    forall f
      ensures RowIs(after, f, if f in done + {e} then RowAfter(job, f) else RowOf(job.before, f))
    {
      assert RowIs(rows, f, if f in done then RowAfter(job, f) else RowOf(job.before, f));
    }
  }

  function WithRow(rows: Rows, e: Ext, row: Option<Row>): Rows {
    if row.Some? then rows[e := row.value] else rows
  }

  function Tallied(job: Job, done: set<Ext>, t: Tally): set<Ext>
    requires WellFormed(job) && done <= job.nodes.Keys
  {
    set e | e in done && Fate(job, e) == t
  }

  lemma TallyAdvance(job: Job, done: set<Ext>, e: Ext, t: Tally)
    requires WellFormed(job) && done <= job.nodes.Keys && e in job.nodes && e !in done
    ensures |Tallied(job, done + {e}, t)| == |Tallied(job, done, t)| + if Fate(job, e) == t then 1 else 0
  {
    var before, after := Tallied(job, done, t), Tallied(job, done + {e}, t);
    assert e !in before;
    if Fate(job, e) == t {
      assert after == before + {e};
    } else {
      assert after == before;
    }
  }

  /** The units resolved so far: those of the nodes done, unless they failed. */
  ghost predicate IsResolved(job: Job, done: set<Ext>, resolved: map<Ext, Unit>)
    requires WellFormed(job) && done <= job.nodes.Keys
  {
    && (forall e :: e in resolved <==> e in done && Resolves(job, e))
    && (forall e :: e in resolved ==> resolved[e] == UnitOf(job, e))
  }

  /** Every unit made stands under its parent's unit, or under the anchor. */
  predicate Placed(job: Job, done: set<Ext>, tree: Units)
    requires WellFormed(job) && done <= job.nodes.Keys
  {
    forall e {:trigger IsPlaced(job, done, tree, e)} :: e in done ==> IsPlaced(job, done, tree, e)
  }

  predicate IsPlaced(job: Job, done: set<Ext>, tree: Units, e: Ext)
    requires WellFormed(job) && e in job.nodes
  {
    && Ready(job, done, e)
    && (MakesUnit(job, e) ==>
          job.calls[e].unit in tree && tree[job.calls[e].unit] == Stand(CodeOf(job, e), ParentUnit(job, done, e)))
  }

  /** The directory grows by the units made, and nothing that stood moves. */
  ghost predicate Grown(job: Job, done: set<Ext>, tree: Units)
    requires WellFormed(job) && done <= job.nodes.Keys
  {
    && (forall u :: u in job.standing ==> u in tree && tree[u] == job.standing[u])
    && (forall u :: u in tree && u !in job.standing ==> IsMade(job, done, u))
  }

  ghost predicate IsMade(job: Job, done: set<Ext>, u: Unit)
    requires WellFormed(job) && done <= job.nodes.Keys
  {
    exists e :: e in done && MakesUnit(job, e) && job.calls[e].unit == u
  }

  predicate UnitsAreNew(job: Job)
    requires WellFormed(job)
  {
    MintsApart(job) && forall e :: e in job.nodes ==> job.calls[e].unit !in job.standing
  }

  function WithUnit(job: Job, done: set<Ext>, tree: Units, e: Ext): Units
    requires WellFormed(job) && e in job.nodes && Ready(job, done, e)
  {
    if MakesUnit(job, e) then tree[job.calls[e].unit := Stand(CodeOf(job, e), ParentUnit(job, done, e))] else tree
  }

  lemma PlacedAdvance(job: Job, done: set<Ext>, tree: Units, e: Ext)
    requires WellFormed(job) && done <= job.nodes.Keys && e in job.nodes && e !in done && Ready(job, done, e)
    requires Placed(job, done, tree) && MintsApart(job)
    ensures Placed(job, done + {e}, WithUnit(job, done, tree, e))
  {
    forall f | f in done + {e}
      ensures IsPlaced(job, done + {e}, WithUnit(job, done, tree, e), f)
    {
      if f != e {
        assert IsPlaced(job, done, tree, f);
      }
    }
  }

  lemma GrownAdvance(job: Job, done: set<Ext>, tree: Units, e: Ext)
    requires WellFormed(job) && done <= job.nodes.Keys && e in job.nodes && Ready(job, done, e)
    requires Grown(job, done, tree) && UnitsAreNew(job)
    ensures Grown(job, done + {e}, WithUnit(job, done, tree, e))
  {
    var after := WithUnit(job, done, tree, e);
    forall u | u in after && u !in job.standing
      ensures IsMade(job, done + {e}, u)
    {
      if u in tree {
        assert IsMade(job, done, u);
        var f :| f in done && MakesUnit(job, f) && job.calls[f].unit == u;
        assert f in done + {e};
      } else {
        assert e in done + {e} && MakesUnit(job, e) && job.calls[e].unit == u;
      }
    }
  }

  /** A node that has had no turn has no unit yet. */
  lemma UnmadeUnitIsNew(g: Job, done: set<Ext>, tree: Units, e: Ext)
    requires WellFormed(g) && done <= g.nodes.Keys && UnitsAreNew(g) && e in g.nodes && e !in done && Grown(g, done, tree)
    ensures g.calls[e].unit !in tree
  {
    forall f | f in done && MakesUnit(g, f)
      ensures g.calls[f].unit != g.calls[e].unit
    {}
    assert !IsMade(g, done, g.calls[e].unit);
  }

  // ---- codes taken by the run itself

  /** A node that would have made a unit loses its code only to another node of the run that has made one. */
  ghost predicate LostToOthers(job: Job, done: set<Ext>)
    requires WellFormed(job) && done <= job.nodes.Keys
  {
    forall e :: e in job.lost ==> e in done && exists f :: LostTo(job, done, e, f)
  }

  predicate LostTo(job: Job, done: set<Ext>, e: Ext, f: Ext)
    requires WellFormed(job) && done <= job.nodes.Keys && e in job.nodes
  {
    WouldMake(job, e) && f in done && f != e && MakesUnit(job, f) && CodeOf(job, f) == CodeOf(job, e)
  }

  /** With codes apart nobody loses one, and the job turns out as given. */
  lemma NoneLost(job: Job, done: set<Ext>)
    requires WellFormed(job) && done <= job.nodes.Keys && LostToOthers(job, done) && CodesApart(job)
    ensures job.lost == {}
  {
    forall e, f | e in done
      ensures !LostTo(job, done, e, f)
    {}
  }

  /** A code is taken by a unit that stood before, or by one the run has made. */
  lemma TakenByWhom(job: Job, done: set<Ext>, tree: Units, code: string)
    requires WellFormed(job) && done <= job.nodes.Keys && Placed(job, done, tree) && Grown(job, done, tree)
    ensures IsTaken(tree, code) <==> IsTaken(job.standing, code) || exists f :: MakesCode(job, done, f, code)
  {
    if IsTaken(job.standing, code) {
      var u :| u in job.standing && job.standing[u].code == code;
      assert u in tree && tree[u].code == code;
    }
    if f :| MakesCode(job, done, f, code) {
      assert IsPlaced(job, done, tree, f);
      assert tree[job.calls[f].unit].code == code;
    }
    if IsTaken(tree, code) {
      var u :| u in tree && tree[u].code == code;
      if u !in job.standing {
        assert IsMade(job, done, u);
        var f :| f in done && MakesUnit(job, f) && job.calls[f].unit == u;
        assert IsPlaced(job, done, tree, f);
        assert MakesCode(job, done, f, code);
      }
    }
  }

  predicate MakesCode(job: Job, done: set<Ext>, f: Ext, code: string)
    requires WellFormed(job) && done <= job.nodes.Keys
  {
    f in done && MakesUnit(job, f) && CodeOf(job, f) == code
  }

  /** The job as it turns out once e, whose turn it is, finds its code taken by the run itself. */
  ghost function Losing(job: Job, tree: Units, e: Ext): Job
    requires WellFormed(job) && e in job.nodes
  {
    if MakesUnit(job, e) && IsTaken(tree, CodeOf(job, e)) then job.(lost := job.lost + {e}) else job
  }

  /** The two jobs treat f alike. */
  predicate Agree(job: Job, g: Job, f: Ext)
    requires WellFormed(job) && WellFormed(g) && f in job.nodes && g.nodes == job.nodes
  {
    && MakesUnit(g, f) == MakesUnit(job, f) && Calls(g, f) == Calls(job, f)
    && Fate(g, f) == Fate(job, f) && RowAfter(g, f) == RowAfter(job, f)
    && (Resolves(job, f) ==> UnitOf(g, f) == UnitOf(job, f))
  }

  lemma LosingAgrees(job: Job, tree: Units, e: Ext, f: Ext)
    requires WellFormed(job) && e in job.nodes && f in job.nodes && f != e
    ensures Agree(job, Losing(job, tree, e), f)
  {}

  /** What was done before it stays done the same way. */
  lemma LosingKeepsRows(job: Job, done: set<Ext>, rows: Rows, tree: Units, e: Ext)
    requires WellFormed(job) && done <= job.nodes.Keys && e in job.nodes && e !in done && RowsAfter(job, done, rows)
    ensures RowsAfter(Losing(job, tree, e), done, rows)
  {
    var g := Losing(job, tree, e);
    forall f
      ensures RowIs(rows, f, if f in done then RowAfter(g, f) else RowOf(g.before, f))
    {
      assert RowIs(rows, f, if f in done then RowAfter(job, f) else RowOf(job.before, f));
      if f in done { LosingAgrees(job, tree, e, f); }
    }
  }

  lemma LosingKeepsPlaced(job: Job, done: set<Ext>, tree: Units, e: Ext)
    requires WellFormed(job) && done <= job.nodes.Keys && e in job.nodes && e !in done && Placed(job, done, tree)
    ensures Placed(Losing(job, tree, e), done, tree)
  {
    var g := Losing(job, tree, e);
    forall f | f in done
      ensures IsPlaced(g, done, tree, f)
    {
      assert IsPlaced(job, done, tree, f);
      LosingAgrees(job, tree, e, f);
      LosingKeepsReady(job, done, tree, e, f);
    }
  }

  lemma LosingKeepsReady(job: Job, done: set<Ext>, tree: Units, e: Ext, f: Ext)
    requires WellFormed(job) && done <= job.nodes.Keys && e in job.nodes && e !in done && f in job.nodes
    ensures var g := Losing(job, tree, e);
            && Ready(g, done, f) == Ready(job, done, f)
            && (Ready(job, done, f) ==> ParentUnit(g, done, f) == ParentUnit(job, done, f))
  {
    var p := job.nodes[f].parent;
    if p.Some? && p.value in done {
      LosingAgrees(job, tree, e, p.value);
    }
  }

  lemma LosingKeepsGrown(job: Job, done: set<Ext>, tree: Units, e: Ext)
    requires WellFormed(job) && done <= job.nodes.Keys && e in job.nodes && e !in done && Grown(job, done, tree)
    ensures Grown(Losing(job, tree, e), done, tree)
  {
    var g := Losing(job, tree, e);
    forall u | u in tree && u !in job.standing
      ensures IsMade(g, done, u)
    {
      assert IsMade(job, done, u);
      var f :| f in done && MakesUnit(job, f) && job.calls[f].unit == u;
      LosingAgrees(job, tree, e, f);
    }
  }

  lemma LosingKeepsLog(job: Job, done: set<Ext>, log: seq<Ext>, tree: Units, e: Ext)
    requires WellFormed(job) && done <= job.nodes.Keys && e in job.nodes && LoggedOnce(job, done, log)
    ensures LoggedOnce(Losing(job, tree, e), done, log)
  {}

  lemma LosingKeepsTables(job: Job, done: set<Ext>, rows: Rows, tree: Units, called: seq<Ext>, calledBefore: seq<Ext>, e: Ext)
    requires WellFormed(job) && done <= job.nodes.Keys && e in job.nodes && e !in done
    requires TablesOk(job, done, rows, tree, called, calledBefore)
    ensures TablesOk(Losing(job, tree, e), done, rows, tree, called, calledBefore)
  {
    LosingKeepsRows(job, done, rows, tree, e);
    LosingKeepsPlaced(job, done, tree, e);
    LosingKeepsGrown(job, done, tree, e);
    LosingKeepsLog(job, done, called[|calledBefore|..], tree, e);
  }

  lemma LosingKeepsLost(job: Job, done: set<Ext>, tree: Units, e: Ext)
    requires WellFormed(job) && done <= job.nodes.Keys && e in job.nodes && e !in done
    requires LostToOthers(job, done) && Placed(job, done, tree) && Grown(job, done, tree)
    ensures LostToOthers(Losing(job, tree, e), done + {e})
  {
    var g := Losing(job, tree, e);
    forall x | x in g.lost
      ensures x in done + {e} && exists f :: LostTo(g, done + {e}, x, f)
    {
      if x in job.lost {
        var f :| LostTo(job, done, x, f);
        LostStaysLost(job, done, tree, e, x, f);
      } else {
        LostNow(job, done, tree, e);
      }
    }
  }

  lemma LostStaysLost(job: Job, done: set<Ext>, tree: Units, e: Ext, x: Ext, f: Ext)
    requires WellFormed(job) && done <= job.nodes.Keys && e in job.nodes && e !in done && x in job.nodes && LostTo(job, done, x, f)
    ensures LostTo(Losing(job, tree, e), done + {e}, x, f)
  {
    LosingAgrees(job, tree, e, f);
  }

  lemma LostNow(job: Job, done: set<Ext>, tree: Units, e: Ext)
    requires WellFormed(job) && done <= job.nodes.Keys && e in job.nodes && e !in done
    requires Placed(job, done, tree) && Grown(job, done, tree) && MakesUnit(job, e) && IsTaken(tree, CodeOf(job, e))
    ensures exists f :: LostTo(Losing(job, tree, e), done + {e}, e, f)
  {
    TakenByWhom(job, done, tree, CodeOf(job, e));
    var f :| MakesCode(job, done, f, CodeOf(job, e));
    LosingAgrees(job, tree, e, f);
    assert LostTo(Losing(job, tree, e), done + {e}, e, f);
  }

  lemma LosingIsRefusal(job: Job, done: set<Ext>, tree: Units, e: Ext)
    requires WellFormed(job) && done <= job.nodes.Keys && e in job.nodes && e !in done && LostToOthers(job, done)
    requires forall u :: u in job.standing ==> u in tree && tree[u] == job.standing[u]
    ensures MakesUnit(Losing(job, tree, e), e) <==>
              Calls(job, e) && job.calls[e].admitted && !IsTaken(tree, CodeOf(job, e))
  {
    if IsTaken(job.standing, CodeOf(job, e)) {
      var u :| u in job.standing && job.standing[u].code == CodeOf(job, e);
      assert u in tree && tree[u].code == CodeOf(job, e);
    }
  }

  /** Nodes already done were forced by nodes already done, so they still are. */
  lemma LosingKeepsForced(job: Job, done: set<Ext>, tree: Units, e: Ext)
    requires WellFormed(job) && e in job.nodes && e !in done && Forced(job, done)
    requires forall f :: f in done ==> Ready(job, done, f)
    ensures Forced(Losing(job, tree, e), done)
  {
    forall other: set<Ext> | Closed(Losing(job, tree, e), other)
      ensures done <= other
    {
      WideIsClosed(job, done, tree, e, other);
      assert done <= other + (job.nodes.Keys - done);
    }
  }

  lemma WideIsClosed(job: Job, done: set<Ext>, tree: Units, e: Ext, other: set<Ext>)
    requires WellFormed(job) && done <= job.nodes.Keys && e in job.nodes && e !in done
    requires forall f :: f in done ==> Ready(job, done, f)
    requires Closed(Losing(job, tree, e), other)
    ensures Closed(job, other + (job.nodes.Keys - done))
  {
    var wide := other + (job.nodes.Keys - done);
    forall f | f in job.nodes && Ready(job, wide, f)
      ensures f in wide
    {
      if f in done {
        ForcedByDone(job, done, tree, e, other, f);
      }
    }
  }

  lemma ForcedByDone(job: Job, done: set<Ext>, tree: Units, e: Ext, other: set<Ext>, f: Ext)
    requires WellFormed(job) && done <= job.nodes.Keys && e in job.nodes && e !in done && f in job.nodes
    requires Ready(job, done, f) && Ready(job, other + (job.nodes.Keys - done), f)
    ensures Ready(Losing(job, tree, e), other, f)
  {
    var p := job.nodes[f].parent;
    if p.Some? && p.value in done {
      LosingAgrees(job, tree, e, p.value);
    }
  }

  lemma LosingKeepsResolved(job: Job, done: set<Ext>, tree: Units, e: Ext, resolved: map<Ext, Unit>)
    requires WellFormed(job) && done <= job.nodes.Keys && e in job.nodes && e !in done && IsResolved(job, done, resolved)
    ensures IsResolved(Losing(job, tree, e), done, resolved)
  {
    forall f | f in done
      ensures Agree(job, Losing(job, tree, e), f)
    {
      LosingAgrees(job, tree, e, f);
    }
  }

  lemma LosingKeepsTally(job: Job, done: set<Ext>, tree: Units, e: Ext, t: Tally)
    requires WellFormed(job) && done <= job.nodes.Keys && e in job.nodes && e !in done
    ensures Tallied(Losing(job, tree, e), done, t) == Tallied(job, done, t)
  {
    forall f | f in done
      ensures Agree(job, Losing(job, tree, e), f)
    {
      LosingAgrees(job, tree, e, f);
    }
  }

  lemma LosingKeepsWork(job: Job, w: Work, tree: Units, e: Ext)
    requires WellFormed(job) && WorkOk(job, w) && e in w.remaining
    requires forall f :: f in Done(job, w) ==> Ready(job, Done(job, w), f)
    ensures WorkOk(Losing(job, tree, e), w)
  {
    var done := Done(job, w);
    LosingKeepsForced(job, done, tree, e);
    LosingKeepsResolved(job, done, tree, e, w.resolved);
    LosingKeepsTally(job, done, tree, e, WasCreated);
    LosingKeepsTally(job, done, tree, e, WasSkipped);
    LosingKeepsTally(job, done, tree, e, WasFailed);
  }

  /** CreateChildOrg was called once for each node that got that far, and for no other. */
  ghost predicate LoggedOnce(job: Job, done: set<Ext>, log: seq<Ext>)
    requires WellFormed(job) && done <= job.nodes.Keys
  {
    && (forall i, j :: 0 <= i < j < |log| ==> log[i] != log[j])
    && (forall e :: e in log <==> e in done && Calls(job, e))
  }

  lemma LogAdvance(job: Job, done: set<Ext>, log: seq<Ext>, e: Ext)
    requires WellFormed(job) && done <= job.nodes.Keys && e in job.nodes && e !in done && LoggedOnce(job, done, log)
    ensures LoggedOnce(job, done + {e}, if Calls(job, e) then log + [e] else log)
  {
    assert e !in log;
  }

  lemma DisjointSizes(a: set<Ext>, b: set<Ext>)
    requires a !! b
    ensures |a + b| == |a| + |b|
  {}

  lemma ThreeParts(all: set<Ext>, a: set<Ext>, b: set<Ext>, c: set<Ext>)
    requires all == a + b + c && a !! b && a !! c && b !! c
    ensures |all| == |a| + |b| + |c|
  {
    DisjointSizes(a, b);
    DisjointSizes(a + b, c);
  }

  lemma EachIsTallied(job: Job, done: set<Ext>)
    requires WellFormed(job) && done <= job.nodes.Keys
    ensures done == Tallied(job, done, WasCreated) + Tallied(job, done, WasSkipped) + Tallied(job, done, WasFailed)
    ensures Tallied(job, done, WasCreated) !! Tallied(job, done, WasSkipped) && Tallied(job, done, WasCreated) !! Tallied(job, done, WasFailed)
    ensures Tallied(job, done, WasSkipped) !! Tallied(job, done, WasFailed)
  {}

  /** Every distinct external id is created, skipped, failed or left over. */
  lemma TalliesAddUp(job: Job, done: set<Ext>)
    requires WellFormed(job) && done <= job.nodes.Keys
    ensures |Tallied(job, done, WasCreated)| + |Tallied(job, done, WasSkipped)| + |Tallied(job, done, WasFailed)| +
            |job.nodes.Keys - done| == |job.nodes.Keys|
  {
    EachIsTallied(job, done);
    ThreeParts(done, Tallied(job, done, WasCreated), Tallied(job, done, WasSkipped), Tallied(job, done, WasFailed));
    DisjointSizes(done, job.nodes.Keys - done);
    assert job.nodes.Keys == done + (job.nodes.Keys - done);
  }

  function Done(job: Job, w: Work): (done: set<Ext>)
    ensures done <= job.nodes.Keys
  {
    job.nodes.Keys - w.remaining
  }

  predicate Counted(job: Job, w: Work)
    requires WellFormed(job)
  {
    && w.created == |Tallied(job, Done(job, w), WasCreated)|
    && w.skipped == |Tallied(job, Done(job, w), WasSkipped)|
    && w.failed == |Tallied(job, Done(job, w), WasFailed)|
  }

  ghost predicate WorkOk(job: Job, w: Work)
    requires WellFormed(job)
  {
    w.remaining <= job.nodes.Keys && Forced(job, Done(job, w)) && IsResolved(job, Done(job, w), w.resolved) && Counted(job, w)
  }

  ghost predicate TablesOk(job: Job, done: set<Ext>, rows: Rows, tree: Units, called: seq<Ext>, calledBefore: seq<Ext>)
    requires WellFormed(job) && done <= job.nodes.Keys
  {
    && RowsAfter(job, done, rows)
    && Placed(job, done, tree) && Grown(job, done, tree)
    && calledBefore <= called && LoggedOnce(job, done, called[|calledBefore|..])
  }

  function LogCall(job: Job, called: seq<Ext>, e: Ext): seq<Ext>
    requires WellFormed(job) && e in job.nodes
  {
    if Calls(job, e) then called + [e] else called
  }

  lemma WorkAdvance(job: Job, w: Work, after: Work, e: Ext)
    requires WellFormed(job) && WorkOk(job, w) && e in w.remaining && Ready(job, Done(job, w), e)
    requires after.remaining == w.remaining - {e}
    requires after.resolved == if Resolves(job, e) then w.resolved[e := UnitOf(job, e)] else w.resolved
    requires after.created == w.created + if Fate(job, e).WasCreated? then 1 else 0
    requires after.skipped == w.skipped + if Fate(job, e).WasSkipped? then 1 else 0
    requires after.failed == w.failed + if Fate(job, e).WasFailed? then 1 else 0
    ensures WorkOk(job, after) && Done(job, after) == Done(job, w) + {e}
  {
    var done := Done(job, w);
    assert Done(job, after) == done + {e};
    ForcedAdvance(job, done, e);
    TallyAdvance(job, done, e, WasCreated);
    TallyAdvance(job, done, e, WasSkipped);
    TallyAdvance(job, done, e, WasFailed);
  }

  lemma TablesAdvance(job: Job, done: set<Ext>, rows: Rows, tree: Units, called: seq<Ext>, calledBefore: seq<Ext>, e: Ext)
    requires WellFormed(job) && done <= job.nodes.Keys && e in job.nodes && e !in done && Ready(job, done, e)
    requires UnitsAreNew(job) && TablesOk(job, done, rows, tree, called, calledBefore)
    ensures RowOf(rows, e) == RowOf(job.before, e)
    ensures TablesOk(job, done + {e}, WithRow(rows, e, RowAfter(job, e)), WithUnit(job, done, tree, e), LogCall(job, called, e), calledBefore)
  {
    RowsAdvance(job, done, rows, e);
    PlacedAdvance(job, done, tree, e);
    GrownAdvance(job, done, tree, e);
    var n := |calledBefore|;
    LogAdvance(job, done, called[n..], e);
    assert (called + [e])[n..] == called[n..] + [e];
  }

  lemma StartsInStep(job: Job, w: Work, called: seq<Ext>)
    requires WellFormed(job) && w == Work(job.nodes.Keys, map[], 0, 0, 0) && job.lost == {}
    ensures WorkOk(job, w) && TablesOk(job, Done(job, w), job.before, job.standing, called, called)
    ensures LostToOthers(job, Done(job, w))
  {
    assert Done(job, w) == {};
    assert forall e :: RowIs(job.before, e, RowOf(job.before, e));
  }

  // ---- the order does not matter

  /** What a run leaves behind, once it has ended. */
  ghost predicate IsOutcome(job: Job, w: Work, rows: Rows, tree: Units, called: seq<Ext>, calledBefore: seq<Ext>)
    requires WellFormed(job)
  {
    WorkOk(job, w) && IsLeast(job, Done(job, w)) && TablesOk(job, Done(job, w), rows, tree, called, calledBefore)
  }

  /** Two runs in which the same nodes lost their codes leave the same table, the same units in the same
      places, the same counts, and have called CreateChildOrg for the same nodes. */
  lemma SameOutcome(job: Job, w: Work, rows: Rows, tree: Units, called: seq<Ext>,
                    w': Work, rows': Rows, tree': Units, called': seq<Ext>, calledBefore: seq<Ext>)
    requires WellFormed(job)
    requires IsOutcome(job, w, rows, tree, called, calledBefore) && IsOutcome(job, w', rows', tree', called', calledBefore)
    ensures Done(job, w) == Done(job, w') && rows == rows' && tree == tree'
    ensures w.created == w'.created && w.skipped == w'.skipped && w.failed == w'.failed && w.remaining == w'.remaining
    ensures forall e :: e in called[|calledBefore|..] <==> e in called'[|calledBefore|..]
  {
    var least := LeastExists(job);
    SameTable(job, Done(job, w), Done(job, w'), rows, rows');
    SameTree(job, least, tree, tree');
    assert w.remaining == job.nodes.Keys - Done(job, w);
    assert w'.remaining == job.nodes.Keys - Done(job, w');
  }

  lemma SameTree(job: Job, done: set<Ext>, tree: Units, tree': Units)
    requires WellFormed(job) && done <= job.nodes.Keys
    requires Placed(job, done, tree) && Grown(job, done, tree) && Placed(job, done, tree') && Grown(job, done, tree')
    ensures tree == tree'
  {
    TreeWithin(job, done, tree, tree');
    TreeWithin(job, done, tree', tree);
  }

  lemma TreeWithin(job: Job, done: set<Ext>, tree: Units, tree': Units)
    requires WellFormed(job) && done <= job.nodes.Keys
    requires Placed(job, done, tree) && Grown(job, done, tree) && Placed(job, done, tree') && Grown(job, done, tree')
    ensures forall u :: u in tree ==> u in tree' && tree'[u] == tree[u]
  {
    forall u | u in tree
      ensures u in tree' && tree'[u] == tree[u]
    {
      if u !in job.standing {
        assert IsMade(job, done, u);
        var f :| f in done && MakesUnit(job, f) && job.calls[f].unit == u;
        assert IsPlaced(job, done, tree, f) && IsPlaced(job, done, tree', f);
      }
    }
  }

  /** A unit made but not recorded holds its node's code: what OrphanBlocksForGood starts from. */
  lemma OrphanHoldsItsCode(job: Job, w: Work, rows: Rows, tree: Units, called: seq<Ext>, calledBefore: seq<Ext>, e: Ext)
    requires WellFormed(job) && IsOutcome(job, w, rows, tree, called, calledBefore)
    requires e in Done(job, w) && MakesUnit(job, e) && !Resolves(job, e)
    ensures !CreatedIn(rows, e) && IsTaken(tree, CodeOf(job, e))
  {
    var done := Done(job, w);
    assert RowIs(rows, e, RowAfter(job, e));
    assert IsPlaced(job, done, tree, e);
    assert tree[job.calls[e].unit].code == CodeOf(job, e);
  }

  lemma EndsAtLeast(job: Job, w: Work)
    requires WellFormed(job) && WorkOk(job, w) && (w.remaining == {} || Closed(job, Done(job, w)))
    ensures IsLeast(job, Done(job, w))
    ensures w.created + w.skipped + w.failed + |w.remaining| == |job.nodes|
  {
    TalliesAddUp(job, Done(job, w));
    assert job.nodes.Keys - Done(job, w) == w.remaining;
  }

  lemma SmallerIsFewer(a: set<Ext>, b: set<Ext>)
    requires a < b
    ensures |a| < |b|
  {
    assert b == a + (b - a);
  }
}
