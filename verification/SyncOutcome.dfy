/** What a run of the jurisdiction sync leaves behind, in terms of the tables before and after it. */
module SyncOutcome {
  import opened Options
  import opened SlugCodes
  import opened SyncJob
  import opened SyncSteps

  /** The row became CREATED in this run. */
  predicate NewlyCreated(before: Rows, rows: Rows, e: Ext) {
    e in rows && rows[e].Created? && !(e in before && before[e].Created?)
  }

  /** The unit stands under the node's code: under the anchor if the node has no parent, else under the
      unit its parent's row names. */
  predicate StandsInPlace(job: Job, rows: Rows, tree: Units, e: Ext, u: Unit)
    requires e in job.nodes
  {
    && u in tree && tree[u].code == Code(job.lower, job.nodes[e].name, e.id)
    && match job.nodes[e].parent
       case None => tree[u].parent == job.anchor
       case Some(p) => p in rows && rows[p].Created? && tree[u].parent == rows[p].unit
  }

  lemma ParentHasUnit(job: Job, w: Work, rows: Rows, tree: Units, called: seq<Ext>, calledBefore: seq<Ext>, e: Ext)
    requires WellFormed(job) && IsOutcome(job, w, rows, tree, called, calledBefore)
    requires e in job.nodes && e !in w.remaining && job.nodes[e].parent.Some?
    ensures Ready(job, Done(job, w), e)
    ensures var p := job.nodes[e].parent.value; p in rows && rows[p].Created? && rows[p].unit == ParentUnit(job, Done(job, w), e)
  {
    var done, p := Done(job, w), job.nodes[e].parent.value;
    assert IsPlaced(job, done, tree, e);
    assert RowIs(rows, p, if p in done then RowAfter(job, p) else RowOf(job.before, p));
  }

  /** Every unit the run makes hangs where its node does. */
  lemma UnitStandsInPlace(job: Job, w: Work, rows: Rows, tree: Units, called: seq<Ext>, calledBefore: seq<Ext>, e: Ext)
    requires WellFormed(job) && IsOutcome(job, w, rows, tree, called, calledBefore)
    requires e in job.nodes && e !in w.remaining && MakesUnit(job, e)
    ensures StandsInPlace(job, rows, tree, e, job.calls[e].unit)
  {
    assert IsPlaced(job, Done(job, w), tree, e);
    if job.nodes[e].parent.Some? {
      ParentHasUnit(job, w, rows, tree, called, calledBefore, e);
    }
  }

  /** A node gets its turn exactly when it has no parent or its parent is CREATED in the end. */
  lemma DoneIff(job: Job, w: Work, rows: Rows, tree: Units, called: seq<Ext>, calledBefore: seq<Ext>, e: Ext)
    requires WellFormed(job) && IsOutcome(job, w, rows, tree, called, calledBefore) && e in job.nodes
    ensures e !in w.remaining <==>
              job.nodes[e].parent.None? || (job.nodes[e].parent.value in rows && rows[job.nodes[e].parent.value].Created?)
  {
    var done := Done(job, w);
    if e in done {
      if job.nodes[e].parent.Some? {
        ParentHasUnit(job, w, rows, tree, called, calledBefore, e);
      }
    } else {
      assert !Ready(job, done, e);
      var p := job.nodes[e].parent;
      if p.Some? {
        assert RowIs(rows, p.value, if p.value in done then RowAfter(job, p.value) else RowOf(job.before, p.value));
      }
    }
  }

  /** CreateChildOrg is called for exactly the nodes that get a turn, were not CREATED, have a row or could
      be given one, and are of a known kind. */
  lemma CalledIff(job: Job, w: Work, rows: Rows, tree: Units, called: seq<Ext>, calledBefore: seq<Ext>, e: Ext)
    requires WellFormed(job) && IsOutcome(job, w, rows, tree, called, calledBefore)
    ensures e in called[|calledBefore|..] <==>
              && e in job.nodes && e !in w.remaining && !(e in job.before && job.before[e].Created?)
              && (e in job.before || job.calls[e].insertOk) && job.nodes[e].kind in job.kinds
  {}

  /** A unit is made for exactly the nodes called and admitted whose code is free when their turn comes:
      one that is refused finds another unit under its code. */
  lemma MadeIff(job: Job, w: Work, rows: Rows, tree: Units, called: seq<Ext>, calledBefore: seq<Ext>, e: Ext)
    requires WellFormed(job) && UnitsAreNew(job) && IsOutcome(job, w, rows, tree, called, calledBefore)
    requires LostToOthers(job, Done(job, w)) && e in job.nodes
    ensures job.calls[e].unit in tree <==> e !in w.remaining && MakesUnit(job, e)
    ensures job.calls[e].unit in tree ==> e in called[|calledBefore|..] && job.calls[e].admitted
    ensures e in called[|calledBefore|..] && job.calls[e].admitted && job.calls[e].unit !in tree ==>
              exists u :: u in tree && tree[u].code == Code(job.lower, job.nodes[e].name, e.id)
  {
    var done := Done(job, w);
    CalledIff(job, w, rows, tree, called, calledBefore, e);
    if e in done && MakesUnit(job, e) {
      assert IsPlaced(job, done, tree, e);
    }
    if job.calls[e].unit in tree {
      assert IsMade(job, done, job.calls[e].unit);
    } else if e in called[|calledBefore|..] && job.calls[e].admitted {
      if e in job.lost {
        var f :| LostTo(job, done, e, f);
        assert MakesCode(job, done, f, CodeOf(job, e));
      }
      TakenByWhom(job, done, tree, CodeOf(job, e));
      assert IsTaken(tree, CodeOf(job, e));
    }
  }

  /** A row becomes CREATED exactly when the node's unit was made and both the profile and the row's mark
      succeeded, and then it names that unit. */
  lemma CreatedIff(job: Job, w: Work, rows: Rows, tree: Units, called: seq<Ext>, calledBefore: seq<Ext>, e: Ext)
    requires WellFormed(job) && UnitsAreNew(job) && IsOutcome(job, w, rows, tree, called, calledBefore)
    requires LostToOthers(job, Done(job, w)) && e in job.nodes
    ensures NewlyCreated(job.before, rows, e) <==>
              job.calls[e].unit in tree && job.calls[e].profileOk && job.calls[e].markCreatedOk
    ensures NewlyCreated(job.before, rows, e) ==>
              rows[e].unit == job.calls[e].unit && StandsInPlace(job, rows, tree, e, rows[e].unit)
  {
    var done := Done(job, w);
    MadeIff(job, w, rows, tree, called, calledBefore, e);
    CalledIff(job, w, rows, tree, called, calledBefore, e);
    assert RowIs(rows, e, if e in done then RowAfter(job, e) else RowOf(job.before, e));
    if e in done && MakesUnit(job, e) {
      UnitStandsInPlace(job, w, rows, tree, called, calledBefore, e);
    }
  }

  lemma AllInPlace(job: Job, g: Job, w: Work, rows: Rows, tree: Units, called: seq<Ext>, calledBefore: seq<Ext>)
    requires WellFormed(job) && UnitsAreNew(job) && g == job.(lost := g.lost)
    requires IsOutcome(g, w, rows, tree, called, calledBefore) && LostToOthers(g, Done(g, w))
    ensures forall e :: e in g.nodes && NewlyCreated(job.before, rows, e) ==> StandsInPlace(g, rows, tree, e, rows[e].unit)
  {
    forall e | e in g.nodes && NewlyCreated(job.before, rows, e)
      ensures StandsInPlace(g, rows, tree, e, rows[e].unit)
    {
      CreatedIff(g, w, rows, tree, called, calledBefore, e);
    }
  }

  /** What becomes of the rows that are not CREATED: a node that had no turn, or whose row could not be
      inserted, has the row it had; one whose call failed is marked FAILED if that can be written; else the
      row is as it was, or PENDING if it is new. */
  lemma OtherRows(job: Job, w: Work, rows: Rows, tree: Units, called: seq<Ext>, calledBefore: seq<Ext>, e: Ext)
    requires WellFormed(job) && UnitsAreNew(job) && IsOutcome(job, w, rows, tree, called, calledBefore)
    requires LostToOthers(job, Done(job, w)) && !NewlyCreated(job.before, rows, e)
    ensures var had := if e in job.before then Some(job.before[e]) else None;
            var has := if e in rows then Some(rows[e]) else None;
            if e !in job.nodes || e in w.remaining || (had.Some? && had.value.Created?) then has == had
            else if had.None? && !job.calls[e].insertOk then has == None
            else if job.calls[e].markFailedOk && !(job.calls[e].unit in tree && job.calls[e].profileOk) then has == Some(Row.Failed)
            else has == if had.Some? then had else Some(Row.Pending)
  {
    var done := Done(job, w);
    assert RowIs(rows, e, if e in done then RowAfter(job, e) else RowOf(job.before, e));
    if e in job.nodes {
      MadeIff(job, w, rows, tree, called, calledBefore, e);
      CreatedIff(job, w, rows, tree, called, calledBefore, e);
    }
  }

  /** The node's fate shows in its row. */
  lemma FateShows(job: Job, done: set<Ext>, rows: Rows, e: Ext)
    requires WellFormed(job) && done <= job.nodes.Keys && RowsAfter(job, done, rows) && e in job.nodes
    ensures NewlyCreated(job.before, rows, e) <==> e in done && Fate(job, e) == WasCreated
    ensures e in done ==> (Fate(job, e) == WasFailed <==> !(e in rows && rows[e].Created?))
  {
    assert RowIs(rows, e, if e in done then RowAfter(job, e) else RowOf(job.before, e));
  }

  function NewRows(nodes: set<Ext>, before: Rows, rows: Rows): set<Ext> {
    set e | e in nodes && NewlyCreated(before, rows, e)
  }

  function OldRows(nodes: set<Ext>, before: Rows): set<Ext> {
    set e | e in nodes && e in before && before[e].Created?
  }

  function VainRows(nodes: set<Ext>, rows: Rows): set<Ext> {
    set e | e in nodes && !(e in rows && rows[e].Created?)
  }

  /** The counts: nodes that became CREATED, those that had a turn and were so already, and those that had
      a turn in vain. */
  lemma CountsTell(job: Job, w: Work, rows: Rows, tree: Units, called: seq<Ext>, calledBefore: seq<Ext>)
    requires WellFormed(job) && IsOutcome(job, w, rows, tree, called, calledBefore)
    ensures w.created == |NewRows(job.nodes.Keys, job.before, rows)|
    ensures w.skipped == |OldRows(job.nodes.Keys - w.remaining, job.before)|
    ensures w.failed == |VainRows(job.nodes.Keys - w.remaining, rows)|
  {
    var done := Done(job, w);
    SetsTell(job, done, rows);
  }

  lemma SetsTell(job: Job, done: set<Ext>, rows: Rows)
    requires WellFormed(job) && done <= job.nodes.Keys && RowsAfter(job, done, rows)
    ensures Tallied(job, done, WasCreated) == NewRows(job.nodes.Keys, job.before, rows)
    ensures Tallied(job, done, WasSkipped) == OldRows(done, job.before)
    ensures Tallied(job, done, WasFailed) == VainRows(done, rows)
  {
    forall e
      ensures e in Tallied(job, done, WasCreated) <==> e in NewRows(job.nodes.Keys, job.before, rows)
      ensures e in Tallied(job, done, WasFailed) <==> e in VainRows(done, rows)
    {
      if e in job.nodes { FateShows(job, done, rows, e); }
    }
  }

  /** No unit appears but those of the nodes called, and none that stood is moved or renamed. */
  lemma OnlyTheseUnits(job: Job, w: Work, rows: Rows, tree: Units, called: seq<Ext>, calledBefore: seq<Ext>, u: Unit)
    requires WellFormed(job) && UnitsAreNew(job) && IsOutcome(job, w, rows, tree, called, calledBefore)
    ensures u in job.standing ==> u in tree && tree[u] == job.standing[u]
    ensures u in tree && u !in job.standing ==>
              exists e :: e in called[|calledBefore|..] && e in job.nodes && job.calls[e].unit == u && StandsInPlace(job, rows, tree, e, u)
  {
    if u in tree && u !in job.standing {
      assert IsMade(job, Done(job, w), u);
      var e :| e in Done(job, w) && MakesUnit(job, e) && job.calls[e].unit == u;
      UnitStandsInPlace(job, w, rows, tree, called, calledBefore, e);
      assert e in called[|calledBefore|..];
    }
  }
}
