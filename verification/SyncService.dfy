/** The jurisdiction sync's loops over its table, in whatever order the node map is walked. */
module SyncService {
  import opened Options
  import opened SlugCodes
  import opened SyncJob
  import opened SyncSteps
  import opened SyncOrder
  import opened SyncOutcome

  datatype Fetched = Fetched(id: Ext, node: Node)

  // ---- the fetched list

  predicate IsLastOf(fetched: seq<Fetched>, e: Ext, i: int) {
    0 <= i < |fetched| && fetched[i].id == e && forall j :: i < j < |fetched| ==> fetched[j].id != e
  }

  /** byExternalID: the last node fetched under an id is the one that counts. */
  method IndexByExternalID(fetched: seq<Fetched>) returns (nodes: map<Ext, Node>)
    ensures forall i :: 0 <= i < |fetched| ==> fetched[i].id in nodes
    ensures forall e :: e in nodes ==> exists i :: IsLastOf(fetched, e, i) && nodes[e] == fetched[i].node
  {
    nodes := map[];
    for k := 0 to |fetched|
      invariant forall i :: 0 <= i < k ==> fetched[i].id in nodes
      invariant forall e :: e in nodes ==> exists i :: IsLastOf(fetched[..k], e, i) && nodes[e] == fetched[i].node
    {
      ghost var before := nodes;
      nodes := nodes[fetched[k].id := fetched[k].node];
      forall e | e in nodes
        ensures exists i :: IsLastOf(fetched[..k+1], e, i) && nodes[e] == fetched[i].node
      {
        if e == fetched[k].id {
          assert IsLastOf(fetched[..k+1], e, k);
        } else {
          var i :| IsLastOf(fetched[..k], e, i) && before[e] == fetched[i].node;
          assert IsLastOf(fetched[..k+1], e, i);
        }
      }
    }
    assert fetched[..|fetched|] == fetched;
  }

  predicate IsParentOfSome(nodes: map<Ext, Node>, e: Ext) {
    exists f :: f in nodes && nodes[f].parent == Some(e)
  }

  predicate IsNamedBy(nodes: map<Ext, Node>, some: set<Ext>, e: Ext)
    requires some <= nodes.Keys
  {
    exists f :: f in some && nodes[f].parent == Some(e)
  }

  /** upgradeGroupingOrgKinds: exactly the nodes that some node names as its parent change kind. */
  method UpgradeGroupingOrgKinds(nodes: map<Ext, Node>) returns (upgraded: map<Ext, Node>)
    ensures upgraded.Keys == nodes.Keys
    ensures forall e :: e in nodes ==> upgraded[e] == nodes[e].(kind := if IsParentOfSome(nodes, e) then "jurisdiction" else nodes[e].kind)
  {
    var isParent: set<Ext> := {};
    var rest := nodes.Keys;
    while rest != {}
      invariant rest <= nodes.Keys
      invariant forall e :: e in isParent <==> IsNamedBy(nodes, nodes.Keys - rest, e)
      decreases |rest|
    {
      var f :| f in rest;
      rest := rest - {f};
      if nodes[f].parent.Some? {
        isParent := isParent + {nodes[f].parent.value};
      }
    }
    assert forall e :: e in isParent <==> IsParentOfSome(nodes, e) by {
      assert forall e :: IsNamedBy(nodes, nodes.Keys, e) <==> IsParentOfSome(nodes, e);
    }
    upgraded := nodes;
    rest := nodes.Keys;
    while rest != {}
      invariant rest <= nodes.Keys && upgraded.Keys == nodes.Keys
      invariant forall e :: e in nodes ==> upgraded[e] == if e !in rest && e in isParent then nodes[e].(kind := "jurisdiction") else nodes[e]
      decreases |rest|
    {
      var e :| e in rest;
      rest := rest - {e};
      if e in isParent {
        upgraded := upgraded[e := upgraded[e].(kind := "jurisdiction")];
      }
    }
  }

  /** A fetched node with the kind it is created under. */
  function Upgraded(nodes: map<Ext, Node>, f: Fetched): Node {
    f.node.(kind := if IsParentOfSome(nodes, f.id) then "jurisdiction" else f.node.kind)
  }

  // ---- the run

  class Service {
    var rows: Rows              // congregationimport_jurisdiction_units, one source
    var tree: Units             // the directory's units that stand
    var called: seq<Ext>        // the nodes CreateChildOrg was called for, in order

    constructor (standing: Units)
      ensures rows == map[] && tree == standing && called == []
    {
      rows, tree, called := map[], standing, [];
    }

    /** CreateChildOrg: the unit and its edge are one transaction, which the index on codes may refuse;
        the profile is another. */
    method CreateChildOrg(unit: Unit, code: string, parentUnit: Unit, admitted: bool, profileOk: bool) returns (ok: bool)
      requires unit !in tree
      modifies this`tree
      ensures ok <==> admitted && !IsTaken(old(tree), code) && profileOk
      ensures tree == if admitted && !IsTaken(old(tree), code) then old(tree)[unit := Stand(code, parentUnit)] else old(tree)
    {
      if !admitted {
        return false;
      }
      var taken := exists u | u in tree :: tree[u].code == code;
      if taken {
        return false;
      }
      tree := tree[unit := Stand(code, parentUnit)];
      ok := profileOk;
    }

    /** resolveParentUnitID: ready exactly when the parent has a unit, from this run or an earlier one. */
    method ResolveParentUnitID(job: Job, ghost g: Job, ghost done: set<Ext>, e: Ext, resolved: map<Ext, Unit>)
      returns (parentUnit: Option<Unit>)
      requires WellFormed(job) && g == job.(lost := g.lost) && done <= job.nodes.Keys && e in job.nodes
      requires IsResolved(g, done, resolved) && RowsAfter(g, done, rows)
      ensures parentUnit.Some? <==> Ready(g, done, e)
      ensures parentUnit.Some? ==> parentUnit.value == ParentUnit(g, done, e)
      ensures match job.nodes[e].parent
              case None => parentUnit == Some(job.anchor)
              case Some(p) => parentUnit == if p in rows && rows[p].Created? then Some(rows[p].unit) else None
    {
      var p := job.nodes[e].parent;
      if p.None? {
        return Some(job.anchor);
      }
      assert RowIs(rows, p.value, if p.value in done then RowAfter(g, p.value) else RowOf(job.before, p.value));
      if p.value in resolved {
        return Some(resolved[p.value]);
      }
      if p.value in rows && rows[p.value].Created? {
        return Some(rows[p.value].unit);
      }
      parentUnit := None;
    }

    /** ensureJurisdictionUnit: one node's turn. */
    method EnsureJurisdictionUnit(job: Job, ghost g: Job, e: Ext, parentUnit: Unit) returns (unit: Option<Unit>, tally: Tally)
      requires WellFormed(job) && g == job.(lost := g.lost) && e in job.nodes
      requires RowOf(rows, e) == RowOf(job.before, e) && job.calls[e].unit !in tree
      requires MakesUnit(g, e) <==> Calls(g, e) && job.calls[e].admitted && !IsTaken(tree, CodeOf(job, e))
      modifies this
      ensures tally == Fate(g, e) && unit == if Resolves(g, e) then Some(UnitOf(g, e)) else None
      ensures rows == WithRow(old(rows), e, RowAfter(g, e))
      ensures tree == if MakesUnit(g, e) then old(tree)[job.calls[e].unit := Stand(CodeOf(job, e), parentUnit)] else old(tree)
      ensures called == LogCall(g, old(called), e)
    {
      var reply := job.calls[e];
      var hasExisting := e in rows;
      if hasExisting && rows[e].Created? {
        assert rows[e := rows[e]] == rows;
        return Some(rows[e].unit), WasSkipped;
      }
      if !hasExisting {
        if !reply.insertOk {
          return None, WasFailed;
        }
        rows := rows[e := Pending];
      }
      ghost var pending := rows;
      assert pending[e := pending[e]] == pending;
      if job.nodes[e].kind !in job.kinds {
        if reply.markFailedOk {
          rows := rows[e := Failed];
        }
        return None, WasFailed;
      }
      called := called + [e];
      var ok := CreateChildOrg(reply.unit, CodeOf(job, e), parentUnit, reply.admitted, reply.profileOk);
      if !ok {
        if reply.markFailedOk {
          rows := rows[e := Failed];
        }
        return None, WasFailed;
      }
      if !reply.markCreatedOk {
        return None, WasFailed;
      }
      rows := rows[e := Created(reply.unit)];
      unit, tally := Some(reply.unit), WasCreated;
    }

    /** What holds between two turns: the tables and the work agree on the nodes done, with the job as it
        has turned out so far. */
    ghost predicate InStep(job: Job, g: Job, w: Work, calledBefore: seq<Ext>)
      requires WellFormed(job)
      reads this
    {
      && IsAt(job, g, Done(g, w), tree)
      && WorkOk(g, w) && TablesOk(g, Done(g, w), rows, tree, called, calledBefore) && LostToOthers(g, Done(g, w))
    }

    /** One node's turn, if its parent is ready. */
    method TakeTurn(job: Job, ghost g: Job, w: Work, e: Ext, ghost calledBefore: seq<Ext>)
      returns (after: Work, ghost g': Job)
      requires WellFormed(job) && UnitsAreNew(job) && InStep(job, g, w, calledBefore) && e in w.remaining
      modifies this
      ensures InStep(job, g', after, calledBefore)
      ensures if Ready(g, Done(g, w), e) then after.remaining == w.remaining - {e} else after == w && g' == g
    {
      ghost var done := Done(g, w);
      var parentUnit := ResolveParentUnitID(job, g, done, e, w.resolved);
      if parentUnit.None? {
        return w, g;
      }
      g' := Losing(g, tree, e);
      TurnBegins(g, w, rows, tree, called, calledBefore, e);
      AtAfterTurn(job, g, done, tree, e);
      TablesAdvance(g', done, rows, tree, called, calledBefore, e);
      var unit, tally := EnsureJurisdictionUnit(job, g', e, parentUnit.value);
      after := w.(remaining := w.remaining - {e});
      match tally {
        case WasCreated => after := after.(created := after.created + 1);
        case WasSkipped => after := after.(skipped := after.skipped + 1);
        case WasFailed => after := after.(failed := after.failed + 1);
      }
      if unit.Some? {
        after := after.(resolved := after.resolved[e := unit.value]);
      }
      WorkAdvance(g', w, after, e);
    }

    /** One pass over what remains, in any order; a pass that moves nothing shows that nothing is ready. */
    method OnePass(job: Job, ghost g: Job, w: Work, ghost calledBefore: seq<Ext>)
      returns (after: Work, progressed: bool, ghost g': Job)
      requires WellFormed(job) && UnitsAreNew(job) && InStep(job, g, w, calledBefore)
      modifies this
      ensures InStep(job, g', after, calledBefore)
      ensures progressed ==> after.remaining < w.remaining
      ensures !progressed ==> Closed(g', Done(g', after))
    {
      after, progressed, g' := w, false, g;
      var pass := w.remaining;
      while pass != {}
        invariant pass <= after.remaining <= w.remaining
        invariant InStep(job, g', after, calledBefore)
        invariant progressed ==> after.remaining < w.remaining
        invariant !progressed ==> forall e :: e in after.remaining - pass ==> !Ready(g', Done(g', after), e)
        decreases |pass|
      {
        var e :| e in pass;
        pass := pass - {e};
        ghost var before := after;
        after, g' := TakeTurn(job, g', after, e, calledBefore);
        if e !in after.remaining {
          progressed := true;
        }
      }
    }

    /** RunJurisdictionSync's passes: they end, and whichever node is taken when, the nodes dealt
        with are the least closed set, each with its fate, its row and its place in the tree. The job is
        the one given, but for the nodes that lost their code to another node of this run. */
    method CreateInOrder(job: Job) returns (w: Work, ghost g: Job)
      requires WellFormed(job) && job.before == rows && job.standing == tree && job.lost == {} && UnitsAreNew(job)
      modifies this
      ensures g == job.(lost := g.lost) && LostToOthers(g, Done(g, w)) && (CodesApart(job) ==> g == job)
      ensures IsEnd(job, Progress(Done(g, w), g.lost, tree))
      ensures forall e :: e in g.nodes && NewlyCreated(old(rows), rows, e) ==> StandsInPlace(g, rows, tree, e, rows[e].unit)
      ensures IsOutcome(g, w, rows, tree, called, old(called))
      ensures w.created + w.skipped + w.failed + |w.remaining| == |job.nodes|
    {
      w := Work(job.nodes.Keys, map[], 0, 0, 0);
      g := job;
      StartsInStep(job, w, called);
      BegunIsReached(job);
      var going := true;
      while w.remaining != {} && going
        invariant InStep(job, g, w, old(called))
        invariant !going ==> Closed(g, Done(g, w))
        decreases going, |w.remaining|
      {
        ghost var start := w;
        w, going, g := OnePass(job, g, w, old(called));
        if going {
          SmallerIsFewer(w.remaining, start.remaining);
        }
      }
      PassesEnd(job, g, w, rows, tree, called, old(called));
      AtEnd(job, g, w, tree);
      AllInPlace(job, g, w, rows, tree, called, old(called));
    }

    /** What a run is about: the fetched nodes, indexed and upgraded, over the tables as they are. */
    method Prepare(fetched: seq<Fetched>, anchor: Unit, kinds: set<string>, calls: map<Ext, Behaviour>, lower: char -> char)
      returns (job: Job)
      requires forall i :: 0 <= i < |fetched| ==> fetched[i].id in calls
      ensures job == Job(job.nodes, anchor, kinds, rows, tree, calls, lower, {}) && WellFormed(job)
      ensures IsIndexOf(job.nodes, fetched)
    {
      var byExternalID := IndexByExternalID(fetched);
      var nodes := UpgradeGroupingOrgKinds(byExternalID);
      assert forall e :: IsParentOfSome(nodes, e) <==> IsParentOfSome(byExternalID, e);
      forall e | e in nodes
        ensures e in calls && exists i :: IsLastOf(fetched, e, i) && nodes[e] == Upgraded(nodes, fetched[i])
      {
        var i :| IsLastOf(fetched, e, i) && byExternalID[e] == fetched[i].node;
        assert nodes[e] == Upgraded(nodes, fetched[i]);
      }
      job := Job(nodes, anchor, kinds, rows, tree, calls, lower, {});
    }

    /** RunJurisdictionSync: index the fetched nodes, upgrade the grouping ones, create in order. */
    method RunJurisdictionSync(fetched: seq<Fetched>, anchor: Unit, kinds: set<string>, calls: map<Ext, Behaviour>, lower: char -> char)
      returns (w: Work, ghost job: Job)
      requires forall i :: 0 <= i < |fetched| ==> fetched[i].id in calls
      requires forall e, f :: e in calls && f in calls && calls[e].unit == calls[f].unit ==> e == f
      requires forall e :: e in calls ==> calls[e].unit !in tree
      modifies this
      ensures job == Job(job.nodes, anchor, kinds, old(rows), old(tree), calls, lower, job.lost) && WellFormed(job)
      ensures IsIndexOf(job.nodes, fetched)
      ensures LostToOthers(job, Done(job, w)) && (CodesApart(job.(lost := {})) ==> job.lost == {})
      ensures IsEnd(job.(lost := {}), Progress(Done(job, w), job.lost, tree))
      ensures forall e :: e in job.nodes && NewlyCreated(old(rows), rows, e) ==> StandsInPlace(job, rows, tree, e, rows[e].unit)
      ensures IsOutcome(job, w, rows, tree, called, old(called))
      ensures w.created + w.skipped + w.failed + |w.remaining| == |job.nodes|
    {
      var given := Prepare(fetched, anchor, kinds, calls, lower);
      w, job := CreateInOrder(given);
      assert job.(lost := {}) == given;
    }
  }

  /** Each fetched id once, with the node fetched last under it, upgraded. */
  ghost predicate IsIndexOf(nodes: map<Ext, Node>, fetched: seq<Fetched>) {
    && (forall i :: 0 <= i < |fetched| ==> fetched[i].id in nodes)
    && (forall e :: e in nodes ==> exists i :: IsLastOf(fetched, e, i) && nodes[e] == Upgraded(nodes, fetched[i]))
  }

  lemma PassesEnd(job: Job, g: Job, w: Work, rows: Rows, tree: Units, called: seq<Ext>, calledBefore: seq<Ext>)
    requires WellFormed(job) && g == job.(lost := g.lost) && job.lost == {} && WorkOk(g, w)
    requires TablesOk(g, Done(g, w), rows, tree, called, calledBefore) && LostToOthers(g, Done(g, w))
    requires w.remaining == {} || Closed(g, Done(g, w))
    ensures IsOutcome(g, w, rows, tree, called, calledBefore) && (CodesApart(job) ==> g == job)
    ensures w.created + w.skipped + w.failed + |w.remaining| == |job.nodes|
  {
    EndsAtLeast(g, w);
    if CodesApart(job) {
      assert g.(lost := {}) == job;
      forall e, f | e in g.nodes && f in g.nodes && WouldMake(g, e) && WouldMake(g, f) && CodeOf(g, e) == CodeOf(g, f)
        ensures e == f
      {
        assert WouldMake(job, e) && WouldMake(job, f) && CodeOf(job, e) == CodeOf(job, f);
      }
      NoneLost(g, Done(g, w));
    }
  }

  /** With the node's turn, the job turns out one node further. */
  lemma TurnBegins(g: Job, w: Work, rows: Rows, tree: Units, called: seq<Ext>, calledBefore: seq<Ext>, e: Ext)
    requires WellFormed(g) && UnitsAreNew(g) && e in w.remaining && WorkOk(g, w) && Ready(g, Done(g, w), e)
    requires TablesOk(g, Done(g, w), rows, tree, called, calledBefore) && LostToOthers(g, Done(g, w))
    ensures var g', done := Losing(g, tree, e), Done(g, w);
            && WorkOk(g', w) && TablesOk(g', done, rows, tree, called, calledBefore)
            && LostToOthers(g', done + {e}) && Ready(g', done, e) && ParentUnit(g', done, e) == ParentUnit(g, done, e)
            && (MakesUnit(g', e) <==> Calls(g', e) && g.calls[e].admitted && !IsTaken(tree, CodeOf(g, e)))
            && g.calls[e].unit !in tree && UnitsAreNew(g')
  {
    var done := Done(g, w);
    forall f | f in done
      ensures Ready(g, done, f)
    {
      assert IsPlaced(g, done, tree, f);
    }
    LosingKeepsWork(g, w, tree, e);
    LosingKeepsTables(g, done, rows, tree, called, calledBefore, e);
    LosingKeepsLost(g, done, tree, e);
    LosingIsRefusal(g, done, tree, e);
    LosingKeepsReady(g, done, tree, e, e);
    UnmadeUnitIsNew(g, done, tree, e);
  }
}
