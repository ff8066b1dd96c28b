/** The edge and closure tables of one graph, the statements that change them in place, and the
    transactions made of those statements. Every statement filters on one graph id, so one object
    stands for one graph. */
module GraphTables {
  import opened Paths
  import opened Closure
  import opened RecursiveWalk
  import opened GraphRuns

  datatype EdgeOutcome = EdgeOk | EdgeCycle | EdgeExists

  class Tables {
    var edges: set<Edge>   // unique on (parent, child)
    var closure: Rows      // keyed by (ancestor, descendant)

    ghost function State(): GraphState
      reads this
    {
      GraphState(edges, closure)
    }

    ghost predicate Valid()
      reads this
    {
      Sound(State())
    }

    constructor ()
      ensures Valid() && edges == {} && closure == map[]
    {
      edges, closure := {}, map[];
      new;
      EmptySound();
    }

    // ---- reads

    /** ClosureHasPath, also the PDP's IsAncestorOrSelf. */
    method ClosureHasPath(ancestor: UnitId, descendant: UnitId) returns (has: bool)
      ensures has <==> (ancestor, descendant) in closure
      ensures Exact(edges, closure) ==> (has <==> ancestor in Nodes(edges) && Reaches(edges, ancestor, descendant))
    {
      has := (ancestor, descendant) in closure;
    }

    // ---- extend

    /** Both self rows are there afterwards and no row that was there changes; over an exact closure
        every row, new or old, is a shortest path. */
    method SeedClosureSelfRows(parent: UnitId, child: UnitId)
      modifies this`closure
      ensures forall k :: k in closure <==> k in old(closure) || k == (parent, parent) || k == (child, child)
      ensures forall k :: k in closure ==> closure[k] == if k in old(closure) then old(closure)[k] else 0
      ensures Exact(edges, old(closure)) ==>
                forall a, d :: (a, d) in closure ==> IsShortest(edges, a, d, closure[(a, d)])
    {
      if Exact(edges, closure) {
        SeededRows(edges, closure, parent, child);
      }
      closure := map[(parent, parent) := 0, (child, child) := 0] + closure;
    }

    /** Upserts the joined rows one by one, in any order. */
    method ExtendClosureForEdge(parent: UnitId, child: UnitId)
      modifies this`closure
      ensures closure == Extended(Seeded(old(closure), parent, child), parent, child)
    {
      SeedClosureSelfRows(parent, child);
      assert closure == Seeded(old(closure), parent, child);
      var rows := closure;
      var slice := Product(AncestorsOf(rows, parent), DescendantsOf(rows, child));
      var todo := slice;
      while todo != {}
        invariant todo <= slice
        invariant closure == Upserted(rows, parent, child, slice - todo)
      {
        var k :| k in todo;
        UpsertOne(rows, parent, child, slice - todo, k);
        assert slice - (todo - {k}) == slice - todo + {k};
        closure := Upsert(closure, k, rows[(k.0, parent)] + rows[(child, k.1)] + 1);
        todo := todo - {k};
      }
      assert slice - todo == slice;
    }

    // ---- shrink

    /** rows is the exact closure of the stored edges and one more, together acyclic. */
    ghost predicate IsClosureWith(e: Edge, rows: Rows)
      reads this
    {
      e !in edges && Acyclic(edges + {e}) && Exact(edges + {e}, rows)
    }

    /** Run after the edge row is gone: over the exact closure of the edges as they were, exactly the
        pairs with a path up to the edge and a path down from it lose their row, and what is left is
        already right for the remaining edges. */
    method DeleteClosureSlice(parent: UnitId, child: UnitId)
      modifies this`closure
      ensures forall a, d :: (a, d) in closure <==>
                (a, d) in old(closure)
                && !((a == parent || (a, parent) in old(closure)) && (d == child || (child, d) in old(closure)))
      ensures forall k :: k in closure ==> k in old(closure) && closure[k] == old(closure)[k]
      ensures IsClosureWith(Edge(parent, child), old(closure)) ==>
                forall a, d :: (a, d) in closure <==>
                  (a, d) in old(closure)
                  && !(Reaches(edges + {Edge(parent, child)}, a, parent) && Reaches(edges + {Edge(parent, child)}, child, d))
      ensures IsClosureWith(Edge(parent, child), old(closure)) ==>
                forall a, d :: (a, d) in closure ==> IsShortest(edges, a, d, closure[(a, d)])
    {
      ghost var rows := closure;
      if IsClosureWith(Edge(parent, child), rows) {
        OutsideIsRight(edges, rows, Edge(parent, child));
      }
      var anc := AncestorsOf(closure, parent) + {parent};
      var dsc := DescendantsOf(closure, child) + {child};
      closure := closure - Product(anc, dsc);
    }

    /** Runs the recursive walk round by round, then inserts the least depth found for each pair.
        A row already present would be a key violation. */
    method RederiveClosureSlice(parent: UnitId, child: UnitId)
      requires Acyclic(edges)
      requires forall out :: IsRederived(edges, closure, parent, child, out) ==> out.Keys !! closure.Keys
      modifies this`closure
      ensures exists out :: IsRederived(edges, old(closure), parent, child, out) && closure == old(closure) + out
    {
      var anc := AncestorsOf(closure, parent) + {parent};
      var dsc := DescendantsOf(closure, child) + {child};
      var pairs, n := WalkSlice(anc, dsc);
      DryIsRederived(edges, closure, parent, child, n, pairs);
      closure := closure + pairs;
    }

    method WalkSlice(anc: set<UnitId>, dsc: set<UnitId>) returns (pairs: Rows, rounds: nat)
      requires Acyclic(edges)
      ensures Round(edges, anc, rounds) == {}
      ensures LeastProposed(edges, closure, anc, dsc, rounds, pairs)
    {
      var table := set a | a in anc :: (a, a);
      var n := 0;
      pairs := map[];
      ghost var last: int := LastRound(edges, anc);
      while table != {}
        invariant table == Round(edges, anc, n)
        invariant LeastProposed(edges, closure, anc, dsc, n, pairs)
        decreases last - n
      {
        var found := JoinSurviving(n, table, anc, dsc);
        ProposedOneMore(edges, closure, anc, dsc, n, pairs, table, found);
        pairs := LeastOf(pairs, found);
        table := NextRound(edges, anc, table);
        n := n + 1;
      }
      rounds := n;
    }

    /** The walk's entries that have left anc, joined with the surviving rows below them. */
    method JoinSurviving(n: nat, table: set<Pair>, anc: set<UnitId>, dsc: set<UnitId>) returns (found: Rows)
      ensures IsJoin(closure, anc, dsc, n, table, found)
    {
      found := map[];
      var todo := table;
      while todo != {}
        invariant todo <= table
        invariant IsJoin(closure, anc, dsc, n, table - todo, found)
      {
        var k :| k in todo;
        JoinOneMore(closure, anc, dsc, n, table - todo, found, k);
        assert table - (todo - {k}) == table - todo + {k};
        if k.1 !in anc {
          found := LeastOf(found, EntryRows(closure, dsc, n, k));
        }
        todo := todo - {k};
      }
      assert table - todo == table;
    }

    /** Only the self row of an endpoint without edges goes; if the rows were right for the units with
        an edge and the two endpoints, they are now exact. */
    method PruneClosureSelfRows(parent: UnitId, child: UnitId)
      modifies this`closure
      ensures forall a, d :: (a, d) in closure <==>
                (a, d) in old(closure) && !(a == d && a in {parent, child} && a !in Nodes(edges))
      ensures forall k :: k in closure ==> k in old(closure) && closure[k] == old(closure)[k]
      ensures ExactWith(edges, {parent, child}, old(closure)) ==> Exact(edges, closure)
    {
      PrunedRows(edges, closure, parent, child);
      if ExactWith(edges, {parent, child}, closure) {
        PrunedIsExact(edges, closure, parent, child);
      }
      var gone := set u | u in {parent, child} && (forall e | e in edges :: e.parent != u && e.child != u) :: (u, u);
      closure := closure - gone;
    }

    /** The three steps in their order, after the edge row is gone. */
    method ShrinkClosureForEdge(parent: UnitId, child: UnitId)
      requires Edge(parent, child) !in edges
      requires Acyclic(edges + {Edge(parent, child)}) && Exact(edges + {Edge(parent, child)}, closure)
      modifies this`closure
      ensures Exact(edges, closure)
      ensures IsDetached(GraphState(edges + {Edge(parent, child)}, old(closure)), parent, child, State())
    {
      var e := Edge(parent, child);
      ghost var before, rows := edges + {e}, closure;
      AcyclicFewer(edges, before);
      assert before - {e} == edges;
      DeleteClosureSlice(parent, child);
      SameRows(closure, WithoutSlice(rows, parent, child));
      forall out | IsRederived(edges, closure, parent, child, out)
        ensures out.Keys !! closure.Keys
      {
        DetachIsExact(before, rows, e, out);
      }
      RederiveClosureSlice(parent, child);
      ghost var out :| IsRederived(edges, WithoutSlice(rows, parent, child), parent, child, out)
                    && closure == WithoutSlice(rows, parent, child) + out;
      DetachIsExact(before, rows, e, out);
      ghost var all := closure;
      PrunedRows(edges, all, parent, child);
      PruneClosureSelfRows(parent, child);
      SameRows(closure, Pruned(edges, all, parent, child));
    }

    // ---- transactions

    /** The tables' part of CreateUnitWithEdge: closure first, no guard, for a freshly minted child. */
    method AttachFresh(parent: UnitId, child: UnitId)
      requires Valid()
      requires child !in Nodes(edges) && child != parent
      modifies this
      ensures Valid() && Performs(old(State()), CreateUnit(parent, child), State())
      ensures edges == old(edges) + {Edge(parent, child)}
    {
      AttachIsExact(edges, closure, parent, child);
      NodesClosed(edges);
      GuardIsExact(edges, Edge(parent, child));
      ExtendClosureForEdge(parent, child);
      edges := edges + {Edge(parent, child)};
    }

    /** The tables' part of AddEdge: guard, insert, extend. A failed insert rolls back. */
    method AddEdge(child: UnitId, parent: UnitId) returns (r: EdgeOutcome)
      requires Valid()
      modifies this
      ensures Valid() && Performs(old(State()), Attach(parent, child), State())
      ensures r == (if Reaches(old(edges), child, parent) then EdgeCycle
                    else if Edge(parent, child) in old(edges) then EdgeExists else EdgeOk)
      ensures edges == if r.EdgeOk? then old(edges) + {Edge(parent, child)} else old(edges)
      ensures !r.EdgeOk? ==> closure == old(closure)
    {
      var e := Edge(parent, child);
      if parent == child {
        SelfReach(edges, child);
        return EdgeCycle;
      }
      NodesClosed(edges);
      var cyclic := ClosureHasPath(child, parent);
      if cyclic {
        return EdgeCycle;
      }
      if e in edges {
        return EdgeExists;
      }
      GuardIsExact(edges, e);
      AttachIsExact(edges, closure, parent, child);
      edges := edges + {e};
      ExtendClosureForEdge(parent, child);
      r := EdgeOk;
    }

    /** The tables' part of RemoveEdge: an absent edge changes nothing. */
    method RemoveEdge(child: UnitId, parent: UnitId) returns (deleted: nat)
      requires Valid()
      modifies this
      ensures Valid() && Performs(old(State()), Detach(parent, child), State())
      ensures edges == old(edges) - {Edge(parent, child)}
      ensures deleted == if Edge(parent, child) in old(edges) then 1 else 0
      ensures deleted == 0 ==> closure == old(closure)
    {
      var e := Edge(parent, child);
      deleted := if e in edges then 1 else 0;
      if deleted == 0 {
        return;
      }
      AcyclicFewer(edges - {e}, edges);
      edges := edges - {e};
      assert edges + {e} == old(edges);
      ShrinkClosureForEdge(parent, child);
    }

    // ---- rebuild and verify

    /** The recursive query over the edges alone. It ends because the graph is acyclic. */
    method ExpectedRows() returns (rows: Rows)
      requires Acyclic(edges)
      ensures Exact(edges, rows)
    {
      var table := set u | u in Nodes(edges) :: (u, u);
      rows := map[];
      var n := 0;
      while table != {}
        invariant table == ReachRound(edges, n)
        invariant rows == FoundBefore(edges, n)
        decreases |Nodes(edges)| + 1 - n
      {
        if n > |Nodes(edges)| { ReachRoundsEnd(edges, n); }
        rows := FoundAt(table, n, rows);
        table := NextReach(edges, table);
        n := n + 1;
      }
      DryIsExact(edges, n);
    }

    /** Delete everything, then recompute: right whatever the closure held before. */
    method RebuildClosure()
      requires Acyclic(edges)
      modifies this`closure
      ensures Valid()
    {
      closure := map[];
      closure := ExpectedRows();
    }

    method VerifyClosure() returns (missing: nat, extra: nat)
      requires Acyclic(edges)
      ensures missing == |ClosureOf(edges).Items - closure.Items|
      ensures extra == |closure.Items - ClosureOf(edges).Items|
      ensures missing == 0 && extra == 0 <==> Exact(edges, closure)
    {
      var expected := ExpectedRows();
      ExactIsUnique(edges, expected, ClosureOf(edges));
      missing := |expected.Items - closure.Items|;
      extra := |closure.Items - expected.Items|;
      NoDriftIsExact(edges, closure);
    }
  }

  /** Verify's two counts are both zero exactly when the stored closure is exact. */
  lemma NoDriftIsExact(edges: set<Edge>, rows: Rows)
    ensures |ClosureOf(edges).Items - rows.Items| == 0 && |rows.Items - ClosureOf(edges).Items| == 0 <==> Exact(edges, rows)
  {
    var expected := ClosureOf(edges);
    if expected.Items - rows.Items == {} && rows.Items - expected.Items == {} {
      AllWithin(expected, rows);
      AllWithin(rows, expected);
      assert expected == rows;
    }
    if Exact(edges, rows) {
      ExactIsUnique(edges, expected, rows);
    }
  }

  lemma AllWithin(r1: Rows, r2: Rows)
    requires r1.Items - r2.Items == {}
    ensures forall k :: k in r1 ==> k in r2 && r2[k] == r1[k]
  {
    forall k | k in r1
      ensures k in r2 && r2[k] == r1[k]
    {
      var i := (k, r1[k]);
      assert i in r1.Items;
      assert i in r2.Items || i in r1.Items - r2.Items;
    }
  }
}
