/** Runs of edge changes, at the level of the statements each transaction performs. */
module GraphRuns {
  import opened Paths
  import opened Closure

  datatype GraphState = GraphState(edges: set<Edge>, closure: Rows)

  datatype Change =
    | CreateUnit(parent: UnitId, child: UnitId)  // CreateUnitWithEdge, for a freshly minted child
    | Attach(parent: UnitId, child: UnitId)      // AddEdge
    | Detach(parent: UnitId, child: UnitId)      // RemoveEdge

  ghost function Attached(s: GraphState, parent: UnitId, child: UnitId): GraphState {
    GraphState(s.edges + {Edge(parent, child)}, Extended(Seeded(s.closure, parent, child), parent, child))
  }

  ghost predicate IsDetached(s: GraphState, parent: UnitId, child: UnitId, t: GraphState) {
    var fewer, cut := s.edges - {Edge(parent, child)}, WithoutSlice(s.closure, parent, child);
    exists out :: IsRederived(fewer, cut, parent, child, out) && t == GraphState(fewer, Pruned(fewer, cut + out, parent, child))
  }

  /** One transaction: every decision reads the stored rows, never the paths. */
  ghost predicate Performs(s: GraphState, change: Change, t: GraphState) {
    match change
    case CreateUnit(parent, child) =>
      child !in Nodes(s.edges) && child != parent && t == Attached(s, parent, child)
    case Attach(parent, child) =>
      if parent == child || (child, parent) in s.closure || Edge(parent, child) in s.edges then t == s
      else t == Attached(s, parent, child)
    case Detach(parent, child) =>
      if Edge(parent, child) !in s.edges then t == s else IsDetached(s, parent, child, t)
  }

  ghost predicate Sound(s: GraphState) {
    Acyclic(s.edges) && Exact(s.edges, s.closure)
  }

  lemma AttachKeepsSound(s: GraphState, parent: UnitId, child: UnitId)
    requires Sound(s) && parent != child && (child, parent) !in s.closure
    ensures Sound(Attached(s, parent, child))
  {
    NodesClosed(s.edges);
    GuardIsExact(s.edges, Edge(parent, child));
    AttachIsExact(s.edges, s.closure, parent, child);
  }

  lemma ChangeKeepsSound(s: GraphState, change: Change, t: GraphState)
    requires Sound(s) && Performs(s, change, t)
    ensures Sound(t)
  {
    match change
    case CreateUnit(parent, child) =>
      AttachKeepsSound(s, parent, child);
    case Attach(parent, child) =>
      if t != s { AttachKeepsSound(s, parent, child); }
    case Detach(parent, child) =>
      var e := Edge(parent, child);
      if e in s.edges {
        var fewer, cut := s.edges - {e}, WithoutSlice(s.closure, parent, child);
        var out :| IsRederived(fewer, cut, parent, child, out) && t == GraphState(fewer, Pruned(fewer, cut + out, parent, child));
        DetachIsExact(s.edges, s.closure, e, out);
        AcyclicFewer(fewer, s.edges);
      }
  }

  /** What each transaction does to the edges: a creation adds one; an attach adds one unless it would close
      a cycle; a detach removes one. */
  lemma ChangeEdges(s: GraphState, change: Change, t: GraphState)
    requires Sound(s) && Performs(s, change, t)
    ensures var e := Edge(change.parent, change.child);
            t.edges == match change
                       case CreateUnit(_, _) => s.edges + {e}
                       case Attach(parent, child) => if Reaches(s.edges, child, parent) then s.edges else s.edges + {e}
                       case Detach(_, _) => s.edges - {e}
  {
    NodesClosed(s.edges);
    if change.Attach? {
      SelfReach(s.edges, change.child);
      if Edge(change.parent, change.child) in s.edges {
        EdgeReach(s.edges, change.parent, change.child);
        if Reaches(s.edges, change.child, change.parent) {
          NoWayBack(s.edges, change.parent, change.child);
        }
      }
    }
  }

  ghost predicate IsRun(states: seq<GraphState>, changes: seq<Change>) {
    && |states| == |changes| + 1
    && states[0] == GraphState({}, map[])
    && forall i :: 0 <= i < |changes| ==> Performs(states[i], changes[i], states[i+1])
  }

  lemma EmptySound()
    ensures Sound(GraphState({}, map[]))
  {
    NodesClosed({});
    EmptyIsAcyclic();
  }

  /** Incremental maintenance refines the from-scratch closure: after any run from the empty graph
      the stored rows are the closure of the stored edges, which stay acyclic. */
  lemma {:induction false} RunIsSound(states: seq<GraphState>, changes: seq<Change>)
    requires IsRun(states, changes)
    ensures Sound(states[|changes|]) && states[|changes|].closure == ClosureOf(states[|changes|].edges)
    decreases |changes|
  {
    var n := |changes|;
    if n == 0 {
      EmptySound();
    } else {
      assert IsRun(states[..n], changes[..n-1]) by {
        forall i | 0 <= i < n - 1
          ensures Performs(states[..n][i], changes[..n-1][i], states[..n][i+1])
        {
          assert Performs(states[i], changes[i], states[i+1]);
        }
      }
      RunIsSound(states[..n], changes[..n-1]);
      assert states[..n][n-1] == states[n-1];
      ChangeKeepsSound(states[n-1], changes[n-1], states[n]);
    }
    ExactIsUnique(states[n].edges, states[n].closure, ClosureOf(states[n].edges));
  }
}
