/** Authority while units move: moves below a subtree grant's target never take anything away from it,
    and nothing outside the moved subtrees is decided differently. */
module MoveAuthority {
  import opened Closure
  import opened Paths
  import opened Directory
  import P = Pdp

  // ---- one edge change

  /** Adding an edge changes reachability only into the subtree of its child. */
  lemma AddOutside(edges: set<Edge>, e: Edge, a: UnitId, d: UnitId)
    requires !Reaches(edges, e.child, d)
    ensures Reaches(edges + {e}, a, d) <==> Reaches(edges, a, d)
  {
    if Reaches(edges, a, d) {
      ReachesMore(edges, edges + {e}, a, d);
    }
    if Reaches(edges + {e}, a, d) {
      var p :| Connects(edges + {e}, a, d, p);
      if IsPath(edges, p) {
        assert Connects(edges, a, d, p);
      } else {
        var i, j := SplitAtEdge(edges, e, p);
        assert Connects(edges, e.child, d, p[j..]);
      }
    }
  }

  /** So does removing one, and what its child reaches stays the same. */
  lemma RemoveOutside(edges: set<Edge>, e: Edge, a: UnitId, d: UnitId)
    requires !Reaches(edges, e.child, d)
    ensures Reaches(edges - {e}, a, d) <==> Reaches(edges, a, d)
  {
    var fewer := edges - {e};
    if Reaches(fewer, e.child, d) {
      ReachesMore(fewer, edges, e.child, d);
    }
    AddOutside(fewer, e, a, d);
    if e in edges {
      assert fewer + {e} == edges;
    } else {
      assert fewer == edges;
    }
  }

  /** Removing an edge leaves a path alone unless it runs from above the edge to below it. */
  lemma RemoveKeeps(edges: set<Edge>, e: Edge, a: UnitId, d: UnitId)
    requires Reaches(edges, a, d)
    requires !(Reaches(edges, a, e.parent) && Reaches(edges, e.child, d))
    ensures Reaches(edges - {e}, a, d)
  {
    var fewer := edges - {e};
    var p :| Connects(edges, a, d, p);
    if IsPath(fewer, p) {
      assert Connects(fewer, a, d, p);
    } else {
      assert e !in edges ==> fewer == edges;
      assert fewer + {e} == edges;
      var i, j := SplitAtEdge(fewer, e, p);
      PathInMore(fewer, edges, p[..i+1]);
      PathInMore(fewer, edges, p[j..]);
      assert Connects(edges, a, e.parent, p[..i+1]) && Connects(edges, e.child, d, p[j..]);
    }
  }

  lemma NotBelow(edges: set<Edge>, p: UnitId, c: UnitId)
    requires Acyclic(edges) && Edge(p, c) in edges
    ensures !Reaches(edges, c, p)
  {
    PathNotLoop(edges, p, c);
    EdgeReach(edges, p, c);
    if Reaches(edges, c, p) { NoWayBack(edges, p, c); }
  }

  /** Why the new edge comes first: while it is in place, removing the old one costs nobody above the
      new parent anything. */
  lemma SwapKeepsReach(edges: set<Edge>, oldParent: UnitId, newParent: UnitId, unit: UnitId, a: UnitId, d: UnitId)
    requires Acyclic(edges) && Edge(newParent, unit) in edges && oldParent != newParent
    requires Reaches(edges, a, newParent) && Reaches(edges, a, d)
    ensures Reaches(edges - {Edge(oldParent, unit)}, a, d)
  {
    var e := Edge(oldParent, unit);
    var fewer := edges - {e};
    if e !in edges {
      assert fewer == edges;
    } else if !Reaches(edges, unit, d) {
      RemoveKeeps(edges, e, a, d);
    } else {
      NotBelow(edges, newParent, unit);
      NotBelow(edges, oldParent, unit);
      RemoveKeeps(edges, e, a, newParent);
      RemoveKeeps(edges, e, unit, d);
      EdgeReach(fewer, newParent, unit);
      ReachesTransitive(fewer, a, newParent, unit);
      ReachesTransitive(fewer, a, unit, d);
    }
  }

  // ---- any number of moves, overlapping

  /** At every state of a live unit's job begun at one of its parents, one of its two edges is in place. */
  lemma OneEdgeInPlace(s: System, i: nat)
    requires Inv(s) && IsLatest(s.dir.jobs, i) && s.dir.jobs[i].oldParent in s.dir.jobs[i].startParents
    ensures Edge(s.dir.jobs[i].oldParent, s.dir.jobs[i].unit) in s.dir.edges
         || Edge(s.dir.jobs[i].newParent, s.dir.jobs[i].unit) in s.dir.edges
  {
    var d, j := s.dir, s.dir.jobs[i];
    assert Accounts(d, j);
    var now := Parents(d.edges, j.unit);
    assert j.oldParent in now || j.newParent in now;
  }

  /** If the action removes a job's old edge, the job's new parent lies below a, or its unit does not. */
  ghost predicate Spares(dir: Dir, act: Action, a: UnitId) {
    act.Work? && act.job < |dir.jobs| && IsDue(dir, act.job, RemoveOld) ==>
      Reaches(dir.edges, a, dir.jobs[act.job].newParent) || !Reaches(dir.edges, a, dir.jobs[act.job].unit)
  }

  /** Whatever the step, what a reaches it goes on reaching, unless a unit below a moves away from
      below a. */
  lemma StepKeepsReach(s: System, act: Action, t: System, a: UnitId, d: UnitId)
    requires Inv(s) && Step(s, act, t) && Spares(s.dir, act, a) && Reaches(s.dir.edges, a, d)
    ensures Reaches(t.dir.edges, a, d)
  {
    if act.Work? && IsDue(s.dir, act.job, RemoveOld) {
      var j := s.dir.jobs[act.job];
      assert IsLatest(s.dir.jobs, act.job) && Accounts(s.dir, j);
      assert j.newParent in Parents(s.dir.edges, j.unit);
      if Reaches(s.dir.edges, a, j.newParent) {
        SwapKeepsReach(s.dir.edges, j.oldParent, j.newParent, j.unit, a, d);
      } else {
        RemoveElsewhere(s.dir.edges, Edge(j.oldParent, j.unit), a, d);
      }
    } else {
      assert s.dir.edges <= t.dir.edges;
      ReachesMore(s.dir.edges, t.dir.edges, a, d);
    }
  }

  lemma RemoveElsewhere(edges: set<Edge>, e: Edge, a: UnitId, d: UnitId)
    requires Reaches(edges, a, d) && !Reaches(edges, a, e.child)
    ensures Reaches(edges - {e}, a, d)
  {
    if e in edges {
      if Reaches(edges, a, e.parent) {
        EdgeReach(edges, e.parent, e.child);
        ReachesTransitive(edges, a, e.parent, e.child);
      }
      RemoveKeeps(edges, e, a, d);
    } else {
      assert edges - {e} == edges;
    }
  }

  /** A run of the whole directory, from any well-kept state, in which no unit below a is moved away
      from below a. Moves may overlap, fail, crash, be resumed and be repeated; units may be created
      and deleted. */
  ghost predicate IsSparingRun(states: seq<System>, actions: seq<Action>, a: UnitId) {
    && |states| == |actions| + 1 && Inv(states[0])
    && forall k :: 0 <= k < |actions| ==> Step(states[k], actions[k], states[k+1]) && Spares(states[k].dir, actions[k], a)
  }

  /** In such a run a never loses reach of anything. */
  lemma {:induction false} SparingRunKeepsReach(states: seq<System>, actions: seq<Action>, n: nat, a: UnitId, d: UnitId)
    requires IsSparingRun(states, actions, a) && n <= |actions| && Reaches(states[0].dir.edges, a, d)
    ensures Inv(states[n]) && Reaches(states[n].dir.edges, a, d)
  {
    if n == 0 {
    } else {
      SparingRunKeepsReach(states, actions, n - 1, a, d);
      StepKeepsReach(states[n-1], actions[n-1], states[n], a, d);
      StepKeepsInv(states[n-1], actions[n-1], states[n]);
    }
  }

  // ---- a condition on the calls alone

  /** Every move in progress goes to a unit below a. */
  ghost predicate TargetsBelow(dir: Dir, a: UnitId) {
    forall k :: 0 <= k < |dir.jobs| && InProgress(dir.jobs[k]) ==> Reaches(dir.edges, a, dir.jobs[k].newParent)
  }

  ghost predicate StartsBelow(s: System, act: Action, a: UnitId) {
    act.StartMove? && act.call in s.asked ==> Reaches(s.dir.edges, a, s.asked[act.call].newParent)
  }

  lemma StepKeepsTargets(s: System, act: Action, t: System, a: UnitId)
    requires Inv(s) && Step(s, act, t) && TargetsBelow(s.dir, a) && StartsBelow(s, act, a)
    ensures Spares(s.dir, act, a) && TargetsBelow(t.dir, a)
  {
    forall k | 0 <= k < |t.dir.jobs| && InProgress(t.dir.jobs[k])
      ensures Reaches(t.dir.edges, a, t.dir.jobs[k].newParent)
    {
      if k < |s.dir.jobs| {
        StepKeepsReach(s, act, t, a, s.dir.jobs[k].newParent);
      }
    }
  }

  /** It is enough that every move, when begun, goes to a unit that is then below a: overlapping moves
      cannot take each other's targets away. */
  lemma {:induction false} TargetsBelowSpare(states: seq<System>, actions: seq<Action>, n: nat, a: UnitId)
    requires |states| == |actions| + 1 && n <= |actions| && Inv(states[0]) && TargetsBelow(states[0].dir, a)
    requires forall k :: 0 <= k < |actions| ==> Step(states[k], actions[k], states[k+1]) && StartsBelow(states[k], actions[k], a)
    ensures Inv(states[n]) && TargetsBelow(states[n].dir, a) && IsSparingRun(states[..n+1], actions[..n], a)
  {
    if n == 0 {
    } else {
      TargetsBelowSpare(states, actions, n - 1, a);
      StepKeepsTargets(states[n-1], actions[n-1], states[n], a);
      StepKeepsInv(states[n-1], actions[n-1], states[n]);
      var some, acts := states[..n+1], actions[..n];
      forall k | 0 <= k < n
        ensures Step(some[k], acts[k], some[k+1]) && Spares(some[k].dir, acts[k], a)
      {
        assert k < n - 1 ==> Spares(states[..n][k].dir, actions[..n-1][k], a);
      }
    }
  }

  // ---- what the PDP answers meanwhile

  /** The graphs the PDP decides over, with the moving one at its current edges. */
  function At(graphs: map<P.GraphId, P.Graph>, g: P.GraphId, edges: set<Edge>): map<P.GraphId, P.Graph>
    requires g in graphs
  {
    graphs[g := graphs[g].(edges := edges)]
  }

  /** What a subtree grant allows it goes on allowing, at every point of every run that moves nothing
      away from below its target, in both modes, over the exact closures of that moment. */
  lemma MovesKeepAllow(states: seq<System>, actions: seq<Action>, n: nat, d: UnitId,
                       graphs: map<P.GraphId, P.Graph>, closures: map<P.GraphId, Rows>,
                       grant: P.ActiveGrant, input: P.Input)
    requires IsSparingRun(states, actions, grant.target) && n <= |actions|
    requires Reaches(states[0].dir.edges, grant.target, d)
    requires grant in input.grants && input.action in grant.perms && !P.IsInstanceScope(input.action) && input.unit == d
    requires grant.scope.ScopeSubtree? && grant.graph in graphs && graphs[grant.graph].isAuthorityBearing
    requires P.ClosuresExact(At(graphs, grant.graph, states[n].dir.edges), closures)
    ensures var now := At(graphs, grant.graph, states[n].dir.edges);
            P.Answer(P.StorePort(now, closures), input).Ok? && P.Answer(P.StorePort(now, closures), input).value.allow
  {
    SparingRunKeepsReach(states, actions, n, grant.target, d);
    var now := At(graphs, grant.graph, states[n].dir.edges);
    assert P.GrantReaches(now, grant, input.action, d);
    P.DecideMeansAuthorized(now, closures, input);
  }

  // ---- outside the moved subtrees

  /** d is a unit of the directory, and no transaction of the run works for a unit that lay above d, or
      was d, when the run began. */
  ghost predicate IsRunOutside(states: seq<System>, actions: seq<Action>, d: UnitId) {
    && |states| == |actions| + 1
    && Inv(states[0]) && d in states[0].dir.live + states[0].dir.deleted
    && forall k :: 0 <= k < |actions| ==>
         && Step(states[k], actions[k], states[k+1])
         && WorksOutside(states[0].dir, states[k].dir, actions[k], d)
  }

  ghost predicate WorksOutside(first: Dir, dir: Dir, act: Action, d: UnitId) {
    act.Work? && act.job < |dir.jobs| ==> !Reaches(first.edges, dir.jobs[act.job].unit, d)
  }

  ghost predicate SameAbove(one: Dir, two: Dir, d: UnitId) {
    forall a :: Reaches(one.edges, a, d) <==> Reaches(two.edges, a, d)
  }

  lemma StepOutside(s: System, act: Action, t: System, d: UnitId)
    requires Inv(s) && Step(s, act, t) && d in s.dir.live + s.dir.deleted
    requires act.Work? ==> !Reaches(s.dir.edges, s.dir.jobs[act.job].unit, d)
    ensures d in t.dir.live + t.dir.deleted && SameAbove(s.dir, t.dir, d)
  {
    match act
    case CreateUnit(parent, child) =>
      if Reaches(s.dir.edges, child, d) {
        LeavesByEdge(s.dir.edges, child, d);
      }
      forall a
        ensures Reaches(s.dir.edges, a, d) <==> Reaches(t.dir.edges, a, d)
      {
        AddOutside(s.dir.edges, Edge(parent, child), a, d);
      }
    case Work(i, fault) =>
      forall a
        ensures Reaches(s.dir.edges, a, d) <==> Reaches(t.dir.edges, a, d)
      {
        WorkOutside(s.dir, s.dir.jobs[i], fault, a, d);
      }
    case _ =>
  }

  lemma WorkOutside(dir: Dir, j: MoveJob, fault: bool, a: UnitId, d: UnitId)
    requires InProgress(j) && !Reaches(dir.edges, j.unit, d)
    ensures Reaches(EdgesAfter(dir, j, fault), a, d) <==> Reaches(dir.edges, a, d)
  {
    AddOutside(dir.edges, Edge(j.newParent, j.unit), a, d);
    RemoveOutside(dir.edges, Edge(j.oldParent, j.unit), a, d);
  }

  lemma {:induction false} RunOutsideKeepsAbove(states: seq<System>, actions: seq<Action>, n: nat, d: UnitId)
    requires IsRunOutside(states, actions, d) && n <= |actions|
    ensures Inv(states[n]) && d in states[n].dir.live + states[n].dir.deleted && SameAbove(states[0].dir, states[n].dir, d)
  {
    if n == 0 {
    } else {
      RunOutsideKeepsAbove(states, actions, n - 1, d);
      assert WorksOutside(states[0].dir, states[n-1].dir, actions[n-1], d);
      StepOutside(states[n-1], actions[n-1], states[n], d);
      StepKeepsInv(states[n-1], actions[n-1], states[n]);
    }
  }

  /** No decision about a unit outside the moved subtrees ever changes, whatever the grants: along every
      run, in both modes, over the exact closures of each moment. */
  lemma MovesKeepDecisionsOutside(states: seq<System>, actions: seq<Action>, n: nat,
                                  graphs: map<P.GraphId, P.Graph>, g: P.GraphId, input: P.Input,
                                  first: map<P.GraphId, Rows>, closures: map<P.GraphId, Rows>)
    requires IsRunOutside(states, actions, input.unit) && n <= |actions| && g in graphs
    requires P.ClosuresExact(At(graphs, g, states[0].dir.edges), first)
    requires P.ClosuresExact(At(graphs, g, states[n].dir.edges), closures)
    ensures var before, now := At(graphs, g, states[0].dir.edges), At(graphs, g, states[n].dir.edges);
            && P.Answer(P.StorePort(before, first), input).Ok? && P.Answer(P.StorePort(now, closures), input).Ok?
            && P.Answer(P.StorePort(before, first), input).value.allow == P.Answer(P.StorePort(now, closures), input).value.allow
  {
    RunOutsideKeepsAbove(states, actions, n, input.unit);
    var before, now := At(graphs, g, states[0].dir.edges), At(graphs, g, states[n].dir.edges);
    P.DecideMeansAuthorized(before, first, input);
    P.DecideMeansAuthorized(now, closures, input);
    SameAboveSameAuthorized(graphs, g, states[0].dir, states[n].dir, input);
  }

  lemma SameAboveSameAuthorized(graphs: map<P.GraphId, P.Graph>, g: P.GraphId, one: Dir, two: Dir, input: P.Input)
    requires g in graphs && SameAbove(one, two, input.unit)
    ensures P.Authorized(At(graphs, g, one.edges), input.grants, input.isInstanceAdmin, input.action, input.unit)
       <==> P.Authorized(At(graphs, g, two.edges), input.grants, input.isInstanceAdmin, input.action, input.unit)
  {
    forall grant
      ensures P.GrantReaches(At(graphs, g, one.edges), grant, input.action, input.unit)
         <==> P.GrantReaches(At(graphs, g, two.edges), grant, input.action, input.unit)
    {
      assert Reaches(one.edges, grant.target, input.unit) <==> Reaches(two.edges, grant.target, input.unit);
    }
  }
}
