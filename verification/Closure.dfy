/** The stored transitive closure, and what each closure statement does to its rows. */
module Closure {
  import opened Paths

  type Pair = (UnitId, UnitId)  // (ancestor, descendant)
  type Rows = map<Pair, nat>    // one depth per primary key

  /** The closure is what the edges alone imply: one row per reachable pair of nodes, the
      reflexive ones included, at shortest depth. */
  ghost predicate Exact(edges: set<Edge>, rows: Rows) {
    && (forall a, d :: (a, d) in rows <==> a in Nodes(edges) && Reaches(edges, a, d))
    && (forall a, d :: (a, d) in rows ==> IsShortest(edges, a, d, rows[(a, d)]))
  }

  /** The one exact closure of an edge set. */
  ghost function ClosureOf(edges: set<Edge>): (rows: Rows)
    ensures Exact(edges, rows)
  {
    NodesClosed(edges);
    map k | k in Product(Nodes(edges), Nodes(edges)) && Reaches(edges, k.0, k.1) :: Distance(edges, k.0, k.1)
  }

  lemma ExactIsUnique(edges: set<Edge>, r1: Rows, r2: Rows)
    requires Exact(edges, r1) && Exact(edges, r2)
    ensures r1 == r2
  {
    forall k | k in r1 || k in r2
      ensures k in r1 && k in r2 && r1[k] == r2[k]
    {
      var (a, d) := k;
      DistanceIs(edges, a, d, r1[k]);
      DistanceIs(edges, a, d, r2[k]);
    }
  }

  lemma SameRows(r1: Rows, r2: Rows)
    requires forall a, d :: (a, d) in r1 <==> (a, d) in r2
    requires forall k :: k in r1 && k in r2 ==> r1[k] == r2[k]
    ensures r1 == r2
  {
    forall k
      ensures k in r1 <==> k in r2
    {
      assert k == (k.0, k.1);
    }
  }

  lemma NodesClosed(edges: set<Edge>)
    ensures forall a, d :: a in Nodes(edges) && Reaches(edges, a, d) ==> d in Nodes(edges)
    ensures forall a, d :: a !in Nodes(edges) && Reaches(edges, a, d) ==> a == d
  {
    forall a, d | Reaches(edges, a, d)
      ensures a in Nodes(edges) ==> d in Nodes(edges)
      ensures a !in Nodes(edges) ==> a == d
    {
      var p :| Connects(edges, a, d, p);
      if |p| >= 2 { PathWithinNodes(edges, p); }
    }
  }

  // ---- the statements, as functions of the stored rows

  function Product(xs: set<UnitId>, ys: set<UnitId>): (ps: set<Pair>)
    ensures forall x, y :: (x, y) in ps <==> x in xs && y in ys
  {
    set x, y | x in xs && y in ys :: (x, y)
  }

  function AncestorsOf(rows: Rows, u: UnitId): (s: set<UnitId>)
    ensures forall a :: a in s <==> (a, u) in rows
  {
    var s := set k | k in rows && k.1 == u :: k.0;
    assert forall a :: (a, u) in rows ==> (a, u).0 in s;
    s
  }

  function DescendantsOf(rows: Rows, u: UnitId): (s: set<UnitId>)
    ensures forall d :: d in s <==> (u, d) in rows
  {
    var s := set k | k in rows && k.0 == u :: k.1;
    assert forall d :: (u, d) in rows ==> (u, d).1 in s;
    s
  }

  /** SeedClosureSelfRows: insert both reflexive rows, keeping any that is already there. */
  function Seeded(rows: Rows, parent: UnitId, child: UnitId): Rows {
    map[(parent, parent) := 0, (child, child) := 0] + rows
  }

  /** ExtendClosureForEdge: anc*(parent) x desc*(child), the lesser depth winning a conflict. */
  function Extended(rows: Rows, parent: UnitId, child: UnitId): Rows {
    Upserted(rows, parent, child, Product(AncestorsOf(rows, parent), DescendantsOf(rows, child)))
  }

  /** The join's rows for the pairs in done, upserted into rows. */
  function Upserted(rows: Rows, parent: UnitId, child: UnitId, done: set<Pair>): Rows
    requires done <= Product(AncestorsOf(rows, parent), DescendantsOf(rows, child))
  {
    map k | k in rows.Keys + done ::
      if k !in done then rows[k]
      else
        var through := rows[(k.0, parent)] + rows[(child, k.1)] + 1;
        if k in rows && rows[k] <= through then rows[k] else through
  }

  lemma UpsertOne(rows: Rows, parent: UnitId, child: UnitId, done: set<Pair>, k: Pair)
    requires done + {k} <= Product(AncestorsOf(rows, parent), DescendantsOf(rows, child)) && k !in done
    ensures Upserted(rows, parent, child, done + {k}) ==
              Upsert(Upserted(rows, parent, child, done), k, rows[(k.0, parent)] + rows[(child, k.1)] + 1)
  {
    var now, next := Upserted(rows, parent, child, done), Upserted(rows, parent, child, done + {k});
    var out := Upsert(now, k, rows[(k.0, parent)] + rows[(child, k.1)] + 1);
    assert next.Keys == out.Keys;
    forall j | j in next
      ensures next[j] == out[j]
    {
      if j != k { assert j in done + {k} <==> j in done; }
    }
  }

  /** INSERT .. ON CONFLICT DO UPDATE SET depth = LEAST(..). */
  function Upsert(rows: Rows, k: Pair, depth: nat): Rows {
    if k in rows && rows[k] <= depth then rows else rows[k := depth]
  }

  function SliceAncestors(rows: Rows, parent: UnitId): set<UnitId> {
    AncestorsOf(rows, parent) + {parent}
  }

  function SliceDescendants(rows: Rows, child: UnitId): set<UnitId> {
    DescendantsOf(rows, child) + {child}
  }

  /** DeleteClosureSlice: every row from above the detached edge to below it. */
  function WithoutSlice(rows: Rows, parent: UnitId, child: UnitId): Rows {
    rows - Product(SliceAncestors(rows, parent), SliceDescendants(rows, child))
  }

  /** PruneClosureSelfRows: the reflexive rows of the two endpoints go if no edge touches them now. */
  function Pruned(edges: set<Edge>, rows: Rows, parent: UnitId, child: UnitId): Rows {
    rows - (set u | u in {parent, child} && (forall e | e in edges :: e.parent != u && e.child != u) :: (u, u))
  }

  /** One row of RederiveClosureSlice's recursive walk: it starts in anc and stops at the first
      node outside it. */
  ghost predicate IsWalk(edges: set<Edge>, anc: set<UnitId>, w: seq<UnitId>) {
    && IsPath(edges, w)
    && w[0] in anc
    && forall i :: 0 <= i < |w| - 1 ==> w[i] in anc
  }

  /** The walk w, followed by a surviving row down to d, proposes a depth for (w[0], d). */
  ghost predicate Proposes(edges: set<Edge>, rows: Rows, anc: set<UnitId>, dsc: set<UnitId>,
                           a: UnitId, d: UnitId, w: seq<UnitId>) {
    && IsWalk(edges, anc, w)
    && w[0] == a
    && w[|w|-1] !in anc
    && d in dsc
    && (w[|w|-1], d) in rows
  }

  ghost function ProposedDepth(rows: Rows, d: UnitId, w: seq<UnitId>): nat
    requires |w| > 0 && (w[|w|-1], d) in rows
  {
    |w| - 1 + rows[(w[|w|-1], d)]
  }

  /** RederiveClosureSlice inserts one row per proposed pair, at the least proposed depth. */
  ghost predicate IsRederived(edges: set<Edge>, rows: Rows, parent: UnitId, child: UnitId, out: Rows) {
    var anc, dsc := SliceAncestors(rows, parent), SliceDescendants(rows, child);
    && (forall a, d :: (a, d) in out <==> exists w :: Proposes(edges, rows, anc, dsc, a, d, w))
    && (forall a, d, w :: Proposes(edges, rows, anc, dsc, a, d, w) ==> out[(a, d)] <= ProposedDepth(rows, d, w))
    && (forall a, d :: (a, d) in out ==>
          exists w :: Proposes(edges, rows, anc, dsc, a, d, w) && out[(a, d)] == ProposedDepth(rows, d, w))
  }

  // ---- attach

  lemma NodesAfterAdd(edges: set<Edge>, e: Edge)
    ensures Nodes(edges + {e}) == Nodes(edges) + {e.parent, e.child}
  {
    assert e in edges + {e};
    assert forall f :: f in edges ==> f in edges + {e};
  }

  lemma PathsThroughNewEdge(edges: set<Edge>, e: Edge, a: UnitId, d: UnitId, n: nat)
    requires ReachesIn(edges + {e}, a, d, n) && !ReachesIn(edges, a, d, n)
    ensures exists i: nat, j: nat :: ReachesIn(edges, a, e.parent, i) && ReachesIn(edges, e.child, d, j) && i + 1 + j <= n
  {
    var p :| Connects(edges + {e}, a, d, p) && |p| == n + 1;
    assert !Connects(edges, a, d, p);
    var i, j := SplitAtEdge(edges, e, p);
    assert |p[..i+1]| == i + 1 && |p[j..]| == |p| - j;
    assert ReachesIn(edges, a, e.parent, i) && ReachesIn(edges, e.child, d, n - j);
  }

  lemma ReachIsReachIn(edges: set<Edge>, a: UnitId, d: UnitId)
    ensures Reaches(edges, a, d) <==> exists n: nat :: ReachesIn(edges, a, d, n)
  {
    if Reaches(edges, a, d) {
      var p :| Connects(edges, a, d, p);
      assert ReachesIn(edges, a, d, |p| - 1);
    }
  }

  lemma SeededRows(edges: set<Edge>, rows: Rows, parent: UnitId, child: UnitId)
    requires Exact(edges, rows)
    ensures forall a, d :: (a, d) in Seeded(rows, parent, child) <==>
              a in Nodes(edges) + {parent, child} && Reaches(edges, a, d)
    ensures forall a, d :: (a, d) in Seeded(rows, parent, child) ==>
              IsShortest(edges, a, d, Seeded(rows, parent, child)[(a, d)])
  {
    NodesClosed(edges);
    forall a, d
      ensures (a, d) in Seeded(rows, parent, child) <==> a in Nodes(edges) + {parent, child} && Reaches(edges, a, d)
      ensures (a, d) in Seeded(rows, parent, child) ==> IsShortest(edges, a, d, Seeded(rows, parent, child)[(a, d)])
    {
      SelfReach(edges, a);
    }
  }

  /** Attach is exact, for any edge: no guard is needed for the rows to be right. */
  lemma AttachIsExact(edges: set<Edge>, rows: Rows, parent: UnitId, child: UnitId)
    requires Exact(edges, rows)
    ensures Exact(edges + {Edge(parent, child)}, Extended(Seeded(rows, parent, child), parent, child))
  {
    var e := Edge(parent, child);
    var more := edges + {e};
    var seeded := Seeded(rows, parent, child);
    var out := Extended(seeded, parent, child);
    SeededRows(edges, rows, parent, child);
    NodesAfterAdd(edges, e);
    NodesClosed(edges);
    forall a, d | (a, d) in out
      ensures a in Nodes(more) && Reaches(more, a, d) && ReachesIn(more, a, d, out[(a, d)])
    {
      if (a, d) in seeded && out[(a, d)] == seeded[(a, d)] {
        ReachesInMore(edges, more, a, d, out[(a, d)]);
      } else {
        AttachedPair(edges, e, a, d, seeded[(a, parent)], seeded[(child, d)]);
      }
      ReachIsReachIn(more, a, d);
    }
    forall a, d, n: nat | a in Nodes(more) && ReachesIn(more, a, d, n)
      ensures (a, d) in out && out[(a, d)] <= n
    {
      if ReachesIn(edges, a, d, n) {
        ReachIsReachIn(edges, a, d);
        assert (a, d) in seeded && seeded[(a, d)] <= n;
      } else {
        PathsThroughNewEdge(edges, e, a, d, n);
        var i: nat, j: nat :| ReachesIn(edges, a, parent, i) && ReachesIn(edges, child, d, j) && i + 1 + j <= n;
        ReachIsReachIn(edges, a, parent);
        ReachIsReachIn(edges, child, d);
        assert (a, parent) in seeded && seeded[(a, parent)] <= i;
        assert (child, d) in seeded && seeded[(child, d)] <= j;
      }
    }
    BothBounds(more, out);
  }

  lemma AttachedPair(edges: set<Edge>, e: Edge, a: UnitId, d: UnitId, i: nat, j: nat)
    requires ReachesIn(edges, a, e.parent, i) && ReachesIn(edges, e.child, d, j)
    ensures ReachesIn(edges + {e}, a, d, i + j + 1)
  {
    var more := edges + {e};
    ReachesInMore(edges, more, a, e.parent, i);
    ReachesInMore(edges, more, e.child, d, j);
    EdgeReach(more, e.parent, e.child);
    ReachesInAdds(more, a, e.parent, e.child, i, 1);
    ReachesInAdds(more, a, e.child, d, i + 1, j);
  }

  /** Rows that are reachable at their depth, and at no lesser one, are exact. */
  lemma BothBounds(edges: set<Edge>, rows: Rows)
    requires forall a, d :: (a, d) in rows ==> a in Nodes(edges) && ReachesIn(edges, a, d, rows[(a, d)])
    requires forall a, d, n: nat :: a in Nodes(edges) && ReachesIn(edges, a, d, n) ==> (a, d) in rows && rows[(a, d)] <= n
    ensures Exact(edges, rows)
  {
    forall a, d
      ensures (a, d) in rows <==> a in Nodes(edges) && Reaches(edges, a, d)
    {
      ReachIsReachIn(edges, a, d);
    }
  }

  // ---- detach

  /** What DeleteClosureSlice sees: the units above the edge and those below it, which never meet. */
  lemma SliceOfEdge(edges: set<Edge>, rows: Rows, e: Edge)
    requires Exact(edges, rows) && Acyclic(edges) && e in edges
    ensures forall a :: a in SliceAncestors(rows, e.parent) <==> Reaches(edges, a, e.parent)
    ensures forall d :: d in SliceDescendants(rows, e.child) <==> Reaches(edges, e.child, d)
    ensures SliceAncestors(rows, e.parent) !! SliceDescendants(rows, e.child)
  {
    EdgeReach(edges, e.parent, e.child);
    NodesClosed(edges);
    SelfReach(edges, e.parent);
    SelfReach(edges, e.child);
    assert e.parent in Nodes(edges) && e.child in Nodes(edges);
    forall x | Reaches(edges, x, e.parent) && Reaches(edges, e.child, x)
      ensures false
    {
      ReachesTransitive(edges, e.child, x, e.parent);
      NoWayBack(edges, e.parent, e.child);
      PathWithinNodes(edges, [e.parent, e.child]);
    }
  }

  /** Deleting the slice does not change which slice re-derivation and pruning will see. */
  lemma SliceSurvives(edges: set<Edge>, rows: Rows, e: Edge)
    requires Exact(edges, rows) && Acyclic(edges) && e in edges
    ensures SliceAncestors(WithoutSlice(rows, e.parent, e.child), e.parent) == SliceAncestors(rows, e.parent)
    ensures SliceDescendants(WithoutSlice(rows, e.parent, e.child), e.child) == SliceDescendants(rows, e.child)
  {
    SliceOfEdge(edges, rows, e);
  }

  /** A path that takes the detached edge runs from its slice's ancestors to its descendants. */
  lemma PathsAcrossEdge(edges: set<Edge>, e: Edge, a: UnitId, d: UnitId, n: nat)
    requires e in edges && ReachesIn(edges, a, d, n)
    requires !(Reaches(edges, a, e.parent) && Reaches(edges, e.child, d))
    ensures ReachesIn(edges - {e}, a, d, n)
  {
    var fewer := edges - {e};
    assert fewer + {e} == edges;
    var p :| Connects(edges, a, d, p) && |p| == n + 1;
    if IsPath(fewer, p) {
      assert Connects(fewer, a, d, p);
    } else {
      var i, j := SplitAtEdge(fewer, e, p);
      PathInMore(fewer, edges, p[..i+1]);
      PathInMore(fewer, edges, p[j..]);
      assert Connects(edges, a, e.parent, p[..i+1]) && Connects(edges, e.child, d, p[j..]);
    }
  }

  /** Outside the slice, rows of the old closure are already right for the remaining edges. */
  lemma OutsideSlice(edges: set<Edge>, rows: Rows, e: Edge, a: UnitId, d: UnitId)
    requires Exact(edges, rows) && Acyclic(edges) && e in edges
    requires (a, d) in WithoutSlice(rows, e.parent, e.child)
    ensures IsShortest(edges - {e}, a, d, rows[(a, d)])
  {
    SliceOfEdge(edges, rows, e);
    PathsAcrossEdge(edges, e, a, d, rows[(a, d)]);
    forall m: nat | m < rows[(a, d)] && ReachesIn(edges - {e}, a, d, m)
      ensures false
    {
      ReachesInMore(edges - {e}, edges, a, d, m);
    }
  }

  /** What DeleteClosureSlice leaves, in terms of paths. */
  lemma OutsideIsRight(edges: set<Edge>, rows: Rows, e: Edge)
    requires e !in edges && Acyclic(edges + {e}) && Exact(edges + {e}, rows)
    ensures var cut := WithoutSlice(rows, e.parent, e.child);
            && (forall a, d :: (a, d) in cut <==>
                  (a, d) in rows && !(Reaches(edges + {e}, a, e.parent) && Reaches(edges + {e}, e.child, d)))
            && (forall a, d :: (a, d) in cut ==> IsShortest(edges, a, d, cut[(a, d)]))
  {
    assert edges + {e} - {e} == edges;
    SliceOfEdge(edges + {e}, rows, e);
    forall a, d | (a, d) in WithoutSlice(rows, e.parent, e.child)
      ensures IsShortest(edges, a, d, rows[(a, d)])
    {
      OutsideSlice(edges + {e}, rows, e, a, d);
    }
  }

  /** A remaining path across the slice leaves anc*(parent) by one edge: up to there it is a walk,
      and from there a surviving row covers it. */
  lemma PathIsProposed(edges: set<Edge>, rows: Rows, e: Edge, a: UnitId, d: UnitId, n: nat)
    returns (w: seq<UnitId>)
    requires Exact(edges, rows) && Acyclic(edges) && e in edges
    requires a in SliceAncestors(rows, e.parent) && d in SliceDescendants(rows, e.child)
    requires ReachesIn(edges - {e}, a, d, n)
    ensures Proposes(edges - {e}, WithoutSlice(rows, e.parent, e.child),
                     SliceAncestors(rows, e.parent), SliceDescendants(rows, e.child), a, d, w)
    ensures ProposedDepth(WithoutSlice(rows, e.parent, e.child), d, w) <= n
  {
    var fewer, cut := edges - {e}, WithoutSlice(rows, e.parent, e.child);
    var anc := SliceAncestors(rows, e.parent);
    SliceOfEdge(edges, rows, e);
    var p :| Connects(fewer, a, d, p) && |p| == n + 1;
    var i := 0;
    while p[i] in anc
      invariant i < |p| && forall k :: 0 <= k < i ==> p[k] in anc
      decreases |p| - i
    {
      assert d !in anc && p[|p|-1] == d;
      i := i + 1;
    }
    w := p[..i+1];
    Cut(fewer, p, i);
    var x := p[i];
    assert Connects(fewer, x, d, p[i..]);
    assert |p[i..]| == n - i + 1;
    assert ReachesIn(fewer, x, d, n - i);
    ReachesInMore(fewer, edges, x, d, n - i);
    ReachIsReachIn(edges, x, d);
    assert Edge(p[i-1], p[i]) in edges;
    assert Edge(p[i-1], p[i]).child == x;
    assert x in Nodes(edges);
    assert (x, d) in cut;
    OutsideSlice(edges, rows, e, x, d);
  }

  /** What the walk proposes is a real remaining path. */
  lemma ProposedIsPath(edges: set<Edge>, rows: Rows, e: Edge, a: UnitId, d: UnitId, w: seq<UnitId>)
    requires Exact(edges, rows) && Acyclic(edges) && e in edges
    requires Proposes(edges - {e}, WithoutSlice(rows, e.parent, e.child),
                      SliceAncestors(rows, e.parent), SliceDescendants(rows, e.child), a, d, w)
    ensures ReachesIn(edges - {e}, a, d, ProposedDepth(WithoutSlice(rows, e.parent, e.child), d, w))
  {
    var x := w[|w|-1];
    OutsideSlice(edges, rows, e, x, d);
    assert Connects(edges - {e}, a, x, w);
    assert ReachesIn(edges - {e}, a, x, |w| - 1);
    ReachesInAdds(edges - {e}, a, x, d, |w| - 1, rows[(x, d)]);
  }

  /** Re-derived rows fill the deleted slice and touch nothing else. */
  lemma RederivedSlice(edges: set<Edge>, rows: Rows, e: Edge, out: Rows)
    requires Exact(edges, rows) && Acyclic(edges) && e in edges
    requires IsRederived(edges - {e}, WithoutSlice(rows, e.parent, e.child), e.parent, e.child, out)
    ensures forall a, d :: (a, d) in out <==>
              a in SliceAncestors(rows, e.parent) && d in SliceDescendants(rows, e.child) && Reaches(edges - {e}, a, d)
    ensures forall a, d :: (a, d) in out ==> IsShortest(edges - {e}, a, d, out[(a, d)])
  {
    var fewer, cut := edges - {e}, WithoutSlice(rows, e.parent, e.child);
    var anc, dsc := SliceAncestors(rows, e.parent), SliceDescendants(rows, e.child);
    SliceSurvives(edges, rows, e);
    forall a, d | (a, d) in out
      ensures a in anc && d in dsc && Reaches(fewer, a, d) && ReachesIn(fewer, a, d, out[(a, d)])
    {
      var w :| Proposes(fewer, cut, anc, dsc, a, d, w) && out[(a, d)] == ProposedDepth(cut, d, w);
      ProposedIsPath(edges, rows, e, a, d, w);
      ReachIsReachIn(fewer, a, d);
    }
    forall a, d, n: nat | a in anc && d in dsc && ReachesIn(fewer, a, d, n)
      ensures (a, d) in out && out[(a, d)] <= n
    {
      var w := PathIsProposed(edges, rows, e, a, d, n);
    }
    forall a, d | a in anc && d in dsc && Reaches(fewer, a, d)
      ensures (a, d) in out
    {
      ReachIsReachIn(fewer, a, d);
    }
  }

  lemma PrunedRows(edges: set<Edge>, rows: Rows, parent: UnitId, child: UnitId)
    ensures forall a, d :: (a, d) in Pruned(edges, rows, parent, child) <==>
              (a, d) in rows && !(a == d && a in {parent, child} && a !in Nodes(edges))
  {
    forall u
      ensures u in Nodes(edges) <==> exists e :: e in edges && (e.parent == u || e.child == u)
    {}
  }

  /** As Exact, with reflexive rows for some more units. */
  ghost predicate ExactWith(edges: set<Edge>, units: set<UnitId>, rows: Rows) {
    && (forall a, d :: (a, d) in rows <==> a in Nodes(edges) + units && Reaches(edges, a, d))
    && (forall a, d :: (a, d) in rows ==> IsShortest(edges, a, d, rows[(a, d)]))
  }

  lemma PrunedIsExact(edges: set<Edge>, rows: Rows, parent: UnitId, child: UnitId)
    requires ExactWith(edges, {parent, child}, rows)
    ensures Exact(edges, Pruned(edges, rows, parent, child))
  {
    NodesClosed(edges);
    PrunedRows(edges, rows, parent, child);
    forall a, d
      ensures (a, d) in Pruned(edges, rows, parent, child) <==> a in Nodes(edges) && Reaches(edges, a, d)
    {}
  }

  /** Pruning leaves no row for a unit that lost its last edge. */
  lemma UnprunedIsNode(edges: set<Edge>, e: Edge, all: Rows, a: UnitId, d: UnitId)
    requires e in edges && a in Nodes(edges)
    requires (a, d) in Pruned(edges - {e}, all, e.parent, e.child) && Reaches(edges - {e}, a, d)
    ensures a in Nodes(edges - {e})
  {
    assert (edges - {e}) + {e} == edges;
    NodesAfterAdd(edges - {e}, e);
    NodesClosed(edges - {e});
    PrunedRows(edges - {e}, all, e.parent, e.child);
  }

  /** Every row the three steps leave is a shortest remaining path, */
  lemma DetachedRowsHold(edges: set<Edge>, rows: Rows, e: Edge, out: Rows, a: UnitId, d: UnitId)
    requires Exact(edges, rows) && Acyclic(edges) && e in edges
    requires IsRederived(edges - {e}, WithoutSlice(rows, e.parent, e.child), e.parent, e.child, out)
    requires (a, d) in WithoutSlice(rows, e.parent, e.child) + out
    ensures a in Nodes(edges) && Reaches(edges - {e}, a, d)
    ensures IsShortest(edges - {e}, a, d, (WithoutSlice(rows, e.parent, e.child) + out)[(a, d)])
  {
    if (a, d) in out {
      RederivedSlice(edges, rows, e, out);
      assert a in SliceAncestors(rows, e.parent);
      EdgeReach(edges, e.parent, e.child);
    } else {
      OutsideSlice(edges, rows, e, a, d);
      ReachIsReachIn(edges - {e}, a, d);
    }
  }

  /** and every remaining path has its row. */
  lemma DetachedPathsHaveRows(edges: set<Edge>, rows: Rows, e: Edge, out: Rows, a: UnitId, d: UnitId, n: nat)
    requires Exact(edges, rows) && Acyclic(edges) && e in edges
    requires IsRederived(edges - {e}, WithoutSlice(rows, e.parent, e.child), e.parent, e.child, out)
    requires a in Nodes(edges - {e}) && ReachesIn(edges - {e}, a, d, n)
    ensures (a, d) in Pruned(edges - {e}, WithoutSlice(rows, e.parent, e.child) + out, e.parent, e.child)
    ensures (WithoutSlice(rows, e.parent, e.child) + out)[(a, d)] <= n
  {
    var fewer, cut := edges - {e}, WithoutSlice(rows, e.parent, e.child);
    RederivedSlice(edges, rows, e, out);
    SliceOfEdge(edges, rows, e);
    NodesAfterAdd(fewer, e);
    assert fewer + {e} == edges;
    ReachesInMore(fewer, edges, a, d, n);
    ReachIsReachIn(edges, a, d);
    ReachIsReachIn(fewer, a, d);
    assert (a, d) in rows;
    if (a, d) !in out { OutsideSlice(edges, rows, e, a, d); }
    PrunedRows(fewer, cut + out, e.parent, e.child);
  }

  /** Detach is exact: delete slice, re-derive, prune leaves what the remaining edges imply. */
  lemma DetachIsExact(edges: set<Edge>, rows: Rows, e: Edge, out: Rows)
    requires Exact(edges, rows) && Acyclic(edges) && e in edges
    requires IsRederived(edges - {e}, WithoutSlice(rows, e.parent, e.child), e.parent, e.child, out)
    ensures out.Keys !! WithoutSlice(rows, e.parent, e.child).Keys
    ensures Exact(edges - {e}, Pruned(edges - {e}, WithoutSlice(rows, e.parent, e.child) + out, e.parent, e.child))
  {
    var fewer, all := edges - {e}, WithoutSlice(rows, e.parent, e.child) + out;
    RederivedSlice(edges, rows, e, out);
    var final := Pruned(fewer, all, e.parent, e.child);
    forall a, d | (a, d) in final
      ensures a in Nodes(fewer) && ReachesIn(fewer, a, d, final[(a, d)])
    {
      DetachedRowsHold(edges, rows, e, out, a, d);
      UnprunedIsNode(edges, e, all, a, d);
    }
    forall a, d, n: nat | a in Nodes(fewer) && ReachesIn(fewer, a, d, n)
      ensures (a, d) in final && final[(a, d)] <= n
    {
      DetachedPathsHaveRows(edges, rows, e, out, a, d, n);
    }
    BothBounds(fewer, final);
  }
}
