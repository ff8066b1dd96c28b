/** Parent-to-child edges of one hierarchy graph, and the paths they make. */
module Paths {

  // A unit's row id. The store's are opaque UUIDs: only equality and freshness of them matter.
  datatype UnitId = U(rid: int)

  datatype Edge = Edge(parent: UnitId, child: UnitId)

  function Nodes(edges: set<Edge>): set<UnitId> {
    (set e | e in edges :: e.parent) + (set e | e in edges :: e.child)
  }

  ghost predicate IsPath(edges: set<Edge>, p: seq<UnitId>) {
    && |p| > 0
    && forall i :: 0 <= i < |p| - 1 ==> Edge(p[i], p[i+1]) in edges
  }

  ghost predicate Connects(edges: set<Edge>, a: UnitId, d: UnitId, p: seq<UnitId>) {
    IsPath(edges, p) && p[0] == a && p[|p|-1] == d
  }

  /** d lies n edges below a. */
  ghost predicate ReachesIn(edges: set<Edge>, a: UnitId, d: UnitId, n: nat) {
    exists p :: Connects(edges, a, d, p) && |p| == n + 1
  }

  ghost predicate Reaches(edges: set<Edge>, a: UnitId, d: UnitId) {
    exists p :: Connects(edges, a, d, p)
  }

  ghost predicate Acyclic(edges: set<Edge>) {
    forall p :: IsPath(edges, p) && |p| >= 2 ==> p[0] != p[|p|-1]
  }

  ghost predicate IsShortest(edges: set<Edge>, a: UnitId, d: UnitId, n: nat) {
    ReachesIn(edges, a, d, n) && forall m: nat | m < n :: !ReachesIn(edges, a, d, m)
  }

  /** The length of a shortest path. */
  ghost function Distance(edges: set<Edge>, a: UnitId, d: UnitId): (n: nat)
    requires Reaches(edges, a, d)
    ensures IsShortest(edges, a, d, n)
  {
    ShortestExists(edges, a, d);
    var n: nat :| IsShortest(edges, a, d, n);
    n
  }

  lemma ShortestExists(edges: set<Edge>, a: UnitId, d: UnitId)
    requires Reaches(edges, a, d)
    ensures exists n: nat :: IsShortest(edges, a, d, n)
  {
    var p :| Connects(edges, a, d, p);
    assert ReachesIn(edges, a, d, |p| - 1);
    ShortestBelow(edges, a, d, |p| - 1);
  }

  lemma {:induction false} ShortestBelow(edges: set<Edge>, a: UnitId, d: UnitId, n: nat)
    requires ReachesIn(edges, a, d, n)
    ensures exists k: nat :: IsShortest(edges, a, d, k)
    decreases n
  {
    if m: nat :| m < n && ReachesIn(edges, a, d, m) {
      ShortestBelow(edges, a, d, m);
    } else {
      assert IsShortest(edges, a, d, n);
    }
  }

  lemma DistanceIs(edges: set<Edge>, a: UnitId, d: UnitId, n: nat)
    requires IsShortest(edges, a, d, n)
    ensures Reaches(edges, a, d) && Distance(edges, a, d) == n
  {
    var p :| Connects(edges, a, d, p) && |p| == n + 1;
    var k := Distance(edges, a, d);
    assert IsShortest(edges, a, d, k);
  }

  // ---- building and cutting paths

  lemma SelfReach(edges: set<Edge>, a: UnitId)
    ensures ReachesIn(edges, a, a, 0) && Reaches(edges, a, a)
  {
    assert Connects(edges, a, a, [a]);
  }

  lemma EdgeReach(edges: set<Edge>, a: UnitId, d: UnitId)
    requires Edge(a, d) in edges
    ensures Connects(edges, a, d, [a, d]) && ReachesIn(edges, a, d, 1) && Reaches(edges, a, d)
  {
    assert Connects(edges, a, d, [a, d]);
  }

  lemma Append(edges: set<Edge>, a: UnitId, m: UnitId, d: UnitId, p: seq<UnitId>, q: seq<UnitId>)
    requires Connects(edges, a, m, p) && Connects(edges, m, d, q)
    ensures Connects(edges, a, d, p + q[1..])
  {
    var r := p + q[1..];
    forall i | 0 <= i < |r| - 1
      ensures Edge(r[i], r[i+1]) in edges
    {
      if i < |p| - 1 {
        assert r[i] == p[i] && r[i+1] == p[i+1];
      } else {
        var j := i - (|p| - 1);
        assert r[i] == q[j] && r[i+1] == q[j+1];
      }
    }
  }

  lemma ReachesTransitive(edges: set<Edge>, a: UnitId, m: UnitId, d: UnitId)
    requires Reaches(edges, a, m) && Reaches(edges, m, d)
    ensures Reaches(edges, a, d)
  {
    var p :| Connects(edges, a, m, p);
    var q :| Connects(edges, m, d, q);
    Append(edges, a, m, d, p, q);
  }

  lemma ReachesInAdds(edges: set<Edge>, a: UnitId, m: UnitId, d: UnitId, i: nat, j: nat)
    requires ReachesIn(edges, a, m, i) && ReachesIn(edges, m, d, j)
    ensures ReachesIn(edges, a, d, i + j)
  {
    var p :| Connects(edges, a, m, p) && |p| == i + 1;
    var q :| Connects(edges, m, d, q) && |q| == j + 1;
    Append(edges, a, m, d, p, q);
    assert |p + q[1..]| == i + j + 1;
  }

  lemma Cut(edges: set<Edge>, p: seq<UnitId>, i: nat)
    requires IsPath(edges, p) && i < |p|
    ensures Connects(edges, p[0], p[i], p[..i+1])
    ensures Connects(edges, p[i], p[|p|-1], p[i..])
  {
    var q := p[i..];
    forall j | 0 <= j < |q| - 1
      ensures Edge(q[j], q[j+1]) in edges
    {
      assert q[j] == p[i+j] && q[j+1] == p[i+j+1];
    }
  }

  lemma PathInMore(fewer: set<Edge>, more: set<Edge>, p: seq<UnitId>)
    requires fewer <= more && IsPath(fewer, p)
    ensures IsPath(more, p)
  {}

  lemma ReachesInMore(fewer: set<Edge>, more: set<Edge>, a: UnitId, d: UnitId, n: nat)
    requires fewer <= more && ReachesIn(fewer, a, d, n)
    ensures ReachesIn(more, a, d, n)
  {
    var p :| Connects(fewer, a, d, p) && |p| == n + 1;
    PathInMore(fewer, more, p);
    assert Connects(more, a, d, p);
  }

  lemma ReachesMore(fewer: set<Edge>, more: set<Edge>, a: UnitId, d: UnitId)
    requires fewer <= more && Reaches(fewer, a, d)
    ensures Reaches(more, a, d)
  {
    var p :| Connects(fewer, a, d, p);
    PathInMore(fewer, more, p);
    assert Connects(more, a, d, p);
  }

  /** A path of the larger edge set that never takes the extra edge is a path of the smaller one. */
  lemma AvoidingPath(edges: set<Edge>, extra: Edge, p: seq<UnitId>)
    requires IsPath(edges + {extra}, p)
    requires forall i :: 0 <= i < |p| - 1 ==> Edge(p[i], p[i+1]) != extra
    ensures IsPath(edges, p)
  {}

  /** A path that takes the extra edge runs up to its parent end, and down from its child end,
      on the other edges alone. */
  lemma SplitAtEdge(edges: set<Edge>, extra: Edge, p: seq<UnitId>) returns (i: nat, j: nat)
    requires IsPath(edges + {extra}, p)
    requires !IsPath(edges, p)
    ensures i + 1 <= j < |p|
    ensures Connects(edges, p[0], extra.parent, p[..i+1])
    ensures Connects(edges, extra.child, p[|p|-1], p[j..])
  {
    i := FirstUse(edges, extra, p);
    j := LastUse(edges, extra, p);
    Cut(edges + {extra}, p, i);
    Cut(edges + {extra}, p, j);
    AvoidingPath(edges, extra, p[..i+1]);
    var q := p[j..];
    forall k | 0 <= k < |q| - 1
      ensures Edge(q[k], q[k+1]) != extra
    {
      assert q[k] == p[j+k] && q[k+1] == p[j+k+1];
    }
    AvoidingPath(edges, extra, q);
    assert Edge(p[i], p[i+1]) == extra;
  }

  lemma FirstUse(edges: set<Edge>, extra: Edge, p: seq<UnitId>) returns (i: nat)
    requires IsPath(edges + {extra}, p)
    requires !IsPath(edges, p)
    ensures i < |p| - 1 && Edge(p[i], p[i+1]) == extra
    ensures forall k :: 0 <= k < i ==> Edge(p[k], p[k+1]) != extra
  {
    i := 0;
    while i < |p| - 1 && Edge(p[i], p[i+1]) != extra
      invariant i <= |p| - 1
      invariant forall k :: 0 <= k < i ==> Edge(p[k], p[k+1]) != extra
    {
      i := i + 1;
    }
  }

  lemma LastUse(edges: set<Edge>, extra: Edge, p: seq<UnitId>) returns (j: nat)
    requires IsPath(edges + {extra}, p)
    requires !IsPath(edges, p)
    ensures 0 < j < |p| && Edge(p[j-1], p[j]) == extra
    ensures forall k :: j <= k < |p| - 1 ==> Edge(p[k], p[k+1]) != extra
  {
    j := |p| - 1;
    while j > 0 && Edge(p[j-1], p[j]) != extra
      invariant j <= |p| - 1
      invariant forall k :: j <= k < |p| - 1 ==> Edge(p[k], p[k+1]) != extra
    {
      j := j - 1;
    }
    if j == 0 {
      AvoidingPath(edges, extra, p);
    }
  }

  // ---- acyclic graphs

  lemma EmptyIsAcyclic()
    ensures Acyclic({})
  {
    if p :| IsPath({}, p) && |p| >= 2 {
      PathHasEdge({}, p);
    }
  }

  lemma PathHasEdge(edges: set<Edge>, p: seq<UnitId>)
    requires IsPath(edges, p) && |p| >= 2
    ensures edges != {}
  {
    assert Edge(p[0], p[1]) in edges;
  }

  lemma AcyclicFewer(fewer: set<Edge>, more: set<Edge>)
    requires fewer <= more && Acyclic(more)
    ensures Acyclic(fewer)
  {
    forall p | IsPath(fewer, p) && |p| >= 2
      ensures p[0] != p[|p|-1]
    {
      PathInMore(fewer, more, p);
    }
  }

  lemma NoWayBack(edges: set<Edge>, a: UnitId, d: UnitId)
    requires Acyclic(edges) && Reaches(edges, a, d) && Reaches(edges, d, a)
    ensures a == d
  {
    if a != d {
      var p :| Connects(edges, a, d, p);
      var q :| Connects(edges, d, a, q);
      assert |p + q[1..]| >= 2;
      Append(edges, a, d, a, p, q);
    }
  }

  /** The cycle guard is exact: a new edge closes a cycle iff its child already reaches its parent. */
  lemma GuardIsExact(edges: set<Edge>, e: Edge)
    requires Acyclic(edges)
    ensures Acyclic(edges + {e}) <==> !Reaches(edges, e.child, e.parent)
  {
    var more := edges + {e};
    if Reaches(edges, e.child, e.parent) {
      ReachesMore(edges, more, e.child, e.parent);
      var q :| Connects(more, e.child, e.parent, q);
      EdgeReach(more, e.parent, e.child);
      Append(more, e.parent, e.child, e.parent, [e.parent, e.child], q);
      var r := [e.parent, e.child] + q[1..];
      assert IsPath(more, r) && |r| >= 2 && r[0] == r[|r|-1];
    } else {
      forall p | IsPath(more, p) && |p| >= 2
        ensures p[0] != p[|p|-1]
      {
        if p[0] == p[|p|-1] && !IsPath(edges, p) {
          var i, j := SplitAtEdge(edges, e, p);
          Append(edges, e.child, p[0], e.parent, p[j..], p[..i+1]);
        }
      }
    }
  }

  ghost predicate Distinct(p: seq<UnitId>) {
    forall i, j :: 0 <= i < j < |p| ==> p[i] != p[j]
  }

  lemma AcyclicPathDistinct(edges: set<Edge>, p: seq<UnitId>)
    requires Acyclic(edges) && IsPath(edges, p)
    ensures Distinct(p)
  {
    forall i, j | 0 <= i < j < |p|
      ensures p[i] != p[j]
    {
      Cut(edges, p, j);
      var q := p[..j+1];
      Cut(edges, q, i);
      var r := q[i..];
      assert r[0] == p[i] && r[|r|-1] == p[j];
    }
  }

  lemma PathWithinNodes(edges: set<Edge>, p: seq<UnitId>)
    requires IsPath(edges, p) && |p| >= 2
    ensures forall i :: 0 <= i < |p| ==> p[i] in Nodes(edges)
  {
    forall i | 0 <= i < |p|
      ensures p[i] in Nodes(edges)
    {
      if i < |p| - 1 {
        assert Edge(p[i], p[i+1]) in edges;
        assert Edge(p[i], p[i+1]).parent == p[i];
      } else {
        assert Edge(p[i-1], p[i]) in edges;
        assert Edge(p[i-1], p[i]).child == p[i];
      }
    }
  }

  lemma {:induction false} DistinctFits(p: seq<UnitId>, s: set<UnitId>)
    requires Distinct(p)
    requires forall i :: 0 <= i < |p| ==> p[i] in s
    ensures |p| <= |s|
  {
    if |p| == 0 {
    } else {
      var last := p[|p|-1];
      DistinctFits(p[..|p|-1], s - {last});
      assert |s - {last}| == |s| - 1;
    }
  }

  /** Paths of an acyclic graph are no longer than its node count, so every walk over it ends. */
  lemma AcyclicPathBounded(edges: set<Edge>, p: seq<UnitId>)
    requires Acyclic(edges) && IsPath(edges, p)
    ensures |p| <= |Nodes(edges)| + 1
  {
    if |p| >= 2 {
      AcyclicPathDistinct(edges, p);
      PathWithinNodes(edges, p);
      DistinctFits(p, Nodes(edges));
    }
  }
}
