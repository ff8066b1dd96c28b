/** The recursive queries behind re-derivation, rebuild and verify: rounds of a working table that
    follows edges out of a fixed set of units, and the least depth they find. */
module RecursiveWalk {
  import opened Paths
  import opened Closure

  /** The working table after n rounds: (start, node reached), going on only from nodes in anc. */
  function Round(edges: set<Edge>, anc: set<UnitId>, n: nat): set<Pair> {
    if n == 0 then set a | a in anc :: (a, a) else NextRound(edges, anc, Round(edges, anc, n - 1))
  }

  function NextRound(edges: set<Edge>, anc: set<UnitId>, table: set<Pair>): set<Pair> {
    set k, e | k in table && k.1 in anc && e in edges && e.parent == k.1 :: (k.0, e.child)
  }

  lemma LongerWalk(edges: set<Edge>, anc: set<UnitId>, w: seq<UnitId>, x: UnitId)
    requires IsWalk(edges, anc, w) && w[|w|-1] in anc && Edge(w[|w|-1], x) in edges
    ensures IsWalk(edges, anc, w + [x])
  {
    var v := w + [x];
    forall i | 0 <= i < |v| - 1
      ensures Edge(v[i], v[i+1]) in edges && v[i] in anc
    {
      if i < |w| - 1 {
        assert v[i] == w[i] && v[i+1] == w[i+1];
      }
    }
  }

  /** Every entry of a round is the end of a walk, */
  lemma {:induction false} RoundHasWalk(edges: set<Edge>, anc: set<UnitId>, n: nat, a: UnitId, x: UnitId)
    returns (w: seq<UnitId>)
    requires (a, x) in Round(edges, anc, n)
    ensures IsWalk(edges, anc, w) && |w| == n + 1 && w[0] == a && w[n] == x
    decreases n
  {
    if n == 0 {
      w := [a];
    } else {
      var k, e :| k in Round(edges, anc, n - 1) && k.1 in anc && e in edges && e.parent == k.1 && (a, x) == (k.0, e.child);
      var v := RoundHasWalk(edges, anc, n - 1, k.0, k.1);
      assert e == Edge(k.1, x);
      LongerWalk(edges, anc, v, x);
      w := v + [x];
    }
  }

  /** and every walk is listed in the round of its length. */
  lemma {:induction false} WalkIsInRound(edges: set<Edge>, anc: set<UnitId>, w: seq<UnitId>)
    requires IsWalk(edges, anc, w)
    ensures (w[0], w[|w|-1]) in Round(edges, anc, |w| - 1)
    decreases |w|
  {
    var n := |w| - 1;
    if n == 0 {
      var a := w[0];
      assert (a, a) in (set x | x in anc :: (x, x));
    } else {
      var v := w[..n];
      assert IsWalk(edges, anc, v);
      WalkIsInRound(edges, anc, v);
      var k, e := (w[0], w[n-1]), Edge(w[n-1], w[n]);
      assert k in Round(edges, anc, n - 1) && e in edges && k.1 in anc && e.parent == k.1;
      assert (k.0, e.child) in NextRound(edges, anc, Round(edges, anc, n - 1));
      assert Round(edges, anc, n) == NextRound(edges, anc, Round(edges, anc, n - 1));
    }
  }

  /** Over an acyclic graph the rounds run dry. */
  lemma RoundsEnd(edges: set<Edge>, anc: set<UnitId>, n: nat)
    requires Acyclic(edges) && n > |Nodes(edges)|
    ensures Round(edges, anc, n) == {}
  {
    if k :| k in Round(edges, anc, n) {
      var w := RoundHasWalk(edges, anc, n, k.0, k.1);
      AcyclicPathBounded(edges, w);
    }
  }

  lemma LastRound(edges: set<Edge>, anc: set<UnitId>) returns (last: nat)
    requires Acyclic(edges)
    ensures forall n: nat :: n >= last ==> Round(edges, anc, n) == {}
  {
    last := |Nodes(edges)| + 1;
    forall n: nat | n >= last
      ensures Round(edges, anc, n) == {}
    {
      RoundsEnd(edges, anc, n);
    }
  }

  lemma DryStaysDry(edges: set<Edge>, anc: set<UnitId>, n: nat, m: nat)
    requires Round(edges, anc, n) == {} && n <= m
    ensures Round(edges, anc, m) == {}
    decreases m
  {
    if n == m {
    } else {
      DryStaysDry(edges, anc, n, m - 1);
    }
  }

  // ---- GROUP BY with min(depth)

  /** Keeps the lesser depth where both have a row. */
  function LeastOf(r1: Rows, r2: Rows): Rows {
    map k | k in r1.Keys + r2.Keys ::
      if k !in r1 then r2[k] else if k in r2 && r2[k] <= r1[k] then r2[k] else r1[k]
  }

  /** The depth comes from an entry of round n that has left anc, and a surviving row below it. */
  ghost predicate IsJoined(rows: Rows, anc: set<UnitId>, dsc: set<UnitId>, n: nat, table: set<Pair>, k: Pair, depth: nat) {
    exists x :: (k.0, x) in table && x !in anc && k.1 in dsc && (x, k.1) in rows && depth == n + rows[(x, k.1)]
  }

  /** found is the least depth of each pair that round n joins to the surviving rows. */
  ghost predicate IsJoin(rows: Rows, anc: set<UnitId>, dsc: set<UnitId>, n: nat, table: set<Pair>, found: Rows) {
    && (forall a, x, d :: (a, x) in table && x !in anc && d in dsc && (x, d) in rows ==>
          (a, d) in found && found[(a, d)] <= n + rows[(x, d)])
    && (forall k :: k in found ==> IsJoined(rows, anc, dsc, n, table, k, found[k]))
  }

  /** The join of the one entry k. */
  function EntryRows(rows: Rows, dsc: set<UnitId>, n: nat, k: Pair): Rows {
    map p | p in Product({k.0}, DescendantsOf(rows, k.1) * dsc) :: n + rows[(k.1, p.1)]
  }

  lemma JoinOneMore(rows: Rows, anc: set<UnitId>, dsc: set<UnitId>, n: nat, table: set<Pair>, found: Rows, k: Pair)
    requires IsJoin(rows, anc, dsc, n, table, found)
    ensures IsJoin(rows, anc, dsc, n, table + {k}, if k.1 in anc then found else LeastOf(found, EntryRows(rows, dsc, n, k)))
  {
    var out := if k.1 in anc then found else LeastOf(found, EntryRows(rows, dsc, n, k));
    forall p | p in out
      ensures IsJoined(rows, anc, dsc, n, table + {k}, p, out[p])
    {
      if p in found && out[p] == found[p] {
        var x :| (p.0, x) in table && x !in anc && p.1 in dsc && (x, p.1) in rows && found[p] == n + rows[(x, p.1)];
        assert (p.0, x) in table + {k};
      } else {
        assert (p.0, k.1) in table + {k};
      }
    }
  }

  ghost predicate IsProposed(edges: set<Edge>, rows: Rows, anc: set<UnitId>, dsc: set<UnitId>, k: Pair, depth: nat) {
    exists w :: Proposes(edges, rows, anc, dsc, k.0, k.1, w) && ProposedDepth(rows, k.1, w) == depth
  }

  /** pairs is the least depth of each pair proposed in the first n rounds. */
  ghost predicate LeastProposed(edges: set<Edge>, rows: Rows, anc: set<UnitId>, dsc: set<UnitId>, n: nat, pairs: Rows) {
    && (forall a, d, w :: Proposes(edges, rows, anc, dsc, a, d, w) && |w| <= n ==>
          (a, d) in pairs && pairs[(a, d)] <= ProposedDepth(rows, d, w))
    && (forall k :: k in pairs ==> IsProposed(edges, rows, anc, dsc, k, pairs[k]))
  }

  lemma JoinedIsProposed(edges: set<Edge>, rows: Rows, anc: set<UnitId>, dsc: set<UnitId>, n: nat, k: Pair, depth: nat)
    requires IsJoined(rows, anc, dsc, n, Round(edges, anc, n), k, depth)
    ensures IsProposed(edges, rows, anc, dsc, k, depth)
  {
    var x :| (k.0, x) in Round(edges, anc, n) && x !in anc && k.1 in dsc && (x, k.1) in rows && depth == n + rows[(x, k.1)];
    var w := RoundHasWalk(edges, anc, n, k.0, x);
    assert Proposes(edges, rows, anc, dsc, k.0, k.1, w);
  }

  lemma ProposedOneMore(edges: set<Edge>, rows: Rows, anc: set<UnitId>, dsc: set<UnitId>, n: nat, pairs: Rows,
                        table: set<Pair>, found: Rows)
    requires LeastProposed(edges, rows, anc, dsc, n, pairs)
    requires table == Round(edges, anc, n) && IsJoin(rows, anc, dsc, n, table, found)
    ensures LeastProposed(edges, rows, anc, dsc, n + 1, LeastOf(pairs, found))
  {
    var out := LeastOf(pairs, found);
    forall a, d, w | Proposes(edges, rows, anc, dsc, a, d, w) && |w| <= n + 1
      ensures (a, d) in out && out[(a, d)] <= ProposedDepth(rows, d, w)
    {
      if |w| == n + 1 {
        WalkIsInRound(edges, anc, w);
        assert (a, w[n]) in table;
      }
    }
    forall k | k in out
      ensures IsProposed(edges, rows, anc, dsc, k, out[k])
    {
      if k !in pairs || out[k] != pairs[k] {
        JoinedIsProposed(edges, rows, anc, dsc, n, k, out[k]);
      }
    }
  }

  /** Once the rounds have run dry, these are exactly the rows re-derivation inserts. */
  lemma DryIsRederived(edges: set<Edge>, rows: Rows, parent: UnitId, child: UnitId, n: nat, pairs: Rows)
    requires Round(edges, SliceAncestors(rows, parent), n) == {}
    requires LeastProposed(edges, rows, SliceAncestors(rows, parent), SliceDescendants(rows, child), n, pairs)
    ensures IsRederived(edges, rows, parent, child, pairs)
  {
    var anc, dsc := SliceAncestors(rows, parent), SliceDescendants(rows, child);
    forall a, d, w | Proposes(edges, rows, anc, dsc, a, d, w)
      ensures |w| <= n
    {
      if |w| > n {
        DryStaysDry(edges, anc, n, |w| - 1);
        WalkIsInRound(edges, anc, w);
      }
    }
    forall a, d | (a, d) in pairs
      ensures exists w :: Proposes(edges, rows, anc, dsc, a, d, w) && pairs[(a, d)] == ProposedDepth(rows, d, w)
    {
      assert IsProposed(edges, rows, anc, dsc, (a, d), pairs[(a, d)]);
    }
  }

  // ---- the from-scratch query

  /** The working table of the rebuild and verify queries after n rounds, from every node. */
  function ReachRound(edges: set<Edge>, n: nat): set<Pair> {
    if n == 0 then set u | u in Nodes(edges) :: (u, u) else NextReach(edges, ReachRound(edges, n - 1))
  }

  function NextReach(edges: set<Edge>, table: set<Pair>): set<Pair> {
    set k, e | k in table && e in edges && e.parent == k.1 :: (k.0, e.child)
  }

  lemma OneEdgeMore(edges: set<Edge>, a: UnitId, x: UnitId, n: nat)
    ensures ReachesIn(edges, a, x, n + 1) <==> exists m :: ReachesIn(edges, a, m, n) && Edge(m, x) in edges
  {
    if ReachesIn(edges, a, x, n + 1) {
      var p :| Connects(edges, a, x, p) && |p| == n + 2;
      Cut(edges, p, n);
      assert |p[..n+1]| == n + 1;
      assert ReachesIn(edges, a, p[n], n);
      assert Edge(p[n], p[n+1]) in edges;
    }
    if m :| ReachesIn(edges, a, m, n) && Edge(m, x) in edges {
      EdgeReach(edges, m, x);
      ReachesInAdds(edges, a, m, x, n, 1);
    }
  }

  /** The rounds list the pairs n edges apart. */
  lemma {:induction false} RoundIsReach(edges: set<Edge>, n: nat, a: UnitId, x: UnitId)
    ensures (a, x) in ReachRound(edges, n) <==> a in Nodes(edges) && ReachesIn(edges, a, x, n)
    decreases n
  {
    if n == 0 {
      SelfReach(edges, a);
    } else {
      OneEdgeMore(edges, a, x, n - 1);
      var table := ReachRound(edges, n - 1);
      if (a, x) in ReachRound(edges, n) {
        var k, e :| k in table && e in edges && e.parent == k.1 && (a, x) == (k.0, e.child);
        RoundIsReach(edges, n - 1, a, k.1);
        assert e == Edge(k.1, x);
      }
      if a in Nodes(edges) && ReachesIn(edges, a, x, n) {
        var m :| ReachesIn(edges, a, m, n - 1) && Edge(m, x) in edges;
        RoundIsReach(edges, n - 1, a, m);
        assert (a, m) in table;
        assert (a, Edge(m, x).child) in NextReach(edges, table);
      }
    }
  }

  lemma ReachRoundsEnd(edges: set<Edge>, n: nat)
    requires Acyclic(edges) && n > |Nodes(edges)|
    ensures ReachRound(edges, n) == {}
  {
    if k :| k in ReachRound(edges, n) {
      RoundIsReach(edges, n, k.0, k.1);
      var p :| Connects(edges, k.0, k.1, p) && |p| == n + 1;
      AcyclicPathBounded(edges, p);
    }
  }

  lemma ReachStaysDry(edges: set<Edge>, n: nat, m: nat)
    requires ReachRound(edges, n) == {} && n <= m
    ensures ReachRound(edges, m) == {}
    decreases m
  {
    if n == m {
    } else {
      ReachStaysDry(edges, n, m - 1);
    }
  }

  /** Keeps the depth a pair was first found at. */
  function FoundAt(table: set<Pair>, n: nat, rows: Rows): Rows {
    (map k | k in table :: n) + rows
  }

  /** The rows found in the first n rounds, each at the round that first found it. */
  function FoundBefore(edges: set<Edge>, n: nat): Rows {
    if n == 0 then map[] else FoundAt(ReachRound(edges, n - 1), n - 1, FoundBefore(edges, n - 1))
  }

  ghost predicate ReachesWithin(edges: set<Edge>, a: UnitId, d: UnitId, n: nat) {
    exists m: nat :: m < n && ReachesIn(edges, a, d, m)
  }

  lemma OneMoreWithin(edges: set<Edge>, a: UnitId, d: UnitId, n: nat)
    ensures ReachesWithin(edges, a, d, n + 1) <==> ReachesWithin(edges, a, d, n) || ReachesIn(edges, a, d, n)
  {}

  lemma FirstReached(edges: set<Edge>, a: UnitId, d: UnitId, n: nat)
    requires ReachesIn(edges, a, d, n) && !ReachesWithin(edges, a, d, n)
    ensures IsShortest(edges, a, d, n)
  {}

  /** rows holds the pairs less than n edges apart, at their distance. */
  ghost predicate IsFound(edges: set<Edge>, rows: Rows, n: nat, a: UnitId, d: UnitId) {
    && ((a, d) in rows <==> a in Nodes(edges) && ReachesWithin(edges, a, d, n))
    && ((a, d) in rows ==> IsShortest(edges, a, d, rows[(a, d)]))
  }

  lemma FoundOneMore(edges: set<Edge>, rows: Rows, n: nat, a: UnitId, d: UnitId)
    requires n > 0 && IsFound(edges, rows, n - 1, a, d)
    ensures IsFound(edges, FoundAt(ReachRound(edges, n - 1), n - 1, rows), n, a, d)
  {
    RoundIsReach(edges, n - 1, a, d);
    OneMoreWithin(edges, a, d, n - 1);
    if (a, d) !in rows && (a, d) in ReachRound(edges, n - 1) {
      FirstReached(edges, a, d, n - 1);
    }
  }

  lemma NoneFoundYet(edges: set<Edge>, a: UnitId, d: UnitId)
    ensures IsFound(edges, map[], 0, a, d)
  {}

  lemma {:induction false} FoundRows(edges: set<Edge>, n: nat, a: UnitId, d: UnitId)
    ensures IsFound(edges, FoundBefore(edges, n), n, a, d)
  {
    if n == 0 {
      NoneFoundYet(edges, a, d);
    } else {
      FoundRows(edges, n - 1, a, d);
      FoundOneMore(edges, FoundBefore(edges, n - 1), n, a, d);
    }
  }

  lemma DryIsExact(edges: set<Edge>, n: nat)
    requires ReachRound(edges, n) == {}
    ensures Exact(edges, FoundBefore(edges, n))
  {
    var rows := FoundBefore(edges, n);
    forall a, d | (a, d) in rows
      ensures a in Nodes(edges) && ReachesIn(edges, a, d, rows[(a, d)])
    {
      FoundRows(edges, n, a, d);
    }
    forall a, d, m: nat | a in Nodes(edges) && ReachesIn(edges, a, d, m)
      ensures (a, d) in rows && rows[(a, d)] <= m
    {
      RoundIsReach(edges, m, a, d);
      if m >= n { ReachStaysDry(edges, n, m); }
      FoundRows(edges, n, a, d);
      assert ReachesWithin(edges, a, d, n);
    }
    BothBounds(edges, rows);
  }
}
