/** What a transaction that no other one meets comes to: each kind of change, begun with the lock free and
    carried through in the code's order, commits and leaves the edges it was asked for. */
module LoneTransactions {
  import opened Paths
  import opened Closure
  import opened GraphRuns
  import opened ConcurrentChanges

  ghost predicate Leads(s: System, t: System) {
    exists states, steps :: Chain(true, states, steps) && states[0] == s && states[|steps|] == t
  }

  lemma LeadsOn(r: System, s: System, i: TxnId, action: Action, t: System)
    requires Leads(r, s) && Step(true, s, i, action, t)
    ensures Leads(r, t)
  {
    var states, steps :| Chain(true, states, steps) && states[0] == r && states[|steps|] == s;
    var more, moreSteps := states + [t], steps + [(i, action)];
    forall n | 0 <= n < |moreSteps|
      ensures Step(true, more[n], moreSteps[n].0, moreSteps[n].1, more[n+1])
    {
      assert n < |steps| ==> more[n] == states[n] && more[n+1] == states[n+1] && moreSteps[n] == steps[n];
    }
    assert Chain(true, more, moreSteps) && more[0] == r && more[|moreSteps|] == t;
  }

  /** Transaction i holds the lock, has finished statement pc, and sees view; nothing else has changed. */
  ghost predicate IsAt(r: System, s: System, i: TxnId, change: Change, pc: Pc, view: GraphState) {
    && Leads(r, s) && s.committed == r.committed && s.lock == {i} && i !in r.txns
    && i in s.txns && s.txns - {i} == r.txns && s.txns[i].change == change && s.txns[i].pc == pc
    && View(s.committed, s.txns[i]) == view
  }

  /** The change may begin: the units it names are not ids that an open transaction is minting, and the one
      it mints itself is new. */
  ghost predicate MayBegin(r: System, change: Change) {
    && NotMinted(r, change.parent) && NotMinted(r, change.child)
    && (change.CreateUnit? ==> NamesFresh(r, change.child) && change.child != change.parent)
  }

  lemma BeginAndLock(r: System, i: TxnId, change: Change) returns (s: System)
    requires r.lock == {} && i !in r.txns && MayBegin(r, change)
    ensures IsAt(r, s, i, change, AtLock, r.committed)
  {
    var t := Txn(change, AtBegin, {}, {}, map[], {});
    var begun := r.(txns := r.txns[i := t]);
    assert Chain(true, [r], []);
    LeadsOn(r, r, i, Begin(change), begun);
    s := begun.(lock := {i}, txns := begun.txns[i := t.(pc := AtLock)]);
    LeadsOn(r, begun, i, TakeLock, s);
    UnwrittenView(r.committed, t);
    assert View(s.committed, s.txns[i]) == View(s.committed, t);
    assert s.txns - {i} == r.txns;
  }

  lemma WriteOn(r: System, s: System, i: TxnId, change: Change, pc: Pc, view: GraphState, action: Action, next: Pc) returns (t: System)
    requires IsAt(r, s, i, change, pc, view)
    requires IsWrite(action, next) && Follows(change, pc, next) && Enabled(change, action, view)
    ensures IsAt(r, t, i, change, next, Effect(change, action, view))
  {
    var w := Wrote(s.txns[i], next, view, Effect(change, action, view));
    t := s.(txns := s.txns[i := w]);
    WroteShows(s.committed, s.txns[i], next, Effect(change, action, view));
    assert Writes(s, i, action, next, t);
    WritingStep(s, i, action, next, t);
    LeadsOn(r, s, i, action, t);
    assert t.txns - {i} == s.txns - {i};
  }

  lemma WritingStep(s: System, i: TxnId, action: Action, next: Pc, t: System)
    requires Writes(s, i, action, next, t)
    ensures Step(true, s, i, action, t)
  {}

  lemma GuardOn(r: System, s: System, i: TxnId, change: Change, view: GraphState) returns (t: System)
    requires IsAt(r, s, i, change, AtLock, view) && change.Attach?
    requires change.parent != change.child && (change.child, change.parent) !in view.closure
    ensures IsAt(r, t, i, change, AtGuard, view)
  {
    t := s.(txns := s.txns[i := s.txns[i].(pc := AtGuard)]);
    assert View(t.committed, t.txns[i]) == View(s.committed, s.txns[i]);
    LeadsOn(r, s, i, Guard, t);
    assert t.txns - {i} == s.txns - {i};
  }

  lemma CommitOn(r: System, s: System, i: TxnId, change: Change, pc: Pc, view: GraphState)
    requires IsAt(r, s, i, change, pc, view) && MayCommit(s.txns[i], view)
    ensures Leads(r, System(view, {}, r.txns))
  {
    var t := System(view, s.lock - {i}, s.txns - {i});
    assert t == System(view, {}, r.txns);
    LeadsOn(r, s, i, Commit, t);
  }

  /** A creation commits, */
  lemma CreateCommits(r: System, i: TxnId, parent: UnitId, child: UnitId) returns (t: System)
    requires r.lock == {} && i !in r.txns && MayBegin(r, CreateUnit(parent, child))
    ensures Leads(r, t) && t.lock == {} && t.txns == r.txns
    ensures t.committed.edges == r.committed.edges + {Edge(parent, child)}
  {
    var c, v := CreateUnit(parent, child), r.committed;
    var s := BeginAndLock(r, i, c);
    assert forall e :: e in v.edges ==> e.child in Nodes(v.edges);
    assert Edge(parent, child).child == child;
    s := WriteOn(r, s, i, c, AtLock, v, Seed, AtSeed);
    v := Effect(c, Seed, v);
    s := WriteOn(r, s, i, c, AtSeed, v, Extend, AtExtend);
    v := Effect(c, Extend, v);
    s := WriteOn(r, s, i, c, AtExtend, v, InsertEdge, AtInsert);
    v := Effect(c, InsertEdge, v);
    CommitOn(r, s, i, c, AtInsert, v);
    t := System(v, {}, r.txns);
  }

  /** an attach commits when it closes no cycle and its edge is not stored, */
  lemma AttachCommits(r: System, i: TxnId, parent: UnitId, child: UnitId) returns (t: System)
    requires r.lock == {} && i !in r.txns && MayBegin(r, Attach(parent, child)) && Sound(r.committed)
    requires !Reaches(r.committed.edges, child, parent) && Edge(parent, child) !in r.committed.edges
    ensures Leads(r, t) && t.lock == {} && t.txns == r.txns
    ensures t.committed.edges == r.committed.edges + {Edge(parent, child)}
  {
    var c, v := Attach(parent, child), r.committed;
    SelfReach(v.edges, child);
    var s := BeginAndLock(r, i, c);
    s := GuardOn(r, s, i, c, v);
    s := WriteOn(r, s, i, c, AtGuard, v, InsertEdge, AtInsert);
    v := Effect(c, InsertEdge, v);
    s := WriteOn(r, s, i, c, AtInsert, v, Seed, AtSeed);
    v := Effect(c, Seed, v);
    s := WriteOn(r, s, i, c, AtSeed, v, Extend, AtExtend);
    v := Effect(c, Extend, v);
    CommitOn(r, s, i, c, AtExtend, v);
    t := System(v, {}, r.txns);
  }

  /** and a detach always does. */
  lemma DetachCommits(r: System, i: TxnId, parent: UnitId, child: UnitId) returns (t: System)
    requires r.lock == {} && i !in r.txns && MayBegin(r, Detach(parent, child))
    ensures Leads(r, t) && t.lock == {} && t.txns == r.txns
    ensures t.committed.edges == r.committed.edges - {Edge(parent, child)}
    ensures Edge(parent, child) !in r.committed.edges ==> t == r
  {
    var c, v := Detach(parent, child), r.committed;
    var s := BeginAndLock(r, i, c);
    if Edge(parent, child) !in v.edges {
      CommitOn(r, s, i, c, AtLock, v);
    } else {
      s := WriteOn(r, s, i, c, AtLock, v, DeleteEdge, AtDelete);
      v := Effect(c, DeleteEdge, v);
      s := WriteOn(r, s, i, c, AtDelete, v, DeleteSlice, AtSlice);
      v := Effect(c, DeleteSlice, v);
      var out := RederivedExists(v.edges, v.closure, parent, child);
      s := WriteOn(r, s, i, c, AtSlice, v, Rederive(out), AtRederive);
      v := Effect(c, Rederive(out), v);
      s := WriteOn(r, s, i, c, AtRederive, v, Prune, AtPrune);
      v := Effect(c, Prune, v);
      CommitOn(r, s, i, c, AtPrune, v);
    }
    t := System(v, {}, r.txns);
  }

  // ---- the rows to insert exist

  lemma {:induction false} LeastProposal(edges: set<Edge>, rows: Rows, anc: set<UnitId>, dsc: set<UnitId>, a: UnitId, d: UnitId, w: seq<UnitId>)
    requires Proposes(edges, rows, anc, dsc, a, d, w)
    ensures exists least :: IsLeast(edges, rows, anc, dsc, a, d, least)
    decreases ProposedDepth(rows, d, w)
  {
    if x :| Proposes(edges, rows, anc, dsc, a, d, x) && ProposedDepth(rows, d, x) < ProposedDepth(rows, d, w) {
      LeastProposal(edges, rows, anc, dsc, a, d, x);
    } else {
      assert IsLeast(edges, rows, anc, dsc, a, d, w);
    }
  }

  ghost predicate IsLeast(edges: set<Edge>, rows: Rows, anc: set<UnitId>, dsc: set<UnitId>, a: UnitId, d: UnitId, w: seq<UnitId>) {
    && Proposes(edges, rows, anc, dsc, a, d, w)
    && forall x :: Proposes(edges, rows, anc, dsc, a, d, x) ==> ProposedDepth(rows, d, w) <= ProposedDepth(rows, d, x)
  }

  ghost predicate IsProposedPair(edges: set<Edge>, rows: Rows, anc: set<UnitId>, dsc: set<UnitId>, k: Pair) {
    exists w :: Proposes(edges, rows, anc, dsc, k.0, k.1, w)
  }

  ghost function LeastDepth(edges: set<Edge>, rows: Rows, anc: set<UnitId>, dsc: set<UnitId>, k: Pair): nat
    requires IsProposedPair(edges, rows, anc, dsc, k)
  {
    var w :| Proposes(edges, rows, anc, dsc, k.0, k.1, w);
    LeastProposal(edges, rows, anc, dsc, k.0, k.1, w);
    var least :| IsLeast(edges, rows, anc, dsc, k.0, k.1, least);
    ProposedDepth(rows, k.1, least)
  }

  lemma RederivedExists(edges: set<Edge>, rows: Rows, parent: UnitId, child: UnitId) returns (out: Rows)
    ensures IsRederived(edges, rows, parent, child, out)
  {
    var anc, dsc := SliceAncestors(rows, parent), SliceDescendants(rows, child);
    out := map k | k in Product(anc, dsc) && IsProposedPair(edges, rows, anc, dsc, k) :: LeastDepth(edges, rows, anc, dsc, k);
    forall a, d, w | Proposes(edges, rows, anc, dsc, a, d, w)
      ensures (a, d) in out && out[(a, d)] <= ProposedDepth(rows, d, w)
    {
      assert IsProposedPair(edges, rows, anc, dsc, (a, d)) && (a, d) in Product(anc, dsc);
    }
    forall a, d | (a, d) in out
      ensures exists w :: Proposes(edges, rows, anc, dsc, a, d, w) && out[(a, d)] == ProposedDepth(rows, d, w)
    {}
  }
}
