/** The policy decision point: one pass over a subject's active grants, with the directory closure
    behind a port that may fail. */
module Pdp {
  import opened Paths
  import opened Closure

  type Permission = string

  datatype Rid = R(id: int)  // an opaque row id

  datatype GraphId = NoGraph | G(id: int)  // unit-scoped grants carry no graph

  // The scope column is text; Decide's switch ignores any other value.
  datatype Scope = ScopeUnit | ScopeSubtree | OtherScope(code: string)

  datatype ActiveGrant = ActiveGrant(
    assignmentId: Rid, roleId: Rid, roleCode: string, target: UnitId, scope: Scope,
    graph: GraphId, graphCode: string, perms: set<Permission>)

  datatype Contribution =
    | InstanceAdminPlane
    | ByAssignment(assignmentId: Rid, roleCode: string, target: UnitId, scope: Scope, graphCode: string)

  datatype Decision = Decision(allow: bool, via: seq<Contribution>, denyReason: string)

  datatype Result<T> = Ok(value: T) | Err(error: string)

  datatype Reply = Said(yes: bool) | Failed(error: string)

  /** The two questions the PDP asks the directory. */
  datatype Port = Port(bearing: GraphId -> Reply, ancestorOrSelf: (GraphId, UnitId, UnitId) -> Reply)

  datatype Input = Input(grants: seq<ActiveGrant>, isInstanceAdmin: bool, action: Permission, unit: UnitId, explain: bool)

  const INSTANCE_SCOPE: set<Permission> := {"instance.admin.manage", "role.create", "role.update", "role.delete"}
  const NOT_ADMIN := "action is instance-scope and the subject is not an instance admin"
  const NOT_IN_SET := "the requested permission is not in the subject's effective set for this unit"

  predicate IsInstanceScope(code: Permission) {
    code in INSTANCE_SCOPE
  }

  function ContributionOf(g: ActiveGrant): Contribution {
    ByAssignment(g.assignmentId, g.roleCode, g.target, g.scope, g.graphCode)
  }

  function Allow(explain: bool, c: Contribution): Decision {
    Decision(true, if explain then [c] else [], "")
  }

  function Deny(explain: bool, reason: string): Decision {
    Decision(false, [], if explain then reason else "")
  }

  /** Whether one grant carries the action and reaches the unit, or the port's error on the way. */
  function Outcome(port: Port, g: ActiveGrant, action: Permission, unit: UnitId): Reply {
    if action !in g.perms then Said(false)
    else match g.scope
      case ScopeUnit => Said(g.target == unit)
      case ScopeSubtree =>
        (match port.bearing(g.graph)
         case Failed(e) => Failed(e)
         case Said(b) =>
           if !b then Said(false)
           else if g.target == unit then Said(true)
           else port.ancestorOrSelf(g.graph, g.target, unit))
      case OtherScope(_) => Said(false)
  }

  /** Fast mode: the first grant that settles the question, in order. */
  function Verdict(port: Port, grants: seq<ActiveGrant>, action: Permission, unit: UnitId): Reply {
    if grants == [] then Said(false)
    else
      var o := Outcome(port, grants[0], action, unit);
      if o == Said(false) then Verdict(port, grants[1..], action, unit) else o
  }

  /** Explain mode: every contribution, in order, or the first error. */
  function Explanation(port: Port, grants: seq<ActiveGrant>, action: Permission, unit: UnitId): Result<seq<Contribution>> {
    if grants == [] then Ok([])
    else
      var n := |grants| - 1;
      match Explanation(port, grants[..n], action, unit)
      case Err(e) => Err(e)
      case Ok(via) =>
        match Outcome(port, grants[n], action, unit)
        case Failed(e) => Err(e)
        case Said(yes) => Ok(if yes then via + [ContributionOf(grants[n])] else via)
  }

  /** The whole answer. */
  function Answer(port: Port, input: Input): Result<Decision> {
    if input.isInstanceAdmin then Ok(Allow(input.explain, InstanceAdminPlane))
    else if IsInstanceScope(input.action) then Ok(Deny(input.explain, NOT_ADMIN))
    else if input.explain then
      match Explanation(port, input.grants, input.action, input.unit)
      case Err(e) => Err(e)
      case Ok(via) => Ok(if via != [] then Decision(true, via, "") else Deny(true, NOT_IN_SET))
    else
      match Verdict(port, input.grants, input.action, input.unit)
      case Failed(e) => Err(e)
      case Said(yes) => Ok(if yes then Allow(false, InstanceAdminPlane) else Deny(false, NOT_IN_SET))
  }

  /** Decide, with its memo of graph flags and its early exit. */
  method Decide(port: Port, input: Input) returns (r: Result<Decision>)
    ensures r == Answer(port, input)
  {
    if input.isInstanceAdmin {
      return Ok(Allow(input.explain, InstanceAdminPlane));
    }
    if IsInstanceScope(input.action) {
      return Ok(Deny(input.explain, NOT_ADMIN));
    }
    var grants, action, unit := input.grants, input.action, input.unit;
    var authority: map<GraphId, bool> := map[];
    var via: seq<Contribution> := [];
    for i := 0 to |grants|
      invariant forall g :: g in authority ==> port.bearing(g) == Said(authority[g])
      invariant input.explain ==> Explanation(port, grants[..i], action, unit) == Ok(via)
      invariant !input.explain ==> via == [] && Verdict(port, grants, action, unit) == Verdict(port, grants[i..], action, unit)
    {
      var g := grants[i];
      assert grants[..i+1][..i] == grants[..i];
      assert grants[i..][0] == g && grants[i..][1..] == grants[i+1..];
      if action !in g.perms {
        continue;
      }
      match g.scope
      case ScopeUnit =>
        if g.target == unit {
          if !input.explain {
            return Ok(Allow(false, InstanceAdminPlane));
          }
          via := via + [ContributionOf(g)];
        }
      case ScopeSubtree =>
        var bearing: bool;
        if g.graph in authority {
          bearing := authority[g.graph];
        } else {
          var b := port.bearing(g.graph);
          if b.Failed? {
            ErrorStops(port, grants, i, action, unit, b.error);
            return Err(b.error);
          }
          bearing := b.yes;
          authority := authority[g.graph := bearing];
        }
        if !bearing {
          continue;
        }
        var reaches := g.target == unit;
        if !reaches {
          var b := port.ancestorOrSelf(g.graph, g.target, unit);
          if b.Failed? {
            ErrorStops(port, grants, i, action, unit, b.error);
            return Err(b.error);
          }
          reaches := b.yes;
        }
        if reaches {
          if !input.explain {
            return Ok(Allow(false, InstanceAdminPlane));
          }
          via := via + [ContributionOf(g)];
        }
      case OtherScope(_) =>
    }
    assert grants[..|grants|] == grants;
    if |via| > 0 {
      return Ok(Decision(true, via, ""));
    }
    r := Ok(Deny(input.explain, NOT_IN_SET));
  }

  /** A port error at grant i, after a clean prefix, is the answer of explain mode. */
  lemma ErrorStops(port: Port, grants: seq<ActiveGrant>, i: nat, action: Permission, unit: UnitId, e: string)
    requires i < |grants| && Outcome(port, grants[i], action, unit) == Failed(e)
    ensures Explanation(port, grants[..i], action, unit).Ok? ==> Explanation(port, grants, action, unit) == Err(e)
  {
    if Explanation(port, grants[..i], action, unit).Ok? {
      assert grants[..i+1][..i] == grants[..i];
      ErrorStays(port, grants, i + 1, action, unit, e);
    }
  }

  lemma {:induction false} ErrorStays(port: Port, grants: seq<ActiveGrant>, i: nat, action: Permission, unit: UnitId,
                                      e: string)
    requires i <= |grants| && Explanation(port, grants[..i], action, unit) == Err(e)
    ensures Explanation(port, grants, action, unit) == Err(e)
    decreases |grants| - i
  {
    if i == |grants| {
      assert grants[..i] == grants;
    } else {
      assert grants[..i+1][..i] == grants[..i];
      ErrorStays(port, grants, i + 1, action, unit, e);
    }
  }

  /** Everyone's answer but that of a port that fails: an admin is allowed everything on the admin plane;
      anyone else is denied the four actions on the instance, whatever the grants, and any other action
      exactly when no contribution is cited. Reasons and citations are given in explain mode only. */
  lemma AnswerMeans(port: Port, input: Input)
    ensures input.isInstanceAdmin ==> Answer(port, input) == Ok(Decision(true, if input.explain then [InstanceAdminPlane] else [], ""))
    ensures !input.isInstanceAdmin && input.action in {"instance.admin.manage", "role.create", "role.update", "role.delete"} ==>
              Answer(port, input) ==
                Ok(Decision(false, [], if input.explain then "action is instance-scope and the subject is not an instance admin" else ""))
    ensures !input.isInstanceAdmin && input.action !in {"instance.admin.manage", "role.create", "role.update", "role.delete"} ==>
              match Answer(port, input)
              case Err(e) => exists i :: FailsAt(port, input.grants, input.action, input.unit, i, e)
              case Ok(d) =>
                && (input.explain ==> (d.allow <==> d.via != []) && InstanceAdminPlane !in d.via)
                && (!input.explain ==> d.via == [])
                && (d.denyReason == if d.allow || !input.explain then "" else "the requested permission is not in the subject's effective set for this unit")
  {
    if !input.isInstanceAdmin && !IsInstanceScope(input.action) {
      if input.explain {
        if Explanation(port, input.grants, input.action, input.unit).Err? {
          var n := ExplanationFails(port, input.grants, input.action, input.unit);
          OutcomeFails(port, input.grants, input.action, input.unit, n);
        } else {
          var at := ViaIsContributions(port, input.grants, input.action, input.unit);
        }
      } else {
        var n := VerdictIsFirst(port, input.grants, input.action, input.unit);
        if n < |input.grants| { OutcomeFails(port, input.grants, input.action, input.unit, n); }
      }
    }
  }

  /** The port fails on the i-th grant: it is asked whether the graph bears authority only for a subtree
      grant with the action, and for the rest only if it does and the unit is not the target itself. */
  predicate FailsAt(port: Port, grants: seq<ActiveGrant>, action: Permission, unit: UnitId, i: int, e: string) {
    && 0 <= i < |grants| && action in grants[i].perms && grants[i].scope == ScopeSubtree
    && (|| port.bearing(grants[i].graph) == Failed(e)
        || (&& port.bearing(grants[i].graph) == Said(true) && grants[i].target != unit
            && port.ancestorOrSelf(grants[i].graph, grants[i].target, unit) == Failed(e)))
  }

  lemma OutcomeFails(port: Port, grants: seq<ActiveGrant>, action: Permission, unit: UnitId, i: nat)
    requires i < |grants|
    ensures forall e :: Outcome(port, grants[i], action, unit) == Failed(e) <==> FailsAt(port, grants, action, unit, i, e)
  {}

  /** Explain mode fails exactly on the first grant the port fails on. */
  lemma {:induction false} ExplanationFails(port: Port, grants: seq<ActiveGrant>, action: Permission, unit: UnitId) returns (n: nat)
    ensures n <= |grants| && forall k :: 0 <= k < n ==> Outcome(port, grants[k], action, unit).Said?
    ensures match Explanation(port, grants, action, unit)
            case Err(e) => n < |grants| && Outcome(port, grants[n], action, unit) == Failed(e)
            case Ok(_) => n == |grants|
    decreases |grants|
  {
    if grants == [] {
      n := 0;
    } else {
      n := ExplanationFails(port, grants[..|grants|-1], action, unit);
      if n == |grants| - 1 && Outcome(port, grants[n], action, unit).Said? {
        n := n + 1;
      }
    }
  }

  /** Fast mode stops at the first grant that contributes or that the port fails on. */
  lemma {:induction false} VerdictIsFirst(port: Port, grants: seq<ActiveGrant>, action: Permission, unit: UnitId) returns (n: nat)
    ensures n <= |grants| && forall k :: 0 <= k < n ==> Outcome(port, grants[k], action, unit) == Said(false)
    ensures Verdict(port, grants, action, unit) == if n < |grants| then Outcome(port, grants[n], action, unit) else Said(false)
    ensures n < |grants| ==> Outcome(port, grants[n], action, unit) != Said(false)
    decreases |grants|
  {
    if grants == [] || Outcome(port, grants[0], action, unit) != Said(false) {
      n := 0;
    } else {
      n := VerdictIsFirst(port, grants[1..], action, unit);
      n := n + 1;
    }
  }

  // ---- what the answer means

  ghost predicate Total(port: Port) {
    (forall g :: port.bearing(g).Said?) && (forall g, a, d :: port.ancestorOrSelf(g, a, d).Said?)
  }

  predicate Contributes(port: Port, g: ActiveGrant, action: Permission, unit: UnitId) {
    Outcome(port, g, action, unit) == Said(true)
  }

  lemma TotalOutcome(port: Port, g: ActiveGrant, action: Permission, unit: UnitId)
    requires Total(port)
    ensures Outcome(port, g, action, unit).Said?
  {}

  ghost predicate SomeContributes(port: Port, grants: seq<ActiveGrant>, action: Permission, unit: UnitId) {
    exists g :: g in grants && Contributes(port, g, action, unit)
  }

  /** Over a total port the verdict is a plain "some grant contributes". */
  lemma {:induction false} VerdictIsExists(port: Port, grants: seq<ActiveGrant>, action: Permission, unit: UnitId)
    requires Total(port)
    ensures Verdict(port, grants, action, unit) == Said(SomeContributes(port, grants, action, unit))
  {
    if grants == [] {
    } else {
      VerdictIsExists(port, grants[1..], action, unit);
      TotalOutcome(port, grants[0], action, unit);
      var rest := SomeContributes(port, grants[1..], action, unit);
      if Contributes(port, grants[0], action, unit) {
        assert grants[0] in grants;
      } else {
        assert forall g :: g in grants <==> g == grants[0] || g in grants[1..];
        assert SomeContributes(port, grants, action, unit) == rest;
      }
    }
  }

  /** For any port: when explain mode answers, fast mode gives the same verdict. */
  lemma {:induction false} FastAgreesWithExplain(port: Port, grants: seq<ActiveGrant>, action: Permission, unit: UnitId)
    requires Explanation(port, grants, action, unit).Ok?
    ensures Verdict(port, grants, action, unit) == Said(Explanation(port, grants, action, unit).value != [])
    decreases |grants|
  {
    if grants == [] {
    } else {
      var n := |grants| - 1;
      FastAgreesWithExplain(port, grants[..n], action, unit);
      assert grants == grants[..n] + [grants[n]];
      VerdictOfAppend(port, grants[..n], [grants[n]], action, unit);
    }
  }

  lemma {:induction false} VerdictOfAppend(port: Port, g1: seq<ActiveGrant>, g2: seq<ActiveGrant>,
                                           action: Permission, unit: UnitId)
    ensures Verdict(port, g1 + g2, action, unit) ==
              if Verdict(port, g1, action, unit) == Said(false) then Verdict(port, g2, action, unit) else Verdict(port, g1, action, unit)
  {
    if g1 == [] {
      assert g1 + g2 == g2;
    } else {
      VerdictOfAppend(port, g1[1..], g2, action, unit);
      assert (g1 + g2)[1..] == g1[1..] + g2;
    }
  }

  /** Via lists exactly the contributing grants, once each, in the order of the grants. */
  ghost predicate IsOrderedVia(port: Port, grants: seq<ActiveGrant>, action: Permission, unit: UnitId,
                               via: seq<Contribution>, at: seq<nat>) {
    && |at| == |via|
    && (forall k, m :: 0 <= k < m < |at| ==> at[k] < at[m])
    && (forall k :: 0 <= k < |at| ==> at[k] < |grants| && via[k] == ContributionOf(grants[at[k]]))
    && (forall i: nat :: i < |grants| && Contributes(port, grants[i], action, unit) <==> i in at)
  }

  lemma {:induction false} ViaIsContributions(port: Port, grants: seq<ActiveGrant>, action: Permission, unit: UnitId)
    returns (at: seq<nat>)
    requires Explanation(port, grants, action, unit).Ok?
    ensures IsOrderedVia(port, grants, action, unit, Explanation(port, grants, action, unit).value, at)
    decreases |grants|
  {
    if grants == [] {
      at := [];
    } else {
      var n := |grants| - 1;
      at := ViaIsContributions(port, grants[..n], action, unit);
      assert forall i: nat :: i < n ==> grants[i] == grants[..n][i];
      var before := at;
      if Contributes(port, grants[n], action, unit) {
        at := at + [n];
      }
      forall i: nat
        ensures i < |grants| && Contributes(port, grants[i], action, unit) <==> i in at
      {
        assert i in before <==> i < n && Contributes(port, grants[..n][i], action, unit);
      }
    }
  }

  /** The verdict does not depend on the order of the grants, */
  lemma VerdictIsOrderFree(port: Port, g1: seq<ActiveGrant>, g2: seq<ActiveGrant>, action: Permission, unit: UnitId)
    requires Total(port) && multiset(g1) == multiset(g2)
    ensures Verdict(port, g1, action, unit) == Verdict(port, g2, action, unit)
  {
    VerdictIsExists(port, g1, action, unit);
    VerdictIsExists(port, g2, action, unit);
    forall g
      ensures g in g1 <==> g in g2
    {
      assert g in g1 <==> g in multiset(g1);
      assert g in g2 <==> g in multiset(g2);
    }
  }

  /** and no further grants turn an allow into a deny. */
  lemma MoreGrantsKeepAllow(port: Port, fewer: seq<ActiveGrant>, more: seq<ActiveGrant>, action: Permission, unit: UnitId)
    requires Total(port) && (forall g :: g in fewer ==> g in more)
    requires Verdict(port, fewer, action, unit) == Said(true)
    ensures Verdict(port, more, action, unit) == Said(true)
  {
    VerdictIsExists(port, fewer, action, unit);
    VerdictIsExists(port, more, action, unit);
  }

  // ---- over the stored closure

  datatype Graph = Graph(edges: set<Edge>, isAuthorityBearing: bool)

  /** The directory's answers: an unknown graph bears no authority, and a pair reaches when its
      closure row is stored. */
  function StorePort(graphs: map<GraphId, Graph>, closures: map<GraphId, Rows>): Port {
    Port(g => Said(g in graphs && graphs[g].isAuthorityBearing),
         (g, a, d) => Said(g in closures && (a, d) in closures[g]))
  }

  ghost predicate ClosuresExact(graphs: map<GraphId, Graph>, closures: map<GraphId, Rows>) {
    closures.Keys == graphs.Keys && forall g :: g in graphs ==> Exact(graphs[g].edges, closures[g])
  }

  /** The specification over raw edges: no closure, no order, no memo. */
  ghost predicate GrantReaches(graphs: map<GraphId, Graph>, g: ActiveGrant, action: Permission, unit: UnitId) {
    && action in g.perms
    && match g.scope
       case ScopeUnit => g.target == unit
       case ScopeSubtree => g.graph in graphs && graphs[g.graph].isAuthorityBearing && Reaches(graphs[g.graph].edges, g.target, unit)
       case OtherScope(_) => false
  }

  ghost predicate Authorized(graphs: map<GraphId, Graph>, grants: seq<ActiveGrant>, isInstanceAdmin: bool,
                             action: Permission, unit: UnitId) {
    isInstanceAdmin || (!IsInstanceScope(action) && exists g :: g in grants && GrantReaches(graphs, g, action, unit))
  }

  /** One grant: the stored row, or being the unit itself, is exactly a path of edges. A unit with
      no edge has no reflexive row and is still reached by a grant on it. */
  lemma ContributesIsReach(graphs: map<GraphId, Graph>, closures: map<GraphId, Rows>, g: ActiveGrant,
                           action: Permission, unit: UnitId)
    requires ClosuresExact(graphs, closures)
    ensures Contributes(StorePort(graphs, closures), g, action, unit) <==> GrantReaches(graphs, g, action, unit)
  {
    if g.scope.ScopeSubtree? && g.graph in graphs {
      var edges := graphs[g.graph].edges;
      NodesClosed(edges);
      SelfReach(edges, unit);
    }
  }

  /** Decide over the stored closures equals the specification over raw edges, in both modes. */
  lemma DecideMeansAuthorized(graphs: map<GraphId, Graph>, closures: map<GraphId, Rows>, input: Input)
    requires ClosuresExact(graphs, closures)
    ensures Answer(StorePort(graphs, closures), input).Ok?
    ensures Answer(StorePort(graphs, closures), input).value.allow <==>
              Authorized(graphs, input.grants, input.isInstanceAdmin, input.action, input.unit)
  {
    var port := StorePort(graphs, closures);
    var grants, action, unit := input.grants, input.action, input.unit;
    ExplanationTotal(port, grants, action, unit);
    FastAgreesWithExplain(port, grants, action, unit);
    VerdictIsExists(port, grants, action, unit);
    forall g
      ensures Contributes(port, g, action, unit) <==> GrantReaches(graphs, g, action, unit)
    {
      ContributesIsReach(graphs, closures, g, action, unit);
    }
  }

  lemma {:induction false} ExplanationTotal(port: Port, grants: seq<ActiveGrant>, action: Permission, unit: UnitId)
    requires Total(port)
    ensures Explanation(port, grants, action, unit).Ok?
    decreases |grants|
  {
    if grants == [] {
    } else {
      ExplanationTotal(port, grants[..|grants|-1], action, unit);
      TotalOutcome(port, grants[|grants|-1], action, unit);
    }
  }
}
