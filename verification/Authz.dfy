/** The authorization service: from stored assignments, roles and admin rows to the PDP's input, and
    to the answer a request gets. */
module Authz {
  import opened Paths
  import opened Closure
  import opened Pdp
  import opened Options

  type PersonId = Rid

  type Time = int

  /** One row of authz_role_assignments. */
  datatype Assignment = Assignment(
    subject: PersonId, roleId: Rid, target: UnitId, scope: Scope, graph: GraphId,
    revoked: bool, expiresAt: Option<Time>)

  datatype Role = Role(code: string, deleted: bool, perms: set<Permission>)

  datatype Store = Store(assignments: map<Rid, Assignment>, roles: map<Rid, Role>, graphCodes: map<GraphId, string>, admins: set<PersonId>)

  predicate Unexpired(a: Assignment, now: Time) {
    a.expiresAt.None? || a.expiresAt.value > now
  }

  /** The assignments the PDP may count for a person. */
  predicate IsActiveFor(store: Store, id: Rid, person: PersonId, now: Time) {
    && id in store.assignments
    && var a := store.assignments[id];
    && a.subject == person && !a.revoked && Unexpired(a, now)
    && a.roleId in store.roles && !store.roles[a.roleId].deleted
  }

  // ---- ActiveGrantsForSubject

  /** One row of the query: an active assignment joined with one permission of its role. */
  datatype GrantRow = GrantRow(id: Rid, roleId: Rid, roleCode: string, target: UnitId, scope: Scope, graph: GraphId, graphCode: string, permission: Permission)

  function GraphCode(store: Store, g: GraphId): string {
    if g in store.graphCodes then store.graphCodes[g] else ""
  }

  function RowOf(store: Store, id: Rid, permission: Permission): GrantRow
    requires id in store.assignments && store.assignments[id].roleId in store.roles
  {
    var a := store.assignments[id];
    GrantRow(id, a.roleId, store.roles[a.roleId].code, a.target, a.scope, a.graph, GraphCode(store, a.graph), permission)
  }

  predicate IsRowFor(store: Store, person: PersonId, now: Time, r: GrantRow) {
    && IsActiveFor(store, r.id, person, now)
    && r.permission in store.roles[store.assignments[r.id].roleId].perms
    && r == RowOf(store, r.id, r.permission)
  }

  /** rows is a result of the query, in whatever order the store lists it. */
  ghost predicate IsQueryResult(store: Store, person: PersonId, now: Time, rows: seq<GrantRow>) {
    && (forall r :: r in rows ==> IsRowFor(store, person, now, r))
    && (forall id, p :: IsActiveFor(store, id, person, now) && p in store.roles[store.assignments[id].roleId].perms ==>
          RowOf(store, id, p) in rows)
  }

  function GrantOf(r: GrantRow, perms: set<Permission>): ActiveGrant {
    ActiveGrant(r.id, r.roleId, r.roleCode, r.target, r.scope, r.graph, r.graphCode, perms)
  }

  function PermissionsOf(rows: seq<GrantRow>, id: Rid): set<Permission> {
    set r | r in rows && r.id == id :: r.permission
  }

  predicate HasRow(rows: seq<GrantRow>, id: Rid) {
    exists r :: r in rows && r.id == id
  }

  /** Rows of one assignment agree in all but the permission. */
  predicate Consistent(rows: seq<GrantRow>) {
    forall r, s :: r in rows && s in rows && r.id == s.id ==> s == r.(permission := s.permission)
  }

  /** What the loop's two variables hold after reading rows. */
  ghost predicate Grouped(rows: seq<GrantRow>, byAssignment: map<Rid, ActiveGrant>, order: seq<Rid>) {
    RowsGrouped(rows, byAssignment) && Listed(byAssignment, order)
  }

  ghost predicate RowsGrouped(rows: seq<GrantRow>, byAssignment: map<Rid, ActiveGrant>) {
    && (forall id :: id in byAssignment <==> HasRow(rows, id))
    && (forall r :: r in rows ==> r.id in byAssignment && byAssignment[r.id] == GrantOf(r, PermissionsOf(rows, r.id)))
  }

  /** order lists the assignments, once each. */
  ghost predicate Listed(byAssignment: map<Rid, ActiveGrant>, order: seq<Rid>) {
    && (forall id :: id in order <==> id in byAssignment)
    && (forall i, k :: 0 <= i < k < |order| ==> order[i] != order[k])
  }

  /** Some row of a comes before every row of b. */
  predicate AppearsFirst(rows: seq<GrantRow>, a: Rid, b: Rid) {
    exists n :: 0 <= n < |rows| && rows[n].id == a && NoRowUpTo(rows, n, b)
  }

  predicate NoRowUpTo(rows: seq<GrantRow>, n: int, b: Rid)
    requires 0 <= n < |rows|
  {
    forall m :: 0 <= m <= n ==> rows[m].id != b
  }

  predicate InOrderOfAppearance(rows: seq<GrantRow>, order: seq<Rid>) {
    forall i, k :: 0 <= i < k < |order| ==> AppearsFirst(rows, order[i], order[k])
  }

  lemma NewRowAppearsLast(rows: seq<GrantRow>, n: nat, order: seq<Rid>)
    requires n < |rows| && InOrderOfAppearance(rows, order) && rows[n].id !in order
    requires forall m :: 0 <= m < n ==> rows[m].id in order
    requires forall id :: id in order ==> exists m :: 0 <= m < n && rows[m].id == id
    ensures InOrderOfAppearance(rows, order + [rows[n].id])
  {
    var b := rows[n].id;
    forall i | 0 <= i < |order|
      ensures AppearsFirst(rows, order[i], b)
    {
      assert order[i] in order;
      var m :| 0 <= m < n && rows[m].id == order[i];
      assert NoRowUpTo(rows, m, b);
    }
  }

  lemma OrderGrows(rows: seq<GrantRow>, n: nat, byAssignment: map<Rid, ActiveGrant>, order: seq<Rid>)
    requires n < |rows| && Grouped(rows[..n], byAssignment, order) && InOrderOfAppearance(rows, order)
    ensures rows[n].id !in byAssignment ==> InOrderOfAppearance(rows, order + [rows[n].id])
  {
    forall m | 0 <= m < n
      ensures rows[m].id in order
    {
      assert rows[..n][m] in rows[..n];
    }
    forall id | id in order
      ensures exists m :: 0 <= m < n && rows[m].id == id
    {
      assert HasRow(rows[..n], id);
      var r :| r in rows[..n] && r.id == id;
      var m :| 0 <= m < n && rows[..n][m] == r;
      assert rows[m].id == id;
    }
    if rows[n].id !in byAssignment {
      NewRowAppearsLast(rows, n, order);
    }
  }

  /** Groups the rows by assignment, in order of first appearance. */
  method GroupRows(rows: seq<GrantRow>) returns (grants: seq<ActiveGrant>)
    requires Consistent(rows)
    ensures forall i, k :: 0 <= i < k < |grants| ==> grants[i].assignmentId != grants[k].assignmentId
    ensures forall g :: g in grants <==> IsGroupOf(rows, g)
    ensures forall i, k :: 0 <= i < k < |grants| ==> AppearsFirst(rows, grants[i].assignmentId, grants[k].assignmentId)
  {
    var byAssignment: map<Rid, ActiveGrant> := map[];
    var order: seq<Rid> := [];
    for n := 0 to |rows|
      invariant Grouped(rows[..n], byAssignment, order) && InOrderOfAppearance(rows, order)
    {
      var row := rows[n];
      ghost var before, orderBefore := byAssignment, order;
      OrderGrows(rows, n, before, orderBefore);
      if row.id !in byAssignment {
        byAssignment := byAssignment[row.id := GrantOf(row, {})];
        order := order + [row.id];
      }
      var g := byAssignment[row.id];
      byAssignment := byAssignment[row.id := g.(perms := g.perms + {row.permission})];
      RowGrouped(rows, n, before, orderBefore, byAssignment, order);
    }
    assert rows[..|rows|] == rows;
    grants := ListGrants(rows, byAssignment, order);
  }

  method ListGrants(rows: seq<GrantRow>, byAssignment: map<Rid, ActiveGrant>, order: seq<Rid>) returns (grants: seq<ActiveGrant>)
    requires Grouped(rows, byAssignment, order)
    ensures |grants| == |order| && forall k :: 0 <= k < |order| ==> grants[k].assignmentId == order[k]
    ensures forall i, k :: 0 <= i < k < |grants| ==> grants[i].assignmentId != grants[k].assignmentId
    ensures forall g :: g in grants <==> IsGroupOf(rows, g)
  {
    grants := [];
    for i := 0 to |order|
      invariant |grants| == i
      invariant forall k :: 0 <= k < i ==> order[k] in byAssignment && grants[k] == byAssignment[order[k]]
    {
      assert order[i] in order;
      grants := grants + [byAssignment[order[i]]];
    }
    GroupsListed(rows, byAssignment, order, grants);
  }

  /** One pass of the loop. */
  lemma RowGrouped(rows: seq<GrantRow>, n: nat, before: map<Rid, ActiveGrant>, orderBefore: seq<Rid>,
                   after: map<Rid, ActiveGrant>, order: seq<Rid>)
    requires n < |rows| && Consistent(rows)
    requires Grouped(rows[..n], before, orderBefore)
    requires var row := rows[n];
             var g := if row.id in before then before[row.id] else GrantOf(row, {});
             after == before[row.id := g.(perms := g.perms + {row.permission})]
    requires order == if rows[n].id in before then orderBefore else orderBefore + [rows[n].id]
    ensures Grouped(rows[..n+1], after, order)
  {
    GroupOneMore(rows, n, before, after);
    OrderOneMore(before, orderBefore, after, order, rows[n].id);
  }

  lemma OrderOneMore(before: map<Rid, ActiveGrant>, orderBefore: seq<Rid>, after: map<Rid, ActiveGrant>, order: seq<Rid>, id: Rid)
    requires Listed(before, orderBefore) && after.Keys == before.Keys + {id}
    requires order == if id in before then orderBefore else orderBefore + [id]
    ensures Listed(after, order)
  {
    assert forall k :: 0 <= k < |orderBefore| ==> orderBefore[k] in before;
    assert forall k :: k in after <==> k in after.Keys;
  }

  /** g is the grant of one assignment among the rows, with all of its permissions. */
  ghost predicate IsGroupOf(rows: seq<GrantRow>, g: ActiveGrant) {
    exists r :: r in rows && g == GrantOf(r, PermissionsOf(rows, r.id))
  }

  lemma GroupOneMore(rows: seq<GrantRow>, n: nat, before: map<Rid, ActiveGrant>, after: map<Rid, ActiveGrant>)
    requires n < |rows| && Consistent(rows)
    requires RowsGrouped(rows[..n], before)
    requires var row := rows[n];
             var g := if row.id in before then before[row.id] else GrantOf(row, {});
             after == before[row.id := g.(perms := g.perms + {row.permission})]
    ensures RowsGrouped(rows[..n+1], after) && after.Keys == before.Keys + {rows[n].id}
  {
    var row := rows[n];
    assert rows[..n+1] == rows[..n] + [row];
    GroupOfNewRow(rows, n, before, after);
    forall r | r in rows[..n+1]
      ensures r.id in after && after[r.id] == GrantOf(r, PermissionsOf(rows[..n+1], r.id))
    {
      if r.id == row.id {
        assert r in rows && row in rows;
        assert r == row.(permission := r.permission);
      } else {
        PermissionsOneMore(rows[..n], row, r.id);
        assert r in rows[..n];
      }
    }
    HasRowOneMore(rows[..n], row);
  }

  lemma HasRowOneMore(rows: seq<GrantRow>, row: GrantRow)
    ensures forall id :: HasRow(rows + [row], id) <==> HasRow(rows, id) || id == row.id
  {
    assert row in rows + [row];
    forall id
      ensures HasRow(rows + [row], id) <==> HasRow(rows, id) || id == row.id
    {
      assert forall r :: r in rows + [row] <==> r in rows || r == row;
    }
  }

  lemma GroupOfNewRow(rows: seq<GrantRow>, n: nat, before: map<Rid, ActiveGrant>, after: map<Rid, ActiveGrant>)
    requires n < |rows| && Consistent(rows)
    requires RowsGrouped(rows[..n], before)
    requires var row := rows[n];
             var g := if row.id in before then before[row.id] else GrantOf(row, {});
             after == before[row.id := g.(perms := g.perms + {row.permission})]
    ensures after[rows[n].id] == GrantOf(rows[n], PermissionsOf(rows[..n] + [rows[n]], rows[n].id))
  {
    var row := rows[n];
    PermissionsOneMore(rows[..n], row, row.id);
    if row.id in before {
      var s :| s in rows[..n] && s.id == row.id;
      assert s in rows && row in rows;
      assert row == s.(permission := row.permission);
    } else {
      NoRowNoPermissions(rows[..n], row.id);
    }
  }

  lemma GroupsListed(rows: seq<GrantRow>, byAssignment: map<Rid, ActiveGrant>, order: seq<Rid>, grants: seq<ActiveGrant>)
    requires Grouped(rows, byAssignment, order)
    requires |grants| == |order| && forall k :: 0 <= k < |order| ==> order[k] in byAssignment && grants[k] == byAssignment[order[k]]
    ensures forall k :: 0 <= k < |order| ==> grants[k].assignmentId == order[k]
    ensures forall i, k :: 0 <= i < k < |grants| ==> grants[i].assignmentId != grants[k].assignmentId
    ensures forall g :: g in grants <==> IsGroupOf(rows, g)
  {
    forall k | 0 <= k < |order|
      ensures grants[k].assignmentId == order[k] && IsGroupOf(rows, grants[k])
    {
      assert HasRow(rows, order[k]);
      var r :| r in rows && r.id == order[k];
    }
    forall g | IsGroupOf(rows, g)
      ensures g in grants
    {
      var r :| r in rows && g == GrantOf(r, PermissionsOf(rows, r.id));
      assert HasRow(rows, r.id);
      assert r.id in order;
      var k :| 0 <= k < |order| && order[k] == r.id;
      assert grants[k] == g;
    }
  }

  lemma PermissionsOneMore(rows: seq<GrantRow>, row: GrantRow, id: Rid)
    ensures PermissionsOf(rows + [row], id) == PermissionsOf(rows, id) + if id == row.id then {row.permission} else {}
  {
    assert row in rows + [row];
  }

  lemma NoRowNoPermissions(rows: seq<GrantRow>, id: Rid)
    requires !HasRow(rows, id)
    ensures PermissionsOf(rows, id) == {}
  {}

  // ---- the specification over tables and raw edges

  ghost predicate AssignmentReaches(graphs: map<GraphId, Graph>, a: Assignment, unit: UnitId) {
    match a.scope
    case ScopeUnit => a.target == unit
    case ScopeSubtree => a.graph in graphs && graphs[a.graph].isAuthorityBearing && Reaches(graphs[a.graph].edges, a.target, unit)
    case OtherScope(_) => false
  }

  /** person may do action on unit: as an admin, or by an active assignment whose role carries the
      action and whose target is the unit, or lies above it for a subtree. */
  ghost predicate May(store: Store, graphs: map<GraphId, Graph>, person: PersonId, action: Permission, unit: UnitId,
                      now: Time) {
    person in store.admins
    || (!IsInstanceScope(action) && exists id :: Confers(store, graphs, id, person, action, unit, now))
  }

  ghost predicate Confers(store: Store, graphs: map<GraphId, Graph>, id: Rid, person: PersonId, action: Permission,
                          unit: UnitId, now: Time) {
    && IsActiveFor(store, id, person, now)
    && action in store.roles[store.assignments[id].roleId].perms
    && AssignmentReaches(graphs, store.assignments[id], unit)
  }

  lemma QueryIsConsistent(store: Store, person: PersonId, now: Time, rows: seq<GrantRow>)
    requires IsQueryResult(store, person, now, rows)
    ensures Consistent(rows)
  {}

  lemma PermissionsAreRoles(store: Store, person: PersonId, now: Time, rows: seq<GrantRow>, id: Rid)
    requires IsQueryResult(store, person, now, rows) && IsActiveFor(store, id, person, now)
    ensures PermissionsOf(rows, id) == store.roles[store.assignments[id].roleId].perms
  {
    forall p | p in store.roles[store.assignments[id].roleId].perms
      ensures p in PermissionsOf(rows, id)
    {
      assert RowOf(store, id, p) in rows;
      assert RowOf(store, id, p).permission == p;
    }
  }

  /** The grouped grants decide exactly as the tables say. */
  lemma GrantsMeanTables(store: Store, graphs: map<GraphId, Graph>, person: PersonId, now: Time, rows: seq<GrantRow>,
                         grants: seq<ActiveGrant>, action: Permission, unit: UnitId)
    requires IsQueryResult(store, person, now, rows)
    requires forall g :: g in grants <==> IsGroupOf(rows, g)
    ensures (exists g :: g in grants && GrantReaches(graphs, g, action, unit))
       <==> exists id :: Confers(store, graphs, id, person, action, unit, now)
  {
    if g :| g in grants && GrantReaches(graphs, g, action, unit) {
      var r :| r in rows && g == GrantOf(r, PermissionsOf(rows, r.id));
      PermissionsAreRoles(store, person, now, rows, r.id);
      assert Confers(store, graphs, r.id, person, action, unit, now);
    }
    if id :| Confers(store, graphs, id, person, action, unit, now) {
      PermissionsAreRoles(store, person, now, rows, id);
      var r := RowOf(store, id, action);
      assert r in rows;
      var g := GrantOf(r, PermissionsOf(rows, r.id));
      assert g in grants;
      assert GrantReaches(graphs, g, action, unit);
    }
  }

  // ---- the service

  /** The request's subject; a session has no key codes, and an empty key is not the same as none. */
  datatype Subject = Subject(person: PersonId, keyCodes: Option<seq<Permission>>)

  datatype Access = Granted | PermissionDenied

  class Service {
    const store: Store
    const graphs: map<GraphId, Graph>
    const closures: map<GraphId, Rows>

    constructor (store: Store, graphs: map<GraphId, Graph>, closures: map<GraphId, Rows>)
      ensures this.store == store && this.graphs == graphs && this.closures == closures
    {
      this.store, this.graphs, this.closures := store, graphs, closures;
    }

    /** decide: an admin's grants are not even fetched. rows is what the query returns. */
    method DecideFor(person: PersonId, action: Permission, unit: UnitId, explain: bool, now: Time, rows: seq<GrantRow>)
      returns (d: Decision)
      requires ClosuresExact(graphs, closures) && IsQueryResult(store, person, now, rows)
      ensures d.allow <==> May(store, graphs, person, action, unit, now)
      ensures !explain ==> d.via == [] && d.denyReason == ""
      ensures explain && person in store.admins ==> d.via == [InstanceAdminPlane]
      ensures explain ==> d.denyReason == (if d.allow then ""
                            else if action in {"instance.admin.manage", "role.create", "role.update", "role.delete"}
                            then "action is instance-scope and the subject is not an instance admin"
                            else "the requested permission is not in the subject's effective set for this unit")
      ensures explain && person !in store.admins ==> forall c :: c in d.via ==> CitesTables(store, c)
      ensures explain && person !in store.admins ==>
                forall c :: c in d.via <==> !IsInstanceScope(action) && IsCited(store, graphs, c, person, action, unit, now)
    {
      var isAdmin := person in store.admins;
      var grants := [];
      if !isAdmin {
        QueryIsConsistent(store, person, now, rows);
        grants := GroupRows(rows);
        GrantsMeanTables(store, graphs, person, now, rows, grants, action, unit);
      }
      var input := Input(grants, isAdmin, action, unit, explain);
      DecideMeansAuthorized(graphs, closures, input);
      AnswerSays(StorePort(graphs, closures), input);
      var r := Decide(StorePort(graphs, closures), input);
      d := r.value;
      if explain && !isAdmin && !IsInstanceScope(action) {
        ViaMeansTables(store, graphs, closures, person, now, rows, grants, action, unit);
        CitedSays(store, graphs, person, action, unit, now);
      }
    }

    /** Require: an API key narrows what its owner holds and never widens it. */
    method Require(subject: Option<Subject>, action: Permission, unit: UnitId, now: Time, rows: seq<GrantRow>)
      returns (a: Access)
      requires ClosuresExact(graphs, closures)
      requires subject.Some? ==> IsQueryResult(store, subject.value.person, now, rows)
      ensures a.Granted? <==>
                && subject.Some?
                && (subject.value.keyCodes.Some? ==> action in subject.value.keyCodes.value)
                && May(store, graphs, subject.value.person, action, unit, now)
    {
      if subject.None? {
        return PermissionDenied;
      }
      var s := subject.value;
      if s.keyCodes.Some? && action !in s.keyCodes.value {
        return PermissionDenied;
      }
      var d := DecideFor(s.person, action, unit, false, now, rows);
      a := if d.allow then Granted else PermissionDenied;
    }
  }

  /** The contribution that cites one assignment. */
  function Cites(store: Store, id: Rid): Contribution
    requires id in store.assignments && store.assignments[id].roleId in store.roles
  {
    var a := store.assignments[id];
    ByAssignment(id, store.roles[a.roleId].code, a.target, a.scope, GraphCode(store, a.graph))
  }

  /** A citation names the stored assignment, its role's code and its graph's, if the graph has one. */
  predicate CitesTables(store: Store, c: Contribution) {
    && c.ByAssignment? && c.assignmentId in store.assignments
    && var a := store.assignments[c.assignmentId];
    && c.target == a.target && c.scope == a.scope
    && a.roleId in store.roles && c.roleCode == store.roles[a.roleId].code
    && c.graphCode == if a.graph in store.graphCodes then store.graphCodes[a.graph] else ""
  }

  ghost predicate IsCited(store: Store, graphs: map<GraphId, Graph>, c: Contribution, person: PersonId,
                          action: Permission, unit: UnitId, now: Time) {
    exists id :: Confers(store, graphs, id, person, action, unit, now) && c == Cites(store, id)
  }

  lemma CitedSays(store: Store, graphs: map<GraphId, Graph>, person: PersonId, action: Permission, unit: UnitId, now: Time)
    ensures forall c :: IsCited(store, graphs, c, person, action, unit, now) ==> CitesTables(store, c)
  {}

  /** Reasons and the admin's citation, where the port answers. */
  lemma AnswerSays(port: Port, input: Input)
    requires Answer(port, input).Ok?
    ensures var d := Answer(port, input).value;
            && (!input.explain ==> d.via == [] && d.denyReason == "")
            && (input.isInstanceAdmin ==> d.allow && (input.explain ==> d.via == [InstanceAdminPlane]))
            && (!input.isInstanceAdmin && IsInstanceScope(input.action) ==> !d.allow && d.via == [])
            && (input.explain && !d.allow ==>
                  d.denyReason == if input.action in {"instance.admin.manage", "role.create", "role.update", "role.delete"}
                                  then "action is instance-scope and the subject is not an instance admin"
                                  else "the requested permission is not in the subject's effective set for this unit")
            && (d.allow ==> d.denyReason == "")
  {
    AnswerMeans(port, input);
  }

  /** Explain mode cites exactly the conferring assignments. */
  lemma ViaMeansTables(store: Store, graphs: map<GraphId, Graph>, closures: map<GraphId, Rows>, person: PersonId, now: Time,
                       rows: seq<GrantRow>, grants: seq<ActiveGrant>, action: Permission, unit: UnitId)
    requires ClosuresExact(graphs, closures) && IsQueryResult(store, person, now, rows)
    requires forall g :: g in grants <==> IsGroupOf(rows, g)
    ensures Explanation(StorePort(graphs, closures), grants, action, unit).Ok?
    ensures forall c :: c in Explanation(StorePort(graphs, closures), grants, action, unit).value <==>
              IsCited(store, graphs, c, person, action, unit, now)
  {
    ExplanationTotal(StorePort(graphs, closures), grants, action, unit);
    var via := Explanation(StorePort(graphs, closures), grants, action, unit).value;
    forall c
      ensures c in via <==> IsCited(store, graphs, c, person, action, unit, now)
    {
      if c in via {
        CitedIsConferring(store, graphs, closures, person, now, rows, grants, action, unit, c);
      }
      if IsCited(store, graphs, c, person, action, unit, now) {
        ConferringIsCited(store, graphs, closures, person, now, rows, grants, action, unit, c);
      }
    }
  }

  lemma CitedIsConferring(store: Store, graphs: map<GraphId, Graph>, closures: map<GraphId, Rows>, person: PersonId,
                          now: Time, rows: seq<GrantRow>, grants: seq<ActiveGrant>, action: Permission, unit: UnitId, c: Contribution)
    requires ClosuresExact(graphs, closures) && IsQueryResult(store, person, now, rows)
    requires forall g :: g in grants <==> IsGroupOf(rows, g)
    requires Explanation(StorePort(graphs, closures), grants, action, unit).Ok?
    requires c in Explanation(StorePort(graphs, closures), grants, action, unit).value
    ensures IsCited(store, graphs, c, person, action, unit, now)
  {
    var port := StorePort(graphs, closures);
    var via := Explanation(port, grants, action, unit).value;
    var at := ViaIsContributions(port, grants, action, unit);
    var k :| 0 <= k < |via| && via[k] == c;
    var g := grants[at[k]];
    assert at[k] in at && g in grants;
    ContributesIsReach(graphs, closures, g, action, unit);
    var r :| r in rows && g == GrantOf(r, PermissionsOf(rows, r.id));
    PermissionsAreRoles(store, person, now, rows, r.id);
    assert Confers(store, graphs, r.id, person, action, unit, now) && c == Cites(store, r.id);
  }

  lemma ConferringIsCited(store: Store, graphs: map<GraphId, Graph>, closures: map<GraphId, Rows>, person: PersonId,
                          now: Time, rows: seq<GrantRow>, grants: seq<ActiveGrant>, action: Permission, unit: UnitId, c: Contribution)
    requires ClosuresExact(graphs, closures) && IsQueryResult(store, person, now, rows)
    requires forall g :: g in grants <==> IsGroupOf(rows, g)
    requires IsCited(store, graphs, c, person, action, unit, now)
    requires Explanation(StorePort(graphs, closures), grants, action, unit).Ok?
    ensures c in Explanation(StorePort(graphs, closures), grants, action, unit).value
  {
    var port := StorePort(graphs, closures);
    var via := Explanation(port, grants, action, unit).value;
    var at := ViaIsContributions(port, grants, action, unit);
    var id :| Confers(store, graphs, id, person, action, unit, now) && c == Cites(store, id);
    PermissionsAreRoles(store, person, now, rows, id);
    var r := RowOf(store, id, action);
    var g := GrantOf(r, PermissionsOf(rows, r.id));
    assert r in rows && IsGroupOf(rows, g);
    var i: nat :| i < |grants| && grants[i] == g;
    ContributesIsReach(graphs, closures, g, action, unit);
    assert Contributes(port, grants[i], action, unit);
    var k :| 0 <= k < |at| && at[k] == i;
    assert via[k] == c;
  }
}
