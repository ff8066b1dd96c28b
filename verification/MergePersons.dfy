/** Merging a duplicate person into a survivor: the authority part of core's MergePersons. */
module MergePersons {
  import opened Paths
  import opened Pdp
  import opened Authz
  import opened Options

  // ---- the two statements over authz_role_assignments

  /** The columns of the unique index over unrevoked rows, without the subject. */
  datatype Key = Key(roleId: Rid, target: UnitId, scope: Scope, graph: GraphId)

  function KeyOf(a: Assignment): Key {
    Key(a.roleId, a.target, a.scope, a.graph)
  }

  type Table = map<Rid, Assignment>

  /** Unrevoked rows of one person; an expired row is still one of them. */
  function Held(table: Table, person: PersonId): set<Rid> {
    set id | id in table && table[id].subject == person && !table[id].revoked
  }

  predicate HoldsKey(table: Table, person: PersonId, k: Key) {
    exists id :: id in Held(table, person) && KeyOf(table[id]) == k
  }

  /** authz_role_assignments_active_idx. */
  ghost predicate UniqueHeld(table: Table) {
    forall i, j :: i in table && j in table && !table[i].revoked && !table[j].revoked && SameSlot(table[i], table[j]) ==> i == j
  }

  predicate SameSlot(a: Assignment, b: Assignment) {
    a.subject == b.subject && KeyOf(a) == KeyOf(b)
  }

  /** The rows RepointMoveRoleAssignments selects: the duplicate's, whose key the survivor lacks. */
  function Movable(table: Table, duplicate: PersonId, survivor: PersonId): set<Rid> {
    set id | id in Held(table, duplicate) && !HoldsKey(table, survivor, KeyOf(table[id]))
  }

  function Reassigned(table: Table, ids: set<Rid>, survivor: PersonId): Table
    requires ids <= table.Keys
  {
    map id | id in table :: if id in ids then table[id].(subject := survivor) else table[id]
  }

  function Revoked(table: Table, ids: set<Rid>): Table
    requires ids <= table.Keys
  {
    map id | id in table :: if id in ids then table[id].(revoked := true) else table[id]
  }

  /** Move what the survivor lacks, then revoke what is left. */
  function Merged(table: Table, duplicate: PersonId, survivor: PersonId): Table {
    var moved := Reassigned(table, Movable(table, duplicate, survivor), survivor);
    Revoked(moved, Held(moved, duplicate))
  }

  /** The table after a merge, row by row. */
  lemma MergedRows(table: Table, duplicate: PersonId, survivor: PersonId)
    requires duplicate != survivor
    ensures Merged(table, duplicate, survivor).Keys == table.Keys
    ensures forall id :: id in table ==>
              Merged(table, duplicate, survivor)[id] ==
                if id !in Held(table, duplicate) then table[id]
                else if id in Movable(table, duplicate, survivor) then table[id].(subject := survivor)
                else table[id].(revoked := true)
    ensures Held(Merged(table, duplicate, survivor), duplicate) == {}
    ensures Held(Merged(table, duplicate, survivor), survivor) == Held(table, survivor) + Movable(table, duplicate, survivor)
  {}

  lemma MergeKeepsIndex(table: Table, duplicate: PersonId, survivor: PersonId)
    requires duplicate != survivor && UniqueHeld(table)
    ensures UniqueHeld(Merged(table, duplicate, survivor))
  {
    MergedRows(table, duplicate, survivor);
    var out := Merged(table, duplicate, survivor);
    var movable := Movable(table, duplicate, survivor);
    forall i, j | i in out && j in out && !out[i].revoked && !out[j].revoked && SameSlot(out[i], out[j])
      ensures i == j
    {
      assert i in movable && j !in movable ==> j in Held(table, survivor);
      assert j in movable && i !in movable ==> i in Held(table, survivor);
    }
  }

  lemma MergeLeavesIndexed(table: Table, duplicate: PersonId, survivor: PersonId)
    requires duplicate != survivor && UniqueHeld(table)
    ensures UniqueHeld(Merged(table, duplicate, survivor)) && Held(Merged(table, duplicate, survivor), duplicate) == {}
  {
    MergeKeepsIndex(table, duplicate, survivor);
    MergedRows(table, duplicate, survivor);
  }

  // ---- authority

  /** The keys a person's unrevoked, unexpired rows carry at a time: all the PDP sees of them. */
  function EffectiveKeys(table: Table, person: PersonId, now: Time): set<Key> {
    set id | id in Held(table, person) && Unexpired(table[id], now) :: KeyOf(table[id])
  }

  /** No live row of the duplicate is dropped in favour of an expired one of the survivor. */
  predicate NoneShadowed(table: Table, duplicate: PersonId, survivor: PersonId, now: Time) {
    forall i, j :: i in Held(table, duplicate) && j in Held(table, survivor) && KeyOf(table[i]) == KeyOf(table[j]) ==>
      Unexpired(table[i], now) ==> Unexpired(table[j], now)
  }

  lemma EffectiveKey(table: Table, person: PersonId, now: Time, k: Key)
    ensures k in EffectiveKeys(table, person, now) <==>
              exists id :: id in Held(table, person) && Unexpired(table[id], now) && KeyOf(table[id]) == k
  {}

  /** The survivor's keys after a merge: those it had, and those of the duplicate that it held no row
      for, not even an expired one. */
  lemma MergedKey(table: Table, duplicate: PersonId, survivor: PersonId, now: Time, k: Key)
    requires duplicate != survivor
    ensures k in EffectiveKeys(Merged(table, duplicate, survivor), survivor, now) <==>
              k in EffectiveKeys(table, survivor, now)
              || (k in EffectiveKeys(table, duplicate, now) && !HoldsKey(table, survivor, k))
  {
    var out := Merged(table, duplicate, survivor);
    MergedRows(table, duplicate, survivor);
    EffectiveKey(table, survivor, now, k);
    EffectiveKey(table, duplicate, now, k);
    EffectiveKey(out, survivor, now, k);
    if id :| id in Held(table, survivor) && Unexpired(table[id], now) && KeyOf(table[id]) == k {
      assert id in Held(out, survivor) && out[id] == table[id];
    }
    if id :| id in Held(table, duplicate) && Unexpired(table[id], now) && KeyOf(table[id]) == k && !HoldsKey(table, survivor, k) {
      assert id in Held(out, survivor) && KeyOf(out[id]) == k && Unexpired(out[id], now);
    }
    if id :| id in Held(out, survivor) && Unexpired(out[id], now) && KeyOf(out[id]) == k {
      assert KeyOf(table[id]) == k && Unexpired(table[id], now);
    }
  }

  /** A merge never adds authority, and loses none exactly when no live key is shadowed by an
      expired row of the survivor. */
  lemma MergedKeys(table: Table, duplicate: PersonId, survivor: PersonId, now: Time)
    requires duplicate != survivor && UniqueHeld(table)
    ensures EffectiveKeys(Merged(table, duplicate, survivor), duplicate, now) == {}
    ensures EffectiveKeys(table, survivor, now) <= EffectiveKeys(Merged(table, duplicate, survivor), survivor, now)
              <= EffectiveKeys(table, survivor, now) + EffectiveKeys(table, duplicate, now)
    ensures EffectiveKeys(Merged(table, duplicate, survivor), survivor, now)
              == EffectiveKeys(table, survivor, now) + EffectiveKeys(table, duplicate, now)
            <==> NoneShadowed(table, duplicate, survivor, now)
  {
    MergedRows(table, duplicate, survivor);
    forall k
      ensures k in EffectiveKeys(Merged(table, duplicate, survivor), survivor, now) <==>
                k in EffectiveKeys(table, survivor, now)
                || (k in EffectiveKeys(table, duplicate, now) && !HoldsKey(table, survivor, k))
    {
      MergedKey(table, duplicate, survivor, now, k);
    }
    if NoneShadowed(table, duplicate, survivor, now) {
      forall k | k in EffectiveKeys(table, duplicate, now) && HoldsKey(table, survivor, k)
        ensures k in EffectiveKeys(table, survivor, now)
      {
        UnshadowedKeyIsHeld(table, duplicate, survivor, now, k);
      }
    } else {
      var i, j :| i in Held(table, duplicate) && j in Held(table, survivor) && KeyOf(table[i]) == KeyOf(table[j])
        && Unexpired(table[i], now) && !Unexpired(table[j], now);
      ShadowedKeyIsLost(table, duplicate, survivor, now, i, j);
    }
  }

  lemma UnshadowedKeyIsHeld(table: Table, duplicate: PersonId, survivor: PersonId, now: Time, k: Key)
    requires NoneShadowed(table, duplicate, survivor, now)
    requires k in EffectiveKeys(table, duplicate, now) && HoldsKey(table, survivor, k)
    ensures k in EffectiveKeys(table, survivor, now)
  {
    EffectiveKey(table, duplicate, now, k);
    EffectiveKey(table, survivor, now, k);
    var i :| i in Held(table, duplicate) && Unexpired(table[i], now) && KeyOf(table[i]) == k;
    var j :| j in Held(table, survivor) && KeyOf(table[j]) == k;
    assert Unexpired(table[j], now);
  }

  lemma ShadowedKeyIsLost(table: Table, duplicate: PersonId, survivor: PersonId, now: Time, i: Rid, j: Rid)
    requires duplicate != survivor && UniqueHeld(table)
    requires i in Held(table, duplicate) && j in Held(table, survivor) && KeyOf(table[i]) == KeyOf(table[j])
    requires Unexpired(table[i], now) && !Unexpired(table[j], now)
    ensures KeyOf(table[i]) in EffectiveKeys(table, duplicate, now)
    ensures KeyOf(table[i]) !in EffectiveKeys(Merged(table, duplicate, survivor), survivor, now)
  {
    var k := KeyOf(table[i]);
    MergedKey(table, duplicate, survivor, now, k);
    EffectiveKey(table, survivor, now, k);
    assert HoldsKey(table, survivor, k);
    forall id | id in Held(table, survivor) && KeyOf(table[id]) == k
      ensures id == j
    {
      assert SameSlot(table[id], table[j]);
    }
  }

  // ---- the admin plane

  datatype AdminRow = AdminRow(person: PersonId, revoked: bool)

  type AdminTable = map<Rid, AdminRow>

  function AdminRows(table: AdminTable, person: PersonId): set<Rid> {
    set id | id in table && table[id].person == person && !table[id].revoked
  }

  function AdminsOf(table: AdminTable): (ps: set<PersonId>)
    ensures forall p :: p in ps <==> AdminRows(table, p) != {}
  {
    var ps := set id | id in table && !table[id].revoked :: table[id].person;
    assert forall p, id :: id in AdminRows(table, p) ==> table[id].person in ps;
    assert forall id :: id in table && !table[id].revoked ==> id in AdminRows(table, table[id].person);
    ps
  }

  /** The duplicate's place on the admin plane, if any, passes to the survivor. */
  function AdminsAfter(admins: set<PersonId>, duplicate: PersonId, survivor: PersonId): set<PersonId> {
    if duplicate in admins then admins - {duplicate} + {survivor} else admins
  }

  ghost predicate UniqueAdmins(table: AdminTable) {
    forall i, j :: i in table && j in table && !table[i].revoked && !table[j].revoked && table[i].person == table[j].person ==> i == j
  }

  lemma AdminsPassOn(before: AdminTable, after: AdminTable, duplicate: PersonId, survivor: PersonId)
    requires duplicate != survivor && AdminRows(after, duplicate) == {}
    requires AdminRows(after, survivor) == AdminRows(before, survivor)
               + if AdminRows(before, survivor) == {} then AdminRows(before, duplicate) else {}
    requires forall p :: p != duplicate && p != survivor ==> AdminRows(after, p) == AdminRows(before, p)
    ensures AdminsOf(after) == AdminsAfter(AdminsOf(before), duplicate, survivor)
  {
    forall p
      ensures p in AdminsOf(after) <==> p in AdminsAfter(AdminsOf(before), duplicate, survivor)
    {
      assert p in AdminsOf(after) <==> AdminRows(after, p) != {};
      assert p in AdminsOf(before) <==> AdminRows(before, p) != {};
    }
  }

  // ---- the service

  datatype MergeResult = MergeResult(moved: set<Rid>, revoked: set<Rid>, adminMoved: bool, adminRevoked: bool)

  class Tables {
    var assignments: Table
    var admins: AdminTable

    constructor (assignments: Table, admins: AdminTable)
      ensures this.assignments == assignments && this.admins == admins
    {
      this.assignments, this.admins := assignments, admins;
    }

    method CountRepointableRoleAssignments(duplicate: PersonId, survivor: PersonId) returns (toMove: nat, toRevoke: nat)
      ensures toMove == |Movable(assignments, duplicate, survivor)|
      ensures toMove + toRevoke == |Held(assignments, duplicate)|
    {
      var held := Held(assignments, duplicate);
      var lacking := set id | id in held && !HoldsKey(assignments, survivor, KeyOf(assignments[id]));
      var redundant := set id | id in held && HoldsKey(assignments, survivor, KeyOf(assignments[id]));
      toMove, toRevoke := |lacking|, |redundant|;
      assert lacking !! redundant && lacking + redundant == held;
    }

    method RepointRoleAssignments(duplicate: PersonId, survivor: PersonId) returns (moved: set<Rid>, revoked: set<Rid>)
      requires duplicate != survivor
      modifies this`assignments
      ensures assignments == Merged(old(assignments), duplicate, survivor)
      ensures moved == Movable(old(assignments), duplicate, survivor)
      ensures moved !! revoked && moved + revoked == Held(old(assignments), duplicate)
    {
      moved := Movable(assignments, duplicate, survivor);
      assignments := Reassigned(assignments, moved, survivor);
      revoked := Held(assignments, duplicate);
      assignments := Revoked(assignments, revoked);
    }

    method PreviewRepointInstanceAdmin(duplicate: PersonId, survivor: PersonId) returns (willMove: bool, willRevoke: bool)
      ensures willMove <==> AdminRows(admins, duplicate) != {} && AdminRows(admins, survivor) == {}
      ensures willRevoke <==> AdminRows(admins, duplicate) != {} && AdminRows(admins, survivor) != {}
    {
      if AdminRows(admins, duplicate) == {} {
        return false, false;
      }
      var survivorIsAdmin := AdminRows(admins, survivor) != {};
      return !survivorIsAdmin, survivorIsAdmin;
    }

    method RepointInstanceAdmin(duplicate: PersonId, survivor: PersonId) returns (moved: bool, revoked: bool)
      requires duplicate != survivor && UniqueAdmins(admins)
      modifies this`admins
      ensures UniqueAdmins(admins)
      ensures moved <==> AdminRows(old(admins), duplicate) != {} && AdminRows(old(admins), survivor) == {}
      ensures revoked <==> AdminRows(old(admins), duplicate) != {} && AdminRows(old(admins), survivor) != {}
      ensures AdminRows(admins, duplicate) == {}
      ensures AdminsOf(admins) == AdminsAfter(AdminsOf(old(admins)), duplicate, survivor)
    {
      var before := admins;
      var rows := AdminRows(admins, duplicate);
      moved, revoked := false, false;
      if rows != {} && AdminRows(admins, survivor) == {} {
        admins := map id | id in before :: if id in rows then before[id].(person := survivor) else before[id];
        moved := true;
        var id :| id in rows;
        assert id in AdminRows(admins, survivor);
      }
      var left := AdminRows(admins, duplicate);
      if left != {} {
        var now := admins;
        admins := map id | id in now :: if id in left then now[id].(revoked := true) else now[id];
        revoked := true;
      }
      assert AdminRows(admins, survivor) == AdminRows(before, survivor) + if moved then rows else {};
      assert forall p :: p != duplicate && p != survivor ==> AdminRows(admins, p) == AdminRows(before, p);
      AdminsPassOn(before, admins, duplicate, survivor);
    }

    /** Both repoints in one transaction. */
    method MergePersons(survivor: PersonId, duplicate: PersonId) returns (r: MergeResult)
      requires survivor != duplicate && UniqueHeld(assignments) && UniqueAdmins(admins)
      modifies this
      ensures UniqueHeld(assignments) && UniqueAdmins(admins)
      ensures assignments == Merged(old(assignments), duplicate, survivor)
      ensures Held(assignments, duplicate) == {} && AdminRows(admins, duplicate) == {}
      ensures |r.moved| == |Movable(old(assignments), duplicate, survivor)|
      ensures |r.moved| + |r.revoked| == |Held(old(assignments), duplicate)|
      ensures r.adminMoved <==> AdminRows(old(admins), duplicate) != {} && AdminRows(old(admins), survivor) == {}
      ensures r.adminRevoked <==> AdminRows(old(admins), duplicate) != {} && AdminRows(old(admins), survivor) != {}
      ensures AdminsOf(admins) == AdminsAfter(AdminsOf(old(admins)), duplicate, survivor)
    {
      MergeLeavesIndexed(assignments, duplicate, survivor);
      var moved, revoked := RepointRoleAssignments(duplicate, survivor);
      var adminMoved, adminRevoked := RepointInstanceAdmin(duplicate, survivor);
      r := MergeResult(moved, revoked, adminMoved, adminRevoked);
    }
  }

  // ---- decisions after a merge

  function KeyAssignment(k: Key): Assignment {
    Assignment(R(0), k.roleId, k.target, k.scope, k.graph, false, None)
  }

  /** A key confers the action on the unit, by its role's permissions and the raw edges. */
  ghost predicate KeyConfers(roles: map<Rid, Role>, graphs: map<GraphId, Graph>, k: Key, action: Permission, unit: UnitId) {
    && k.roleId in roles && !roles[k.roleId].deleted && action in roles[k.roleId].perms
    && AssignmentReaches(graphs, KeyAssignment(k), unit)
  }

  lemma ConfersByKey(store: Store, graphs: map<GraphId, Graph>, person: PersonId, action: Permission, unit: UnitId,
                     now: Time)
    ensures (exists id :: Confers(store, graphs, id, person, action, unit, now))
       <==> exists k :: k in EffectiveKeys(store.assignments, person, now) && KeyConfers(store.roles, graphs, k, action, unit)
  {
    if id :| Confers(store, graphs, id, person, action, unit, now) {
      var k := KeyOf(store.assignments[id]);
      assert id in Held(store.assignments, person);
      assert k in EffectiveKeys(store.assignments, person, now) && KeyConfers(store.roles, graphs, k, action, unit);
    }
    if k :| k in EffectiveKeys(store.assignments, person, now) && KeyConfers(store.roles, graphs, k, action, unit) {
      var id :| id in Held(store.assignments, person) && Unexpired(store.assignments[id], now) && KeyOf(store.assignments[id]) == k;
      assert Confers(store, graphs, id, person, action, unit, now);
    }
  }

  function StoreAfter(store: Store, duplicate: PersonId, survivor: PersonId): Store {
    store.(assignments := Merged(store.assignments, duplicate, survivor),
           admins := AdminsAfter(store.admins, duplicate, survivor))
  }

  /** A live key of the duplicate confers the action, and the survivor held no row for it. */
  ghost predicate Inherits(store: Store, graphs: map<GraphId, Graph>, duplicate: PersonId, survivor: PersonId,
                           action: Permission, unit: UnitId, now: Time) {
    exists k :: k in EffectiveKeys(store.assignments, duplicate, now) && !HoldsKey(store.assignments, survivor, k)
                && KeyConfers(store.roles, graphs, k, action, unit)
  }

  /** Exactly what the survivor may do after a merge; the duplicate may do nothing. */
  lemma MergedAuthority(store: Store, graphs: map<GraphId, Graph>, duplicate: PersonId, survivor: PersonId,
                        action: Permission, unit: UnitId, now: Time)
    requires duplicate != survivor
    ensures var after := StoreAfter(store, duplicate, survivor);
            && !May(after, graphs, duplicate, action, unit, now)
            && (May(after, graphs, survivor, action, unit, now) <==>
                  || May(store, graphs, survivor, action, unit, now)
                  || duplicate in store.admins
                  || (!IsInstanceScope(action) && Inherits(store, graphs, duplicate, survivor, action, unit, now)))
  {
    var after := StoreAfter(store, duplicate, survivor);
    MergedRows(store.assignments, duplicate, survivor);
    ConfersByKey(store, graphs, survivor, action, unit, now);
    ConfersByKey(after, graphs, survivor, action, unit, now);
    ConfersByKey(after, graphs, duplicate, action, unit, now);
    forall k
      ensures k in EffectiveKeys(after.assignments, survivor, now) <==>
                k in EffectiveKeys(store.assignments, survivor, now)
                || (k in EffectiveKeys(store.assignments, duplicate, now) && !HoldsKey(store.assignments, survivor, k))
    {
      MergedKey(store.assignments, duplicate, survivor, now, k);
    }
  }

  /** So the survivor may do at most what either person could, and all of it when no live key is
      shadowed. */
  lemma MergePreservesAuthority(store: Store, graphs: map<GraphId, Graph>, duplicate: PersonId, survivor: PersonId,
                                action: Permission, unit: UnitId, now: Time)
    requires duplicate != survivor && UniqueHeld(store.assignments)
    ensures var after := StoreAfter(store, duplicate, survivor);
            && !May(after, graphs, duplicate, action, unit, now)
            && (May(store, graphs, survivor, action, unit, now) ==> May(after, graphs, survivor, action, unit, now))
            && (May(after, graphs, survivor, action, unit, now) ==>
                  May(store, graphs, survivor, action, unit, now) || May(store, graphs, duplicate, action, unit, now))
            && (NoneShadowed(store.assignments, duplicate, survivor, now) && May(store, graphs, duplicate, action, unit, now) ==>
                  May(after, graphs, survivor, action, unit, now))
  {
    MergedAuthority(store, graphs, duplicate, survivor, action, unit, now);
    ConfersByKey(store, graphs, survivor, action, unit, now);
    ConfersByKey(store, graphs, duplicate, action, unit, now);
    if NoneShadowed(store.assignments, duplicate, survivor, now) {
      forall k | k in EffectiveKeys(store.assignments, duplicate, now) && HoldsKey(store.assignments, survivor, k)
        ensures k in EffectiveKeys(store.assignments, survivor, now)
      {
        UnshadowedKeyIsHeld(store.assignments, duplicate, survivor, now, k);
      }
    }
  }

  /** Nobody else's authority changes. */
  lemma MergeSparesOthers(store: Store, graphs: map<GraphId, Graph>, duplicate: PersonId, survivor: PersonId,
                          person: PersonId, action: Permission, unit: UnitId, now: Time)
    requires duplicate != survivor && person != duplicate && person != survivor
    ensures May(StoreAfter(store, duplicate, survivor), graphs, person, action, unit, now)
       <==> May(store, graphs, person, action, unit, now)
  {
    var after := StoreAfter(store, duplicate, survivor);
    MergedRows(store.assignments, duplicate, survivor);
    forall id
      ensures Confers(after, graphs, id, person, action, unit, now) <==> Confers(store, graphs, id, person, action, unit, now)
    {
      if id in store.assignments && store.assignments[id].subject == person {
        assert after.assignments[id] == store.assignments[id];
      }
    }
  }

  /** Without expiry dates nothing is ever shadowed. */
  lemma ExpiryFreeIsUnshadowed(table: Table, duplicate: PersonId, survivor: PersonId, now: Time)
    requires forall id :: id in table ==> table[id].expiresAt.None?
    ensures NoneShadowed(table, duplicate, survivor, now)
  {}

  /** With them, a merge can lose authority: the duplicate's lasting grant is revoked as redundant to
      an expired grant of the survivor, and nobody may do any more what the duplicate could. */
  lemma ExpiredRowShadows() returns (store: Store, survivor: PersonId, duplicate: PersonId, now: Time)
    ensures survivor != duplicate && UniqueHeld(store.assignments)
    ensures May(store, map[], duplicate, "unit.read", U(1), now)
    ensures !May(StoreAfter(store, duplicate, survivor), map[], survivor, "unit.read", U(1), now)
  {
    survivor, duplicate, now := R(1), R(2), 10;
    var lapsed := Assignment(survivor, R(7), U(1), ScopeUnit, NoGraph, false, Some(5));
    var lasting := lapsed.(subject := duplicate, expiresAt := None);
    var table := map[R(100) := lapsed, R(200) := lasting];
    store := Store(table, map[R(7) := Role("reader", false, {"unit.read"})], map[], {});
    assert Confers(store, map[], R(200), duplicate, "unit.read", U(1), now);
    MergedAuthority(store, map[], duplicate, survivor, "unit.read", U(1), now);
    assert Held(table, survivor) == {R(100)} && Held(table, duplicate) == {R(200)};
    forall k | k in EffectiveKeys(table, duplicate, now)
      ensures HoldsKey(table, survivor, k)
    {
      assert k == KeyOf(lapsed) && R(100) in Held(table, survivor);
    }
  }
}
