/** What gives authority and what takes it away: the tables change, and exactly this changes in what a
    person may do. */
module AuthorityLaws {
  import opened Options
  import opened Paths
  import opened Pdp
  import opened Authz

  function Granting(store: Store, id: Rid, a: Assignment): Store {
    store.(assignments := store.assignments[id := a])
  }

  function Without(store: Store, id: Rid): Store {
    store.(assignments := store.assignments - {id})
  }

  function Revoking(store: Store, id: Rid): Store
    requires id in store.assignments
  {
    Granting(store, id, store.assignments[id].(revoked := true))
  }

  function Dated(store: Store, id: Rid, expiresAt: Option<Time>): Store
    requires id in store.assignments
  {
    Granting(store, id, store.assignments[id].(expiresAt := expiresAt))
  }

  function DeletingRole(store: Store, roleId: Rid): Store
    requires roleId in store.roles
  {
    store.(roles := store.roles[roleId := store.roles[roleId].(deleted := true)])
  }

  /** Without assignments only admins may do anything, and they may do everything. */
  lemma NobodyMay(store: Store, graphs: map<GraphId, Graph>, person: PersonId, action: Permission, unit: UnitId, now: Time)
    requires store.assignments == map[]
    ensures May(store, graphs, person, action, unit, now) <==> person in store.admins
  {}

  /** What one more assignment gives, in full. */
  lemma GrantAdds(store: Store, graphs: map<GraphId, Graph>, id: Rid, a: Assignment, person: PersonId, action: Permission,
                  unit: UnitId, now: Time)
    requires id !in store.assignments
    ensures May(Granting(store, id, a), graphs, person, action, unit, now) <==>
              || May(store, graphs, person, action, unit, now)
              || (&& action !in {"instance.admin.manage", "role.create", "role.update", "role.delete"}
                  && a.subject == person && !a.revoked && (a.expiresAt.Some? ==> now < a.expiresAt.value)
                  && a.roleId in store.roles && !store.roles[a.roleId].deleted && action in store.roles[a.roleId].perms
                  && (|| (a.scope == ScopeUnit && a.target == unit)
                      || (a.scope == ScopeSubtree && a.graph in graphs && graphs[a.graph].isAuthorityBearing
                          && (a.target == unit || Reaches(graphs[a.graph].edges, a.target, unit)))))
  {
    var t := Granting(store, id, a);
    forall k | k != id
      ensures Confers(t, graphs, k, person, action, unit, now) <==> Confers(store, graphs, k, person, action, unit, now)
    {
      if k in store.assignments { assert t.assignments[k] == store.assignments[k]; }
    }
    assert !Confers(store, graphs, id, person, action, unit, now);
    if a.graph in graphs {
      SelfReach(graphs[a.graph].edges, unit);
    }
    GrantOne(store, graphs, id, a, person, action, unit, now);
  }

  lemma GrantOne(store: Store, graphs: map<GraphId, Graph>, id: Rid, a: Assignment, person: PersonId, action: Permission,
                 unit: UnitId, now: Time)
    ensures Confers(Granting(store, id, a), graphs, id, person, action, unit, now) <==>
              && a.subject == person && !a.revoked && (a.expiresAt.Some? ==> now < a.expiresAt.value)
              && a.roleId in store.roles && !store.roles[a.roleId].deleted && action in store.roles[a.roleId].perms
              && (|| (a.scope == ScopeUnit && a.target == unit)
                  || (a.scope == ScopeSubtree && a.graph in graphs && graphs[a.graph].isAuthorityBearing
                      && Reaches(graphs[a.graph].edges, a.target, unit)))
  {}

  /** An expired assignment counts for nothing, and one that will expire counts in full until then. */
  lemma ExpiryEnds(store: Store, graphs: map<GraphId, Graph>, id: Rid, e: Time, person: PersonId, action: Permission,
                   unit: UnitId, now: Time)
    requires id in store.assignments
    ensures May(Dated(store, id, Some(e)), graphs, person, action, unit, now) <==>
              May(if now < e then Dated(store, id, None) else Without(store, id), graphs, person, action, unit, now)
  {
    var a, rest := store.assignments[id], Without(store, id);
    SameGrant(store, id, a.(expiresAt := Some(e)));
    SameGrant(store, id, a.(expiresAt := None));
    GrantAdds(rest, graphs, id, a.(expiresAt := Some(e)), person, action, unit, now);
    GrantAdds(rest, graphs, id, a.(expiresAt := None), person, action, unit, now);
  }

  /** Changing a row is dropping it and granting anew. */
  lemma SameGrant(store: Store, id: Rid, a: Assignment)
    requires id in store.assignments
    ensures Granting(store, id, a) == Granting(Without(store, id), id, a)
  {}

  /** A revoked assignment is as good as none. */
  lemma RevocationTakes(store: Store, graphs: map<GraphId, Graph>, id: Rid, person: PersonId, action: Permission,
                        unit: UnitId, now: Time)
    requires id in store.assignments
    ensures May(Revoking(store, id), graphs, person, action, unit, now) <==> May(Without(store, id), graphs, person, action, unit, now)
  {
    SameGrant(store, id, store.assignments[id].(revoked := true));
    GrantAdds(Without(store, id), graphs, id, store.assignments[id].(revoked := true), person, action, unit, now);
  }

  /** Deleting a role takes what its assignments gave, and nothing else. */
  lemma RoleDeletionTakes(store: Store, graphs: map<GraphId, Graph>, roleId: Rid, person: PersonId, action: Permission,
                          unit: UnitId, now: Time)
    requires roleId in store.roles
    ensures var others := store.(assignments := map id | id in store.assignments && store.assignments[id].roleId != roleId :: store.assignments[id]);
            May(DeletingRole(store, roleId), graphs, person, action, unit, now) <==> May(others, graphs, person, action, unit, now)
  {
    var others := store.(assignments := map id | id in store.assignments && store.assignments[id].roleId != roleId :: store.assignments[id]);
    forall id
      ensures Confers(DeletingRole(store, roleId), graphs, id, person, action, unit, now) <==>
                Confers(others, graphs, id, person, action, unit, now)
    {}
  }

  /** Authority over a subtree passes down every further edge of its graph. */
  lemma SubtreeFlowsDown(store: Store, graphs: map<GraphId, Graph>, id: Rid, person: PersonId, action: Permission,
                         unit: UnitId, lower: UnitId, now: Time)
    requires Confers(store, graphs, id, person, action, unit, now) && store.assignments[id].scope == ScopeSubtree
    requires Reaches(graphs[store.assignments[id].graph].edges, unit, lower)
    ensures Confers(store, graphs, id, person, action, lower, now)
  {
    var a := store.assignments[id];
    ReachesTransitive(graphs[a.graph].edges, a.target, unit, lower);
  }

  /** The four actions on the instance itself are for admins alone. */
  lemma InstanceActionsAreAdmins(store: Store, graphs: map<GraphId, Graph>, person: PersonId, unit: UnitId, now: Time)
    ensures forall action :: action in {"instance.admin.manage", "role.create", "role.update", "role.delete"} ==>
              (May(store, graphs, person, action, unit, now) <==> person in store.admins)
  {}
}
