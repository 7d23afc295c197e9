/**
 Narrowing an application's authorization snapshot by the bounds its credentials carry.
 A bound on resources is kept as the order in which its frozen set is enumerated.
 */
module Authorization {
  import opened Prelude

  datatype Permission = Permission(resource: string, scopes: set<string>)

  datatype Snapshot = Snapshot(
    scopes: set<string>,
    roles: set<string>,
    capabilities: set<string>,
    tenantRoles: map<string, set<string>>,
    tenantIds: set<string>,
    resources: set<Permission>,
    attributes: map<string, string>)

  const NO_AUTHORIZATION := Snapshot({}, {}, {}, map[], {}, {}, map[])

  /** None means unbounded, which is not the same as an empty bound. */
  datatype Restrictions = Restrictions(
    scopes: Option<set<string>>,
    roles: Option<set<string>>,
    capabilities: Option<set<string>>,
    tenantIds: Option<set<string>>,
    resources: Option<seq<Permission>>)

  // ------------------------------------------------------------------ the operation

  function Cut(values: set<string>, bound: Option<set<string>>): set<string> {
    if bound.Some? then values * bound.value else values
  }

  function CutTenants(tenants: map<string, set<string>>, bound: Option<set<string>>): map<string, set<string>> {
    if bound.Some? then map t | t in tenants && t in bound.value :: tenants[t] else tenants
  }

  /** A tenant left without any role disappears. */
  function CutTenantRoles(tenants: map<string, set<string>>, bound: Option<set<string>>): map<string, set<string>> {
    if bound.Some? then map t | t in tenants && tenants[t] * bound.value != {} :: tenants[t] * bound.value else tenants
  }

  /** The dictionary built from a bound; a later entry for the same resource wins. */
  function BoundOf(bounds: seq<Permission>): map<string, set<string>> {
    if bounds == [] then map[]
    else BoundOf(bounds[..|bounds| - 1])[bounds[|bounds| - 1].resource := bounds[|bounds| - 1].scopes]
  }

  function IntersectResources(current: set<Permission>, bounds: seq<Permission>): set<Permission> {
    var allowed := BoundOf(bounds);
    set p | p in current && p.resource in allowed :: Permission(p.resource, p.scopes * allowed[p.resource])
  }

  function CutResources(resources: set<Permission>, bound: Option<seq<Permission>>): set<Permission> {
    if bound.Some? then IntersectResources(resources, bound.value) else resources
  }

  function Narrow(s: Snapshot, r: Restrictions): Snapshot {
    Snapshot(
      Cut(s.scopes, r.scopes),
      Cut(s.roles, r.roles),
      Cut(s.capabilities, r.capabilities),
      CutTenantRoles(CutTenants(s.tenantRoles, r.tenantIds), r.roles),
      Cut(s.tenantIds, r.tenantIds),
      CutResources(s.resources, r.resources),
      s.attributes)
  }

  function Resolve(s: Snapshot, rs: seq<Restrictions>): Snapshot {
    if rs == [] then s else Narrow(Resolve(s, rs[..|rs| - 1]), rs[|rs| - 1])
  }

  /** The loop over restrictions, one accumulator per axis. */
  method ResolveAuthorization(snapshot: Snapshot, restrictions: seq<Restrictions>) returns (effective: Snapshot)
    ensures effective == Resolve(snapshot, restrictions)
  {
    var scopes, roles, capabilities := snapshot.scopes, snapshot.roles, snapshot.capabilities;
    var tenantRoles, tenantIds, resources := snapshot.tenantRoles, snapshot.tenantIds, snapshot.resources;
    for i := 0 to |restrictions|
      invariant Snapshot(scopes, roles, capabilities, tenantRoles, tenantIds, resources, snapshot.attributes)
             == Resolve(snapshot, restrictions[..i])
    {
      var restriction := restrictions[i];
      assert restrictions[..i + 1][..i] == restrictions[..i];
      scopes := Cut(scopes, restriction.scopes);
      roles := Cut(roles, restriction.roles);
      capabilities := Cut(capabilities, restriction.capabilities);
      if restriction.tenantIds.Some? {
        tenantRoles := map t | t in tenantRoles && t in restriction.tenantIds.value :: tenantRoles[t];
        tenantIds := tenantIds * restriction.tenantIds.value;
      }
      if restriction.roles.Some? {
        tenantRoles := CutTenantRoles(tenantRoles, restriction.roles);
      }
      if restriction.resources.Some? {
        resources := IntersectResources(resources, restriction.resources.value);
      }
    }
    assert restrictions[..|restrictions|] == restrictions;
    effective := Snapshot(scopes, roles, capabilities, tenantRoles, tenantIds, resources, snapshot.attributes);
  }

  // ------------------------------------------------------------------ closed forms

  ghost predicate ScopeAllowed(rs: seq<Restrictions>, x: string) {
    forall i :: 0 <= i < |rs| && rs[i].scopes.Some? ==> x in rs[i].scopes.value
  }

  ghost predicate RoleAllowed(rs: seq<Restrictions>, x: string) {
    forall i :: 0 <= i < |rs| && rs[i].roles.Some? ==> x in rs[i].roles.value
  }

  ghost predicate CapabilityAllowed(rs: seq<Restrictions>, x: string) {
    forall i :: 0 <= i < |rs| && rs[i].capabilities.Some? ==> x in rs[i].capabilities.value
  }

  ghost predicate TenantAllowed(rs: seq<Restrictions>, t: string) {
    forall i :: 0 <= i < |rs| && rs[i].tenantIds.Some? ==> t in rs[i].tenantIds.value
  }

  ghost predicate RolesBounded(rs: seq<Restrictions>) {
    exists i :: 0 <= i < |rs| && rs[i].roles.Some?
  }

  ghost predicate ResourceAllowed(rs: seq<Restrictions>, resource: string) {
    forall i :: 0 <= i < |rs| && rs[i].resources.Some? ==> resource in BoundOf(rs[i].resources.value)
  }

  ghost predicate ResourceScopeAllowed(rs: seq<Restrictions>, resource: string, x: string)
    requires ResourceAllowed(rs, resource)
  {
    forall i :: 0 <= i < |rs| && rs[i].resources.Some? ==> x in BoundOf(rs[i].resources.value)[resource]
  }

  ghost function AllowedRoles(rs: seq<Restrictions>, roles: set<string>): set<string> {
    set x | x in roles && RoleAllowed(rs, x)
  }

  ghost function AllowedScopes(rs: seq<Restrictions>, p: Permission): set<string>
    requires ResourceAllowed(rs, p.resource)
  {
    set x | x in p.scopes && ResourceScopeAllowed(rs, p.resource, x)
  }

  /**
   What resolution grants, axis by axis. Tenant roles are the snapshot's roles that every
   role bound lists, for tenants every tenant bound lists; a tenant whose set comes out
   empty is dropped exactly when some restriction bounds roles.
   */
  ghost function Granted(s: Snapshot, rs: seq<Restrictions>): Snapshot {
    Snapshot(
      (set x | x in s.scopes && ScopeAllowed(rs, x)),
      AllowedRoles(rs, s.roles),
      (set x | x in s.capabilities && CapabilityAllowed(rs, x)),
      (map t | t in s.tenantRoles && TenantAllowed(rs, t)
               && (RolesBounded(rs) ==> AllowedRoles(rs, s.tenantRoles[t]) != {}) :: AllowedRoles(rs, s.tenantRoles[t])),
      (set t | t in s.tenantIds && TenantAllowed(rs, t)),
      (set p | p in s.resources && ResourceAllowed(rs, p.resource) :: Permission(p.resource, AllowedScopes(rs, p))),
      s.attributes)
  }

  /** Each predicate of the closed form, one restriction at a time. */
  lemma {:induction false} LastRestriction(rs: seq<Restrictions>, x: string)
    requires rs != []
    ensures var before, r := rs[..|rs| - 1], rs[|rs| - 1];
            && (ScopeAllowed(rs, x) <==> ScopeAllowed(before, x) && (r.scopes.Some? ==> x in r.scopes.value))
            && (RoleAllowed(rs, x) <==> RoleAllowed(before, x) && (r.roles.Some? ==> x in r.roles.value))
            && (CapabilityAllowed(rs, x) <==> CapabilityAllowed(before, x) && (r.capabilities.Some? ==> x in r.capabilities.value))
            && (TenantAllowed(rs, x) <==> TenantAllowed(before, x) && (r.tenantIds.Some? ==> x in r.tenantIds.value))
            && (RolesBounded(rs) <==> RolesBounded(before) || r.roles.Some?)
            && (ResourceAllowed(rs, x) <==> ResourceAllowed(before, x) && (r.resources.Some? ==> x in BoundOf(r.resources.value)))
  {
    var before := rs[..|rs| - 1];
    assert forall i :: 0 <= i < |before| ==> rs[i] == before[i];
    if i :| 0 <= i < |before| && before[i].roles.Some? {
      assert rs[i].roles.Some?;
    }
  }

  lemma {:induction false} LastResourceScope(rs: seq<Restrictions>, resource: string, x: string)
    requires rs != [] && ResourceAllowed(rs, resource)
    ensures var before, r := rs[..|rs| - 1], rs[|rs| - 1];
            && ResourceAllowed(before, resource)
            && (ResourceScopeAllowed(rs, resource, x) <==>
                  ResourceScopeAllowed(before, resource, x)
                  && (r.resources.Some? ==> resource in BoundOf(r.resources.value) && x in BoundOf(r.resources.value)[resource]))
  {
    var before := rs[..|rs| - 1];
    assert forall i :: 0 <= i < |before| ==> rs[i] == before[i];
    LastRestriction(rs, resource);
  }

  lemma {:induction false} FlatAxes(s: Snapshot, rs: seq<Restrictions>)
    requires rs != []
    ensures var before, after, r := Granted(s, rs[..|rs| - 1]), Granted(s, rs), rs[|rs| - 1];
            && after.scopes == Cut(before.scopes, r.scopes)
            && after.roles == Cut(before.roles, r.roles)
            && after.capabilities == Cut(before.capabilities, r.capabilities)
            && after.tenantIds == Cut(before.tenantIds, r.tenantIds)
  {
    forall x {
      LastRestriction(rs, x);
    }
  }

  lemma {:induction false} TenantAxis(s: Snapshot, rs: seq<Restrictions>)
    requires rs != []
    ensures var before, r := rs[..|rs| - 1], rs[|rs| - 1];
            Granted(s, rs).tenantRoles == CutTenantRoles(CutTenants(Granted(s, before).tenantRoles, r.tenantIds), r.roles)
  {
    var before, r := rs[..|rs| - 1], rs[|rs| - 1];
    forall t | t in s.tenantRoles
      ensures AllowedRoles(rs, s.tenantRoles[t]) == Cut(AllowedRoles(before, s.tenantRoles[t]), r.roles)
      ensures TenantAllowed(rs, t) <==> TenantAllowed(before, t) && (r.tenantIds.Some? ==> t in r.tenantIds.value)
      ensures RolesBounded(rs) <==> RolesBounded(before) || r.roles.Some?
    {
      LastRestriction(rs, t);
      forall x {
        LastRestriction(rs, x);
      }
    }
    LastRestriction(rs, "");
  }

  lemma {:induction false} ResourceAxis(s: Snapshot, rs: seq<Restrictions>)
    requires rs != []
    ensures Granted(s, rs).resources == CutResources(Granted(s, rs[..|rs| - 1]).resources, rs[|rs| - 1].resources)
  {
    var before, r := rs[..|rs| - 1], rs[|rs| - 1];
    forall p | p in s.resources && ResourceAllowed(rs, p.resource)
      ensures ResourceAllowed(before, p.resource)
      ensures r.resources.Some? ==> p.resource in BoundOf(r.resources.value)
      ensures AllowedScopes(rs, p) ==
              if r.resources.Some? then AllowedScopes(before, p) * BoundOf(r.resources.value)[p.resource]
              else AllowedScopes(before, p)
    {
      LastRestriction(rs, p.resource);
      forall x {
        LastResourceScope(rs, p.resource, x);
      }
    }
    var after, cut := Granted(s, rs).resources, CutResources(Granted(s, before).resources, r.resources);
    forall q | q in after ensures q in cut {
      var p :| p in s.resources && ResourceAllowed(rs, p.resource) && q == Permission(p.resource, AllowedScopes(rs, p));
      assert Permission(p.resource, AllowedScopes(before, p)) in Granted(s, before).resources;
    }
    forall q | q in cut ensures q in after {
      var m :| m in Granted(s, before).resources && m.resource == q.resource
               && (r.resources.Some? ==> m.resource in BoundOf(r.resources.value)
                                         && q.scopes == m.scopes * BoundOf(r.resources.value)[m.resource])
               && (r.resources.None? ==> q == m);
      var p :| p in s.resources && ResourceAllowed(before, p.resource) && m == Permission(p.resource, AllowedScopes(before, p));
      LastRestriction(rs, p.resource);
      assert q == Permission(p.resource, AllowedScopes(rs, p));
    }
  }

  /** Resolution computes exactly the closed form. */
  lemma {:induction false} ResolveIsClosedForm(s: Snapshot, rs: seq<Restrictions>)
    ensures Resolve(s, rs) == Granted(s, rs)
    decreases |rs|
  {
    if rs == [] {
      assert Granted(s, []).resources == s.resources by {
        forall p | p in s.resources ensures Permission(p.resource, AllowedScopes([], p)) == p {}
      }
      assert Granted(s, []).tenantRoles == s.tenantRoles by {
        forall t | t in s.tenantRoles ensures AllowedRoles([], s.tenantRoles[t]) == s.tenantRoles[t] {}
      }
    } else {
      ResolveIsClosedForm(s, rs[..|rs| - 1]);
      FlatAxes(s, rs);
      TenantAxis(s, rs);
      ResourceAxis(s, rs);
    }
  }

  lemma {:induction false} BoundsComeFromEntries(bounds: seq<Permission>, resource: string)
    ensures resource in BoundOf(bounds) <==> exists i :: 0 <= i < |bounds| && bounds[i].resource == resource
    ensures resource in BoundOf(bounds) ==> Permission(resource, BoundOf(bounds)[resource]) in bounds
  {
    if bounds != [] {
      var before, last := bounds[..|bounds| - 1], bounds[|bounds| - 1];
      BoundsComeFromEntries(before, resource);
      assert bounds == before + [last];
      if last.resource == resource {
        assert last in bounds && last == Permission(resource, last.scopes);
      } else if i :| 0 <= i < |bounds| && bounds[i].resource == resource {
        assert before[i] == bounds[i];
      }
    }
  }

  // ------------------------------------------- when enumeration order is immaterial

  /** One entry per resource name. */
  ghost predicate OneEntryPerResource(bounds: set<Permission>) {
    forall p, q :: p in bounds && q in bounds && p.resource == q.resource ==> p == q
  }

  /** The order in which iteration over a set may produce its members, each once. */
  ghost predicate Enumerates(order: seq<Permission>, bounds: set<Permission>) {
    && (forall p :: p in order <==> p in bounds)
    && (forall i, j :: 0 <= i < j < |order| ==> order[i] != order[j])
  }

  /** Two iterations of the bound that cut the current permissions differently. */
  ghost predicate Differ(a: seq<Permission>, b: seq<Permission>, current: set<Permission>, bounds: set<Permission>) {
    Enumerates(a, bounds) && Enumerates(b, bounds) && IntersectResources(current, a) != IntersectResources(current, b)
  }

  ghost predicate OrderMatters(bounds: set<Permission>) {
    exists a, b, current :: Differ(a, b, current, bounds)
  }

  lemma {:induction false} UniqueEntriesFixBound(a: seq<Permission>, b: seq<Permission>, bounds: set<Permission>)
    requires Enumerates(a, bounds) && Enumerates(b, bounds) && OneEntryPerResource(bounds)
    ensures BoundOf(a) == BoundOf(b)
  {
    forall r ensures r in BoundOf(a) <==> r in BoundOf(b)
             ensures r in BoundOf(a) ==> BoundOf(a)[r] == BoundOf(b)[r]
    {
      BoundsComeFromEntries(a, r);
      BoundsComeFromEntries(b, r);
      if i :| 0 <= i < |a| && a[i].resource == r {
        assert a[i] in bounds && a[i] in b;
      }
      if i :| 0 <= i < |b| && b[i].resource == r {
        assert b[i] in bounds && b[i] in a;
      }
    }
  }

  lemma {:induction false} SomeEnumeration(bounds: set<Permission>) returns (order: seq<Permission>)
    ensures Enumerates(order, bounds)
    decreases bounds
  {
    if bounds == {} {
      order := [];
    } else {
      var p :| p in bounds;
      var rest := SomeEnumeration(bounds - {p});
      order := Enumerated(rest, bounds - {p}, p);
      assert bounds - {p} + {p} == bounds;
    }
  }

  lemma Enumerated(rest: seq<Permission>, bounds: set<Permission>, p: Permission) returns (order: seq<Permission>)
    requires Enumerates(rest, bounds) && p !in bounds
    ensures order == rest + [p] && Enumerates(order, bounds + {p})
  {
    order := rest + [p];
    assert forall i :: 0 <= i < |rest| ==> order[i] == rest[i] && rest[i] in bounds;
  }

  lemma {:induction false} LastEntryWins(rest: seq<Permission>, p: Permission)
    ensures BoundOf(rest + [p]) == BoundOf(rest)[p.resource := p.scopes]
  {
    var order := rest + [p];
    assert order != [] && order[|order| - 1] == p;
    assert order[..|order| - 1] == rest;
  }

  lemma IntersectOne(whole: Permission, bounds: seq<Permission>)
    requires whole.resource in BoundOf(bounds)
    ensures IntersectResources({whole}, bounds) == {Permission(whole.resource, whole.scopes * BoundOf(bounds)[whole.resource])}
  {
  }

  /** With two entries for one resource, the one that comes last decides. */
  lemma LastOfTwoDecides(x: seq<Permission>, p: Permission, y: seq<Permission>,
                         q: Permission) returns (current: set<Permission>)
    requires p.resource == q.resource && p != q
    ensures IntersectResources(current, x + [p]) != IntersectResources(current, y + [q])
  {
    var whole := Permission(p.resource, p.scopes + q.scopes);
    current := {whole};
    LastEntryWins(x, p);
    LastEntryWins(y, q);
    IntersectOne(whole, x + [p]);
    IntersectOne(whole, y + [q]);
    assert whole.scopes * p.scopes == p.scopes && whole.scopes * q.scopes == q.scopes;
    assert p in {p} && p !in {q};
  }

  /** Two iterations of one set that end with two entries for one resource, in either order. */
  lemma TwoEnumerations(bounds: set<Permission>, p: Permission, q: Permission) returns (rest: seq<Permission>)
    requires p in bounds && q in bounds && p != q
    ensures Enumerates(rest + [q] + [p], bounds) && Enumerates(rest + [p] + [q], bounds)
  {
    var others := bounds - {p} - {q};
    rest := SomeEnumeration(others);
    var withQ := Enumerated(rest, others, q);
    var withP := Enumerated(rest, others, p);
    var first := Enumerated(withQ, others + {q}, p);
    var second := Enumerated(withP, others + {p}, q);
    assert others + {q} + {p} == bounds && others + {p} + {q} == bounds;
  }

  lemma DuplicateResourceMatters(bounds: set<Permission>)
    requires !OneEntryPerResource(bounds)
    ensures OrderMatters(bounds)
  {
    var p, q :| p in bounds && q in bounds && p.resource == q.resource && p != q;
    var rest := TwoEnumerations(bounds, p, q);
    var current := LastOfTwoDecides(rest + [q], p, rest + [p], q);
    assert Differ(rest + [q] + [p], rest + [p] + [q], current, bounds);
  }

  /**
   A bound means the same whatever order its entries come out in exactly when it has one
   entry per resource name.
   */
  lemma OrderIsImmaterialExactly(bounds: set<Permission>)
    ensures OrderMatters(bounds) <==> !OneEntryPerResource(bounds)
  {
    if OneEntryPerResource(bounds) {
      if a, b, current :| Differ(a, b, current, bounds) {
        UniqueEntriesFixBound(a, b, bounds);
      }
    } else {
      DuplicateResourceMatters(bounds);
    }
  }

  // ------------------------------------------------------------------ main results

  ghost predicate SameMembers(a: seq<Restrictions>, b: seq<Restrictions>) {
    && (forall i :: 0 <= i < |a| ==> a[i] in b)
    && (forall i :: 0 <= i < |b| ==> b[i] in a)
  }

  lemma {:induction false} MoreRestrictionsAllowLess(a: seq<Restrictions>, b: seq<Restrictions>, x: string)
    requires forall i :: 0 <= i < |a| ==> a[i] in b
    ensures ScopeAllowed(b, x) ==> ScopeAllowed(a, x)
    ensures RoleAllowed(b, x) ==> RoleAllowed(a, x)
    ensures CapabilityAllowed(b, x) ==> CapabilityAllowed(a, x)
    ensures TenantAllowed(b, x) ==> TenantAllowed(a, x)
    ensures ResourceAllowed(b, x) ==> ResourceAllowed(a, x)
    ensures RolesBounded(a) ==> RolesBounded(b)
  {
    forall i | 0 <= i < |a| ensures exists j :: 0 <= j < |b| && b[j] == a[i] {
      assert a[i] in b;
    }
  }

  lemma {:induction false} PredicatesDependOnSet(a: seq<Restrictions>, b: seq<Restrictions>, x: string)
    requires SameMembers(a, b)
    ensures ScopeAllowed(a, x) == ScopeAllowed(b, x) && RoleAllowed(a, x) == RoleAllowed(b, x)
    ensures CapabilityAllowed(a, x) == CapabilityAllowed(b, x) && TenantAllowed(a, x) == TenantAllowed(b, x)
    ensures RolesBounded(a) == RolesBounded(b) && ResourceAllowed(a, x) == ResourceAllowed(b, x)
  {
    MoreRestrictionsAllowLess(a, b, x);
    MoreRestrictionsAllowLess(b, a, x);
  }

  lemma {:induction false} ResourceScopesDependOnSet(a: seq<Restrictions>, b: seq<Restrictions>, p: Permission)
    requires SameMembers(a, b) && ResourceAllowed(a, p.resource) && ResourceAllowed(b, p.resource)
    ensures AllowedScopes(a, p) == AllowedScopes(b, p)
  {
    forall i | 0 <= i < |a| ensures exists j :: 0 <= j < |b| && b[j] == a[i] {
      assert a[i] in b;
    }
    forall i | 0 <= i < |b| ensures exists j :: 0 <= j < |a| && a[j] == b[i] {
      assert b[i] in a;
    }
  }

  lemma TenantRolesDependOnSet(s: Snapshot, a: seq<Restrictions>, b: seq<Restrictions>)
    requires SameMembers(a, b)
    ensures Granted(s, a).tenantRoles == Granted(s, b).tenantRoles
    ensures Granted(s, a).tenantIds == Granted(s, b).tenantIds && Granted(s, a).roles == Granted(s, b).roles
  {
    forall x ensures RoleAllowed(a, x) == RoleAllowed(b, x) && TenantAllowed(a, x) == TenantAllowed(b, x) {
      PredicatesDependOnSet(a, b, x);
    }
    PredicatesDependOnSet(a, b, "");
    forall roles: set<string> ensures AllowedRoles(a, roles) == AllowedRoles(b, roles) {}
  }

  lemma ResourcesDependOnSet(s: Snapshot, a: seq<Restrictions>, b: seq<Restrictions>)
    requires SameMembers(a, b)
    ensures Granted(s, a).resources == Granted(s, b).resources
  {
    forall r ensures ResourceAllowed(a, r) == ResourceAllowed(b, r) {
      PredicatesDependOnSet(a, b, r);
    }
    forall p | p in s.resources && ResourceAllowed(a, p.resource) ensures AllowedScopes(a, p) == AllowedScopes(b, p) {
      ResourceScopesDependOnSet(a, b, p);
    }
  }

  lemma ResolveDependsOnMembers(s: Snapshot, a: seq<Restrictions>, b: seq<Restrictions>)
    requires SameMembers(a, b)
    ensures Resolve(s, a) == Resolve(s, b)
  {
    ResolveIsClosedForm(s, a);
    ResolveIsClosedForm(s, b);
    forall x ensures ScopeAllowed(a, x) == ScopeAllowed(b, x) && CapabilityAllowed(a, x) == CapabilityAllowed(b, x) {
      PredicatesDependOnSet(a, b, x);
    }
    TenantRolesDependOnSet(s, a, b);
    ResourcesDependOnSet(s, a, b);
  }

  /** Equal restrictions: a resource bound is a set, so the same one may come out in another order. */
  ghost predicate Alike(r: Restrictions, q: Restrictions) {
    && r.scopes == q.scopes && r.roles == q.roles && r.capabilities == q.capabilities && r.tenantIds == q.tenantIds
    && (r.resources == q.resources || (r.resources.Some? && q.resources.Some? && SameBound(r.resources.value, q.resources.value)))
  }

  /** Two enumerations of one set with one entry per resource. */
  ghost predicate SameBound(a: seq<Permission>, b: seq<Permission>) {
    exists bounds :: Enumerates(a, bounds) && Enumerates(b, bounds) && OneEntryPerResource(bounds)
  }

  ghost predicate OccursIn(r: Restrictions, rs: seq<Restrictions>) {
    exists i :: 0 <= i < |rs| && Alike(r, rs[i])
  }

  /** Each restriction of either list has an equal one in the other. */
  ghost predicate SameRestrictions(a: seq<Restrictions>, b: seq<Restrictions>) {
    (forall i :: 0 <= i < |a| ==> OccursIn(a[i], b)) && (forall i :: 0 <= i < |b| ==> OccursIn(b[i], a))
  }

  lemma AlikeNarrows(s: Snapshot, r: Restrictions, q: Restrictions)
    requires Alike(r, q)
    ensures Narrow(s, r) == Narrow(s, q)
  {
    if r.resources != q.resources {
      var a, b := r.resources.value, q.resources.value;
      var bounds :| Enumerates(a, bounds) && Enumerates(b, bounds) && OneEntryPerResource(bounds);
      UniqueEntriesFixBound(a, b, bounds);
    }
  }

  lemma {:induction false} PointwiseAlike(s: Snapshot, a: seq<Restrictions>, b: seq<Restrictions>)
    requires |a| == |b| && forall i :: 0 <= i < |a| ==> Alike(a[i], b[i])
    ensures Resolve(s, a) == Resolve(s, b)
  {
    if a != [] {
      PointwiseAlike(s, a[..|a| - 1], b[..|b| - 1]);
      AlikeNarrows(Resolve(s, a[..|a| - 1]), a[|a| - 1], b[|b| - 1]);
    }
  }

  lemma {:induction false} Counterparts(a: seq<Restrictions>, b: seq<Restrictions>) returns (c: seq<Restrictions>)
    requires forall i :: 0 <= i < |a| ==> OccursIn(a[i], b)
    ensures |c| == |a| && forall i :: 0 <= i < |a| ==> Alike(a[i], c[i]) && c[i] in b
  {
    if a == [] {
      c := [];
    } else {
      var rest := Counterparts(a[..|a| - 1], b);
      var j :| 0 <= j < |b| && Alike(a[|a| - 1], b[j]);
      c := rest + [b[j]];
    }
  }

  lemma AlikeSymmetric(r: Restrictions, q: Restrictions)
    requires Alike(r, q)
    ensures Alike(q, r)
  {
    if r.resources != q.resources {
      var bounds :| Enumerates(r.resources.value, bounds) && Enumerates(q.resources.value, bounds) && OneEntryPerResource(bounds);
      assert SameBound(q.resources.value, r.resources.value);
    }
  }

  lemma {:induction false} ExtendedPointwise(a: seq<Restrictions>, a': seq<Restrictions>, b: seq<Restrictions>,
                                             b': seq<Restrictions>)
    requires |a| == |a'| && forall i :: 0 <= i < |a| ==> Alike(a[i], a'[i])
    requires |b| == |b'| && forall i :: 0 <= i < |b| ==> Alike(b[i], b'[i])
    ensures |a + b'| == |a' + b| && forall i :: 0 <= i < |a + b'| ==> Alike((a + b')[i], (a' + b)[i])
  {
    forall i | 0 <= i < |a + b'| ensures Alike((a + b')[i], (a' + b)[i]) {
      if i >= |a| {
        AlikeSymmetric(b[i - |a|], b'[i - |a|]);
      }
    }
  }

  /** Restrictions that already occur add nothing, wherever they are put. */
  lemma Absorbs(s: Snapshot, a: seq<Restrictions>, extra: seq<Restrictions>)
    requires forall i :: 0 <= i < |extra| ==> extra[i] in a
    ensures Resolve(s, a + extra) == Resolve(s, a) && Resolve(s, extra + a) == Resolve(s, a)
  {
    assert SameMembers(a + extra, a);
    assert SameMembers(extra + a, a);
    ResolveDependsOnMembers(s, a + extra, a);
    ResolveDependsOnMembers(s, extra + a, a);
  }

  lemma Exchange(s: Snapshot, a: seq<Restrictions>, a': seq<Restrictions>, b: seq<Restrictions>, b': seq<Restrictions>)
    requires |a| == |a'| && forall i :: 0 <= i < |a| ==> Alike(a[i], a'[i])
    requires |b| == |b'| && forall i :: 0 <= i < |b| ==> Alike(b[i], b'[i])
    ensures Resolve(s, a + b') == Resolve(s, a' + b)
  {
    ExtendedPointwise(a, a', b, b');
    PointwiseAlike(s, a + b', a' + b);
  }

  /**
   Permuting or repeating restrictions changes nothing, nor does enumerating an equal
   resource bound differently: only which restrictions occur matters.
   */
  lemma ResolveIgnoresOrderAndRepetition(s: Snapshot, a: seq<Restrictions>, b: seq<Restrictions>)
    requires SameRestrictions(a, b)
    ensures Resolve(s, a) == Resolve(s, b)
  {
    var a' := Counterparts(a, b);
    var b' := Counterparts(b, a);
    Absorbs(s, a, b');
    Exchange(s, a, a', b, b');
    Absorbs(s, b, a');
  }

  /** Resolving a first batch and then the rest is resolving all at once. */
  lemma {:induction false} ResolveInBatches(s: Snapshot, first: seq<Restrictions>, rest: seq<Restrictions>)
    ensures Resolve(s, first + rest) == Resolve(Resolve(s, first), rest)
    decreases |rest|
  {
    if rest == [] {
      assert first + rest == first;
    } else {
      ResolveInBatches(s, first, rest[..|rest| - 1]);
      assert (first + rest)[..|first + rest| - 1] == first + rest[..|rest| - 1];
    }
  }

  /** `a` grants nothing that `b` does not. */
  ghost predicate NoMoreThan(a: Snapshot, b: Snapshot) {
    && a.scopes <= b.scopes && a.roles <= b.roles && a.capabilities <= b.capabilities && a.tenantIds <= b.tenantIds
    && (forall t :: t in a.tenantRoles ==> t in b.tenantRoles && a.tenantRoles[t] <= b.tenantRoles[t])
    && (forall p :: p in a.resources ==> exists q :: q in b.resources && q.resource == p.resource && p.scopes <= q.scopes)
    && a.attributes == b.attributes
  }

  ghost predicate Within(a: Snapshot, r: Restrictions) {
    && (r.scopes.Some? ==> a.scopes <= r.scopes.value)
    && (r.roles.Some? ==> a.roles <= r.roles.value
                          && forall t :: t in a.tenantRoles ==> a.tenantRoles[t] <= r.roles.value && a.tenantRoles[t] != {})
    && (r.capabilities.Some? ==> a.capabilities <= r.capabilities.value)
    && (r.tenantIds.Some? ==> a.tenantIds <= r.tenantIds.value && forall t :: t in a.tenantRoles ==> t in r.tenantIds.value)
    && (r.resources.Some? ==> forall p :: p in a.resources ==>
          exists q :: q in r.resources.value && q.resource == p.resource && p.scopes <= q.scopes)
  }

  /** The effective snapshot never exceeds the application's nor any credential's bound. */
  lemma ResolveNeverExpands(s: Snapshot, rs: seq<Restrictions>, k: nat)
    requires k < |rs|
    ensures NoMoreThan(Resolve(s, rs), s) && Within(Resolve(s, rs), rs[k])
  {
    ResolveIsClosedForm(s, rs);
    var g, r := Granted(s, rs), rs[k];
    forall p | p in g.resources ensures exists q :: q in s.resources && q.resource == p.resource && p.scopes <= q.scopes {
    }
    if r.resources.Some? {
      forall p | p in g.resources ensures exists q :: q in r.resources.value && q.resource == p.resource && p.scopes <= q.scopes {
        BoundsComeFromEntries(r.resources.value, p.resource);
        var q := Permission(p.resource, BoundOf(r.resources.value)[p.resource]);
        assert q in r.resources.value && p.scopes <= q.scopes;
      }
    }
    if r.roles.Some? {
      assert RolesBounded(rs);
    }
  }
}
