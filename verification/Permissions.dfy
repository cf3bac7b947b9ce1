/**
 Permission snapshots and the actions listed in access tokens (pkg/iam/authorization.go,
 pkg/iam/token.go).
 */
module Permissions {
  import opened Texts
  import opened Sets

  datatype Permission = Permission(
    resourceKind: string, resourceId: string, action: string, tenantId: string,
    projectId: string, environmentId: string, namespaceId: string)

  const MAX_SCOPED_PERMISSIONS := 64
  const MAX_POLICY_VERSION_LEN := 128

  predicate ValidAction(action: string) {
    action in {"read", "list", "create", "update", "delete", "execute", "approve", "reject", "cancel", "switchTenant"}
  }

  predicate BoundedOptional(value: string, maximum: nat, required: bool) {
    if value == "" then !required
    else ByteLength(value) <= maximum && '\0' !in value && '\r' !in value && '\n' !in value
  }

  predicate ValidScope(projectId: string, environmentId: string, namespaceId: string) {
    && BoundedOptional(projectId, 128, false) && BoundedOptional(environmentId, 128, false)
    && BoundedOptional(namespaceId, 253, false)
    && (environmentId == "" || projectId != "") && (namespaceId == "" || environmentId != "")
  }

  predicate ValidPermission(p: Permission, tenantId: string) {
    && p.tenantId == tenantId && p.tenantId != "*"
    && BoundedOptional(p.resourceKind, 128, true) && BoundedOptional(p.resourceId, 256, false)
    && ValidAction(p.action) && ValidScope(p.projectId, p.environmentId, p.namespaceId)
  }

  predicate ValidBoundary(policyVersion: string, permissions: seq<Permission>, tenantId: string) {
    && BoundedClaim(policyVersion, MAX_POLICY_VERSION_LEN) && BoundedClaim(tenantId, 128) && tenantId != "*"
    && |permissions| <= MAX_SCOPED_PERMISSIONS
  }

  /** A snapshot in bounds whose permissions are valid for the tenant and all different. */
  predicate ValidSnapshot(policyVersion: string, permissions: seq<Permission>, tenantId: string) {
    && ValidBoundary(policyVersion, permissions, tenantId)
    && (forall i :: 0 <= i < |permissions| ==> ValidPermission(permissions[i], tenantId))
    && Distinct(permissions)
  }

  method ValidatePermissionSnapshot(policyVersion: string, permissions: seq<Permission>, tenantId: string)
    returns (ok: bool)
    ensures ok == ValidSnapshot(policyVersion, permissions, tenantId)
  {
    if !ValidBoundary(policyVersion, permissions, tenantId) { return false; }
    var seen: set<Permission> := {};
    for i := 0 to |permissions|
      invariant forall k :: 0 <= k < i ==> ValidPermission(permissions[k], tenantId)
      invariant forall k :: 0 <= k < i ==> permissions[k] in seen
      invariant forall p <- seen :: p in permissions[..i]
      invariant Distinct(permissions[..i])
    {
      var permission := permissions[i];
      if !ValidPermission(permission, tenantId) { return false; }
      if permission in seen {
        assert permission in permissions[..i];
        return false;
      }
      seen := seen + {permission};
    }
    assert permissions[..|permissions|] == permissions;
    return true;
  }

  /** What a valid snapshot promises: at most 64 permissions, no two alike, every one of the tenant and
      none of a wildcard tenant, with scopes nested in their order. */
  lemma SnapshotMeans(policyVersion: string, permissions: seq<Permission>, tenantId: string)
    requires ValidSnapshot(policyVersion, permissions, tenantId)
    ensures policyVersion != "" && tenantId !in {"", "*"} && |permissions| <= 64
    ensures |Elements(permissions)| == |permissions|
    ensures forall p <- permissions ::
      && p.tenantId == tenantId && p.resourceKind != ""
      && p.action in {"read", "list", "create", "update", "delete", "execute", "approve", "reject", "cancel",
                      "switchTenant"}
      && (p.environmentId != "" ==> p.projectId != "") && (p.namespaceId != "" ==> p.environmentId != "")
  {
    DistinctCount(permissions);
  }

  // ---- allowed actions ------------------------------------------------------------------------

  function ActionSet(permissions: seq<Permission>): set<string> {
    set i | 0 <= i < |permissions| :: permissions[i].action
  }

  /** permissionActions: each action once, in the order of its first permission. */
  method PermissionActions(permissions: seq<Permission>) returns (actions: seq<string>)
    ensures Distinct(actions) && Elements(actions) == ActionSet(permissions) && |actions| <= |permissions|
    ensures forall i, j :: 0 <= i < j < |actions| ==>
              FirstAt(permissions, actions[i]) < FirstAt(permissions, actions[j])
  {
    actions := [];
    var seen: set<string> := {};
    for i := 0 to |permissions|
      invariant seen == Elements(actions) == ActionSet(permissions[..i])
      invariant Distinct(actions) && |actions| <= i
      invariant forall k :: 0 <= k < |actions| ==> FirstAt(permissions, actions[k]) < i
      invariant forall j, k :: 0 <= j < k < |actions| ==>
                  FirstAt(permissions, actions[j]) < FirstAt(permissions, actions[k])
    {
      var action := permissions[i].action;
      OneMoreAction(permissions, i);
      if action !in seen {
        FirstAtIndex(permissions, i);
        assert Elements(actions + [action]) == Elements(actions) + {action};
        seen := seen + {action};
        actions := actions + [action];
      }
    }
    assert permissions[..|permissions|] == permissions;
  }

  /** The index of the first permission with the given action. */
  function FirstAt(permissions: seq<Permission>, action: string): nat {
    if permissions == [] || permissions[0].action == action then 0 else 1 + FirstAt(permissions[1..], action)
  }

  lemma {:induction false} FirstAtIndex(permissions: seq<Permission>, i: nat)
    requires i < |permissions| && permissions[i].action !in ActionSet(permissions[..i])
    ensures FirstAt(permissions, permissions[i].action) == i
  {
    if i > 0 {
      var tail, action := permissions[1..], permissions[i].action;
      assert permissions[..i][0] == permissions[0] && permissions[0].action in ActionSet(permissions[..i]);
      forall a <- ActionSet(tail[..i - 1]) ensures a in ActionSet(permissions[..i]) {
        var k :| 0 <= k < i - 1 && tail[..i - 1][k].action == a;
        assert permissions[..i][k + 1].action == a;
      }
      FirstAtIndex(tail, i - 1);
    }
  }

  lemma OneMoreAction(permissions: seq<Permission>, i: nat)
    requires i < |permissions|
    ensures ActionSet(permissions[..i + 1]) == ActionSet(permissions[..i]) + {permissions[i].action}
  {
    var longer, shorter := permissions[..i + 1], permissions[..i];
    forall a <- ActionSet(longer) ensures a in ActionSet(shorter) + {permissions[i].action} {
      var k :| 0 <= k < |longer| && longer[k].action == a;
      if k < i { assert shorter[k].action == a; }
    }
    forall a <- ActionSet(shorter) ensures a in ActionSet(longer) {
      var k :| 0 <= k < |shorter| && shorter[k].action == a;
      assert longer[k].action == a;
    }
    assert longer[i].action == permissions[i].action;
  }

  /** What an allowed-actions claim must be: a listing, without repetition, of exactly the actions of
      the permissions. */
  predicate IsListing(actions: seq<string>, permissions: seq<Permission>) {
    && |actions| <= MAX_SCOPED_PERMISSIONS
    && (forall i :: 0 <= i < |actions| ==> ValidAction(actions[i]))
    && Distinct(actions) && Elements(actions) == ActionSet(permissions)
  }

  /** validAllowedActions: it never compares sets, yet accepts exactly the listings. */
  method ValidAllowedActions(actions: seq<string>, permissions: seq<Permission>) returns (ok: bool)
    ensures ok == IsListing(actions, permissions)
  {
    if |actions| > MAX_SCOPED_PERMISSIONS { return false; }
    var permissionSet: set<string> := {};
    for i := 0 to |permissions|
      invariant permissionSet == ActionSet(permissions[..i])
    {
      OneMoreAction(permissions, i);
      permissionSet := permissionSet + {permissions[i].action};
    }
    assert permissions[..|permissions|] == permissions;
    var seen: set<string> := {};
    for i := 0 to |actions|
      invariant forall k :: 0 <= k < i ==> ValidAction(actions[k])
      invariant seen == Elements(actions[..i]) && seen <= permissionSet
      invariant Distinct(actions[..i])
    {
      var action := actions[i];
      assert action in Elements(actions) by { assert actions[i] in actions; }
      if !ValidAction(action) || action == "*" { return false; }
      if action !in permissionSet { return false; }
      if action in seen {
        var k :| 0 <= k < i && actions[..i][k] == action;
        assert actions[k] == actions[i];
        return false;
      }
      assert actions[..i + 1] == actions[..i] + [action];
      seen := seen + {action};
    }
    assert actions[..|actions|] == actions;
    DistinctCount(actions);
    if |actions| == |permissionSet| { SubsetOfSameSize(seen, permissionSet); }
    return |actions| == |permissionSet|;
  }

  /** What PermissionActions makes of a valid snapshot is always an accepted listing. */
  lemma ActionsOfSnapshotAreListing(policyVersion: string, permissions: seq<Permission>, tenantId: string,
                                    actions: seq<string>)
    requires ValidSnapshot(policyVersion, permissions, tenantId)
    requires Distinct(actions) && Elements(actions) == ActionSet(permissions) && |actions| <= |permissions|
    ensures IsListing(actions, permissions)
  {
    forall i | 0 <= i < |actions| ensures ValidAction(actions[i]) {
      assert actions[i] in Elements(actions);
      var k :| 0 <= k < |permissions| && permissions[k].action == actions[i];
      assert ValidPermission(permissions[k], tenantId);
    }
  }
}
