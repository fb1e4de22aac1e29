/** The `AppRole` enumeration and `CommonUtils.fetchAllAppRoles`. */
module AppRoles {
  import opened Text

  datatype AppRole = AdminRole | UserRole | ManagerRole

  function RoleName(r: AppRole): string {
    match r
    case AdminRole => "ROLE_ADMIN"
    case UserRole => "ROLE_USER"
    case ManagerRole => "ROLE_MANAGER"
  }

  /** `AppRole.values()`, in declaration order. */
  function Values(): seq<AppRole> {
    [AdminRole, UserRole, ManagerRole]
  }

  /** The role name of every enumeration constant, in declaration order. */
  function FetchAllAppRoles(): (r: seq<string>)
    ensures |r| == |Values()|
    ensures forall i :: 0 <= i < |r| ==> r[i] == RoleName(Values()[i])
    ensures forall a: AppRole :: RoleName(a) in r
    ensures forall i, j :: 0 <= i < j < |r| ==> r[i] != r[j]
  {
    var names := seq(|Values()|, i requires 0 <= i < |Values()| => RoleName(Values()[i]));
    assert names[0] == RoleName(AdminRole) && names[1] == RoleName(UserRole) && names[2] == RoleName(ManagerRole);
    names
  }

  /** The names are exactly the three constants' names, in this order. */
  lemma FetchAllAppRolesOrder()
    ensures FetchAllAppRoles() == ["ROLE_ADMIN", "ROLE_USER", "ROLE_MANAGER"]
  {
  }

  /** Some application role name equals `name`, ignoring case. */
  predicate IsAppRoleName(name: string) {
    exists i :: 0 <= i < |FetchAllAppRoles()| && EqualsIgnoreCase(FetchAllAppRoles()[i], name)
  }

  /** A requested name is accepted exactly when it spells one of the constants'
      names, letters compared without regard to case. */
  lemma IsAppRoleNameIff(name: string)
    ensures IsAppRoleName(name) <==> exists a: AppRole :: Lower(RoleName(a)) == Lower(name)
  {
    var names := FetchAllAppRoles();
    if IsAppRoleName(name) {
      var i :| 0 <= i < |names| && EqualsIgnoreCase(names[i], name);
      EqualsIgnoreCaseIffLower(names[i], name);
      assert Lower(RoleName(Values()[i])) == Lower(name);
    }
    if a: AppRole :| Lower(RoleName(a)) == Lower(name) {
      var i := match a case AdminRole => 0 case UserRole => 1 case ManagerRole => 2;
      assert names[i] == RoleName(a);
      EqualsIgnoreCaseIffLower(names[i], name);
    }
  }
}
