/** `RoleServiceImpl` over the role table: roles are unique by name ignoring
    case, except that `createRole` saves without checking. */
module Roles {
  import opened Wrappers
  import opened Text
  import opened Table
  import opened Errors

  datatype Role = Role(id: int, name: string, createdAt: Instant, updatedAt: Option<Instant>)
  datatype RoleRequest = RoleRequest(name: string)
  datatype RoleResponse = RoleResponse(id: int, name: string, createdAt: Instant)

  /** One role per id, and no two role names equal ignoring case. */
  predicate Valid(roles: seq<Role>) {
    Unique(roles, IdKey) && Unique(roles, NameKey)
  }

  function IdKey(r: Role): int { r.id }

  /** The name as `LOWER` compares it. */
  function NameKey(r: Role): string { Lower(r.name) }

  /** `findByRoleName`, i.e. `roleRepository.findByNameIgnoreCase`. */
  function FindByRoleName(roles: seq<Role>, name: string): (r: Option<Role>)
    ensures r.Some? ==> r.value in roles && Lower(r.value.name) == Lower(name)
    ensures r.None? <==> forall k :: 0 <= k < |roles| ==> Lower(roles[k].name) != Lower(name)
  {
    match IndexWhere(roles, (r: Role) => Lower(r.name) == Lower(name))
    case None => None
    case Some(i) => Some(roles[i])
  }

  /** `existsByNameIgnoreCaseAndIdNot`: another role already carries the name. */
  predicate NameTakenByOther(roles: seq<Role>, name: string, id: int) {
    exists k :: 0 <= k < |roles| && roles[k].id != id && Lower(roles[k].name) == Lower(name)
  }

  /** `createNewRole`: reject a name already present ignoring case, otherwise
      add a role carrying exactly the requested name. */
  function CreateNewRole(roles: seq<Role>, req: RoleRequest, now: Instant): (r: Result<(seq<Role>, Role), Failure>)
    ensures r.Err? <==> exists k :: 0 <= k < |roles| && Lower(roles[k].name) == Lower(req.name)
    ensures r.Err? ==> r.error == ResourceAlreadyExist(req.name + " is Role already exist")
    ensures r.Ok? ==> r.value.0 == roles + [r.value.1]
    ensures r.Ok? ==> r.value.1.name == req.name && r.value.1.createdAt == now
    ensures r.Ok? ==> forall k :: 0 <= k < |roles| ==> roles[k].id != r.value.1.id
  {
    if FindByRoleName(roles, req.name).Some? then
      Err(ResourceAlreadyExist(req.name + " is Role already exist"))
    else
      var role := Role(NextId(roles, IdKey), req.name, now, None);
      Ok((roles + [role], role))
  }

  /** `createRole`: save a new role with no duplicate check. */
  function CreateRole(roles: seq<Role>, name: string, createdAt: Instant): (r: (seq<Role>, Role))
    ensures r.0 == roles + [r.1]
    ensures r.1.name == name && r.1.createdAt == createdAt
    ensures forall k :: 0 <= k < |roles| ==> roles[k].id != r.1.id
  {
    var role := Role(NextId(roles, IdKey), name, createdAt, None);
    (roles + [role], role)
  }

  /** `deleteById`: remove the role with this id, or fail when there is none. */
  function DeleteById(roles: seq<Role>, id: int): (r: Result<seq<Role>, Failure>)
    ensures r.Err? <==> forall k :: 0 <= k < |roles| ==> roles[k].id != id
    ensures r.Err? ==> r.error == ResourceNotFound("Error: Role is not found.")
    ensures r.Ok? ==> |r.value| == |roles| - 1
  {
    match DeleteKey(roles, IdKey, id)
    case None => Err(ResourceNotFound("Error: Role is not found."))
    case Some(rest) => Ok(rest)
  }

  /** `updateRole`: not-found is checked before the name conflict, the
      conflict ignores the role's own row, and only the name (and the update
      time) change. */
  function UpdateRole(roles: seq<Role>, id: int, req: RoleRequest, now: Instant): (r: Result<(seq<Role>, Role), Failure>)
    ensures (r.Err? && r.error.ResourceNotFound?) <==> forall k :: 0 <= k < |roles| ==> roles[k].id != id
    ensures r.Err? && r.error.ResourceNotFound? ==> r.error.message == "Error: Role is not found."
    ensures (r.Err? && r.error.ResourceAlreadyExist?) <==>
              (exists k :: 0 <= k < |roles| && roles[k].id == id) && NameTakenByOther(roles, req.name, id)
    ensures r.Err? ==> r.error.ResourceNotFound? || r.error == ResourceAlreadyExist("Role with name " + req.name + " already exists")
    ensures r.Ok? ==> var (roles', role) := r.value;
      && |roles'| == |roles|
      && (exists k :: 0 <= k < |roles| && roles[k].id == id && roles'[k] == role
            && role == roles[k].(name := req.name, updatedAt := Some(now)))
      && forall k :: 0 <= k < |roles| && roles[k].id != id ==> roles'[k] == roles[k]
  {
    match IndexOfKey(roles, IdKey, id)
    case None => Err(ResourceNotFound("Error: Role is not found."))
    case Some(i) =>
      if NameTakenByOther(roles, req.name, id) then
        Err(ResourceAlreadyExist("Role with name " + req.name + " already exists"))
      else
        var role := roles[i].(name := req.name, updatedAt := Some(now));
        Ok((roles[i := role], role))
  }

  /** `mapEntityToResponse`. */
  function MapEntityToResponse(role: Role): (r: RoleResponse)
    ensures r.id == role.id && r.name == role.name && r.createdAt == role.createdAt
  {
    RoleResponse(role.id, role.name, role.createdAt)
  }

  lemma CreateNewRolePreservesValid(roles: seq<Role>, req: RoleRequest, now: Instant)
    requires Valid(roles)
    requires CreateNewRole(roles, req, now).Ok?
    ensures Valid(CreateNewRole(roles, req, now).value.0)
  {
    var (roles', role) := CreateNewRole(roles, req, now).value;
    assert forall k :: 0 <= k < |roles| ==> roles'[k] == roles[k];
    assert roles'[|roles|] == role;
  }

  /** `createRole` alone does not keep names unique: saving "role_user" next
      to "ROLE_USER" yields two roles equal ignoring case. */
  lemma CreateRoleCanDuplicate()
    ensures var roles := [Role(1, "ROLE_USER", 0, None)];
      Valid(roles) && !Valid(CreateRole(roles, "role_user", 0).0)
  {
    var roles := [Role(1, "ROLE_USER", 0, None)];
    var roles' := CreateRole(roles, "role_user", 0).0;
    assert roles'[0].name == "ROLE_USER" && roles'[1].name == "role_user";
    assert Lower(roles'[0].name) == Lower(roles'[1].name);
  }

  /** Deleting removes exactly the role with that id and keeps the table valid. */
  lemma DeleteByIdRemovesExactly(roles: seq<Role>, id: int)
    requires Valid(roles)
    requires DeleteById(roles, id).Ok?
    ensures forall x :: x in DeleteById(roles, id).value <==> x in roles && x.id != id
    ensures Valid(DeleteById(roles, id).value)
  {
    DeleteKeyRemovesExactly(roles, IdKey, id);
    DeleteKeyKeepsUnique(roles, IdKey, id, IdKey);
    DeleteKeyKeepsUnique(roles, IdKey, id, NameKey);
  }

  lemma UpdateRolePreservesValid(roles: seq<Role>, id: int, req: RoleRequest, now: Instant)
    requires Valid(roles)
    requires UpdateRole(roles, id, req, now).Ok?
    ensures Valid(UpdateRole(roles, id, req, now).value.0)
  {
    var i := IndexOfKey(roles, IdKey, id).value;
    var roles' := UpdateRole(roles, id, req, now).value.0;
    assert roles' == roles[i := roles[i].(name := req.name, updatedAt := Some(now))];
    assert !NameTakenByOther(roles, req.name, id);
  }

  /** Renaming a role to its own name in another letter case is not a conflict. */
  lemma UpdateRoleOwnNameAllowed(roles: seq<Role>, id: int, req: RoleRequest, now: Instant)
    requires Valid(roles)
    requires exists k :: 0 <= k < |roles| && roles[k].id == id && Lower(roles[k].name) == Lower(req.name)
    ensures UpdateRole(roles, id, req, now).Ok?
  {
  }
}
