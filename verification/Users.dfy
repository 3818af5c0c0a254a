/**
 auth-server/src/users/users.service.ts: registration and the upkeep of a user's roles. Calls
 are taken one at a time.
 */
module Users {
  import opened Prelude

  datatype Role = USER | OPERATOR | AUDITOR | ADMIN

  datatype User = User(email: string, roles: seq<Role>)

  datatype UserError = EmailTaken | NoSuchUser | LastRole

  function Without(roles: seq<Role>, role: Role): (out: seq<Role>)
    ensures forall r :: r in out <==> r in roles && r != role
  {
    if roles == [] then []
    else
      assert forall r :: r in roles <==> r == roles[0] || r in roles[1..];
      (if roles[0] != role then [roles[0]] else []) + Without(roles[1..], role)
  }

  predicate NoRepeats(roles: seq<Role>) {
    forall i, j | 0 <= i < j < |roles| :: roles[i] != roles[j]
  }

  predicate ProperRoles(roles: seq<Role>) {
    roles != [] && NoRepeats(roles)
  }

  function AddedRole(roles: seq<Role>, role: Role): seq<Role> {
    if role in roles then roles else roles + [role]
  }

  /** None: the last role cannot be removed. */
  function RemovedRole(roles: seq<Role>, role: Role): Option<seq<Role>> {
    if |roles| == 1 then None else Some(Without(roles, role))
  }

  lemma {:induction false} WithoutKeepsDistinct(roles: seq<Role>, role: Role)
    requires NoRepeats(roles)
    ensures NoRepeats(Without(roles, role))
    ensures |Without(roles, role)| == |roles| - if role in roles then 1 else 0
  {
    if roles != [] {
      var rest := roles[1..];
      WithoutKeepsDistinct(rest, role);
      assert roles[0] !in rest;
      if roles[0] == role {
        assert role !in rest;
      }
    }
  }

  /** The roles left stand as they stood. */
  lemma {:induction false} WithoutSplits(a: seq<Role>, b: seq<Role>, role: Role)
    ensures Without(a + b, role) == Without(a, role) + Without(b, role)
    ensures Without([role], role) == [] && forall x | x != role :: Without([x], role) == [x]
  {
    if a == [] {
      assert a + b == b;
    } else {
      WithoutSplits(a[1..], b, role);
      assert (a + b)[1..] == a[1..] + b;
    }
  }

  lemma {:induction false} WithoutIsEmpty(roles: seq<Role>, role: Role)
    ensures Without(roles, role) == [] <==> forall i | 0 <= i < |roles| :: roles[i] == role
  {
    if roles != [] {
      WithoutIsEmpty(roles[1..], role);
      assert forall i | 0 < i < |roles| :: roles[i] == roles[1..][i - 1];
    }
  }

  /**
   Removing a role leaves the list without roles if and only if it is empty already or holds
   nothing but at least two copies of that role: the guard on length one is enough only
   because `addRole` never lets a role in twice.
   */
  lemma RemovalEmpties(roles: seq<Role>, role: Role)
    ensures RemovedRole(roles, role) == Some([])
            <==> roles == [] || (|roles| >= 2 && forall i | 0 <= i < |roles| :: roles[i] == role)
    ensures ProperRoles(roles) && RemovedRole(roles, role).Some? ==> ProperRoles(RemovedRole(roles, role).value)
    ensures ProperRoles(roles) ==> ProperRoles(AddedRole(roles, role))
  {
    WithoutIsEmpty(roles, role);
    if ProperRoles(roles) {
      WithoutKeepsDistinct(roles, role);
    }
  }

  class UsersService {
    var users: map<string, User>

    ghost predicate Valid()
      reads this
    {
      && (forall id | id in users :: ProperRoles(users[id].roles))
      && (forall a, b | a in users && b in users && users[a].email == users[b].email :: a == b)
    }

    constructor ()
      ensures Valid() && users == map[]
    {
      users := map[];
    }

    method EmailExists(email: string) returns (found: bool)
      ensures found <==> exists id :: id in users && users[id].email == email
    {
      found := exists id | id in users :: users[id].email == email;
    }

    /** `id` is the fresh identifier the database draws; no roles given means USER. */
    method Create(id: string, email: string, roles: Option<seq<Role>>) returns (r: Result<User, UserError>)
      requires Valid() && id !in users
      modifies this
      ensures r.Err? <==> exists k :: k in old(users) && old(users)[k].email == email
      ensures r.Err? ==> r.error == EmailTaken && users == old(users)
      ensures r.Ok? ==> users == old(users)[id := r.value]
      ensures r.Ok? ==> r.value == User(email, roles.GetOr([USER]))
      ensures Valid() <==> r.Err? || ProperRoles(roles.GetOr([USER]))
    {
      var taken := EmailExists(email);
      if taken {
        return Err(EmailTaken);
      }
      var newUser := User(email, if roles.Some? then roles.value else [USER]);
      users := users[id := newUser];
      assert id in users && users[id] == newUser;
      assert forall k | k in old(users) :: users[k] == old(users)[k] && users[k].email != email;
      return Ok(newUser);
    }

    /** Registering always asks for exactly the role USER. */
    method Register(id: string, email: string) returns (r: Result<User, UserError>)
      requires Valid() && id !in users
      modifies this
      ensures Valid()
      ensures r.Ok? ==> users == old(users)[id := User(email, [USER])]
      ensures r.Err? ==> users == old(users)
    {
      r := Create(id, email, Some([USER]));
    }

    method AddRole(userId: string, role: Role) returns (r: Result<User, UserError>)
      requires Valid()
      modifies this
      ensures Valid()
      ensures r.Err? <==> userId !in old(users)
      ensures r.Err? ==> r.error == NoSuchUser && users == old(users)
      ensures r.Ok? ==> && users == old(users)[userId := r.value]
                        && r.value.email == old(users)[userId].email
                        && r.value.roles == AddedRole(old(users)[userId].roles, role)
      // the role is there afterwards, once; the others are as they were, in front
      ensures r.Ok? ==> && role in r.value.roles && old(users)[userId].roles <= r.value.roles
                        && |r.value.roles| <= |old(users)[userId].roles| + 1
                        && forall x :: x in r.value.roles <==> x == role || x in old(users)[userId].roles
    {
      if userId !in users {
        return Err(NoSuchUser);
      }
      var user := users[userId];
      if role !in user.roles {
        user := user.(roles := user.roles + [role]);
        users := users[userId := user];
      }
      return Ok(user);
    }

    /** The roles left are the others, in order, and there always are some. */
    method RemoveRole(userId: string, role: Role) returns (r: Result<User, UserError>)
      requires Valid()
      modifies this
      ensures Valid()
      ensures r.Ok? <==> userId in old(users) && |old(users)[userId].roles| > 1
      ensures r.Ok? ==> && users == old(users)[userId := r.value]
                        && r.value.email == old(users)[userId].email
                        && r.value.roles == Without(old(users)[userId].roles, role) != []
      ensures r.Ok? ==> && role !in r.value.roles
                        && forall x | x != role :: x in r.value.roles <==> x in old(users)[userId].roles
      ensures r.Err? ==> users == old(users) && r.error == if userId in old(users) then LastRole else NoSuchUser
    {
      if userId !in users {
        return Err(NoSuchUser);
      }
      var user := users[userId];
      if |user.roles| == 1 {
        return Err(LastRole);
      }
      RemovalEmpties(user.roles, role);
      user := user.(roles := Without(user.roles, role));
      users := users[userId := user];
      return Ok(user);
    }
  }
}
