/** The persistent store behind the pages: Identity's user, role and
    user-role tables, the `Carriers` table and the `ActivityLogs` table, as
    sequences in storage order, together with the two identity counters
    SQL Server keeps. `Valid` collects the constraints the schema and the
    pages maintain. Each method is one store operation the pages call
    (a `UserManager`, `RoleManager` or `DbContext` call followed by its
    save). */
module Store {
  import opened Wrappers
  import opened Text
  import opened Entities
  import opened Seqs
  import CarrierCodeGenerator

  /** The value of one member of an anonymous `extraData` object. */
  datatype Value = VText(s: Option<string>) | VBool(b: bool) | VTexts(items: seq<string>)

  /** One member of an anonymous `extraData` object, in declaration order. */
  datatype Member = Member(name: string, value: Value)

  type Payload = seq<Member>

  /** The current HTTP request: the signed-in principal's user id, when the
      principal carries one. */
  datatype Request = Request(principalId: Option<string>)

  /** A message handed to the e-mail sender. */
  datatype Email = Email(to: string, subject: string)

  // ---- lookups ----

  ghost function UserIds(users: seq<User>): set<string> {
    set u | u in users :: u.id
  }

  /** `UserManager.FindByIdAsync`. */
  function FindUserById(users: seq<User>, id: string): (r: Option<nat>)
    ensures r.Some? ==> r.value < |users| && users[r.value].id == id
    ensures r.None? ==> id !in UserIds(users)
  {
    IndexWhere(users, (u: User) => u.id == id)
  }

  predicate HasEmail(u: User, email: string) {
    u.email.Some? && SameNormalized(u.email.value, email)
  }

  /** `UserManager.FindByEmailAsync`: e-mails compare after normalisation. */
  function FindUserByEmail(users: seq<User>, email: string): (r: Option<nat>)
    ensures r.Some? ==> r.value < |users| && HasEmail(users[r.value], email)
    ensures r.None? ==> forall j :: 0 <= j < |users| ==> !HasEmail(users[j], email)
  {
    IndexWhere(users, (u: User) => HasEmail(u, email))
  }

  /** `UserManager.GetUserAsync(principal)`: the user the principal names. */
  function SignedInUser(users: seq<User>, request: Option<Request>): (r: Option<User>)
    ensures r.Some? ==> r.value in users && request.Some? && request.value.principalId == Some(r.value.id)
    ensures r.None? ==>
      (request.None? || request.value.principalId.None? || request.value.principalId.value !in UserIds(users))
  {
    if request.None? || request.value.principalId.None? then None
    else match FindUserById(users, request.value.principalId.value)
      case None => None
      case Some(i) => Some(users[i])
  }

  function FindRoleById(roles: seq<Role>, id: string): (r: Option<nat>)
    ensures r.Some? ==> r.value < |roles| && roles[r.value].id == id
    ensures r.None? ==> forall j :: 0 <= j < |roles| ==> roles[j].id != id
  {
    IndexWhere(roles, (r: Role) => r.id == id)
  }

  /** `RoleManager.FindByNameAsync`: names compare after normalisation. */
  function FindRoleByName(roles: seq<Role>, name: string): (r: Option<nat>)
    ensures r.Some? ==> r.value < |roles| && SameNormalized(roles[r.value].name, name)
    ensures r.None? ==> forall j :: 0 <= j < |roles| ==> !SameNormalized(roles[j].name, name)
  {
    IndexWhere(roles, (r: Role) => SameNormalized(r.name, name))
  }

  /** `RoleManager.RoleExistsAsync`. */
  predicate RoleExists(roles: seq<Role>, name: string) {
    FindRoleByName(roles, name).Some?
  }

  /** A link of the user whose role still exists. */
  predicate Resolves(link: UserRole, roles: seq<Role>, userId: string) {
    link.userId == userId && FindRoleById(roles, link.roleId).Some?
  }

  /** The name of the role a resolving link points to. */
  function LinkRoleName(link: UserRole, roles: seq<Role>): string
    requires FindRoleById(roles, link.roleId).Some?
  {
    roles[FindRoleById(roles, link.roleId).value].name
  }

  /** name is the role name of one of the user's links. */
  predicate LinkedName(links: seq<UserRole>, roles: seq<Role>, userId: string, name: string) {
    exists l :: 0 <= l < |links| && Resolves(links[l], roles, userId) && name == LinkRoleName(links[l], roles)
  }

  /** The names of a user's roles, in link order (`GetRolesAsync`): every
      name is that of a role the user is linked to; `RoleNamesInOrder`
      shows that each such link gives one name, in link order. */
  function RoleNamesOf(links: seq<UserRole>, roles: seq<Role>, userId: string): (names: seq<string>)
    ensures |names| <= |links|
    ensures forall k :: 0 <= k < |names| ==> LinkedName(links, roles, userId, names[k])
  {
    if links == [] then []
    else
      var k := |links| - 1;
      var rest := RoleNamesOf(links[..k], roles, userId);
      var names := if Resolves(links[k], roles, userId) then rest + [LinkRoleName(links[k], roles)] else rest;
      RoleNamesStep(links, roles, userId, rest, names);
      names
  }

  lemma RoleNamesStep(links: seq<UserRole>, roles: seq<Role>, userId: string, rest: seq<string>, names: seq<string>)
    requires links != []
    requires forall k :: 0 <= k < |rest| ==> LinkedName(links[..|links| - 1], roles, userId, rest[k])
    requires var last := links[|links| - 1];
      names == if Resolves(last, roles, userId) then rest + [LinkRoleName(last, roles)] else rest
    ensures forall k :: 0 <= k < |names| ==> LinkedName(links, roles, userId, names[k])
  {
    var n := |links| - 1;
    var init := links[..n];
    forall k | 0 <= k < |names|
      ensures LinkedName(links, roles, userId, names[k])
    {
      if k < |rest| {
        assert LinkedName(init, roles, userId, rest[k]);
        var l :| 0 <= l < |init| && Resolves(init[l], roles, userId) && rest[k] == LinkRoleName(init[l], roles);
        assert names[k] == rest[k] && links[l] == init[l];
      } else {
        assert names[k] == LinkRoleName(links[n], roles);
      }
    }
  }

  /** How many of the user's links resolve, counted from the front. */
  function LinkedCount(links: seq<UserRole>, roles: seq<Role>, userId: string): (n: nat)
    ensures n <= |links|
  {
    if links == [] then 0
    else (if Resolves(links[0], roles, userId) then 1 else 0) + LinkedCount(links[1..], roles, userId)
  }

  /** Counting from the back gives the same number. */
  lemma {:induction false} LinkedCountLast(links: seq<UserRole>, roles: seq<Role>, userId: string)
    requires links != []
    ensures LinkedCount(links, roles, userId) ==
      LinkedCount(links[..|links| - 1], roles, userId) + (if Resolves(links[|links| - 1], roles, userId) then 1 else 0)
  {
    if |links| > 1 {
      var rest := links[1..];
      LinkedCountLast(rest, roles, userId);
      assert rest[..|rest| - 1] == links[..|links| - 1][1..];
    }
  }

  /** One name per resolving link of the user, in link order: the link at
      index l gives name number `LinkedCount(links[..l], ...)`, the number of
      the user's resolving links before it. */
  lemma {:induction false} RoleNamesInOrder(links: seq<UserRole>, roles: seq<Role>, userId: string)
    ensures |RoleNamesOf(links, roles, userId)| == LinkedCount(links, roles, userId)
    ensures forall l :: 0 <= l < |links| && Resolves(links[l], roles, userId) ==>
      LinkedCount(links[..l], roles, userId) < |RoleNamesOf(links, roles, userId)| &&
      RoleNamesOf(links, roles, userId)[LinkedCount(links[..l], roles, userId)] == LinkRoleName(links[l], roles)
  {
    if links != [] {
      var init := links[..|links| - 1];
      RoleNamesInOrder(init, roles, userId);
      NamesInOrderStep(links, roles, userId, RoleNamesOf(init, roles, userId), RoleNamesOf(links, roles, userId));
    }
  }

  lemma NamesInOrderStep(links: seq<UserRole>, roles: seq<Role>, userId: string, rest: seq<string>, names: seq<string>)
    requires links != []
    requires var init := links[..|links| - 1];
      && |rest| == LinkedCount(init, roles, userId)
      && forall l :: 0 <= l < |init| && Resolves(init[l], roles, userId) ==>
           LinkedCount(init[..l], roles, userId) < |rest| &&
           rest[LinkedCount(init[..l], roles, userId)] == LinkRoleName(init[l], roles)
    requires var last := links[|links| - 1];
      names == if Resolves(last, roles, userId) then rest + [LinkRoleName(last, roles)] else rest
    ensures |names| == LinkedCount(links, roles, userId)
    ensures forall l :: 0 <= l < |links| && Resolves(links[l], roles, userId) ==>
      LinkedCount(links[..l], roles, userId) < |names| &&
      names[LinkedCount(links[..l], roles, userId)] == LinkRoleName(links[l], roles)
  {
    var n := |links| - 1;
    var init := links[..n];
    LinkedCountLast(links, roles, userId);
    forall l | 0 <= l < |links| && Resolves(links[l], roles, userId)
      ensures LinkedCount(links[..l], roles, userId) < |names| &&
        names[LinkedCount(links[..l], roles, userId)] == LinkRoleName(links[l], roles)
    {
      if l < n {
        assert links[l] == init[l] && links[..l] == init[..l];
      } else {
        assert links[..l] == init;
      }
    }
  }

  /** No resolving link before index l counts as none. */
  lemma {:induction false} LinkedCountZero(links: seq<UserRole>, roles: seq<Role>, userId: string)
    ensures LinkedCount(links, roles, userId) == 0 <==> forall l :: 0 <= l < |links| ==> !Resolves(links[l], roles, userId)
  {
    if links != [] {
      LinkedCountZero(links[1..], roles, userId);
      assert forall l :: 1 <= l < |links| ==> links[l] == links[1..][l - 1];
    }
  }

  /** `roles.FirstOrDefault()`: the role shown for and replaced on a user. */
  function CurrentRole(links: seq<UserRole>, roles: seq<Role>, userId: string): Option<string> {
    var names := RoleNamesOf(links, roles, userId);
    if names == [] then None else Some(names[0])
  }

  /** The current role is that of the user's first link to an existing
      role, and there is none exactly when the user has no such link. */
  lemma CurrentRoleFirstLink(links: seq<UserRole>, roles: seq<Role>, userId: string)
    ensures CurrentRole(links, roles, userId).None? <==>
      forall l :: 0 <= l < |links| ==> !Resolves(links[l], roles, userId)
    ensures forall l ::
      (0 <= l < |links| && Resolves(links[l], roles, userId) && forall m :: 0 <= m < l ==> !Resolves(links[m], roles, userId))
      ==> CurrentRole(links, roles, userId) == Some(LinkRoleName(links[l], roles))
  {
    RoleNamesInOrder(links, roles, userId);
    LinkedCountZero(links, roles, userId);
    forall l | 0 <= l < |links| && Resolves(links[l], roles, userId) && forall m :: 0 <= m < l ==> !Resolves(links[m], roles, userId)
      ensures CurrentRole(links, roles, userId) == Some(LinkRoleName(links[l], roles))
    {
      LinkedCountZero(links[..l], roles, userId);
    }
  }

  /** `GetUsersInRoleAsync(name).Count`: the links to a role. */
  function UsersInRole(links: seq<UserRole>, roleId: string): (n: nat)
    ensures n == 0 <==> forall k :: 0 <= k < |links| ==> links[k].roleId != roleId
  {
    if links == [] then 0
    else UsersInRole(links[..|links| - 1], roleId) + (if links[|links| - 1].roleId == roleId then 1 else 0)
  }

  // ---- the constraints ----

  ghost predicate UsersValid(users: seq<User>) {
    && (forall i, j :: 0 <= i < j < |users| ==> users[i].id != users[j].id)
    && (forall i, j :: 0 <= i < j < |users| && users[i].email.Some? ==> !HasEmail(users[j], users[i].email.value))
  }

  ghost predicate RolesValid(roles: seq<Role>) {
    && (forall i, j :: 0 <= i < j < |roles| ==> roles[i].id != roles[j].id)
    && (forall i, j :: 0 <= i < j < |roles| ==> !SameNormalized(roles[i].name, roles[j].name))
  }

  ghost function RoleIds(roles: seq<Role>): set<string> {
    set r | r in roles :: r.id
  }

  /** Every link joins an existing user to an existing role, at most once. */
  ghost predicate LinksValid(links: seq<UserRole>, users: seq<User>, roles: seq<Role>) {
    && (forall k :: 0 <= k < |links| ==> links[k].userId in UserIds(users) && links[k].roleId in RoleIds(roles))
    && (forall k, l :: 0 <= k < l < |links| ==> links[k] != links[l])
  }

  /** A code of the generator's shape whose number does not exceed the
      carrier's own id. */
  ghost predicate CodeFitsId(c: Carrier) {
    && |c.carrierCode| >= 4
    && c.carrierCode[..4] == CarrierCodeGenerator.Prefix
    && CarrierCodeGenerator.IsDigits(c.carrierCode[4..])
    && CarrierCodeGenerator.DecodeSuffix(c.carrierCode) <= c.carrierId
  }

  /** Carrier ids come from the identity column (1, 1), below its next
      value; codes are unique, as the `IX_Carriers_CarrierCode` index
      demands; every stored value fits its column. */
  ghost predicate CarriersValid(carriers: seq<Carrier>, nextCarrierId: int) {
    && 1 <= nextCarrierId <= CarrierCodeGenerator.Int32Max + 1
    && (forall i :: 0 <= i < |carriers| ==>
          1 <= carriers[i].carrierId < nextCarrierId && CodeFitsId(carriers[i]) && FitsColumns(carriers[i]))
    && (forall i, j :: 0 <= i < j < |carriers| ==> carriers[i].carrierId != carriers[j].carrierId)
    && (forall i, j :: 0 <= i < j < |carriers| ==> carriers[i].carrierCode != carriers[j].carrierCode)
  }

  /** Log ids come from the identity column; every entry's author exists
      (the foreign key on `CreatedBy`). */
  ghost predicate LogsValid(logs: seq<ActivityLog>, users: seq<User>, nextLogId: nat) {
    && (forall i :: 0 <= i < |logs| ==> logs[i].id < nextLogId && logs[i].createdBy in UserIds(users))
    && (forall i, j :: 0 <= i < j < |logs| ==> logs[i].id != logs[j].id)
  }

  /** The entry `LogAsync` appends for an actor, or nothing without one. */
  function LogEntries(actor: Option<User>, id: nat, now: Time, action: string, description: Option<string>,
                      extraData: Option<Payload>, serialize: Payload -> string): (r: seq<ActivityLog>)
    ensures actor.None? ==> r == []
    ensures actor.Some? ==>
      (&& |r| == 1 && r[0].createdBy == actor.value.id && r[0].createdOn == now
       && r[0].action == action && r[0].description == description && r[0].id == id
       && (r[0].jsonData.None? <==> extraData.None?))
  {
    match actor
    case None => []
    case Some(u) =>
      var json := match extraData case None => None case Some(p) => Some(serialize(p));
      [ActivityLog(id, u.id, now, action, description, json)]
  }

  class Db {
    var users: seq<User>
    var roles: seq<Role>
    var userRoles: seq<UserRole>
    var carriers: seq<Carrier>
    var nextCarrierId: int
    var activityLogs: seq<ActivityLog>
    var nextLogId: nat

    ghost predicate Valid()
      reads this
    {
      && UsersValid(users)
      && RolesValid(roles)
      && LinksValid(userRoles, users, roles)
      && CarriersValid(carriers, nextCarrierId)
      && LogsValid(activityLogs, users, nextLogId)
    }

    /** An empty database. */
    constructor ()
      ensures Valid()
      ensures users == [] && roles == [] && userRoles == [] && carriers == [] && activityLogs == []
    {
      users, roles, userRoles, carriers, activityLogs := [], [], [], [], [];
      nextCarrierId, nextLogId := 1, 1;
    }

    /** `UserManager.CreateAsync` that succeeded: a row with a fresh id; the
        caller has checked that no user holds the e-mail. */
    method InsertUser(u: User)
      requires Valid()
      requires u.id !in UserIds(users)
      requires u.email.Some? && FindUserByEmail(users, u.email.value).None?
      modifies this`users
      ensures Valid()
      ensures users == old(users) + [u]
    {
      users := users + [u];
      assert UserIds(users) == UserIds(old(users)) + {u.id};
      forall i, j | 0 <= i < j < |users| && users[i].email.Some?
        ensures !HasEmail(users[j], users[i].email.value)
      {
        if j == |users| - 1 {
          assert !HasEmail(old(users)[i], u.email.value);
        }
      }
    }

    /** `UserManager.UpdateAsync`: the row with the same id is replaced; the
        caller has checked that no other user holds the new e-mail. */
    method UpdateUser(i: nat, u: User)
      requires Valid()
      requires i < |users| && u.id == users[i].id
      requires u.email.Some? ==> forall j :: 0 <= j < |users| && j != i ==> !HasEmail(users[j], u.email.value)
      modifies this`users
      ensures Valid()
      ensures users == old(users)[i := u]
    {
      users := users[i := u];
      assert UserIds(users) == UserIds(old(users)) by {
        forall x | x in UserIds(old(users)) ensures x in UserIds(users) {
          var v :| v in old(users) && v.id == x;
          var k :| 0 <= k < |old(users)| && old(users)[k] == v;
          assert users[k].id == x;
        }
      }
      forall a, b | 0 <= a < b < |users| && users[a].email.Some?
        ensures !HasEmail(users[b], users[a].email.value)
      {
        if a == i {
          assert !HasEmail(users[b], u.email.value);
        } else if b == i {
          if u.email.Some? {
            SameNormalizedSymmetric(u.email.value, users[a].email.value);
          }
        }
      }
    }

    /** `UserManager.AddToRoleAsync` for a role that exists and a user not
        yet in it. */
    method InsertLink(userId: string, roleIndex: nat)
      requires Valid()
      requires userId in UserIds(users) && roleIndex < |roles|
      requires UserRole(userId, roles[roleIndex].id) !in userRoles
      modifies this`userRoles
      ensures Valid()
      ensures userRoles == old(userRoles) + [UserRole(userId, roles[roleIndex].id)]
    {
      userRoles := userRoles + [UserRole(userId, roles[roleIndex].id)];
    }

    /** `UserManager.RemoveFromRoleAsync`: every link of the user to the
        role goes. */
    method RemoveLinks(userId: string, roleId: string)
      requires Valid()
      modifies this`userRoles
      ensures Valid()
      ensures userRoles == LinksWithout(old(userRoles), UserRole(userId, roleId))
    {
      var kept := LinksWithout(userRoles, UserRole(userId, roleId));
      forall k | 0 <= k < |kept| ensures kept[k].userId in UserIds(users) && kept[k].roleId in RoleIds(roles) {
        assert kept[k] in kept;
        var m :| 0 <= m < |userRoles| && userRoles[m] == kept[k];
      }
      userRoles := kept;
    }

    /** `UserManager.DeleteAsync`: the row goes, with its role links and,
        through the cascading foreign key, its activity-log entries; carriers
        it created lose their creator. */
    method DeleteUser(i: nat)
      requires Valid()
      requires i < |users|
      modifies this`users, this`userRoles, this`activityLogs, this`carriers
      ensures Valid()
      ensures users == RemoveAt(old(users), i)
      ensures userRoles == LinksOfOthers(old(userRoles), old(users[i].id))
      ensures activityLogs == LogsOfOthers(old(activityLogs), old(users[i].id))
      ensures carriers == ClearCreator(old(carriers), old(users[i].id))
    {
      var id := users[i].id;
      var users', links', logs', carriers' :=
        RemoveAt(users, i), LinksOfOthers(userRoles, id), LogsOfOthers(activityLogs, id), ClearCreator(carriers, id);
      UserRemovalKeepsValid(users, roles, userRoles, carriers, nextCarrierId, activityLogs, nextLogId, i);
      ghost var roles', nextCarrierId', nextLogId' := roles, nextCarrierId, nextLogId;
      assert RolesValid(roles');
      users, userRoles, activityLogs, carriers := users', links', logs', carriers';
      assert roles == roles' && nextCarrierId == nextCarrierId' && nextLogId == nextLogId';
    }

    /** `RoleManager.CreateAsync` with a fresh id and an unused name. */
    method InsertRole(r: Role)
      requires Valid()
      requires r.id !in RoleIds(roles)
      requires !RoleExists(roles, r.name)
      modifies this`roles
      ensures Valid()
      ensures roles == old(roles) + [r]
      ensures RoleIds(roles) == RoleIds(old(roles)) + {r.id}
    {
      roles := roles + [r];
      assert RoleIds(roles) == RoleIds(old(roles)) + {r.id};
      forall a, b | 0 <= a < b < |roles| ensures !SameNormalized(roles[a].name, roles[b].name) {
        if b == |roles| - 1 {
          SameNormalizedSymmetric(roles[a].name, r.name);
        }
      }
    }

    /** `RoleManager.UpdateAsync`: the row with the same id is replaced; no
        other role holds the new name. */
    method UpdateRole(i: nat, r: Role)
      requires Valid()
      requires i < |roles| && r.id == roles[i].id
      requires forall j :: 0 <= j < |roles| && j != i ==> !SameNormalized(roles[j].name, r.name)
      modifies this`roles
      ensures Valid()
      ensures roles == old(roles)[i := r]
    {
      roles := roles[i := r];
      assert RoleIds(roles) == RoleIds(old(roles)) by {
        forall x | x in RoleIds(old(roles)) ensures x in RoleIds(roles) {
          var v :| v in old(roles) && v.id == x;
          var k :| 0 <= k < |old(roles)| && old(roles)[k] == v;
          assert roles[k].id == x;
        }
      }
      forall a, b | 0 <= a < b < |roles| ensures !SameNormalized(roles[a].name, roles[b].name) {
        if a == i {
          SameNormalizedSymmetric(roles[b].name, r.name);
        }
      }
    }

    /** `RoleManager.DeleteAsync` of a role no user is linked to. */
    method DeleteRole(i: nat)
      requires Valid()
      requires i < |roles| && UsersInRole(userRoles, roles[i].id) == 0
      modifies this`roles
      ensures Valid()
      ensures roles == RemoveAt(old(roles), i)
    {
      var oldRoles := roles;
      roles := RemoveAt(roles, i);
      forall k | 0 <= k < |userRoles| ensures userRoles[k].roleId in RoleIds(roles) {
        var x := userRoles[k].roleId;
        var v :| v in oldRoles && v.id == x;
        var m :| 0 <= m < |oldRoles| && oldRoles[m] == v;
        assert m != i;
        if m < i { assert roles[m] == v; } else { assert roles[m - 1] == v; }
      }
      forall a, b | 0 <= a < b < |roles| ensures roles[a].id != roles[b].id && !SameNormalized(roles[a].name, roles[b].name) {
        if b < i {
        } else if a < i {
          assert roles[b] == oldRoles[b + 1];
        } else {
          assert roles[a] == oldRoles[a + 1] && roles[b] == oldRoles[b + 1];
        }
      }
    }

    /** `Carriers.Add` and `SaveChangesAsync`: the identity column assigns
        the next id. The caller supplies a code that no carrier holds and
        whose number does not exceed that id, and a row that fits the
        columns (a longer value makes the save throw, which the pages
        model). */
    method InsertCarrier(c: Carrier) returns (id: int)
      requires Valid()
      requires nextCarrierId <= CarrierCodeGenerator.Int32Max
      requires CodeFitsId(c.(carrierId := nextCarrierId))
      requires forall j :: 0 <= j < |carriers| ==> carriers[j].carrierCode != c.carrierCode
      requires FitsColumns(c)
      modifies this`carriers, this`nextCarrierId
      ensures Valid()
      ensures id == old(nextCarrierId) && nextCarrierId == id + 1
      ensures carriers == old(carriers) + [c.(carrierId := id)]
    {
      id := nextCarrierId;
      carriers := carriers + [c.(carrierId := id)];
      nextCarrierId := nextCarrierId + 1;
    }

    /** `SaveChangesAsync` after editing a carrier's fields in place; its
        id and code are kept, and the edited row fits the columns. */
    method UpdateCarrier(i: nat, c: Carrier)
      requires Valid()
      requires i < |carriers| && c.carrierId == carriers[i].carrierId && c.carrierCode == carriers[i].carrierCode
      requires FitsColumns(c)
      modifies this`carriers
      ensures Valid()
      ensures carriers == old(carriers)[i := c]
    {
      carriers := carriers[i := c];
    }

    /** `Carriers.Remove` and `SaveChangesAsync`. */
    method DeleteCarrier(i: nat)
      requires Valid()
      requires i < |carriers|
      modifies this`carriers
      ensures Valid()
      ensures carriers == RemoveAt(old(carriers), i)
    {
      var old_ := carriers;
      carriers := RemoveAt(carriers, i);
      forall a, b | 0 <= a < b < |carriers|
        ensures carriers[a].carrierId != carriers[b].carrierId && carriers[a].carrierCode != carriers[b].carrierCode
      {
        if b < i {
        } else if a < i {
          assert carriers[b] == old_[b + 1];
        } else {
          assert carriers[a] == old_[a + 1] && carriers[b] == old_[b + 1];
        }
      }
    }

    /** `ActivityLogs.Add` and `SaveChangesAsync` of an entry by an existing
        user. */
    method AppendLogs(entries: seq<ActivityLog>)
      requires Valid()
      requires |entries| <= 1
      requires forall e :: e in entries ==> e.id == nextLogId && e.createdBy in UserIds(users)
      modifies this`activityLogs, this`nextLogId
      ensures Valid()
      ensures activityLogs == old(activityLogs) + entries
      ensures nextLogId == old(nextLogId) + |entries|
    {
      activityLogs := activityLogs + entries;
      nextLogId := nextLogId + |entries|;
    }
  }

  /** The links that do not match one given link. */
  function LinksWithout(links: seq<UserRole>, link: UserRole): (r: seq<UserRole>)
    ensures forall l :: l in r <==> l in links && l != link
    ensures (forall k, l :: 0 <= k < l < |links| ==> links[k] != links[l]) ==>
      forall k, l :: 0 <= k < l < |r| ==> r[k] != r[l]
  {
    var p := (l: UserRole) => l != link;
    if forall k, l :: 0 <= k < l < |links| ==> links[k] != links[l] then
      FilterDistinct(links, p);
      Filter(links, p)
    else Filter(links, p)
  }

  /** The links of every user but one. */
  function LinksOfOthers(links: seq<UserRole>, userId: string): (r: seq<UserRole>)
    ensures forall l :: l in r <==> l in links && l.userId != userId
    ensures (forall k, l :: 0 <= k < l < |links| ==> links[k] != links[l]) ==>
      forall k, l :: 0 <= k < l < |r| ==> r[k] != r[l]
  {
    var p := (l: UserRole) => l.userId != userId;
    if forall k, l :: 0 <= k < l < |links| ==> links[k] != links[l] then
      FilterDistinct(links, p);
      Filter(links, p)
    else Filter(links, p)
  }

  /** The entries of every author but one. */
  function LogsOfOthers(logs: seq<ActivityLog>, userId: string): (r: seq<ActivityLog>)
    ensures forall l :: l in r <==> l in logs && l.createdBy != userId
    ensures (forall i, j :: 0 <= i < j < |logs| ==> logs[i].id != logs[j].id) ==>
      forall i, j :: 0 <= i < j < |r| ==> r[i].id != r[j].id
  {
    var p := (l: ActivityLog) => l.createdBy != userId;
    if forall i, j :: 0 <= i < j < |logs| ==> logs[i].id != logs[j].id then
      FilterIdsDistinct(logs, p);
      Filter(logs, p)
    else Filter(logs, p)
  }

  /** `ON DELETE SET NULL` on `CreatedBy`: every carrier stays in place
      with all but its creator unchanged; the deleted user as creator
      becomes null, any other creator is kept, and afterwards no carrier
      refers to the user. */
  function ClearCreator(carriers: seq<Carrier>, userId: string): (r: seq<Carrier>)
    ensures |r| == |carriers|
    ensures forall k :: 0 <= k < |r| ==> r[k].(createdBy := carriers[k].createdBy) == carriers[k]
    ensures forall k :: 0 <= k < |r| ==>
      (r[k].createdBy.None? <==> carriers[k].createdBy.None? || carriers[k].createdBy == Some(userId))
    ensures forall k :: 0 <= k < |r| && r[k].createdBy.Some? ==> r[k].createdBy == carriers[k].createdBy
    ensures forall k :: 0 <= k < |r| ==> r[k].createdBy != Some(userId)
  {
    seq(|carriers|, k requires 0 <= k < |carriers| =>
      if carriers[k].createdBy == Some(userId) then carriers[k].(createdBy := None) else carriers[k])
  }

  /** Removing a user with every row that depends on it keeps the store
      valid. */
  lemma UserRemovalKeepsValid(users: seq<User>, roles: seq<Role>, links: seq<UserRole>, carriers: seq<Carrier>,
                              nextCarrierId: int, logs: seq<ActivityLog>, nextLogId: nat, i: nat)
    requires i < |users| && UsersValid(users) && LinksValid(links, users, roles)
    requires CarriersValid(carriers, nextCarrierId) && LogsValid(logs, users, nextLogId)
    ensures UsersValid(RemoveAt(users, i))
    ensures LinksValid(LinksOfOthers(links, users[i].id), RemoveAt(users, i), roles)
    ensures CarriersValid(ClearCreator(carriers, users[i].id), nextCarrierId)
    ensures LogsValid(LogsOfOthers(logs, users[i].id), RemoveAt(users, i), nextLogId)
  {
    RemoveUserKeepsUsersValid(users, i);
    LinksAfterUserRemoval(links, users, roles, i);
    LogsAfterUserRemoval(logs, users, nextLogId, i);
    ClearCreatorKeepsValid(carriers, nextCarrierId, users[i].id);
  }

  /** Once a user and the links of that user are gone, every remaining
      link still joins an existing user to an existing role. */
  lemma LinksAfterUserRemoval(links: seq<UserRole>, users: seq<User>, roles: seq<Role>, i: nat)
    requires i < |users| && UsersValid(users) && LinksValid(links, users, roles)
    ensures LinksValid(LinksOfOthers(links, users[i].id), RemoveAt(users, i), roles)
  {
    var r := LinksOfOthers(links, users[i].id);
    RemovedIds(users, i);
    forall k | 0 <= k < |r| ensures r[k].userId in UserIds(RemoveAt(users, i)) && r[k].roleId in RoleIds(roles) {
      assert r[k] in r;
      var m :| 0 <= m < |links| && links[m] == r[k];
    }
  }

  /** Once a user and that user's entries are gone, every remaining entry
      still has an existing author. */
  lemma LogsAfterUserRemoval(logs: seq<ActivityLog>, users: seq<User>, nextLogId: nat, i: nat)
    requires i < |users| && UsersValid(users) && LogsValid(logs, users, nextLogId)
    ensures LogsValid(LogsOfOthers(logs, users[i].id), RemoveAt(users, i), nextLogId)
  {
    var r := LogsOfOthers(logs, users[i].id);
    RemovedIds(users, i);
    forall k | 0 <= k < |r| ensures r[k].id < nextLogId && r[k].createdBy in UserIds(RemoveAt(users, i)) {
      assert r[k] in r;
      var m :| 0 <= m < |logs| && logs[m] == r[k];
    }
  }

  /** Clearing creators leaves ids and codes as they were. */
  lemma ClearCreatorKeepsValid(carriers: seq<Carrier>, nextCarrierId: int, userId: string)
    requires CarriersValid(carriers, nextCarrierId)
    ensures CarriersValid(ClearCreator(carriers, userId), nextCarrierId)
  {
    var r := ClearCreator(carriers, userId);
    assert forall k :: 0 <= k < |r| ==> r[k].carrierId == carriers[k].carrierId && r[k].carrierCode == carriers[k].carrierCode;
  }

  /** Removing a user keeps ids and e-mails unique. */
  lemma RemoveUserKeepsUsersValid(users: seq<User>, i: nat)
    requires i < |users| && UsersValid(users)
    ensures UsersValid(RemoveAt(users, i))
  {
    var r := RemoveAt(users, i);
    forall a, b | 0 <= a < b < |r| ensures r[a].id != r[b].id && (r[a].email.Some? ==> !HasEmail(r[b], r[a].email.value)) {
      if b < i {
      } else if a < i {
        assert r[b] == users[b + 1];
      } else {
        assert r[a] == users[a + 1] && r[b] == users[b + 1];
      }
    }
  }

  /** Under the unique-e-mail constraint at most one user holds a given
      (normalised) e-mail. */
  lemma EmailHolderUnique(users: seq<User>, a: nat, b: nat, email: string)
    requires UsersValid(users) && a < |users| && b < |users|
    requires HasEmail(users[a], email) && HasEmail(users[b], email)
    ensures a == b
  {
  }

  /** A changed e-mail that `FindByEmailAsync` finds on a different user. */
  predicate EmailClash(users: seq<User>, i: nat, email: string)
    requires i < |users|
  {
    && users[i].email != Some(email)
    && FindUserByEmail(users, email).Some?
    && users[FindUserByEmail(users, email).value].id != users[i].id
  }

  /** Without a clash no other user holds the submitted e-mail. */
  lemma NoOtherHolder(users: seq<User>, i: nat, email: string)
    requires UsersValid(users) && i < |users|
    requires !EmailClash(users, i, email)
    ensures forall j :: 0 <= j < |users| && j != i ==> !HasEmail(users[j], email)
  {
    forall j | 0 <= j < |users| && j != i ensures !HasEmail(users[j], email) {
      if HasEmail(users[j], email) {
        if users[i].email == Some(email) {
          EmailHolderUnique(users, i, j, email);
        } else {
          var o := FindUserByEmail(users, email).value;
          assert users[o].id == users[i].id;
          EmailHolderUnique(users, o, j, email);
        }
      }
    }
  }


  lemma SameNormalizedSymmetric(a: string, b: string)
    ensures SameNormalized(a, b) <==> SameNormalized(b, a)
  {
  }

  /** Removing one row removes exactly its id when ids are unique. */
  lemma RemovedIds(users: seq<User>, i: nat)
    requires i < |users| && UsersValid(users)
    ensures UserIds(RemoveAt(users, i)) == UserIds(users) - {users[i].id}
  {
    var r := RemoveAt(users, i);
    assert users == r[..i] + [users[i]] + r[i..];
    forall x | x in UserIds(r) ensures x != users[i].id {
      var m :| 0 <= m < |r| && r[m].id == x;
      if m < i { assert r[m] == users[m]; } else { assert r[m] == users[m + 1]; }
    }
  }

  /** Filtering a list without repeats leaves it without repeats. */
  lemma {:induction false} FilterDistinct<T(!new)>(s: seq<T>, p: T -> bool)
    requires forall k, l :: 0 <= k < l < |s| ==> s[k] != s[l]
    ensures forall k, l :: 0 <= k < l < |Filter(s, p)| ==> Filter(s, p)[k] != Filter(s, p)[l]
  {
    if s != [] {
      var init := s[..|s| - 1];
      FilterDistinct(init, p);
      var last := s[|s| - 1];
      assert last !in init;
      assert last !in Filter(init, p);
    }
  }

  /** Filtering a log whose ids are unique keeps them unique. */
  lemma {:induction false} FilterIdsDistinct(logs: seq<ActivityLog>, p: ActivityLog -> bool)
    requires forall i, j :: 0 <= i < j < |logs| ==> logs[i].id != logs[j].id
    ensures forall i, j :: 0 <= i < j < |Filter(logs, p)| ==> Filter(logs, p)[i].id != Filter(logs, p)[j].id
  {
    if logs != [] {
      var init := logs[..|logs| - 1];
      FilterIdsDistinct(init, p);
      var last := logs[|logs| - 1];
      forall x | x in Filter(init, p) ensures x.id != last.id {
        var m :| 0 <= m < |init| && init[m] == x;
        assert logs[m] == x;
      }
      var r0 := Filter(init, p);
      assert forall a, b :: 0 <= a < b < |r0| ==> r0[a].id != r0[b].id;
      assert Filter(logs, p) == r0 + (if p(last) then [last] else []);
      if p(last) {
        var r := r0 + [last];
        forall i, j | 0 <= i < j < |r| ensures r[i].id != r[j].id {
          assert r[i] == r0[i] && r0[i] in r0;
          if j < |r0| {
            assert r[j] == r0[j];
            assert r0[i].id != r0[j].id;
          } else {
            assert r[j] == last;
            assert r0[i].id != last.id;
          }
        }
      }
    }
  }
}
