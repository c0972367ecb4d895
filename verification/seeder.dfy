/** Start-up seeding: the three system roles, then the default
    administrator. Identity's generated ids and the clock are parameters,
    and so is whether `CreateAsync` accepts the configured password. */
module Seeder {
  import opened Wrappers
  import opened Text
  import opened Entities
  import opened Store

  // ---- roles ----

  const SeedNames: seq<string> := ["Admin", "YardManager", "Driver"]
  const SeedDescriptions: seq<string> := ["System administrator with full access",
    "Manages yard operations and drivers", "Driver with limited operational access"]

  /** The k-th role of the seed list, as `CreateAsync` stores it. */
  function SeedRole(k: nat, id: string, now: Time): (r: Role)
    requires k < 3
    ensures r.name == SeedNames[k] && r.isSystemRole && r.status == "Active" && r.id == id
  {
    Role(id, SeedNames[k], Some(SeedDescriptions[k]), true, "Active", now)
  }

  /** The roles after the first k iterations of the seeding loop: a seed
      role is created only when no role of that name exists. */
  function SeededPrefix(roles: seq<Role>, ids: seq<string>, now: Time, k: nat): seq<Role>
    requires |ids| == 3 && k <= 3
  {
    if k == 0 then roles
    else
      var acc := SeededPrefix(roles, ids, now, k - 1);
      if RoleExists(acc, SeedNames[k - 1]) then acc else acc + [SeedRole(k - 1, ids[k - 1], now)]
  }

  function SeededRoles(roles: seq<Role>, ids: seq<string>, now: Time): seq<Role>
    requires |ids| == 3
  {
    SeededPrefix(roles, ids, now, 3)
  }

  /** A role name that exists keeps existing when a role is appended. */
  lemma RoleExistsAppend(roles: seq<Role>, r: Role, name: string)
    requires RoleExists(roles, name)
    ensures RoleExists(roles + [r], name)
  {
    var i := FindRoleByName(roles, name).value;
    assert (roles + [r])[i] == roles[i];
  }

  /** A role's own name finds it. */
  lemma OwnNameExists(roles: seq<Role>, i: nat)
    requires i < |roles|
    ensures RoleExists(roles, roles[i].name)
  {
    assert SameNormalized(roles[i].name, roles[i].name);
  }

  /** The seeding loop only appends: the original roles stay in front. */
  lemma {:induction false} SeededPrefixKeeps(roles: seq<Role>, ids: seq<string>, now: Time, k: nat)
    requires |ids| == 3 && k <= 3
    ensures |roles| <= |SeededPrefix(roles, ids, now, k)| <= |roles| + k
    ensures SeededPrefix(roles, ids, now, k)[..|roles|] == roles
  {
    if k > 0 {
      SeededPrefixKeeps(roles, ids, now, k - 1);
      var acc := SeededPrefix(roles, ids, now, k - 1);
      assert (acc + [SeedRole(k - 1, ids[k - 1], now)])[..|roles|] == acc[..|roles|];
    }
  }

  /** After the first k iterations the first k seed names exist. */
  lemma {:induction false} SeededPrefixExists(roles: seq<Role>, ids: seq<string>, now: Time, k: nat)
    requires |ids| == 3 && k <= 3
    ensures forall j :: 0 <= j < k ==> RoleExists(SeededPrefix(roles, ids, now, k), SeedNames[j])
  {
    if k > 0 {
      SeededPrefixExists(roles, ids, now, k - 1);
      var acc := SeededPrefix(roles, ids, now, k - 1);
      if !RoleExists(acc, SeedNames[k - 1]) {
        var next := acc + [SeedRole(k - 1, ids[k - 1], now)];
        forall j | 0 <= j < k ensures RoleExists(next, SeedNames[j]) {
          if j < k - 1 {
            RoleExistsAppend(acc, SeedRole(k - 1, ids[k - 1], now), SeedNames[j]);
          } else {
            OwnNameExists(next, |acc|);
          }
        }
      }
    }
  }

  /** Every role the first k iterations add is an active system role with
      a seed name. */
  lemma {:induction false} SeededPrefixAdded(roles: seq<Role>, ids: seq<string>, now: Time, k: nat)
    requires |ids| == 3 && k <= 3
    ensures |roles| <= |SeededPrefix(roles, ids, now, k)|
    ensures forall i :: |roles| <= i < |SeededPrefix(roles, ids, now, k)| ==> IsSeedRole(SeededPrefix(roles, ids, now, k)[i])
  {
    if k > 0 {
      SeededPrefixAdded(roles, ids, now, k - 1);
      var acc := SeededPrefix(roles, ids, now, k - 1);
      if !RoleExists(acc, SeedNames[k - 1]) {
        var r := SeedRole(k - 1, ids[k - 1], now);
        assert IsSeedRole(r);
        var next := acc + [r];
        forall i | |roles| <= i < |next|
          ensures IsSeedRole(next[i])
        {
          if i < |acc| {
            assert next[i] == acc[i];
          } else {
            assert next[i] == r;
          }
        }
      }
    }
  }

  /** An active system role with a seed name. */
  predicate IsSeedRole(r: Role) {
    r.isSystemRole && r.status == "Active" && r.name in SeedNames
  }

  /** After `SeedRoles` the roles Admin, YardManager and Driver all exist;
      the existing roles are kept unchanged in front and every added role
      is an active system role with a seed name. */
  lemma SeedRolesCorrect(roles: seq<Role>, ids: seq<string>, now: Time)
    requires |ids| == 3
    ensures |roles| <= |SeededRoles(roles, ids, now)|
    ensures RoleExists(SeededRoles(roles, ids, now), "Admin")
    ensures RoleExists(SeededRoles(roles, ids, now), "YardManager")
    ensures RoleExists(SeededRoles(roles, ids, now), "Driver")
    ensures SeededRoles(roles, ids, now)[..|roles|] == roles
    ensures forall i :: |roles| <= i < |SeededRoles(roles, ids, now)| ==>
      SeededRoles(roles, ids, now)[i].isSystemRole && SeededRoles(roles, ids, now)[i].status == "Active"
      && SeededRoles(roles, ids, now)[i].name in SeedNames
  {
    SeededPrefixKeeps(roles, ids, now, 3);
    SeededPrefixExists(roles, ids, now, 3);
    SeededPrefixAdded(roles, ids, now, 3);
    assert SeedNames[0] == "Admin" && SeedNames[1] == "YardManager" && SeedNames[2] == "Driver";
  }

  /** When every seed name already exists no iteration adds a role. */
  lemma {:induction false} SeedingAllPresent(roles: seq<Role>, ids: seq<string>, now: Time, k: nat)
    requires |ids| == 3 && k <= 3
    requires forall j :: 0 <= j < 3 ==> RoleExists(roles, SeedNames[j])
    ensures SeededPrefix(roles, ids, now, k) == roles
  {
    if k > 0 {
      SeedingAllPresent(roles, ids, now, k - 1);
    }
  }

  /** Seeding the roles a second time, with any ids and clock, changes
      nothing. */
  lemma SeedRolesIdempotent(roles: seq<Role>, ids1: seq<string>, now1: Time, ids2: seq<string>, now2: Time)
    requires |ids1| == 3 && |ids2| == 3
    ensures SeededRoles(SeededRoles(roles, ids1, now1), ids2, now2) == SeededRoles(roles, ids1, now1)
  {
    var once := SeededRoles(roles, ids1, now1);
    SeededPrefixExists(roles, ids1, now1, 3);
    SeedingAllPresent(once, ids2, now2, 3);
  }

  /** `SeedRoles`: the loop over the seed list, creating each role whose
      name does not exist yet. */
  method SeedRoles(db: Db, ids: seq<string>, now: Time)
    requires db.Valid()
    requires |ids| == 3 && ids[0] != ids[1] && ids[0] != ids[2] && ids[1] != ids[2]
    requires forall j :: 0 <= j < 3 ==> ids[j] !in RoleIds(db.roles)
    modifies db`roles
    ensures db.Valid()
    ensures db.roles == SeededRoles(old(db.roles), ids, now)
  {
    var k := 0;
    while k < 3
      invariant 0 <= k <= 3
      invariant db.Valid()
      invariant db.roles == SeededPrefix(old(db.roles), ids, now, k)
      invariant forall j :: k <= j < 3 ==> ids[j] !in RoleIds(db.roles)
    {
      SeedOne(db, SeedRole(k, ids[k], now));
      k := k + 1;
    }
  }

  /** One iteration of the seeding loop: the role is created only when no
      role of that name exists. */
  method SeedOne(db: Db, role: Role)
    requires db.Valid() && role.id !in RoleIds(db.roles)
    modifies db`roles
    ensures db.Valid()
    ensures db.roles == if RoleExists(old(db.roles), role.name) then old(db.roles) else old(db.roles) + [role]
    ensures RoleIds(db.roles) <= RoleIds(old(db.roles)) + {role.id}
  {
    if !RoleExists(db.roles, role.name) {
      db.InsertRole(role);
    }
  }

  // ---- default administrator ----

  /** The configuration keys under "DefaultAdmin"; a missing key is None. */
  datatype AdminConfig = AdminConfig(email: Option<string>, password: Option<string>,
    firstName: Option<string>, lastName: Option<string>)

  function AdminEmail(cfg: AdminConfig): string { cfg.email.GetOr("admin@yardops.com") }
  function AdminPassword(cfg: AdminConfig): string { cfg.password.GetOr("Admin@123") }

  /** The administrator `SeedDefaultAdmin` creates. */
  function NewAdmin(cfg: AdminConfig, id: string, now: Time): (u: User)
    ensures u.id == id && u.email == Some(AdminEmail(cfg)) && u.userName == Some(AdminEmail(cfg))
    ensures u.status == "Active" && u.emailConfirmed
  {
    User(id, Some(AdminEmail(cfg)), Some(AdminEmail(cfg)), true, cfg.firstName.GetOr("System"),
      cfg.lastName.GetOr("Administrator"), None, "Active", now, None, None)
  }

  datatype AdminOutcome =
    | AdminCreated         // created and added to Admin
    | AdminCreateFailed    // CreateAsync refused, nothing added
    | AdminLinked          // existing administrator added to Admin
    | AdminAlreadyInRole   // nothing to do
    | AdminRoleMissing     // AddToRoleAsync threw: no role named Admin

  datatype AdminSeed = AdminSeed(users: seq<User>, links: seq<UserRole>, outcome: AdminOutcome)

  /** The store after `SeedDefaultAdmin`. */
  function SeedAdmin(users: seq<User>, links: seq<UserRole>, roles: seq<Role>, cfg: AdminConfig, newId: string,
                     now: Time, createOk: (User, string) -> bool): (s: AdminSeed)
    ensures FindUserByEmail(users, AdminEmail(cfg)).Some? ==> s.users == users
    ensures s.outcome == AdminCreateFailed ==> s.users == users && s.links == links
    ensures s.outcome == AdminAlreadyInRole ==> s.users == users && s.links == links
  {
    var admin := FindRoleByName(roles, "Admin");
    match FindUserByEmail(users, AdminEmail(cfg))
    case None =>
      var u := NewAdmin(cfg, newId, now);
      if !createOk(u, AdminPassword(cfg)) then AdminSeed(users, links, AdminCreateFailed)
      else if admin.None? then AdminSeed(users + [u], links, AdminRoleMissing)
      else AdminSeed(users + [u], links + [UserRole(newId, roles[admin.value].id)], AdminCreated)
    case Some(i) =>
      if admin.None? then AdminSeed(users, links, AdminRoleMissing)
      else if UserRole(users[i].id, roles[admin.value].id) in links then AdminSeed(users, links, AdminAlreadyInRole)
      else AdminSeed(users, links + [UserRole(users[i].id, roles[admin.value].id)], AdminLinked)
  }

  /** The user holding the administrator e-mail is in the Admin role. */
  ghost predicate AdminInRole(users: seq<User>, links: seq<UserRole>, roles: seq<Role>, email: string) {
    && FindUserByEmail(users, email).Some?
    && FindRoleByName(roles, "Admin").Some?
    && UserRole(users[FindUserByEmail(users, email).value].id, roles[FindRoleByName(roles, "Admin").value].id) in links
  }

  /** Unless `CreateAsync` refuses or there is no Admin role, the
      administrator afterwards exists and is in the Admin role; a created
      administrator is active and confirmed. */
  lemma SeedAdminCorrect(users: seq<User>, links: seq<UserRole>, roles: seq<Role>, cfg: AdminConfig,
                         newId: string, now: Time, createOk: (User, string) -> bool)
    ensures var s := SeedAdmin(users, links, roles, cfg, newId, now, createOk);
      s.outcome !in {AdminCreateFailed, AdminRoleMissing} ==> AdminInRole(s.users, s.links, roles, AdminEmail(cfg))
    ensures var s := SeedAdmin(users, links, roles, cfg, newId, now, createOk);
      s.outcome == AdminCreated ==> s.users == users + [NewAdmin(cfg, newId, now)]
    ensures var s := SeedAdmin(users, links, roles, cfg, newId, now, createOk);
      (s.outcome == AdminRoleMissing <==>
        && FindRoleByName(roles, "Admin").None?
        && (FindUserByEmail(users, AdminEmail(cfg)).Some? || createOk(NewAdmin(cfg, newId, now), AdminPassword(cfg))))
  {
    var s := SeedAdmin(users, links, roles, cfg, newId, now, createOk);
    var email := AdminEmail(cfg);
    if s.outcome == AdminCreated {
      var u := NewAdmin(cfg, newId, now);
      var j := FindUserByEmail(s.users, email);
      assert HasEmail(s.users[|users|], email) by {
        assert SameNormalized(email, email);
      }
      assert j.Some?;
      assert forall k :: 0 <= k < |users| ==> s.users[k] == users[k];
    }
  }

  /** Seeding the administrator again after a run that left them in the
      Admin role changes nothing. */
  lemma SeedAdminIdempotent(users: seq<User>, links: seq<UserRole>, roles: seq<Role>, cfg: AdminConfig,
                            newId: string, now: Time, createOk: (User, string) -> bool)
    requires AdminInRole(users, links, roles, AdminEmail(cfg))
    ensures SeedAdmin(users, links, roles, cfg, newId, now, createOk) == AdminSeed(users, links, AdminAlreadyInRole)
  {
  }

  /** `SeedDefaultAdmin`: create the administrator when the e-mail is
      unknown and put them in Admin after a successful create; otherwise
      only add the existing user to Admin when missing. */
  method SeedDefaultAdmin(db: Db, cfg: AdminConfig, newId: string, now: Time, createOk: (User, string) -> bool)
    returns (outcome: AdminOutcome)
    requires db.Valid() && newId !in UserIds(db.users)
    modifies db`users, db`userRoles
    ensures db.Valid()
    ensures AdminSeed(db.users, db.userRoles, outcome) ==
      SeedAdmin(old(db.users), old(db.userRoles), db.roles, cfg, newId, now, createOk)
  {
    var email := AdminEmail(cfg);
    var admin := FindRoleByName(db.roles, "Admin");
    var found := FindUserByEmail(db.users, email);
    if found.None? {
      var u := NewAdmin(cfg, newId, now);
      if !createOk(u, AdminPassword(cfg)) {
        return AdminCreateFailed;
      }
      db.InsertUser(u);
      if admin.None? {
        return AdminRoleMissing;
      }
      assert UserRole(newId, db.roles[admin.value].id) !in db.userRoles;
      db.InsertLink(newId, admin.value);
      return AdminCreated;
    }
    var i := found.value;
    if admin.None? {
      return AdminRoleMissing;
    }
    var link := UserRole(db.users[i].id, db.roles[admin.value].id);
    if link in db.userRoles {
      return AdminAlreadyInRole;
    }
    assert db.users[i] in db.users;
    db.InsertLink(db.users[i].id, admin.value);
    return AdminLinked;
  }

  /** In start-up order, seeding the roles first means the administrator
      step always finds the Admin role; running both seeders a second time
      leaves the roles and the administrator's membership as they were. */
  lemma StartupSeedingIdempotent(roles: seq<Role>, ids: seq<string>, now: Time, users: seq<User>,
                                 links: seq<UserRole>, cfg: AdminConfig, newId: string,
                                 createOk: (User, string) -> bool,
                                 ids2: seq<string>, now2: Time, newId2: string, createOk2: (User, string) -> bool)
    requires |ids| == 3 && |ids2| == 3
    ensures SeedAdmin(users, links, SeededRoles(roles, ids, now), cfg, newId, now, createOk).outcome != AdminRoleMissing
    ensures var r1 := SeededRoles(roles, ids, now);
      var s1 := SeedAdmin(users, links, r1, cfg, newId, now, createOk);
      s1.outcome != AdminCreateFailed ==>
        && SeededRoles(r1, ids2, now2) == r1
        && SeedAdmin(s1.users, s1.links, SeededRoles(r1, ids2, now2), cfg, newId2, now2, createOk2)
             == AdminSeed(s1.users, s1.links, AdminAlreadyInRole)
  {
    var r1 := SeededRoles(roles, ids, now);
    SeedRolesCorrect(roles, ids, now);
    SeedRolesIdempotent(roles, ids, now, ids2, now2);
    SeedAdminCorrect(users, links, r1, cfg, newId, now, createOk);
    var s1 := SeedAdmin(users, links, r1, cfg, newId, now, createOk);
    if s1.outcome != AdminCreateFailed {
      SeedAdminIdempotent(s1.users, s1.links, r1, cfg, newId2, now2, createOk2);
    }
  }
}
