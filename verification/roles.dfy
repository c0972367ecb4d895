/** The role administration page: create, edit, delete and the ordered
    role list. `RoleManager`'s results that depend on the database rather
    than on the handler (`CreateAsync`, `UpdateAsync`, `DeleteAsync`) are
    parameters, and so is the validation of the edit form, whose input
    model is not part of this model. */
module RolesPage {
  import opened Wrappers
  import opened Text
  import opened Seqs
  import opened Entities
  import opened Sorting
  import opened Paging
  import opened Store
  import opened Logging
  import opened ChangeSet
  import opened InputModels

  // ---- create ----

  datatype CreateOutcome = CreateInvalid | NameExists | CreateFailed | RoleCreated

  function NewRole(input: CreateRoleInput, id: string, now: Time): Role {
    Role(id, input.name, input.description, false, input.status, now)
  }

  function CreatePayload(r: Role): Payload {
    [Member("RoleId", VText(Some(r.id))), Member("RoleName", VText(Some(r.name))),
     Member("Description", VText(r.description)), Member("Status", VText(Some(r.status)))]
  }

  /** `OnPostCreateAsync`. An invalid form or a name that already exists
      (compared after normalisation) changes nothing; otherwise the role is
      stored, never as a system role, and one CreateRole entry is written
      after `CreateAsync` succeeds. */
  method OnPostCreate(db: Db, logger: ActivityLogger, input: CreateRoleInput, newId: string, createSucceeds: bool)
    returns (outcome: CreateOutcome)
    requires logger.db == db && db.Valid()
    requires newId !in RoleIds(db.roles)
    modifies db`roles, db`activityLogs, db`nextLogId
    ensures db.Valid()
    ensures outcome == CreateInvalid <==> !CreateRoleInputValid(input)
    ensures outcome == NameExists <==> CreateRoleInputValid(input) && RoleExists(old(db.roles), input.name)
    ensures outcome == CreateFailed <==>
      CreateRoleInputValid(input) && !RoleExists(old(db.roles), input.name) && !createSucceeds
    ensures outcome != RoleCreated ==> db.roles == old(db.roles) && db.activityLogs == old(db.activityLogs)
    ensures outcome == RoleCreated ==>
      var r := NewRole(input, newId, logger.utcNow);
      && db.roles == old(db.roles) + [r] && !r.isSystemRole && r.name == input.name
      && db.activityLogs == old(db.activityLogs) + LogEntries(logger.Actor(), old(db.nextLogId), logger.utcNow,
           "CreateRole", Some("Created role " + r.name), Some(CreatePayload(r)), logger.serialize)
  {
    if !CreateRoleInputValid(input) {
      return CreateInvalid;
    }
    if RoleExists(db.roles, input.name) {
      return NameExists;
    }
    var role := NewRole(input, newId, logger.utcNow);
    if !createSucceeds {
      return CreateFailed;
    }
    db.InsertRole(role);
    logger.LogAsync("CreateRole", Some("Created role " + role.name), Some(CreatePayload(role)));
    return RoleCreated;
  }

  // ---- edit ----

  /** The edit form (`EditRoleInput`). */
  datatype EditRoleInput = EditRoleInput(roleId: string, name: string, description: Option<string>, status: string)

  datatype EditOutcome = EditNotFound | EditInvalid | NameTaken | UpdateFailed | RoleEdited

  const RoleFields: seq<Field> := [Field("Name", ""), Field("Description", ""), Field("Status", "")]

  /** The form as validated: a system role's submitted name is replaced by
      its stored name. */
  function Submitted(role: Role, input: EditRoleInput): (s: EditRoleInput)
    ensures role.isSystemRole ==> s.name == role.name
    ensures !role.isSystemRole ==> s == input
    ensures s.description == input.description && s.status == input.status
  {
    if role.isSystemRole then input.(name := role.name) else input
  }

  /** The rename guard: a non-system role may not take a different name
      that already exists. */
  predicate RenameRefused(roles: seq<Role>, i: nat, name: string)
    requires i < |roles|
  {
    !roles[i].isSystemRole && roles[i].name != name && RoleExists(roles, name)
  }

  function RoleValues(r: Role): seq<Option<string>> {
    [Some(r.name), r.description, Some(r.status)]
  }

  function FormValues(s: EditRoleInput): seq<Option<string>> {
    [Some(s.name), s.description, Some(s.status)]
  }

  function EditedRole(r: Role, s: EditRoleInput): Role {
    r.(name := s.name, description := s.description, status := s.status)
  }

  function EditPayload(r: Role, lines: seq<string>): Payload {
    [Member("RoleId", VText(Some(r.id))), Member("IsSystemRole", VBool(r.isSystemRole)),
     Member("ChangedFields", VTexts(lines))]
  }

  /** `OnPostEditAsync`. An unknown role, a form that fails validation,
      a refused rename or a failed `UpdateAsync` change nothing and write no
      entry. Otherwise the lines for Name, Description and Status are
      produced in that order for the differing fields, the role takes the
      values (a system role keeps its name), and one EditRole entry is
      written. */
  method OnPostEdit(db: Db, logger: ActivityLogger, input: EditRoleInput, inputValid: EditRoleInput -> bool,
                    updateSucceeds: bool)
    returns (outcome: EditOutcome, lines: seq<string>)
    requires logger.db == db && db.Valid()
    modifies db`roles, db`activityLogs, db`nextLogId
    ensures db.Valid()
    ensures outcome == EditNotFound <==> FindRoleById(old(db.roles), input.roleId).None?
    ensures outcome != EditNotFound ==>
      var i := FindRoleById(old(db.roles), input.roleId).value;
      var role := old(db.roles)[i];
      var s := Submitted(role, input);
      && (outcome == EditInvalid <==> !inputValid(s))
      && (outcome == NameTaken <==> inputValid(s) && RenameRefused(old(db.roles), i, s.name))
      && (outcome == UpdateFailed <==> inputValid(s) && !RenameRefused(old(db.roles), i, s.name) && !updateSucceeds)
      && (outcome == RoleEdited ==>
            && lines == ChangedLines(RoleFields, RoleValues(role), FormValues(s))
            && db.roles == old(db.roles)[i := EditedRole(role, s)]
            && db.activityLogs == old(db.activityLogs) + LogEntries(logger.Actor(), old(db.nextLogId), logger.utcNow,
                 "EditRole", Some("Edited role " + s.name), Some(EditPayload(role, lines)), logger.serialize))
    ensures outcome != RoleEdited ==> db.roles == old(db.roles) && db.activityLogs == old(db.activityLogs)
  {
    lines := [];
    var found := FindRoleById(db.roles, input.roleId);
    if found.None? {
      return EditNotFound, lines;
    }
    var i := found.value;
    var role := db.roles[i];
    var s := Submitted(role, input);
    if !inputValid(s) {
      return EditInvalid, lines;
    }
    if RenameRefused(db.roles, i, s.name) {
      return NameTaken, [];
    }
    var now;
    now, lines := TrackChanges(RoleFields, RoleValues(role), FormValues(s));
    if !updateSucceeds {
      return UpdateFailed, lines;
    }
    forall j | 0 <= j < |db.roles| && j != i ensures !SameNormalized(db.roles[j].name, s.name) {
      if s.name == role.name {
        if j < i {
          assert !SameNormalized(db.roles[j].name, db.roles[i].name);
        } else {
          assert !SameNormalized(db.roles[i].name, db.roles[j].name);
          SameNormalizedSymmetric(db.roles[i].name, db.roles[j].name);
        }
      }
    }
    db.UpdateRole(i, EditedRole(role, s));
    logger.LogAsync("EditRole", Some("Edited role " + s.name), Some(EditPayload(role, lines)));
    return RoleEdited, lines;
  }

  /** Editing never renames a system role, whatever name is submitted. */
  lemma SystemRoleKeepsName(role: Role, input: EditRoleInput)
    requires role.isSystemRole
    ensures EditedRole(role, Submitted(role, input)).name == role.name
    ensures EditedRole(role, Submitted(role, input)).isSystemRole
  {
  }

  /** A non-system role renamed to a different existing name is refused;
      since existence is checked after normalisation, this includes a
      rename that only changes letter case (the role finds itself). */
  lemma CaseOnlyRenameRefused(roles: seq<Role>, i: nat, name: string)
    requires i < |roles| && !roles[i].isSystemRole
    requires name != roles[i].name && SameNormalized(name, roles[i].name)
    ensures RenameRefused(roles, i, name)
  {
    SameNormalizedSymmetric(name, roles[i].name);
    assert SameNormalized(roles[i].name, name);
  }

  /** Lines are produced only for differing fields, in the order Name,
      Description, Status; a system role never gets a Name line. */
  lemma EditLines(role: Role, input: EditRoleInput)
    ensures var lines := ChangedLines(RoleFields, RoleValues(role), FormValues(Submitted(role, input)));
      && |lines| == DiffCount(RoleValues(role), FormValues(Submitted(role, input)))
      && (lines == [] <==> EditedRole(role, Submitted(role, input)) == role)
    ensures role.isSystemRole ==>
      ChangedLines(RoleFields, RoleValues(role), FormValues(Submitted(role, input)))
        == ChangedLines(RoleFields[1..], RoleValues(role)[1..], FormValues(Submitted(role, input))[1..])
  {
    var cur, sub := RoleValues(role), FormValues(Submitted(role, input));
    LineCount(RoleFields, cur, sub);
    NoLinesIffUnchanged(RoleFields, cur, sub);
    if role.isSystemRole {
      FirstUnchanged(RoleFields, cur, sub);
    }
  }

  // ---- delete ----

  datatype DeleteOutcome = DeleteNotFound | SystemRole | RoleInUse(userCount: nat) | DeleteFailed | RoleDeleted

  /** `OnPostDeleteAsync`. An unknown role, a system role, a role with at
      least one user, or a failed `DeleteAsync` change nothing and write no
      entry; otherwise the role goes and then one DeleteRole entry is
      written. */
  method OnPostDelete(db: Db, logger: ActivityLogger, roleId: string, deleteSucceeds: bool)
    returns (outcome: DeleteOutcome)
    requires logger.db == db && db.Valid()
    modifies db`roles, db`activityLogs, db`nextLogId
    ensures db.Valid()
    ensures outcome == DeleteNotFound <==> FindRoleById(old(db.roles), roleId).None?
    ensures outcome != DeleteNotFound ==>
      var i := FindRoleById(old(db.roles), roleId).value;
      var role := old(db.roles)[i];
      && (outcome == SystemRole <==> role.isSystemRole)
      && (outcome.RoleInUse? <==> !role.isSystemRole && UsersInRole(db.userRoles, role.id) > 0)
      && (outcome.RoleInUse? ==> outcome.userCount == UsersInRole(db.userRoles, role.id))
      && (outcome == DeleteFailed <==>
            !role.isSystemRole && UsersInRole(db.userRoles, role.id) == 0 && !deleteSucceeds)
      && (outcome == RoleDeleted ==>
            && db.roles == RemoveAt(old(db.roles), i)
            && db.activityLogs == old(db.activityLogs) + LogEntries(logger.Actor(), old(db.nextLogId), logger.utcNow,
                 "DeleteRole", Some("Deleted role " + role.name),
                 Some([Member("DeletedRoleId", VText(Some(roleId))), Member("DeletedRoleName", VText(Some(role.name)))]),
                 logger.serialize))
    ensures outcome != RoleDeleted ==> db.roles == old(db.roles) && db.activityLogs == old(db.activityLogs)
  {
    var found := FindRoleById(db.roles, roleId);
    if found.None? {
      return DeleteNotFound;
    }
    var i := found.value;
    var role := db.roles[i];
    if role.isSystemRole {
      return SystemRole;
    }
    var count := UsersInRole(db.userRoles, role.id);
    if count > 0 {
      return RoleInUse(count);
    }
    if !deleteSucceeds {
      return DeleteFailed;
    }
    DeleteAndLog(db, logger, i, roleId);
    return RoleDeleted;
  }

  /** The delete handler past its guards: the role goes, then the entry
      is written. */
  method DeleteAndLog(db: Db, logger: ActivityLogger, i: nat, roleId: string)
    requires logger.db == db && db.Valid() && i < |db.roles|
    requires UsersInRole(db.userRoles, db.roles[i].id) == 0
    modifies db`roles, db`activityLogs, db`nextLogId
    ensures db.Valid()
    ensures var role := old(db.roles)[i];
      && db.roles == RemoveAt(old(db.roles), i)
      && db.activityLogs == old(db.activityLogs) + LogEntries(logger.Actor(), old(db.nextLogId), logger.utcNow,
           "DeleteRole", Some("Deleted role " + role.name),
           Some([Member("DeletedRoleId", VText(Some(roleId))), Member("DeletedRoleName", VText(Some(role.name)))]),
           logger.serialize)
  {
    var role := db.roles[i];
    db.DeleteRole(i);
    logger.LogAsync("DeleteRole", Some("Deleted role " + role.name),
      Some([Member("DeletedRoleId", VText(Some(roleId))), Member("DeletedRoleName", VText(Some(role.name)))]));
  }

  // ---- list ----

  /** A row of the role table (`RoleViewModel`). */
  datatype RoleRow = RoleRow(
    id: string,
    name: string,
    description: Option<string>,
    status: string,
    isSystemRole: bool,
    userCount: nat,
    createdAt: Time)

  function RowOf(r: Role, links: seq<UserRole>): RoleRow {
    RoleRow(r.id, r.name, r.description, r.status, r.isSystemRole, UsersInRole(links, r.id), r.createdAt)
  }

  /** The position class of a row: Admin, YardManager, Driver, the rest. */
  function Rank(name: string): (k: nat)
    ensures k <= 3
  {
    if name == "Admin" then 3 else if name == "YardManager" then 2 else if name == "Driver" then 1 else 0
  }

  /** The rows of one class, newest first. */
  function Group(rows: seq<RoleRow>, k: nat): (g: seq<RoleRow>)
    ensures forall i :: 0 <= i < |g| ==> Rank(g[i].name) == k
    ensures forall i, j :: 0 <= i < j < |g| ==> g[i].createdAt >= g[j].createdAt
  {
    var f := Filter(rows, (r: RoleRow) => Rank(r.name) == k);
    var g := SortDesc(f, (r: RoleRow) => r.createdAt);
    forall i | 0 <= i < |g| ensures Rank(g[i].name) == k {
      assert g[i] in multiset(f);
      assert g[i] in f;
    }
    g
  }

  /** A class keeps each of its rows as often as it occurs. */
  lemma GroupCount(rows: seq<RoleRow>, k: nat, x: RoleRow)
    ensures multiset(Group(rows, k))[x] == if Rank(x.name) == k then multiset(rows)[x] else 0
  {
    FilterMultiset(rows, (r: RoleRow) => Rank(r.name) == k, x);
  }

  /** Across the four classes a row occurs as often as in the input. */
  lemma GroupsCount(rows: seq<RoleRow>, x: RoleRow)
    ensures multiset(Group(rows, 3))[x] + multiset(Group(rows, 2))[x]
          + multiset(Group(rows, 1))[x] + multiset(Group(rows, 0))[x] == multiset(rows)[x]
  {
    var k := Rank(x.name);
    GroupCount(rows, 3, x);
    GroupCount(rows, 2, x);
    GroupCount(rows, 1, x);
    GroupCount(rows, 0, x);
    assert k == 3 || k == 2 || k == 1 || k == 0;
  }

  /** The list ordering: `OrderByDescending(Name == "Admin")`, then
      YardManager, then Driver, then `CreatedAt` descending. */
  function OrderRoles(rows: seq<RoleRow>): seq<RoleRow> {
    Group(rows, 3) + Group(rows, 2) + Group(rows, 1) + Group(rows, 0)
  }

  /** a may come before b. */
  predicate RankedBefore(a: RoleRow, b: RoleRow) {
    Rank(a.name) > Rank(b.name) || (Rank(a.name) == Rank(b.name) && a.createdAt >= b.createdAt)
  }

  ghost predicate Ranked(s: seq<RoleRow>) {
    forall i, j :: 0 <= i < j < |s| ==> RankedBefore(s[i], s[j])
  }

  /** Every row of s is at least of class lo. */
  ghost predicate AtLeast(s: seq<RoleRow>, lo: nat) {
    forall i :: 0 <= i < |s| ==> Rank(s[i].name) >= lo
  }

  /** Every row of s is at most of class hi. */
  ghost predicate AtMost(s: seq<RoleRow>, hi: nat) {
    forall i :: 0 <= i < |s| ==> Rank(s[i].name) <= hi
  }

  lemma RankedAppend(a: seq<RoleRow>, b: seq<RoleRow>, m: nat)
    requires Ranked(a) && Ranked(b) && AtLeast(a, m + 1) && AtMost(b, m)
    ensures Ranked(a + b)
  {
    var s := a + b;
    forall i, j | 0 <= i < j < |s| ensures RankedBefore(s[i], s[j]) {
      if j < |a| {
        assert s[i] == a[i] && s[j] == a[j];
      } else if i >= |a| {
        assert s[i] == b[i - |a|] && s[j] == b[j - |a|];
      } else {
        assert s[i] == a[i] && s[j] == b[j - |a|];
      }
    }
  }

  lemma AtLeastAppend(a: seq<RoleRow>, b: seq<RoleRow>, lo: nat)
    requires AtLeast(a, lo) && AtLeast(b, lo)
    ensures AtLeast(a + b, lo)
  {
    var s := a + b;
    forall i | 0 <= i < |s| ensures Rank(s[i].name) >= lo {
      if i < |a| {
        assert s[i] == a[i];
      } else {
        assert s[i] == b[i - |a|];
      }
    }
  }

  lemma GroupRanked(rows: seq<RoleRow>, k: nat)
    ensures Ranked(Group(rows, k)) && AtLeast(Group(rows, k), k) && AtMost(Group(rows, k), k)
  {
  }

  /** The ordered list is a reordering of the rows in which Admin comes
      first, then YardManager, then Driver, then the other roles newest
      first. */
  lemma OrderRolesCorrect(rows: seq<RoleRow>)
    ensures multiset(OrderRoles(rows)) == multiset(rows)
    ensures Ranked(OrderRoles(rows))
  {
    OrderRolesPermutation(rows);
    OrderRolesRanked(rows);
  }

  lemma OrderRolesPermutation(rows: seq<RoleRow>)
    ensures multiset(OrderRoles(rows)) == multiset(rows)
  {
    var g3, g2, g1, g0 := Group(rows, 3), Group(rows, 2), Group(rows, 1), Group(rows, 0);
    forall x ensures multiset(g3)[x] + multiset(g2)[x] + multiset(g1)[x] + multiset(g0)[x] == multiset(rows)[x] {
      GroupsCount(rows, x);
    }
    JoinPermutation(rows, g3, g2, g1, g0);
  }

  /** Four parts that together count every row as the input does join to
      a permutation of it. */
  lemma JoinPermutation(rows: seq<RoleRow>, a: seq<RoleRow>, b: seq<RoleRow>, c: seq<RoleRow>, d: seq<RoleRow>)
    requires forall x :: multiset(a)[x] + multiset(b)[x] + multiset(c)[x] + multiset(d)[x] == multiset(rows)[x]
    ensures multiset(a + b + c + d) == multiset(rows)
  {
    assert multiset(a + b + c + d) == multiset(a) + multiset(b) + multiset(c) + multiset(d);
  }

  lemma OrderRolesRanked(rows: seq<RoleRow>)
    ensures Ranked(OrderRoles(rows))
  {
    var g3, g2, g1, g0 := Group(rows, 3), Group(rows, 2), Group(rows, 1), Group(rows, 0);
    GroupRanked(rows, 3);
    GroupRanked(rows, 2);
    GroupRanked(rows, 1);
    GroupRanked(rows, 0);
    RankedAppend(g3, g2, 2);
    AtLeastAppend(g3, g2, 2);
    RankedAppend(g3 + g2, g1, 1);
    AtLeastAppend(g3 + g2, g1, 1);
    RankedAppend(g3 + g2 + g1, g0, 0);
  }

  /** When there is an Admin row, it is the first one shown. */
  lemma AdminFirst(rows: seq<RoleRow>, k: nat)
    requires k < |rows| && rows[k].name == "Admin"
    ensures OrderRoles(rows) != [] && OrderRoles(rows)[0].name == "Admin"
  {
    GroupCount(rows, 3, rows[k]);
    assert rows[k] in multiset(rows);
    var g3 := Group(rows, 3);
    assert g3 != [];
    assert OrderRoles(rows)[0] == g3[0];
  }

  /** The rows of the stored roles, in storage order. */
  function RoleRows(roles: seq<Role>, links: seq<UserRole>): (rows: seq<RoleRow>)
    ensures |rows| == |roles|
    ensures forall k :: 0 <= k < |roles| ==> rows[k] == RowOf(roles[k], links)
  {
    seq(|roles|, k requires 0 <= k < |roles| => RowOf(roles[k], links))
  }

  /** `LoadRolesAsync`: one row per role with its user count, then the
      ordering, count, clamp and slice. */
  method LoadRoles(db: Db, pageNumber: int) returns (page: Paged<RoleRow>)
    ensures page == Paginate(OrderRoles(RoleRows(db.roles, db.userRoles)), pageNumber)
  {
    var list: seq<RoleRow> := [];
    var i := 0;
    while i < |db.roles|
      invariant 0 <= i <= |db.roles|
      invariant |list| == i
      invariant forall k :: 0 <= k < i ==> list[k] == RowOf(db.roles[k], db.userRoles)
    {
      var count := UsersInRole(db.userRoles, db.roles[i].id);
      list := list + [RoleRow(db.roles[i].id, db.roles[i].name, db.roles[i].description, db.roles[i].status,
                              db.roles[i].isSystemRole, count, db.roles[i].createdAt)];
      i := i + 1;
    }
    assert list == RoleRows(db.roles, db.userRoles);
    page := Paginate(OrderRoles(list), pageNumber);
  }

  // ---- summary ----

  /** The two totals shown above the role list. */
  datatype Summary = Summary(totalUsers: nat, totalSystemRoles: nat)

  /** The number of roles flagged as system roles. */
  function SystemRoleCount(roles: seq<Role>): (n: nat)
    ensures n <= |roles|
    ensures n == 0 <==> forall k :: 0 <= k < |roles| ==> !roles[k].isSystemRole
    ensures n == |roles| <==> forall k :: 0 <= k < |roles| ==> roles[k].isSystemRole
  {
    if roles == [] then 0
    else SystemRoleCount(roles[..|roles| - 1]) + (if roles[|roles| - 1].isSystemRole then 1 else 0)
  }

  /** `LoadSummaryAsync`: the number of users and the number of system
      roles. */
  method LoadSummary(db: Db) returns (s: Summary)
    ensures s.totalUsers == |db.users|
    ensures s.totalSystemRoles == SystemRoleCount(db.roles)
    ensures s.totalSystemRoles == 0 <==> forall k :: 0 <= k < |db.roles| ==> !db.roles[k].isSystemRole
  {
    s := Summary(|db.users|, SystemRoleCount(db.roles));
  }

  lemma {:induction false} SystemRoleCountConcat(a: seq<Role>, b: seq<Role>)
    ensures SystemRoleCount(a + b) == SystemRoleCount(a) + SystemRoleCount(b)
    decreases |b|
  {
    if b == [] {
      assert a + b == a;
    } else {
      var front := b[..|b| - 1];
      assert (a + b)[..|a + b| - 1] == a + front;
      assert (a + b)[|a + b| - 1] == b[|b| - 1];
      SystemRoleCountConcat(a, front);
    }
  }

  lemma SystemRoleCountOne(r: Role)
    ensures SystemRoleCount([r]) == if r.isSystemRole then 1 else 0
  {
    assert [r][..0] == [];
  }

  /** A created role is never a system role, so creating one leaves the
      system-role total as it was. */
  lemma SystemRoleCountCreate(roles: seq<Role>, r: Role)
    requires !r.isSystemRole
    ensures SystemRoleCount(roles + [r]) == SystemRoleCount(roles)
  {
    SystemRoleCountConcat(roles, [r]);
    SystemRoleCountOne(r);
  }

  /** Only a custom role can be deleted, so deleting one leaves the
      system-role total as it was. */
  lemma SystemRoleCountDelete(roles: seq<Role>, i: nat)
    requires i < |roles| && !roles[i].isSystemRole
    ensures SystemRoleCount(RemoveAt(roles, i)) == SystemRoleCount(roles)
  {
    var front, back := roles[..i], roles[i + 1..];
    assert RemoveAt(roles, i) == front + back;
    SystemRoleCountSplit(roles, i);
    SystemRoleCountConcat(front, back);
  }

  /** An edit keeps the system flag, so it leaves the system-role total
      as it was. */
  lemma SystemRoleCountEdit(roles: seq<Role>, i: nat, r: Role)
    requires i < |roles| && r.isSystemRole == roles[i].isSystemRole
    ensures SystemRoleCount(roles[i := r]) == SystemRoleCount(roles)
  {
    SystemRoleCountSplit(roles, i);
    SystemRoleCountSplit(roles[i := r], i);
    assert roles[i := r][..i] == roles[..i] && roles[i := r][i + 1..] == roles[i + 1..];
  }

  /** The count around one position. */
  lemma SystemRoleCountSplit(roles: seq<Role>, i: nat)
    requires i < |roles|
    ensures SystemRoleCount(roles) ==
      SystemRoleCount(roles[..i]) + (if roles[i].isSystemRole then 1 else 0) + SystemRoleCount(roles[i + 1..])
  {
    var front, back := roles[..i], roles[i + 1..];
    assert roles == (front + [roles[i]]) + back;
    SystemRoleCountConcat(front + [roles[i]], back);
    SystemRoleCountConcat(front, [roles[i]]);
    SystemRoleCountOne(roles[i]);
  }
}
