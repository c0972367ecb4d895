/** The user administration page: create, edit, delete, resend the
    confirmation e-mail, and the filtered user list. Framework results the
    handlers depend on but cannot see into are parameters: the e-mail
    format check (`isEmail`), the fresh user id Identity generates
    (`newId`), and whether `CreateAsync`/`UpdateAsync` succeed (password
    policy and user-name validation live inside Identity). */
module UsersPage {
  import opened Wrappers
  import opened Text
  import opened Seqs
  import opened Entities
  import opened Sorting
  import opened Paging
  import opened Store
  import opened Logging
  import opened ChangeSet
  import opened InputModels

  const ConfirmSubject: string := "Confirm your YardOps account"

  // ---- create ----

  datatype CreateOutcome =
    | CreateInvalid       // the form fails validation
    | EmailTaken          // "Email already exists."
    | CreateFailed        // CreateAsync reported errors
    | CreateRoleMissing   // AddToRoleAsync threw: the user exists without a role
    | Created(emailSent: bool)

  /** The user `OnPostCreateAsync` builds from the form. */
  function NewUser(input: CreateUserInput, id: string, creator: Option<User>, now: Time): User {
    User(id, Some(input.email), Some(input.email), false, input.firstName, input.lastName, None,
      "Inactive", now, if creator.Some? then Some(creator.value.id) else None, None)
  }

  /** The `extraData` of the CreateUser entry. */
  function CreatePayload(input: CreateUserInput): Payload {
    [Member("NewRole", VText(Some(input.role))),
     Member("FirstName", VText(Some(input.firstName))),
     Member("LastName", VText(Some(input.lastName)))]
  }

  /** `OnPostCreateAsync`. An invalid form, a taken e-mail or a failed
      `CreateAsync` change nothing. Otherwise the new user is stored,
      Inactive and unconfirmed, with the acting admin as creator; only then
      is the role linked, one CreateUser entry written and the confirmation
      e-mail sent to the submitted address. A role name that does not
      exist makes `AddToRoleAsync` throw after the user was stored. */
  method OnPostCreate(db: Db, logger: ActivityLogger, mail: EmailSender, input: CreateUserInput,
                      isEmail: string -> bool, newId: string, createSucceeds: bool)
    returns (outcome: CreateOutcome)
    requires logger.db == db && db.Valid()
    requires newId !in UserIds(db.users)
    modifies db`users, db`userRoles, db`activityLogs, db`nextLogId, mail`sent
    ensures db.Valid()
    ensures outcome == CreateInvalid <==> !CreateUserInputValid(input, isEmail)
    ensures outcome == EmailTaken <==>
      CreateUserInputValid(input, isEmail) && FindUserByEmail(old(db.users), input.email).Some?
    ensures outcome == CreateFailed <==>
      CreateUserInputValid(input, isEmail) && FindUserByEmail(old(db.users), input.email).None? && !createSucceeds
    ensures outcome == CreateRoleMissing <==>
      (&& CreateUserInputValid(input, isEmail) && FindUserByEmail(old(db.users), input.email).None?
       && createSucceeds && !RoleExists(db.roles, input.role))
    ensures !outcome.Created? && outcome != CreateRoleMissing ==>
      (&& db.users == old(db.users) && db.userRoles == old(db.userRoles)
       && db.activityLogs == old(db.activityLogs) && mail.sent == old(mail.sent))
    ensures outcome.Created? || outcome == CreateRoleMissing ==>
      db.users == old(db.users) + [NewUser(input, newId, old(logger.Actor()), logger.utcNow)]
    ensures outcome == CreateRoleMissing ==>
      db.userRoles == old(db.userRoles) && db.activityLogs == old(db.activityLogs) && mail.sent == old(mail.sent)
    ensures outcome.Created? ==>
      (&& RoleExists(db.roles, input.role)
       && db.userRoles == old(db.userRoles) + [UserRole(newId, db.roles[FindRoleByName(db.roles, input.role).value].id)]
       && db.activityLogs == old(db.activityLogs) + LogEntries(logger.Actor(), old(db.nextLogId), logger.utcNow,
            "CreateUser", Some("Created user " + input.email), Some(CreatePayload(input)), logger.serialize)
       && mail.sent == old(mail.sent) + (if mail.available then [Email(input.email, ConfirmSubject)] else [])
       && outcome.emailSent == mail.available)
  {
    if !CreateUserInputValid(input, isEmail) {
      return CreateInvalid;
    }
    if FindUserByEmail(db.users, input.email).Some? {
      return EmailTaken;
    }
    var admin := logger.Actor();
    var user := NewUser(input, newId, admin, logger.utcNow);
    if !createSucceeds {
      return CreateFailed;
    }
    outcome := StoreNewUser(db, logger, mail, input, user);
  }

  /** The part of `OnPostCreateAsync` after `CreateAsync` succeeded: the
      user is stored, then linked to the role, logged and mailed; a role
      that does not exist stops it after the user was stored. */
  method StoreNewUser(db: Db, logger: ActivityLogger, mail: EmailSender, input: CreateUserInput, user: User)
    returns (outcome: CreateOutcome)
    requires logger.db == db && db.Valid()
    requires user.id !in UserIds(db.users) && user.email == Some(input.email)
    requires FindUserByEmail(db.users, input.email).None?
    modifies db`users, db`userRoles, db`activityLogs, db`nextLogId, mail`sent
    ensures db.Valid()
    ensures db.users == old(db.users) + [user]
    ensures outcome == CreateRoleMissing <==> !RoleExists(db.roles, input.role)
    ensures outcome == CreateRoleMissing || outcome.Created?
    ensures outcome == CreateRoleMissing ==>
      db.userRoles == old(db.userRoles) && db.activityLogs == old(db.activityLogs) && mail.sent == old(mail.sent)
    ensures outcome.Created? ==>
      (&& db.userRoles == old(db.userRoles) + [UserRole(user.id, db.roles[FindRoleByName(db.roles, input.role).value].id)]
       && db.activityLogs == old(db.activityLogs) + LogEntries(logger.Actor(), old(db.nextLogId), logger.utcNow,
            "CreateUser", Some("Created user " + input.email), Some(CreatePayload(input)), logger.serialize)
       && mail.sent == old(mail.sent) + (if mail.available then [Email(input.email, ConfirmSubject)] else [])
       && outcome.emailSent == mail.available)
  {
    assert forall k :: 0 <= k < |db.userRoles| ==> db.userRoles[k].userId != user.id;
    db.InsertUser(user);
    var role := FindRoleByName(db.roles, input.role);
    if role.None? {
      return CreateRoleMissing;
    }
    assert user in db.users;
    db.InsertLink(user.id, role.value);
    logger.LogAsync("CreateUser", Some("Created user " + input.email), Some(CreatePayload(input)));
    var sent := mail.SendEmailAsync(input.email, ConfirmSubject);
    return Created(sent);
  }

  // ---- edit ----

  datatype EditOutcome =
    | EditInvalid
    | EditNotFound        // "User not found."
    | EmailInUse          // "Email already exists."
    | EditRoleMissing     // AddToRoleAsync threw after the update
    | Edited

  /** The fields the edit handler compares, in its order. */
  const UserFields: seq<Field> :=
    [Field("FirstName", ""), Field("LastName", ""), Field("Status", ""), Field("Email", ""), Field("Role", "")]

  /** The stored values of those fields; the role is the first role name. */
  function StoredValues(u: User, links: seq<UserRole>, roles: seq<Role>): seq<Option<string>> {
    [Some(u.firstName), Some(u.lastName), Some(u.status), u.email, CurrentRole(links, roles, u.id)]
  }

  function SubmittedValues(input: EditUserInput): seq<Option<string>> {
    [Some(input.firstName), Some(input.lastName), Some(input.status), Some(input.email), Some(input.role)]
  }

  /** The user after the field assignments; the user name follows the
      e-mail only when the e-mail changed. */
  function EditedUser(u: User, input: EditUserInput): User {
    u.(firstName := input.firstName, lastName := input.lastName, status := input.status,
       email := Some(input.email),
       userName := if u.email != Some(input.email) then Some(input.email) else u.userName)
  }

  /** The links after `RemoveFromRoleAsync(user, currentRole)`. */
  function WithoutCurrentRole(links: seq<UserRole>, roles: seq<Role>, userId: string): seq<UserRole> {
    match CurrentRole(links, roles, userId)
    case None => links
    case Some(name) =>
      match FindRoleByName(roles, name)
      case None => links
      case Some(j) => LinksWithout(links, UserRole(userId, roles[j].id))
  }

  /** `AddToRoleAsync` on an existing role: a link already present is
      left alone. */
  function WithLink(links: seq<UserRole>, link: UserRole): (r: seq<UserRole>)
    ensures link in r
    ensures forall l :: l in links ==> l in r
    ensures forall l :: l in r ==> l in links || l == link
  {
    if link in links then links else links + [link]
  }

  /** `OnPostEditAsync`. An invalid form, an unknown user or an e-mail
      held by another user change nothing. Otherwise one line is produced
      per differing field in the order FirstName, LastName, Status, Email,
      Role, and the outcome is the one `ApplyEdit` describes. */
  method OnPostEdit(db: Db, logger: ActivityLogger, input: EditUserInput, isEmail: string -> bool,
                    updateSucceeds: bool)
    returns (outcome: EditOutcome, lines: seq<string>)
    requires logger.db == db && db.Valid()
    modifies db`users, db`userRoles, db`activityLogs, db`nextLogId
    ensures db.Valid()
    ensures outcome == EditInvalid <==> !EditUserInputValid(input, isEmail)
    ensures outcome == EditNotFound <==>
      EditUserInputValid(input, isEmail) && FindUserById(old(db.users), input.userId).None?
    ensures outcome == EmailInUse <==>
      (&& EditUserInputValid(input, isEmail) && FindUserById(old(db.users), input.userId).Some?
       && EmailClash(old(db.users), FindUserById(old(db.users), input.userId).value, input.email))
    ensures outcome in {EditInvalid, EditNotFound, EmailInUse} ==>
      (&& db.users == old(db.users) && db.userRoles == old(db.userRoles)
       && db.activityLogs == old(db.activityLogs) && lines == [])
    ensures outcome in {Edited, EditRoleMissing} ==>
      var i := FindUserById(old(db.users), input.userId).value;
      var u := old(db.users)[i];
      var swap := CurrentRole(old(db.userRoles), db.roles, u.id) != Some(input.role);
      var thrown := swap && !RoleExists(db.roles, input.role);
      var saved := updateSucceeds || (!thrown && old(logger.Actor()).Some?);
      && lines == ChangedLines(UserFields, StoredValues(u, old(db.userRoles), db.roles), SubmittedValues(input))
      && (outcome == EditRoleMissing <==> thrown)
      && db.users == (if saved then old(db.users)[i := EditedUser(u, input)] else old(db.users))
      && (!saved || !swap ==> db.userRoles == old(db.userRoles))
      && (saved && thrown ==> db.userRoles == WithoutCurrentRole(old(db.userRoles), db.roles, u.id))
      && (saved && swap && !thrown ==>
            db.userRoles == WithLink(WithoutCurrentRole(old(db.userRoles), db.roles, u.id),
                                     UserRole(u.id, db.roles[FindRoleByName(db.roles, input.role).value].id)))
      && (thrown ==> db.activityLogs == old(db.activityLogs))
      && (!thrown ==>
            db.activityLogs == old(db.activityLogs) + LogEntries(logger.Actor(), old(db.nextLogId), logger.utcNow,
              "EditUser", Some("Edited user " + input.email), Some([Member("ChangedFields", VTexts(lines))]),
              logger.serialize))
  {
    lines := [];
    if !EditUserInputValid(input, isEmail) {
      return EditInvalid, lines;
    }
    var found := FindUserById(db.users, input.userId);
    if found.None? {
      return EditNotFound, lines;
    }
    var i := found.value;
    var u := db.users[i];
    if EmailClash(db.users, i, input.email) {
      return EmailInUse, lines;
    }
    outcome, lines := ApplyEdit(db, logger, i, input, updateSucceeds);
  }

  /** The part of `OnPostEditAsync` past its guards. The field assignments,
      the role removal and the role addition are all tracked on the one
      context the logger shares. When `UpdateAsync` succeeds each step is
      saved as it happens. When it fails, the identity calls do not save
      either, and the tracked edits reach the store only through the save
      that `LogAsync` performs when it has a signed-in actor. A submitted
      role that does not exist makes `AddToRoleAsync` throw before any of
      that, so after a failed update nothing is saved at all. */
  method ApplyEdit(db: Db, logger: ActivityLogger, i: nat, input: EditUserInput, updateSucceeds: bool)
    returns (outcome: EditOutcome, lines: seq<string>)
    requires logger.db == db && db.Valid()
    requires i < |db.users| && !EmailClash(db.users, i, input.email)
    modifies db`users, db`userRoles, db`activityLogs, db`nextLogId
    ensures db.Valid()
    ensures outcome == Edited || outcome == EditRoleMissing
    ensures var u := old(db.users)[i];
      var swap := CurrentRole(old(db.userRoles), db.roles, u.id) != Some(input.role);
      var thrown := swap && !RoleExists(db.roles, input.role);
      var saved := updateSucceeds || (!thrown && old(logger.Actor()).Some?);
      && lines == ChangedLines(UserFields, StoredValues(u, old(db.userRoles), db.roles), SubmittedValues(input))
      && (outcome == EditRoleMissing <==> thrown)
      && db.users == (if saved then old(db.users)[i := EditedUser(u, input)] else old(db.users))
      && (!saved || !swap ==> db.userRoles == old(db.userRoles))
      && (saved && thrown ==> db.userRoles == WithoutCurrentRole(old(db.userRoles), db.roles, u.id))
      && (saved && swap && !thrown ==>
            db.userRoles == WithLink(WithoutCurrentRole(old(db.userRoles), db.roles, u.id),
                                     UserRole(u.id, db.roles[FindRoleByName(db.roles, input.role).value].id)))
      && (thrown ==> db.activityLogs == old(db.activityLogs))
      && (!thrown ==>
            db.activityLogs == old(db.activityLogs) + LogEntries(logger.Actor(), old(db.nextLogId), logger.utcNow,
              "EditUser", Some("Edited user " + input.email), Some([Member("ChangedFields", VTexts(lines))]),
              logger.serialize))
  {
    var u := db.users[i];
    var now;
    now, lines := TrackChanges(UserFields, StoredValues(u, db.userRoles, db.roles), SubmittedValues(input));
    var swap := CurrentRole(db.userRoles, db.roles, u.id) != Some(input.role);
    var thrown := swap && !RoleExists(db.roles, input.role);
    if !updateSucceeds && (thrown || logger.Actor().None?) {
      // nothing reaches the store: the throw comes before any save, and
      // without an actor `LogAsync` returns before saving
      outcome := if thrown then EditRoleMissing else Edited;
      return;
    }
    outcome := SaveAndReplace(db, logger, i, input, lines);
  }

  /** The saved path of `ApplyEdit`: the edited user, then the role block
      and the entry. */
  method SaveAndReplace(db: Db, logger: ActivityLogger, i: nat, input: EditUserInput, lines: seq<string>)
    returns (outcome: EditOutcome)
    requires logger.db == db && db.Valid()
    requires i < |db.users| && !EmailClash(db.users, i, input.email)
    modifies db`users, db`userRoles, db`activityLogs, db`nextLogId
    ensures db.Valid()
    ensures var u := old(db.users)[i];
      var swap := CurrentRole(old(db.userRoles), db.roles, u.id) != Some(input.role);
      var thrown := swap && !RoleExists(db.roles, input.role);
      && (outcome == EditRoleMissing <==> thrown)
      && (outcome == Edited <==> !thrown)
      && db.users == old(db.users)[i := EditedUser(u, input)]
      && (!swap ==> db.userRoles == old(db.userRoles))
      && (thrown ==> db.userRoles == WithoutCurrentRole(old(db.userRoles), db.roles, u.id))
      && (swap && !thrown ==>
            db.userRoles == WithLink(WithoutCurrentRole(old(db.userRoles), db.roles, u.id),
                                     UserRole(u.id, db.roles[FindRoleByName(db.roles, input.role).value].id)))
      && (thrown ==> db.activityLogs == old(db.activityLogs))
      && (!thrown ==>
            db.activityLogs == old(db.activityLogs) + LogEntries(logger.Actor(), old(db.nextLogId), logger.utcNow,
              "EditUser", Some("Edited user " + input.email), Some([Member("ChangedFields", VTexts(lines))]),
              logger.serialize))
  {
    var u := db.users[i];
    SaveEditedUser(db, i, input);
    outcome := ReplaceRoleAndLog(db, logger, u.id, input, lines);
  }

  /** The rest of `OnPostEditAsync` once the user is saved: the role
      block, then the entry listing the changed fields. */
  method ReplaceRoleAndLog(db: Db, logger: ActivityLogger, userId: string, input: EditUserInput, lines: seq<string>)
    returns (outcome: EditOutcome)
    requires logger.db == db && db.Valid() && userId in UserIds(db.users)
    modifies db`userRoles, db`activityLogs, db`nextLogId
    ensures db.Valid()
    ensures outcome == Edited || outcome == EditRoleMissing
    ensures CurrentRole(old(db.userRoles), db.roles, userId) == Some(input.role) ==> db.userRoles == old(db.userRoles)
    ensures outcome == EditRoleMissing <==>
      CurrentRole(old(db.userRoles), db.roles, userId) != Some(input.role) && !RoleExists(db.roles, input.role)
    ensures outcome == EditRoleMissing ==>
      db.userRoles == WithoutCurrentRole(old(db.userRoles), db.roles, userId) && db.activityLogs == old(db.activityLogs)
    ensures outcome == Edited && CurrentRole(old(db.userRoles), db.roles, userId) != Some(input.role) ==>
      db.userRoles == WithLink(WithoutCurrentRole(old(db.userRoles), db.roles, userId),
                               UserRole(userId, db.roles[FindRoleByName(db.roles, input.role).value].id))
    ensures outcome == Edited ==>
      db.activityLogs == old(db.activityLogs) + LogEntries(logger.Actor(), old(db.nextLogId), logger.utcNow,
        "EditUser", Some("Edited user " + input.email), Some([Member("ChangedFields", VTexts(lines))]),
        logger.serialize)
  {
    var roleMissing := ReplaceRole(db, userId, input.role);
    if roleMissing {
      return EditRoleMissing;
    }
    logger.LogAsync("EditUser", Some("Edited user " + input.email), Some([Member("ChangedFields", VTexts(lines))]));
    return Edited;
  }

  /** The edited user reaching the store, through `UpdateAsync` or
      through the later save of the shared context. */
  method SaveEditedUser(db: Db, i: nat, input: EditUserInput)
    requires db.Valid() && i < |db.users| && !EmailClash(db.users, i, input.email)
    modifies db`users
    ensures db.Valid()
    ensures db.users == old(db.users)[i := EditedUser(old(db.users)[i], input)]
    ensures old(db.users)[i].id in UserIds(db.users)
  {
    var u := db.users[i];
    NoOtherHolder(db.users, i, input.email);
    db.UpdateUser(i, EditedUser(u, input));
    assert db.users[i].id == u.id && db.users[i] in db.users;
  }

  /** The role block of `OnPostEditAsync`: when the submitted role differs
      from the first current role, the current role is removed and the
      submitted one added; a submitted role that does not exist makes
      `AddToRoleAsync` throw after the removal. */
  method ReplaceRole(db: Db, userId: string, role: string) returns (roleMissing: bool)
    requires db.Valid() && userId in UserIds(db.users)
    modifies db`userRoles
    ensures db.Valid()
    ensures roleMissing <==> CurrentRole(old(db.userRoles), db.roles, userId) != Some(role) && !RoleExists(db.roles, role)
    ensures CurrentRole(old(db.userRoles), db.roles, userId) == Some(role) ==> db.userRoles == old(db.userRoles)
    ensures roleMissing ==> db.userRoles == WithoutCurrentRole(old(db.userRoles), db.roles, userId)
    ensures CurrentRole(old(db.userRoles), db.roles, userId) != Some(role) && !roleMissing ==>
      db.userRoles == WithLink(WithoutCurrentRole(old(db.userRoles), db.roles, userId),
                               UserRole(userId, db.roles[FindRoleByName(db.roles, role).value].id))
  {
    var currentRole := CurrentRole(db.userRoles, db.roles, userId);
    if currentRole == Some(role) {
      return false;
    }
    RemoveCurrentRole(db, userId);
    var target := FindRoleByName(db.roles, role);
    if target.None? {
      return true;
    }
    if UserRole(userId, db.roles[target.value].id) !in db.userRoles {
      db.InsertLink(userId, target.value);
    }
    return false;
  }

  /** `RemoveFromRoleAsync` on the first current role, when it still
      resolves to a role. */
  method RemoveCurrentRole(db: Db, userId: string)
    requires db.Valid()
    modifies db`userRoles
    ensures db.Valid()
    ensures db.userRoles == WithoutCurrentRole(old(db.userRoles), db.roles, userId)
  {
    var currentRole := CurrentRole(db.userRoles, db.roles, userId);
    if currentRole.Some? {
      var j := FindRoleByName(db.roles, currentRole.value);
      if j.Some? {
        db.RemoveLinks(userId, db.roles[j.value].id);
      }
    }
  }

  /** After a role change the user is linked to the submitted role and no
      longer to the role it replaced. (A user with several roles keeps the
      others, and the new link goes last, so the role shown afterwards is
      the new one only for a user that had at most one.) */
  lemma RoleSwapped(links: seq<UserRole>, roles: seq<Role>, userId: string, oldRole: nat, newRole: nat)
    requires oldRole < |roles| && newRole < |roles| && RolesValid(roles)
    requires CurrentRole(links, roles, userId) == Some(roles[oldRole].name)
    requires roles[oldRole].id != roles[newRole].id
    ensures var after := WithLink(WithoutCurrentRole(links, roles, userId), UserRole(userId, roles[newRole].id));
      UserRole(userId, roles[newRole].id) in after && UserRole(userId, roles[oldRole].id) !in after
  {
    var j := FindRoleByName(roles, roles[oldRole].name);
    assert j.Some?;
  }

  /** The edit lines come in the handler's field order and there is one
      for each differing field; none means nothing changed. */
  lemma EditLines(u: User, links: seq<UserRole>, roles: seq<Role>, input: EditUserInput)
    ensures var lines := ChangedLines(UserFields, StoredValues(u, links, roles), SubmittedValues(input));
      && |lines| == DiffCount(StoredValues(u, links, roles), SubmittedValues(input))
      && (lines == [] <==>
            && u.firstName == input.firstName && u.lastName == input.lastName && u.status == input.status
            && u.email == Some(input.email) && CurrentRole(links, roles, u.id) == Some(input.role))
  {
    LineCount(UserFields, StoredValues(u, links, roles), SubmittedValues(input));
    NoLinesIffUnchanged(UserFields, StoredValues(u, links, roles), SubmittedValues(input));
  }

  /** An accepted e-mail change also renames the user; an unchanged e-mail
      leaves the user name alone. */
  lemma EmailChangeRenames(u: User, input: EditUserInput)
    ensures EditedUser(u, input).email == Some(input.email)
    ensures u.email != Some(input.email) ==> EditedUser(u, input).userName == Some(input.email)
    ensures u.email == Some(input.email) ==> EditedUser(u, input).userName == u.userName
    ensures EditedUser(u, input).id == u.id && EditedUser(u, input).createdBy == u.createdBy
  {
  }

  // ---- delete ----

  datatype DeleteOutcome = DeleteNotFound | SelfDelete | UserDeleted

  /** The `extraData` of the DeleteUser entry. */
  function DeletePayload(u: User): Payload {
    [Member("DeletedUserEmail", VText(u.email)),
     Member("DeletedUserName", VText(Some(u.firstName + " " + u.lastName)))]
  }

  /** `OnPostDeleteAsync`. An unknown id, or the signed-in admin's own id,
      changes nothing and writes no entry. Otherwise the user goes, with
      their role links and (by the cascading foreign key) their own audit
      entries; carriers they created lose the creator; then one DeleteUser
      entry is written. */
  method OnPostDelete(db: Db, logger: ActivityLogger, userId: string) returns (outcome: DeleteOutcome)
    requires logger.db == db && db.Valid()
    modifies db`users, db`userRoles, db`activityLogs, db`nextLogId, db`carriers
    ensures db.Valid()
    ensures outcome == DeleteNotFound <==> FindUserById(old(db.users), userId).None?
    ensures outcome == SelfDelete <==>
      FindUserById(old(db.users), userId).Some? && old(logger.Actor()).Some? && old(logger.Actor()).value.id == userId
    ensures outcome != UserDeleted ==>
      (&& db.users == old(db.users) && db.userRoles == old(db.userRoles)
       && db.activityLogs == old(db.activityLogs) && db.carriers == old(db.carriers))
    ensures outcome == UserDeleted ==>
      var i := FindUserById(old(db.users), userId).value;
      && db.users == RemoveAt(old(db.users), i)
      && db.userRoles == LinksOfOthers(old(db.userRoles), userId)
      && db.carriers == ClearCreator(old(db.carriers), userId)
      && db.activityLogs == LogsOfOthers(old(db.activityLogs), userId)
           + LogEntries(logger.Actor(), old(db.nextLogId), logger.utcNow, "DeleteUser",
               Some("Deleted user " + old(db.users)[i].email.GetOr("")), Some(DeletePayload(old(db.users)[i])),
               logger.serialize)
  {
    var found := FindUserById(db.users, userId);
    var current := logger.Actor();
    if found.None? {
      return DeleteNotFound;
    }
    var i := found.value;
    var u := db.users[i];
    if current.Some? && u.id == current.value.id {
      return SelfDelete;
    }
    DeleteAndLog(db, logger, i);
    return UserDeleted;
  }

  /** The delete handler past its guards: the user and what depends on it
      go, then the entry is written. */
  method DeleteAndLog(db: Db, logger: ActivityLogger, i: nat)
    requires logger.db == db && db.Valid() && i < |db.users|
    modifies db`users, db`userRoles, db`activityLogs, db`nextLogId, db`carriers
    ensures db.Valid()
    ensures var u := old(db.users)[i];
      && db.users == RemoveAt(old(db.users), i)
      && db.userRoles == LinksOfOthers(old(db.userRoles), u.id)
      && db.carriers == ClearCreator(old(db.carriers), u.id)
      && db.activityLogs == LogsOfOthers(old(db.activityLogs), u.id)
           + LogEntries(logger.Actor(), old(db.nextLogId), logger.utcNow, "DeleteUser",
               Some("Deleted user " + u.email.GetOr("")), Some(DeletePayload(u)), logger.serialize)
  {
    var u := db.users[i];
    db.DeleteUser(i);
    logger.LogAsync("DeleteUser", Some("Deleted user " + u.email.GetOr("")), Some(DeletePayload(u)));
  }

  // ---- resend confirmation ----

  datatype ResendOutcome = ResendNotFound | AlreadyConfirmed | Resent | ResendFailed

  /** `OnPostResendConfirmationAsync`: an unknown or already confirmed user
      gets nothing; otherwise one confirmation e-mail goes to the stored
      address, or the failure is reported. A user without an e-mail cannot
      be sent one. */
  method OnPostResendConfirmation(db: Db, mail: EmailSender, userId: string) returns (outcome: ResendOutcome)
    modifies mail`sent
    ensures outcome == ResendNotFound <==> FindUserById(db.users, userId).None?
    ensures outcome == AlreadyConfirmed <==>
      FindUserById(db.users, userId).Some? && db.users[FindUserById(db.users, userId).value].emailConfirmed
    ensures outcome == Resent <==>
      (&& FindUserById(db.users, userId).Some?
       && var u := db.users[FindUserById(db.users, userId).value];
          !u.emailConfirmed && u.email.Some? && mail.available)
    ensures outcome == Resent ==>
      mail.sent == old(mail.sent) + [Email(db.users[FindUserById(db.users, userId).value].email.value, ConfirmSubject)]
    ensures outcome != Resent ==> mail.sent == old(mail.sent)
  {
    var found := FindUserById(db.users, userId);
    if found.None? {
      return ResendNotFound;
    }
    var u := db.users[found.value];
    if u.emailConfirmed {
      return AlreadyConfirmed;
    }
    if u.email.None? {
      return ResendFailed;
    }
    var delivered := mail.SendEmailAsync(u.email.value, ConfirmSubject);
    return if delivered then Resent else ResendFailed;
  }

  // ---- list ----

  /** A row of the user table (`UserViewModel`). */
  datatype UserRow = UserRow(
    id: string,
    firstName: string,
    lastName: string,
    email: Option<string>,
    role: string,
    status: string,
    lastLogin: Option<Time>,
    createdOn: Time,
    emailConfirmed: bool)

  datatype UserFilters = UserFilters(searchTerm: Option<string>, roleFilter: Option<string>, statusFilter: Option<string>)

  /** The search clause: inactive when blank; otherwise an ordinal substring
      of the first name, the last name or the e-mail. */
  predicate SearchMatches(u: User, searchTerm: Option<string>) {
    || IsNullOrWhiteSpace(searchTerm)
    || Contains(u.firstName, searchTerm.value)
    || Contains(u.lastName, searchTerm.value)
    || (u.email.Some? && Contains(u.email.value, searchTerm.value))
  }

  function SearchResults(users: seq<User>, searchTerm: Option<string>): (r: seq<User>)
    ensures forall u :: u in r <==> u in users && SearchMatches(u, searchTerm)
  {
    Filter(users, u => SearchMatches(u, searchTerm))
  }

  /** The search results, oldest first. */
  function Searched(users: seq<User>, searchTerm: Option<string>): (r: seq<User>)
    ensures forall i, j :: 0 <= i < j < |r| ==> r[i].createdOn <= r[j].createdOn
    ensures multiset(r) == multiset(SearchResults(users, searchTerm))
  {
    SortAsc(SearchResults(users, searchTerm), (u: User) => u.createdOn)
  }

  /** A user as the table shows them; "No Role" when they have none. */
  function RowOf(u: User, links: seq<UserRole>, roles: seq<Role>): UserRow {
    UserRow(u.id, u.firstName, u.lastName, u.email, CurrentRole(links, roles, u.id).GetOr("No Role"),
      u.status, u.lastLogin, u.createdOn, u.emailConfirmed)
  }

  /** The role and status filters, each skipped when null or "all". */
  predicate Shown(row: UserRow, f: UserFilters) {
    && (f.roleFilter.None? || f.roleFilter.value == "all" || row.role == f.roleFilter.value)
    && (f.statusFilter.None? || f.statusFilter.value == "all" || row.status == f.statusFilter.value)
  }

  /** The rows the loop keeps, in the order of the users. */
  function Rows(ordered: seq<User>, links: seq<UserRole>, roles: seq<Role>, f: UserFilters): (rows: seq<UserRow>)
    ensures |rows| <= |ordered|
  {
    if ordered == [] then []
    else
      var k := |ordered| - 1;
      var row := RowOf(ordered[k], links, roles);
      Rows(ordered[..k], links, roles, f) + (if Shown(row, f) then [row] else [])
  }

  lemma RowsOfPrefix(users: seq<User>, i: nat, links: seq<UserRole>, roles: seq<Role>, f: UserFilters)
    requires i < |users|
    ensures var row := RowOf(users[i], links, roles);
      Rows(users[..i + 1], links, roles, f) == Rows(users[..i], links, roles, f) + (if Shown(row, f) then [row] else [])
  {
    assert users[..i + 1][..i] == users[..i];
  }

  /** `LoadUsersAsync`: search, order by creation, then the loop that
      builds a row per user and skips the rows the role and status filters
      reject, then count, clamp and slice. */
  method LoadUsers(db: Db, f: UserFilters, pageNumber: int) returns (page: Paged<UserRow>)
    ensures page == Paginate(Rows(Searched(db.users, f.searchTerm), db.userRoles, db.roles, f), pageNumber)
  {
    var users := Searched(db.users, f.searchTerm);
    var list: seq<UserRow> := [];
    var i := 0;
    while i < |users|
      invariant 0 <= i <= |users|
      invariant list == Rows(users[..i], db.userRoles, db.roles, f)
    {
      RowsOfPrefix(users, i, db.userRoles, db.roles, f);
      var row := RowOf(users[i], db.userRoles, db.roles);
      i := i + 1;
      if !Shown(row, f) {
        continue;
      }
      list := list + [row];
    }
    assert users[..i] == users;
    page := Paginate(list, pageNumber);
  }

  /** Every row is the row of one of the listed users and passes the role
      and status filters. */
  lemma {:induction false} RowsFromUsers(ordered: seq<User>, links: seq<UserRole>, roles: seq<Role>, f: UserFilters)
    ensures forall r :: r in Rows(ordered, links, roles, f) ==>
      Shown(r, f) && exists u :: u in ordered && r == RowOf(u, links, roles)
  {
    if ordered != [] {
      var k := |ordered| - 1;
      RowsFromUsers(ordered[..k], links, roles, f);
      forall r | r in Rows(ordered, links, roles, f)
        ensures Shown(r, f) && exists u :: u in ordered && r == RowOf(u, links, roles)
      {
        if r in Rows(ordered[..k], links, roles, f) {
          var u :| u in ordered[..k] && r == RowOf(u, links, roles);
          assert u in ordered;
        } else {
          assert ordered[k] in ordered;
        }
      }
    }
  }

  /** Every listed user whose row passes the role and status filters has
      that row. */
  lemma {:induction false} RowsComplete(ordered: seq<User>, links: seq<UserRole>, roles: seq<Role>, f: UserFilters)
    ensures forall u :: u in ordered && Shown(RowOf(u, links, roles), f) ==>
      RowOf(u, links, roles) in Rows(ordered, links, roles, f)
  {
    if ordered != [] {
      var k := |ordered| - 1;
      RowsComplete(ordered[..k], links, roles, f);
      forall u | u in ordered && Shown(RowOf(u, links, roles), f)
        ensures RowOf(u, links, roles) in Rows(ordered, links, roles, f)
      {
        if u != ordered[k] {
          var m :| 0 <= m < |ordered| && ordered[m] == u;
          assert u in ordered[..k] by {
            assert m < k && ordered[..k][m] == u;
          }
        }
      }
    }
  }

  /** Nothing that matches is lost: every stored user who matches the
      search and whose row passes the role and status filters is shown on
      some page, as long as every request pages the model's one stable
      order (see `EveryMatchListedAnyOrder` for per-request orders). */
  lemma EveryMatchListed(users: seq<User>, links: seq<UserRole>, roles: seq<Role>, f: UserFilters, u: User)
    requires u in users && SearchMatches(u, f.searchTerm) && Shown(RowOf(u, links, roles), f)
    ensures exists n: int :: RowOf(u, links, roles) in Paginate(Rows(Searched(users, f.searchTerm), links, roles, f), n).items
  {
    var ordered := Searched(users, f.searchTerm);
    SearchedMembers(users, f.searchTerm, u);
    RowsComplete(ordered, links, roles, f);
    var rows := Rows(ordered, links, roles, f);
    var i :| 0 <= i < |rows| && rows[i] == RowOf(u, links, roles);
    ItemOnItsPage(rows, i);
    assert Paginate(rows, i / PageSize + 1).items[i % PageSize] == RowOf(u, links, roles);
  }

  /** An order the database may return for one request: oldest first,
      holding exactly the search results, with ties in any order. */
  ghost predicate AdmissibleUserOrder(r: seq<User>, users: seq<User>, searchTerm: Option<string>) {
    && (forall i, j :: 0 <= i < j < |r| ==> r[i].createdOn <= r[j].createdOn)
    && multiset(r) == multiset(SearchResults(users, searchTerm))
  }

  /** No two different users share a creation time. */
  ghost predicate DistinctCreation(s: seq<User>) {
    forall x, y :: x in s && y in s && x.createdOn == y.createdOn ==> x == y
  }

  /** When no two search results share a creation time, every order the
      database may return is the model's. */
  lemma AdmissibleUserOrderUnique(users: seq<User>, searchTerm: Option<string>, r: seq<User>)
    requires AdmissibleUserOrder(r, users, searchTerm)
    requires DistinctCreation(SearchResults(users, searchTerm))
    ensures r == Searched(users, searchTerm)
  {
    var key := (u: User) => u.createdOn;
    var o := Searched(users, searchTerm);
    assert NonDecreasing(r, key) && NonDecreasing(o, key);
    forall x, y | x in r && y in r && key(x) == key(y) ensures x == y {
      assert x in multiset(r) && y in multiset(r);
      assert x in SearchResults(users, searchTerm) && y in SearchResults(users, searchTerm);
    }
    SortedAscUnique(r, o, key);
  }

  /** Each page request sorts afresh, so two requests may order users with
      the same creation time differently. When no two search results share
      a creation time, every matching user whose row passes the filters is
      still listed on some page, whatever admissible order each request
      gets. */
  lemma EveryMatchListedAnyOrder(users: seq<User>, links: seq<UserRole>, roles: seq<Role>, f: UserFilters, u: User,
                                 order: int -> seq<User>)
    requires u in users && SearchMatches(u, f.searchTerm) && Shown(RowOf(u, links, roles), f)
    requires DistinctCreation(SearchResults(users, f.searchTerm))
    requires forall n :: AdmissibleUserOrder(order(n), users, f.searchTerm)
    ensures exists n: int :: RowOf(u, links, roles) in Paginate(Rows(order(n), links, roles, f), n).items
  {
    EveryMatchListed(users, links, roles, f, u);
    var n: int :| RowOf(u, links, roles) in Paginate(Rows(Searched(users, f.searchTerm), links, roles, f), n).items;
    AdmissibleUserOrderUnique(users, f.searchTerm, order(n));
  }

  /** The rows keep the oldest-first order of the users. */
  lemma {:induction false} RowsOldestFirst(ordered: seq<User>, links: seq<UserRole>, roles: seq<Role>, f: UserFilters)
    requires forall i, j :: 0 <= i < j < |ordered| ==> ordered[i].createdOn <= ordered[j].createdOn
    ensures forall i, j :: 0 <= i < j < |Rows(ordered, links, roles, f)| ==>
      Rows(ordered, links, roles, f)[i].createdOn <= Rows(ordered, links, roles, f)[j].createdOn
  {
    if ordered != [] {
      var k := |ordered| - 1;
      var prefix := ordered[..k];
      RowsOldestFirst(prefix, links, roles, f);
      RowsFromUsers(prefix, links, roles, f);
      var rows := Rows(prefix, links, roles, f);
      forall r | r in rows ensures r.createdOn <= ordered[k].createdOn {
        var u :| u in prefix && r == RowOf(u, links, roles);
        var m :| 0 <= m < k && prefix[m] == u;
        assert ordered[m] == u;
      }
      var all := Rows(ordered, links, roles, f);
      assert all[..|rows|] == rows;
      forall i, j | 0 <= i < j < |all| ensures all[i].createdOn <= all[j].createdOn {
        assert all[i] == rows[i];
        if j >= |rows| {
          assert rows[i] in rows;
          assert all[j] == RowOf(ordered[k], links, roles);
        } else {
          assert all[j] == rows[j];
        }
      }
    }
  }

  /** With both filters null or "all" every listed user gets a row. */
  lemma {:induction false} InactiveFiltersListAll(ordered: seq<User>, links: seq<UserRole>, roles: seq<Role>, f: UserFilters)
    requires f.roleFilter.None? || f.roleFilter == Some("all")
    requires f.statusFilter.None? || f.statusFilter == Some("all")
    ensures |Rows(ordered, links, roles, f)| == |ordered|
  {
    if ordered != [] {
      InactiveFiltersListAll(ordered[..|ordered| - 1], links, roles, f);
    }
  }

  /** A user without a role is listed as "No Role". */
  lemma NoRoleRow(u: User, links: seq<UserRole>, roles: seq<Role>)
    requires RoleNamesOf(links, roles, u.id) == []
    ensures RowOf(u, links, roles).role == "No Role"
  {
  }

  /** The searched list is the matching users, reordered. */
  lemma SearchedMembers(users: seq<User>, searchTerm: Option<string>, u: User)
    ensures u in Searched(users, searchTerm) <==> u in users && SearchMatches(u, searchTerm)
  {
    assert u in Searched(users, searchTerm) <==> u in multiset(Searched(users, searchTerm));
    assert u in SearchResults(users, searchTerm) <==> u in multiset(SearchResults(users, searchTerm));
  }
}
