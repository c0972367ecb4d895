/** The signed-in user's own profile page: the header data, saving the
    profile, and changing the password. The handlers check their inputs by
    hand; the password store itself is not modelled, so
    `ChangePasswordAsync`'s result is a parameter. */
module ProfilePage {
  import opened Wrappers
  import opened Text
  import opened Entities
  import opened Store
  import opened Logging
  import opened ChangeSet
  import UserView

  // ---- header ----

  /** The header values `LoadDisplayDataAsync` sets. */
  datatype Display = Display(email: Option<string>, fullName: string, initials: string, role: string)

  /** `LoadDisplayDataAsync`: the initials are one upper-case character per
      name ('?' for an empty name) and the role is the first role name, or
      "User" for a user without roles. */
  function DisplayData(u: User, links: seq<UserRole>, roles: seq<Role>): (d: Display)
    ensures d.email == u.email
    ensures d.fullName == UserView.FullName(u.firstName, u.lastName)
    ensures |d.initials| == 2
    ensures d.initials[0] == (if u.firstName == [] then '?' else UpperChar(u.firstName[0]))
    ensures d.initials[1] == (if u.lastName == [] then '?' else UpperChar(u.lastName[0]))
    ensures CurrentRole(links, roles, u.id).None? ==> d.role == "User"
    ensures CurrentRole(links, roles, u.id).Some? ==> d.role == CurrentRole(links, roles, u.id).value
  {
    Display(u.email, u.firstName + " " + u.lastName,
      ToUpper([if |u.firstName| > 0 then u.firstName[0] else '?', if |u.lastName| > 0 then u.lastName[0] else '?']),
      CurrentRole(links, roles, u.id).GetOr("User"))
  }

  /** The profile header and the user list show the same initials. */
  lemma DisplayInitialsMatchList(u: User, links: seq<UserRole>, roles: seq<Role>)
    ensures DisplayData(u, links, roles).initials == UserView.Initials(u.firstName, u.lastName)
  {
  }

  /** `UserManager.GetUserAsync(User)`: the position of the user the
      request's principal names. */
  function CurrentUserIndex(users: seq<User>, request: Option<Request>): (r: Option<nat>)
    ensures r.Some? <==> SignedInUser(users, request).Some?
    ensures r.Some? ==> r.value < |users| && users[r.value] == SignedInUser(users, request).value
  {
    if request.None? || request.value.principalId.None? then None
    else FindUserById(users, request.value.principalId.value)
  }

  // ---- save profile ----

  /** The profile form; unbound fields are null. */
  datatype ProfileInput = ProfileInput(firstName: Option<string>, lastName: Option<string>,
    email: Option<string>, phoneNumber: Option<string>)

  /** The handler's own checks: first name, last name and e-mail are not
      null or white space. */
  predicate ProfileInputValid(p: ProfileInput) {
    !IsNullOrWhiteSpace(p.firstName) && !IsNullOrWhiteSpace(p.lastName) && !IsNullOrWhiteSpace(p.email)
  }

  datatype SaveOutcome = SaveUserNotFound | SaveInvalid | SaveEmailInUse | SaveUpdateFailed | ProfileSaved

  /** The compared fields in the handler's order; a missing phone number
      shows as "None". */
  const ProfileFields: seq<Field> :=
    [Field("FirstName", ""), Field("LastName", ""), Field("PhoneNumber", "None"), Field("Email", "")]

  function StoredProfile(u: User): seq<Option<string>> {
    [Some(u.firstName), Some(u.lastName), u.phoneNumber, u.email]
  }

  function SubmittedProfile(p: ProfileInput): seq<Option<string>>
    requires ProfileInputValid(p)
  {
    [p.firstName, p.lastName, p.phoneNumber, p.email]
  }

  /** The user after the assignments; the user name follows the e-mail
      only when the e-mail changed. */
  function ProfileEdited(u: User, p: ProfileInput): (r: User)
    requires ProfileInputValid(p)
    ensures StoredProfile(r) == SubmittedProfile(p)
    ensures r.id == u.id && r.status == u.status && r.emailConfirmed == u.emailConfirmed
    ensures r.userName == (if u.email != p.email then p.email else u.userName)
  {
    u.(firstName := p.firstName.value, lastName := p.lastName.value, phoneNumber := p.phoneNumber,
       email := p.email, userName := if u.email != p.email then p.email else u.userName)
  }

  function ProfilePayload(u: User, lines: seq<string>): Payload {
    [Member("UserId", VText(Some(u.id))), Member("ChangedFields", VTexts(lines))]
  }

  /** `OnPostSaveProfileAsync`. Without a signed-in user, with a blank
      required field, with an e-mail held by another user, or when
      `UpdateAsync` fails, nothing is saved and no entry is written.
      Otherwise the lines for the differing fields come in the order
      FirstName, LastName, PhoneNumber, Email, the user takes the submitted
      values, and an UpdateProfile entry is written only when some line was
      produced. */
  method OnPostSaveProfile(db: Db, logger: ActivityLogger, p: ProfileInput, updateSucceeds: bool)
    returns (outcome: SaveOutcome, lines: seq<string>)
    requires logger.db == db && db.Valid()
    modifies db`users, db`activityLogs, db`nextLogId
    ensures db.Valid()
    ensures outcome == SaveUserNotFound <==> CurrentUserIndex(old(db.users), logger.request).None?
    ensures outcome != SaveUserNotFound ==>
      var i := CurrentUserIndex(old(db.users), logger.request).value;
      var u := old(db.users)[i];
      && (outcome == SaveInvalid <==> !ProfileInputValid(p))
      && (outcome == SaveEmailInUse <==> ProfileInputValid(p) && EmailClash(old(db.users), i, p.email.value))
      && (outcome == SaveUpdateFailed <==>
            ProfileInputValid(p) && !EmailClash(old(db.users), i, p.email.value) && !updateSucceeds)
      && (outcome == ProfileSaved ==>
            && lines == ChangedLines(ProfileFields, StoredProfile(u), SubmittedProfile(p))
            && db.users == old(db.users)[i := ProfileEdited(u, p)]
            && db.activityLogs == old(db.activityLogs) +
                 (if lines == [] then []
                  else LogEntries(logger.Actor(), old(db.nextLogId), logger.utcNow, "UpdateProfile",
                         Some("Updated profile for " + p.email.value), Some(ProfilePayload(u, lines)), logger.serialize)))
    ensures outcome != ProfileSaved ==> db.users == old(db.users) && db.activityLogs == old(db.activityLogs)
  {
    lines := [];
    var found := CurrentUserIndex(db.users, logger.request);
    if found.None? {
      return SaveUserNotFound, lines;
    }
    var i := found.value;
    var u := db.users[i];
    if !ProfileInputValid(p) {
      return SaveInvalid, lines;
    }
    if EmailClash(db.users, i, p.email.value) {
      return SaveEmailInUse, lines;
    }
    var now;
    now, lines := TrackChanges(ProfileFields, StoredProfile(u), SubmittedProfile(p));
    if !updateSucceeds {
      return SaveUpdateFailed, lines;
    }
    SaveAndLog(db, logger, i, p, lines);
    return ProfileSaved, lines;
  }

  /** The save handler once `UpdateAsync` succeeded: the user is updated,
      and an entry is written only when some field changed. */
  method SaveAndLog(db: Db, logger: ActivityLogger, i: nat, p: ProfileInput, lines: seq<string>)
    requires logger.db == db && db.Valid() && i < |db.users|
    requires ProfileInputValid(p) && !EmailClash(db.users, i, p.email.value)
    modifies db`users, db`activityLogs, db`nextLogId
    ensures db.Valid()
    ensures var u := old(db.users)[i];
      && db.users == old(db.users)[i := ProfileEdited(u, p)]
      && db.activityLogs == old(db.activityLogs) +
           (if lines == [] then []
            else LogEntries(logger.Actor(), old(db.nextLogId), logger.utcNow, "UpdateProfile",
                   Some("Updated profile for " + p.email.value), Some(ProfilePayload(u, lines)), logger.serialize))
  {
    var u := db.users[i];
    NoOtherHolder(db.users, i, p.email.value);
    db.UpdateUser(i, ProfileEdited(u, p));
    if lines != [] {
      logger.LogAsync("UpdateProfile", Some("Updated profile for " + p.email.value), Some(ProfilePayload(u, lines)));
    }
  }

  /** Saving unchanged values writes no entry: no line means nothing
      differed. */
  lemma UnchangedProfileSavesNothing(u: User, p: ProfileInput)
    requires ProfileInputValid(p)
    ensures ChangedLines(ProfileFields, StoredProfile(u), SubmittedProfile(p)) == [] <==>
      StoredProfile(u) == SubmittedProfile(p)
    ensures |ChangedLines(ProfileFields, StoredProfile(u), SubmittedProfile(p))|
      == DiffCount(StoredProfile(u), SubmittedProfile(p))
  {
    NoLinesIffUnchanged(ProfileFields, StoredProfile(u), SubmittedProfile(p));
    LineCount(ProfileFields, StoredProfile(u), SubmittedProfile(p));
  }

  /** Removing only the phone number gives the single line that shows
      "None" for the new value. */
  lemma RemovedPhoneLine(u: User, p: ProfileInput)
    requires ProfileInputValid(p)
    requires u.phoneNumber.Some? && p.phoneNumber.None?
    requires Some(u.firstName) == p.firstName && Some(u.lastName) == p.lastName && u.email == p.email
    ensures ChangedLines(ProfileFields, StoredProfile(u), SubmittedProfile(p))
      == ["PhoneNumber: '" + u.phoneNumber.value + "' → 'None'"]
  {
    OneChange(ProfileFields, StoredProfile(u), SubmittedProfile(p), 2);
    assert Line(ProfileFields[2], u.phoneNumber, None)
      == "PhoneNumber" + ": '" + u.phoneNumber.value + "' → '" + "None" + "'";
    assert "PhoneNumber" + ": '" + u.phoneNumber.value + "' → '" + "None" + "'"
      == "PhoneNumber: '" + u.phoneNumber.value + "' → 'None'";
  }

  // ---- change password ----

  /** The password form; unbound fields are null. */
  datatype PasswordInput = PasswordInput(oldPassword: Option<string>, newPassword: Option<string>,
    confirmPassword: Option<string>)

  /** The handler's own checks: both passwords present and not blank, and
      the confirmation equal to the new password. */
  predicate PasswordInputValid(p: PasswordInput) {
    !IsNullOrWhiteSpace(p.oldPassword) && !IsNullOrWhiteSpace(p.newPassword) && p.newPassword == p.confirmPassword
  }

  datatype PasswordOutcome = PasswordUserNotFound | PasswordInvalid | PasswordRejected | PasswordChanged

  /** The ChangePassword entry's data: the user id and nothing else. */
  function PasswordPayload(u: User): (d: Payload)
    ensures |d| == 1 && d[0].name == "UserId" && d[0].value == VText(Some(u.id))
  {
    [Member("UserId", VText(Some(u.id)))]
  }

  /** `OnPostChangePasswordAsync`. Without a signed-in user, with a form
      that fails the checks (in which case `ChangePasswordAsync` is not
      called), or when `ChangePasswordAsync` fails, nothing is written.
      Otherwise one ChangePassword entry is written whose data holds only
      the user id. */
  method OnPostChangePassword(db: Db, logger: ActivityLogger, p: PasswordInput,
                              changePassword: (User, string, string) -> bool)
    returns (outcome: PasswordOutcome)
    requires logger.db == db && db.Valid()
    modifies db`activityLogs, db`nextLogId
    ensures db.Valid()
    ensures outcome == PasswordUserNotFound <==> CurrentUserIndex(db.users, logger.request).None?
    ensures outcome != PasswordUserNotFound ==>
      var u := db.users[CurrentUserIndex(db.users, logger.request).value];
      && (outcome == PasswordInvalid <==> !PasswordInputValid(p))
      && (outcome == PasswordRejected <==>
            PasswordInputValid(p) && !changePassword(u, p.oldPassword.value, p.newPassword.value))
      && (outcome == PasswordChanged ==>
            db.activityLogs == old(db.activityLogs) + LogEntries(logger.Actor(), old(db.nextLogId), logger.utcNow,
              "ChangePassword", Some("Changed password for " + u.email.GetOr("")), Some(PasswordPayload(u)),
              logger.serialize))
    ensures outcome != PasswordChanged ==> db.activityLogs == old(db.activityLogs)
  {
    var found := CurrentUserIndex(db.users, logger.request);
    if found.None? {
      return PasswordUserNotFound;
    }
    var u := db.users[found.value];
    if !PasswordInputValid(p) {
      return PasswordInvalid;
    }
    if !changePassword(u, p.oldPassword.value, p.newPassword.value) {
      return PasswordRejected;
    }
    logger.LogAsync("ChangePassword", Some("Changed password for " + u.email.GetOr("")), Some(PasswordPayload(u)));
    return PasswordChanged;
  }

  /** A blank current or new password, or a confirmation that differs,
      stops the handler before the password store is asked. */
  lemma PasswordChecks(p: PasswordInput)
    ensures IsNullOrWhiteSpace(p.oldPassword) ==> !PasswordInputValid(p)
    ensures IsNullOrWhiteSpace(p.newPassword) ==> !PasswordInputValid(p)
    ensures p.newPassword != p.confirmPassword ==> !PasswordInputValid(p)
    ensures PasswordInputValid(p) ==> p.oldPassword.Some? && p.newPassword.Some? && p.confirmPassword == p.newPassword
  {
  }

  /** The ChangePassword entry's data is the user's id and nothing else,
      so no password reaches the log. */
  lemma PasswordNeverLogged(actor: Option<User>, id: nat, now: Time, u: User, serialize: Payload -> string)
    ensures var entries := LogEntries(actor, id, now, "ChangePassword", Some("Changed password for " + u.email.GetOr("")),
        Some(PasswordPayload(u)), serialize);
      forall k :: 0 <= k < |entries| ==> entries[k].jsonData == Some(serialize([Member("UserId", VText(Some(u.id)))]))
  {
  }
}
