# YardOps administration core in Dafny

YardOps is an ASP.NET Core Razor Pages application for running a freight
yard. This project models its administrative core:

- the Users, Roles, Carriers and Activities admin pages;
- the Identity account pages for login, e-mail confirmation, forgotten
  password and the profile page (profile and password);
- the activity logger and the carrier-code generator;
- the view models that format activity entries and users;
- the start-up seeder that creates the system roles and the default
  administrator.

Each page handler is a method on a shared store, `Store.Db`. The store is a
class holding the tables as sequences in storage order:

- users, roles and user-role links;
- carriers, with the next value of the carrier identity column;
- activity log entries, with the next log id.

The store's invariant `Valid()` holds the following:

- user ids and normalised e-mails are unique;
- role ids and normalised role names are unique;
- every link joins an existing user and an existing role, and no link
  appears twice;
- every carrier id is below the identity counter, every carrier code is
  unique, and a code's number never exceeds its own carrier's id;
- every log entry has a unique id below the counter and an existing author.

Every handler keeps `Valid()`. Each one states its complete new state in
terms of the old one: which tables changed, to what, and which single log
entry was appended. The entry is given by `Store.LogEntries`, which models
what `ActivityLogger.LogAsync` writes. A handler's outcome datatype lists
the page's branches, and each branch is characterised by an
"if and only if" over the inputs.

The following framework services are parameters of the handlers:

- ASP.NET model validation: an `isEmail` predicate or an `inputValid`
  predicate;
- Identity's `CreateAsync`, `UpdateAsync`, `DeleteAsync`,
  `PasswordSignInAsync`, `ChangePasswordAsync` and the confirmation-token
  check, as booleans or small result datatypes;
- generated ids;
- the clock;
- the JSON serializer and parser;
- SMTP availability.

The read-only list pages are pure functions. Each filters, sorts and pages
its list and is specified by membership, order and permutation lemmas. The
loops the source runs are methods proved against those functions:

- building the action drop-down;
- the role rows;
- the change-set tracking;
- the JSON formatting;
- the role-seeding loop.

Some behaviour below follows the code where one might expect otherwise:

- The activity JSON formatter hides exactly the property names `UserId` and
  `CreatedBy`, compared case-sensitively. A lower-case `userId` is shown.
- The activity, user and carrier lists are sorted by creation time with no
  tiebreak, and each request sorts again. The model uses one stable order
  for every request. Any order a request may pick is also newest first (or
  oldest first) and a permutation of the matches, as the lemmas state for the
  model's order. The completeness lemmas
  (`ActivitiesPage.EveryMatchShown`, `UsersPage.EveryMatchListed`,
  `CarriersPage.EveryMatchShown`) are proved for the model's order.
  - `ActivitiesPage.EveryMatchShownAnyOrder`,
    `UsersPage.EveryMatchListedAnyOrder` and
    `CarriersPage.EveryMatchShownAnyOrder` let each page request pick its
    own admissible order.
  - They prove completeness across requests when the matching rows have
    distinct creation times, because the sorted order is then unique
    (`Sorting.SortedDescUnique`, `Sorting.SortedAscUnique`).
  - With tied times, two requests may order the tied rows differently, and
    a row can then fall between pages.
- The carrier edit form bounds every column except the status (`[Required]`
  only, while the column is 20 characters wide). A longer status passes
  validation and makes `SaveChangesAsync` throw, so the carrier is unchanged
  and no entry is written (`CarriersPage.EditSaveFailed`). The create path
  meets the same failure whenever a submitted value is longer than its
  column.
- `GetRolesAsync` is modelled as returning the user's role names in the
  order the links are stored. The database query behind it is a join with
  no `ORDER BY`, so that order is an assumption of the model. The "first
  current role" that the user edit replaces (`Store.CurrentRole`) and the
  statement of `UsersPage.RoleSwapped` both rest on it.
- Changed-field lines print a missing value as the empty string, except the
  profile phone number, which prints `None`.
- Role names are compared in two ways:
  - Identity looks roles up by ASCII upper-case normalised name, so a
    rename of a custom role that only changes letter case is refused as
    "already exists";
  - the seeder asks `RoleExistsAsync`, which looks the name up the same
    normalised way;
  - the role list's ordering compares names ordinally, in memory.
- Searches use ordinal `Contains` on the stored text. Several other
  comparisons also run inside the database and are modelled as ordinal:
  - the distinct, sorted action list of the activity page;
  - the activity page's action filter;
  - the carrier page's status filter.

  A database collation may compare differently, for example ignoring
  case, and so may merge, order or match these values differently.
- The next carrier code is derived from the largest surviving carrier id,
  not from the identity counter. The code of a deleted newest carrier is
  handed out again (`CarriersPage.CodeFollowsSurvivors`). Uniqueness among
  the stored carriers is still proved (`CarriersPage.NextCodeFresh`).
- The login entry is written only when the current request's principal
  resolves to a stored user, which is how `LogAsync` behaves.
- On the profile page the name and phone change lines are recorded, and
  the fields assigned, before the e-mail clash check runs. When the clash
  refuses the save, those lines and assignments are discarded without any
  save, so a refused save changes nothing in the store. The admin user
  edit behaves the same way.
- In the admin user edit the result of `UpdateAsync` is not checked. When
  the update fails validation, the field assignments, the role removal
  and the role addition are still tracked on the database context. The
  logger shares that context and saves it when it writes the "EditUser"
  entry, so the edit reaches the store anyway whenever a signed-in actor
  resolves (`UsersPage.ApplyEdit`). A submitted role that does not exist
  makes `AddToRoleAsync` throw before that save, and then nothing is
  stored.

## Model

| member | source | states |
|---|---|---|
| Text.ToLower | Pages/Admin/Activities/Index.cshtml.cs:84-96 | lower-casing keeps the length, leaves no upper-case ASCII letter, moves each of 'A'..'Z' to its lower-case letter and leaves every other character alone |
| Text.ToLowerIdempotent | Pages/Admin/Activities/Index.cshtml.cs:84-96 | lower-casing twice is lower-casing once |
| Text.ToUpper | Models/ViewModels/Users/UserViewModel.cs:16 | upper-casing keeps the length, leaves no lower-case ASCII letter, moves each of 'a'..'z' to its upper-case letter and leaves every other character alone |
| Text.ToUpperIdempotent | Models/ViewModels/Users/UserViewModel.cs:16 | upper-casing twice is upper-casing once |
| Text.FoldingsAgree | Pages/Admin/Activities/Index.cshtml.cs:84-96 | two strings are equal after upper-casing exactly when they are equal after lower-casing |
| Text.LessIrreflexive | Pages/Admin/Activities/Index.cshtml.cs:56-69 | the ordinal string order used to sort actions is irreflexive |
| Text.LessTransitive | Pages/Admin/Activities/Index.cshtml.cs:56-69 | the ordinal order is transitive |
| Text.LessTotal | Pages/Admin/Activities/Index.cshtml.cs:56-69 | any two different strings are ordered one way or the other |
| Text.LessAsymmetric | Pages/Admin/Activities/Index.cshtml.cs:56-69 | the ordinal order is asymmetric |
| Text.Squeeze | Models/ViewModels/Activities/ActivityLogViewModel.cs:26 | the name with its runs of spaces collapsed is empty exactly when the name is spaces only |
| Text.SqueezeTrimmed | Models/ViewModels/Activities/ActivityLogViewModel.cs:26 | the collapsed name has no leading or trailing space and no two spaces in a row |
| Text.Words | Models/ViewModels/Activities/ActivityLogViewModel.cs:26 | splitting on spaces with empty entries removed yields non-empty, space-free words that, joined by single spaces, give back the name with its space runs collapsed: the maximal runs of non-spaces, in order |
| Text.WordsOfJoin | Models/ViewModels/Activities/ActivityLogViewModel.cs:26 | splitting non-empty, space-free words joined by single spaces gives back exactly those words |
| Text.WordsUnique | Models/ViewModels/Activities/ActivityLogViewModel.cs:26 | the split is the only list of non-empty, space-free words whose single-space join is the collapsed name |
| Text.WordsEmptyIffSpaces | Models/ViewModels/Activities/ActivityLogViewModel.cs:26 | the split is empty exactly when the name consists of spaces only |
| Text.FirstWordStart | Models/ViewModels/Activities/ActivityLogViewModel.cs:26-28 | the first word starts at the first non-space character |
| Text.WordsOfTwo | Models/ViewModels/Activities/ActivityLogViewModel.cs:26 | "first last" splits into exactly the two names |
| Entities.DefaultCarrier | Models/Carrier.cs:13-41 | a new carrier defaults to status "Active" and the creation time |
| Entities.DefaultCarrierInvalid | Models/Carrier.cs:13-19 | a default carrier fails validation, since its company name is required and empty |
| Entities.CreatedByEmail | Models/Carrier.cs:48 | the creator's e-mail, or "Unknown" when there is no creator or no e-mail |
| CarrierCodeGenerator.Wrap32 | Services/CarrierCodeGenerator.cs:7 | 32-bit wrap-around leaves in-range values unchanged |
| CarrierCodeGenerator.GenerateNextCode | Services/CarrierCodeGenerator.cs:5-9 | the code starts with "CAR-" and has at least three digits or a sign after it |
| CarrierCodeGenerator.CodeRoundTrip | Services/CarrierCodeGenerator.cs:7-8 | for a maximum id below Int32.MaxValue, the code's suffix is all digits and decodes to the maximum id plus one |
| CarrierCodeGenerator.CodesDistinct | Services/CarrierCodeGenerator.cs:5-9 | different maximum ids give different codes |
| CarrierCodeGenerator.CodeLengthSmall | Services/CarrierCodeGenerator.cs:8 | up to 998 the code has exactly seven characters (zero-padded to three digits) |
| CarrierCodeGenerator.CodeFitsColumn | Services/CarrierCodeGenerator.cs:7-8 | every code for a non-overflowing id fits the 20-character column of `Carrier.CarrierCode` |
| CarrierCodeGenerator.CodeAtMaxValueWraps | Services/CarrierCodeGenerator.cs:7-8 | at Int32.MaxValue the increment wraps and the code is "CAR--2147483648" |
| CarrierCodeGenerator.WrapAtMax | Services/CarrierCodeGenerator.cs:7 | Int32.MaxValue + 1 wraps to Int32.MinValue |
| CarrierCodeGenerator.ParseDigits | Services/CarrierCodeGenerator.cs:8 | decimal formatting of a natural number parses back to it |
| CarrierCodeGenerator.ParseLeadingZeros | Services/CarrierCodeGenerator.cs:8 | zero padding does not change the parsed value |
| Sorting.SortDesc | Pages/Admin/Activities/Index.cshtml.cs:118 | the descending sort is non-increasing on the key and a permutation of its input |
| Sorting.SortAsc | Pages/Admin/Users/Index.cshtml.cs:387 | the ascending sort is non-decreasing on the key and a permutation of its input |
| Sorting.SortedDescUnique | Pages/Admin/Activities/Index.cshtml.cs:118 | two non-increasing permutations of one list agree when no two of its elements share a key |
| Sorting.SortedAscUnique | Pages/Admin/Users/Index.cshtml.cs:387 | two non-decreasing permutations of one list agree when no two of its elements share a key |
| Sorting.DistinctSortedCorrect | Pages/Admin/Activities/Index.cshtml.cs:56-69 | distinct-then-sort yields a strictly increasing list holding exactly the input's values |
| Paging.TotalPages | Pages/Admin/Activities/Index.cshtml.cs:121-123 | at least one page; the pages hold every item and the last page is not empty unless there is one page |
| Paging.ClampPage | Pages/Admin/Activities/Index.cshtml.cs:126-129 | the page number is clamped into 1..TotalPages: low requests go to page 1, high ones to the last page |
| Paging.Paginate | Pages/Admin/Activities/Index.cshtml.cs:121-129 | a page holds at most PageSize items, exactly the consecutive slice of the list starting at (page-1)*PageSize |
| Paging.PageItemsFromList | Pages/Admin/Activities/Index.cshtml.cs:121-129 | every item on a page comes from the list |
| Paging.ClampedRequestSamePage | Pages/Admin/Activities/Index.cshtml.cs:126-129 | an out-of-range request shows the same page as its clamped number |
| Paging.ItemOnItsPage | Pages/Admin/Activities/Index.cshtml.cs:121-129 | item i appears on page i / PageSize + 1 at position i % PageSize |
| UserView.FullName | Models/ViewModels/Users/UserViewModel.cs:15 | the full name is the first name, one space, then the last name |
| UserView.NameInitial | Models/ViewModels/Users/UserViewModel.cs:16 | a name's initial is its upper-cased first letter, or '?' for an empty name |
| UserView.Initials | Models/ViewModels/Users/UserViewModel.cs:16 | two characters: the first-name and last-name initials |
| UserView.InitialsUppercase | Models/ViewModels/Users/UserViewModel.cs:16 | initials are already upper case |
| ActivityView.Initials | Models/ViewModels/Activities/ActivityLogViewModel.cs:22-33 | two initials when the name has two words, one for one word, "?" for a blank name, each the upper-cased first letter of its word |
| ActivityView.BlankNameInitials | Models/ViewModels/Activities/ActivityLogViewModel.cs:26-31 | a name of spaces only shows "?" |
| ActivityView.InitialsAgreeWithUserList | Models/ViewModels/Activities/ActivityLogViewModel.cs:22-33 | for single-word first and last names the activity list shows the same initials as the user list |
| ActivityView.ShownLines | Models/ViewModels/Activities/ActivityLogViewModel.cs:50-56 | no more lines than properties, none exactly when every property is hidden, every line is the "name: value" line of a shown property, and every shown property has its line |
| ActivityView.ShownCount | Models/ViewModels/Activities/ActivityLogViewModel.cs:50-56 | the number of shown properties is at most the number of properties |
| ActivityView.ShownLinesInOrder | Models/ViewModels/Activities/ActivityLogViewModel.cs:50-56 | exactly one line per shown property: the j-th property, when shown, has its line at the position equal to the number of shown properties before it |
| ActivityView.FormattedJsonData | Models/ViewModels/Activities/ActivityLogViewModel.cs:38-64 | the loop over the object's properties computes the formatted payload |
| ActivityView.MissingPayload | Models/ViewModels/Activities/ActivityLogViewModel.cs:42-43 | a null or empty payload shows "N/A" |
| ActivityView.UnparseablePayload | Models/ViewModels/Activities/ActivityLogViewModel.cs:60-63 | text that does not parse as JSON is shown unchanged |
| ActivityView.NonObjectPayload | Models/ViewModels/Activities/ActivityLogViewModel.cs:58 | JSON that is not an object is shown unchanged |
| ActivityView.ObjectPayload | Models/ViewModels/Activities/ActivityLogViewModel.cs:48-56 | an object shows its visible lines joined by ", ", or "N/A" when every property is hidden |
| ActivityView.LowerCaseUserIdShown | Models/ViewModels/Activities/ActivityLogViewModel.cs:53 | the hidden names are compared case-sensitively, so "userId" is shown |
| InputModels.NewEditCarrierInput | Models/ViewModels/Carriers/EditCarrierInput.cs:7-38 | a fresh edit form has empty code and company name and status "Active" |
| InputModels.EditCarrierStricterThanEntity | Models/ViewModels/Carriers/EditCarrierInput.cs:18-21 | the edit form requires a contact person, which the entity does not |
| InputModels.EditCarrierOptionalFields | Models/ViewModels/Carriers/EditCarrierInput.cs:23-34 | a valid form's phone, address and e-mail respect their length limits and the e-mail format |
| InputModels.NewEditCarrierInputInvalid | Models/ViewModels/Carriers/EditCarrierInput.cs:7-38 | an untouched edit form does not validate |
| InputModels.NewCreateRoleInput | Models/ViewModels/Roles/CreateRoleInput.cs:7-18 | a fresh role form has an empty name, no description and status "Active" |
| InputModels.RoleNameRequired | Models/ViewModels/Roles/CreateRoleInput.cs:7-10 | a blank name or one over 50 characters is refused |
| InputModels.NewCreateRoleInputInvalid | Models/ViewModels/Roles/CreateRoleInput.cs:7-18 | an untouched role form does not validate |
| InputModels.NewCreateUserInput | Models/ViewModels/Users/CreateUserInput.cs:7-22 | a fresh user form has all fields empty |
| InputModels.NewCreateUserInputInvalid | Models/ViewModels/Users/CreateUserInput.cs:7-22 | an untouched user form does not validate |
| InputModels.CreateUserInputFields | Models/ViewModels/Users/CreateUserInput.cs:7-22 | a valid user form has non-blank names, role and a well-formed e-mail |
| InputModels.NewEditUserInput | Models/ViewModels/Users/EditUserInput.cs:7-23 | a fresh edit form has all fields empty |
| InputModels.NewEditUserInputInvalid | Models/ViewModels/Users/EditUserInput.cs:7-23 | an untouched edit form does not validate |
| InputModels.EditUserInputFields | Models/ViewModels/Users/EditUserInput.cs:7-23 | a valid edit form has every required field non-blank and a well-formed e-mail |
| Logging.ActivityLogger.Actor | Services/ActivityLogger.cs:27-31 | the author is a stored user, and there is none without a request |
| Logging.ActivityLogger.Pending | Services/ActivityLogger.cs:25-44 | at most one entry, and none exactly when no author resolves |
| Logging.ActivityLogger.LogAsync | Services/ActivityLogger.cs:25-44 | appends the pending entry (if any), advances the id counter by as much and keeps the store valid |
| Logging.EmailSender.SendEmailAsync | Services/EmailSender.cs:18 | an available mailer records one message to the recipient with the subject; an unavailable one records nothing |
| ChangeSet.TrackChanges | Pages/Admin/Users/Index.cshtml.cs:206-235 | the field-by-field loop leaves the submitted values and the change lines of the changed fields, in field order |
| ChangeSet.LineCount | Pages/Admin/Users/Index.cshtml.cs:206-235 | one line per field whose value changed |
| ChangeSet.NoLinesIffUnchanged | Pages/Admin/Users/Index.cshtml.cs:206-235 | no lines exactly when nothing changed |
| ChangeSet.OneChange | Pages/Admin/Users/Index.cshtml.cs:206-235 | a single changed field gives exactly its "Field: 'old' → 'new'" line |
| ChangeSet.LinesOfPrefix | Pages/Admin/Users/Index.cshtml.cs:206-235 | the lines of the first fields come first |
| Store.FindUserById | Pages/Admin/Users/Index.cshtml.cs:199-204 | `FindByIdAsync`: the index of the user with the id, or none when no user has it |
| Store.FindUserByEmail | Pages/Admin/Users/Index.cshtml.cs:72-78 | `FindByEmailAsync`: a user whose normalised e-mail matches, or none when none matches |
| Store.SignedInUser | Services/ActivityLogger.cs:27-31 | `GetUserAsync`: the stored user named by the request's principal, or none |
| Store.FindRoleById | Pages/Admin/Roles/Index.cshtml.cs:114-131 | `FindByIdAsync` on roles: the role with the id, or none |
| Store.FindRoleByName | Pages/Admin/Roles/Index.cshtml.cs:68-83 | `FindByNameAsync`: a role whose normalised name matches, or none |
| Store.RoleNamesOf | Pages/Admin/Users/Index.cshtml.cs:237-238 | `GetRolesAsync`: at most one name per link, and every name is that of an existing role linked to the given user |
| Store.LinkedCount | Pages/Admin/Users/Index.cshtml.cs:237-238 | the number of the user's links that resolve to a role is at most the number of links |
| Store.RoleNamesInOrder | Pages/Admin/Users/Index.cshtml.cs:237-238 | exactly one name per resolving link of the user, in link order: the link at index j gives the name at the position equal to the number of resolving links of that user before it |
| Store.LinkedCountZero | Pages/Admin/Users/Index.cshtml.cs:237-238 | the user has no role names exactly when none of their links resolves |
| Store.CurrentRoleFirstLink | Pages/Admin/Users/Index.cshtml.cs:237-238 | the first role is none exactly when no link of the user resolves, and otherwise the role of the user's first resolving link |
| Store.UsersInRole | Pages/Admin/Roles/Index.cshtml.cs:219-224 | the number of users in a role is zero exactly when no link names it |
| Store.LogEntries | Services/ActivityLogger.cs:33-43 | no entry without an author; otherwise one entry by the author with the time, action, description and id, with a payload exactly when extra data was given |
| Store.Db.InsertUser | Pages/Admin/Users/Index.cshtml.cs:96-104 | `CreateAsync`: appends a user with a fresh id and an unused e-mail |
| Store.Db.UpdateUser | Pages/Admin/Users/Index.cshtml.cs:236 | `UpdateAsync`: replaces one user, keeping the id; the e-mail must not be another user's |
| Store.Db.InsertLink | Pages/Admin/Users/Index.cshtml.cs:105 | `AddToRoleAsync`: appends one new link between an existing user and role |
| Store.Db.RemoveLinks | Pages/Admin/Users/Index.cshtml.cs:242-243 | `RemoveFromRoleAsync`: the links afterwards are the old ones without that link |
| Store.Db.DeleteUser | Data/Migrations/20260224123924_RenameColumnsForConsistency.cs:64-70 | deleting a user removes it, its links and its log entries (cascade) and clears it as a carrier's creator (set null) |
| Store.Db.InsertRole | Pages/Admin/Roles/Index.cshtml.cs:68-83 | `RoleManager.CreateAsync`: appends a role with a fresh id and an unused name |
| Store.Db.UpdateRole | Pages/Admin/Roles/Index.cshtml.cs:173-182 | `RoleManager.UpdateAsync`: replaces one role, keeping its id; no other role may hold the name |
| Store.Db.DeleteRole | Pages/Admin/Roles/Index.cshtml.cs:229-234 | `RoleManager.DeleteAsync` on a role no user holds removes it |
| Store.Db.InsertCarrier | Data/Migrations/20260221134109_AddCarriersTable.cs:18-45 | a row that fits the columns gets the next identity value and a code unique among the carriers |
| Store.Db.UpdateCarrier | Pages/Admin/Carriers/Index.cshtml.cs:129-165 | replaces one carrier, keeping its id and code |
| Store.Db.DeleteCarrier | Pages/Admin/Carriers/Index.cshtml.cs:185-217 | removes one carrier |
| Store.Db.AppendLogs | Services/ActivityLogger.cs:39-43 | appends at most one entry whose id is the counter and whose author exists, and advances the counter |
| Store.LinksWithout | Pages/Admin/Users/Index.cshtml.cs:242-243 | exactly the other links, still without duplicates |
| Store.LinksOfOthers | Data/Migrations/20260224123924_RenameColumnsForConsistency.cs:64-70 | exactly the links of other users, still without duplicates |
| Store.LogsOfOthers | Data/Migrations/20260224123924_RenameColumnsForConsistency.cs:64-70 | exactly the log entries of other authors, with distinct ids |
| Store.ClearCreator | Data/Migrations/20260221134109_AddCarriersTable.cs:33-38 | the same carriers in the same order with only the creator touched: a carrier has no creator afterwards exactly when it had none or the deleted user created it, other creators stay, and the deleted user is nobody's creator |
| Store.UserRemovalKeepsValid | Data/Migrations/20260224123924_RenameColumnsForConsistency.cs:64-70 | removing a user with its cascades keeps every table invariant |
| Store.LinksAfterUserRemoval | Data/Migrations/20260224123924_RenameColumnsForConsistency.cs:64-70 | the remaining links still join existing users and roles |
| Store.LogsAfterUserRemoval | Data/Migrations/20260224123924_RenameColumnsForConsistency.cs:64-70 | the remaining log entries still have existing authors |
| Store.ClearCreatorKeepsValid | Data/Migrations/20260221134109_AddCarriersTable.cs:33-38 | clearing the creator keeps the carrier invariant |
| Store.RemoveUserKeepsUsersValid | Data/Migrations/20260224123924_RenameColumnsForConsistency.cs:64-70 | ids and e-mails stay unique after removing a user |
| Store.EmailHolderUnique | Pages/Admin/Users/Index.cshtml.cs:72-78 | at most one user holds an e-mail |
| Store.NoOtherHolder | Pages/Admin/Users/Index.cshtml.cs:222-231 | when the e-mail check passes, no other user holds the submitted e-mail |
| ActivitiesPage.Actions | Pages/Admin/Activities/Index.cshtml.cs:56-69 | one action per log entry, and a string is among them exactly when some entry has it as its action |
| ActivitiesPage.ActionsMembers | Pages/Admin/Activities/Index.cshtml.cs:56-69 | the actions taken from the entries hold exactly the entries' actions |
| ActivitiesPage.OptionItems | Pages/Admin/Activities/Index.cshtml.cs:56-69 | one drop-down item per action, in order, whose text and value are both that action |
| ActivitiesPage.LoadActionOptions | Pages/Admin/Activities/Index.cshtml.cs:56-69 | the loop builds the drop-down the options function specifies |
| ActivitiesPage.ActionOptions | Pages/Admin/Activities/Index.cshtml.cs:56-69 | the first option is "All Actions"; every other option's text is its value |
| ActivitiesPage.ActionOptionsAscending | Pages/Admin/Activities/Index.cshtml.cs:56-69 | actions after the first option are strictly ascending (distinct and sorted) |
| ActivitiesPage.ActionOptionsExactlyStored | Pages/Admin/Activities/Index.cshtml.cs:56-69 | an action is offered exactly when some entry has it |
| ActivitiesPage.Author | Pages/Admin/Activities/Index.cshtml.cs:132-144 | the stored user who wrote the entry, or none when the author is gone |
| ActivitiesPage.DayStart | Pages/Admin/Activities/Index.cshtml.cs:105-115 | the start of the entry's day: a whole day boundary at or before the time |
| ActivitiesPage.Matching | Pages/Admin/Activities/Index.cshtml.cs:84-115 | exactly the entries passing the search, action and date filters |
| ActivitiesPage.Ordered | Pages/Admin/Activities/Index.cshtml.cs:118 | the matching entries, newest first, as a permutation |
| ActivitiesPage.Project | Pages/Admin/Activities/Index.cshtml.cs:132-144 | the row keeps the entry's id, time, action, description and payload |
| ActivitiesPage.ShowPage | Pages/Admin/Activities/Index.cshtml.cs:121-144 | the total, the page count, the clamped page, and the rows of that page's whole slice: min(10, remaining) entries from (page-1)*10 |
| ActivitiesPage.LoadActivities | Pages/Admin/Activities/Index.cshtml.cs:84-144 | the shown page (the whole slice) of the ordered matching entries; the total counts all matches |
| ActivitiesPage.OrderedMembers | Pages/Admin/Activities/Index.cshtml.cs:84-118 | an entry is in the ordered list exactly when it is stored and passes the filters |
| ActivitiesPage.ShownEntriesMatch | Pages/Admin/Activities/Index.cshtml.cs:84-144 | every shown row projects a stored entry that passes the filters |
| ActivitiesPage.PageKeepsOrder | Pages/Admin/Activities/Index.cshtml.cs:118-129 | paging keeps newest-first order |
| ActivitiesPage.ShownNewestFirst | Pages/Admin/Activities/Index.cshtml.cs:118-129 | the rows of any page are newest first |
| ActivitiesPage.EveryMatchShown | Pages/Admin/Activities/Index.cshtml.cs:84-129 | every matching entry appears on some page of the model's order |
| ActivitiesPage.AdmissibleOrderUnique | Pages/Admin/Activities/Index.cshtml.cs:118 | with distinct creation times among the matches, any newest-first permutation of the matches is the model's order |
| ActivitiesPage.EveryMatchShownAnyOrder | Pages/Admin/Activities/Index.cshtml.cs:84-129 | when each page request sorts the matches newest first in its own way and their creation times are distinct, every matching entry appears on some page |
| ActivitiesPage.UnknownAuthorShown | Pages/Admin/Activities/Index.cshtml.cs:135-138 | an entry whose author is gone shows "Unknown User" and "N/A" |
| ActivitiesPage.InactiveFiltersKeepAll | Pages/Admin/Activities/Index.cshtml.cs:84-115 | with blank search, "all" actions and no dates, every entry is kept |
| ActivitiesPage.WhiteSpaceUnderLowering | Pages/Admin/Activities/Index.cshtml.cs:84-85 | lower-casing does not change whether a character is white space |
| ActivitiesPage.SearchIgnoresCase | Pages/Admin/Activities/Index.cshtml.cs:84-96 | search terms equal after lower-casing select the same entries |
| ActivitiesPage.WholeDays | Pages/Admin/Activities/Index.cshtml.cs:105-115 | the date window covers whole days: a same-day time is kept, times after "to"'s day or before "from"'s day are not |
| UsersPage.OnPostCreate | Pages/Admin/Users/Index.cshtml.cs:62-187 | invalid form, e-mail taken, create failure and missing role are told apart; a created user is linked to the role, logged as "CreateUser" and sent a confirmation when mail works |
| UsersPage.StoreNewUser | Pages/Admin/Users/Index.cshtml.cs:96-186 | a created user is appended; a missing role changes nothing more, otherwise the user is linked to the role, "CreateUser" is logged and the confirmation is sent |
| UsersPage.WithLink | Pages/Admin/Users/Index.cshtml.cs:244 | the link is added and every old link kept |
| UsersPage.OnPostEdit | Pages/Admin/Users/Index.cshtml.cs:189-257 | invalid form, unknown user and e-mail clash change nothing; otherwise the outcome of ApplyEdit |
| UsersPage.ApplyEdit | Pages/Admin/Users/Index.cshtml.cs:206-254 | the change lines; a missing submitted role for a role change is reported; the edited user, the role swap and the "EditUser" entry reach the store when the update succeeds, and also after a failed update when no role is missing and a signed-in actor makes the logger save the shared context; otherwise nothing changes |
| UsersPage.SaveAndReplace | Pages/Admin/Users/Index.cshtml.cs:236-254 | the edited user is stored, then the role swap, then "EditUser" unless the submitted role is missing |
| UsersPage.SaveEditedUser | Pages/Admin/Users/Index.cshtml.cs:236 | the user at its index takes the edited values and keeps its id; no other user changes |
| UsersPage.ReplaceRoleAndLog | Pages/Admin/Users/Index.cshtml.cs:237-254 | the role swap of ReplaceRole; a missing role stops before the entry, otherwise "EditUser" logs the change lines |
| UsersPage.ReplaceRole | Pages/Admin/Users/Index.cshtml.cs:237-245 | an unchanged role keeps the links; otherwise the first role is removed and the new role added, or reported missing |
| UsersPage.RemoveCurrentRole | Pages/Admin/Users/Index.cshtml.cs:242-243 | the link to the first current role goes when that role still resolves |
| UsersPage.RoleSwapped | Pages/Admin/Users/Index.cshtml.cs:237-245 | after a role change the user has the new role's link and not the old one's |
| UsersPage.EditLines | Pages/Admin/Users/Index.cshtml.cs:206-245 | one line per changed field, and none exactly when names, status, e-mail and role are all unchanged |
| UsersPage.EmailChangeRenames | Pages/Admin/Users/Index.cshtml.cs:222-235 | a changed e-mail also becomes the user name; an unchanged one keeps it; the id and creator stay |
| UsersPage.OnPostDelete | Pages/Admin/Users/Index.cshtml.cs:259-289 | unknown users and self-deletion change nothing; otherwise the user goes with its links and entries, carriers lose it as creator and "DeleteUser" is logged |
| UsersPage.DeleteAndLog | Pages/Admin/Users/Index.cshtml.cs:274-287 | the user goes with its links and entries, carriers lose it as creator, then "DeleteUser" is logged |
| UsersPage.OnPostResendConfirmation | Pages/Admin/Users/Index.cshtml.cs:291-370 | unknown and already-confirmed users get no mail; otherwise one confirmation is sent when mail works |
| UsersPage.SearchResults | Pages/Admin/Users/Index.cshtml.cs:381-385 | exactly the users matching the search term |
| UsersPage.Searched | Pages/Admin/Users/Index.cshtml.cs:381-387 | the matches, oldest first, as a permutation |
| UsersPage.Rows | Pages/Admin/Users/Index.cshtml.cs:390-407 | the filtered rows are at most the users |
| UsersPage.RowsComplete | Pages/Admin/Users/Index.cshtml.cs:390-407 | every listed user whose row passes the role and status filters has that row |
| UsersPage.EveryMatchListed | Pages/Admin/Users/Index.cshtml.cs:378-412 | every stored user matching the search whose row passes the filters appears on some page of the model's order |
| UsersPage.AdmissibleUserOrderUnique | Pages/Admin/Users/Index.cshtml.cs:387 | with distinct creation times among the matches, any oldest-first permutation of the matches is the model's order |
| UsersPage.EveryMatchListedAnyOrder | Pages/Admin/Users/Index.cshtml.cs:378-412 | when each page request sorts the matches oldest first in its own way and their creation times are distinct, every matching user whose row passes the filters appears on some page |
| UsersPage.LoadUsers | Pages/Admin/Users/Index.cshtml.cs:378-412 | the loop computes the page of filtered rows of the ordered search results |
| UsersPage.RowsFromUsers | Pages/Admin/Users/Index.cshtml.cs:390-407 | every row passes the role and status filters and is the row of a listed user |
| UsersPage.RowsOldestFirst | Pages/Admin/Users/Index.cshtml.cs:387-407 | the rows stay oldest first |
| UsersPage.InactiveFiltersListAll | Pages/Admin/Users/Index.cshtml.cs:390-407 | with "all" role and status filters every user has a row |
| UsersPage.NoRoleRow | Pages/Admin/Users/Index.cshtml.cs:390-407 | a user without roles shows "No Role" |
| UsersPage.SearchedMembers | Pages/Admin/Users/Index.cshtml.cs:381-387 | a user is listed exactly when stored and matching the search |
| RolesPage.OnPostCreate | Pages/Admin/Roles/Index.cshtml.cs:55-111 | invalid form, existing name and create failure change nothing; otherwise a non-system role is appended and "CreateRole" is logged |
| RolesPage.Submitted | Pages/Admin/Roles/Index.cshtml.cs:128-131 | a system role's submitted name is replaced by its stored name; other fields are taken as submitted |
| RolesPage.OnPostEdit | Pages/Admin/Roles/Index.cshtml.cs:114-198 | unknown role, invalid form, taken name and update failure change nothing; otherwise the role is replaced and "EditRole" logs its change lines |
| RolesPage.SystemRoleKeepsName | Pages/Admin/Roles/Index.cshtml.cs:128-131 | editing a system role keeps its name and its system flag |
| RolesPage.CaseOnlyRenameRefused | Pages/Admin/Roles/Index.cshtml.cs:146-152 | renaming a custom role to a case variant of its own name is refused as taken |
| RolesPage.EditLines | Pages/Admin/Roles/Index.cshtml.cs:154-171 | one line per changed field, none exactly when the role is unchanged, and never a name line for a system role |
| RolesPage.OnPostDelete | Pages/Admin/Roles/Index.cshtml.cs:201-249 | unknown, system and in-use roles (with the user count) and delete failure change nothing; otherwise the role is removed and "DeleteRole" is logged |
| RolesPage.DeleteAndLog | Pages/Admin/Roles/Index.cshtml.cs:226-245 | the unused role is removed and "DeleteRole" is logged with its id and name |
| RolesPage.Rank | Pages/Admin/Roles/Index.cshtml.cs:280-284 | Admin, YardManager and Driver rank above every other role |
| RolesPage.Group | Pages/Admin/Roles/Index.cshtml.cs:280-285 | the rows of one rank, newest first |
| RolesPage.GroupCount | Pages/Admin/Roles/Index.cshtml.cs:280-285 | a group holds every row of its rank and nothing else |
| RolesPage.OrderRolesCorrect | Pages/Admin/Roles/Index.cshtml.cs:280-285 | the ordered rows are a permutation of the rows, sorted by rank then newest first |
| RolesPage.OrderRolesPermutation | Pages/Admin/Roles/Index.cshtml.cs:280-285 | ordering loses and adds no rows |
| RolesPage.OrderRolesRanked | Pages/Admin/Roles/Index.cshtml.cs:280-285 | higher ranks come first, and within a rank newer roles come first |
| RolesPage.AdminFirst | Pages/Admin/Roles/Index.cshtml.cs:280-281 | when an Admin role exists it is listed first |
| RolesPage.RoleRows | Pages/Admin/Roles/Index.cshtml.cs:263-277 | one row per role, in storage order |
| RolesPage.LoadRoles | Pages/Admin/Roles/Index.cshtml.cs:258-292 | the loop builds the rows; the page is the paginated ordered rows |
| RolesPage.SystemRoleCount | Pages/Admin/Roles/Index.cshtml.cs:297 | at most one per role; zero exactly when no role is a system role, all exactly when every role is |
| RolesPage.LoadSummary | Pages/Admin/Roles/Index.cshtml.cs:294-298 | the user total is the number of users and the system-role total counts the flagged roles, zero exactly when none is flagged |
| RolesPage.SystemRoleCountCreate | Pages/Admin/Roles/Index.cshtml.cs:81 | creating a role, never a system role, leaves the system-role total unchanged |
| RolesPage.SystemRoleCountDelete | Pages/Admin/Roles/Index.cshtml.cs:212-229 | deleting a role, which is never a system role, leaves the system-role total unchanged |
| RolesPage.SystemRoleCountEdit | Pages/Admin/Roles/Index.cshtml.cs:154-173 | an edit that keeps the system flag leaves the system-role total unchanged |
| CarriersPage.MaxCarrierId | Pages/Admin/Carriers/Index.cshtml.cs:74 | the largest carrier id, or 0 without carriers |
| CarriersPage.MaxIdInRange | Pages/Admin/Carriers/Index.cshtml.cs:74 | the largest id lies between 0 and the identity counter |
| CarriersPage.NextCodeFresh | Pages/Admin/Carriers/Index.cshtml.cs:74-75 | the next code decodes to the largest id plus one, at most the counter, and no stored carrier has it |
| CarriersPage.CreatorId | Pages/Admin/Carriers/Index.cshtml.cs:58-106 | the creator is the signed-in user's id, or none |
| CarriersPage.OnPostCreate | Pages/Admin/Carriers/Index.cshtml.cs:58-106 | an invalid form, exhausted identity or a value longer than its column changes nothing; otherwise the carrier gets the next code and identity, and "CreateCarrier" is logged |
| CarriersPage.NewCarrierFits | Pages/Admin/Carriers/Index.cshtml.cs:74-91 | the new row fits the columns exactly when the submitted values do, since the generated code always fits |
| CarriersPage.StoreNewCarrier | Pages/Admin/Carriers/Index.cshtml.cs:70-102 | the carrier gets the code after the largest id and the next identity, is appended, and "CreateCarrier" is logged |
| CarriersPage.CodeFollowsSurvivors | Pages/Admin/Carriers/Index.cshtml.cs:74-75 | after carrier 1 the code is CAR-002, and after deleting it CAR-001 again |
| CarriersPage.CodeReusedAfterDelete | Pages/Admin/Carriers/Index.cshtml.cs:74-75 | in any store, a carrier created with the next code and then deleted leaves that same code as the next one |
| CarriersPage.FindCarrierById | Pages/Admin/Carriers/Index.cshtml.cs:111-126 | the carrier with the id, or none |
| CarriersPage.EditedCarrier | Pages/Admin/Carriers/Index.cshtml.cs:129-165 | the edited carrier holds the submitted values and keeps id, code, creator and creation time |
| CarriersPage.OnPostEdit | Pages/Admin/Carriers/Index.cshtml.cs:109-182 | invalid form and unknown carrier change nothing; a valid form with a status over 20 characters fails at the save and changes nothing; otherwise the carrier is updated and "EditCarrier" logs its change lines, even when empty |
| CarriersPage.EditedFits | Pages/Admin/Carriers/Index.cshtml.cs:109-167 | after a valid form, the edited row fits the columns exactly when the status has at most 20 characters |
| CarriersPage.UpdateAndLog | Pages/Admin/Carriers/Index.cshtml.cs:167-179 | for an edited row that fits the columns, the carrier takes the submitted values, then "EditCarrier" logs its code and change lines |
| CarriersPage.EditLines | Pages/Admin/Carriers/Index.cshtml.cs:129-165 | one line per changed field, none exactly when the carrier is unchanged |
| CarriersPage.ClearedPhoneLine | Pages/Admin/Carriers/Index.cshtml.cs:143-158 | clearing only the phone gives the line "Phone: 'old' → ''" |
| CarriersPage.OnPostDelete | Pages/Admin/Carriers/Index.cshtml.cs:185-217 | unknown carriers change nothing; otherwise the carrier is removed and "DeleteCarrier" is logged |
| CarriersPage.DeletedCarrierGone | Pages/Admin/Carriers/Index.cshtml.cs:185-217 | the deleted carrier's id is no longer found |
| CarriersPage.Matching | Pages/Admin/Carriers/Index.cshtml.cs:233-245 | exactly the carriers passing the search and status filters |
| CarriersPage.Ordered | Pages/Admin/Carriers/Index.cshtml.cs:248 | the matching carriers, newest first, as a permutation |
| CarriersPage.CreatorEmail | Pages/Admin/Carriers/Index.cshtml.cs:259-272 | no creator gives no e-mail |
| CarriersPage.Project | Pages/Admin/Carriers/Index.cshtml.cs:259-272 | the row keeps id, code, name, status and creation time, with trailer count 0 |
| CarriersPage.ShowPage | Pages/Admin/Carriers/Index.cshtml.cs:250-272 | the total, the page count, the clamped page, and the rows of that page's whole slice: min(10, remaining) carriers from (page-1)*10 |
| CarriersPage.LoadCarriers | Pages/Admin/Carriers/Index.cshtml.cs:226-273 | the shown page (the whole slice) of the ordered matching carriers; the total counts all matches |
| CarriersPage.OrderedMembers | Pages/Admin/Carriers/Index.cshtml.cs:233-248 | a carrier is in the ordered list exactly when stored and matching |
| CarriersPage.ShownFromOrdered | Pages/Admin/Carriers/Index.cshtml.cs:250-272 | every shown row projects an ordered carrier |
| CarriersPage.ListedCarriersMatch | Pages/Admin/Carriers/Index.cshtml.cs:226-273 | every shown row projects a stored carrier passing the filters |
| CarriersPage.EveryMatchShown | Pages/Admin/Carriers/Index.cshtml.cs:226-273 | every stored carrier passing the search and status filters appears on some page of the model's order |
| CarriersPage.AdmissibleOrderUnique | Pages/Admin/Carriers/Index.cshtml.cs:248 | with distinct creation times among the matches, any newest-first permutation of the matches is the model's order |
| CarriersPage.EveryMatchShownAnyOrder | Pages/Admin/Carriers/Index.cshtml.cs:226-273 | when each page request sorts the matches newest first in its own way and their creation times are distinct, every matching carrier appears on some page |
| CarriersPage.ListedNewestFirst | Pages/Admin/Carriers/Index.cshtml.cs:248-257 | the rows of any page are newest first |
| CarriersPage.InactiveFiltersListAll | Pages/Admin/Carriers/Index.cshtml.cs:233-245 | with a blank search and "all" status every carrier counts |
| CarriersPage.CreatorDisplay | Pages/Admin/Carriers/Index.cshtml.cs:259-272 | the row shows the creator's e-mail as `Carrier.CreatedByEmail` would, "Unknown" otherwise |
| AccountPages.StatusMessage | Areas/Identity/Pages/Account/Login.cshtml.cs:107-112 | "Inactive" and "Pending" get their own message, any other status the generic one |
| AccountPages.LoginGate | Areas/Identity/Pages/Account/Login.cshtml.cs:83-153 | a signed-in outcome names a stored user |
| AccountPages.SignedInMeansAllChecksPassed | Areas/Identity/Pages/Account/Login.cshtml.cs:86-120 | sign-in needs a valid form, a user with the e-mail, a confirmed e-mail, status "Active" and an accepted password |
| AccountPages.UnknownUserLooksLikeWrongPassword | Areas/Identity/Pages/Account/Login.cshtml.cs:88-92 | a wrong password and an unknown e-mail give the same message |
| AccountPages.NoPasswordAttemptWhenBlocked | Areas/Identity/Pages/Account/Login.cshtml.cs:95-115 | unconfirmed or non-active users are refused without the password being checked |
| AccountPages.ConfirmationBeforeStatus | Areas/Identity/Pages/Account/Login.cshtml.cs:95-99 | an unconfirmed e-mail is reported before the account status |
| AccountPages.RefusalMessagesDistinct | Areas/Identity/Pages/Account/Login.cshtml.cs:88-115 | the five refusal messages are all different |
| AccountPages.OnPostLogin | Areas/Identity/Pages/Account/Login.cshtml.cs:77-154 | the outcome is the gate's; only a sign-in updates the last-login time and logs "Login" |
| AccountPages.RecordLogin | Areas/Identity/Pages/Account/Login.cshtml.cs:123-133 | the last-login time is the clock's and one "Login" entry is requested |
| AccountPages.Confirmed | Areas/Identity/Pages/Account/ConfirmEmail.cshtml.cs:53-76 | a confirmed user has a confirmed e-mail and status "Active", and nothing else changes |
| AccountPages.OnGetConfirmEmail | Areas/Identity/Pages/Account/ConfirmEmail.cshtml.cs:27-79 | missing parameters, unknown users, rejected tokens and decode errors get their messages; an accepted token confirms and activates; an already-confirmed user succeeds and nothing changes, so following the link again is harmless |
| AccountPages.ConfirmIdempotent | Areas/Identity/Pages/Account/ConfirmEmail.cshtml.cs:53-76 | confirming twice is confirming once, and a confirmed active user is unchanged |
| AccountPages.ForgotDecision | Areas/Identity/Pages/Account/ForgotPassword.cshtml.cs:39-112 | an invalid e-mail redisplays the form; a reset mail goes exactly to a stored, confirmed user's address |
| AccountPages.ForgotDoesNotDisclose | Areas/Identity/Pages/Account/ForgotPassword.cshtml.cs:46-111 | for a valid e-mail the visible outcome is the confirmation page whatever users are stored |
| AccountPages.OnPostForgotPassword | Areas/Identity/Pages/Account/ForgotPassword.cshtml.cs:39-112 | the page shows the decision's outcome and sends one reset mail only when the decision says so and mail works |
| ProfilePage.DisplayData | Areas/Identity/Pages/Account/Manage/Index.cshtml.cs:48-56 | the header shows the e-mail, the full name, the list initials and the first role or "User" |
| ProfilePage.DisplayInitialsMatchList | Areas/Identity/Pages/Account/Manage/Index.cshtml.cs:52-55 | the profile initials are the user list's initials |
| ProfilePage.CurrentUserIndex | Areas/Identity/Pages/Account/Manage/Index.cshtml.cs:78-88 | the signed-in user's position, present exactly when the request's user resolves |
| ProfilePage.ProfileEdited | Areas/Identity/Pages/Account/Manage/Index.cshtml.cs:118-161 | the saved user holds the submitted names, e-mail and phone; a changed e-mail becomes the user name; id, status and confirmation stay |
| ProfilePage.OnPostSaveProfile | Areas/Identity/Pages/Account/Manage/Index.cshtml.cs:78-180 | unknown user, invalid form, e-mail clash and update failure change nothing; otherwise the user is saved and "UpdateProfile" is logged only when a line changed |
| ProfilePage.SaveAndLog | Areas/Identity/Pages/Account/Manage/Index.cshtml.cs:152-170 | the user is updated; an "UpdateProfile" entry is written only when some line changed |
| ProfilePage.UnchangedProfileSavesNothing | Areas/Identity/Pages/Account/Manage/Index.cshtml.cs:118-175 | no change lines exactly when the profile is unchanged, so nothing is logged |
| ProfilePage.RemovedPhoneLine | Areas/Identity/Pages/Account/Manage/Index.cshtml.cs:118-150 | removing only the phone gives "PhoneNumber: 'old' → 'None'" |
| ProfilePage.PasswordPayload | Areas/Identity/Pages/Account/Manage/Index.cshtml.cs:243-250 | the password entry's payload is only the user id |
| ProfilePage.OnPostChangePassword | Areas/Identity/Pages/Account/Manage/Index.cshtml.cs:182-255 | unknown user, invalid form and rejected change log nothing; a change logs "ChangePassword"; users are never modified |
| ProfilePage.PasswordChecks | Areas/Identity/Pages/Account/Manage/Index.cshtml.cs:195-223 | blank old or new password, or a mismatched confirmation, is refused |
| ProfilePage.PasswordNeverLogged | Areas/Identity/Pages/Account/Manage/Index.cshtml.cs:243-250 | the logged payload holds the user id and no password |
| Seeder.SeedRole | Data/DbSeeder.cs:12-35 | each seed role is an active system role with its seed name |
| Seeder.SeededPrefixKeeps | Data/DbSeeder.cs:37-43 | seeding only appends, at most one role per seed |
| Seeder.SeededPrefixExists | Data/DbSeeder.cs:37-43 | after each iteration the seed names seen so far exist |
| Seeder.SeededPrefixAdded | Data/DbSeeder.cs:37-43 | every added role is an active system role with a seed name |
| Seeder.SeedRolesCorrect | Data/DbSeeder.cs:8-44 | afterwards Admin, YardManager and Driver exist, old roles are unchanged in front and added ones are active system roles |
| Seeder.SeedingAllPresent | Data/DbSeeder.cs:37-43 | when every seed name exists nothing is added |
| Seeder.SeedRolesIdempotent | Data/DbSeeder.cs:8-44 | seeding roles a second time changes nothing |
| Seeder.SeedRoles | Data/DbSeeder.cs:8-44 | the loop leaves exactly the seeded roles and keeps the store valid |
| Seeder.SeedOne | Data/DbSeeder.cs:39-42 | a seed role is created only when no role of that name exists |
| Seeder.AdminEmail | Data/DbSeeder.cs:51 | the configured e-mail, defaulting to admin@yardops.com |
| Seeder.AdminPassword | Data/DbSeeder.cs:52 | the configured password, defaulting to Admin@123 |
| Seeder.NewAdmin | Data/DbSeeder.cs:59-68 | the new administrator has the e-mail as e-mail and user name, is active and confirmed |
| Seeder.SeedAdmin | Data/DbSeeder.cs:46-83 | an existing administrator is never re-created; a refused create or an existing membership changes nothing |
| Seeder.SeedAdminCorrect | Data/DbSeeder.cs:56-82 | unless the create is refused or Admin is missing, the administrator exists and is in Admin; a missing Admin role is reported exactly when the link would be added |
| Seeder.SeedAdminIdempotent | Data/DbSeeder.cs:76-82 | an administrator already in Admin is left as is |
| Seeder.SeedDefaultAdmin | Data/DbSeeder.cs:46-83 | the method leaves the users, links and outcome the seeding function specifies |
| Seeder.StartupSeedingIdempotent | Data/DbSeeder.cs:8-83 | after the roles are seeded the Admin role is always found, and seeding roles and administrator again changes nothing |

## Left out

- The HTTP layer, Razor views, TempData messages, redirects and return
  URLs are left out. The model reports each handler's branch as an
  outcome value instead.
- The following are parameters or are not modelled:
  - ASP.NET model-state validation beyond the attributes on the input
    models (the EditRoleInput and CreateCarrierInput classes are not part
    of this model: their validity is a parameter);
  - Identity's password hashing, password policy, security stamps,
    two-factor and lockout internals, and token generation and checking;
  - Identity's internal user and role validators.
- SMTP delivery and e-mail templating are left out. A send either records
  the recipient and subject or records nothing. E-mail bodies and links
  are not modelled.
- Clocks, time zones and the culture-dependent date formatting in the
  activity and user lists are left out. Times are integers of seconds.
- `DbSeeder.SeedDefaultYard`, called at start-up, is not part of this
  model: its source is missing.
- The yards table, the Users Create page and the profile input-model
  attributes are not modelled.
- The `NoAction` foreign keys from roles and users to their creator are
  not modelled. Deleting a user who created roles or users would fail in
  the database, and the model lets it succeed.
- Concurrency, transactions and partial failure after `SaveChanges` are
  left out. Apart from the carrier saves that a column width refuses, each
  handler runs to completion on one store.
- ActivitiesPage.EveryMatchShown: proved for the model's single stable
  order. The source sorts again on every request with no tiebreak, so
  across requests completeness holds only when the matching entries have
  distinct creation times (`ActivitiesPage.EveryMatchShownAnyOrder`). With
  ties, an entry can be skipped between two pages.
- CarriersPage.EveryMatchShown: proved for the model's single stable
  order. Across requests, completeness holds only when the matching
  carriers have distinct creation times
  (`CarriersPage.EveryMatchShownAnyOrder`). With ties, a carrier can be
  skipped between two pages.
- UsersPage.EveryMatchListed: proved for the model's single stable order.
  Across requests, completeness holds only when the matching users have
  distinct creation times (`UsersPage.EveryMatchListedAnyOrder`). With
  ties, a user can be skipped between two pages.
- CarriersPage.OnPostCreate: the create form's attributes are a parameter,
  so an over-long value is modelled as a failed save. Whether SQL Server
  uses up an identity value on that failed insert is not modelled: the
  counter is kept.
- UsersPage.Rows: states only that the rows are at most the users. What
  each row contains is stated by `UsersPage.RowsFromUsers`, and that no
  passing user is missing by `UsersPage.RowsComplete`.
- CarriersPage.CreatorEmail: states only the no-creator case. The
  creator-present case is stated through `CarriersPage.CreatorDisplay`.
- AccountPages.LoginGate: its own contract states only that the index is
  in range. The login decision is stated by the lemmas next to it.
- AccountPages.LoginGate: `PasswordSignInAsync` is given the typed e-mail
  and looks the account up by user name, not by e-mail. The model hands
  the user found by e-mail to the `signIn` parameter, so it assumes that
  this user's name is their e-mail. Every handler that sets an e-mail
  also sets the user name to it, but a user whose name differs could fail
  to sign in, or the sign-in could reach another account.
- UsersPage.ApplyEdit: on the failed-update path that the logger's save
  persists, Identity's normalised user-name and e-mail columns keep their
  old values. The model derives normalised values from the stored e-mail
  on every lookup, so it does not capture the stale columns. Whether
  `UpdateAsync` passes validation is the `updateSucceeds` parameter.
- Entities.FitsColumns, Entities.MaxLength and CarriersPage.EditedFits
  count a string's length in Unicode scalar values (Dafny characters).
  .NET `[StringLength]` and SQL Server `nvarchar(n)` count UTF-16 code
  units, so a character outside the Basic Multilingual Plane counts twice
  there and once in the model. A carrier status of 11 such characters fits
  the model's 20-character column, but the source's save throws. The same
  holds for the `[StringLength]` bounds in `InputModels` (a role name of 26
  such characters passes the model's bound of 50). Likewise the
  first-character initials and the ordinal string order work on scalar
  values here and on UTF-16 code units in .NET.
- Text.IsWhiteSpace, Text.ToLower and Text.ToUpper cover ASCII only. The
  `[Required]` check, `string.IsNullOrWhiteSpace`, `ToLower` and `ToUpper`
  in .NET follow Unicode, so non-ASCII white space and letters are
  outside the model.
- The login page's two-factor and lockout redirects are outcomes of the
  sign-in parameter. Their own pages are not modelled.
- The "Login" log entry depends on the request principal that the logger
  resolves. This follows `ActivityLogger.LogAsync`, so a sign-in whose
  principal is not yet set logs nothing.
