/** The audit-trail page: the action drop-down and the filtered, ordered,
    paginated list of entries. The page-model properties the handler
    assigns (`ActionOptions`, `Activities`, `CurrentPage`, `TotalPages`,
    `TotalActivities`) are the results of the functions and the method
    below. */
module ActivitiesPage {
  import opened Wrappers
  import opened Text
  import opened Seqs
  import opened Entities
  import opened Sorting
  import opened Paging
  import opened Store
  import opened ActivityView
  import UserView

  /** `SelectListItem(text, value)`. */
  datatype SelectItem = SelectItem(text: string, value: string)

  const AllActions: SelectItem := SelectItem("All Actions", "all")

  /** The query-string filters bound to the page (the page number is
      bound beside them). */
  datatype Filters = Filters(
    searchTerm: Option<string>,
    actionFilter: Option<string>,
    dateFrom: Option<Time>,
    dateTo: Option<Time>)

  /** The `Action` column, one value per entry: a string is in it exactly
      when some entry has it as its action. */
  function Actions(logs: seq<ActivityLog>): (r: seq<string>)
    ensures |r| == |logs|
    ensures forall a :: a in r <==> exists e :: e in logs && e.action == a
  {
    var r := seq(|logs|, k requires 0 <= k < |logs| => logs[k].action);
    ActionsMembers(logs, r);
    r
  }

  lemma ActionsMembers(logs: seq<ActivityLog>, r: seq<string>)
    requires |r| == |logs| && forall k :: 0 <= k < |logs| ==> r[k] == logs[k].action
    ensures forall a :: a in r <==> exists e :: e in logs && e.action == a
  {
    forall a | a in r
      ensures exists e :: e in logs && e.action == a
    {
      var k :| 0 <= k < |r| && r[k] == a;
      assert logs[k] in logs;
    }
    forall a | exists e :: e in logs && e.action == a
      ensures a in r
    {
      var e :| e in logs && e.action == a;
      var k :| 0 <= k < |logs| && logs[k] == e;
      assert r[k] == a;
    }
  }

  /** One option per action, showing and submitting the action itself. */
  function OptionItems(actions: seq<string>): (r: seq<SelectItem>)
    ensures |r| == |actions|
    ensures forall k :: 0 <= k < |actions| ==> r[k].text == actions[k] && r[k].value == actions[k]
  {
    seq(|actions|, k requires 0 <= k < |actions| => SelectItem(actions[k], actions[k]))
  }

  /** The drop-down: ("All Actions", "all") first, then the distinct stored
      actions in ascending ordinal order, each showing and submitting the
      action itself. */
  function ActionOptions(logs: seq<ActivityLog>): (r: seq<SelectItem>)
    ensures |r| >= 1 && r[0] == AllActions
    ensures forall k :: 1 <= k < |r| ==> r[k].text == r[k].value
  {
    [AllActions] + OptionItems(DistinctSorted(Actions(logs)))
  }

  /** `LoadActionOptionsAsync`: the distinct actions come back from the
      query sorted, and the loop appends one option per action after
      "All Actions". */
  method LoadActionOptions(logs: seq<ActivityLog>) returns (options: seq<SelectItem>)
    ensures options == ActionOptions(logs)
  {
    var distinct := DistinctSorted(Actions(logs));
    options := [AllActions];
    var i := 0;
    while i < |distinct|
      invariant 0 <= i <= |distinct|
      invariant options == [AllActions] + OptionItems(distinct[..i])
    {
      assert distinct[..i + 1] == distinct[..i] + [distinct[i]];
      options := options + [SelectItem(distinct[i], distinct[i])];
      i := i + 1;
    }
    assert distinct[..i] == distinct;
  }

  /** After the first option the actions are in strictly ascending ordinal
      order, so none appears twice. */
  lemma ActionOptionsAscending(logs: seq<ActivityLog>)
    ensures forall i, j :: 1 <= i < j < |ActionOptions(logs)| ==>
      Less(ActionOptions(logs)[i].value, ActionOptions(logs)[j].value)
  {
    var distinct := DistinctSorted(Actions(logs));
    DistinctSortedCorrect(Actions(logs));
    forall i, j | 1 <= i < j < |ActionOptions(logs)|
      ensures Less(ActionOptions(logs)[i].value, ActionOptions(logs)[j].value)
    {
      assert ActionOptions(logs)[i].value == distinct[i - 1];
      assert ActionOptions(logs)[j].value == distinct[j - 1];
    }
  }

  /** The actions after the first option are exactly the stored ones. */
  lemma ActionOptionsExactlyStored(logs: seq<ActivityLog>, a: string)
    ensures (exists k :: 1 <= k < |ActionOptions(logs)| && ActionOptions(logs)[k].value == a)
      <==> (exists m :: 0 <= m < |logs| && logs[m].action == a)
  {
    var options := ActionOptions(logs);
    var distinct := DistinctSorted(Actions(logs));
    DistinctSortedCorrect(Actions(logs));
    if k :| 1 <= k < |options| && options[k].value == a {
      assert options[k].value == distinct[k - 1];
      assert a in Actions(logs);
      var e :| e in logs && e.action == a;
      var m :| 0 <= m < |logs| && logs[m] == e;
    }
    if m :| 0 <= m < |logs| && logs[m].action == a {
      assert logs[m] in logs;
      assert a in Actions(logs);
      assert a in distinct;
      var k :| 0 <= k < |distinct| && distinct[k] == a;
      assert options[k + 1].value == a;
    }
  }

  /** The user an entry's `CreatedBy` refers to, if still stored. */
  function Author(l: ActivityLog, users: seq<User>): (r: Option<User>)
    ensures r.Some? ==> r.value in users && r.value.id == l.createdBy
    ensures r.None? ==> l.createdBy !in UserIds(users)
  {
    match FindUserById(users, l.createdBy)
    case Some(i) => Some(users[i])
    case None => None
  }

  /** The search clause: inactive for a null or blank term; otherwise the
      lower-cased term must occur in the lower-cased first name, last name
      or e-mail of the author (when there is one), in the action, or in a
      present description. */
  predicate MatchesSearch(l: ActivityLog, users: seq<User>, searchTerm: Option<string>) {
    IsNullOrWhiteSpace(searchTerm) ||
    var needle := ToLower(searchTerm.value);
    var author := Author(l, users);
    || (author.Some? && (
         || Contains(ToLower(author.value.firstName), needle)
         || Contains(ToLower(author.value.lastName), needle)
         || (author.value.email.Some? && Contains(ToLower(author.value.email.value), needle))))
    || Contains(ToLower(l.action), needle)
    || (l.description.Some? && Contains(ToLower(l.description.value), needle))
  }

  /** The action clause: inactive when blank or "all", otherwise an exact
      ordinal match. */
  predicate MatchesAction(l: ActivityLog, actionFilter: Option<string>) {
    IsNullOrWhiteSpace(actionFilter) || actionFilter.value == "all" || l.action == actionFilter.value
  }

  /** `DateTime.Date`: the start of the day holding t. */
  function DayStart(t: Time): (d: Time)
    ensures d <= t < d + SecondsPerDay
    ensures d % SecondsPerDay == 0
  {
    t - t % SecondsPerDay
  }

  /** The date window: from the start of `dateFrom`'s day, up to (not
      including) the start of the day after `dateTo`. */
  predicate InDateWindow(t: Time, dateFrom: Option<Time>, dateTo: Option<Time>) {
    && (dateFrom.None? || t >= DayStart(dateFrom.value))
    && (dateTo.None? || t < DayStart(dateTo.value) + SecondsPerDay)
  }

  predicate Keep(l: ActivityLog, users: seq<User>, f: Filters) {
    && MatchesSearch(l, users, f.searchTerm)
    && MatchesAction(l, f.actionFilter)
    && InDateWindow(l.createdOn, f.dateFrom, f.dateTo)
  }

  /** The entries that pass every active filter, in storage order. */
  function Matching(logs: seq<ActivityLog>, users: seq<User>, f: Filters): (r: seq<ActivityLog>)
    ensures |r| <= |logs|
    ensures forall l :: l in r <==> l in logs && Keep(l, users, f)
  {
    Filter(logs, l => Keep(l, users, f))
  }

  /** The matching entries, newest first. */
  function Ordered(logs: seq<ActivityLog>, users: seq<User>, f: Filters): (r: seq<ActivityLog>)
    ensures forall i, j :: 0 <= i < j < |r| ==> r[i].createdOn >= r[j].createdOn
    ensures multiset(r) == multiset(Matching(logs, users, f))
    ensures |r| == |Matching(logs, users, f)|
  {
    var r := SortDesc(Matching(logs, users, f), (l: ActivityLog) => l.createdOn);
    assert |r| == |multiset(r)|;
    r
  }

  /** The projection to the view model: an author that no longer resolves
      shows as "Unknown User" with e-mail "N/A". */
  function Project(l: ActivityLog, users: seq<User>): (v: ActivityLogView)
    ensures v.id == l.id && v.rawCreatedOn == l.createdOn && v.action == l.action
    ensures v.description == l.description && v.jsonData == l.jsonData
  {
    var author := Author(l, users);
    ActivityLogView(
      l.id,
      if author.Some? then UserView.FullName(author.value.firstName, author.value.lastName) else "Unknown User",
      if author.Some? then author.value.email.GetOr("N/A") else "N/A",
      l.createdOn, l.action, l.description, l.jsonData)
  }

  datatype ActivitiesView = ActivitiesView(
    activities: seq<ActivityLogView>,
    currentPage: nat,
    totalPages: nat,
    totalActivities: nat)

  /** Count, clamp, slice and project an ordered list of entries. */
  function ShowPage(ordered: seq<ActivityLog>, users: seq<User>, pageNumber: int): (v: ActivitiesView)
    ensures v.totalActivities == |ordered|
    ensures v.totalPages == TotalPages(v.totalActivities)
    ensures 1 <= v.currentPage <= v.totalPages && v.currentPage == ClampPage(pageNumber, v.totalPages)
    ensures |v.activities| <= PageSize
    ensures (v.currentPage - 1) * PageSize + |v.activities| <= |ordered|
    ensures |v.activities| == Min(PageSize, |ordered| - (v.currentPage - 1) * PageSize)
    ensures forall k :: 0 <= k < |v.activities| ==>
      v.activities[k] == Project(ordered[(v.currentPage - 1) * PageSize + k], users)
  {
    var p := Paginate(ordered, pageNumber);
    ActivitiesView(seq(|p.items|, k requires 0 <= k < |p.items| => Project(p.items[k], users)),
      p.currentPage, p.totalPages, p.total)
  }

  /** `LoadActivitiesAsync`: filter, order, then count, clamp, slice and
      project. */
  function LoadActivities(logs: seq<ActivityLog>, users: seq<User>, f: Filters, pageNumber: int): (v: ActivitiesView)
    ensures v == ShowPage(Ordered(logs, users, f), users, pageNumber)
    ensures v.totalActivities == |Matching(logs, users, f)|
  {
    ShowPage(Ordered(logs, users, f), users, pageNumber)
  }

  /** The ordered list holds exactly the stored entries that pass every
      active filter. */
  lemma OrderedMembers(logs: seq<ActivityLog>, users: seq<User>, f: Filters, l: ActivityLog)
    ensures l in Ordered(logs, users, f) <==> l in logs && Keep(l, users, f)
  {
    assert l in Ordered(logs, users, f) <==> l in multiset(Ordered(logs, users, f));
    assert l in Matching(logs, users, f) <==> l in multiset(Matching(logs, users, f));
  }

  /** Every shown entry is a stored entry that passes every active
      filter. */
  lemma ShownEntriesMatch(logs: seq<ActivityLog>, users: seq<User>, f: Filters, pageNumber: int, k: nat)
    requires k < |LoadActivities(logs, users, f, pageNumber).activities|
    ensures exists l :: l in logs && Keep(l, users, f) && LoadActivities(logs, users, f, pageNumber).activities[k] == Project(l, users)
  {
    var ordered := Ordered(logs, users, f);
    var a := ShowPage(ordered, users, pageNumber).activities;
    var l := ShownFrom(ordered, users, pageNumber, k);
    OrderedMembers(logs, users, f, l);
    assert l in logs && Keep(l, users, f) && a[k] == Project(l, users);
  }

  /** The k-th shown entry is the projection of an entry of the list the
      page was cut from. */
  lemma ShownFrom(ordered: seq<ActivityLog>, users: seq<User>, pageNumber: int, k: nat) returns (l: ActivityLog)
    requires k < |ShowPage(ordered, users, pageNumber).activities|
    ensures l in ordered && ShowPage(ordered, users, pageNumber).activities[k] == Project(l, users)
  {
    var v := ShowPage(ordered, users, pageNumber);
    var s := (v.currentPage - 1) * PageSize;
    assert s + k < |ordered|;
    l := ordered[s + k];
  }

  /** A page cut from a newest-first list is newest first. */
  lemma PageKeepsOrder(ordered: seq<ActivityLog>, users: seq<User>, pageNumber: int)
    requires forall i, j :: 0 <= i < j < |ordered| ==> ordered[i].createdOn >= ordered[j].createdOn
    ensures var a := ShowPage(ordered, users, pageNumber).activities;
      forall i, j :: 0 <= i < j < |a| ==> a[i].rawCreatedOn >= a[j].rawCreatedOn
  {
    var v := ShowPage(ordered, users, pageNumber);
    var a := v.activities;
    assert forall k :: 0 <= k < |a| ==> a[k].rawCreatedOn == ordered[(v.currentPage - 1) * PageSize + k].createdOn;
    SliceKeepsOrder(ordered, a, (v.currentPage - 1) * PageSize);
  }

  lemma SliceKeepsOrder(ordered: seq<ActivityLog>, rows: seq<ActivityLogView>, start: nat)
    requires forall i, j :: 0 <= i < j < |ordered| ==> ordered[i].createdOn >= ordered[j].createdOn
    requires start + |rows| <= |ordered|
    requires forall k :: 0 <= k < |rows| ==> rows[k].rawCreatedOn == ordered[start + k].createdOn
    ensures forall i, j :: 0 <= i < j < |rows| ==> rows[i].rawCreatedOn >= rows[j].rawCreatedOn
  {
    forall i, j | 0 <= i < j < |rows| ensures rows[i].rawCreatedOn >= rows[j].rawCreatedOn {
      assert ordered[start + i].createdOn >= ordered[start + j].createdOn;
    }
  }

  /** The page is newest first. */
  lemma ShownNewestFirst(logs: seq<ActivityLog>, users: seq<User>, f: Filters, pageNumber: int)
    ensures var a := LoadActivities(logs, users, f, pageNumber).activities;
      forall i, j :: 0 <= i < j < |a| ==> a[i].rawCreatedOn >= a[j].rawCreatedOn
  {
    PageKeepsOrder(Ordered(logs, users, f), users, pageNumber);
  }

  /** Nothing that matches is lost: every matching entry is shown on some
      page, as long as every request pages the model's one stable order
      (see `EveryMatchShownAnyOrder` for per-request orders). */
  lemma EveryMatchShown(logs: seq<ActivityLog>, users: seq<User>, f: Filters, l: ActivityLog)
    requires l in logs && Keep(l, users, f)
    ensures exists n: int :: Project(l, users) in LoadActivities(logs, users, f, n).activities
  {
    var ordered := Ordered(logs, users, f);
    OrderedMembers(logs, users, f, l);
    var i :| 0 <= i < |ordered| && ordered[i] == l;
    var n := i / PageSize + 1;
    ItemOnItsPage(ordered, i);
    var v := ShowPage(ordered, users, n);
    assert v.currentPage == n;
    assert v.activities[i % PageSize] == Project(l, users);
    assert Project(l, users) in LoadActivities(logs, users, f, n).activities;
  }

  /** An order the database may return for one request: newest first,
      holding exactly the matching entries, with ties in any order. */
  ghost predicate AdmissibleOrder(r: seq<ActivityLog>, logs: seq<ActivityLog>, users: seq<User>, f: Filters) {
    && (forall i, j :: 0 <= i < j < |r| ==> r[i].createdOn >= r[j].createdOn)
    && multiset(r) == multiset(Matching(logs, users, f))
  }

  /** No two different entries share a creation time. */
  ghost predicate DistinctTimes(s: seq<ActivityLog>) {
    forall x, y :: x in s && y in s && x.createdOn == y.createdOn ==> x == y
  }

  /** When no two matching entries share a creation time, every order the
      database may return is the model's. */
  lemma AdmissibleOrderUnique(logs: seq<ActivityLog>, users: seq<User>, f: Filters, r: seq<ActivityLog>)
    requires AdmissibleOrder(r, logs, users, f)
    requires DistinctTimes(Matching(logs, users, f))
    ensures r == Ordered(logs, users, f)
  {
    var key := (l: ActivityLog) => l.createdOn;
    var o := Ordered(logs, users, f);
    assert NonIncreasing(r, key) && NonIncreasing(o, key);
    forall x, y | x in r && y in r && key(x) == key(y) ensures x == y {
      assert x in multiset(r) && y in multiset(r);
      assert x in Matching(logs, users, f) && y in Matching(logs, users, f);
    }
    SortedDescUnique(r, o, key);
  }

  /** Each page request sorts afresh, so two requests may order tied
      entries differently. When no two matching entries share a creation
      time, every matching entry is still shown on some page, whatever
      admissible order each request gets. */
  lemma EveryMatchShownAnyOrder(logs: seq<ActivityLog>, users: seq<User>, f: Filters, l: ActivityLog,
                                order: int -> seq<ActivityLog>)
    requires l in logs && Keep(l, users, f)
    requires DistinctTimes(Matching(logs, users, f))
    requires forall n :: AdmissibleOrder(order(n), logs, users, f)
    ensures exists n: int :: Project(l, users) in ShowPage(order(n), users, n).activities
  {
    EveryMatchShown(logs, users, f, l);
    var n: int :| Project(l, users) in LoadActivities(logs, users, f, n).activities;
    AdmissibleOrderUnique(logs, users, f, order(n));
  }

  /** An entry whose author no longer resolves is attributed to
      "Unknown User", "N/A". */
  lemma UnknownAuthorShown(l: ActivityLog, users: seq<User>)
    requires l.createdBy !in UserIds(users)
    ensures Project(l, users).userFullName == "Unknown User" && Project(l, users).userEmail == "N/A"
  {
  }

  /** A blank or missing search term keeps every entry; so does an action
      filter that is blank or "all". */
  lemma InactiveFiltersKeepAll(l: ActivityLog, users: seq<User>, f: Filters)
    requires IsNullOrWhiteSpace(f.searchTerm)
    requires IsNullOrWhiteSpace(f.actionFilter) || f.actionFilter == Some("all")
    requires f.dateFrom.None? && f.dateTo.None?
    ensures Keep(l, users, f)
  {
  }

  lemma WhiteSpaceUnderLowering(c: char)
    ensures IsWhiteSpace(LowerChar(c)) <==> IsWhiteSpace(c)
  {
  }

  /** The search is case-insensitive: two terms that lower-case to the
      same text keep the same entries. */
  lemma {:induction false} SearchIgnoresCase(l: ActivityLog, users: seq<User>, t1: string, t2: string)
    requires ToLower(t1) == ToLower(t2)
    ensures MatchesSearch(l, users, Some(t1)) == MatchesSearch(l, users, Some(t2))
  {
    assert |t1| == |t2|;
    forall i | 0 <= i < |t1| ensures IsWhiteSpace(t1[i]) <==> IsWhiteSpace(t2[i]) {
      WhiteSpaceUnderLowering(t1[i]);
      WhiteSpaceUnderLowering(t2[i]);
      assert ToLower(t1)[i] == ToLower(t2)[i];
    }
    assert IsBlank(t1) <==> IsBlank(t2);
  }

  /** The whole `dateTo` day is included and the next day is not; the
      whole `dateFrom` day is included and the day before it is not. */
  lemma WholeDays(t: Time, day: Time)
    ensures DayStart(t) == DayStart(day) ==> InDateWindow(t, Some(day), Some(day))
    ensures t >= DayStart(day) + SecondsPerDay ==> !InDateWindow(t, None, Some(day))
    ensures t < DayStart(day) ==> !InDateWindow(t, Some(day), None)
  {
  }
}
