/** The carrier administration page: create (with the derived code), edit,
    delete and the searchable list. The create form's input model is not
    part of this model, so its validation is a parameter. */
module CarriersPage {
  import opened Wrappers
  import opened Text
  import opened Seqs
  import opened Entities
  import opened Sorting
  import opened Paging
  import opened Store
  import opened Logging
  import opened ChangeSet
  import opened InputModels
  import CarrierCodeGenerator

  // ---- create ----

  /** The create form (`CreateCarrierInput`). */
  datatype CreateCarrierInput = CreateCarrierInput(
    companyName: string,
    contactPerson: Option<string>,
    phone: Option<string>,
    email: Option<string>,
    address: Option<string>,
    status: string)

  /** `MaxAsync(c => (int?)c.CarrierId) ?? 0`. */
  function MaxCarrierId(carriers: seq<Carrier>): (m: int)
    ensures carriers == [] ==> m == 0
    ensures forall k :: 0 <= k < |carriers| ==> carriers[k].carrierId <= m
    ensures carriers != [] ==> exists k :: 0 <= k < |carriers| && carriers[k].carrierId == m
  {
    if carriers == [] then 0
    else if |carriers| == 1 then carriers[0].carrierId
    else
      var m := MaxCarrierId(carriers[..|carriers| - 1]);
      var last := carriers[|carriers| - 1].carrierId;
      if last > m then last else m
  }

  /** Under the store's constraints the maximum id is a non-negative `int`
      below `int.MaxValue` whenever another id can still be assigned. */
  lemma MaxIdInRange(carriers: seq<Carrier>, nextCarrierId: int)
    requires CarriersValid(carriers, nextCarrierId) && nextCarrierId <= CarrierCodeGenerator.Int32Max
    ensures 0 <= MaxCarrierId(carriers) < nextCarrierId
  {
    if carriers != [] {
      var k :| 0 <= k < |carriers| && carriers[k].carrierId == MaxCarrierId(carriers);
    }
  }

  /** The code a new carrier receives. */
  function NextCode(carriers: seq<Carrier>): string
    requires CarrierCodeGenerator.Int32Min <= MaxCarrierId(carriers) <= CarrierCodeGenerator.Int32Max
  {
    CarrierCodeGenerator.GenerateNextCode(MaxCarrierId(carriers))
  }

  /** The new code's number is one past every stored id, so no stored
      carrier holds it and it does not exceed the id the new row gets. */
  lemma NextCodeFresh(carriers: seq<Carrier>, nextCarrierId: int)
    requires CarriersValid(carriers, nextCarrierId) && nextCarrierId <= CarrierCodeGenerator.Int32Max
    ensures 0 <= MaxCarrierId(carriers) < CarrierCodeGenerator.Int32Max
    ensures CarrierCodeGenerator.IsDigits(NextCode(carriers)[4..])
    ensures CarrierCodeGenerator.DecodeSuffix(NextCode(carriers)) == MaxCarrierId(carriers) + 1 <= nextCarrierId
    ensures forall j :: 0 <= j < |carriers| ==> carriers[j].carrierCode != NextCode(carriers)
  {
    MaxIdInRange(carriers, nextCarrierId);
    var m := MaxCarrierId(carriers);
    CarrierCodeGenerator.CodeRoundTrip(m);
    var code := NextCode(carriers);
    forall j | 0 <= j < |carriers| ensures carriers[j].carrierCode != code {
      assert CodeFitsId(carriers[j]);
    }
  }

  /** The new row before the identity column assigns its id. */
  function NewCarrier(input: CreateCarrierInput, code: string, createdBy: Option<string>, now: Time): Carrier {
    Carrier(0, code, input.companyName, input.contactPerson, input.phone, input.email, input.address,
      input.status, createdBy, now)
  }

  function CreatorId(actor: Option<User>): (r: Option<string>)
    ensures r.Some? <==> actor.Some?
    ensures r.Some? ==> r.value == actor.value.id
  {
    if actor.Some? then Some(actor.value.id) else None
  }

  /** `CreateSaveFailed`: `SaveChangesAsync` throws because a value is
      longer than its column; the request ends in an error. */
  datatype CreateOutcome = CreateInvalid | IdentityExhausted | CreateSaveFailed | CarrierCreated(id: int, code: string)

  function CreateDescription(name: string, code: string): string {
    "Created carrier " + name + " (" + code + ")"
  }

  /** `OnPostCreateAsync`. An invalid form changes nothing. Otherwise the
      carrier gets the code derived from the largest stored id, the
      signed-in admin as creator and the clock's time; the identity column
      assigns its id, and one CreateCarrier entry follows. Once the identity
      column is exhausted, or when a value is longer than its column, the
      save fails and nothing changes. */
  method OnPostCreate(db: Db, logger: ActivityLogger, input: CreateCarrierInput,
                      inputValid: CreateCarrierInput -> bool)
    returns (outcome: CreateOutcome)
    requires logger.db == db && db.Valid()
    modifies db`carriers, db`nextCarrierId, db`activityLogs, db`nextLogId
    ensures db.Valid()
    ensures outcome == CreateInvalid <==> !inputValid(input)
    ensures outcome == IdentityExhausted <==> inputValid(input) && old(db.nextCarrierId) > CarrierCodeGenerator.Int32Max
    ensures outcome == CreateSaveFailed <==>
      && inputValid(input) && old(db.nextCarrierId) <= CarrierCodeGenerator.Int32Max
      && !InputFitsColumns(input)
    ensures !outcome.CarrierCreated? ==>
      db.carriers == old(db.carriers) && db.activityLogs == old(db.activityLogs)
    ensures outcome.CarrierCreated? ==>
      && 0 <= MaxCarrierId(old(db.carriers)) < CarrierCodeGenerator.Int32Max
      && outcome.code == NextCode(old(db.carriers))
      && outcome.id == old(db.nextCarrierId)
      && db.carriers == old(db.carriers) +
           [NewCarrier(input, outcome.code, CreatorId(old(logger.Actor())), logger.utcNow).(carrierId := outcome.id)]
      && db.activityLogs == old(db.activityLogs) + LogEntries(old(logger.Actor()), old(db.nextLogId), logger.utcNow,
           "CreateCarrier", Some(CreateDescription(input.companyName, outcome.code)),
           Some([Member("CarrierCode", VText(Some(outcome.code))), Member("CompanyName", VText(Some(input.companyName)))]),
           logger.serialize)
  {
    if !inputValid(input) {
      return CreateInvalid;
    }
    if db.nextCarrierId > CarrierCodeGenerator.Int32Max {
      return IdentityExhausted;
    }
    if !InputFitsColumns(input) {
      return CreateSaveFailed;
    }
    outcome := StoreNewCarrier(db, logger, input);
  }

  /** The submitted values fit the columns they are saved to. */
  predicate InputFitsColumns(input: CreateCarrierInput) {
    && |input.companyName| <= 100
    && MaxLength(input.contactPerson, 100)
    && MaxLength(input.phone, 20)
    && MaxLength(input.email, 255)
    && MaxLength(input.address, 200)
    && |input.status| <= 20
  }

  /** The generated code always fits its column, so the new row fits the
      columns exactly when the submitted values do. */
  lemma NewCarrierFits(carriers: seq<Carrier>, nextCarrierId: int, input: CreateCarrierInput,
                       createdBy: Option<string>, now: Time)
    requires CarriersValid(carriers, nextCarrierId) && nextCarrierId <= CarrierCodeGenerator.Int32Max
    ensures FitsColumns(NewCarrier(input, NextCode(carriers), createdBy, now)) <==> InputFitsColumns(input)
  {
    NextCodeFresh(carriers, nextCarrierId);
    CarrierCodeGenerator.CodeFitsColumn(MaxCarrierId(carriers));
  }

  /** The create handler past its guards: code, insert, audit. */
  method StoreNewCarrier(db: Db, logger: ActivityLogger, input: CreateCarrierInput) returns (outcome: CreateOutcome)
    requires logger.db == db && db.Valid() && db.nextCarrierId <= CarrierCodeGenerator.Int32Max
    requires InputFitsColumns(input)
    modifies db`carriers, db`nextCarrierId, db`activityLogs, db`nextLogId
    ensures db.Valid()
    ensures outcome.CarrierCreated?
    ensures 0 <= MaxCarrierId(old(db.carriers)) < CarrierCodeGenerator.Int32Max
    ensures outcome.code == NextCode(old(db.carriers))
    ensures outcome.id == old(db.nextCarrierId)
    ensures db.carriers == old(db.carriers) +
      [NewCarrier(input, outcome.code, CreatorId(old(logger.Actor())), logger.utcNow).(carrierId := outcome.id)]
    ensures db.activityLogs == old(db.activityLogs) + LogEntries(old(logger.Actor()), old(db.nextLogId), logger.utcNow,
      "CreateCarrier", Some(CreateDescription(input.companyName, outcome.code)),
      Some([Member("CarrierCode", VText(Some(outcome.code))), Member("CompanyName", VText(Some(input.companyName)))]),
      logger.serialize)
  {
    var currentUser := logger.Actor();
    NextCodeFresh(db.carriers, db.nextCarrierId);
    var maxId := MaxCarrierId(db.carriers);
    var code := CarrierCodeGenerator.GenerateNextCode(maxId);
    var carrier := NewCarrier(input, code, CreatorId(currentUser), logger.utcNow);
    NewCarrierFits(db.carriers, db.nextCarrierId, input, CreatorId(currentUser), logger.utcNow);
    var id := db.InsertCarrier(carrier);
    logger.LogAsync("CreateCarrier", Some(CreateDescription(carrier.companyName, code)),
      Some([Member("CarrierCode", VText(Some(code))), Member("CompanyName", VText(Some(carrier.companyName)))]));
    return CarrierCreated(id, code);
  }

  /** Codes follow the largest surviving id, not the identity counter: once
      the carrier with the largest id is deleted, the next carrier gets the
      code that carrier had. */
  lemma CodeFollowsSurvivors(c: Carrier)
    requires c.carrierId == 1
    ensures NextCode([c]) == "CAR-002"
    ensures NextCode(RemoveAt([c], 0)) == "CAR-001"
  {
    assert RemoveAt([c], 0) == [];
    assert CarrierCodeGenerator.Digits(2) == "2";
    assert CarrierCodeGenerator.Digits(1) == "1";
  }

  /** For any store: a carrier that got the next code and is deleted before
      the next create leaves that code to be handed out again, since the
      code follows the largest surviving id. */
  lemma CodeReusedAfterDelete(carriers: seq<Carrier>, c: Carrier)
    requires CarrierCodeGenerator.Int32Min <= MaxCarrierId(carriers) <= CarrierCodeGenerator.Int32Max
    ensures var created := c.(carrierCode := NextCode(carriers));
      && RemoveAt(carriers + [created], |carriers|) == carriers
      && NextCode(RemoveAt(carriers + [created], |carriers|)) == created.carrierCode
  {
    var created := c.(carrierCode := NextCode(carriers));
    assert (carriers + [created])[..|carriers|] == carriers;
  }

  // ---- edit ----

  /** `EditSaveFailed`: `SaveChangesAsync` throws because a value is longer
      than its column; the request ends in an error. */
  datatype EditOutcome = EditInvalid | EditNotFound | EditSaveFailed | CarrierEdited

  const CarrierFields: seq<Field> := [Field("CompanyName", ""), Field("ContactPerson", ""), Field("Phone", ""),
    Field("Email", ""), Field("Address", ""), Field("Status", "")]

  /** `Carriers.FindAsync(id)`. */
  function FindCarrierById(carriers: seq<Carrier>, id: int): (r: Option<nat>)
    ensures r.Some? ==> r.value < |carriers| && carriers[r.value].carrierId == id
    ensures r.None? ==> forall k :: 0 <= k < |carriers| ==> carriers[k].carrierId != id
  {
    IndexWhere(carriers, (c: Carrier) => c.carrierId == id)
  }

  function CarrierValues(c: Carrier): seq<Option<string>> {
    [Some(c.companyName), c.contactPerson, c.phone, c.email, c.address, Some(c.status)]
  }

  function InputValues(e: EditCarrierInput): seq<Option<string>> {
    [Some(e.companyName), Some(e.contactPerson), e.phone, e.email, e.address, Some(e.status)]
  }

  /** The carrier after the six assignments. */
  function EditedCarrier(c: Carrier, e: EditCarrierInput): (r: Carrier)
    ensures CarrierValues(r) == InputValues(e)
    ensures r.carrierId == c.carrierId && r.carrierCode == c.carrierCode
    ensures r.createdBy == c.createdBy && r.createdOn == c.createdOn
  {
    c.(companyName := e.companyName, contactPerson := Some(e.contactPerson), phone := e.phone, email := e.email,
       address := e.address, status := e.status)
  }

  function EditDescription(name: string, code: string): string {
    "Edited carrier " + name + " (" + code + ")"
  }

  /** `OnPostEditAsync`. An invalid form or an unknown id changes nothing and
      writes no entry. Otherwise the lines for the differing fields are
      produced in the order CompanyName, ContactPerson, Phone, Email,
      Address, Status, the carrier takes the submitted values while its id,
      code, creator and creation time stay, and one EditCarrier entry is
      written even when nothing differed. The submitted code is ignored.
      When the edited row does not fit the columns (the form leaves the
      status unbounded) the save throws: nothing is stored and no entry is
      written. */
  method OnPostEdit(db: Db, logger: ActivityLogger, input: EditCarrierInput, isEmail: string -> bool)
    returns (outcome: EditOutcome, lines: seq<string>)
    requires logger.db == db && db.Valid()
    modifies db`carriers, db`activityLogs, db`nextLogId
    ensures db.Valid()
    ensures outcome == EditInvalid <==> !EditCarrierInputValid(input, isEmail)
    ensures outcome == EditNotFound <==>
      EditCarrierInputValid(input, isEmail) && FindCarrierById(old(db.carriers), input.carrierId).None?
    ensures outcome == EditSaveFailed <==>
      && EditCarrierInputValid(input, isEmail) && FindCarrierById(old(db.carriers), input.carrierId).Some?
      && |input.status| > 20
    ensures outcome != CarrierEdited ==> db.carriers == old(db.carriers) && db.activityLogs == old(db.activityLogs)
    ensures outcome == CarrierEdited ==>
      var i := FindCarrierById(old(db.carriers), input.carrierId).value;
      var c := old(db.carriers)[i];
      && lines == ChangedLines(CarrierFields, CarrierValues(c), InputValues(input))
      && db.carriers == old(db.carriers)[i := EditedCarrier(c, input)]
      && db.activityLogs == old(db.activityLogs) + LogEntries(logger.Actor(), old(db.nextLogId), logger.utcNow,
           "EditCarrier", Some(EditDescription(input.companyName, c.carrierCode)),
           Some([Member("CarrierCode", VText(Some(c.carrierCode))), Member("ChangedFields", VTexts(lines))]),
           logger.serialize)
  {
    lines := [];
    if !EditCarrierInputValid(input, isEmail) {
      return EditInvalid, lines;
    }
    var found := FindCarrierById(db.carriers, input.carrierId);
    if found.None? {
      return EditNotFound, lines;
    }
    var i := found.value;
    var c := db.carriers[i];
    var now;
    now, lines := TrackChanges(CarrierFields, CarrierValues(c), InputValues(input));
    EditedFits(c, input, isEmail);
    if !FitsColumns(EditedCarrier(c, input)) {
      return EditSaveFailed, lines;
    }
    UpdateAndLog(db, logger, i, input, lines);
    return CarrierEdited, lines;
  }

  /** The edit handler past its guards: the carrier is updated, then the
      entry listing the changed fields is written. */
  method UpdateAndLog(db: Db, logger: ActivityLogger, i: nat, input: EditCarrierInput, lines: seq<string>)
    requires logger.db == db && db.Valid() && i < |db.carriers|
    requires FitsColumns(EditedCarrier(db.carriers[i], input))
    modifies db`carriers, db`activityLogs, db`nextLogId
    ensures db.Valid()
    ensures var c := old(db.carriers)[i];
      && db.carriers == old(db.carriers)[i := EditedCarrier(c, input)]
      && db.activityLogs == old(db.activityLogs) + LogEntries(logger.Actor(), old(db.nextLogId), logger.utcNow,
           "EditCarrier", Some(EditDescription(input.companyName, c.carrierCode)),
           Some([Member("CarrierCode", VText(Some(c.carrierCode))), Member("ChangedFields", VTexts(lines))]),
           logger.serialize)
  {
    var edited := EditedCarrier(db.carriers[i], input);
    db.UpdateCarrier(i, edited);
    logger.LogAsync("EditCarrier", Some(EditDescription(edited.companyName, edited.carrierCode)),
      Some([Member("CarrierCode", VText(Some(edited.carrierCode))), Member("ChangedFields", VTexts(lines))]));
  }

  /** The form bounds every edited column but the status: a valid form
      makes a stored carrier's edited row fit the columns exactly when the
      status has at most 20 characters. */
  lemma EditedFits(c: Carrier, input: EditCarrierInput, isEmail: string -> bool)
    requires FitsColumns(c) && EditCarrierInputValid(input, isEmail)
    ensures FitsColumns(EditedCarrier(c, input)) <==> |input.status| <= 20
  {
  }

  /** The edit's lines: one per differing field, none exactly when the
      carrier already held the submitted values, and a missing value shows
      as empty text between the quotes. */
  lemma EditLines(c: Carrier, e: EditCarrierInput)
    ensures |ChangedLines(CarrierFields, CarrierValues(c), InputValues(e))| == DiffCount(CarrierValues(c), InputValues(e))
    ensures ChangedLines(CarrierFields, CarrierValues(c), InputValues(e)) == [] <==> EditedCarrier(c, e) == c
  {
    LineCount(CarrierFields, CarrierValues(c), InputValues(e));
    NoLinesIffUnchanged(CarrierFields, CarrierValues(c), InputValues(e));
    if CarrierValues(c) == InputValues(e) {
      assert CarrierValues(EditedCarrier(c, e)) == CarrierValues(c);
    }
  }

  /** Clearing only the phone gives the single line with empty text for
      the new value. */
  lemma ClearedPhoneLine(c: Carrier, e: EditCarrierInput)
    requires c.phone.Some? && e.phone.None?
    requires CarrierValues(c)[..2] == InputValues(e)[..2] && CarrierValues(c)[3..] == InputValues(e)[3..]
    ensures ChangedLines(CarrierFields, CarrierValues(c), InputValues(e)) == ["Phone: '" + c.phone.value + "' → ''"]
  {
    var cur, inp := CarrierValues(c), InputValues(e);
    forall j | 0 <= j < 6 && j != 2 ensures cur[j] == inp[j] {
      if j < 2 {
        assert cur[j] == cur[..2][j] && inp[j] == inp[..2][j];
      } else {
        assert cur[j] == cur[3..][j - 3] && inp[j] == inp[3..][j - 3];
      }
    }
    OneChange(CarrierFields, cur, inp, 2);
    assert Line(CarrierFields[2], cur[2], inp[2]) == "Phone" + ": '" + c.phone.value + "' → '" + "" + "'";
    assert "Phone" + ": '" + c.phone.value + "' → '" + "" + "'" == "Phone: '" + c.phone.value + "' → ''";
  }

  // ---- delete ----

  datatype DeleteOutcome = DeleteNotFound | CarrierDeleted

  function DeleteDescription(name: string, code: string): string {
    "Deleted carrier " + name + " (" + code + ")"
  }

  /** `OnPostDeleteAsync`. An unknown id changes nothing and writes no
      entry; otherwise the carrier is removed and then one DeleteCarrier
      entry is written. */
  method OnPostDelete(db: Db, logger: ActivityLogger, carrierId: int) returns (outcome: DeleteOutcome)
    requires logger.db == db && db.Valid()
    modifies db`carriers, db`activityLogs, db`nextLogId
    ensures db.Valid()
    ensures outcome == DeleteNotFound <==> FindCarrierById(old(db.carriers), carrierId).None?
    ensures outcome == DeleteNotFound ==> db.carriers == old(db.carriers) && db.activityLogs == old(db.activityLogs)
    ensures outcome == CarrierDeleted ==>
      var i := FindCarrierById(old(db.carriers), carrierId).value;
      var c := old(db.carriers)[i];
      && db.carriers == RemoveAt(old(db.carriers), i)
      && db.activityLogs == old(db.activityLogs) + LogEntries(logger.Actor(), old(db.nextLogId), logger.utcNow,
           "DeleteCarrier", Some(DeleteDescription(c.companyName, c.carrierCode)),
           Some([Member("DeletedCarrierCode", VText(Some(c.carrierCode))),
                 Member("DeletedCompanyName", VText(Some(c.companyName)))]),
           logger.serialize)
  {
    var found := FindCarrierById(db.carriers, carrierId);
    if found.None? {
      return DeleteNotFound;
    }
    var i := found.value;
    var carrierName, carrierCode := db.carriers[i].companyName, db.carriers[i].carrierCode;
    db.DeleteCarrier(i);
    logger.LogAsync("DeleteCarrier", Some(DeleteDescription(carrierName, carrierCode)),
      Some([Member("DeletedCarrierCode", VText(Some(carrierCode))), Member("DeletedCompanyName", VText(Some(carrierName)))]));
    return CarrierDeleted;
  }

  /** After a delete no carrier has the removed id. */
  lemma DeletedCarrierGone(carriers: seq<Carrier>, nextCarrierId: int, i: nat)
    requires CarriersValid(carriers, nextCarrierId) && i < |carriers|
    ensures FindCarrierById(RemoveAt(carriers, i), carriers[i].carrierId).None?
  {
    var r := RemoveAt(carriers, i);
    forall k | 0 <= k < |r| ensures r[k].carrierId != carriers[i].carrierId {
      if k < i {
        assert r[k] == carriers[k];
      } else {
        assert r[k] == carriers[k + 1];
      }
    }
  }

  // ---- list ----

  datatype CarrierFilters = CarrierFilters(searchTerm: Option<string>, statusFilter: Option<string>)

  /** A row of the carrier table (`CarrierViewModel`). */
  datatype CarrierRow = CarrierRow(
    carrierId: int,
    carrierCode: string,
    companyName: string,
    contactPerson: Option<string>,
    phone: Option<string>,
    email: Option<string>,
    address: Option<string>,
    status: string,
    trailerCount: nat,
    createdOn: Time,
    createdByEmail: Option<string>)

  /** The search: inactive for a blank term, else an ordinal substring
      match on the company name, the code or a present contact person. */
  predicate SearchMatches(c: Carrier, term: Option<string>) {
    IsNullOrWhiteSpace(term)
    || Contains(c.companyName, term.value)
    || Contains(c.carrierCode, term.value)
    || (c.contactPerson.Some? && Contains(c.contactPerson.value, term.value))
  }

  /** The status filter: inactive when blank or "all". */
  predicate StatusMatches(c: Carrier, statusFilter: Option<string>) {
    IsNullOrWhiteSpace(statusFilter) || statusFilter.value == "all" || c.status == statusFilter.value
  }

  predicate Keep(c: Carrier, f: CarrierFilters) {
    SearchMatches(c, f.searchTerm) && StatusMatches(c, f.statusFilter)
  }

  function Matching(carriers: seq<Carrier>, f: CarrierFilters): (r: seq<Carrier>)
    ensures |r| <= |carriers|
    ensures forall c :: c in r <==> c in carriers && Keep(c, f)
  {
    Filter(carriers, c => Keep(c, f))
  }

  /** The matching carriers, newest first. */
  function Ordered(carriers: seq<Carrier>, f: CarrierFilters): (r: seq<Carrier>)
    ensures forall i, j :: 0 <= i < j < |r| ==> r[i].createdOn >= r[j].createdOn
    ensures multiset(r) == multiset(Matching(carriers, f))
    ensures |r| == |Matching(carriers, f)|
  {
    var r := SortDesc(Matching(carriers, f), (c: Carrier) => c.createdOn);
    assert |r| == |multiset(r)|;
    r
  }

  /** The creator's e-mail, from the `CreatedByUser` navigation. */
  function CreatorEmail(c: Carrier, users: seq<User>): (e: Option<string>)
    ensures c.createdBy.None? ==> e.None?
  {
    if c.createdBy.None? then None
    else match FindUserById(users, c.createdBy.value)
      case None => None
      case Some(k) => users[k].email
  }

  function Project(c: Carrier, users: seq<User>): (r: CarrierRow)
    ensures r.carrierId == c.carrierId && r.carrierCode == c.carrierCode && r.companyName == c.companyName
    ensures r.status == c.status && r.createdOn == c.createdOn && r.trailerCount == 0
  {
    CarrierRow(c.carrierId, c.carrierCode, c.companyName, c.contactPerson, c.phone, c.email, c.address,
      c.status, 0, c.createdOn, CreatorEmail(c, users))
  }

  datatype CarriersView = CarriersView(carriers: seq<CarrierRow>, currentPage: nat, totalPages: nat, totalCarriers: nat)

  /** Count, clamp, slice and project an ordered list. */
  function ShowPage(ordered: seq<Carrier>, users: seq<User>, pageNumber: int): (v: CarriersView)
    ensures v.totalCarriers == |ordered|
    ensures v.totalPages == TotalPages(v.totalCarriers)
    ensures 1 <= v.currentPage <= v.totalPages && v.currentPage == ClampPage(pageNumber, v.totalPages)
    ensures |v.carriers| <= PageSize
    ensures (v.currentPage - 1) * PageSize + |v.carriers| <= |ordered|
    ensures |v.carriers| == Min(PageSize, |ordered| - (v.currentPage - 1) * PageSize)
    ensures forall k :: 0 <= k < |v.carriers| ==>
      v.carriers[k] == Project(ordered[(v.currentPage - 1) * PageSize + k], users)
  {
    var p := Paginate(ordered, pageNumber);
    CarriersView(seq(|p.items|, k requires 0 <= k < |p.items| => Project(p.items[k], users)),
      p.currentPage, p.totalPages, p.total)
  }

  /** `LoadCarriersAsync`: filter, order newest first, then count, clamp,
      slice and project. */
  function LoadCarriers(carriers: seq<Carrier>, users: seq<User>, f: CarrierFilters, pageNumber: int): (v: CarriersView)
    ensures v == ShowPage(Ordered(carriers, f), users, pageNumber)
    ensures v.totalCarriers == |Matching(carriers, f)|
  {
    ShowPage(Ordered(carriers, f), users, pageNumber)
  }

  /** The ordered list holds exactly the stored carriers that pass both
      active filters. */
  lemma OrderedMembers(carriers: seq<Carrier>, f: CarrierFilters, c: Carrier)
    ensures c in Ordered(carriers, f) <==> c in carriers && Keep(c, f)
  {
    assert c in Ordered(carriers, f) <==> c in multiset(Ordered(carriers, f));
    assert c in Matching(carriers, f) <==> c in multiset(Matching(carriers, f));
  }

  /** Every row of a page is the projection of an item of the list it was
      cut from. */
  lemma ShownFromOrdered(ordered: seq<Carrier>, users: seq<User>, pageNumber: int, k: nat)
    requires k < |ShowPage(ordered, users, pageNumber).carriers|
    ensures exists c :: c in ordered && ShowPage(ordered, users, pageNumber).carriers[k] == Project(c, users)
  {
    var v := ShowPage(ordered, users, pageNumber);
    var c := ordered[(v.currentPage - 1) * PageSize + k];
    assert v.carriers[k] == Project(c, users);
  }

  /** Every listed carrier is a stored carrier that passes both active
      filters. */
  lemma ListedCarriersMatch(carriers: seq<Carrier>, users: seq<User>, f: CarrierFilters, pageNumber: int, k: nat)
    requires k < |LoadCarriers(carriers, users, f, pageNumber).carriers|
    ensures exists c :: c in carriers && Keep(c, f) && LoadCarriers(carriers, users, f, pageNumber).carriers[k] == Project(c, users)
  {
    var ordered := Ordered(carriers, f);
    ShownFromOrdered(ordered, users, pageNumber, k);
    var c :| c in ordered && ShowPage(ordered, users, pageNumber).carriers[k] == Project(c, users);
    OrderedMembers(carriers, f, c);
  }

  /** The listed page is newest first. */
  lemma ListedNewestFirst(carriers: seq<Carrier>, users: seq<User>, f: CarrierFilters, pageNumber: int, a: nat, b: nat)
    requires a < b < |LoadCarriers(carriers, users, f, pageNumber).carriers|
    ensures LoadCarriers(carriers, users, f, pageNumber).carriers[a].createdOn
         >= LoadCarriers(carriers, users, f, pageNumber).carriers[b].createdOn
  {
    var ordered := Ordered(carriers, f);
    PageKeepsOrder(ordered, users, pageNumber, a, b);
  }

  /** Two rows cut from a newest-first list keep their order. */
  lemma PageKeepsOrder(ordered: seq<Carrier>, users: seq<User>, pageNumber: int, a: nat, b: nat)
    requires forall i, j :: 0 <= i < j < |ordered| ==> ordered[i].createdOn >= ordered[j].createdOn
    requires a < b < |ShowPage(ordered, users, pageNumber).carriers|
    ensures ShowPage(ordered, users, pageNumber).carriers[a].createdOn
         >= ShowPage(ordered, users, pageNumber).carriers[b].createdOn
  {
    var start := PageStart(ordered, users, pageNumber);
    SliceKeepsOrder(ordered, ShowPage(ordered, users, pageNumber).carriers, start, a, b);
  }

  /** Where the shown page starts in the ordered list. */
  lemma PageStart(ordered: seq<Carrier>, users: seq<User>, pageNumber: int) returns (start: nat)
    ensures var c := ShowPage(ordered, users, pageNumber).carriers;
      && start + |c| <= |ordered|
      && forall k :: 0 <= k < |c| ==> c[k].createdOn == ordered[start + k].createdOn
  {
    var v := ShowPage(ordered, users, pageNumber);
    start := (v.currentPage - 1) * PageSize;
  }

  lemma SliceKeepsOrder(ordered: seq<Carrier>, rows: seq<CarrierRow>, start: nat, a: nat, b: nat)
    requires forall i, j :: 0 <= i < j < |ordered| ==> ordered[i].createdOn >= ordered[j].createdOn
    requires start + |rows| <= |ordered| && a < b < |rows|
    requires forall k :: 0 <= k < |rows| ==> rows[k].createdOn == ordered[start + k].createdOn
    ensures rows[a].createdOn >= rows[b].createdOn
  {
    assert ordered[start + a].createdOn >= ordered[start + b].createdOn;
  }

  /** Nothing that matches is lost: every stored carrier that passes both
      filters is listed on some page, as long as every request pages the
      model's one stable order (see `EveryMatchShownAnyOrder` for
      per-request orders). */
  lemma EveryMatchShown(carriers: seq<Carrier>, users: seq<User>, f: CarrierFilters, c: Carrier)
    requires c in carriers && Keep(c, f)
    ensures exists n: int :: Project(c, users) in LoadCarriers(carriers, users, f, n).carriers
  {
    var ordered := Ordered(carriers, f);
    OrderedMembers(carriers, f, c);
    var i :| 0 <= i < |ordered| && ordered[i] == c;
    var n := i / PageSize + 1;
    ItemOnItsPage(ordered, i);
    var v := ShowPage(ordered, users, n);
    assert v.currentPage == n;
    assert v.carriers[i % PageSize] == Project(c, users);
    assert Project(c, users) in LoadCarriers(carriers, users, f, n).carriers;
  }

  /** An order the database may return for one request: newest first,
      holding exactly the matching carriers, with ties in any order. */
  ghost predicate AdmissibleOrder(r: seq<Carrier>, carriers: seq<Carrier>, f: CarrierFilters) {
    && (forall i, j :: 0 <= i < j < |r| ==> r[i].createdOn >= r[j].createdOn)
    && multiset(r) == multiset(Matching(carriers, f))
  }

  /** No two different carriers share a creation time. */
  ghost predicate DistinctTimes(s: seq<Carrier>) {
    forall x, y :: x in s && y in s && x.createdOn == y.createdOn ==> x == y
  }

  /** When no two matching carriers share a creation time, every order the
      database may return is the model's. */
  lemma AdmissibleOrderUnique(carriers: seq<Carrier>, f: CarrierFilters, r: seq<Carrier>)
    requires AdmissibleOrder(r, carriers, f)
    requires DistinctTimes(Matching(carriers, f))
    ensures r == Ordered(carriers, f)
  {
    var key := (c: Carrier) => c.createdOn;
    var o := Ordered(carriers, f);
    assert NonIncreasing(r, key) && NonIncreasing(o, key);
    forall x, y | x in r && y in r && key(x) == key(y) ensures x == y {
      assert x in multiset(r) && y in multiset(r);
      assert x in Matching(carriers, f) && y in Matching(carriers, f);
    }
    SortedDescUnique(r, o, key);
  }

  /** Each page request sorts afresh, so two requests may order carriers
      with the same creation time differently. When no two matching
      carriers share a creation time, every matching carrier is still
      listed on some page, whatever admissible order each request gets. */
  lemma EveryMatchShownAnyOrder(carriers: seq<Carrier>, users: seq<User>, f: CarrierFilters, c: Carrier,
                                order: int -> seq<Carrier>)
    requires c in carriers && Keep(c, f)
    requires DistinctTimes(Matching(carriers, f))
    requires forall n :: AdmissibleOrder(order(n), carriers, f)
    ensures exists n: int :: Project(c, users) in ShowPage(order(n), users, n).carriers
  {
    EveryMatchShown(carriers, users, f, c);
    var n: int :| Project(c, users) in LoadCarriers(carriers, users, f, n).carriers;
    AdmissibleOrderUnique(carriers, f, order(n));
  }

  /** With a blank search term and a blank or "all" status every carrier
      is counted. */
  lemma InactiveFiltersListAll(carriers: seq<Carrier>, users: seq<User>, f: CarrierFilters, pageNumber: int)
    requires IsNullOrWhiteSpace(f.searchTerm)
    requires IsNullOrWhiteSpace(f.statusFilter) || f.statusFilter.value == "all"
    ensures LoadCarriers(carriers, users, f, pageNumber).totalCarriers == |carriers|
  {
    FilterAll(carriers, c => Keep(c, f));
  }

  /** The displayed creator is `CreatedByEmail`'s text: the creator's
      e-mail, or "Unknown". */
  lemma CreatorDisplay(c: Carrier, users: seq<User>)
    requires c.createdBy.Some?
    ensures var u := FindUserById(users, c.createdBy.value);
      CreatedByEmail(if u.Some? then Some(users[u.value]) else None) == Project(c, users).createdByEmail.GetOr("Unknown")
  {
  }
}
