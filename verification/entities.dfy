/** The persistent records of the application. One name is used per field
    where the record classes and the pages disagree: users carry
    `createdOn` (the page's name), roles carry `createdAt`. */
module Entities {
  import opened Wrappers
  import opened Text

  /** A `DateTime` in UTC, as a count of seconds. */
  type Time = int

  const SecondsPerDay: int := 86400

  /** `ApplicationUser`: an Identity user with the application's fields. */
  datatype User = User(
    id: string,
    userName: Option<string>,
    email: Option<string>,
    emailConfirmed: bool,
    firstName: string,
    lastName: string,
    phoneNumber: Option<string>,
    status: string,
    createdOn: Time,
    createdBy: Option<string>,
    lastLogin: Option<Time>)

  /** `ApplicationRole`. */
  datatype Role = Role(
    id: string,
    name: string,
    description: Option<string>,
    isSystemRole: bool,
    status: string,
    createdAt: Time)

  /** A row of Identity's user-role link table. */
  datatype UserRole = UserRole(userId: string, roleId: string)

  /** `Carrier`. */
  datatype Carrier = Carrier(
    carrierId: int,
    carrierCode: string,
    companyName: string,
    contactPerson: Option<string>,
    phone: Option<string>,
    email: Option<string>,
    address: Option<string>,
    status: string,
    createdBy: Option<string>,
    createdOn: Time)

  /** `ActivityLog`: one audit entry. */
  datatype ActivityLog = ActivityLog(
    id: nat,
    createdBy: string,
    createdOn: Time,
    action: string,
    description: Option<string>,
    jsonData: Option<string>)

  /** `[Required]` on a string: present and not only white space. */
  predicate Required(s: Option<string>) {
    !IsNullOrWhiteSpace(s)
  }

  /** `[StringLength(n)]`: absent, or at most n characters. */
  predicate MaxLength(s: Option<string>, n: nat) {
    s.None? || |s.value| <= n
  }

  /** `[EmailAddress]`: absent, or accepted by the format check. */
  predicate EmailFormat(s: Option<string>, isEmail: string -> bool) {
    s.None? || isEmail(s.value)
  }

  /** The widths of the `Carriers` columns: a row with a longer value is
      refused by the database when it is saved. */
  predicate FitsColumns(c: Carrier) {
    && |c.carrierCode| <= 20
    && |c.companyName| <= 100
    && MaxLength(c.contactPerson, 100)
    && MaxLength(c.phone, 20)
    && MaxLength(c.email, 255)
    && MaxLength(c.address, 200)
    && |c.status| <= 20
  }

  /** The data annotations on `Carrier`. */
  predicate CarrierValid(c: Carrier, isEmail: string -> bool) {
    && Required(Some(c.carrierCode))
    && Required(Some(c.companyName))
    && FitsColumns(c)
    && EmailFormat(c.email, isEmail)
  }

  /** `new Carrier()`: every field at its declared default. */
  function DefaultCarrier(utcNow: Time): (c: Carrier)
    ensures c.status == "Active"
    ensures c.createdOn == utcNow
  {
    Carrier(0, "", "", None, None, None, None, "Active", None, utcNow)
  }

  /** A freshly constructed carrier lacks its required code and name. */
  lemma DefaultCarrierInvalid(utcNow: Time, isEmail: string -> bool)
    ensures !CarrierValid(DefaultCarrier(utcNow), isEmail)
  {
  }

  /** `Carrier.CreatedByEmail`: the creator's e-mail, else "Unknown". */
  function CreatedByEmail(createdByUser: Option<User>): (r: string)
    ensures createdByUser.Some? && createdByUser.value.email.Some? ==> r == createdByUser.value.email.value
    ensures createdByUser.None? ==> r == "Unknown"
    ensures createdByUser.Some? && createdByUser.value.email.None? ==> r == "Unknown"
  {
    match createdByUser
    case None => "Unknown"
    case Some(u) => u.email.GetOr("Unknown")
  }
}

/** The JSON document model behind `JsonDocument`. */
module Json {

  datatype Json =
    | JNull
    | JBool(b: bool)
    | JNumber(text: string)
    | JString(s: string)
    | JArray(items: seq<Json>)
    | JObject(props: seq<Property>)

  /** One name/value pair of an object, in document order. */
  datatype Property = Property(name: string, value: Json)
}
