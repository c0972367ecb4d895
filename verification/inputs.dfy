/** The bound form models whose data annotations `TryValidateModel`
    enforces, each with its validity predicate. A `[Required]` string is
    rejected when null, empty or white space only; `[StringLength(n)]`
    caps a present value; `[EmailAddress]` is the abstract format check
    `isEmail`. */
module InputModels {
  import opened Wrappers
  import opened Text
  import opened Entities

  /** `EditCarrierInput`. */
  datatype EditCarrierInput = EditCarrierInput(
    carrierId: int,
    carrierCode: string,
    companyName: string,
    contactPerson: string,
    phone: Option<string>,
    email: Option<string>,
    address: Option<string>,
    status: string)

  /** A newly bound `EditCarrierInput`: empty strings and Status "Active". */
  function NewEditCarrierInput(): (e: EditCarrierInput)
    ensures e.status == "Active" && e.carrierCode == "" && e.companyName == ""
  {
    EditCarrierInput(0, "", "", "", None, None, None, "Active")
  }

  predicate EditCarrierInputValid(e: EditCarrierInput, isEmail: string -> bool) {
    && Required(Some(e.carrierCode))
    && Required(Some(e.companyName)) && |e.companyName| <= 100
    && Required(Some(e.contactPerson)) && |e.contactPerson| <= 100
    && MaxLength(e.phone, 20)
    && MaxLength(e.email, 255) && EmailFormat(e.email, isEmail)
    && MaxLength(e.address, 200)
    && Required(Some(e.status))
  }

  /** A valid edit carries a contact person, which the carrier record
      itself may lack: the form is stricter than the entity. */
  lemma EditCarrierStricterThanEntity(c: Carrier, isEmail: string -> bool)
    requires CarrierValid(c, isEmail) && c.contactPerson.None?
    ensures !EditCarrierInputValid(EditCarrierInput(c.carrierId, c.carrierCode, c.companyName, "",
      c.phone, c.email, c.address, c.status), isEmail)
  {
  }

  /** The optional fields: a valid edit's phone, e-mail and address fit
      their columns, and an e-mail passes the format check. */
  lemma EditCarrierOptionalFields(e: EditCarrierInput, isEmail: string -> bool)
    requires EditCarrierInputValid(e, isEmail)
    ensures e.phone.Some? ==> |e.phone.value| <= 20
    ensures e.address.Some? ==> |e.address.value| <= 200
    ensures e.email.Some? ==> |e.email.value| <= 255 && isEmail(e.email.value)
  {
  }

  /** A fresh edit form is rejected: it has no code or company name. */
  lemma NewEditCarrierInputInvalid(isEmail: string -> bool)
    ensures !EditCarrierInputValid(NewEditCarrierInput(), isEmail)
  {
  }

  /** `CreateRoleInput`. */
  datatype CreateRoleInput = CreateRoleInput(name: string, description: Option<string>, status: string)

  function NewCreateRoleInput(): (r: CreateRoleInput)
    ensures r.status == "Active" && r.name == "" && r.description.None?
  {
    CreateRoleInput("", None, "Active")
  }

  predicate CreateRoleInputValid(r: CreateRoleInput) {
    && Required(Some(r.name)) && |r.name| <= 50
    && MaxLength(r.description, 250)
    && Required(Some(r.status))
  }

  /** A blank name, or one over 50 characters, is rejected whatever the
      other fields hold. */
  lemma RoleNameRequired(r: CreateRoleInput)
    requires IsBlank(r.name) || |r.name| > 50
    ensures !CreateRoleInputValid(r)
  {
  }

  lemma NewCreateRoleInputInvalid()
    ensures !CreateRoleInputValid(NewCreateRoleInput())
  {
  }

  /** `CreateUserInput`. */
  datatype CreateUserInput = CreateUserInput(firstName: string, lastName: string, email: string, role: string)

  function NewCreateUserInput(): (u: CreateUserInput)
    ensures u.firstName == u.lastName == u.email == u.role == ""
  {
    CreateUserInput("", "", "", "")
  }

  predicate CreateUserInputValid(u: CreateUserInput, isEmail: string -> bool) {
    && Required(Some(u.firstName))
    && Required(Some(u.lastName))
    && Required(Some(u.email)) && isEmail(u.email)
    && Required(Some(u.role))
  }

  /** Every field defaults to "", so a fresh form is rejected. */
  lemma NewCreateUserInputInvalid(isEmail: string -> bool)
    ensures !CreateUserInputValid(NewCreateUserInput(), isEmail)
  {
  }

  /** A valid form has non-blank names, e-mail and role, and the e-mail
      passes the format check. */
  lemma CreateUserInputFields(u: CreateUserInput, isEmail: string -> bool)
    requires CreateUserInputValid(u, isEmail)
    ensures !IsBlank(u.firstName) && !IsBlank(u.lastName) && !IsBlank(u.role)
    ensures !IsBlank(u.email) && isEmail(u.email)
  {
  }

  /** `EditUserInput`. */
  datatype EditUserInput = EditUserInput(userId: string, firstName: string, lastName: string,
    email: string, role: string, status: string)

  function NewEditUserInput(): (u: EditUserInput)
    ensures u.userId == u.firstName == u.lastName == u.email == u.role == u.status == ""
  {
    EditUserInput("", "", "", "", "", "")
  }

  predicate EditUserInputValid(u: EditUserInput, isEmail: string -> bool) {
    && Required(Some(u.userId))
    && Required(Some(u.firstName))
    && Required(Some(u.lastName))
    && Required(Some(u.email)) && isEmail(u.email)
    && Required(Some(u.role))
    && Required(Some(u.status))
  }

  lemma NewEditUserInputInvalid(isEmail: string -> bool)
    ensures !EditUserInputValid(NewEditUserInput(), isEmail)
  {
  }

  /** A valid edit names a user, a role and a status, and carries a
      well-formed e-mail. */
  lemma EditUserInputFields(u: EditUserInput, isEmail: string -> bool)
    requires EditUserInputValid(u, isEmail)
    ensures !IsBlank(u.userId) && !IsBlank(u.role) && !IsBlank(u.status)
    ensures !IsBlank(u.firstName) && !IsBlank(u.lastName) && isEmail(u.email)
  {
  }
}
