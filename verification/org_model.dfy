/**
 * The request bodies of the organisation routes and their field rules:
 * lengths are counted in code points on the value as sent, and only the
 * create body's name validator trims. Each rule that fails names its field;
 * the model reports every failing field, as request validation does.
 */
module OrgModel {
  import opened Wrappers
  import Text

  const NameMinLength: nat := 1
  const NameMaxLength: nat := 100
  const PasswordMinLength: nat := 6

  /** A validated `OrgCreate` body. */
  datatype OrgCreate = OrgCreate(organizationName: string, email: string, password: string)

  /** A validated `OrgUpdate` body; an absent field is `None`. */
  datatype OrgUpdate = OrgUpdate(newOrganizationName: Option<string>, email: Option<string>, password: Option<string>)

  predicate NameLengthOk(name: string) {
    NameMinLength <= |name| <= NameMaxLength
  }

  predicate PasswordLengthOk(password: string) {
    PasswordMinLength <= |password|
  }

  /** The create body's name: the length rule on the raw value, then the non-blank validator. */
  predicate CreateNameOk(name: string) {
    NameLengthOk(name) && Text.Strip(name) != []
  }

  /** The fields that fail, in declaration order. */
  function CreateErrors(name: string, password: string): (errs: seq<string>)
    ensures "organization_name" in errs <==> !CreateNameOk(name)
    ensures "password" in errs <==> !PasswordLengthOk(password)
    ensures errs == [] <==> CreateNameOk(name) && PasswordLengthOk(password)
  {
    (if CreateNameOk(name) then [] else ["organization_name"])
      + (if PasswordLengthOk(password) then [] else ["password"])
  }

  /**
   * `OrgCreate`: accepted exactly when the name is 1 to 100 characters and
   * not blank and the password is at least 6; the accepted name is trimmed.
   */
  function ValidateCreate(name: string, email: string, password: string): (r: Result<OrgCreate, seq<string>>)
    ensures r.Success? <==> NameLengthOk(name) && Text.Strip(name) != [] && |password| >= PasswordMinLength
    ensures r.Success? ==>
      && r.value.organizationName == Text.Strip(name)
      && r.value.email == email
      && r.value.password == password
      && Text.Strip(r.value.organizationName) == r.value.organizationName
      && 0 < |r.value.organizationName| <= NameMaxLength
    ensures r.Failure? ==> r.error != [] && ("organization_name" in r.error <==> !CreateNameOk(name))
  {
    var errs := CreateErrors(name, password);
    if errs == [] then
      Text.StripIdempotent(name);
      Success(OrgCreate(Text.Strip(name), email, password))
    else
      Failure(errs)
  }

  /** The fields of an update body that fail, in declaration order. */
  function UpdateErrors(newName: Option<string>, password: Option<string>): (errs: seq<string>)
    ensures "new_organization_name" in errs <==> newName.Some? && !NameLengthOk(newName.value)
    ensures "password" in errs <==> password.Some? && !PasswordLengthOk(password.value)
    ensures errs == [] <==>
      (newName.Some? ==> NameLengthOk(newName.value)) && (password.Some? ==> PasswordLengthOk(password.value))
  {
    (if newName.None? || NameLengthOk(newName.value) then [] else ["new_organization_name"])
      + (if password.None? || PasswordLengthOk(password.value) then [] else ["password"])
  }

  /**
   * `OrgUpdate`: every field optional; a given name must be 1 to 100
   * characters and a given password at least 6. Nothing is trimmed.
   */
  function ValidateUpdate(newName: Option<string>, email: Option<string>, password: Option<string>): (r: Result<OrgUpdate, seq<string>>)
    ensures r.Success? <==>
      && (newName.Some? ==> NameMinLength <= |newName.value| <= NameMaxLength)
      && (password.Some? ==> |password.value| >= PasswordMinLength)
    ensures r.Success? ==> r.value == OrgUpdate(newName, email, password)
    ensures r.Failure? ==> r.error != []
  {
    var errs := UpdateErrors(newName, password);
    if errs == [] then Success(OrgUpdate(newName, email, password)) else Failure(errs)
  }
}
