/**
 * Admin login: find the admin by exact email, check the password against
 * the stored hash, and return the admin's public fields. The password check
 * is a parameter `verify(plain, hashed)`, standing for the hashing library.
 */
module AuthService {
  import opened Wrappers
  import opened ObjectIds
  import opened Tables
  import opened Directory

  /** What a successful login returns: the admin's public fields, the id as its 24-digit string. */
  datatype AdminView = AdminView(
    adminId: string,
    email: string,
    organizationName: string,
    orgCollection: string,
    createdAt: Timestamp)

  /** The one detail both login failures share. */
  const InvalidCredentials: string := "Invalid email or password"

  function AdminViewOf(row: Row<Admin>): AdminView {
    AdminView(Format(row.id), row.rec.email, row.rec.organizationName, row.rec.orgCollection, row.rec.createdAt)
  }

  /** Admin row `i` is the first one holding `email`: the row `find_one({"email": email})` returns. */
  ghost predicate FirstWithEmail(s: Store, email: string, i: int) {
    && 0 <= i < |s.admins|
    && s.admins[i].rec.email == email
    && forall j :: 0 <= j < i ==> s.admins[j].rec.email != email
  }

  /**
   * `AuthService.admin_login`. An unknown email and a wrong password fail
   * identically; a success describes the first admin holding the email,
   * whose stored hash the password verifies against. The store is only read.
   */
  function Login(s: Store, email: string, password: string, verify: (string, string) -> bool): (r: Result<AdminView, Raised>)
    ensures r.Failure? ==> r.error == HttpException(Unauthorized, InvalidCredentials, false)
    ensures r.Success? <==>
      exists i :: FirstWithEmail(s, email, i) && verify(password, s.admins[i].rec.hashedPassword)
    ensures forall i :: FirstWithEmail(s, email, i) && r.Success? ==>
      r.value == AdminView(Format(s.admins[i].id), email, s.admins[i].rec.organizationName,
                           s.admins[i].rec.orgCollection, s.admins[i].rec.createdAt)
  {
    match Find(s.admins, AdminWithEmail(email))
    case None =>
      assert forall i :: 0 <= i < |s.admins| ==> !AdminWithEmail(email)(s.admins[i]);
      Failure(HttpException(Unauthorized, InvalidCredentials, false))
    case Some(i) =>
      assert FirstWithEmail(s, email, i) by {
        assert forall j :: 0 <= j < i ==> !AdminWithEmail(email)(s.admins[j]);
      }
      if !verify(password, s.admins[i].rec.hashedPassword) then
        Failure(HttpException(Unauthorized, InvalidCredentials, false))
      else
        Success(AdminViewOf(s.admins[i]))
  }

  /**
   * With unique emails, a login succeeds exactly when some admin holds the
   * email and the password verifies against that admin's hash.
   */
  lemma LoginUniqueEmails(s: Store, email: string, password: string, verify: (string, string) -> bool, i: nat)
    requires WellFormed(s)
    requires i < |s.admins| && s.admins[i].rec.email == email
    ensures Login(s, email, password, verify).Success? <==> verify(password, s.admins[i].rec.hashedPassword)
    ensures Login(s, email, password, verify).Success? ==>
      Login(s, email, password, verify).value == AdminViewOf(s.admins[i])
  {
    assert FirstWithEmail(s, email, i);
  }
}
