/** Models/User.cs: the user record and its data-annotation constraints. */
module UserModel {
  import opened Primitives
  import opened Annotations

  datatype User = User(
    Id: Guid,
    Name: string,
    Email: string,
    Password: string,
    Role: string)

  const MaxNameLength: nat := 100
  const MaxEmailLength: nat := 100
  const MinPasswordLength: nat := 6

  /**
   * The record passes every attribute on User. A valid user has a name, a
   * password and an e-mail containing '@', and its role is exactly "Admin"
   * or "User": the empty string the pattern lets through is refused as missing.
   */
  predicate Valid(u: User)
    ensures Valid(u) ==> 0 < |u.Name| && 0 < |u.Password| && '@' in u.Email
    ensures Valid(u) ==> u.Role == "Admin" || u.Role == "User"
  {
    && Required(u.Name) && StringLength(u.Name, MaxNameLength)
    && Required(u.Email) && EmailAddress(u.Email) && StringLength(u.Email, MaxEmailLength)
    && Required(u.Password) && MinLength(u.Password, MinPasswordLength)
    && Required(u.Role) && MatchesEither(u.Role, "Admin", "User")
  }

  /** The errors model binding records for a user, one per failing attribute. */
  function Errors(u: User): (errs: seq<FieldError>)
    ensures errs == [] <==> Valid(u)
    ensures forall e :: e in errs ==> e.field in {"Name", "Email", "Password", "Role"}
  {
    var name :=
      Check(Required(u.Name), "Name", "Name is required.")
      + Check(StringLength(u.Name, MaxNameLength), "Name", "Name can't be longer than 100 characters.");
    var email :=
      Check(Required(u.Email), "Email", "Email is required.")
      + Check(EmailAddress(u.Email), "Email", "Invalid email format.")
      + Check(StringLength(u.Email, MaxEmailLength), "Email", "Email can't be longer than 100 characters.");
    var password :=
      Check(Required(u.Password), "Password", "Password is required.")
      + Check(MinLength(u.Password, MinPasswordLength), "Password", "Password must be at least 6 characters long.");
    var role :=
      Check(Required(u.Role), "Role", "Role is required.")
      + Check(MatchesEither(u.Role, "Admin", "User"), "Role", "Role must be either 'Admin' or 'User'.");
    name + email + password + role
  }
}
