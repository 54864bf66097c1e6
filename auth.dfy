/**
 * The decision logic of `AuthController`: the email-to-role mapping, the
 * sign-up form's field update, and the blank-credential guard of `login`.
 * The Firebase calls themselves are not modelled; a sign-in request is
 * recorded in a field instead.
 */
module Auth {

  import opened Wrappers

  /** `UserModel` with its default values. */
  datatype UserModel = UserModel(uid: string, email: string, username: string, employeeID: string, role: string)

  function DefaultUser(): UserModel {
    UserModel("", "", "", "", "employee")
  }

  /** `AuthState`; a `FirebaseUser` is represented by its uid. */
  datatype AuthState =
    | Unauthenticated
    | Loading
    | Authenticated(user: Option<string>)
    | AdminAuthenticated(adminUser: string)
    | EmployeeAuthenticated(employeeUser: string)
    | Error(message: string)
    | LoggedOut
    | LoggedIn(loggedInEmail: string, loggedInRole: string)

  const AdminEmail: string := "admin10@example.com"

  /** `assignRoleBasedOnEmail`: "admin" for the one admin address, "employee" for anything else, null included. */
  function AssignRoleBasedOnEmail(email: Option<string>): (role: string)
    ensures role == "admin" || role == "employee"
    ensures role == "admin" <==> email == Some(AdminEmail)
  {
    if email == Some(AdminEmail) then "admin" else "employee"
  }

  /**
   * The `when (field)` of `updateUser`: the keys "email", "username" and
   * "employeeId" each replace one field; any other key leaves the user as it
   * is. The uid and the role never change.
   */
  function UpdatedUser(user: UserModel, field: string, value: string): (r: UserModel)
    ensures r.uid == user.uid && r.role == user.role
    ensures r.email == (if field == "email" then value else user.email)
    ensures r.username == (if field == "username" then value else user.username)
    ensures r.employeeID == (if field == "employeeId" then value else user.employeeID)
  {
    match field
    case "email" => user.(email := value)
    case "username" => user.(username := value)
    case "employeeId" => user.(employeeID := value)
    case _ => user
  }

  /** Any key other than the three form keys, "employeeID" with a capital D among them, changes nothing. */
  lemma UnknownFieldIgnored(user: UserModel, field: string, value: string)
    requires field != "email" && field != "username" && field != "employeeId"
    ensures UpdatedUser(user, field, value) == user
  {
  }

  lemma CapitalIdIgnored(user: UserModel, value: string)
    ensures UpdatedUser(user, "employeeID", value) == user
  {
    UnknownFieldIgnored(user, "employeeID", value);
  }

  /** Replaying the same update is a no-op. */
  lemma UpdateIdempotent(user: UserModel, field: string, value: string)
    ensures UpdatedUser(UpdatedUser(user, field, value), field, value) == UpdatedUser(user, field, value)
  {
  }

  /**
   * Kotlin's `Char.isWhitespace()`: Java's `Character.isWhitespace` (tab to
   * carriage return, the four information separators, and the space
   * separators other than the no-break spaces) or `Character.isSpaceChar`
   * (every space separator, line separator and paragraph separator).
   */
  predicate IsWhitespace(c: char) {
    || '\t' <= c <= '\r'
    || '\U{1C}' <= c <= '\U{1F}'
    || c == ' ' || c == '\U{A0}' || c == '\U{1680}'
    || '\U{2000}' <= c <= '\U{200A}'
    || c == '\U{2028}' || c == '\U{2029}'
    || c == '\U{202F}' || c == '\U{205F}' || c == '\U{3000}'
  }

  /** `isNullOrBlank()`: null, empty, or whitespace only. */
  predicate IsNullOrBlank(s: Option<string>) {
    s.None? || forall k :: 0 <= k < |s.value| ==> IsWhitespace(s.value[k])
  }

  datatype Credentials = Credentials(email: string, password: string)

  /**
   * The guard at the top of `login`: the credentials handed to
   * `signInWithEmailAndPassword`, or `None` when `login` returns early.
   */
  function SignInRequest(email: Option<string>, password: Option<string>): (r: Option<Credentials>)
    ensures r.None? <==> IsNullOrBlank(email) || IsNullOrBlank(password)
    ensures r.Some? ==> Some(r.value.email) == email && Some(r.value.password) == password
    ensures r.Some? ==> exists k :: 0 <= k < |r.value.email| && !IsWhitespace(r.value.email[k])
  {
    if IsNullOrBlank(email) || IsNullOrBlank(password) then None
    else Some(Credentials(email.value, password.value))
  }

  lemma BlankLoginRejected()
    ensures SignInRequest(Some(""), Some("secret")).None?
    ensures SignInRequest(Some(" \t"), Some("secret")).None?
    ensures SignInRequest(Some("a@x.com"), None).None?
    ensures SignInRequest(Some("a@x.com"), Some("secret")) == Some(Credentials("a@x.com", "secret"))
  {
    assert !IsWhitespace("a@x.com"[0]);
    assert !IsWhitespace("secret"[0]);
  }

  class AuthController {
    var authState: AuthState
    var userState: UserModel
    /** The sign-in calls issued to the backend, oldest first. */
    var signInRequests: seq<Credentials>

    /** `init { checkAuthState() }`, given the backend's current user, if any. */
    constructor (currentUser: Option<string>)
      ensures authState == (if currentUser.Some? then Authenticated(currentUser) else Unauthenticated)
      ensures userState == DefaultUser() && signInRequests == []
    {
      authState := if currentUser.Some? then Authenticated(currentUser) else Unauthenticated;
      userState := DefaultUser();
      signInRequests := [];
    }

    /** `updateUser(field, value)`. */
    method UpdateUser(field: string, value: string)
      modifies this`userState
      ensures userState == UpdatedUser(old(userState), field, value)
    {
      userState := UpdatedUser(userState, field, value);
    }

    /**
     * `login` up to the sign-in call: with a null or blank email or password
     * it returns without a request; otherwise it issues one. The auth state
     * is only changed later, by the backend's completion listener.
     */
    method Login(email: Option<string>, password: Option<string>) returns (requested: bool)
      modifies this`signInRequests
      ensures requested <==> !IsNullOrBlank(email) && !IsNullOrBlank(password)
      ensures signInRequests == old(signInRequests) + (if requested then [SignInRequest(email, password).value] else [])
    {
      var request := SignInRequest(email, password);
      if request.None? {
        return false;
      }
      signInRequests := signInRequests + [request.value];
      requested := true;
    }
  }
}
