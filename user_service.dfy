/**
 * Accounts of backend/app/services/userservice.py: who may sign in, how a user
 * record is created, the active/inactive switch with its optional token
 * blacklisting, and logout. The users and roles tables (backend/app/models/data.py)
 * are fields of UserDb; the Redis store is a TokenStore.Store.
 */
module UserService {
  import opened Wrappers
  import opened Text
  import TokenStore

  const DEFAULT_ROLE: string := "Student"
  const ADMIN_ROLE: string := "Admin"
  const DEFAULT_INSTITUTION: string := "Unknown Institution"

  /** Image types a profile picture may have, by extension and by sniffed content. */
  const ALLOWED_EXTENSIONS: set<string> := {"png", "jpg", "jpeg", "gif"}

  /** A row of the users table; the password is stored only as its hash. */
  datatype User = User(
    id: nat,
    firstName: string,
    lastName: string,
    email: string,
    username: string,
    institution: string,
    passwordHash: string,
    role: string,
    isAdmin: bool,
    isActive: bool)

  /** `User.get_or_none(User.id == id)`. */
  function FindById(users: seq<User>, id: nat): (r: Option<User>)
    ensures r.Some? ==> r.value in users && r.value.id == id
    ensures r.None? <==> forall u :: u in users ==> u.id != id
  {
    if users == [] then None
    else if users[0].id == id then Some(users[0])
    else FindById(users[1..], id)
  }

  /** `User.get_or_none(User.email == email)`. */
  function FindByEmail(users: seq<User>, email: string): (r: Option<User>)
    ensures r.Some? ==> r.value in users && r.value.email == email
    ensures r.None? <==> forall u :: u in users ==> u.email != email
  {
    if users == [] then None
    else if users[0].email == email then Some(users[0])
    else FindByEmail(users[1..], email)
  }

  // ----- authenticate_user -----

  /**
   * authenticate_user: the record of the active user with this email whose
   * stored hash `check` accepts the password. A missing password makes the
   * hash check raise, which the method's handler turns into None.
   */
  function AuthenticateUser(users: seq<User>, email: string, password: Option<string>,
                            check: (string, string) -> bool): Option<User>
  {
    match FindByEmail(users, email)
    case None => None
    case Some(u) =>
      if !u.isActive then None
      else if password.Some? && check(u.passwordHash, password.value) then Some(u)
      else None
  }

  /** A user is returned exactly when the email is theirs, they are active and the password checks. */
  lemma AuthenticateIff(users: seq<User>, email: string, password: Option<string>,
                        check: (string, string) -> bool, u: User)
    ensures AuthenticateUser(users, email, password, check) == Some(u) <==>
      && FindByEmail(users, email) == Some(u) && u.isActive
      && password.Some? && check(u.passwordHash, password.value)
  {
  }

  /** An unknown email or an inactive account is refused before the password is looked at. */
  lemma RefusedBeforePasswordCheck(users: seq<User>, email: string, p1: Option<string>, c1: (string, string) -> bool,
                                   p2: Option<string>, c2: (string, string) -> bool)
    requires FindByEmail(users, email).None? || !FindByEmail(users, email).value.isActive
    ensures AuthenticateUser(users, email, p1, c1) == None == AuthenticateUser(users, email, p2, c2)
  {
  }

  // ----- create_user -----

  datatype CreateError =
    | RoleNotFound(role: string)   // the ValueError raised when the role is not in the roles table
    | PasswordMissing              // hashing a missing password raises
    | DuplicateUser                // the IntegrityError of the unique email and username indexes

  /**
   * The record create_user inserts, with its defaults filled in, or the error it
   * raises before the insert: the institution defaults to "Unknown Institution",
   * the role must exist, and an unspecified is_admin follows the role.
   */
  function NewUser(id: nat, firstName: string, lastName: string, email: string, username: string,
                   institution: Option<string>, password: Option<string>, role: string,
                   isActive: bool, isAdmin: Option<bool>, roles: set<string>,
                   hash: string -> string): Result<User, CreateError>
  {
    var inst := institution.GetOr(DEFAULT_INSTITUTION);
    if role !in roles then Err(RoleNotFound(role))
    else
      var admin := isAdmin.GetOr(role == ADMIN_ROLE);
      match password
      case None => Err(PasswordMissing)
      case Some(p) => Ok(User(id, firstName, lastName, email, username, inst, hash(p), role, admin, isActive))
  }

  lemma NewUserDefaults(id: nat, firstName: string, lastName: string, email: string, username: string,
                        institution: Option<string>, password: Option<string>, role: string,
                        isActive: bool, isAdmin: Option<bool>, roles: set<string>, hash: string -> string)
    ensures var r := NewUser(id, firstName, lastName, email, username, institution, password, role,
                             isActive, isAdmin, roles, hash);
      && (role !in roles ==> r == Err(RoleNotFound(role)))
      && (role in roles && password.None? ==> r == Err(PasswordMissing))
      && (r.Ok? ==>
            && r.value.institution == (if institution.None? then DEFAULT_INSTITUTION else institution.value)
            && r.value.isAdmin == (if isAdmin.None? then role == ADMIN_ROLE else isAdmin.value)
            && r.value.role == role && r.value.isActive == isActive
            && r.value.passwordHash == hash(password.value))
  {
  }

  /** Some existing user already has this email or this username. */
  predicate Clashes(users: seq<User>, u: User) {
    exists i :: 0 <= i < |users| && (users[i].email == u.email || users[i].username == u.username)
  }

  // ----- change_user_status and logout -----

  /** What the body of a service method raised: an HTTP abort, or any other exception. */
  datatype Raised = HttpAbort(code: nat) | Unexpected

  /**
   * `except Exception: abort(500)` as written. An HTTP abort raised inside the
   * `try` is itself an Exception, so the handler catches it too.
   */
  function HandleAsWritten<T>(body: Result<T, Raised>): (r: Result<T, nat>)
    ensures r.Ok? <==> body.Ok?
    ensures r.Err? ==> r.error == 500
  {
    match body
    case Ok(v) => Ok(v)
    case Err(_) => Err(500)
  }

  /** The handler as intended: a deliberate abort keeps its status, anything else is a 500. */
  function Handle<T>(body: Result<T, Raised>): (r: Result<T, nat>)
    ensures r.Ok? <==> body.Ok?
    ensures body.Ok? ==> r.value == body.value
    ensures body.Err? && body.error.HttpAbort? ==> r == Err(body.error.code)
    ensures body == Err(Unexpected) ==> r == Err(500)
  {
    match body
    case Ok(v) => Ok(v)
    case Err(HttpAbort(code)) => Err(code)
    case Err(Unexpected) => Err(500)
  }

  /**
   * The body of change_user_status: a missing user aborts with 404; the result
   * says whether the status changes (False when it already has that value).
   */
  function StatusChangeBody(users: seq<User>, userId: nat, isActive: bool): Result<bool, Raised> {
    match FindById(users, userId)
    case None => Err(HttpAbort(404))
    case Some(u) => Ok(u.isActive != isActive)
  }

  /** The body of logout: a missing user aborts with 404, otherwise True. */
  function LogoutBody(users: seq<User>, userId: nat): Result<bool, Raised> {
    if FindById(users, userId).None? then Err(HttpAbort(404)) else Ok(true)
  }

  /**
   * The 404 of a missing user never reaches the client as written: it turns
   * into a 500. The corrected handler keeps the 404.
   */
  lemma MissingUserStatus(users: seq<User>, userId: nat, isActive: bool)
    requires FindById(users, userId).None?
    ensures HandleAsWritten(StatusChangeBody(users, userId, isActive)) == Err(500)
    ensures HandleAsWritten(LogoutBody(users, userId)) == Err(500)
    ensures Handle(StatusChangeBody(users, userId, isActive)) == Err(404)
    ensures Handle(LogoutBody(users, userId)) == Err(404)
  {
  }

  /** For a user that exists nothing is raised, so the two handlers agree. */
  lemma HandlersAgreeOnExistingUser(users: seq<User>, userId: nat, isActive: bool)
    requires FindById(users, userId).Some?
    ensures HandleAsWritten(StatusChangeBody(users, userId, isActive)) == Handle(StatusChangeBody(users, userId, isActive))
      == Ok(FindById(users, userId).value.isActive != isActive)
    ensures HandleAsWritten(LogoutBody(users, userId)) == Handle(LogoutBody(users, userId)) == Ok(true)
  {
  }

  /** The users with `is_active` of user id set to b. */
  function SetActive(users: seq<User>, id: nat, b: bool): (r: seq<User>)
    ensures |r| == |users|
    ensures forall i :: 0 <= i < |users| ==>
      r[i] == if users[i].id == id then users[i].(isActive := b) else users[i]
  {
    seq(|users|, i requires 0 <= i < |users| => if users[i].id == id then users[i].(isActive := b) else users[i])
  }

  /** After the switch the user reads back with the new status and everyone else as before. */
  lemma {:induction false} SetActiveLookup(users: seq<User>, id: nat, b: bool, other: nat)
    ensures FindById(SetActive(users, id, b), id) ==
      (if FindById(users, id).Some? then Some(FindById(users, id).value.(isActive := b)) else None)
    ensures other != id ==> FindById(SetActive(users, id, b), other) == FindById(users, other)
    decreases |users|
  {
    if users != [] {
      assert SetActive(users, id, b)[1..] == SetActive(users[1..], id, b);
      SetActiveLookup(users[1..], id, b, other);
    }
  }

  /** Ids are assigned below nextId; ids, emails and usernames are unique (data.py). */
  ghost predicate WellFormed(users: seq<User>, nextId: nat) {
    && nextId > 0
    && (forall i :: 0 <= i < |users| ==> 0 < users[i].id < nextId)
    && (forall i, j :: 0 <= i < j < |users| ==>
          users[i].id != users[j].id && users[i].email != users[j].email
          && users[i].username != users[j].username)
  }

  /** A status change keeps ids, emails and usernames, so the table stays well formed. */
  lemma SetActiveWellFormed(users: seq<User>, nextId: nat, id: nat, b: bool)
    requires WellFormed(users, nextId)
    ensures WellFormed(SetActive(users, id, b), nextId)
  {
    var r := SetActive(users, id, b);
    assert forall i :: 0 <= i < |users| ==>
      r[i].id == users[i].id && r[i].email == users[i].email && r[i].username == users[i].username;
  }

  // ----- allowed_file -----

  /**
   * allowed_file: the lowercased name has a '.', the text after its last '.' is
   * an allowed extension, and the sniffed image type (`imghdr.what`, None when
   * unrecognised) is allowed too.
   */
  function AllowedFile(filename: string, detected: Option<string>): bool {
    match SplitLast(Lower(filename), '.')
    case None => false
    case Some((_, ext)) => ext in ALLOWED_EXTENSIONS && detected.Some? && detected.value in ALLOWED_EXTENSIONS
  }

  /** A name `base.ext` passes exactly when ext, lowercased, and the sniffed type are allowed. */
  lemma AllowedFileIff(base: string, ext: string, detected: Option<string>)
    requires '.' !in ext
    ensures AllowedFile(base + "." + ext, detected) <==>
      Lower(ext) in ALLOWED_EXTENSIONS && detected.Some? && detected.value in ALLOWED_EXTENSIONS
  {
    LowerJoin(base, '.', ext);
    assert '.' !in Lower(ext) by {
      forall i | 0 <= i < |ext| ensures Lower(ext)[i] != '.' {
        assert ext[i] != '.';
      }
    }
    SplitLastOfJoin(Lower(base), '.', Lower(ext));
  }

  /** A name without a '.' never passes. */
  lemma NoDotRejected(filename: string, detected: Option<string>)
    requires '.' !in filename
    ensures !AllowedFile(filename, detected)
  {
    assert '.' !in Lower(filename) by {
      forall i | 0 <= i < |filename| ensures Lower(filename)[i] != '.' {
        assert filename[i] != '.';
      }
    }
  }

  /** The users and roles tables. */
  class UserDb {
    var users: seq<User>
    var roles: set<string>
    var nextId: nat

    ghost predicate Valid()
      reads this
    {
      WellFormed(users, nextId)
    }

    /** An empty users table beside a roles table seeded with the given names. */
    constructor (seededRoles: set<string>)
      ensures Valid() && users == [] && roles == seededRoles && nextId == 1
    {
      users, roles, nextId := [], seededRoles, 1;
    }

    method Authenticate(email: string, password: Option<string>, check: (string, string) -> bool)
      returns (r: Option<User>)
      ensures r == AuthenticateUser(users, email, password, check)
    {
      var found := FindByEmail(users, email);
      if found.None? || !found.value.isActive {
        return None;
      }
      if password.Some? && check(found.value.passwordHash, password.value) {
        return found;
      }
      r := None;
    }

    /** create_user: the insert fails on a clash with an existing email or username. */
    method CreateUser(firstName: string, lastName: string, email: string, username: string,
                      institution: Option<string>, password: Option<string>, hash: string -> string,
                      role: string := DEFAULT_ROLE, isActive: bool := true, isAdmin: Option<bool> := None)
      returns (r: Result<User, CreateError>)
      requires Valid()
      modifies this
      ensures Valid() && roles == old(roles)
      ensures var planned := NewUser(old(nextId), firstName, lastName, email, username, institution,
                                     password, role, isActive, isAdmin, old(roles), hash);
        && (planned.Err? ==> r == planned && users == old(users) && nextId == old(nextId))
        && (planned.Ok? && Clashes(old(users), planned.value) ==>
              r == Err(DuplicateUser) && users == old(users) && nextId == old(nextId))
        && (planned.Ok? && !Clashes(old(users), planned.value) ==>
              r == planned && users == old(users) + [planned.value] && nextId == old(nextId) + 1)
    {
      var planned := NewUser(nextId, firstName, lastName, email, username, institution,
                             password, role, isActive, isAdmin, roles, hash);
      if planned.Err? {
        return planned;
      }
      var u := planned.value;
      var i := 0;
      while i < |users|
        invariant 0 <= i <= |users|
        invariant forall k :: 0 <= k < i ==> users[k].email != u.email && users[k].username != u.username
      {
        if users[i].email == u.email || users[i].username == u.username {
          return Err(DuplicateUser);
        }
        i := i + 1;
      }
      users := users + [u];
      nextId := nextId + 1;
      r := planned;
    }

    /**
     * change_user_status as written: the 404 abort of a missing user is caught
     * by the method's own handler and answered with 500. An unchanged
     * status gives False and touches nothing; otherwise the status is saved and,
     * when deactivating with a nonempty token, the token is blacklisted for the
     * default TTL.
     */
    method ChangeUserStatus(userId: nat, isActive: bool, token: Option<string>, store: TokenStore.Store)
      returns (r: Result<bool, nat>)
      requires Valid()
      modifies this, store
      ensures Valid() && roles == old(roles) && nextId == old(nextId)
      ensures r == HandleAsWritten(StatusChangeBody(old(users), userId, isActive))
      ensures users == if r == Ok(true) then SetActive(old(users), userId, isActive) else old(users)
      ensures store.State() ==
        if r == Ok(true) && !isActive && token.Some? && token.value != ""
        then TokenStore.SetEx(old(store.State()), token.value, TokenStore.DEFAULT_BLACKLIST_TTL).value
        else old(store.State())
    {
      var found := FindById(users, userId);
      if found.None? {
        return Err(500);
      }
      if found.value.isActive == isActive {
        return Ok(false);
      }
      SetActiveWellFormed(users, nextId, userId, isActive);
      users := SetActive(users, userId, isActive);
      if token.Some? && token.value != "" && !isActive {
        var _ := store.BlacklistToken(token.value);
      }
      r := Ok(true);
    }

    /**
     * logout as written: the presented token is blacklisted for an hour; the 404
     * abort of a missing user is caught by the method's own handler and
     * answered with 500.
     */
    method Logout(userId: nat, token: string, store: TokenStore.Store) returns (r: Result<bool, nat>)
      modifies store
      ensures r == HandleAsWritten(LogoutBody(users, userId))
      ensures store.State() ==
        if r.Ok? then TokenStore.SetEx(old(store.State()), token, TokenStore.DEFAULT_BLACKLIST_TTL).value
        else old(store.State())
    {
      if FindById(users, userId).None? {
        return Err(500);
      }
      var _ := store.BlacklistToken(token);
      r := Ok(true);
    }
  }
}
