/**
 * The user schema: an optional name, a required e-mail that is unique in
 * the collection, a required password stored exactly as given, and a role
 * drawn from {"user", "admin"} that defaults to "user".
 */
module UserModel {
  import opened Js

  datatype Role = UserRole | AdminRole

  /** The text the schema stores for a role. */
  function RoleName(r: Role): string {
    match r
    case UserRole => "user"
    case AdminRole => "admin"
  }

  /** The schema's enum check on a role text. */
  function ParseRole(s: string): (r: Option<Role>)
    ensures r.Some? <==> s == "user" || s == "admin"
    ensures r.Some? ==> RoleName(r.value) == s
  {
    if s == "user" then Some(UserRole)
    else if s == "admin" then Some(AdminRole)
    else None
  }

  /** Every role survives being written as text and checked back. */
  lemma RoleRoundTrip(r: Role)
    ensures ParseRole(RoleName(r)) == Some(r)
  {
  }

  /** A stored user. An empty `name` or `avatarUrl` stands for an absent one. */
  datatype User = User(id: nat, name: string, email: string, password: string, role: Role, avatarUrl: string)

  /** The fields a handler passes to `new User({...})`; `role` is `None` when left to the default. */
  datatype UserDoc = UserDoc(name: string, email: string, password: string, role: Option<string>)

  /** The required-field checks of the schema (a required string must not be empty). */
  predicate ValidUser(u: User) {
    u.email != "" && u.password != ""
  }

  /**
   * Validation by the schema when a document is saved with id `id`: the
   * document is refused when a required field is empty or the role is outside
   * the enum; otherwise it is stored as given, with role "user" by default.
   */
  function CreateUser(id: nat, doc: UserDoc): (r: Option<User>)
    ensures r.Some? <==> doc.email != "" && doc.password != ""
                         && (doc.role.None? || ParseRole(doc.role.value).Some?)
    ensures r.Some? ==> ValidUser(r.value)
    ensures r.Some? ==> r.value == User(id, doc.name, doc.email, doc.password,
                                        if doc.role.None? then UserRole else ParseRole(doc.role.value).value, "")
  {
    if doc.email == "" || doc.password == "" then None
    else if doc.role.None? then Some(User(id, doc.name, doc.email, doc.password, UserRole, ""))
    else match ParseRole(doc.role.value)
      case None => None
      case Some(role) => Some(User(id, doc.name, doc.email, doc.password, role, ""))
  }

  /** No two users share an e-mail address. */
  predicate UniqueEmails(users: seq<User>) {
    forall i, j :: 0 <= i < j < |users| ==> users[i].email != users[j].email
  }

  /** `User.findOne({ email })`: the position of the first user with that e-mail. */
  function FindByEmail(users: seq<User>, email: string): (r: Option<nat>)
    ensures r.Some? ==> r.value < |users| && users[r.value].email == email
    ensures r.Some? ==> forall j :: 0 <= j < r.value ==> users[j].email != email
    ensures r.None? ==> forall i :: 0 <= i < |users| ==> users[i].email != email
  {
    if users == [] then None
    else if users[0].email == email then Some(0)
    else match FindByEmail(users[1..], email)
      case None => None
      case Some(i) => Some(i + 1)
  }

  /** `User.findById(id)`: the position of the user with that id. */
  function FindById(users: seq<User>, id: nat): (r: Option<nat>)
    ensures r.Some? ==> r.value < |users| && users[r.value].id == id
    ensures r.None? ==> forall i :: 0 <= i < |users| ==> users[i].id != id
  {
    if users == [] then None
    else if users[0].id == id then Some(0)
    else match FindById(users[1..], id)
      case None => None
      case Some(i) => Some(i + 1)
  }

  /** The number of users with e-mail `email`. */
  function CountEmail(users: seq<User>, email: string): nat {
    if users == [] then 0
    else (if users[0].email == email then 1 else 0) + CountEmail(users[1..], email)
  }

  /** In a collection with unique e-mails an address is used at most once, and exactly once when found. */
  lemma {:induction false} UniqueCount(users: seq<User>, email: string)
    requires UniqueEmails(users)
    ensures CountEmail(users, email) <= 1
    ensures CountEmail(users, email) == 1 <==> FindByEmail(users, email).Some?
  {
    if users != [] {
      assert UniqueEmails(users[1..]) by {
        forall i, j | 0 <= i < j < |users| - 1 ensures users[1..][i].email != users[1..][j].email {
          assert users[1..][i] == users[i + 1] && users[1..][j] == users[j + 1];
        }
      }
      UniqueCount(users[1..], email);
      if users[0].email == email {
        NoneCount(users[1..], email);
      }
    }
  }

  /** An address nobody uses is counted zero times. */
  lemma {:induction false} NoneCount(users: seq<User>, email: string)
    requires FindByEmail(users, email).None?
    ensures CountEmail(users, email) == 0
  {
    if users != [] {
      NoneCount(users[1..], email);
    }
  }

  /** Appending a user whose e-mail is not yet used keeps e-mails unique. */
  lemma AppendKeepsUnique(users: seq<User>, u: User)
    requires UniqueEmails(users)
    requires FindByEmail(users, u.email).None?
    ensures UniqueEmails(users + [u])
  {
  }
}
