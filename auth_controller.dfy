/**
 * The authentication handlers over the user collection: sign-up (always as
 * "user"), adding an admin (admins only), log-in by exact e-mail and
 * password comparison, reading and partially updating the caller's profile,
 * and idempotent seeding of the configured admin account.
 *
 * The caller identity that the token middleware attaches to the request is
 * an input; the signed token is the pair (id, role) it encodes.
 */
module AuthController {
  import opened Js
  import opened Strings
  import opened UserModel

  /** `jwt.sign({ id, role }, secret, { expiresIn: "7d" })`, seen only through what it encodes. */
  datatype Token = Signed(id: nat, role: Role)

  /** What the token middleware reads back from a token is the id and role it was signed with. */
  function GenerateToken(id: nat, role: Role): (t: Token)
    ensures t.id == id && t.role == role
  {
    Signed(id, role)
  }

  /** The user projection returned by sign-up, add-admin and log-in: it has no password field. */
  datatype PublicUser = PublicUser(id: nat, name: string, email: string, role: Role)

  /** The projection returned by the profile handlers. */
  datatype Profile = Profile(id: nat, name: string, email: string, role: Role, avatarUrl: string)

  /** The JSON body of sign-up, add-admin and log-in; absent fields are "". A `role` sent by the client is carried but never read. */
  datatype AuthBody = AuthBody(name: string, email: string, password: string, role: string)

  /** The JSON body of a profile update; absent fields are "". */
  datatype ProfileBody = ProfileBody(name: string, avatarUrl: string, password: string)

  datatype Reply = Reply(status: nat, message: string, token: Option<Token>, user: Option<PublicUser>)

  datatype ProfileReply = ProfileReply(status: nat, message: string, profile: Option<Profile>)

  const MsgProvideAll := "Please provide all fields"
  const MsgExists := "User already exists"
  const MsgRegistered := "✅ User registered successfully"
  const MsgOnlyAdmins := "❌ Only admins can create another admin"
  const MsgAdminAdded := "✅ Admin added successfully"
  const MsgProvideLogin := "Please provide email and password"
  const MsgInvalid := "Invalid email or password"
  const MsgLoggedIn := "✅ Login successful"
  const MsgNotFound := "User not found"
  const MsgProfileUpdated := "✅ Profile updated successfully"
  const MsgUpdateError := "Error updating profile"
  const MsgAdminExists := "⚠️ Admin already exists"
  const MsgAdminSeeded := "✅ Admin user created successfully"
  const MsgSeedError := "Error seeding admin"
  const AdminName := "Admin"

  function Project(u: User): (p: PublicUser)
    ensures p.id == u.id && p.name == u.name && p.email == u.email && p.role == u.role
  {
    PublicUser(u.id, u.name, u.email, u.role)
  }

  /** `email.split("@")[0]`: the text before the first "@", or all of it. */
  function LocalPart(email: string): (r: string)
    ensures IsPrefix(r, email) && '@' !in r
    ensures |r| == |email| || email[|r|] == '@'
  {
    FirstPiece(email, '@');
    Split(email, '@')[0]
  }

  /** GET /profile: 404 without a resolved caller, else the caller's projection with `avatarUrl || ""`. */
  function GetProfile(caller: Option<User>): (r: ProfileReply)
    ensures caller.None? ==> r == ProfileReply(404, MsgNotFound, None)
    ensures caller.Some? ==> r.status == 200 && r.profile.Some?
    ensures caller.Some? ==> var u := caller.value; var p := r.profile.value;
      p.id == u.id && p.name == u.name && p.email == u.email && p.role == u.role && p.avatarUrl == u.avatarUrl
  {
    match caller
    case None => ProfileReply(404, MsgNotFound, None)
    case Some(u) => ProfileReply(200, "", Some(Profile(u.id, u.name, u.email, u.role, OrElse(u.avatarUrl, ""))))
  }

  /** The store after GET /seed-admin, with `email` and `password` taken from the configuration ("" when unset). */
  function SeedUsers(users: seq<User>, nextId: nat, email: string, password: string): (r: seq<User>)
    ensures |users| <= |r| <= |users| + 1 && r[..|users|] == users
    ensures |r| == |users| + 1 <==> FindByEmail(users, email).None? && email != "" && password != ""
    ensures |r| == |users| + 1 ==> r[|users|] == User(nextId, AdminName, email, password, AdminRole, "")
  {
    if FindByEmail(users, email).Some? then users
    else match CreateUser(nextId, UserDoc(AdminName, email, password, Some("admin")))
      case None => users
      case Some(u) => users + [u]
  }

  /** Seeding a second time changes nothing, whatever id the store would hand out next. */
  lemma SeedIdempotent(users: seq<User>, nextId: nat, nextId': nat, email: string, password: string)
    ensures SeedUsers(SeedUsers(users, nextId, email, password), nextId', email, password)
         == SeedUsers(users, nextId, email, password)
  {
    var once := SeedUsers(users, nextId, email, password);
    if FindByEmail(users, email).None? && email != "" && password != "" {
      assert once[|once| - 1].email == email;
    }
  }

  /**
   * After one or two seedings with a usable configuration exactly one user has
   * the admin e-mail; it was created as an admin named "Admin" unless some user
   * (of any role) already had that address.
   */
  lemma SeedLeavesOne(users: seq<User>, nextId: nat, nextId': nat, email: string, password: string)
    requires UniqueEmails(users)
    requires email != "" && password != ""
    ensures var once := SeedUsers(users, nextId, email, password);
      && UniqueEmails(once)
      && CountEmail(once, email) == 1
      && CountEmail(SeedUsers(once, nextId', email, password), email) == 1
      && (FindByEmail(users, email).None? ==>
            once == users + [User(nextId, AdminName, email, password, AdminRole, "")])
  {
    var once := SeedUsers(users, nextId, email, password);
    if FindByEmail(users, email).None? {
      AppendKeepsUnique(users, once[|once| - 1]);
      assert once[|once| - 1].email == email;
      assert FindByEmail(once, email).Some?;
    }
    UniqueCount(once, email);
    SeedIdempotent(users, nextId, nextId', email, password);
  }

  /** The user collection. */
  class UserStore {
    var users: seq<User>
    var nextId: nat

    /** E-mails are unique, every stored user passed schema validation, ids are distinct and below `nextId`. */
    ghost predicate Valid()
      reads this
    {
      && UniqueEmails(users)
      && (forall i :: 0 <= i < |users| ==> ValidUser(users[i]) && users[i].id < nextId)
      && (forall i, j :: 0 <= i < j < |users| ==> users[i].id != users[j].id)
    }

    constructor ()
      ensures Valid() && users == [] && nextId == 0
    {
      users := [];
      nextId := 0;
    }

    /** `new User(doc).save()` for a document that passes validation under a fresh id. */
    method Insert(u: User)
      requires Valid() && ValidUser(u) && u.id == nextId
      requires FindByEmail(users, u.email).None?
      modifies this
      ensures Valid()
      ensures users == old(users) + [u] && nextId == old(nextId) + 1
    {
      AppendKeepsUnique(users, u);
      users := users + [u];
      nextId := nextId + 1;
    }

    /** POST /signup */
    method Signup(body: AuthBody) returns (reply: Reply)
      requires Valid()
      modifies this
      ensures Valid()
      ensures body.name == "" || body.email == "" || body.password == "" ==>
        reply == Reply(400, MsgProvideAll, None, None) && users == old(users) && nextId == old(nextId)
      ensures body.name != "" && body.email != "" && body.password != ""
              && FindByEmail(old(users), body.email).Some? ==>
        reply == Reply(400, MsgExists, None, None) && users == old(users) && nextId == old(nextId)
      ensures body.name != "" && body.email != "" && body.password != ""
              && FindByEmail(old(users), body.email).None? ==>
        var u := User(old(nextId), body.name, body.email, body.password, UserRole, "");
        && users == old(users) + [u]
        && nextId == old(nextId) + 1
        && reply == Reply(201, MsgRegistered, Some(GenerateToken(u.id, UserRole)), Some(Project(u)))
    {
      if body.name == "" || body.email == "" || body.password == "" {
        return Reply(400, MsgProvideAll, None, None);
      }
      var existing := FindByEmail(users, body.email);
      if existing.Some? {
        return Reply(400, MsgExists, None, None);
      }
      var created := CreateUser(nextId, UserDoc(body.name, body.email, body.password, Some("user")));
      var u := created.value;
      Insert(u);
      reply := Reply(201, MsgRegistered, Some(GenerateToken(u.id, u.role)), Some(Project(u)));
    }

    /** POST /add-admin; the caller check comes before any field check. */
    method AddAdmin(caller: Option<User>, body: AuthBody) returns (reply: Reply)
      requires Valid()
      modifies this
      ensures Valid()
      ensures caller.None? || caller.value.role != AdminRole ==>
        reply == Reply(403, MsgOnlyAdmins, None, None) && users == old(users) && nextId == old(nextId)
      ensures caller.Some? && caller.value.role == AdminRole
              && (body.name == "" || body.email == "" || body.password == "") ==>
        reply == Reply(400, MsgProvideAll, None, None) && users == old(users) && nextId == old(nextId)
      ensures caller.Some? && caller.value.role == AdminRole
              && body.name != "" && body.email != "" && body.password != ""
              && FindByEmail(old(users), body.email).Some? ==>
        reply == Reply(400, MsgExists, None, None) && users == old(users) && nextId == old(nextId)
      ensures caller.Some? && caller.value.role == AdminRole
              && body.name != "" && body.email != "" && body.password != ""
              && FindByEmail(old(users), body.email).None? ==>
        var u := User(old(nextId), body.name, body.email, body.password, AdminRole, "");
        && users == old(users) + [u]
        && nextId == old(nextId) + 1
        && reply == Reply(201, MsgAdminAdded, None, Some(Project(u)))
    {
      if caller.None? || caller.value.role != AdminRole {
        return Reply(403, MsgOnlyAdmins, None, None);
      }
      if body.name == "" || body.email == "" || body.password == "" {
        return Reply(400, MsgProvideAll, None, None);
      }
      var existing := FindByEmail(users, body.email);
      if existing.Some? {
        return Reply(400, MsgExists, None, None);
      }
      var created := CreateUser(nextId, UserDoc(body.name, body.email, body.password, Some("admin")));
      var u := created.value;
      Insert(u);
      reply := Reply(201, MsgAdminAdded, None, Some(Project(u)));
    }

    /**
     * POST /login: 400 when e-mail or password is missing; 200 exactly when a
     * user has that e-mail and a password equal to the submitted one, with the
     * name falling back to the e-mail's local part; 401 otherwise.
     */
    method Login(body: AuthBody) returns (reply: Reply)
      requires Valid()
      ensures body.email == "" || body.password == "" ==> reply == Reply(400, MsgProvideLogin, None, None)
      ensures body.email != "" && body.password != "" ==>
        (reply.status == 200 <==>
          exists i :: 0 <= i < |users| && users[i].email == body.email && users[i].password == body.password)
      ensures body.email != "" && body.password != "" && reply.status != 200 ==>
        reply == Reply(401, MsgInvalid, None, None)
      ensures reply.status == 200 ==>
        exists i :: 0 <= i < |users| && users[i].email == body.email && users[i].password == body.password
          && reply == Reply(200, MsgLoggedIn, Some(GenerateToken(users[i].id, users[i].role)),
                            Some(PublicUser(users[i].id, OrElse(users[i].name, LocalPart(body.email)),
                                            users[i].email, users[i].role)))
    {
      if body.email == "" || body.password == "" {
        return Reply(400, MsgProvideLogin, None, None);
      }
      var found := FindByEmail(users, body.email);
      if found.None? || users[found.value].password != body.password {
        return Reply(401, MsgInvalid, None, None);
      }
      var u := users[found.value];
      reply := Reply(200, MsgLoggedIn, Some(GenerateToken(u.id, u.role)),
                     Some(PublicUser(u.id, OrElse(u.name, LocalPart(body.email)), u.email, u.role)));
    }

    /**
     * PUT /profile: name and avatar are replaced only by non-empty values, the
     * password only when one is given; e-mail, role and id never change, and no
     * other user is touched.
     */
    method UpdateProfile(callerId: Option<nat>, body: ProfileBody) returns (reply: ProfileReply)
      requires Valid()
      modifies this
      ensures Valid() && nextId == old(nextId)
      ensures callerId.None? ==> reply == ProfileReply(500, MsgUpdateError, None) && users == old(users)
      ensures callerId.Some? && FindById(old(users), callerId.value).None? ==>
        reply == ProfileReply(404, MsgNotFound, None) && users == old(users)
      ensures callerId.Some? && FindById(old(users), callerId.value).Some? ==>
        var i := FindById(old(users), callerId.value).value;
        var u := old(users)[i];
        var u' := u.(name := OrElse(body.name, u.name),
                     avatarUrl := OrElse(body.avatarUrl, u.avatarUrl),
                     password := if body.password != "" then body.password else u.password);
        && users == old(users)[i := u']
        && reply == ProfileReply(200, MsgProfileUpdated, Some(Profile(u'.id, u'.name, u'.email, u'.role, u'.avatarUrl)))
    {
      if callerId.None? {
        // `req.user._id` with no user attached throws, and the handler answers 500.
        return ProfileReply(500, MsgUpdateError, None);
      }
      var found := FindById(users, callerId.value);
      if found.None? {
        return ProfileReply(404, MsgNotFound, None);
      }
      var i := found.value;
      var u := users[i];
      u := u.(name := OrElse(body.name, u.name));
      u := u.(avatarUrl := OrElse(body.avatarUrl, u.avatarUrl));
      if body.password != "" {
        u := u.(password := body.password);
      }
      users := users[i := u];
      reply := ProfileReply(200, MsgProfileUpdated, Some(Profile(u.id, u.name, u.email, u.role, OrElse(u.avatarUrl, ""))));
    }

    /** GET /seed-admin, with the configured e-mail and password ("" when unset). */
    method SeedAdmin(adminEmail: string, adminPassword: string) returns (message: string)
      requires Valid()
      modifies this
      ensures Valid()
      ensures users == SeedUsers(old(users), old(nextId), adminEmail, adminPassword)
      ensures FindByEmail(old(users), adminEmail).Some? ==>
        message == MsgAdminExists && users == old(users) && nextId == old(nextId)
      ensures FindByEmail(old(users), adminEmail).None? && (adminEmail == "" || adminPassword == "") ==>
        message == MsgSeedError && users == old(users) && nextId == old(nextId)
      ensures FindByEmail(old(users), adminEmail).None? && adminEmail != "" && adminPassword != "" ==>
        message == MsgAdminSeeded && nextId == old(nextId) + 1
    {
      var existing := FindByEmail(users, adminEmail);
      if existing.Some? {
        return MsgAdminExists;
      }
      var created := CreateUser(nextId, UserDoc(AdminName, adminEmail, adminPassword, Some("admin")));
      if created.None? {
        // The schema refuses a missing e-mail or password and the handler answers 500.
        return MsgSeedError;
      }
      Insert(created.value);
      message := MsgAdminSeeded;
    }
  }

  /** Two seedings in a row leave exactly one account with the admin e-mail. */
  method SeedTwice(store: UserStore, adminEmail: string, adminPassword: string)
    requires store.Valid()
    requires adminEmail != "" && adminPassword != ""
    modifies store
    ensures store.Valid()
    ensures CountEmail(store.users, adminEmail) == 1
  {
    ghost var before, id0 := store.users, store.nextId;
    var _ := store.SeedAdmin(adminEmail, adminPassword);
    ghost var id1 := store.nextId;
    var _ := store.SeedAdmin(adminEmail, adminPassword);
    SeedLeavesOne(before, id0, id1, adminEmail, adminPassword);
  }
}
