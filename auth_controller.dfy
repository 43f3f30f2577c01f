/**
 * The account handlers (backend/src/controllers/auth.controller.js) over an in-memory
 * `users` collection: registration (input checks, the conflict lookup, the schema, the
 * unique indexes), login (one uniform refusal for an unknown account and a wrong
 * password) and the avatar upload (the picture stored as a base 64 `data:` URL).
 * Password hashing and checking are the parameters `hash` and `verify`; the JWT cookie is
 * not modelled.
 */
module AuthController {
  import opened Options
  import opened Text
  import ObjectIds
  import opened Bytes
  import opened Base64
  import opened Results
  import opened UserModel

  const MinPasswordLength := 6

  /** The user as every auth reply shows it: never the password hash. */
  datatype UserView = UserView(id: string, username: string, email: string, avatarUrl: string, createdAt: nat)

  /** An uploaded file as multer's memory storage hands it over. */
  datatype UploadedFile = UploadedFile(mimetype: string, buffer: seq<byte>)

  function ViewOf(u: User): UserView {
    UserView(u.id, u.username, u.email, u.avatarUrl, u.createdAt)
  }

  /** `!value` for a body field that is either a string or absent. */
  predicate Falsy(v: Option<string>) {
    v.None? || v.value == []
  }

  /** The message for a duplicate-key error on `field`: its name capitalised, then " already in use". */
  function DuplicateKeyMessage(field: string): (m: string)
    ensures |m| == |field| + |" already in use"|
    ensures field != [] ==> m[0] == UpperChar(field[0]) && m[1..|field|] == field[1..]
    ensures m[|field|..] == " already in use"
  {
    Capitalize(field) + " already in use"
  }

  /** The unique paths a duplicate-key error names, in the order the schema declares them. */
  lemma DuplicateKeyMessages()
    ensures DuplicateKeyMessage("username") == "Username already in use"
    ensures DuplicateKeyMessage("email") == "Email already in use"
  {
    assert UpperChar('u') == 'U' && UpperChar('e') == 'E';
    CapitalizedName("username", "Username");
    CapitalizedName("email", "Email");
    assert Capitalize("username") + " already in use" == "Username already in use";
    assert Capitalize("email") + " already in use" == "Email already in use";
  }

  /**
   * `User.findOne({ $or: [{ email }, { username }] })` after the schema's query setters: the
   * first user, in collection order, whose username or e-mail matches.
   */
  function FindByNameOrEmail(users: seq<User>, name: string, mail: string): (r: Option<nat>)
    ensures r.Some? ==> r.value < |users| && (users[r.value].username == name || users[r.value].email == mail)
    ensures r.Some? ==> forall k :: 0 <= k < r.value ==> users[k].username != name && users[k].email != mail
    ensures r.None? <==> forall k :: 0 <= k < |users| ==> users[k].username != name && users[k].email != mail
  {
    if users == [] then None
    else if users[0].username == name || users[0].email == mail then Some(0)
    else
      var r := FindByNameOrEmail(users[1..], name, mail);
      if r.None? then None else Some(r.value + 1)
  }

  /**
   * The conflict check of `register`: the user the lookup finds is compared with the raw
   * request fields, e-mail first, then username.
   */
  function Conflict(users: seq<User>, username: string, email: string): (m: Option<string>)
    ensures m.Some? ==> exists k :: 0 <= k < |users| && (users[k].email == email || users[k].username == username)
    ensures m.Some? ==> m.value == "Email already in use" || m.value == "Username already taken"
    ensures m == Some("Email already in use") ==> exists k :: 0 <= k < |users| && users[k].email == email
    ensures m == Some("Username already taken") ==>
      exists k :: 0 <= k < |users| && users[k].username == username && users[k].email != email
  {
    var found := FindByNameOrEmail(users, Trim(username), NormalEmail(email));
    if found.None? then None
    else if users[found.value].email == email then Some("Email already in use")
    else if users[found.value].username == username then Some("Username already taken")
    else None
  }

  /**
   * For fields already in stored form the check is exact: it reports a conflict exactly when
   * some user has that e-mail or that username, and it names the e-mail when the first user
   * found has it.
   */
  lemma ConflictExact(users: seq<User>, username: string, email: string)
    requires UniqueUsers(users)
    requires Trim(username) == username && NormalEmail(email) == email
    ensures Conflict(users, username, email).Some? <==>
      exists k :: 0 <= k < |users| && (users[k].email == email || users[k].username == username)
    ensures (exists k :: 0 <= k < |users| && users[k].email == email && users[k].username == username) ==>
      Conflict(users, username, email) == Some("Email already in use")
    ensures ((exists k :: 0 <= k < |users| && users[k].username == username) &&
             (forall k :: 0 <= k < |users| ==> users[k].email != email)) ==>
      Conflict(users, username, email) == Some("Username already taken")
  {
    var found := FindByNameOrEmail(users, username, email);
    assert Conflict(users, username, email).Some? <==> found.Some?;
    if exists k :: 0 <= k < |users| && users[k].email == email && users[k].username == username {
      var k :| 0 <= k < |users| && users[k].email == email && users[k].username == username;
      FirstOfBoth(users, username, email, k);
    }
  }

  /** With unique names and addresses, a user holding both is the one the lookup finds. */
  lemma FirstOfBoth(users: seq<User>, name: string, mail: string, k: nat)
    requires UniqueUsers(users)
    requires k < |users| && users[k].username == name && users[k].email == mail
    ensures FindByNameOrEmail(users, name, mail) == Some(k)
  {
  }

  /** The first user whose username or e-mail equals the given one. */
  function FindByLogin(users: seq<User>, username: Option<string>, email: Option<string>): (r: Option<nat>)
    ensures var name, mail := Trim(username.GetOr("")), NormalEmail(email.GetOr(""));
      && (r.None? <==> forall k :: 0 <= k < |users| ==> users[k].username != name && users[k].email != mail)
      && (r.Some? ==> r.value < |users| && (users[r.value].username == name || users[r.value].email == mail))
  {
    FindByNameOrEmail(users, Trim(username.GetOr("")), NormalEmail(email.GetOr("")))
  }

  /**
   * `login`: the request needs a password and a username or an e-mail; then the first user
   * matching either is asked to `verify` the password against its hash.
   */
  function Login(users: seq<User>, username: Option<string>, email: Option<string>, password: Option<string>,
                 verify: (string, string) -> bool): (r: Result<UserView>)
    ensures (Falsy(username) && Falsy(email)) || Falsy(password) ==>
      r == Err(400, "Please provide username or email, and password")
    ensures r.Ok? <==>
      && !(Falsy(username) && Falsy(email)) && !Falsy(password)
      && FindByLogin(users, username, email).Some?
      && verify(password.value, users[FindByLogin(users, username, email).value].passwordHash)
    ensures r.Ok? ==> r.value == ViewOf(users[FindByLogin(users, username, email).value])
    ensures r.Err? ==> r.status in {400, 401}
    ensures !(Falsy(username) && Falsy(email)) && !Falsy(password) && r.Err? ==> r == Err(401, "Invalid credentials")
  {
    if (Falsy(username) && Falsy(email)) || Falsy(password) then
      Err(400, "Please provide username or email, and password")
    else
      var found := FindByLogin(users, username, email);
      if found.None? then Err(401, "Invalid credentials")
      else if !verify(password.value, users[found.value].passwordHash) then Err(401, "Invalid credentials")
      else Ok(ViewOf(users[found.value]))
  }

  /**
   * An unknown account and a wrong password get the very same reply, so a client cannot
   * tell which usernames or addresses exist.
   */
  lemma LoginRefusalsAlike(users: seq<User>, others: seq<User>, username: Option<string>, email: Option<string>,
                           password: Option<string>, verify: (string, string) -> bool, k: nat)
    requires !(Falsy(username) && Falsy(email)) && !Falsy(password)
    requires k < |users| && FindByLogin(users, username, email) == Some(k)
    requires !verify(password.value, users[k].passwordHash)
    requires FindByLogin(others, username, email).None?
    ensures Login(users, username, email, password, verify) == Login(others, username, email, password, verify)
    ensures Login(others, username, email, password, verify) == Err(401, "Invalid credentials")
  {
  }

  /** `"data:" + mimetype + ";base64," + buffer.toString('base64')`. */
  function DataUrl(mimetype: string, data: seq<byte>): string {
    "data:" + mimetype + ";base64," + Encode(data)
  }

  /** Reads a `data:<type>;base64,<text>` URL back, splitting at its last `;`. */
  function ParseDataUrl(url: string): Option<(string, seq<byte>)> {
    if |url| < 5 || url[..5] != "data:" || ';' !in url[5..] then None
    else
      var rest := url[5..];
      var k := LastIndexOf(rest, ';');
      if |rest| - k < |";base64,"| || rest[k..k + |";base64,"|] != ";base64," then None
      else
        match Decode(rest[k + |";base64,"|..])
        case None => None
        case Some(data) => Some((rest[..k], data))
  }

  /** The last `;` of `m;base64,e` is the one after `m` when `e` has none. */
  lemma SeparatorIsLast(m: string, e: string)
    requires ';' !in e
    ensures ';' in m + ";base64," + e && LastIndexOf(m + ";base64," + e, ';') == |m|
  {
    var sep := ";base64,";
    var rest := m + sep + e;
    assert rest[|m|] == ';';
    assert forall i :: 1 <= i < |sep| ==> sep[i] != ';';
    assert forall i :: |m| < i < |m| + |sep| ==> rest[i] == sep[i - |m|];
    assert forall i :: |m| + |sep| <= i < |rest| ==> rest[i] == e[i - |m| - |sep|];
    var k := LastIndexOf(rest, ';');
    assert !(k > |m|);
    assert !(k < |m|);
  }

  /** The stored avatar URL gives back exactly the uploaded type and bytes. */
  lemma DataUrlRoundTrip(mimetype: string, data: seq<byte>)
    ensures ParseDataUrl(DataUrl(mimetype, data)) == Some((mimetype, data))
  {
    var e := Encode(data);
    EncodeHasNoSemicolon(data);
    UrlParts(mimetype, e);
    SeparatorIsLast(mimetype, e);
    DecodeEncode(data);
  }

  /** Where the scheme, the type, the marker and the text sit in `data:<m>;base64,<e>`. */
  lemma UrlParts(m: string, e: string)
    ensures var url := "data:" + m + ";base64," + e;
      var rest := m + ";base64," + e;
      && |url| >= 5 && url[..5] == "data:" && url[5..] == rest
      && rest[..|m|] == m && rest[|m|..|m| + 8] == ";base64," && rest[|m| + 8..] == e
  {
    var rest := m + ";base64," + e;
    var url := "data:" + m + ";base64," + e;
    assert url == "data:" + rest;
    assert rest[..|m|] == m;
    assert rest[|m|..|m| + 8] == ";base64,";
    assert rest[|m| + 8..] == e;
  }

  /** A new avatar changes none of the constrained or unique fields. */
  lemma AvatarKeepsUsersValid(users: seq<User>, i: nat, url: string)
    requires i < |users| && UniqueUsers(users) && forall k :: 0 <= k < |users| ==> ValidUser(users[k])
    ensures var after := users[i := users[i].(avatarUrl := url)];
      UniqueUsers(after) && forall k :: 0 <= k < |after| ==> ValidUser(after[k])
  {
    AvatarKeepsUnique(users, i, url);
    AvatarKeepsSchema(users, i, url);
  }

  lemma AvatarKeepsUnique(users: seq<User>, i: nat, url: string)
    requires i < |users| && UniqueUsers(users)
    ensures UniqueUsers(users[i := users[i].(avatarUrl := url)])
  {
  }

  lemma AvatarKeepsSchema(users: seq<User>, i: nat, url: string)
    requires i < |users| && forall k :: 0 <= k < |users| ==> ValidUser(users[k])
    ensures var after := users[i := users[i].(avatarUrl := url)];
      forall k :: 0 <= k < |after| ==> ValidUser(after[k])
  {
  }

  /** The unique index on `username` already holds this name. */
  predicate UsernameTaken(users: seq<User>, name: string) {
    exists k :: 0 <= k < |users| && users[k].username == name
  }

  /** The unique index on `email` already holds this address. */
  predicate EmailTaken(users: seq<User>, mail: string) {
    exists k :: 0 <= k < |users| && users[k].email == mail
  }

  lemma AddKeepsSchema(users: seq<User>, u: User)
    requires ValidUser(u) && forall k :: 0 <= k < |users| ==> ValidUser(users[k])
    ensures forall k :: 0 <= k < |users + [u]| ==> ValidUser((users + [u])[k])
  {
  }

  /** The in-memory `users` collection. */
  class UserStore {
    var users: seq<User>

    /** Every stored user passes the schema, and ids, usernames and addresses are unique. */
    ghost predicate Valid()
      reads this
    {
      && UniqueUsers(users)
      && forall k :: 0 <= k < |users| ==> ValidUser(users[k])
    }

    constructor ()
      ensures Valid() && users == []
    {
      users := [];
    }

    /**
     * `register`: presence, password length, the conflict lookup, then `User.create` with the
     * password's hash, which can still fail on the schema (500) or on a unique index (409).
     */
    method Register(username: Option<string>, email: Option<string>, password: Option<string>,
                    newId: string, now: nat, hash: string -> string) returns (r: Result<UserView>)
      requires Valid()
      requires ObjectIds.IsCanonical(newId) && forall k :: 0 <= k < |users| ==> users[k].id != newId
      modifies this
      ensures Valid()
      ensures r.Err? ==> users == old(users)
      ensures Falsy(username) || Falsy(email) || Falsy(password) ==>
        r == Err(400, "Please provide username, email, and password")
      ensures !(Falsy(username) || Falsy(email) || Falsy(password)) && |password.value| < MinPasswordLength ==>
        r == Err(400, "Password must be at least 6 characters")
      ensures !(Falsy(username) || Falsy(email) || Falsy(password)) && |password.value| >= MinPasswordLength ==>
        var conflict := Conflict(old(users), username.value, email.value);
        var cast := CastUser(newId, username.value, email.value, hash(password.value), now);
        if conflict.Some? then r == Err(409, conflict.value)
        else if cast.Invalid? then r == Err(500, "Server error during registration")
        else if UsernameTaken(old(users), cast.user.username) then r == Err(409, "Username already in use")
        else if EmailTaken(old(users), cast.user.email) then r == Err(409, "Email already in use")
        else r == Ok(ViewOf(cast.user)) && users == old(users) + [cast.user]
    {
      if Falsy(username) || Falsy(email) || Falsy(password) {
        return Err(400, "Please provide username, email, and password");
      }
      if |password.value| < MinPasswordLength {
        return Err(400, "Password must be at least 6 characters");
      }
      var conflict := Conflict(users, username.value, email.value);
      if conflict.Some? {
        return Err(409, conflict.value);
      }
      var passwordHash := hash(password.value);
      var cast := CastUser(newId, username.value, email.value, passwordHash, now);
      if cast.Invalid? {
        return Err(500, "Server error during registration");
      }
      var user := cast.user;
      if UsernameTaken(users, user.username) {
        DuplicateKeyMessages();
        return Err(409, DuplicateKeyMessage("username"));
      }
      if EmailTaken(users, user.email) {
        DuplicateKeyMessages();
        return Err(409, DuplicateKeyMessage("email"));
      }
      AddKeepsUnique(users, user);
      AddKeepsSchema(users, user);
      users := users + [user];
      r := Ok(ViewOf(user));
    }

    /**
     * `uploadAvatar`: no file is 400; otherwise the signed-in user's `avatarUrl` becomes the
     * file as a `data:` URL, or 404 if that user no longer exists.
     */
    method UploadAvatar(userId: string, file: Option<UploadedFile>) returns (r: Result<UserView>)
      requires Valid()
      modifies this
      ensures Valid()
      ensures r.Err? ==> users == old(users)
      ensures file.None? ==> r == Err(400, "No file uploaded")
      ensures file.Some? && (forall k :: 0 <= k < |old(users)| ==> old(users)[k].id != userId) ==>
        r == Err(404, "User not found")
      ensures file.Some? && r.Ok? ==>
        exists k ::
          && 0 <= k < |old(users)| && old(users)[k].id == userId
          && users == old(users)[k := old(users)[k].(avatarUrl := DataUrl(file.value.mimetype, file.value.buffer))]
          && r.value == ViewOf(users[k])
      ensures file.Some? && (exists k :: 0 <= k < |old(users)| && old(users)[k].id == userId) ==> r.Ok?
    {
      if file.None? {
        return Err(400, "No file uploaded");
      }
      var avatarUrl := DataUrl(file.value.mimetype, file.value.buffer);
      var i := 0;
      while i < |users| && users[i].id != userId
        invariant 0 <= i <= |users|
        invariant forall k :: 0 <= k < i ==> users[k].id != userId
      {
        i := i + 1;
      }
      if i == |users| {
        return Err(404, "User not found");
      }
      var user := users[i].(avatarUrl := avatarUrl);
      AvatarKeepsUsersValid(users, i, avatarUrl);
      users := users[i := user];
      r := Ok(ViewOf(user));
      assert users[i] == user;
    }
  }
}
