/**
 * The user document (backend/src/models/User.js): a trimmed username of 3 to 30
 * characters, a trimmed, lower-cased e-mail address of the form `^\S+@\S+\.\S+$`, a
 * required password hash, a default avatar URL and a default bio of at most 200
 * characters.  Usernames and e-mail addresses are unique across the collection.
 */
module UserModel {
  import opened Text
  import ObjectIds

  const MinUsernameLength := 3
  const MaxUsernameLength := 30
  const MaxBioLength := 200
  const DefaultAvatarUrl := "https://ui-avatars.com/api/?name=User&background=0D8ABC&color=fff"
  const DefaultBio := "Welcome to my profile! \U{1F44B} Sharing thoughts and ideas."

  datatype User = User(
    id: string,
    username: string,
    email: string,
    passwordHash: string,
    avatarUrl: string,
    bio: string,
    createdAt: nat)

  /** The outcome of the schema's setters and validators on a new user. */
  datatype Validated = Valid(user: User) | Invalid(message: string)

  /**
   * `^\S+@\S+\.\S+$`: no white space at all, an `@` with something before it, and a later
   * `.` with something between the two and something after it.
   */
  predicate EmailPattern(s: string) {
    && NoSpace(s)
    && exists i, j :: 1 <= i && i + 2 <= j && j + 2 <= |s| && s[i] == '@' && s[j] == '.'
  }

  predicate NoUpper(s: string) {
    forall i :: 0 <= i < |s| ==> !IsUpper(s[i])
  }

  /** The e-mail setters: `lowercase` and `trim`. */
  function NormalEmail(s: string): (r: string)
    ensures NoUpper(r) && Unpadded(r)
    ensures r == [] <==> IsBlank(s)
  {
    NormalForm(s);
    Lower(Trim(s))
  }

  /** Lower-casing a trimmed string leaves no capitals and no outer white space. */
  lemma NormalForm(s: string)
    ensures var r := Lower(Trim(s)); NoUpper(r) && Unpadded(r) && Trim(r) == r
  {
    var t := Trim(s);
    var r := Lower(t);
    if r != [] {
      LowerKeepsMarks(t, 0);
      LowerKeepsMarks(t, |t| - 1);
    }
    TrimUnpadded(r);
  }

  /** The normal form is the lower case of what lies between the outer white space. */
  lemma NormalSlice(s: string)
    ensures var r, k := NormalEmail(s), LeadingSpaces(s);
      && k + |r| <= |s| && IsBlank(s[..k]) && IsBlank(s[k + |r|..])
      && forall i :: 0 <= i < |r| ==> r[i] == LowerChar(s[k + i])
  {
    TrimIsMaximal(s);
    TrimChars(s);
    LowerOfInfix(s, LeadingSpaces(s), Trim(s));
  }

  /** The normal form is already trimmed: the `trim` setter leaves it as it is. */
  lemma NormalEmailTrimmed(s: string)
    ensures Trim(NormalEmail(s)) == NormalEmail(s)
  {
    TrimUnpadded(NormalEmail(s));
  }

  /** An address without white space is normalised by lower-casing alone. */
  lemma NormalOfUnspaced(s: string)
    requires NoSpace(s)
    ensures NormalEmail(s) == Lower(s)
  {
    TrimNoSpace(s);
  }

  /** Normalising a normalised address changes nothing. */
  lemma NormalEmailIdempotent(s: string)
    ensures NormalEmail(NormalEmail(s)) == NormalEmail(s)
  {
    var r := NormalEmail(s);
    LowerOfLower(r);
  }

  /** A stored user: every field as the schema leaves it. */
  predicate ValidUser(u: User) {
    && ObjectIds.IsCanonical(u.id)
    && Unpadded(u.username)
    && MinUsernameLength <= |u.username| <= MaxUsernameLength
    && NoUpper(u.email)
    && EmailPattern(u.email)
    && u.passwordHash != []
    && |u.bio| <= MaxBioLength
  }

  /** No two users share an id, a username or an e-mail address. */
  predicate UniqueUsers(users: seq<User>) {
    forall i, j :: 0 <= i < j < |users| ==>
      users[i].id != users[j].id && users[i].username != users[j].username && users[i].email != users[j].email
  }

  /**
   * `User.create({ username, email, passwordHash })` up to the database write: the setters
   * trim the username and trim and lower-case the e-mail, the validators check what is left,
   * and the avatar, bio and creation time take their defaults.
   */
  function CastUser(id: string, username: string, email: string, passwordHash: string, now: nat): (r: Validated)
    requires ObjectIds.IsCanonical(id)
    ensures r.Valid? <==>
      && MinUsernameLength <= |Trim(username)| <= MaxUsernameLength
      && EmailPattern(NormalEmail(email))
      && passwordHash != []
    ensures r.Valid? ==> ValidUser(r.user)
    ensures r.Valid? ==>
      r.user == User(id, Trim(username), NormalEmail(email), passwordHash, DefaultAvatarUrl, DefaultBio, now)
  {
    var name := Trim(username);
    var mail := NormalEmail(email);
    if name == [] then Invalid("Username is required")
    else if |name| < MinUsernameLength then Invalid("Username must be at least 3 characters")
    else if |name| > MaxUsernameLength then Invalid("Username must not exceed 30 characters")
    else if mail == [] then Invalid("Email is required")
    else if !EmailPattern(mail) then Invalid("Please provide a valid email address")
    else if passwordHash == [] then Invalid("Password is required")
    else
      NewUserValid(id, username, email, passwordHash, now);
      Valid(User(id, name, mail, passwordHash, DefaultAvatarUrl, DefaultBio, now))
  }

  /** What passes the validators is a valid stored user once the defaults are filled in. */
  lemma NewUserValid(id: string, username: string, email: string, passwordHash: string, now: nat)
    requires ObjectIds.IsCanonical(id)
    requires MinUsernameLength <= |Trim(username)| <= MaxUsernameLength
    requires EmailPattern(NormalEmail(email)) && passwordHash != []
    ensures ValidUser(User(id, Trim(username), NormalEmail(email), passwordHash, DefaultAvatarUrl, DefaultBio, now))
  {
    DefaultBioFits();
  }

  /** Adding a valid user whose id, username and e-mail are all new keeps users unique. */
  lemma AddKeepsUnique(users: seq<User>, u: User)
    requires UniqueUsers(users)
    requires forall k :: 0 <= k < |users| ==>
      users[k].id != u.id && users[k].username != u.username && users[k].email != u.email
    ensures UniqueUsers(users + [u])
  {
  }

  /** The welcome bio fits the bio limit. */
  lemma DefaultBioFits()
    ensures |DefaultBio| <= MaxBioLength
    ensures |DefaultBio| > 0
  {
  }
}
