/** Accounts (backend/controllers/user.controller.js): `register` with its
    required fields and email uniqueness, `login` with one error message for
    an unknown email and a wrong password, and `updateProfile` with the
    public id it derives from the old photo URL. bcrypt, the JWT cookie and
    the media host are inputs; a user is identified by its position in the
    store, which only ever grows. */
module Users {
  import opened Text
  import opened Http

  datatype Role = Student | Instructor

  datatype User = User(name: string, email: string, passwordHash: string, role: Role, photoUrl: string)

  type UserStore = seq<User>

  const AllFieldsRequired: string := "All fields are required."
  const UserExists: string := "User Already Exists."
  const AccountCreated: string := "Account Created Successfully."
  const IncorrectCredentials: string := "Incorrect password or email."
  const UserNotFound: string := "User not found"
  const ProfileUpdated: string := "Profile updated successfully."
  const UpdateFailed: string := "Failed to update profile"

  /** `User.findOne({ email })`: the first user with exactly that email. */
  function FindByEmail(users: UserStore, email: string): (r: Option<nat>)
    ensures r.Some? ==> r.value < |users| && users[r.value].email == email
    ensures r.Some? ==> forall j :: 0 <= j < r.value ==> users[j].email != email
    ensures r.None? <==> forall j :: 0 <= j < |users| ==> users[j].email != email
  {
    if users == [] then None
    else if users[0].email == email then Some(0)
    else match FindByEmail(users[1..], email)
      case None => None
      case Some(i) => Some(i + 1)
  }

  /** No two accounts share an email. */
  ghost predicate EmailsUnique(users: UserStore)
  {
    forall i, j :: 0 <= i < j < |users| ==> users[i].email != users[j].email
  }

  /** `register`; `hashed` is what bcrypt returned for the password. */
  function Register(users: UserStore, name: string, email: string, password: string, hashed: string)
    : (r: (UserStore, Reply))
    ensures r.1.code == 201 <==> r.0 != users
    ensures r.1.code == 201 ==>
      && r.0 == users + [User(name, email, hashed, Student, "")]
      && (forall j :: 0 <= j < |users| ==> users[j].email != email)
    ensures (name == [] || email == [] || password == []) ==> r == (users, Fail(400, AllFieldsRequired))
    ensures name != [] && email != [] && password != [] && FindByEmail(users, email).Some? ==>
      r == (users, Fail(400, UserExists))
    ensures name != [] && email != [] && password != [] && FindByEmail(users, email).None? ==>
      r == (users + [User(name, email, hashed, Student, "")], Ok(201, AccountCreated))
  {
    if name == [] || email == [] || password == [] then (users, Fail(400, AllFieldsRequired))
    else if FindByEmail(users, email).Some? then (users, Fail(400, UserExists))
    else (users + [User(name, email, hashed, Student, "")], Ok(201, AccountCreated))
  }

  /** Registering keeps emails unique. */
  lemma RegisterKeepsEmailsUnique(users: UserStore, name: string, email: string, password: string, hashed: string)
    requires EmailsUnique(users)
    ensures EmailsUnique(Register(users, name, email, password, hashed).0)
  {
  }

  /** `login`; `matches` is bcrypt's comparison of a password with a stored
      hash. On success the reply carries the welcome message. */
  function Login(users: UserStore, email: string, password: string, matches: (string, string) -> bool)
    : (r: Reply)
  {
    if email == [] || password == [] then Fail(400, AllFieldsRequired)
    else match FindByEmail(users, email)
      case None => Fail(400, IncorrectCredentials)
      case Some(i) =>
        if !matches(password, users[i].passwordHash) then Fail(400, IncorrectCredentials)
        else Ok(200, "Welcome Back " + users[i].name)
  }

  /** Login succeeds iff the first account with that email accepts the
      password; an unknown email and a wrong password give the same reply,
      so the reply does not tell which one happened. */
  lemma LoginErrorsUniform(users: UserStore, email: string, password: string, matches: (string, string) -> bool)
    requires email != [] && password != []
    ensures Login(users, email, password, matches).success <==>
      exists i :: 0 <= i < |users| && users[i].email == email && matches(password, users[i].passwordHash)
        && forall j :: 0 <= j < i ==> users[j].email != email
    ensures !Login(users, email, password, matches).success ==>
      Login(users, email, password, matches) == Fail(400, IncorrectCredentials)
  {
    var r := FindByEmail(users, email);
    if r.Some? {
      var i := r.value;
      forall k | 0 <= k < |users| && users[k].email == email && (forall j :: 0 <= j < k ==> users[j].email != email)
        ensures k == i
      {
      }
    }
  }

  /** An unknown email and a known email with a wrong password are
      indistinguishable. */
  lemma UnknownEmailLikeWrongPassword(
    users1: UserStore, users2: UserStore, email: string, password: string, matches: (string, string) -> bool)
    requires email != [] && password != []
    requires FindByEmail(users1, email).None?
    requires FindByEmail(users2, email).Some?
    requires !matches(password, users2[FindByEmail(users2, email).value].passwordHash)
    ensures Login(users1, email, password, matches) == Login(users2, email, password, matches)
  {
  }

  // ---------------------------------------------------------------------
  // updateProfile

  /** The part after the last `/` (`split("/").pop()`). */
  function LastSegment(s: string): (r: string)
    ensures forall i :: 0 <= i < |r| ==> r[i] != '/'
    ensures exists k :: 0 <= k <= |s| && r == s[k..] && (k > 0 ==> s[k - 1] == '/')
  {
    var n := SuffixLength(s, c => c != '/');
    s[|s| - n..]
  }

  /** The part before the first `.` (`split(".")[0]`). */
  function BeforeDot(s: string): (r: string)
    ensures forall i :: 0 <= i < |r| ==> r[i] != '.'
    ensures exists k :: 0 <= k <= |s| && r == s[..k] && (k < |s| ==> s[k] == '.')
  {
    s[..PrefixLength(s, c => c != '.')]
  }

  /** The media host's public id of a stored photo URL. */
  function PublicId(url: string): string
  {
    BeforeDot(LastSegment(url))
  }

  /** The last segment of `<prefix>/<tail>` is `tail` when `tail` has no
      `/`. */
  lemma LastSegmentAfterSlash(prefix: string, tail: string)
    requires forall i :: 0 <= i < |tail| ==> tail[i] != '/'
    ensures LastSegment(prefix + "/" + tail) == tail
  {
    var url := prefix + "/" + tail;
    var k :| 0 <= k <= |url| && LastSegment(url) == url[k..] && (k > 0 ==> url[k - 1] == '/');
    assert url[|prefix|] == '/';
    if k <= |prefix| {
      assert url[k..][|prefix| - k] == '/';
    }
    assert url[|prefix| + 1..] == tail;
  }

  /** The text before the first `.` of `id + rest` is `id` when `id` has no
      `.` and `rest` is empty or starts with one. */
  lemma BeforeDotOfId(id: string, rest: string)
    requires forall i :: 0 <= i < |id| ==> id[i] != '.'
    requires rest == [] || rest[0] == '.'
    ensures BeforeDot(id + rest) == id
  {
    var s := id + rest;
    var m :| 0 <= m <= |s| && BeforeDot(s) == s[..m] && (m < |s| ==> s[m] == '.');
    if m > |id| {
      assert s[..m][|id|] == '.';
    }
    assert s[..|id|] == id;
  }

  /** For a URL `<anything>/<id>.<extension>` or `<anything>/<id>`, with no
      `/` or `.` in the id and no `/` in the extension, the public id is the
      id. */
  lemma PublicIdOfUrl(prefix: string, id: string, ext: Option<string>)
    requires forall i :: 0 <= i < |id| ==> id[i] != '/' && id[i] != '.'
    requires ext.Some? ==> forall i :: 0 <= i < |ext.value| ==> ext.value[i] != '/'
    ensures PublicId(prefix + "/" + id + (if ext.Some? then "." + ext.value else "")) == id
  {
    var rest := if ext.Some? then "." + ext.value else "";
    var tail := id + rest;
    assert forall i :: 0 <= i < |tail| ==> tail[i] != '/' by {
      forall i | 0 <= i < |tail| ensures tail[i] != '/' {
        if i >= |id| && ext.Some? {
          assert tail[i] == rest[i - |id|];
          if i > |id| { assert rest[i - |id|] == ext.value[i - |id| - 1]; }
        }
      }
    }
    LastSegmentAfterSlash(prefix, tail);
    assert prefix + "/" + id + rest == prefix + "/" + tail;
    BeforeDotOfId(id, rest);
  }

  /** What the media host did with the uploaded file, if there was one. */
  datatype Upload = NoFile | Uploaded(secureUrl: string) | UploadFailed

  /** `updateProfile` for user `id`: the new store, the reply, and the public
      id handed to the media host for deletion. A missing `name` leaves the
      name as it was. */
  function UpdateProfile(users: UserStore, id: nat, name: Option<string>, upload: Upload)
    : (r: (UserStore, Reply, Option<string>))
  {
    if id >= |users| then (users, Fail(404, UserNotFound), None)
    else
      var u := users[id];
      var deleted := if !upload.NoFile? && u.photoUrl != [] then Some(PublicId(u.photoUrl)) else None;
      match upload
      case UploadFailed => (users, Fail(500, UpdateFailed), deleted)
      case _ =>
        var photoUrl := if upload.Uploaded? then upload.secureUrl else u.photoUrl;
        var newName := if name.Some? then name.value else u.name;
        (users[id := u.(name := newName, photoUrl := photoUrl)], Ok(200, ProfileUpdated), deleted)
  }

  /** Only the addressed user changes, and only its name and photo: the name
      becomes the one given, if any; without a file the photo URL is kept and
      nothing is deleted; with a file the old photo's public id is handed over
      for deletion; a failed upload stores nothing. */
  lemma UpdateProfileEffects(users: UserStore, id: nat, name: Option<string>, upload: Upload)
    ensures var (users', reply, deleted) := UpdateProfile(users, id, name, upload);
      && |users'| == |users|
      && (forall j :: 0 <= j < |users| && j != id ==> users'[j] == users[j])
      && (id >= |users| ==> users' == users && reply.code == 404)
      && (id < |users| ==>
            && users'[id].email == users[id].email
            && users'[id].passwordHash == users[id].passwordHash
            && users'[id].role == users[id].role
            && (upload.NoFile? ==> users'[id].photoUrl == users[id].photoUrl && deleted.None?)
            && (upload.Uploaded? ==> users'[id].photoUrl == upload.secureUrl)
            && (!upload.UploadFailed? ==> users'[id].name == (if name.Some? then name.value else users[id].name))
            && (!upload.NoFile? && users[id].photoUrl != [] ==> deleted == Some(PublicId(users[id].photoUrl))))
      && (upload.UploadFailed? ==> users' == users)
      && (reply.success <==> id < |users| && !upload.UploadFailed?)
  {
  }

  /** Accepting an instructor application: the first user with that email
      becomes an instructor; with no such user nothing changes. */
  function PromoteToInstructor(users: UserStore, email: string): (r: UserStore)
    ensures |r| == |users|
    ensures FindByEmail(users, email).None? ==> r == users
    ensures FindByEmail(users, email).Some? ==>
      var i := FindByEmail(users, email).value;
      && r[i] == users[i].(role := Instructor)
      && forall j :: 0 <= j < |users| && j != i ==> r[j] == users[j]
  {
    match FindByEmail(users, email)
    case None => users
    case Some(i) => users[i := users[i].(role := Instructor)]
  }

  /** Promotion keeps emails (so their uniqueness) and touches roles only. */
  lemma PromoteKeepsAccounts(users: UserStore, email: string)
    ensures var r := PromoteToInstructor(users, email);
      forall j :: 0 <= j < |users| ==> r[j] == users[j].(role := r[j].role)
  {
  }
}
