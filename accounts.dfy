/**
 * The account routes: `POST /api/auth/login`, `POST /api/auth/register` and
 * `PUT /api/user/update`, over the `users` table with its UNIQUE username
 * and email columns.
 */
module Accounts {
  import opened Wrappers
  import opened Text
  import opened Jwt
  import opened Sanitize
  import opened Email
  import opened Api

  /** A row of `users`; `password` holds the bcrypt hash. */
  datatype UserRow = UserRow(id: int, username: string, email: string, password: string,
                             avatar: Option<string>, banner: Option<string>, description: Option<string>)

  /** `hashPassword` and `verifyPassword` of auth.ts (bcrypt), left abstract. */
  datatype Passwords = Passwords(hash: string -> string, verify: (string, string) -> bool)

  /** A password is accepted against its own hash. */
  ghost predicate IsBcrypt(p: Passwords) {
    forall pw :: p.verify(pw, p.hash(pw))
  }

  /** The key and the two clock readings `generateToken` uses. */
  datatype TokenIssuer = TokenIssuer(mac: Mac, codec: JsonCodec, nowMs1: int, nowMs2: int)

  function Token(iss: TokenIssuer, user: UserPayload): string {
    GenerateToken(iss.mac, iss.codec, user, iss.nowMs1, iss.nowMs2)
  }

  /** The `Set-Cookie` value of a successful login or registration. */
  function SessionCookie(token: string): (c: string)
    ensures StartsWith(c, "token=")
  {
    "token=" + token + "; Path=/; HttpOnly; SameSite=Lax; Max-Age=" + IntToString(60 * 60 * 24 * 7)
  }

  /** Seven days of seconds print as `604800`. */
  lemma WeekInSeconds()
    ensures IntToString(60 * 60 * 24 * 7) == "604800"
  {
    NatToStringStep(60480, 0);
    NatToStringStep(6048, 0);
    NatToStringStep(604, 8);
    NatToStringStep(60, 4);
    NatToStringStep(6, 0);
    assert DigitChar(0) == '0' && DigitChar(4) == '4' && DigitChar(8) == '8' && NatToString(6) == ['6'];
  }

  /** The session cookie is `HttpOnly`, `SameSite=Lax`, valid for the whole site and kept for a week. */
  lemma SessionCookieLastsAWeek(token: string)
    ensures SessionCookie(token) == "token=" + token + "; Path=/; HttpOnly; SameSite=Lax; Max-Age=" + "604800"
  {
    WeekInSeconds();
  }

  /** The UNIQUE constraints of `users`: no two rows share an id, a username or an email. */
  predicate UniqueRows(rows: seq<UserRow>) {
    forall i, j :: 0 <= i < j < |rows| ==>
      rows[i].id != rows[j].id && rows[i].username != rows[j].username && rows[i].email != rows[j].email
  }

  /** `SELECT * FROM users WHERE email = ?` with `.first()`: the index of the first such row, or `|rows|`. */
  function FindByEmail(rows: seq<UserRow>, email: string): (k: nat)
    ensures k <= |rows|
    ensures forall i :: 0 <= i < k ==> rows[i].email != email
    ensures k < |rows| ==> rows[k].email == email
  {
    FirstIndex(rows, (r: UserRow) => r.email == email)
  }

  /** The index of the row with this id, or `|rows|`. */
  function FindById(rows: seq<UserRow>, id: int): (k: nat)
    ensures k <= |rows|
    ensures forall i :: 0 <= i < k ==> rows[i].id != id
    ensures k < |rows| ==> rows[k].id == id
  {
    FirstIndex(rows, (r: UserRow) => r.id == id)
  }

  /** A row other than `except`'s already holds the username or the email. */
  predicate Taken(rows: seq<UserRow>, username: string, email: string, except: Option<int>) {
    exists i :: 0 <= i < |rows| && (rows[i].username == username || rows[i].email == email)
      && (except.None? || rows[i].id != except.value)
  }

  /** The payload a login signs, `{ id, username, email }`: it carries no avatar. */
  function Payload(row: UserRow): UserPayload {
    UserPayload(row.id, row.username, row.email, None)
  }

  /** The JSON body of a login; a field that is absent or not a string is `None`. */
  datatype LoginBody = LoginBody(email: Option<string>, password: Option<string>)

  /** The success body `{ user, token }` and its cookie. */
  datatype Session = Session(user: UserPayload, token: string, setCookie: string)

  /**
   * `POST /api/auth/login`. `body` is `None` when `request.json()` throws.
   * Unknown email and wrong password end in the same 401.
   */
  function Login(hasDb: bool, body: Option<LoginBody>, rows: seq<UserRow>, pw: Passwords, iss: TokenIssuer): (r: Response<Session>)
    ensures !hasDb ==> r == Failure(500, "Database connection failed")
    ensures hasDb && body.Some? && !(Truthy(body.value.email) && Truthy(body.value.password))
      ==> r == Failure(400, "Email and password are required")
    ensures r.Json? ==> (r.status == 200 && body.Some? && exists i :: (0 <= i < |rows| && rows[i].email == body.value.email.value
      && pw.verify(body.value.password.value, rows[i].password)
      && r.value.user == Payload(rows[i]) && r.value.token == Token(iss, Payload(rows[i]))
      && r.value.setCookie == SessionCookie(r.value.token)))
    ensures hasDb && body.None? ==> r == Failure(500, "Login failed")
    ensures hasDb && body.Some? && Truthy(body.value.email) && Truthy(body.value.password) ==>
      var k := FindByEmail(rows, body.value.email.value);
      (k == |rows| || !pw.verify(body.value.password.value, rows[k].password)) ==> r == Failure(401, "Invalid credentials")
    ensures r.Failure? ==> r.status in {400, 401, 500}
  {
    if !hasDb then Failure(500, "Database connection failed")
    else if body.None? then Failure(500, "Login failed")
    else
      var email, password := body.value.email, body.value.password;
      if !Truthy(email) || !Truthy(password) then Failure(400, "Email and password are required")
      else
        var k := FindByEmail(rows, email.value);
        if k == |rows| || !pw.verify(password.value, rows[k].password) then Failure(401, "Invalid credentials")
        else
          var user := Payload(rows[k]);
          var token := Token(iss, user);
          Json(200, Session(user, token, SessionCookie(token)))
  }

  /**
   * With both fields given, the 401 comes exactly when no row with that email
   * accepts the password: an unknown email and a wrong password look alike.
   */
  lemma LoginRefusalIsUniform(rows: seq<UserRow>, pw: Passwords, iss: TokenIssuer, email: string, password: string)
    requires UniqueRows(rows) && email != "" && password != ""
    ensures Login(true, Some(LoginBody(Some(email), Some(password))), rows, pw, iss) == Failure(401, "Invalid credentials")
      <==> forall i :: 0 <= i < |rows| && rows[i].email == email ==> !pw.verify(password, rows[i].password)
  {
    var k := FindByEmail(rows, email);
    if k < |rows| {
      forall i | 0 <= i < |rows| && rows[i].email == email ensures i == k {
      }
    }
  }

  /** A registered user who gives the password they registered with is logged in as that row. */
  lemma LoginAcceptsRegisteredPassword(rows: seq<UserRow>, pw: Passwords, iss: TokenIssuer, i: nat, password: string)
    requires IsBcrypt(pw) && UniqueRows(rows)
    requires i < |rows| && rows[i].email != "" && password != "" && rows[i].password == pw.hash(password)
    ensures Login(true, Some(LoginBody(Some(rows[i].email), Some(password))), rows, pw, iss).Json?
    ensures Login(true, Some(LoginBody(Some(rows[i].email), Some(password))), rows, pw, iss).value.user == Payload(rows[i])
  {
    var k := FindByEmail(rows, rows[i].email);
    assert k == i;
  }

  /** The token a login hands out is accepted by `verifyToken` until it expires, and names the same user. */
  lemma LoginTokenVerifies(hasDb: bool, body: Option<LoginBody>, rows: seq<UserRow>, pw: Passwords, iss: TokenIssuer, nowMs: int)
    requires IsHmac(iss.mac) && IsJson(iss.codec)
    requires Login(hasDb, body, rows, pw, iss).Json?
    requires var u := Login(hasDb, body, rows, pw, iss).value.user;
      nowMs <= Issue(u, iss.nowMs1, iss.nowMs2).exp.value * 1000
    ensures var s := Login(hasDb, body, rows, pw, iss).value;
      VerifyToken(iss.mac, iss.codec, s.token, nowMs) == Some(Issue(s.user, iss.nowMs1, iss.nowMs2))
  {
    var s := Login(hasDb, body, rows, pw, iss).value;
    RoundTrip(iss.mac, iss.codec, s.user, iss.nowMs1, iss.nowMs2, nowMs);
  }

  /** The JSON body of a registration. */
  datatype RegisterBody = RegisterBody(username: Option<string>, email: Option<string>, password: Option<string>)

  /** The success body `{ user: { id, username, email, avatar }, token }` and its cookie. */
  datatype Registered = Registered(id: int, username: string, email: string, avatar: string, token: string, setCookie: string)

  /** The generated avatar; `encodeUri` stands for `encodeURIComponent`. */
  function AvatarFor(username: string, encodeUri: string -> string): string {
    "https://ui-avatars.com/api/?name=" + encodeUri(username) + "&background=9b59b6&color=fff"
  }

  /** The username, email and password of a registration are all given and non-empty. */
  predicate AllGiven(b: RegisterBody) {
    Truthy(b.username) && Truthy(b.email) && Truthy(b.password)
  }

  /**
   * The checks of `POST /api/auth/register` before the insert, in their order,
   * on the username cut to 50 characters and the email cut to 100.
   */
  function RegisterRefusal(hasDb: bool, body: Option<RegisterBody>, rows: seq<UserRow>): (e: Option<(int, string)>)
    ensures !hasDb ==> e == Some((500, "Database connection failed"))
    ensures hasDb && body.None? ==> e == Some((500, "Registration failed"))
    ensures hasDb && body.Some? && !AllGiven(body.value) ==> e == Some((400, "All fields are required"))
    ensures hasDb && body.Some? && AllGiven(body.value) ==>
      var b := body.value;
      var username, email := SanitizeInput(b.username.value, 50), SanitizeInput(b.email.value, 100);
      && (Trim(username) == "" ==> e == Some((400, "Username cannot be empty")))
      && (Trim(username) != "" && !IsValidEmail(email) ==> e == Some((400, "Invalid email format")))
      && (Trim(username) != "" && IsValidEmail(email) && |b.password.value| < 6
          ==> e == Some((400, "Password must be at least 6 characters")))
      && (Trim(username) != "" && IsValidEmail(email) && |b.password.value| >= 6 && Taken(rows, username, email, None)
          ==> e == Some((409, "User already exists")))
    ensures e.None? <==> (hasDb && body.Some? && AllGiven(body.value)
      && var username, email := SanitizeInput(body.value.username.value, 50), SanitizeInput(body.value.email.value, 100);
      Trim(username) != "" && IsValidEmail(email) && |body.value.password.value| >= 6 && !Taken(rows, username, email, None))
  {
    if !hasDb then Some((500, "Database connection failed"))
    else if body.None? then Some((500, "Registration failed"))
    else
      var b := body.value;
      if !Truthy(b.username) || !Truthy(b.email) || !Truthy(b.password) then Some((400, "All fields are required"))
      else
        var username := SanitizeInput(b.username.value, 50);
        var email := SanitizeInput(b.email.value, 100);
        if Trim(username) == "" then Some((400, "Username cannot be empty"))
        else if !IsValidEmail(email) then Some((400, "Invalid email format"))
        else if |b.password.value| < 6 then Some((400, "Password must be at least 6 characters"))
        else if Taken(rows, username, email, None) then Some((409, "User already exists"))
        else None
  }

  /**
   * A registration gets through exactly when every field is given, the
   * username is non-blank and at most 50 characters once cut, the email is
   * well-formed and at most 100, the password has six characters or more,
   * and nobody holds either name.
   */
  lemma RegisterAccepted(hasDb: bool, body: Option<RegisterBody>, rows: seq<UserRow>)
    ensures RegisterRefusal(hasDb, body, rows).None? <==> (hasDb && body.Some? && AllGiven(body.value)
      && var username, email := SanitizeInput(body.value.username.value, 50), SanitizeInput(body.value.email.value, 100);
      Trim(username) != "" && |username| <= 50 && IsValidEmail(email) && |email| <= 100
      && |body.value.password.value| >= 6 && !Taken(rows, username, email, None))
  {
  }

  /** A blank username is reported before a malformed email: the checks run in a fixed order. */
  lemma BlankUsernameReportedFirst(rows: seq<UserRow>, username: string, email: string, password: string)
    requires username != "" && email != "" && password != ""
    requires forall i :: 0 <= i < |username| ==> IsJsSpace(username[i])
    ensures RegisterRefusal(true, Some(RegisterBody(Some(username), Some(email), Some(password))), rows)
      == Some((400, "Username cannot be empty"))
  {
    TrimEmptyIff(username);
    var s := SanitizeInput(username, 50);
    assert s == "";
  }

  /** The row a registration inserts: the cut username and email, the hash of the password, the generated avatar. */
  function NewUser(id: int, b: RegisterBody, pw: Passwords, encodeUri: string -> string): (row: UserRow)
    requires Truthy(b.username) && Truthy(b.email) && Truthy(b.password)
    ensures row.id == id && row.password == pw.hash(b.password.value)
    ensures row.username == SanitizeInput(b.username.value, 50) && row.email == SanitizeInput(b.email.value, 100)
    ensures row.avatar == Some(AvatarFor(row.username, encodeUri)) && row.banner == None && row.description == None
  {
    var username := SanitizeInput(b.username.value, 50);
    UserRow(id, username, SanitizeInput(b.email.value, 100), pw.hash(b.password.value), Some(AvatarFor(username, encodeUri)), None, None)
  }

  /** The user object a registration signs, `{ id, username, email, avatar }`. */
  function RegisteredPayload(row: UserRow): UserPayload {
    UserPayload(row.id, row.username, row.email, row.avatar)
  }

  /**
   * The 201 body of a registration and the session it opens: the token
   * signs the new user's id, names and avatar.
   */
  function Welcome(row: UserRow, iss: TokenIssuer): (w: Registered)
    requires row.avatar.Some?
    ensures w.token == Token(iss, UserPayload(w.id, w.username, w.email, Some(w.avatar)))
    ensures w.setCookie == SessionCookie(w.token)
    ensures w.id == row.id && w.username == row.username && w.email == row.email && w.avatar == row.avatar.value
  {
    var token := Token(iss, RegisteredPayload(row));
    Registered(row.id, row.username, row.email, row.avatar.value, token, SessionCookie(token))
  }

  /** Appending a row with a fresh id and names nobody holds keeps the UNIQUE constraints. */
  lemma AppendKeepsUnique(rows: seq<UserRow>, row: UserRow, lastId: int)
    requires UniqueRows(rows) && (forall i :: 0 <= i < |rows| ==> rows[i].id <= lastId) && row.id > lastId
    requires !Taken(rows, row.username, row.email, None)
    ensures UniqueRows(rows + [row])
  {
    var all := rows + [row];
    forall i, j | 0 <= i < j < |all|
      ensures all[i].id != all[j].id && all[i].username != all[j].username && all[i].email != all[j].email
    {
      if j < |rows| {
        assert all[i] == rows[i] && all[j] == rows[j];
      } else {
        assert all[i] == rows[i] && all[j] == row;
      }
    }
  }

  /** The UNIQUE constraints hold and every id was handed out by the counter `lastId`. */
  predicate ValidRows(rows: seq<UserRow>, lastId: int) {
    UniqueRows(rows) && lastId >= 0 && forall i :: 0 <= i < |rows| ==> 0 < rows[i].id <= lastId
  }

  /** Inserting a row under the next id, with names nobody holds, keeps the table valid. */
  lemma AppendKeepsValid(rows: seq<UserRow>, lastId: int, row: UserRow)
    requires ValidRows(rows, lastId) && row.id == lastId + 1
    requires !Taken(rows, row.username, row.email, None)
    ensures ValidRows(rows + [row], lastId + 1)
  {
    AppendKeepsUnique(rows, row, lastId);
    var all := rows + [row];
    assert forall i :: 0 <= i < |rows| ==> all[i] == rows[i];
  }

  /**
   * `POST /api/auth/register` over the rows of `users` and the AUTOINCREMENT
   * counter `lastId`: the answer, and the rows afterwards.
   */
  function RegisterEffect(hasDb: bool, body: Option<RegisterBody>, rows: seq<UserRow>, lastId: int,
                          pw: Passwords, iss: TokenIssuer, encodeUri: string -> string): (o: (Response<Registered>, seq<UserRow>))
    ensures o.0.Failure? <==> RegisterRefusal(hasDb, body, rows).Some?
    ensures o.0.Failure? ==> (o.0.status, o.0.error) == RegisterRefusal(hasDb, body, rows).value && o.1 == rows
    ensures o.0.Json? ==> o.0.status == 201 && |o.1| == |rows| + 1 && o.1[..|rows|] == rows && o.1[|rows|].id == lastId + 1
    ensures o.0.Json? ==> (body.Some? && AllGiven(body.value)
      && o.1[|rows|] == NewUser(lastId + 1, body.value, pw, encodeUri) && o.0.value == Welcome(o.1[|rows|], iss))
  {
    var refusal := RegisterRefusal(hasDb, body, rows);
    if refusal.Some? then (Failure(refusal.value.0, refusal.value.1), rows)
    else
      var row := NewUser(lastId + 1, body.value, pw, encodeUri);
      (Json(201, Welcome(row, iss)), rows + [row])
  }

  /** A registration keeps the UNIQUE constraints and moves the counter on by one exactly when it inserts. */
  lemma RegisterKeepsValid(hasDb: bool, body: Option<RegisterBody>, rows: seq<UserRow>, lastId: int,
                           pw: Passwords, iss: TokenIssuer, encodeUri: string -> string)
    requires ValidRows(rows, lastId)
    ensures var o := RegisterEffect(hasDb, body, rows, lastId, pw, iss, encodeUri);
      ValidRows(o.1, if o.0.Json? then lastId + 1 else lastId)
  {
    if RegisterRefusal(hasDb, body, rows).None? {
      RegisterAccepted(hasDb, body, rows);
      AppendKeepsValid(rows, lastId, NewUser(lastId + 1, body.value, pw, encodeUri));
    }
  }

  /**
   * The inserted row holds the cut names, the hash of the password and the
   * generated avatar, and the 201 body describes that row and carries a token for it.
   */
  lemma RegisterStoresHash(hasDb: bool, body: Option<RegisterBody>, rows: seq<UserRow>, lastId: int,
                           pw: Passwords, iss: TokenIssuer, encodeUri: string -> string)
    requires RegisterEffect(hasDb, body, rows, lastId, pw, iss, encodeUri).0.Json?
    ensures var o := RegisterEffect(hasDb, body, rows, lastId, pw, iss, encodeUri);
      var b, row, w := body.value, o.1[|rows|], o.0.value;
      && Truthy(b.username) && Truthy(b.email) && Truthy(b.password)
      && row.password == pw.hash(b.password.value)
      && row.username == SanitizeInput(b.username.value, 50) && row.email == SanitizeInput(b.email.value, 100)
      && row.avatar == Some(AvatarFor(row.username, encodeUri))
      && w.id == row.id && w.username == row.username && w.email == row.email && Some(w.avatar) == row.avatar
      && w.token == Token(iss, UserPayload(row.id, row.username, row.email, row.avatar))
      && w.setCookie == SessionCookie(w.token)
  {
    RegisterAccepted(hasDb, body, rows);
  }

  /**
   * The token a registration hands out is accepted by `verifyToken` until it
   * expires, and names the new user with their avatar.
   */
  lemma RegisterTokenVerifies(hasDb: bool, body: Option<RegisterBody>, rows: seq<UserRow>, lastId: int,
                              pw: Passwords, iss: TokenIssuer, encodeUri: string -> string, nowMs: int)
    requires IsHmac(iss.mac) && IsJson(iss.codec)
    requires RegisterEffect(hasDb, body, rows, lastId, pw, iss, encodeUri).0.Json?
    requires var w := RegisterEffect(hasDb, body, rows, lastId, pw, iss, encodeUri).0.value;
      nowMs <= Issue(UserPayload(w.id, w.username, w.email, Some(w.avatar)), iss.nowMs1, iss.nowMs2).exp.value * 1000
    ensures var w := RegisterEffect(hasDb, body, rows, lastId, pw, iss, encodeUri).0.value;
      var c := VerifyToken(iss.mac, iss.codec, w.token, nowMs);
      c.Some? && c.value.id == w.id && c.value.username == w.username && c.value.email == w.email
      && c.value.avatar == Some(w.avatar)
  {
    var w := RegisterEffect(hasDb, body, rows, lastId, pw, iss, encodeUri).0.value;
    RoundTrip(iss.mac, iss.codec, UserPayload(w.id, w.username, w.email, Some(w.avatar)), iss.nowMs1, iss.nowMs2, nowMs);
  }

  /**
   * Whoever has just registered can log in with the stored email and the
   * password they chose, as the same user: the login names the new row's id,
   * username and email, without the avatar the registration token carried.
   */
  lemma RegisterThenLogin(hasDb: bool, body: Option<RegisterBody>, rows: seq<UserRow>, lastId: int,
                          pw: Passwords, iss: TokenIssuer, encodeUri: string -> string)
    requires IsBcrypt(pw) && ValidRows(rows, lastId)
    requires RegisterEffect(hasDb, body, rows, lastId, pw, iss, encodeUri).0.Json?
    ensures var o := RegisterEffect(hasDb, body, rows, lastId, pw, iss, encodeUri);
      var row, w := o.1[|rows|], o.0.value;
      var l := Login(true, Some(LoginBody(Some(row.email), body.value.password)), o.1, pw, iss);
      l.Json? && l.value.user == UserPayload(w.id, w.username, w.email, None)
      && l.value.token == Token(iss, l.value.user) && l.value.setCookie == SessionCookie(l.value.token)
  {
    var o := RegisterEffect(hasDb, body, rows, lastId, pw, iss, encodeUri);
    RegisterAccepted(hasDb, body, rows);
    RegisterStoresHash(hasDb, body, rows, lastId, pw, iss, encodeUri);
    RegisterKeepsValid(hasDb, body, rows, lastId, pw, iss, encodeUri);
    var row := o.1[|rows|];
    assert row.email != "" by {
      var email := SanitizeInput(body.value.email.value, 100);
      assert IsValidEmail(email);
    }
    LoginAcceptsRegisteredPassword(o.1, pw, iss, |rows|, body.value.password.value);
  }

  /** `users` and its AUTOINCREMENT counter. */
  class UsersTable {
    var rows: seq<UserRow>
    var lastId: int

    predicate Valid()
      reads this
    {
      ValidRows(rows, lastId)
    }

    constructor()
      ensures rows == [] && lastId == 0 && Valid()
    {
      rows := [];
      lastId := 0;
    }

    /** `POST /api/auth/register`: answers as `RegisterEffect` says and inserts at most one row. */
    method Register(hasDb: bool, body: Option<RegisterBody>, pw: Passwords, iss: TokenIssuer, encodeUri: string -> string)
      returns (r: Response<Registered>)
      requires Valid()
      modifies this
      ensures Valid()
      ensures (r, rows) == RegisterEffect(hasDb, body, old(rows), old(lastId), pw, iss, encodeUri)
      ensures lastId == if r.Json? then old(lastId) + 1 else old(lastId)
    {
      var before, last := rows, lastId;
      RegisterKeepsValid(hasDb, body, before, last, pw, iss, encodeUri);
      var o := RegisterEffect(hasDb, body, before, last, pw, iss, encodeUri);
      r, rows := o.0, o.1;
      lastId := if r.Json? then last + 1 else last;
    }

    /**
     * `PUT /api/user/update` for the signed-in `user`: answers as
     * `UpdateEffect` says and rewrites at most the user's own row.
     */
    method UpdateProfile(configured: bool, user: Option<Claims>, form: Option<ProfileForm>, nowMs: int)
      returns (r: Response<Option<Profile>>)
      requires Valid()
      modifies this
      ensures Valid() && lastId == old(lastId)
      ensures (r, rows) == UpdateEffect(configured, user, form, old(rows), nowMs)
    {
      var o := UpdateEffect(configured, user, form, rows, nowMs);
      UpdateEffectKeepsValid(configured, user, form, rows, lastId, nowMs);
      assert ValidRows(o.1, lastId);
      r, rows := o.0, o.1;
    }
  }

  /** The form of a profile update; a field missing from the form is `None`. */
  datatype ProfileForm = ProfileForm(username: Option<string>, email: Option<string>, description: Option<string>,
                                     avatar: Option<Upload>, banner: Option<Upload>)

  /** The updated user as the route returns it, without the password. */
  datatype Profile = Profile(id: int, username: string, email: string, avatar: Option<string>, banner: Option<string>, description: Option<string>)

  function ProfileOf(row: UserRow): Profile {
    Profile(row.id, row.username, row.email, row.avatar, row.banner, row.description)
  }

  /**
   * Both a nonempty avatar and a nonempty banner were sent, so neither
   * `avatarUrl || currentUser.avatar` nor `bannerUrl || currentUser.banner`
   * reads the current row.
   */
  predicate BothImages(f: ProfileForm) {
    f.avatar.Some? && f.avatar.value.size > 0 && f.banner.Some? && f.banner.value.size > 0
  }

  /**
   * The checks of `PUT /api/user/update` before anything is written, in
   * their order, on the username cut to 50 characters and the email cut to
   * 100. The last one is the read of the current row: when it is missing,
   * the handler throws on `currentUser.avatar` or `currentUser.banner`
   * unless both images were sent.
   */
  function UpdateRefusal(configured: bool, user: Option<Claims>, form: Option<ProfileForm>, rows: seq<UserRow>): (e: Option<(int, string)>)
    ensures !configured ==> e == Some((500, "Server configuration error: Database or Storage missing"))
    ensures configured && user.None? ==> e == Some((401, "Unauthorized"))
    ensures configured && user.Some? && form.None? ==> e == Some((500, "Failed to update profile"))
    ensures configured && user.Some? && form.Some? && !(Truthy(form.value.username) && Truthy(form.value.email))
      ==> e == Some((400, "Username and email are required"))
    ensures configured && user.Some? && form.Some? && Truthy(form.value.username) && Truthy(form.value.email) ==>
      var username, email := SanitizeInput(form.value.username.value, 50), SanitizeInput(form.value.email.value, 100);
      && (!IsValidEmail(email) ==> e == Some((400, "Invalid email format")))
      && (IsValidEmail(email) && Trim(username) == "" ==> e == Some((400, "Username cannot be empty")))
      && (IsValidEmail(email) && Trim(username) != "" && Taken(rows, username, email, Some(user.value.id))
          ==> e == Some((409, "Username or email already taken")))
      && (IsValidEmail(email) && Trim(username) != "" && !Taken(rows, username, email, Some(user.value.id))
            && FindById(rows, user.value.id) == |rows| && !BothImages(form.value)
          ==> e == Some((500, "Failed to update profile")))
    ensures e.None? <==> (configured && user.Some? && form.Some? && Truthy(form.value.username) && Truthy(form.value.email)
      && var username, email := SanitizeInput(form.value.username.value, 50), SanitizeInput(form.value.email.value, 100);
      IsValidEmail(email) && Trim(username) != "" && !Taken(rows, username, email, Some(user.value.id))
      && (FindById(rows, user.value.id) < |rows| || BothImages(form.value)))
  {
    if !configured then Some((500, "Server configuration error: Database or Storage missing"))
    else if user.None? then Some((401, "Unauthorized"))
    else if form.None? then Some((500, "Failed to update profile"))
    else
      var f := form.value;
      if !Truthy(f.username) || !Truthy(f.email) then Some((400, "Username and email are required"))
      else
        var username := SanitizeInput(f.username.value, 50);
        var email := SanitizeInput(f.email.value, 100);
        if !IsValidEmail(email) then Some((400, "Invalid email format"))
        else if Trim(username) == "" then Some((400, "Username cannot be empty"))
        else if Taken(rows, username, email, Some(user.value.id)) then Some((409, "Username or email already taken"))
        else if FindById(rows, user.value.id) == |rows| && !BothImages(f) then Some((500, "Failed to update profile"))
        else None
  }

  /**
   * An update gets through exactly for a signed-in user whose row exists
   * (or who sent both images), with a well-formed email of at most 100 characters once cut, a non-blank
   * username of at most 50, and names no other user holds.
   */
  lemma UpdateAccepted(configured: bool, user: Option<Claims>, form: Option<ProfileForm>, rows: seq<UserRow>)
    ensures UpdateRefusal(configured, user, form, rows).None? <==> (configured && user.Some? && form.Some?
      && Truthy(form.value.username) && Truthy(form.value.email)
      && var username, email := SanitizeInput(form.value.username.value, 50), SanitizeInput(form.value.email.value, 100);
      IsValidEmail(email) && |email| <= 100 && Trim(username) != "" && |username| <= 50
      && !Taken(rows, username, email, Some(user.value.id))
      && (FindById(rows, user.value.id) < |rows| || BothImages(form.value)))
  {
  }

  /** The new image URL when a non-empty file was sent, e.g. `/r2/users/avatars/{id}_{ts}.{ext}`. */
  function ImageUrl(folder: string, id: int, nowMs: int, file: Option<Upload>): (url: Option<string>)
    ensures url.Some? <==> file.Some? && file.value.size > 0
    ensures url.Some? ==> url.value == R2Url("users/" + folder + "/" + IntToString(id) + "_" + IntToString(nowMs) + "." + Extension(file.value.name))
  {
    if file.Some? && file.value.size > 0 then
      Some(R2Url("users/" + folder + "/" + IntToString(id) + "_" + IntToString(nowMs) + "." + Extension(file.value.name)))
    else None
  }

  /**
   * The row after the update: the cut names, the cut description or `null`
   * when it is empty, and a new image URL only where a non-empty file was
   * sent, the stored one otherwise; the id and the password hash stay.
   */
  function Updated(row: UserRow, f: ProfileForm, nowMs: int): (u: UserRow)
    requires Truthy(f.username) && Truthy(f.email)
    ensures u.id == row.id && u.password == row.password
    ensures u.username == SanitizeInput(f.username.value, 50) && u.email == SanitizeInput(f.email.value, 100)
    ensures var d := SanitizeInput(OrEmpty(f.description), 500);
      u.description == if d == "" then None else Some(d)
    ensures u.avatar == if f.avatar.Some? && f.avatar.value.size > 0 then ImageUrl("avatars", row.id, nowMs, f.avatar) else row.avatar
    ensures u.banner == if f.banner.Some? && f.banner.value.size > 0 then ImageUrl("banners", row.id, nowMs, f.banner) else row.banner
  {
    var description := SanitizeInput(OrEmpty(f.description), 500);
    var avatar := ImageUrl("avatars", row.id, nowMs, f.avatar);
    var banner := ImageUrl("banners", row.id, nowMs, f.banner);
    row.(username := SanitizeInput(f.username.value, 50),
         email := SanitizeInput(f.email.value, 100),
         description := if description == "" then None else Some(description),
         avatar := if avatar.Some? then avatar else row.avatar,
         banner := if banner.Some? then banner else row.banner)
  }

  /** An empty description is stored as `null`. */
  lemma EmptyDescriptionStoredAsNull(row: UserRow, f: ProfileForm, nowMs: int)
    requires Truthy(f.username) && Truthy(f.email)
    requires f.description.None? || forall i :: 0 <= i < |f.description.value| ==> IsJsSpace(f.description.value[i])
    ensures Updated(row, f, nowMs).description == None
  {
    if f.description.Some? && f.description.value != "" {
      TrimEmptyIff(f.description.value);
    }
  }

  /** Replacing the user's own row with names no other row holds keeps the UNIQUE constraints. */
  lemma UpdateKeepsUnique(rows: seq<UserRow>, k: nat, f: ProfileForm, nowMs: int)
    requires UniqueRows(rows) && k < |rows| && Truthy(f.username) && Truthy(f.email)
    requires !Taken(rows, SanitizeInput(f.username.value, 50), SanitizeInput(f.email.value, 100), Some(rows[k].id))
    ensures UniqueRows(rows[k := Updated(rows[k], f, nowMs)])
  {
    ReplaceKeepsUnique(rows, k, Updated(rows[k], f, nowMs));
  }

  /** Rewriting row `k` under its own id, with names no other row holds, keeps the UNIQUE constraints. */
  lemma ReplaceKeepsUnique(rows: seq<UserRow>, k: nat, u: UserRow)
    requires UniqueRows(rows) && k < |rows| && u.id == rows[k].id
    requires !Taken(rows, u.username, u.email, Some(u.id))
    ensures UniqueRows(rows[k := u])
  {
    forall i | 0 <= i < |rows| && i != k
      ensures rows[i].id != u.id && rows[i].username != u.username && rows[i].email != u.email
    {
      if i < k {
        assert rows[i].id != rows[k].id;
      } else {
        assert rows[k].id != rows[i].id;
      }
    }
  }

  /** Updating a row in place with names no other user holds keeps the table valid; ids are never rewritten. */
  lemma UpdateKeepsValid(rows: seq<UserRow>, lastId: int, k: nat, f: ProfileForm, nowMs: int)
    requires ValidRows(rows, lastId) && k < |rows| && Truthy(f.username) && Truthy(f.email)
    requires !Taken(rows, SanitizeInput(f.username.value, 50), SanitizeInput(f.email.value, 100), Some(rows[k].id))
    ensures ValidRows(rows[k := Updated(rows[k], f, nowMs)], lastId)
  {
    var u := Updated(rows[k], f, nowMs);
    ReplaceKeepsUnique(rows, k, u);
    ReplaceKeepsIds(rows, lastId, k, u);
  }

  lemma ReplaceKeepsIds(rows: seq<UserRow>, lastId: int, k: nat, u: UserRow)
    requires ValidRows(rows, lastId) && k < |rows| && u.id == rows[k].id && UniqueRows(rows[k := u])
    ensures ValidRows(rows[k := u], lastId)
  {
    var after := rows[k := u];
    assert forall i :: 0 <= i < |rows| ==> after[i].id == rows[i].id;
  }

  /**
   * `PUT /api/user/update` over the rows of `users`, `configured` saying
   * both the database and the bucket are bound, `form` being `None` when the
   * form cannot be read and `nowMs` being `Date.now()`: the answer, and the
   * rows afterwards. Only the user's own row can change; when it is missing
   * and both images were sent, the UPDATE matches nothing and the final
   * read answers `{ user: null }`.
   */
  function UpdateEffect(configured: bool, user: Option<Claims>, form: Option<ProfileForm>, rows: seq<UserRow>, nowMs: int)
    : (o: (Response<Option<Profile>>, seq<UserRow>))
    ensures o.0.Failure? <==> UpdateRefusal(configured, user, form, rows).Some?
    ensures o.0.Failure? ==> (o.0.status, o.0.error) == UpdateRefusal(configured, user, form, rows).value && o.1 == rows
    ensures o.0.Json? ==> (o.0.status == 200 && user.Some? && |o.1| == |rows|
      && form.Some? && Truthy(form.value.username) && Truthy(form.value.email)
      && var k := FindById(rows, user.value.id);
      && (k < |rows| ==> (o.0.value == Some(ProfileOf(o.1[k]))
            && o.1[k] == Updated(rows[k], form.value, nowMs)
            && forall i :: 0 <= i < |rows| && i != k ==> o.1[i] == rows[i]))
      && (k == |rows| ==> o.0.value == None && o.1 == rows && BothImages(form.value)))
  {
    var refusal := UpdateRefusal(configured, user, form, rows);
    if refusal.Some? then (Failure(refusal.value.0, refusal.value.1), rows)
    else
      UpdateAccepted(configured, user, form, rows);
      var k := FindById(rows, user.value.id);
      if k == |rows| then (Json(200, None), rows)
      else
        var row := Updated(rows[k], form.value, nowMs);
        (Json(200, Some(ProfileOf(row))), rows[k := row])
  }

  /** A profile update keeps the UNIQUE constraints. */
  lemma UpdateEffectKeepsValid(configured: bool, user: Option<Claims>, form: Option<ProfileForm>, rows: seq<UserRow>,
                               lastId: int, nowMs: int)
    requires ValidRows(rows, lastId)
    ensures ValidRows(UpdateEffect(configured, user, form, rows, nowMs).1, lastId)
  {
    if UpdateRefusal(configured, user, form, rows).None? && FindById(rows, user.value.id) < |rows| {
      UpdateAccepted(configured, user, form, rows);
      UpdateKeepsValid(rows, lastId, FindById(rows, user.value.id), form.value, nowMs);
    }
  }
}
