/**
 * The authentication blueprint: the email pattern, registration into the
 * Users table, login and the claims it signs, and the `login_required`
 * guard that turns the `Authorization` header into the caller's user id.
 */
module Auth {
  import opened Common
  import opened Sorting

  // ---------------------------------------------------------------------------
  // EMAIL_REGEX: ^[a-zA-Z0-9._%+-]+@[a-zA-Z0-9.-]+\.[a-zA-Z]{2,}$
  // ---------------------------------------------------------------------------

  predicate IsLetter(c: char)
  {
    'a' <= c <= 'z' || 'A' <= c <= 'Z'
  }

  /** `[a-zA-Z0-9._%+-]` */
  predicate IsLocalChar(c: char)
  {
    IsLetter(c) || '0' <= c <= '9' || c == '.' || c == '_' || c == '%' || c == '+' || c == '-'
  }

  /** `[a-zA-Z0-9.-]` */
  predicate IsDomainChar(c: char)
  {
    IsLetter(c) || '0' <= c <= '9' || c == '.' || c == '-'
  }

  /**
   * The unanchored pattern with its `@` at `at` and its last `.` at `dot`: a
   * non-empty local part, `@`, a non-empty domain name, `.`, and two or
   * more letters.
   */
  predicate ShapeAt(s: string, at: int, dot: int)
  {
    0 < at && at + 1 < dot && dot + 3 <= |s| && s[at] == '@' && s[dot] == '.' &&
    (forall i :: 0 <= i < at ==> IsLocalChar(s[i])) &&
    (forall i :: at < i < dot ==> IsDomainChar(s[i])) &&
    (forall i :: dot < i < |s| ==> IsLetter(s[i]))
  }

  /** The unanchored pattern matches the whole of `s` for some split. */
  ghost predicate EmailShape(s: string)
  {
    exists at, dot :: ShapeAt(s, at, dot)
  }

  /** The first position of `c` in `s`, or -1. */
  function IndexOf(s: string, c: char): (i: int)
    ensures -1 <= i < |s|
    ensures i >= 0 ==> s[i] == c && forall j :: 0 <= j < i ==> s[j] != c
    ensures i < 0 ==> forall j :: 0 <= j < |s| ==> s[j] != c
  {
    if s == [] then -1
    else if s[0] == c then 0
    else
      var k := IndexOf(s[1..], c);
      if k < 0 then -1 else k + 1
  }

  /** The last position of `c` in `s`, or -1. */
  function LastIndexOf(s: string, c: char): (i: int)
    ensures -1 <= i < |s|
    ensures i >= 0 ==> s[i] == c && forall j :: i < j < |s| ==> s[j] != c
    ensures i < 0 ==> forall j :: 0 <= j < |s| ==> s[j] != c
  {
    if s == [] then -1
    else if s[|s| - 1] == c then |s| - 1
    else LastIndexOf(s[..|s| - 1], c)
  }

  /**
   * The pattern without its anchors, decided directly: the local part ends
   * at the first `@`, the top-level domain starts after the last `.`.
   */
  predicate MatchesCore(s: string)
    ensures MatchesCore(s) ==> |s| >= 6 && IsLetter(s[|s| - 1])
  {
    ShapeAt(s, IndexOf(s, '@'), LastIndexOf(s, '.'))
  }

  /**
   * `EMAIL_REGEX.match(s)` is truthy. `^` anchors at the start; Python's `$`
   * matches at the end of the string or before a final newline.
   */
  predicate IsValidEmail(s: string)
    ensures IsValidEmail(s) ==> |s| >= 6
  {
    MatchesCore(s) || (|s| > 0 && s[|s| - 1] == '\n' && MatchesCore(s[..|s| - 1]))
  }

  /** There is only one way to split a matching string: no backtracking choice is left. */
  lemma ShapeSplitIsUnique(s: string, at: int, dot: int)
    requires ShapeAt(s, at, dot)
    ensures at == IndexOf(s, '@') && dot == LastIndexOf(s, '.')
  {
    var at' := IndexOf(s, '@');
    var dot' := LastIndexOf(s, '.');
    assert s[at'] == '@' && s[dot'] == '.';
    assert at' == at;
    assert dot' == dot;
  }

  /** The direct decision and the shape agree on every string. */
  lemma MatchesCoreIsShape(s: string)
    ensures MatchesCore(s) <==> EmailShape(s)
  {
    if EmailShape(s) {
      var at, dot :| ShapeAt(s, at, dot);
      ShapeSplitIsUnique(s, at, dot);
    }
  }

  /** What the regular expression accepts, in words. */
  lemma EmailRegexMeaning(s: string)
    ensures IsValidEmail(s) <==>
      EmailShape(s) || (|s| > 0 && s[|s| - 1] == '\n' && EmailShape(s[..|s| - 1]))
  {
    MatchesCoreIsShape(s);
    if |s| > 0 {
      MatchesCoreIsShape(s[..|s| - 1]);
    }
  }

  /** A string of the shape holds exactly one `@`. */
  lemma ShapeHasOneAt(s: string)
    requires EmailShape(s)
    ensures multiset(s)['@'] == 1
  {
    var at, dot :| ShapeAt(s, at, dot);
    var head, tail := s[..at], s[at + 1..];
    assert s == head + [s[at]] + tail;
    forall j | 0 <= j < |head| ensures head[j] != '@' {
      assert IsLocalChar(s[j]);
    }
    forall j | 0 <= j < |tail| ensures tail[j] != '@' {
      assert tail[j] == s[at + 1 + j];
      if at + 1 + j < dot {
        assert IsDomainChar(s[at + 1 + j]);
      } else if at + 1 + j > dot {
        assert IsLetter(s[at + 1 + j]);
      }
    }
    assert '@' !in head && '@' !in tail;
    assert multiset(s) == multiset(head) + multiset{'@'} + multiset(tail);
  }

  /** Every accepted address holds exactly one `@`, a trailing newline included. */
  lemma ValidEmailHasOneAt(s: string)
    requires IsValidEmail(s)
    ensures multiset(s)['@'] == 1
  {
    EmailRegexMeaning(s);
    if EmailShape(s) {
      ShapeHasOneAt(s);
    } else {
      var body := s[..|s| - 1];
      ShapeHasOneAt(body);
      assert s == body + ['\n'];
      assert multiset(s) == multiset(body) + multiset{'\n'};
    }
  }

  /** The address the registration tests use is accepted. */
  lemma SampleEmailAccepted()
    ensures IsValidEmail("test@test.com")
  {
    var s := "test@test.com";
    assert s[0] == 't' && s[1] == 'e' && s[2] == 's' && s[3] == 't' && s[4] == '@';
    assert s[5] == 't' && s[6] == 'e' && s[7] == 's' && s[8] == 't' && s[9] == '.';
    assert s[10] == 'c' && s[11] == 'o' && s[12] == 'm' && |s| == 13;
    assert ShapeAt(s, 4, 9);
    ShapeSplitIsUnique(s, 4, 9);
  }

  // ---------------------------------------------------------------------------
  // The Users table and `register`
  // ---------------------------------------------------------------------------

  /** A row of the Users table; `password` holds the salted hash. */
  datatype User = User(id: int, username: string, email: string, password: string)

  /** A success reply: message and status. */
  datatype Reply = Reply(message: string, status: int)

  const UsernameRequired := HttpError("Username is required", BadRequest)
  const EmailRequired := HttpError("Email is required", BadRequest)
  const InvalidEmail := HttpError("Invalid email", BadRequest)
  const PasswordRequired := HttpError("Password is required", BadRequest)
  const Registered := Reply("User registered successfully.", 201)

  function AlreadyRegistered(username: string, email: string): HttpError
  {
    HttpError("Either user \"" + username + "\" or email \"" + email + "\" is already registered.", BadRequest)
  }

  function UserId(u: User): int
  {
    u.id
  }

  /** The table's constraints: `id` is the key; `username` and `email` are UNIQUE. */
  ghost predicate ValidUsers(users: seq<User>)
  {
    UniqueBy(users, UserId) &&
    forall i, j :: 0 <= i < j < |users| ==> users[i].username != users[j].username && users[i].email != users[j].email
  }

  /** Python truthiness of a JSON member that is a string or missing. */
  predicate Falsy(v: Option<string>)
  {
    v.None? || v.value == ""
  }

  /** The validation chain of `register`; `None` when every check passes. */
  function ValidateRegistration(username: Option<string>, email: Option<string>, password: Option<string>): (r: Option<HttpError>)
    ensures r == Some(UsernameRequired) <==> Falsy(username)
    ensures r == Some(EmailRequired) <==> !Falsy(username) && Falsy(email)
    ensures r == Some(InvalidEmail) <==> !Falsy(username) && !Falsy(email) && !IsValidEmail(email.value)
    ensures r == Some(PasswordRequired) <==>
      !Falsy(username) && !Falsy(email) && IsValidEmail(email.value) && Falsy(password)
    ensures r == None <==>
      !Falsy(username) && !Falsy(email) && IsValidEmail(email.value) && !Falsy(password)
  {
    if Falsy(username) then Some(UsernameRequired)
    else if Falsy(email) then Some(EmailRequired)
    else if !IsValidEmail(email.value) then Some(InvalidEmail)
    else if Falsy(password) then Some(PasswordRequired)
    else None
  }

  /** Some row already holds the username or the email: the INSERT violates a UNIQUE constraint. */
  predicate Taken(users: seq<User>, username: string, email: string)
  {
    exists i :: 0 <= i < |users| && (users[i].username == username || users[i].email == email)
  }

  /** The id SQLite gives a new row: one more than the largest id in use. */
  function NextId(users: seq<User>): (id: int)
    ensures forall u :: u in users ==> u.id < id
    ensures id >= 1
    ensures id == 1 || exists u :: u in users && id == u.id + 1
  {
    if users == [] then 1
    else
      var rest := NextId(users[1..]);
      assert forall u :: u in users ==> u == users[0] || u in users[1..];
      if users[0].id < rest then rest
      else
        assert users[0] in users;
        users[0].id + 1
  }

  /**
   * `register` as a function of the table before the request: the reply
   * and the table after it. `hash` is `generate_password_hash`.
   */
  function Registration(users: seq<User>, username: Option<string>, email: Option<string>, password: Option<string>,
                        hash: string -> string): (r: (seq<User>, Result<Reply>))
    ensures r.1.Ok? <==> ValidateRegistration(username, email, password).None? && !Taken(users, username.value, email.value)
    ensures |r.0| == |users| + (if r.1.Ok? then 1 else 0) && r.0[..|users|] == users
  {
    match ValidateRegistration(username, email, password)
    case Some(e) => (users, Err(e))
    case None =>
      if Taken(users, username.value, email.value) then
        (users, Err(AlreadyRegistered(username.value, email.value)))
      else
        (users + [User(NextId(users), username.value, email.value, hash(password.value))], Ok(Registered))
  }

  /** Any refusal leaves the table as it was; a success appends one row and keeps the rest. */
  lemma RegistrationEffect(users: seq<User>, username: Option<string>, email: Option<string>, password: Option<string>,
                           hash: string -> string)
    ensures var (after, reply) := Registration(users, username, email, password, hash);
      && (reply.Err? ==> after == users)
      && (reply.Ok? ==>
            && reply.value == Registered && |after| == |users| + 1 && after[..|users|] == users
            && after[|users|].username == username.value && after[|users|].email == email.value
            && after[|users|].password == hash(password.value))
  {
    var (after, reply) := Registration(users, username, email, password, hash);
    if reply.Ok? {
      assert after[..|users|] == users;
    }
  }

  /**
   * Which request fails how: a validation error when a check fails, the
   * "already registered" error exactly when a valid request meets a taken
   * username or email, and success otherwise.
   */
  lemma RegistrationOutcome(users: seq<User>, username: Option<string>, email: Option<string>, password: Option<string>,
                            hash: string -> string)
    ensures var reply := Registration(users, username, email, password, hash).1;
      && (ValidateRegistration(username, email, password).Some? ==>
            reply == Err(ValidateRegistration(username, email, password).value))
      && (ValidateRegistration(username, email, password).None? ==>
            (reply.Err? <==> Taken(users, username.value, email.value)) &&
            (reply.Err? ==> reply.error == AlreadyRegistered(username.value, email.value)))
  {
  }

  /** A successful registration keeps both UNIQUE constraints and the key. */
  lemma {:induction false} RegistrationKeepsUnique(users: seq<User>, username: Option<string>, email: Option<string>,
                                                   password: Option<string>, hash: string -> string)
    requires ValidUsers(users)
    ensures ValidUsers(Registration(users, username, email, password, hash).0)
  {
    var (after, reply) := Registration(users, username, email, password, hash);
    if reply.Ok? {
      var n := |users|;
      var u := after[n];
      assert forall i :: 0 <= i < n ==> after[i] == users[i];
      assert !Taken(users, username.value, email.value);
      assert u.username == username.value && u.email == email.value;
      assert forall i :: 0 <= i < n ==> users[i].id < u.id by {
        forall i | 0 <= i < n ensures users[i].id < u.id {
          assert users[i] in users;
        }
      }
      forall i, j | 0 <= i < j < |after|
        ensures UserId(after[i]) != UserId(after[j])
        ensures after[i].username != after[j].username && after[i].email != after[j].email
      {
        if j < n {
          assert UserId(users[i]) != UserId(users[j]);
        }
      }
    }
  }

  /** The example of the registration tests: an existing username is refused. */
  lemma ExistingUserRefused(users: seq<User>, hash: string -> string)
    requires exists i :: 0 <= i < |users| && users[i].username == "test"
    ensures Registration(users, Some("test"), Some("test@test.com"), Some("test"), hash) ==
      (users, Err(AlreadyRegistered("test", "test@test.com")))
  {
    SampleEmailAccepted();
  }

  /** The Users table as the handlers see it through the database connection. */
  class UserTable {
    var users: seq<User>

    ghost predicate Valid()
      reads this
    {
      ValidUsers(users)
    }

    constructor ()
      ensures Valid() && users == []
    {
      users := [];
    }

    /** `register`: validate, then INSERT, mapping a UNIQUE violation to its message. */
    method Register(username: Option<string>, email: Option<string>, password: Option<string>, hash: string -> string)
      returns (reply: Result<Reply>)
      requires Valid()
      modifies this
      ensures Valid()
      ensures (users, reply) == Registration(old(users), username, email, password, hash)
    {
      var invalid := ValidateRegistration(username, email, password);
      if invalid.Some? {
        return Err(invalid.value);
      }
      if Taken(users, username.value, email.value) {
        return Err(AlreadyRegistered(username.value, email.value));
      }
      RegistrationKeepsUnique(users, username, email, password, hash);
      users := users + [User(NextId(users), username.value, email.value, hash(password.value))];
      reply := Ok(Registered);
    }
  }

  // ---------------------------------------------------------------------------
  // `login`
  // ---------------------------------------------------------------------------

  /** The registered claims of section 4.1 of RFC 7519 that `login` signs. */
  datatype Claims = Claims(iat: int, exp: int, sub: int)

  /** A successful login: the claims and their signed encoding. */
  datatype Token = Token(claims: Claims, encoded: string)

  const IncorrectUsername := HttpError("Incorrect username", BadRequest)
  const IncorrectPassword := HttpError("Incorrect password", BadRequest)

  /**
   * `SELECT id, password FROM Users WHERE username = ?` with `fetchone()`:
   * the first matching row. A missing username binds NULL, which no row equals.
   */
  function FindUser(users: seq<User>, username: Option<string>): (r: Option<User>)
    ensures r.Some? ==> username.Some? && r.value in users && r.value.username == username.value
    ensures r.None? ==> forall u :: u in users ==> username != Some(u.username)
  {
    if username.None? || users == [] then None
    else if users[0].username == username.value then Some(users[0])
    else
      var rest := FindUser(users[1..], username);
      assert forall u :: u in users ==> u == users[0] || u in users[1..];
      rest
  }

  /** `int(t)` for a float: truncation toward zero. */
  function TruncateToInt(t: real): (n: int)
    ensures 0.0 <= t ==> n as real <= t < n as real + 1.0
    ensures t < 0.0 ==> n as real - 1.0 < t <= n as real
  {
    if t >= 0.0 then t.Floor else -((-t).Floor)
  }

  /**
   * `login`. `checkPassword` is `check_password_hash`, `clock` the value of
   * `time.time()`, `expiration` the `JWT_EXPIRATION` setting and `encode` the
   * signing of the claims with the secret key.
   */
  function Login(users: seq<User>, username: Option<string>, password: Option<string>,
                 checkPassword: (string, Option<string>) -> bool, clock: real, expiration: int,
                 encode: Claims -> string): (r: Result<Token>)
    ensures r == Err(IncorrectUsername) <==> forall u :: u in users ==> username != Some(u.username)
    ensures r == Err(IncorrectPassword) <==>
      FindUser(users, username).Some? && !checkPassword(FindUser(users, username).value.password, password)
    ensures r.Ok? <==>
      FindUser(users, username).Some? && checkPassword(FindUser(users, username).value.password, password)
    ensures r.Ok? ==>
      && FindUser(users, username).Some?
      && checkPassword(FindUser(users, username).value.password, password)
      && r.value.claims == Claims(TruncateToInt(clock), TruncateToInt(clock) + expiration, FindUser(users, username).value.id)
      && r.value.encoded == encode(r.value.claims)
  {
    match FindUser(users, username)
    case None => Err(IncorrectUsername)
    case Some(user) =>
      if !checkPassword(user.password, password) then Err(IncorrectPassword)
      else
        var issued := TruncateToInt(clock);
        var claims := Claims(issued, issued + expiration, user.id);
        Ok(Token(claims, encode(claims)))
  }

  /**
   * With unique usernames the claims name the one user registered under the
   * given username, and the token lives exactly `expiration` seconds.
   */
  lemma LoginNamesTheUser(users: seq<User>, username: string, password: Option<string>,
                          checkPassword: (string, Option<string>) -> bool, clock: real, expiration: int,
                          encode: Claims -> string, u: User)
    requires ValidUsers(users) && u in users && u.username == username
    ensures var r := Login(users, Some(username), password, checkPassword, clock, expiration, encode);
      (r.Ok? <==> checkPassword(u.password, password)) &&
      (r.Ok? ==> r.value.claims.sub == u.id && r.value.claims.exp == r.value.claims.iat + expiration) &&
      (r.Err? ==> r.error == IncorrectPassword)
  {
    var found := FindUser(users, Some(username));
    var v := found.value;
    var i :| 0 <= i < |users| && users[i] == v;
    var j :| 0 <= j < |users| && users[j] == u;
    assert users[i].username == users[j].username;
    assert i == j;
  }

  // ---------------------------------------------------------------------------
  // `login_required`
  // ---------------------------------------------------------------------------

  /** `s.split(sep)` with an explicit separator: every occurrence splits, empty fields kept. */
  function SplitOn(s: string, sep: char): (fields: seq<string>)
    ensures |fields| >= 1
    ensures forall f :: f in fields ==> sep !in f
    decreases |s|
  {
    var i := IndexOf(s, sep);
    if i < 0 then [s]
    else
      assert sep !in s[..i] by {
        forall j | 0 <= j < i ensures s[..i][j] != sep { }
      }
      [s[..i]] + SplitOn(s[i + 1..], sep)
  }

  /** `sep.join(fields)` */
  function JoinWith(fields: seq<string>, sep: char): string
  {
    if |fields| <= 1 then (if fields == [] then "" else fields[0])
    else fields[0] + [sep] + JoinWith(fields[1..], sep)
  }

  /** Joining the fields gives back the header: nothing is lost by splitting. */
  lemma {:induction false} JoinSplit(s: string, sep: char)
    ensures JoinWith(SplitOn(s, sep), sep) == s
    decreases |s|
  {
    var i := IndexOf(s, sep);
    if i >= 0 {
      JoinSplit(s[i + 1..], sep);
      assert s == s[..i] + [sep] + s[i + 1..];
    }
  }

  /** The first separator of `f + [sep] + rest` is the one after `f` when `f` has none. */
  lemma FirstSeparator(f: string, sep: char, rest: string)
    requires sep !in f
    ensures var s := f + [sep] + rest;
      IndexOf(s, sep) == |f| && s[..|f|] == f && s[|f| + 1..] == rest
  {
    var s := f + [sep] + rest;
    assert s[|f|] == sep;
    assert forall j :: 0 <= j < |f| ==> s[j] == f[j];
  }

  /** Splitting at a first separator that follows a separator-free field. */
  lemma SplitFirstField(f: string, sep: char, rest: string)
    requires sep !in f
    ensures SplitOn(f + [sep] + rest, sep) == [f] + SplitOn(rest, sep)
  {
    FirstSeparator(f, sep, rest);
  }

  /** Splitting a join of separator-free fields gives back the fields. */
  lemma {:induction false} SplitJoin(fields: seq<string>, sep: char)
    requires |fields| >= 1 && forall f :: f in fields ==> sep !in f
    ensures SplitOn(JoinWith(fields, sep), sep) == fields
    decreases |fields|
  {
    if |fields| == 1 {
      assert fields[0] in fields;
      assert IndexOf(fields[0], sep) < 0;
    } else {
      var f, tail := fields[0], fields[1..];
      assert f in fields;
      assert forall g :: g in tail ==> g in fields;
      assert JoinWith(fields, sep) == f + [sep] + JoinWith(tail, sep);
      SplitFirstField(f, sep, JoinWith(tail, sep));
      SplitJoin(tail, sep);
      assert fields == [f] + tail;
    }
  }

  /** There are two fields or more exactly when the separator occurs. */
  lemma SplitHasSecondField(s: string, sep: char)
    ensures |SplitOn(s, sep)| >= 2 <==> sep in s
  {
    var i := IndexOf(s, sep);
    if i >= 0 {
      assert s[i] == sep;
    }
  }

  const AuthorizationHeader := "Authorization"
  const MissingToken := HttpError("Missing token", BadRequest)
  const SignatureFailed := HttpError("Token signature verification failed", BadRequest)
  const ExpiredToken := HttpError("Expired token", BadRequest)
  const UndecodableToken := HttpError("Unable to decode token", BadRequest)

  /** What `request.headers['Authorization'].split(' ')[1]` yields. */
  datatype TokenLookup = NoHeader | NoSecondField | Found(token: string)

  function ExtractToken(headers: map<string, string>): (r: TokenLookup)
    ensures r == NoHeader <==> AuthorizationHeader !in headers
    ensures r.Found? ==> ' ' !in r.token
  {
    if AuthorizationHeader !in headers then NoHeader
    else
      var fields := SplitOn(headers[AuthorizationHeader], ' ');
      if |fields| < 2 then NoSecondField else Found(fields[1])
  }

  /** `h` is `scheme`, a space, `token`, then nothing or more space-separated fields. */
  predicate CarriesToken(h: string, scheme: string, token: string, rest: string)
  {
    ' ' !in scheme && ' ' !in token && (rest == "" || rest[0] == ' ') && h == scheme + " " + token + rest
  }

  /** A join of two fields or more, written out up to its second field. */
  lemma JoinSecondField(fields: seq<string>, sep: char)
    requires |fields| >= 2
    ensures JoinWith(fields, sep) ==
      fields[0] + [sep] + fields[1] + (if |fields| == 2 then "" else [sep] + JoinWith(fields[2..], sep))
  {
    assert fields[1..][0] == fields[1] && fields[1..][1..] == fields[2..];
  }

  /** The second field of a header with a space is the word after its first space. */
  lemma SecondFieldCarried(h: string)
    requires |SplitOn(h, ' ')| >= 2
    ensures exists scheme, rest :: CarriesToken(h, scheme, SplitOn(h, ' ')[1], rest)
  {
    var fields := SplitOn(h, ' ');
    JoinSplit(h, ' ');
    JoinSecondField(fields, ' ');
    assert fields[0] in fields && fields[1] in fields;
    var rest := if |fields| == 2 then "" else " " + JoinWith(fields[2..], ' ');
    assert CarriesToken(h, fields[0], fields[1], rest);
  }

  /**
   * The token is the text between the first space of the header and the
   * next space (or the end); a header without a space has no token.
   */
  lemma TokenIsSecondField(headers: map<string, string>)
    ensures ExtractToken(headers) == NoHeader <==> AuthorizationHeader !in headers
    ensures ExtractToken(headers) == NoSecondField <==>
      AuthorizationHeader in headers && ' ' !in headers[AuthorizationHeader]
    ensures ExtractToken(headers).Found? ==>
      exists scheme, rest :: CarriesToken(headers[AuthorizationHeader], scheme, ExtractToken(headers).token, rest)
  {
    if AuthorizationHeader in headers {
      var h := headers[AuthorizationHeader];
      SplitHasSecondField(h, ' ');
      if |SplitOn(h, ' ')| >= 2 {
        SecondFieldCarried(h);
      }
    }
  }

  /** The outcomes `jwt.decode` can have, as the guard distinguishes them. */
  datatype Decoded =
    | Payload(claims: map<string, int>)
    | InvalidSignature   // jwt.InvalidSignatureError
    | ExpiredSignature   // jwt.ExpiredSignatureError
    | Undecodable        // any other jwt.DecodeError
    | OtherInvalid       // any other jwt.InvalidTokenError, which no clause catches

  /** The guard's outcome: the view's result, a 400 error, or an uncaught exception. */
  datatype Guarded<R> = Admitted(result: R) | Rejected(error: HttpError) | Crashed(exception: string)

  /**
   * `login_required(view)` applied to a request. `decode` is `jwt.decode`
   * with the secret key and HS256.
   */
  function LoginRequired<R>(headers: map<string, string>, decode: string -> Decoded, view: int -> R): (g: Guarded<R>)
    ensures AuthorizationHeader !in headers ==> g == Rejected(MissingToken)
    ensures ExtractToken(headers) == NoSecondField ==> g == Crashed("IndexError")
    ensures ExtractToken(headers).Found? ==>
      match decode(ExtractToken(headers).token)
      case InvalidSignature => g == Rejected(SignatureFailed)
      case ExpiredSignature => g == Rejected(ExpiredToken)
      case Undecodable => g == Rejected(UndecodableToken)
      case OtherInvalid => g.Crashed?
      case Payload(claims) => g == if "sub" in claims then Admitted(view(claims["sub"])) else Crashed("KeyError")
  {
    match ExtractToken(headers)
    case NoHeader => Rejected(MissingToken)
    case NoSecondField => Crashed("IndexError")
    case Found(token) =>
      match decode(token)
      case InvalidSignature => Rejected(SignatureFailed)
      case ExpiredSignature => Rejected(ExpiredToken)
      case Undecodable => Rejected(UndecodableToken)
      case OtherInvalid => Crashed("InvalidTokenError")
      case Payload(claims) =>
        if "sub" in claims then Admitted(view(claims["sub"])) else Crashed("KeyError")
  }

  /** The view runs only on a decoded token, and then with its `sub`. */
  lemma ViewOnlyOnDecodedToken<R>(headers: map<string, string>, decode: string -> Decoded, view: int -> R)
    ensures LoginRequired(headers, decode, view).Admitted? <==>
      ExtractToken(headers).Found? && decode(ExtractToken(headers).token).Payload? &&
      "sub" in decode(ExtractToken(headers).token).claims
    ensures LoginRequired(headers, decode, view).Rejected? ==> LoginRequired(headers, decode, view).error.status == BadRequest
  {
  }

  /** The three caught decoding failures have three different messages. */
  lemma DecodeFailuresDistinct()
    ensures SignatureFailed.message != ExpiredToken.message
    ensures SignatureFailed.message != UndecodableToken.message
    ensures ExpiredToken.message != UndecodableToken.message
    ensures SignatureFailed.status == ExpiredToken.status == UndecodableToken.status == BadRequest
  {
    assert SignatureFailed.message[0] == 'T' && ExpiredToken.message[0] == 'E' && UndecodableToken.message[0] == 'U';
  }

  /** A token signed by `login` names its user to the view, whatever the scheme word. */
  lemma LoginTokenAdmits<R>(scheme: string, t: Token, decode: string -> Decoded, view: int -> R)
    requires ' ' !in scheme && ' ' !in t.encoded
    requires decode(t.encoded) == Payload(map["iat" := t.claims.iat, "exp" := t.claims.exp, "sub" := t.claims.sub])
    ensures LoginRequired(map[AuthorizationHeader := scheme + " " + t.encoded], decode, view) == Admitted(view(t.claims.sub))
  {
    var h := scheme + " " + t.encoded;
    SplitJoin([scheme, t.encoded], ' ');
    assert JoinWith([scheme, t.encoded], ' ') == scheme + [' '] + JoinWith([t.encoded], ' ');
    assert h == JoinWith([scheme, t.encoded], ' ');
  }
}
