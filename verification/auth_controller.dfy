/**
 * The authentication controller: validation of signup and login input,
 * the user part of the response, and the decision logic of `signup`,
 * `login` and `getMe`.
 *
 * A request body is the map of its string-valued fields.  Password hashing,
 * password comparison and token signing are parameters.
 */
module AuthController {
  import opened Prelude
  import opened AppErrors
  import Text
  import opened Store
  import AuthModel
  import AuthMiddleware

  type Body = map<string, string>

  // ---------------------------------------------------------------------
  // Required fields

  /** `!fields[field]`: the field is absent (`undefined`) or empty. */
  predicate Missing(fields: Body, field: string) {
    field !in fields || fields[field] == ""
  }

  /** `body.field`, with an absent field read as the empty string (both are
      falsy, and every use below is behind a `Missing` check). */
  function Field(fields: Body, field: string): string {
    if field in fields then fields[field] else ""
  }

  /** `validateFields`: the first required field, in list order, that is
      missing is reported as 400 "Missing <field>". */
  function ValidateFields(fields: Body, required: seq<string>): (r: Result<Unit, Thrown>)
    ensures r.Ok? <==> forall i :: 0 <= i < |required| ==> !Missing(fields, required[i])
    ensures r.Err? ==>
      exists i :: 0 <= i < |required| && Missing(fields, required[i])
        && (forall j :: 0 <= j < i ==> !Missing(fields, required[j]))
        && r.error == Fail(BadRequest, "Missing " + required[i])
  {
    if required == [] then Ok(Unit)
    else if Missing(fields, required[0]) then Err(Fail(BadRequest, "Missing " + required[0]))
    else
      var r := ValidateFields(fields, required[1..]);
      if r.Err? then
        var i :| 0 <= i < |required[1..]| && Missing(fields, required[1..][i])
          && (forall j :: 0 <= j < i ==> !Missing(fields, required[1..][j]))
          && r.error == Fail(BadRequest, "Missing " + required[1..][i]);
        assert required[i + 1] == required[1..][i];
        r
      else
        r
  }

  // ---------------------------------------------------------------------
  // Email: /^[^\s@]+@[^\s@]+\.[^\s@]+$/

  /** A run matched by `[^\s@]+`. */
  predicate Part(s: string) {
    s != [] && forall i :: 0 <= i < |s| ==> PartChar(s[i])
  }

  /** `[^\s@]`. */
  predicate PartChar(c: char) {
    c != '@' && !Text.IsJsSpace(c)
  }

  /** The shape the regular expression describes: A@B.C with three parts. */
  ghost predicate EmailShape(s: string) {
    exists a, b, c :: Part(a) && Part(b) && Part(c) && s == a + "@" + b + "." + c
  }

  /** The check as a matcher makes it: a part before the first '@', and
      after it a part that holds a '.' neither first nor last. */
  predicate ValidEmail(s: string) {
    var i := Text.IndexOf(s, '@');
    var rest := if i < |s| then s[i + 1..] else [];
    i < |s| && Part(s[..i]) && Part(rest) && |rest| >= 3 && '.' in rest[1..|rest| - 1]
  }

  lemma ValidEmailHasShape(s: string)
    requires ValidEmail(s)
    ensures EmailShape(s)
  {
    var i := Text.IndexOf(s, '@');
    var a, rest := s[..i], s[i + 1..];
    assert s == a + "@" + rest;
    var k := SplitAtInnerDot(rest);
    ShapeWitness(s, a, rest[..k], rest[k + 1..]);
  }

  lemma ShapeWitness(s: string, a: string, b: string, c: string)
    requires Part(a) && Part(b) && Part(c) && s == a + "@" + (b + "." + c)
    ensures EmailShape(s)
  {
    assert s == a + "@" + b + "." + c;
  }

  /** A part holding an inner '.' is two parts around it. */
  lemma SplitAtInnerDot(rest: string) returns (k: nat)
    requires Part(rest) && |rest| >= 3 && '.' in rest[1..|rest| - 1]
    ensures 0 < k < |rest| - 1 && rest[k] == '.'
    ensures Part(rest[..k]) && Part(rest[k + 1..]) && rest == rest[..k] + "." + rest[k + 1..]
  {
    var mid := rest[1..|rest| - 1];
    var m :| 0 <= m < |mid| && mid[m] == '.';
    k := m + 1;
    assert rest[k] == mid[m];
    var b, c := rest[..k], rest[k + 1..];
    forall j | 0 <= j < |b| ensures PartChar(b[j]) {
      assert b[j] == rest[j];
    }
    forall j | 0 <= j < |c| ensures PartChar(c[j]) {
      assert c[j] == rest[k + 1 + j];
    }
    assert rest == b + [rest[k]] + c;
  }

  lemma ShapeIsValidEmail(s: string, a: string, b: string, c: string)
    requires Part(a) && Part(b) && Part(c) && s == a + "@" + b + "." + c
    ensures ValidEmail(s)
  {
    assert s[|a|] == '@';
    forall j | 0 <= j < |a| ensures s[j] != '@' {
      assert s[j] == a[j];
    }
    Text.IndexOfIsFirst(s, '@', |a|);
    var rest := s[|a| + 1..];
    assert rest == b + "." + c;
    assert rest[1..|rest| - 1][|b| - 1] == '.';
  }

  lemma ValidEmailIff(s: string)
    ensures ValidEmail(s) <==> EmailShape(s)
  {
    if ValidEmail(s) {
      ValidEmailHasShape(s);
    }
    if EmailShape(s) {
      var a, b, c :| Part(a) && Part(b) && Part(c) && s == a + "@" + b + "." + c;
      ShapeIsValidEmail(s, a, b, c);
    }
  }

  function ValidateEmail(email: string): (r: Result<Unit, Thrown>)
    ensures r.Ok? <==> EmailShape(email)
    ensures r.Err? ==> r.error == Fail(BadRequest, "Invalid email format")
  {
    ValidEmailIff(email);
    if ValidEmail(email) then Ok(Unit) else Err(Fail(BadRequest, "Invalid email format"))
  }

  // ---------------------------------------------------------------------
  // Username: /^[a-zA-Z0-9_]{3,20}$/

  predicate IsWordChar(c: char) {
    Text.IsUpper(c) || Text.IsLower(c) || Text.IsDigit(c) || c == '_'
  }

  const UsernameRule: string :=
    "Username must be 3-20 characters and contain only letters, numbers, and underscores"

  /** A matcher for `[a-zA-Z0-9_]{lo,hi}$`: take one word character while
      the upper bound allows, and at the end of the input accept once the
      lower bound is met. */
  function MatchWordRepeat(s: string, lo: nat, hi: nat): bool
    decreases |s|
  {
    if s == [] then lo == 0
    else hi > 0 && IsWordChar(s[0]) && MatchWordRepeat(s[1..], if lo > 0 then lo - 1 else 0, hi - 1)
  }

  /** The matcher accepts exactly the strings of `lo` to `hi` word
      characters. */
  lemma {:induction false} MatchWordRepeatIff(s: string, lo: nat, hi: nat)
    ensures MatchWordRepeat(s, lo, hi) <==> lo <= |s| <= hi && forall i :: 0 <= i < |s| ==> IsWordChar(s[i])
    decreases |s|
  {
    if s != [] && hi > 0 {
      var t := s[1..];
      MatchWordRepeatIff(t, if lo > 0 then lo - 1 else 0, hi - 1);
      if IsWordChar(s[0]) && forall i :: 0 <= i < |t| ==> IsWordChar(t[i]) {
        forall i | 0 <= i < |s| ensures IsWordChar(s[i]) {
          if i > 0 {
            assert s[i] == t[i - 1];
          }
        }
      }
      if forall i :: 0 <= i < |s| ==> IsWordChar(s[i]) {
        forall i | 0 <= i < |t| ensures IsWordChar(t[i]) {
          assert t[i] == s[i + 1];
        }
      }
    }
  }

  /** `validateUsername`: the anchored match of 3 to 20 word characters. */
  function ValidateUsername(username: string): (r: Result<Unit, Thrown>)
    ensures r.Ok? <==> 3 <= |username| <= 20 && forall i :: 0 <= i < |username| ==> IsWordChar(username[i])
    ensures r.Err? ==> r.error == Fail(BadRequest, UsernameRule)
  {
    MatchWordRepeatIff(username, 3, 20);
    if MatchWordRepeat(username, 3, 20) then Ok(Unit) else Err(Fail(BadRequest, UsernameRule))
  }

  // ---------------------------------------------------------------------
  // Password rules

  /** One entry of the rule list: whether it holds, and its message. */
  datatype Rule = Rule(holds: bool, message: string)

  predicate IsSpecial(c: char) {
    c in "!@#$%^&*(),.?\":{}|<>"
  }

  predicate Has(s: string, p: char -> bool) {
    exists i :: 0 <= i < |s| && p(s[i])
  }

  /** The rules in the order they are listed; lengths are UTF-16 lengths. */
  function PasswordRules(password: string): (rules: seq<Rule>)
    ensures |rules| == 7
    ensures (forall i :: 0 <= i < |rules| ==> rules[i].holds) <==> StrongPassword(password)
  {
    var rules :=
    [ Rule(Text.Utf16Length(password) >= 8, "Password must be at least 8 characters long"),
      Rule(Text.Utf16Length(password) <= 50, "Password must not exceed 50 characters"),
      Rule(Has(password, Text.IsUpper), "Password must contain at least one uppercase letter"),
      Rule(Has(password, Text.IsLower), "Password must contain at least one lowercase letter"),
      Rule(Has(password, Text.IsDigit), "Password must contain at least one number"),
      Rule(Has(password, IsSpecial), "Password must contain at least one special character"),
      Rule(!Has(password, Text.IsJsSpace), "Password must not contain spaces") ];
    assert (forall i :: 0 <= i < 7 ==> rules[i].holds) <==>
      rules[0].holds && rules[1].holds && rules[2].holds && rules[3].holds
      && rules[4].holds && rules[5].holds && rules[6].holds by {
      if rules[0].holds && rules[1].holds && rules[2].holds && rules[3].holds
        && rules[4].holds && rules[5].holds && rules[6].holds {
        forall i | 0 <= i < 7 ensures rules[i].holds {
          if i == 0 {} else if i == 1 {} else if i == 2 {} else if i == 3 {} else if i == 4 {} else if i == 5 {} else {}
        }
      }
    }
    rules
  }

  /** The message of the first rule that does not hold. */
  function FirstFailure(rules: seq<Rule>): (r: Option<string>)
    ensures r.None? <==> forall i :: 0 <= i < |rules| ==> rules[i].holds
    ensures r.Some? ==>
      exists i :: 0 <= i < |rules| && !rules[i].holds
        && (forall j :: 0 <= j < i ==> rules[j].holds) && r.value == rules[i].message
  {
    if rules == [] then None
    else if !rules[0].holds then Some(rules[0].message)
    else
      var r := FirstFailure(rules[1..]);
      if r.Some? then
        var i :| 0 <= i < |rules[1..]| && !rules[1..][i].holds
          && (forall j :: 0 <= j < i ==> rules[1..][j].holds) && r.value == rules[1..][i].message;
        assert rules[i + 1] == rules[1..][i];
        r
      else
        r
  }

  /** Every password rule, stated directly. */
  predicate StrongPassword(password: string) {
    && 8 <= Text.Utf16Length(password) <= 50
    && Has(password, Text.IsUpper) && Has(password, Text.IsLower) && Has(password, Text.IsDigit)
    && Has(password, IsSpecial) && !Has(password, Text.IsJsSpace)
  }

  /** `validatePassword`: accepted exactly when every rule holds; otherwise
      the first failing rule's message. */
  function ValidatePassword(password: string): (r: Result<Unit, Thrown>)
    ensures r.Ok? <==> StrongPassword(password)
    ensures r.Err? ==>
      exists i :: 0 <= i < 7 && !PasswordRules(password)[i].holds
        && (forall j :: 0 <= j < i ==> PasswordRules(password)[j].holds)
        && r.error == Fail(BadRequest, PasswordRules(password)[i].message)
  {
    var rules := PasswordRules(password);
    match FirstFailure(rules)
    case None => Ok(Unit)
    case Some(m) => Err(Fail(BadRequest, m))
  }

  /** A password shorter than 8 is reported as too short, whatever else is
      wrong with it. */
  lemma ShortPasswordReportedFirst(password: string)
    requires Text.Utf16Length(password) < 8
    ensures ValidatePassword(password) == Err(Fail(BadRequest, "Password must be at least 8 characters long"))
  {
  }

  /** A long enough password with no upper-case letter is reported for the
      upper-case rule, even when it also lacks a digit or has a space. */
  lemma MissingUpperReportedBeforeLaterRules(password: string)
    requires 8 <= Text.Utf16Length(password) <= 50 && !Has(password, Text.IsUpper)
    ensures ValidatePassword(password)
      == Err(Fail(BadRequest, "Password must contain at least one uppercase letter"))
  {
    var rules := PasswordRules(password);
    assert !rules[2].holds && rules[0].holds && rules[1].holds;
  }

  /** When the rules before rule `k` hold and rule `k` fails, rule `k`'s
      message is the one reported. */
  lemma FailingRuleReported(password: string, k: nat)
    requires k < 7 && !PasswordRules(password)[k].holds
    requires forall j :: 0 <= j < k ==> PasswordRules(password)[j].holds
    ensures ValidatePassword(password) == Err(Fail(BadRequest, PasswordRules(password)[k].message))
  {
    var rules := PasswordRules(password);
    assert !StrongPassword(password);
    var r := ValidatePassword(password);
    var i :| 0 <= i < 7 && !rules[i].holds && (forall j :: 0 <= j < i ==> rules[j].holds)
      && r.error == Fail(BadRequest, rules[i].message);
    assert i == k;
  }

  /** Each later rule is reported once every rule listed before it holds. */
  lemma LaterRulesReportedInOrder(password: string)
    ensures Text.Utf16Length(password) > 50
      ==> ValidatePassword(password) == Err(Fail(BadRequest, "Password must not exceed 50 characters"))
    ensures (8 <= Text.Utf16Length(password) <= 50 && Has(password, Text.IsUpper) && !Has(password, Text.IsLower))
      ==> ValidatePassword(password) == Err(Fail(BadRequest, "Password must contain at least one lowercase letter"))
    ensures (8 <= Text.Utf16Length(password) <= 50 && Has(password, Text.IsUpper) && Has(password, Text.IsLower)
             && !Has(password, Text.IsDigit))
      ==> ValidatePassword(password) == Err(Fail(BadRequest, "Password must contain at least one number"))
    ensures (8 <= Text.Utf16Length(password) <= 50 && Has(password, Text.IsUpper) && Has(password, Text.IsLower)
             && Has(password, Text.IsDigit) && !Has(password, IsSpecial))
      ==> ValidatePassword(password) == Err(Fail(BadRequest, "Password must contain at least one special character"))
    ensures (8 <= Text.Utf16Length(password) <= 50 && Has(password, Text.IsUpper) && Has(password, Text.IsLower)
             && Has(password, Text.IsDigit) && Has(password, IsSpecial) && Has(password, Text.IsJsSpace))
      ==> ValidatePassword(password) == Err(Fail(BadRequest, "Password must not contain spaces"))
  {
    var rules := PasswordRules(password);
    var n := Text.Utf16Length(password);
    if n > 50 {
      FailingRuleReported(password, 1);
    } else if 8 <= n {
      if !rules[3].holds && rules[2].holds {
        FailingRuleReported(password, 3);
      } else if !rules[4].holds && rules[2].holds && rules[3].holds {
        FailingRuleReported(password, 4);
      } else if !rules[5].holds && rules[2].holds && rules[3].holds && rules[4].holds {
        FailingRuleReported(password, 5);
      } else if !rules[6].holds && rules[2].holds && rules[3].holds && rules[4].holds && rules[5].holds {
        FailingRuleReported(password, 6);
      }
    }
  }

  // ---------------------------------------------------------------------
  // Responses

  /** The user part of every auth response. */
  datatype UserView = UserView(username: string, name: string, email: string)

  datatype AuthReply = AuthReply(user: UserView, token: string)

  /** `formatUserResponse`: only username, name and email are exposed. */
  function FormatUserResponse(u: User, token: string): (r: AuthReply)
    ensures r.user.username == u.username && r.user.name == u.name && r.user.email == u.email
    ensures r.token == token
  {
    AuthReply(UserView(u.username, u.name, u.email), token)
  }

  /** The response does not depend on the password hash or the avatar. */
  lemma ResponseHidesSecrets(u: User, hash: string, avatar: Option<string>, token: string)
    ensures FormatUserResponse(u.(passwordHash := hash, avatarUrl := avatar), token) == FormatUserResponse(u, token)
  {
  }

  // ---------------------------------------------------------------------
  // Handlers

  const SignupFields: seq<string> := ["username", "name", "email", "password"]
  const LoginFields: seq<string> := ["email", "password"]
  const BadCredentials: Thrown := Fail(Unauthorized, "Invalid credentials")

  /** `signup`: fields, then email, then username, then password, then the
      uniqueness check; 201 with the new user and a token for its name. */
  function Signup(db: Db, body: Body, hash: string -> string, sign: string -> string): (r: Outcome<AuthReply>)
    ensures ValidateFields(body, SignupFields).Err? ==> r == Err(ValidateFields(body, SignupFields).error)
    ensures ValidateFields(body, SignupFields).Ok? ==>
      var username, name, email, password := Field(body, "username"), Field(body, "name"), Field(body, "email"), Field(body, "password");
      && (ValidateEmail(email).Err? ==> r == Err(ValidateEmail(email).error))
      && (ValidateEmail(email).Ok? && ValidateUsername(username).Err? ==> r == Err(ValidateUsername(username).error))
      && (ValidateEmail(email).Ok? && ValidateUsername(username).Ok? && ValidatePassword(password).Err? ==>
            r == Err(ValidatePassword(password).error))
      && (r.Ok? <==> EmailShape(email) && ValidateUsername(username).Ok? && StrongPassword(password)
                     && !AuthModel.Taken(db, username, email))
      && ((EmailShape(email) && ValidateUsername(username).Ok? && StrongPassword(password)
           && AuthModel.Taken(db, username, email)) ==> r == Err(AuthModel.AccountTaken))
      && (r.Ok? ==> r.value.1 == Reply(201, AuthReply(UserView(username, name, email), sign(username)))
                    && r.value.0.users == db.users + [User(username, name, email, hash(password), None)])
  {
    var _ :- ValidateFields(body, SignupFields);
    var username, name, email, password := Field(body, "username"), Field(body, "name"), Field(body, "email"), Field(body, "password");
    var _ :- ValidateEmail(email);
    var _ :- ValidateUsername(username);
    var _ :- ValidatePassword(password);
    var (db', u) :- AuthModel.CreateUser(db, username, name, email, hash(password));
    Ok((db', Reply(201, FormatUserResponse(u, sign(u.username)))))
  }

  /** `login`: the fields, then the user by email, then the password; the
      store is never changed. */
  function Login(db: Db, body: Body, compare: (string, string) -> bool, sign: string -> string)
    : (r: Outcome<AuthReply>)
    ensures ValidateFields(body, LoginFields).Err? ==> r == Err(ValidateFields(body, LoginFields).error)
    ensures r.Ok? ==> r.value.0 == db && r.value.1.statusCode == 200
    ensures ValidateFields(body, LoginFields).Ok? ==>
      var email, password := Field(body, "email"), Field(body, "password");
      match AuthModel.FindUserByEmail(db, email)
      case None => r == Err(BadCredentials)
      case Some(u) =>
        (compare(password, u.passwordHash) ==> r == Ok((db, Reply(200, FormatUserResponse(u, sign(u.username))))))
        && (!compare(password, u.passwordHash) ==> r == Err(BadCredentials))
  {
    var _ :- ValidateFields(body, LoginFields);
    var email, password := Field(body, "email"), Field(body, "password");
    match AuthModel.FindUserByEmail(db, email)
    case None => Err(BadCredentials)
    case Some(u) =>
      if !compare(password, u.passwordHash) then Err(BadCredentials)
      else Ok((db, Reply(200, FormatUserResponse(u, sign(u.username)))))
  }

  /** An unknown email and a wrong password are answered identically, so a
      caller cannot tell which one it was. */
  lemma LoginFailuresIndistinguishable(
    db: Db, body: Body, compare: (string, string) -> bool, sign: string -> string)
    requires ValidateFields(body, LoginFields).Ok?
    requires Login(db, body, compare, sign).Err?
    ensures Login(db, body, compare, sign).error == BadCredentials
  {
  }

  /** `getMe`: the caller's own user, or 404 when the account is gone. */
  function GetMe(db: Db, caller: AuthMiddleware.Identity): (r: Result<Reply<UserView>, Thrown>)
    ensures AuthModel.FindUserByUsername(db, caller.username).None? <==> r.Err?
    ensures r.Err? ==> r.error == AuthModel.UserNotFound
    ensures r.Ok? ==> r.value.statusCode == 200 && r.value.body.username == caller.username
    ensures r.Ok? ==>
      exists i :: 0 <= i < |db.users| && db.users[i].username == caller.username
        && r.value.body == UserView(db.users[i].username, db.users[i].name, db.users[i].email)
  {
    match AuthModel.FindUserByUsername(db, caller.username)
    case None => Err(AuthModel.UserNotFound)
    case Some(u) => Ok(Reply(200, FormatUserResponse(u, "").user))
  }

  /** The token issued at signup names the new user, and logging in with the
      same password afterwards succeeds for that user. */
  lemma SignupThenLogin(
    db: Db, body: Body, hash: string -> string, compare: (string, string) -> bool, sign: string -> string)
    requires WellFormed(db)
    requires Signup(db, body, hash, sign).Ok?
    requires compare(Field(body, "password"), hash(Field(body, "password")))
    ensures var db' := Signup(db, body, hash, sign).value.0;
      Login(db', map["email" := Field(body, "email"), "password" := Field(body, "password")], compare, sign).Ok?
  {
    var email, password := Field(body, "email"), Field(body, "password");
    var r := AuthModel.CreateUser(db, Field(body, "username"), Field(body, "name"), email, hash(password));
    AuthModel.CreateUserKeepsKeys(db, Field(body, "username"), Field(body, "name"), email, hash(password));
    var login := map["email" := email, "password" := password];
    assert ValidateFields(login, LoginFields).Ok?;
  }

  /** After a signup, `getMe` for the new user answers with exactly the
      username, name and email that were registered. */
  lemma SignupThenGetMe(db: Db, body: Body, hash: string -> string, sign: string -> string)
    requires WellFormed(db)
    requires Signup(db, body, hash, sign).Ok?
    ensures var db' := Signup(db, body, hash, sign).value.0;
      GetMe(db', AuthMiddleware.Identity(Field(body, "username")))
        == Ok(Reply(200, UserView(Field(body, "username"), Field(body, "name"), Field(body, "email"))))
  {
    var username, email, password := Field(body, "username"), Field(body, "email"), Field(body, "password");
    AuthModel.CreateUserKeepsKeys(db, username, Field(body, "name"), email, hash(password));
  }
}
