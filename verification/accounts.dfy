/**
 The auth controller: `loginUser`, `adminLogin` and `registerUser`.

 Signing, hashing, password comparison and e-mail validation are the
 libraries' business and come in as the `Crypto` parameter.
 */
module Accounts {
  import opened Wrappers
  import opened Db
  import Text
  import Auth
  import Seqs

  /** `jwt.sign`, `bcrypt.hash` (salt included), `bcrypt.compare`, `validator.isEmail`. */
  datatype Crypto = Crypto(
    sign: Auth.Claims -> string,
    hash: string -> string,
    compare: (string, string) -> bool,
    isEmail: string -> bool)

  /** `verify` accepts exactly what `sign` produced, and tokens never contain a space. */
  ghost predicate HonestTokens(c: Crypto, verify: string -> Auth.Verification)
  {
    forall claims :: verify(c.sign(claims)) == Auth.Verified(claims) && ' ' !in c.sign(claims)
  }

  /** `prisma.user.findUnique({ where: { email } })`. */
  function UserByEmail(s: Store, email: string): (r: Option<nat>)
    ensures r.Some? ==> r.value < |s.users| && s.users[r.value].email == email
    ensures r.None? ==> forall j :: 0 <= j < |s.users| ==> s.users[j].email != email
  {
    Seqs.FirstIndex(s.users, (u: User) => u.email == email)
  }

  // ---------------------------------------------------------------------------
  // loginUser
  // ---------------------------------------------------------------------------

  /** A user row without its password. */
  datatype Profile = Profile(id: int, name: string, email: string, createdAt: int)

  function ProfileOf(u: User): (p: Profile)
    ensures p.id == u.id && p.name == u.name && p.email == u.email && p.createdAt == u.createdAt
  {
    Profile(u.id, u.name, u.email, u.createdAt)
  }

  /** `LoginThrew`: the promise rejected before anything was answered. */
  datatype LoginResult = LoggedIn(token: string, profile: Profile) | LoginRefused(message: string) | LoginThrew

  /**
   `loginUser`. The successful reply carries a token and the profile but no
   `success` field, so its `success` flag reads false.
   */
  function LoginUser(s: Store, email: string, password: string, c: Crypto): (o: Outcome<LoginResult>)
    ensures o.store == s
    ensures o.reply.Reply? && !o.reply.success
    ensures Text.IsBlank(email) || Text.IsBlank(password) ==>
      o.reply.status == 400 && o.body == LoginRefused("Please fill all data")
    ensures !Text.IsBlank(email) && !Text.IsBlank(password) && UserByEmail(s, email).None? ==>
      o.reply.status == 401 && o.body == LoginRefused("User doesn't exist")
    ensures o.body.LoggedIn? <==>
      !Text.IsBlank(email) && !Text.IsBlank(password) && UserByEmail(s, email).Some?
      && c.compare(password, s.users[UserByEmail(s, email).value].password)
    ensures o.body.LoggedIn? ==>
      var u := s.users[UserByEmail(s, email).value];
      o.reply.status == 200 && o.body.token == c.sign(Auth.Claims(u.id, None))
      && o.body.profile == ProfileOf(u) && u.email == email
    ensures o.body.LoginRefused? && !Text.IsBlank(email) && !Text.IsBlank(password) ==> o.reply.status == 401
  {
    if Text.IsBlank(email) || Text.IsBlank(password) then
      Outcome(Reply(400, false), s, LoginRefused("Please fill all data"))
    else
      match UserByEmail(s, email)
      case None => Outcome(Reply(401, false), s, LoginRefused("User doesn't exist"))
      case Some(i) =>
        var u := s.users[i];
        if !c.compare(password, u.password) then Outcome(Reply(401, false), s, LoginRefused("Invalid Login"))
        else Outcome(Reply(200, false), s, LoggedIn(c.sign(Auth.Claims(u.id, None)), ProfileOf(u)))
  }

  /** The destructured request body; a field the client did not send is `None`. */
  datatype LoginBody = LoginBody(email: Option<string>, password: Option<string>)

  /**
   `loginUser` on the request body. `email.trim()` and `password.trim()` run
   outside any try/catch, so a missing field that the blank check reaches
   throws and nothing is answered. A blank e-mail answers 400 before the
   password is read.
   */
  function LoginFromBody(s: Store, body: LoginBody, c: Crypto): (o: Outcome<LoginResult>)
    ensures o.store == s
    ensures o.reply.NoReply? <==>
      body.email.None? || (!Text.IsBlank(body.email.value) && body.password.None?)
    ensures o.reply.NoReply? ==> o.body == LoginThrew
    ensures body.email.Some? && Text.IsBlank(body.email.value) ==>
      o.reply == Reply(400, false) && o.body == LoginRefused("Please fill all data")
    ensures body.email.Some? && body.password.Some? ==>
      o == LoginUser(s, body.email.value, body.password.value, c)
  {
    match body.email
    case None => Outcome(NoReply, s, LoginThrew)
    case Some(email) =>
      if Text.IsBlank(email) then LoginUser(s, email, "", c)
      else
        match body.password
        case None => Outcome(NoReply, s, LoginThrew)
        case Some(password) => LoginUser(s, email, password, c)
  }

  /** A login token, sent back as "Bearer <token>", lets the shopper through as that user. */
  lemma LoginTokenAdmitted(s: Store, email: string, password: string, c: Crypto, verify: string -> Auth.Verification)
    requires HonestTokens(c, verify)
    requires LoginUser(s, email, password, c).body.LoggedIn?
    requires LoginUser(s, email, password, c).body.profile.id != 0
    ensures var r := LoginUser(s, email, password, c).body;
      Auth.AuthUser(Some(Auth.Bearer + r.token), verify) == Auth.Proceed(Auth.Claims(r.profile.id, None))
  {
    var r := LoginUser(s, email, password, c).body;
    var u := s.users[UserByEmail(s, email).value];
    assert verify(c.sign(Auth.Claims(u.id, None))) == Auth.Verified(Auth.Claims(u.id, None));
    Auth.BearerTokenOf(r.token);
  }

  // ---------------------------------------------------------------------------
  // adminLogin
  // ---------------------------------------------------------------------------

  /** The configured ADMIN_EMAIL and ADMIN_PASSWORD, `None` when unset. */
  datatype AdminEnv = AdminEnv(adminEmail: Option<string>, adminPassword: Option<string>)

  datatype AdminReply = AdminReply(reply: Reply, token: Option<string>)

  /** `adminLogin`; a missing field is "". */
  function AdminLogin(email: string, password: string, env: AdminEnv, sign: Auth.Claims -> string): (r: AdminReply)
    ensures email == "" || password == "" ==> r == AdminReply(Reply(400, false), None)
    ensures r.reply == Ok <==>
      email != "" && password != "" && env.adminEmail == Some(email) && env.adminPassword == Some(password)
    ensures r.reply != Ok && email != "" && password != "" ==> r == AdminReply(Reply(401, false), None)
    ensures r.reply == Ok ==> r.token == Some(sign(Auth.Claims(0, Some(email))))
  {
    if email == "" || password == "" then AdminReply(Reply(400, false), None)
    else if env.adminEmail == Some(email) && env.adminPassword == Some(password) then
      AdminReply(Ok, Some(sign(Auth.Claims(0, Some(email)))))
    else AdminReply(Reply(401, false), None)
  }

  /** The admin token opens the admin guard under the same configuration. */
  lemma AdminTokenAdmitted(email: string, password: string, env: AdminEnv, c: Crypto, verify: string -> Auth.Verification)
    requires HonestTokens(c, verify)
    requires AdminLogin(email, password, env, c.sign).reply == Ok
    ensures var token := AdminLogin(email, password, env, c.sign).token.value;
      Auth.AdminAuth(Some(Auth.Bearer + token), verify, env.adminEmail) == Auth.Proceed(Auth.Claims(0, Some(email)))
  {
    var token := AdminLogin(email, password, env, c.sign).token.value;
    assert verify(c.sign(Auth.Claims(0, Some(email)))) == Auth.Verified(Auth.Claims(0, Some(email)));
    Auth.BearerTokenOf(token);
  }

  /** A shopper's login token never opens the admin guard while ADMIN_EMAIL is set. */
  lemma LoginTokenNotAdmin(s: Store, email: string, password: string, c: Crypto,
                           verify: string -> Auth.Verification, adminEmail: string)
    requires HonestTokens(c, verify)
    requires LoginUser(s, email, password, c).body.LoggedIn?
    ensures var r := LoginUser(s, email, password, c).body;
      Auth.AdminAuth(Some(Auth.Bearer + r.token), verify, Some(adminEmail)) == Auth.Deny(403, "Forbidden. Admin Access Only")
  {
    var r := LoginUser(s, email, password, c).body;
    var u := s.users[UserByEmail(s, email).value];
    assert verify(c.sign(Auth.Claims(u.id, None))) == Auth.Verified(Auth.Claims(u.id, None));
    Auth.BearerTokenOf(r.token);
  }

  // ---------------------------------------------------------------------------
  // registerUser
  // ---------------------------------------------------------------------------

  datatype RegisterRequest = RegisterRequest(name: string, email: string, password: string)

  /** The checks of `registerUser`, in the order it makes them. */
  datatype Failure = BlankField | EmailTaken | InvalidEmail | WeakPassword

  /** The position of check `f` in the handler. */
  function Rank(f: Failure): nat
  {
    match f
    case BlankField => 0
    case EmailTaken => 1
    case InvalidEmail => 2
    case WeakPassword => 3
  }

  function Message(f: Failure): string
  {
    match f
    case BlankField => "Please fill all data"
    case EmailTaken => "User already exists"
    case InvalidEmail => "Please enter a valid email"
    case WeakPassword => "Please enter a strong password"
  }

  /** Whether check `f` fails; the password is measured in UTF-16 code units, like `length`. */
  predicate Fails(s: Store, req: RegisterRequest, c: Crypto, f: Failure)
  {
    match f
    case BlankField => Text.IsBlank(req.name) || Text.IsBlank(req.email) || Text.IsBlank(req.password)
    case EmailTaken => UserByEmail(s, req.email).Some?
    case InvalidEmail => !c.isEmail(req.email)
    case WeakPassword => Text.Utf16Length(req.password) < 8
  }

  /** The failing checks, each once, in check order. */
  function Failures(s: Store, req: RegisterRequest, c: Crypto): (r: seq<Failure>)
    ensures forall f :: f in r <==> Fails(s, req, c, f)
    ensures forall i, j :: 0 <= i < j < |r| ==> Rank(r[i]) < Rank(r[j])
    ensures |r| <= 4
  {
    var a, b, d, e := Check(s, req, c, BlankField), Check(s, req, c, EmailTaken),
      Check(s, req, c, InvalidEmail), Check(s, req, c, WeakPassword);
    assert forall g :: g in a + b + d + e <==> Fails(s, req, c, g) by {
      forall g ensures g in a + b + d + e <==> Fails(s, req, c, g) {
        assert g in a + b + d + e <==> g in a || g in b || g in d || g in e;
      }
    }
    var r := a + b + d + e;
    assert forall i, j :: 0 <= i < j < |r| ==> Rank(r[i]) < Rank(r[j]) by {
      forall i, j | 0 <= i < j < |r|
        ensures Rank(r[i]) < Rank(r[j])
      {
        RankedConcat(a, b, d, e, i, j);
      }
    }
    r
  }

  /** In four checks' results laid end to end, an earlier entry comes from an earlier check. */
  lemma RankedConcat(a: seq<Failure>, b: seq<Failure>, d: seq<Failure>, e: seq<Failure>, i: nat, j: nat)
    requires forall g :: g in a ==> g == BlankField
    requires forall g :: g in b ==> g == EmailTaken
    requires forall g :: g in d ==> g == InvalidEmail
    requires forall g :: g in e ==> g == WeakPassword
    requires |a| <= 1 && |b| <= 1 && |d| <= 1 && |e| <= 1
    requires i < j < |a + b + d + e|
    ensures Rank((a + b + d + e)[i]) < Rank((a + b + d + e)[j])
  {
    RankOfPart(a, b, d, e, i);
    RankOfPart(a, b, d, e, j);
  }

  /** An entry's rank is the number of the part it comes from. */
  lemma RankOfPart(a: seq<Failure>, b: seq<Failure>, d: seq<Failure>, e: seq<Failure>, k: nat)
    requires forall g :: g in a ==> g == BlankField
    requires forall g :: g in b ==> g == EmailTaken
    requires forall g :: g in d ==> g == InvalidEmail
    requires forall g :: g in e ==> g == WeakPassword
    requires k < |a + b + d + e|
    ensures Rank((a + b + d + e)[k]) ==
      if k < |a| then 0 else if k < |a| + |b| then 1 else if k < |a| + |b| + |d| then 2 else 3
  {
    var r := a + b + d + e;
    if k < |a| {
      assert r[k] == a[k] && a[k] in a;
    } else if k < |a| + |b| {
      assert r[k] == b[k - |a|] && b[k - |a|] in b;
    } else if k < |a| + |b| + |d| {
      assert r[k] == d[k - |a| - |b|] && d[k - |a| - |b|] in d;
    } else {
      assert r[k] == e[k - |a| - |b| - |d|] && e[k - |a| - |b| - |d|] in e;
    }
  }

  /** Check `f` alone: `[f]` when it fails, nothing otherwise. */
  function Check(s: Store, req: RegisterRequest, c: Crypto, f: Failure): (r: seq<Failure>)
    ensures forall g :: g in r <==> g == f && Fails(s, req, c, f)
    ensures |r| <= 1
  {
    if Fails(s, req, c, f) then [f] else []
  }

  /** `RegisterThrew`: the promise rejected before anything was answered. */
  datatype RegisterResult = Registered(token: string, user: User) | RegisterRefused(message: string) | RegisterThrew

  function NewUser(s: Store, req: RegisterRequest, c: Crypto, now: int): (u: User)
    ensures u.id == s.nextId && u.email == req.email && u.name == req.name
    ensures u.password == c.hash(req.password)
  {
    User(s.nextId, req.name, req.email, c.hash(req.password), now)
  }

  /**
   `registerUser` as written. A failing check answers 400 but does not
   return. A second failing check then tries to answer again, which throws
   because the answer has been sent, so nothing more happens. With a single
   failing check the handler runs on: the account is created, unless the
   failure was the taken e-mail, on which the create throws on the unique
   e-mail column. The token's payload is `{ email }`.
   */
  function RegisterUser(s: Store, req: RegisterRequest, c: Crypto, now: int): (o: Outcome<RegisterResult>)
    ensures o.reply.Reply?
    ensures o.reply.success <==> |Failures(s, req, c)| == 0
    ensures !o.reply.success ==>
      o.reply.status == 400 && o.body == RegisterRefused(Message(Failures(s, req, c)[0]))
    ensures o.store == s <==> |Failures(s, req, c)| >= 2 || Failures(s, req, c) == [EmailTaken]
    ensures o.store != s ==>
      o.store == s.(users := s.users + [NewUser(s, req, c, now)], nextId := s.nextId + 1)
    ensures o.reply.success ==>
      o.body == Registered(c.sign(Auth.Claims(0, Some(req.email))), NewUser(s, req, c, now))
  {
    var failures := Failures(s, req, c);
    var created := s.(users := s.users + [NewUser(s, req, c, now)], nextId := s.nextId + 1);
    assert created != s by {
      assert |created.users| != |s.users|;
    }
    if |failures| == 0 then
      Outcome(Ok, created, Registered(c.sign(Auth.Claims(0, Some(req.email))), NewUser(s, req, c, now)))
    else if |failures| >= 2 || failures[0] == EmailTaken then
      Outcome(Reply(400, false), s, RegisterRefused(Message(failures[0])))
    else
      Outcome(Reply(400, false), created, RegisterRefused(Message(failures[0])))
  }

  /** The destructured request body; a field the client did not send is `None`. */
  datatype RegisterBody = RegisterBody(name: Option<string>, email: Option<string>, password: Option<string>)

  /**
   `registerUser` on the request body. The blank check calls `trim()` on
   name, e-mail and password in turn and stops at the first blank one. A
   missing field it reaches throws outside any try/catch: nothing is answered
   and nothing is stored. A missing field after a blank one is not reached
   there. The handler then answers 400 and runs on until the missing field
   throws, at the unique lookup for the e-mail or at `password.length` for
   the password, before any account is created.
   */
  function RegisterFromBody(s: Store, body: RegisterBody, c: Crypto, now: int): (o: Outcome<RegisterResult>)
    ensures o.reply.NoReply? <==>
      body.name.None?
      || (!Text.IsBlank(body.name.value) && body.email.None?)
      || (!Text.IsBlank(body.name.value) && !Text.IsBlank(body.email.value) && body.password.None?)
    ensures o.reply.NoReply? ==> o == Outcome(NoReply, s, RegisterThrew)
    ensures o.reply.Reply? && (body.email.None? || body.password.None?) ==>
      o == Outcome(Reply(400, false), s, RegisterRefused("Please fill all data"))
    ensures body.name.Some? && body.email.Some? && body.password.Some? ==>
      o == RegisterUser(s, RegisterRequest(body.name.value, body.email.value, body.password.value), c, now)
  {
    match body.name
    case None => Outcome(NoReply, s, RegisterThrew)
    case Some(name) =>
      if body.email.Some? && body.password.Some? then
        RegisterUser(s, RegisterRequest(name, body.email.value, body.password.value), c, now)
      else if Text.IsBlank(name) then Outcome(Reply(400, false), s, RegisterRefused("Please fill all data"))
      else
        match body.email
        case None => Outcome(NoReply, s, RegisterThrew)
        case Some(email) =>
          if Text.IsBlank(email) then Outcome(Reply(400, false), s, RegisterRefused("Please fill all data"))
          else Outcome(NoReply, s, RegisterThrew)
  }

  /**
   With exactly one failing check other than the taken e-mail, the request is
   refused with that check's message and the account is created all the same.
   */
  lemma RegisterSingleFailureCreates(s: Store, req: RegisterRequest, c: Crypto, now: int, f: Failure)
    requires Failures(s, req, c) == [f] && f != EmailTaken
    ensures var o := RegisterUser(s, req, c, now);
      o.reply == Reply(400, false) && o.body == RegisterRefused(Message(f))
      && o.store.users == s.users + [NewUser(s, req, c, now)]
  {
  }

  lemma NotBlank(s: string)
    requires |s| > 0 && !Text.IsJsSpace(s[0])
    ensures !Text.IsBlank(s)
  {
    Text.BlankIffAllSpace(s);
  }

  /**
   A fresh, valid e-mail with a three-character password is refused with
   "Please enter a strong password", yet the account is created.
   */
  lemma RegisterWeakPasswordStillCreates(s: Store, c: Crypto, now: int)
    requires c.isEmail("k@x")
    requires UserByEmail(s, "k@x").None?
    ensures var o := RegisterUser(s, RegisterRequest("K", "k@x", "abc"), c, now);
      o.reply == Reply(400, false) && o.body == RegisterRefused("Please enter a strong password")
      && |o.store.users| == |s.users| + 1
      && o.store.users[|s.users|].email == "k@x"
  {
    WeakPasswordFailsAlone(s, c);
    RegisterSingleFailureCreates(s, RegisterRequest("K", "k@x", "abc"), c, now, WeakPassword);
  }

  /** "K", "k@x" and "abc" are not blank. */
  lemma SampleFieldsFilled()
    ensures !Text.IsBlank("K") && !Text.IsBlank("k@x") && !Text.IsBlank("abc")
  {
    FilledText("K");
    FilledText("k@x");
    FilledText("abc");
  }

  /** A text that starts with a letter is not blank. */
  lemma FilledText(s: string)
    requires |s| > 0 && ('a' <= s[0] <= 'z' || 'A' <= s[0] <= 'Z')
    ensures !Text.IsBlank(s)
  {
    NotBlank(s);
  }

  /** "abc" is shorter than eight code units. */
  lemma SamplePasswordShort()
    ensures Text.Utf16Length("abc") < 8
  {
    Text.Utf16LengthBounds("abc");
  }

  /** For that request only the password check fails. */
  lemma WeakPasswordFailsAlone(s: Store, c: Crypto)
    requires c.isEmail("k@x")
    requires UserByEmail(s, "k@x").None?
    ensures Failures(s, RegisterRequest("K", "k@x", "abc"), c) == [WeakPassword]
  {
    var req := RegisterRequest("K", "k@x", "abc");
    SampleFieldsFilled();
    SamplePasswordShort();
    assert !Fails(s, req, c, BlankField);
    assert !Fails(s, req, c, EmailTaken);
    assert !Fails(s, req, c, InvalidEmail);
    assert Fails(s, req, c, WeakPassword);
    assert Check(s, req, c, BlankField) == [] && Check(s, req, c, EmailTaken) == [];
    assert Check(s, req, c, InvalidEmail) == [] && Check(s, req, c, WeakPassword) == [WeakPassword];
  }

  /** The registration token has no `id`, so the shopper guard turns it away with 401. */
  lemma RegisterTokenRejected(s: Store, req: RegisterRequest, c: Crypto, now: int, verify: string -> Auth.Verification)
    requires HonestTokens(c, verify)
    ensures RegisterUser(s, req, c, now).reply.success ==>
      var token := RegisterUser(s, req, c, now).body.token;
      Auth.AuthUser(Some(Auth.Bearer + token), verify) == Auth.Deny(401, "Invalid token: No user ID")
  {
    if RegisterUser(s, req, c, now).reply.success {
      var token := RegisterUser(s, req, c, now).body.token;
      assert verify(c.sign(Auth.Claims(0, Some(req.email)))) == Auth.Verified(Auth.Claims(0, Some(req.email)));
      Auth.BearerTokenOf(token);
    }
  }

  /**
   `registerUser` as evidently intended: the first failing check answers and
   stops, and the token carries the new user's id, as a login token does.
   */
  function RegisterUserChecked(s: Store, req: RegisterRequest, c: Crypto, now: int): (o: Outcome<RegisterResult>)
    ensures o.reply.Reply?
    ensures o.reply.success <==> |Failures(s, req, c)| == 0
    ensures !o.reply.success ==>
      o == Outcome(Reply(400, false), s, RegisterRefused(Message(Failures(s, req, c)[0])))
    ensures o.reply.success ==>
      o.store == s.(users := s.users + [NewUser(s, req, c, now)], nextId := s.nextId + 1)
      && o.body == Registered(c.sign(Auth.Claims(s.nextId, None)), NewUser(s, req, c, now))
  {
    var failures := Failures(s, req, c);
    if |failures| > 0 then Outcome(Reply(400, false), s, RegisterRefused(Message(failures[0])))
    else
      var u := NewUser(s, req, c, now);
      Outcome(Ok, s.(users := s.users + [u], nextId := s.nextId + 1), Registered(c.sign(Auth.Claims(u.id, None)), u))
  }

  /** After a corrected registration the e-mail belongs to exactly the account just created, and its token works. */
  lemma RegisterCheckedTokenAdmitted(s: Store, req: RegisterRequest, c: Crypto, now: int, verify: string -> Auth.Verification)
    requires HonestTokens(c, verify)
    requires s.nextId != 0
    ensures var o := RegisterUserChecked(s, req, c, now);
      o.reply.success ==>
        Auth.AuthUser(Some(Auth.Bearer + o.body.token), verify) == Auth.Proceed(Auth.Claims(s.nextId, None))
        && UserByEmail(o.store, req.email) == Some(|s.users|)
  {
    var o := RegisterUserChecked(s, req, c, now);
    if o.reply.success {
      assert !Fails(s, req, c, EmailTaken);
      assert verify(c.sign(Auth.Claims(s.nextId, None))) == Auth.Verified(Auth.Claims(s.nextId, None));
      Auth.BearerTokenOf(o.body.token);
      assert o.store.users[|s.users|].email == req.email;
    }
  }

  /** The corrected handler never creates an account it refused, and never a second account for one e-mail. */
  lemma RegisterCheckedKeepsEmailsUnique(s: Store, req: RegisterRequest, c: Crypto, now: int)
    requires forall i, j :: 0 <= i < j < |s.users| ==> s.users[i].email != s.users[j].email
    ensures var after := RegisterUserChecked(s, req, c, now).store.users;
      forall i, j :: 0 <= i < j < |after| ==> after[i].email != after[j].email
  {
    var o := RegisterUserChecked(s, req, c, now);
    if o.reply.success {
      assert !Fails(s, req, c, EmailTaken);
    }
  }
}
