/** Sign-up with a single-use secret code and sign-in, as the React application does
    them against the Supabase `secret_codes` and `users` tables. A `.single()` query
    yields its row only when exactly one row matches; zero or several rows are an
    error with no data. */
module Auth {
  import opened Wrappers
  import opened Records

  datatype SecretCode = SecretCode(id: Id, code: string, isUsed: bool, usedBy: Option<Id>)
  datatype User = User(id: Id, email: string, password: string, isAdmin: bool)

  /** Who a successful sign-in returns: the administrator of the environment variables,
      who has no row, or a row of the users table. */
  datatype Session = EnvAdmin(email: string) | Member(user: User)

  function SessionId(s: Session): Id {
    match s
    case EnvAdmin(_) => AdminEnvId
    case Member(u) => u.id
  }

  function SessionIsAdmin(s: Session): bool {
    match s
    case EnvAdmin(_) => true
    case Member(u) => u.isAdmin
  }

  const CodeError := "Código secreto inválido ou já utilizado"
  const UserExistsError := "Usuário já existe"
  const CreateUserError := "Erro ao criar usuário: "
  const SignInError := "Email ou senha incorretos"

  /** `.from("secret_codes").select("*").eq("code", code).eq("is_used", false)`. */
  function UnusedWithCode(codes: seq<SecretCode>, code: string): (r: seq<SecretCode>)
    ensures |r| <= |codes|
    ensures forall x :: x in r <==> x in codes && x.code == code && !x.isUsed
  {
    if codes == [] then []
    else
      var last := codes[|codes| - 1];
      UnusedWithCode(codes[..|codes| - 1], code) + (if last.code == code && !last.isUsed then [last] else [])
  }

  /** `.from("users").select("*").eq("email", email)`. */
  function UsersWithEmail(users: seq<User>, email: string): (r: seq<User>)
    ensures |r| <= |users|
    ensures forall x :: x in r <==> x in users && x.email == email
  {
    if users == [] then []
    else
      var last := users[|users| - 1];
      UsersWithEmail(users[..|users| - 1], email) + (if last.email == email then [last] else [])
  }

  lemma {:induction false} UsersWithEmailAppend(users: seq<User>, u: User, email: string)
    ensures UsersWithEmail(users + [u], email) == UsersWithEmail(users, email) + (if u.email == email then [u] else [])
  {
    assert (users + [u])[..|users|] == users;
  }

  /** `.single()`. */
  function Single<T>(rows: seq<T>): (r: Option<T>)
    ensures r.Some? <==> |rows| == 1
    ensures r.Some? ==> r.value == rows[0]
  {
    if |rows| == 1 then Some(rows[0]) else None
  }

  /** `.update({ is_used: true, used_by: userId }).eq("id", codeId)`. */
  function MarkUsed(codes: seq<SecretCode>, codeId: Id, userId: Id): (r: seq<SecretCode>)
    ensures |r| == |codes|
    ensures forall i :: 0 <= i < |codes| ==>
              r[i] == if codes[i].id == codeId then codes[i].(isUsed := true, usedBy := Some(userId)) else codes[i]
  {
    seq(|codes|, i requires 0 <= i < |codes| =>
      if codes[i].id == codeId then codes[i].(isUsed := true, usedBy := Some(userId)) else codes[i])
  }

  ghost predicate UniqueCodeIds(codes: seq<SecretCode>) {
    forall i, j :: 0 <= i < j < |codes| ==> codes[i].id != codes[j].id
  }

  /** Once the code row that let a sign-up through is marked, no unused row with that code
      is left, so the same code cannot let a second sign-up through. */
  lemma MarkedCodeIsSpent(codes: seq<SecretCode>, code: string, userId: Id)
    requires UniqueCodeIds(codes)
    requires |UnusedWithCode(codes, code)| == 1
    ensures UnusedWithCode(MarkUsed(codes, UnusedWithCode(codes, code)[0].id, userId), code) == []
  {
    var c := UnusedWithCode(codes, code)[0];
    assert c in UnusedWithCode(codes, code);
    var m := MarkUsed(codes, c.id, userId);
    forall j | 0 <= j < |m| ensures !(m[j].code == code && !m[j].isUsed) {
      if codes[j].id != c.id {
        assert codes[j] !in UnusedWithCode(codes, code) by {
          assert UnusedWithCode(codes, code) == [c];
        }
      }
    }
    NoneUnused(m, code);
  }

  lemma NoneUnused(codes: seq<SecretCode>, code: string)
    requires forall j :: 0 <= j < |codes| ==> !(codes[j].code == code && !codes[j].isUsed)
    ensures UnusedWithCode(codes, code) == []
  {
  }

  /** The two tables the authentication code reads and writes. */
  class AuthStore {
    var codes: seq<SecretCode>
    var users: seq<User>

    constructor(cs: seq<SecretCode>, us: seq<User>)
      ensures codes == cs && users == us
    {
      codes, users := cs, us;
    }

    /** `signUp(email, password, secretCode)`: the code must match exactly one unused row;
        then a single existing user with that email refuses the sign-up; then the user
        is inserted as a non-admin (the database assigns `newId`; `insertError` is the
        insert's failure message, if any); then the code row is marked used by the new
        user, a write whose failure (`markOk` false) is ignored. */
    method SignUp(email: string, password: string, secretCode: string, newId: Id,
                  insertError: Option<string>, markOk: bool) returns (r: Result<User, string>)
      modifies this
      ensures Single(UnusedWithCode(old(codes), secretCode)).None? ==>
                r == Err(CodeError) && codes == old(codes) && users == old(users)
      ensures Single(UnusedWithCode(old(codes), secretCode)).Some? && Single(UsersWithEmail(old(users), email)).Some? ==>
                r == Err(UserExistsError) && codes == old(codes) && users == old(users)
      ensures Single(UnusedWithCode(old(codes), secretCode)).Some? && Single(UsersWithEmail(old(users), email)).None? &&
              insertError.Some? ==>
                r == Err(CreateUserError + insertError.value) && codes == old(codes) && users == old(users)
      ensures r.Ok? <==>
                Single(UnusedWithCode(old(codes), secretCode)).Some? && Single(UsersWithEmail(old(users), email)).None? &&
                insertError.None?
      ensures r.Ok? ==>
                r.value == User(newId, email, password, false) && users == old(users) + [r.value] &&
                codes == if markOk then MarkUsed(old(codes), UnusedWithCode(old(codes), secretCode)[0].id, newId) else old(codes)
      ensures r.Ok? && markOk && UniqueCodeIds(old(codes)) ==> UnusedWithCode(codes, secretCode) == []
    {
      var codeData := Single(UnusedWithCode(codes, secretCode));
      if codeData.None? {
        return Err(CodeError);
      }
      var existingUser := Single(UsersWithEmail(users, email));
      if existingUser.Some? {
        return Err(UserExistsError);
      }
      if insertError.Some? {
        return Err(CreateUserError + insertError.value);
      }
      var userData := User(newId, email, password, false);
      users := users + [userData];
      if markOk {
        if UniqueCodeIds(codes) {
          MarkedCodeIsSpent(codes, secretCode, userData.id);
        }
        codes := MarkUsed(codes, codeData.value.id, userData.id);
      }
      r := Ok(userData);
    }
  }

  /** An environment variable counts only when set to a non-empty text. */
  predicate Truthy(v: Option<string>) {
    v.Some? && v.value != ""
  }

  /** `signIn(email, password)`: the environment's administrator credentials, when both
      are set, sign in without any lookup; otherwise exactly one row must have the email
      and its stored password must be the given one. Both failures give one message. */
  function SignIn(users: seq<User>, email: string, password: string, adminEmail: Option<string>, adminPassword: Option<string>)
    : (r: Result<Session, string>)
    ensures Truthy(adminEmail) && Truthy(adminPassword) && email == adminEmail.value && password == adminPassword.value ==>
              r == Ok(EnvAdmin(email))
    ensures r.Ok? && r.value.EnvAdmin? ==>
              Truthy(adminEmail) && Truthy(adminPassword) && email == adminEmail.value && password == adminPassword.value
    ensures r.Ok? && r.value.Member? ==>
              UsersWithEmail(users, email) == [r.value.user] && r.value.user.password == password
    ensures r.Err? ==> r.error == SignInError
    ensures r.Err? <==>
              !(Truthy(adminEmail) && Truthy(adminPassword) && email == adminEmail.value && password == adminPassword.value) &&
              (|UsersWithEmail(users, email)| != 1 || UsersWithEmail(users, email)[0].password != password)
  {
    if Truthy(adminEmail) && Truthy(adminPassword) && email == adminEmail.value && password == adminPassword.value then
      Ok(EnvAdmin(adminEmail.value))
    else
      match Single(UsersWithEmail(users, email))
      case None => Err(SignInError)
      case Some(u) => if u.password != password then Err(SignInError) else Ok(Member(u))
  }

  /** A user who signs up with an email no row has can then sign in with the same
      password, as that user (unless the credentials are the environment's admin's). */
  lemma SignUpThenSignIn(users: seq<User>, u: User, adminEmail: Option<string>, adminPassword: Option<string>)
    requires UsersWithEmail(users, u.email) == []
    requires !(Truthy(adminEmail) && Truthy(adminPassword) && u.email == adminEmail.value && u.password == adminPassword.value)
    ensures SignIn(users + [u], u.email, u.password, adminEmail, adminPassword) == Ok(Member(u))
  {
    UsersWithEmailAppend(users, u, u.email);
    assert UsersWithEmail(users + [u], u.email) == [u];
    assert Single(UsersWithEmail(users + [u], u.email)) == Some(u);
  }

  /** Only the environment's administrator and rows flagged admin sign in as admins;
      a sign-up never creates such a row. */
  lemma SignedUpUserIsNoAdmin(users: seq<User>, u: User, adminEmail: Option<string>, adminPassword: Option<string>)
    requires UsersWithEmail(users, u.email) == [] && !u.isAdmin
    requires !(Truthy(adminEmail) && Truthy(adminPassword) && u.email == adminEmail.value && u.password == adminPassword.value)
    ensures !SessionIsAdmin(SignIn(users + [u], u.email, u.password, adminEmail, adminPassword).value)
  {
    SignUpThenSignIn(users, u, adminEmail, adminPassword);
  }
}
