/** The institutional authentication service: an in-memory account table keyed
    by e-mail, seeded with three accounts, into which school registrations are
    inserted and against which logins are checked. */
module Auth {
  import opened JsText

  datatype Option<+T> = None | Some(value: T)

  datatype Result<+R, +E> = Success(value: R) | Failure(error: E)

  datatype Role = SuperAdmin | Coordenador | Escola

  /** A stored account. `password` is absent when the registration omitted it;
      the record itself carries no e-mail, which is its key in the table. */
  datatype Account = Account(
    id: string,
    name: string,
    password: Option<string>,
    role: Role,
    municipalityId: Option<string>,
    schoolId: Option<string>,
    lastLogin: string)

  /** What a successful login hands back: the stored account minus its password. */
  datatype User = User(
    id: string,
    name: string,
    role: Role,
    municipalityId: Option<string>,
    schoolId: Option<string>,
    lastLogin: string)

  datatype RegistrationRequest = RegistrationRequest(
    institutionName: string,
    municipality: string,
    responsibleName: string,
    email: string,
    password: Option<string>)

  /** The session token is `btoa` of its text; base64 is injective, so the
      token is kept as the text it encodes. */
  datatype Token = Base64Of(text: string)

  datatype Session = Session(user: User, token: Token)

  datatype AuthError =
    | InvalidCredentials  // thrown by login
    | EmailTaken          // thrown by registerRequest
    | InvalidCharacter    // thrown by btoa on a character above U+00FF

  type Table = map<string, Account>

  /** The text each error is thrown with; each text identifies its error. */
  function Message(e: AuthError): (m: string)
    ensures e == InvalidCredentials <==> m == "Email ou palavra-passe incorretos."
    ensures e == EmailTaken <==> m == "Este email já está registado."
    ensures e == InvalidCharacter <==> m == "InvalidCharacterError"
  {
    match e
    case InvalidCredentials => "Email ou palavra-passe incorretos."
    case EmailTaken => "Este email já está registado."
    case InvalidCharacter => "InvalidCharacterError"
  }

  /** The facts every stored account satisfies: only a school account names a
      school, every account below the province names a municipality, and
      municipality ids are lower-case. */
  predicate WellFormed(a: Account) {
    && (a.schoolId.Some? ==> a.role == Escola)
    && (a.role != SuperAdmin ==> a.municipalityId.Some?)
    && (a.municipalityId.Some? ==> IsLowerCase(a.municipalityId.value))
  }

  predicate WellFormedTable(t: Table) {
    forall e :: e in t ==> WellFormed(t[e])
  }

  const AdminEmail: string := "admin@malanje.gov.ao"
  const CoordinatorEmail: string := "coord.cacuso@malanje.gov.ao"
  const SchoolEmail: string := "direcao@escola4fevereiro.ao"

  /** The table as the module is loaded; `loadTime` is `new Date().toISOString()`
      at that moment. */
  function Seed(loadTime: string): (t: Table)
    ensures WellFormedTable(t)
    ensures forall e :: e in t ==> t[e].password == Some("123") && t[e].lastLogin == loadTime
    ensures forall e :: e in t ==> (t[e].schoolId.Some? <==> t[e].role == Escola)
  {
    map[
      AdminEmail :=
        Account("1", "Dr. António Manuel", Some("123"), SuperAdmin, None, None, loadTime),
      CoordinatorEmail :=
        Account("2", "Eng. Pedro Santos", Some("123"), Coordenador, Some("cacuso"), None, loadTime),
      SchoolEmail :=
        Account("3", "Prof. Maria Isabel", Some("123"), Escola, Some("malanje"), Some("4fevereiro"), loadTime)
    ]
  }

  /** The seed holds exactly three accounts, one per role, with distinct ids. */
  lemma SeedAccounts(loadTime: string)
    ensures Seed(loadTime).Keys == {AdminEmail, CoordinatorEmail, SchoolEmail}
    ensures |Seed(loadTime)| == 3
    ensures forall e, f :: e in Seed(loadTime) && f in Seed(loadTime) && e != f ==>
              Seed(loadTime)[e].id != Seed(loadTime)[f].id && Seed(loadTime)[e].role != Seed(loadTime)[f].role
  {
    assert AdminEmail[0] == 'a' && CoordinatorEmail[0] == 'c' && SchoolEmail[0] == 'd';
    var t := Seed(loadTime);
    assert t[AdminEmail].role == SuperAdmin && t[AdminEmail].id == "1";
    assert t[CoordinatorEmail].role == Coordenador && t[CoordinatorEmail].id == "2";
    assert t[SchoolEmail].role == Escola && t[SchoolEmail].id == "3";
    assert |{AdminEmail, CoordinatorEmail, SchoolEmail}| == 3;
  }

  /** The account a registration creates; `id` stands for the random base-36
      string and `now` for the ISO timestamp. */
  function NewAccount(data: RegistrationRequest, id: string, now: string): (a: Account)
    ensures WellFormed(a)
    ensures a.role == Escola && a.schoolId == None
    ensures a.name == data.responsibleName && a.password == data.password
    ensures a.municipalityId == Some(ToLower(data.municipality))
    ensures a.id == id && a.lastLogin == now
  {
    Account(id, data.responsibleName, data.password, Escola, Some(ToLower(data.municipality)), None, now)
  }

  /** A municipality submitted in lower case is stored as submitted, and one
      submitted in another case is stored as its lower-case form. */
  lemma NewAccountMunicipality(data: RegistrationRequest, id: string, now: string)
    ensures IsLowerCase(data.municipality) ==> NewAccount(data, id, now).municipalityId == Some(data.municipality)
    ensures NewAccount(data, id, now).municipalityId == Some(ToLower(NewAccount(data, id, now).municipalityId.value))
  {
    ToLowerIdempotent(data.municipality);
    if IsLowerCase(data.municipality) {
      ToLowerOfLowerCase(data.municipality);
    }
  }

  /** Removes the password from an account and keeps everything else. */
  function WithoutPassword(a: Account): (u: User)
    ensures WithPassword(u, a.password) == a
  {
    User(a.id, a.name, a.role, a.municipalityId, a.schoolId, a.lastLogin)
  }

  function WithPassword(u: User, password: Option<string>): Account {
    Account(u.id, u.name, password, u.role, u.municipalityId, u.schoolId, u.lastLogin)
  }

  /** Stripping the password loses nothing but the password. */
  lemma WithoutPasswordLosesOnlyPassword(a: Account, b: Account)
    ensures WithPassword(WithoutPassword(a), a.password) == a
    ensures WithoutPassword(a) == WithoutPassword(b) <==> a == b.(password := a.password)
  {
  }

  /** The text `btoa` encodes for a token: `${email}:${Date.now()}`. */
  function TokenText(email: string, now: nat): (s: string)
    ensures IsLatin1(s) <==> IsLatin1(email)
  {
    DecimalIsLatin1(now);
    Latin1Append(email, ":");
    Latin1Append(email + ":", Decimal(now));
    email + ":" + Decimal(now)
  }

  /** The stored password matches when there is one and it equals the supplied
      string; an absent password equals no string. */
  predicate CredentialsMatch(t: Table, email: string, pass: string): (b: bool)
    ensures b ==> email in t && t[email].password.Some?
    ensures email in t && t[email].password == None ==> !b
    ensures email in t && t[email].password.Some? ==> (b <==> t[email].password.value == pass)
  {
    email in t && t[email].password == Some(pass)
  }

  /** What `login(email, pass)` returns against the table `t`, `now` standing
      for `Date.now()`. */
  function Authenticate(t: Table, email: string, pass: string, now: nat): (r: Result<Session, AuthError>)
    ensures r.Success? <==> CredentialsMatch(t, email, pass) && IsLatin1(email)
    ensures r.Failure? && !CredentialsMatch(t, email, pass) ==> r.error == InvalidCredentials
    ensures r.Failure? && CredentialsMatch(t, email, pass) ==> r.error == InvalidCharacter
    ensures r.Success? ==> WithPassword(r.value.user, t[email].password) == t[email]
    ensures r.Success? ==> r.value.token == Base64Of(TokenText(email, now))
  {
    if CredentialsMatch(t, email, pass) then
      var text := TokenText(email, now);
      if IsLatin1(text) then Success(Session(WithoutPassword(t[email]), Base64Of(text)))
      else Failure(InvalidCharacter)
    else Failure(InvalidCredentials)
  }

  /** Registration with an absent password leaves an account no string can log
      in to. */
  lemma PasswordlessAccountIsLocked(t: Table, data: RegistrationRequest, id: string, ts: string, pass: string, now: nat)
    requires data.password == None
    ensures Authenticate(t[data.email := NewAccount(data, id, ts)], data.email, pass, now) == Failure(InvalidCredentials)
  {
  }

  /** Logging in to a freshly registered account with the password it was
      registered with yields a school user with the registered name. */
  lemma RegisterThenLogin(t: Table, data: RegistrationRequest, id: string, ts: string, pass: string, now: nat)
    requires data.password == Some(pass) && IsLatin1(data.email)
    ensures Authenticate(t[data.email := NewAccount(data, id, ts)], data.email, pass, now)
         == Success(Session(User(id, data.responsibleName, Escola, Some(ToLower(data.municipality)), None, ts),
                            Base64Of(TokenText(data.email, now))))
  {
  }

  /** A registration does not change how any other e-mail logs in. */
  lemma RegisterKeepsOtherLogins(t: Table, data: RegistrationRequest, id: string, ts: string, email: string, pass: string, now: nat)
    requires email != data.email
    ensures Authenticate(t[data.email := NewAccount(data, id, ts)], email, pass, now) == Authenticate(t, email, pass, now)
  {
  }

  /** An e-mail with a character outside Latin-1 never logs in, whatever the
      password, because `btoa` refuses the token text. */
  lemma NonLatin1EmailNeverLogsIn(t: Table, email: string, pass: string, now: nat)
    requires !IsLatin1(email)
    ensures Authenticate(t, email, pass, now).Failure?
  {
  }

  /** Every seeded e-mail is plain ASCII, so `btoa` accepts its token text. */
  lemma SeedEmailsAreLatin1()
    ensures IsLatin1(AdminEmail) && IsLatin1(CoordinatorEmail) && IsLatin1(SchoolEmail)
  {
    assert forall i :: 0 <= i < |AdminEmail| ==> AdminEmail[i] <= 'z';
    assert forall i :: 0 <= i < |CoordinatorEmail| ==> CoordinatorEmail[i] <= 'z';
    assert forall i :: 0 <= i < |SchoolEmail| ==> SchoolEmail[i] <= 'z';
  }

  /** Each seeded account logs in with "123" and comes back with its role. */
  lemma SeedLogins(loadTime: string, now: nat)
    ensures Authenticate(Seed(loadTime), AdminEmail, "123", now).Success?
    ensures Authenticate(Seed(loadTime), AdminEmail, "123", now).value.user.role == SuperAdmin
    ensures Authenticate(Seed(loadTime), CoordinatorEmail, "123", now).Success?
    ensures Authenticate(Seed(loadTime), CoordinatorEmail, "123", now).value.user.role == Coordenador
    ensures Authenticate(Seed(loadTime), SchoolEmail, "123", now).Success?
    ensures Authenticate(Seed(loadTime), SchoolEmail, "123", now).value.user.role == Escola
  {
    SeedAccounts(loadTime);
    SeedEmailsAreLatin1();
  }

  /** E-mails are keys compared exactly: a capitalised variant of a seeded
      e-mail is refused, as is a wrong password. */
  lemma SeedLoginIsExact(loadTime: string, now: nat)
    ensures Authenticate(Seed(loadTime), "Admin@malanje.gov.ao", "123", now) == Failure(InvalidCredentials)
    ensures Authenticate(Seed(loadTime), AdminEmail, "1234", now) == Failure(InvalidCredentials)
  {
    SeedAccounts(loadTime);
    assert "Admin@malanje.gov.ao"[0] == 'A';
  }

  /** The module-level table `MOCK_USERS` and the two operations on it. */
  class AuthService {
    var users: Table

    ghost predicate Valid()
      reads this
    {
      WellFormedTable(users)
    }

    constructor (loadTime: string)
      ensures Valid()
      ensures users == Seed(loadTime)
    {
      users := Seed(loadTime);
    }

    /** `authService.login`: a lookup and a comparison; the table is only
        read, so the outcome is `Authenticate` on the current table. */
    method Login(email: string, pass: string, now: nat) returns (r: Result<Session, AuthError>)
      ensures r == Authenticate(users, email, pass, now)
    {
      r := Authenticate(users, email, pass, now);
    }

    /** `authService.registerRequest`: inserts a school account under a new
        e-mail, refuses an e-mail that is already a key. */
    method RegisterRequest(data: RegistrationRequest, id: string, now: string) returns (r: Result<bool, AuthError>)
      requires Valid()
      modifies this
      ensures Valid()
      ensures data.email in old(users) ==> r == Failure(EmailTaken) && users == old(users)
      ensures data.email !in old(users) ==> r == Success(true) && users == old(users)[data.email := NewAccount(data, id, now)]
      ensures users.Keys == old(users.Keys) + {data.email}
      ensures forall e :: e in old(users) ==> users[e] == old(users)[e]
    {
      if data.email in users {
        r := Failure(EmailTaken);
        return;
      }
      users := users[data.email := NewAccount(data, id, now)];
      r := Success(true);
    }
  }
}
