/** `AuthController`: registration, throttled login by email or username,
    token revocation and the `me` endpoint, over the users table, the
    personal-access-token table and the shared counter store. */
module AuthController {
  import opened Common
  import opened Strings
  import opened RateLimiter
  import opened UserModel

  /** The login throttle: 5 failures per client IP; the first failure opens
      a 900-second (15-minute) window, which later failures do not extend. */
  const LOGIN_MAX_ATTEMPTS: nat := 5
  const LOGIN_DECAY_SECONDS: nat := 900

  /** Tokens are issued for 30 days. */
  const TOKEN_LIFETIME_SECONDS: int := 30 * 24 * 60 * 60

  // ------------------------------------------------------------ tokens

  type TokenId = nat

  /** A personal access token row: its owner, its name and its expiry. The
      plain-text secret is not modelled. */
  datatype Token = Token(owner: UserId, name: string, expiresAt: int)

  datatype Tokens = Tokens(issued: map<TokenId, Token>, nextId: TokenId)

  /** Every issued token has a key below the next one to be handed out. */
  predicate TokensValid(t: Tokens) {
    forall id :: id in t.issued ==> id < t.nextId
  }

  /** createToken('auth_token', ['*'], now()->addDays(30)): one new token,
      under a key no existing token has, owned by `owner`, expiring in 30
      days; the existing tokens are untouched. */
  function Mint(t: Tokens, owner: UserId, now: int): (r: Tokens)
    ensures TokensValid(t) ==> TokensValid(r) && t.nextId !in t.issued
    ensures r.nextId == t.nextId + 1
    ensures t.nextId in r.issued && r.issued[t.nextId] == Token(owner, "auth_token", now + TOKEN_LIFETIME_SECONDS)
    ensures forall id :: id != t.nextId ==> (id in r.issued <==> id in t.issued)
    ensures forall id :: id in t.issued && id != t.nextId ==> r.issued[id] == t.issued[id]
  {
    Tokens(t.issued[t.nextId := Token(owner, "auth_token", now + TOKEN_LIFETIME_SECONDS)], t.nextId + 1)
  }

  /** logout: only the token of the current request is revoked. */
  function AfterLogout(t: Tokens, current: TokenId): (r: Tokens)
    ensures current !in r.issued && r.nextId == t.nextId
    ensures forall id :: id != current ==> (id in r.issued <==> id in t.issued)
    ensures forall id :: id in r.issued ==> r.issued[id] == t.issued[id]
  {
    Tokens(t.issued - {current}, t.nextId)
  }

  /** logoutAll: every token of `user` is revoked, and only those. */
  function AfterLogoutAll(t: Tokens, user: UserId): (r: Tokens)
    ensures r.nextId == t.nextId
    ensures forall id :: id in r.issued <==> id in t.issued && t.issued[id].owner != user
    ensures forall id :: id in r.issued ==> r.issued[id] == t.issued[id]
  {
    Tokens(map id | id in t.issued && t.issued[id].owner != user :: t.issued[id], t.nextId)
  }

  /** A user with two sessions who logs out of one keeps the other; logging
      out everywhere leaves none of theirs. */
  lemma LogoutVersusLogoutAll(t: Tokens, a: TokenId, b: TokenId)
    requires a in t.issued && b in t.issued && a != b && t.issued[a].owner == t.issued[b].owner
    ensures b in AfterLogout(t, a).issued
    ensures a !in AfterLogoutAll(t, t.issued[a].owner).issued
    ensures b !in AfterLogoutAll(t, t.issued[a].owner).issued
  {
  }

  // ------------------------------------------------------------ state

  /** The tables a request may write. */
  datatype Session = Session(users: seq<User>, tokens: Tokens)

  datatype AuthResponse =
    | Registered(user: UserId, token: TokenId)   // 201 with user and token
    | LoggedIn(user: UserId, token: TokenId)     // 200 with user and token
    | ValidationFailed                           // 422 field errors
    | TooManyAttempts                            // "Too many login attempts..."
    | InvalidCredentials                         // "Invalid credentials"

  datatype AuthStep = AuthStep(response: AuthResponse, state: Session)

  datatype LoginStep = LoginStep(response: AuthResponse, state: Session, counters: Counters)

  // ------------------------------------------------------------ register

  datatype RegisterRequest = RegisterRequest(
    firstName: Field<string>, lastName: Field<string>, username: Field<string>,
    email: Field<string>, phone: Field<string>,
    password: Field<string>, passwordConfirmation: Field<string>)

  /** `required|string`: sent, and not only blanks. */
  predicate RequiredText(f: Field<string>) {
    f.Given? && Filled(f.value)
  }

  /** `required|string|max:n`. */
  predicate RequiredString(f: Field<string>, maxLength: nat) {
    RequiredText(f) && |f.value| <= maxLength
  }

  /** `unique:users` on `key`: no row, trashed or not, holds the value. */
  predicate Unused(rows: seq<User>, key: Key, s: string) {
    forall i :: 0 <= i < |rows| ==> Get(rows[i], key) != Text(s)
  }

  /** The validation rules of register. */
  predicate RegisterValid(rows: seq<User>, req: RegisterRequest, v: Validators) {
    && RequiredString(req.firstName, 255)
    && RequiredString(req.lastName, 255)
    && RequiredString(req.username, 255) && Unused(rows, Username, req.username.value)
    && RequiredString(req.email, 255) && v.emailRule(req.email.value)
    && Unused(rows, Email, req.email.value)
    && (req.phone.Given? ==> |req.phone.value| <= 20 && Unused(rows, Phone, req.phone.value))
    && RequiredText(req.password) && |req.password.value| >= 8
    && req.passwordConfirmation == req.password
  }

  /** The attributes User::create receives. */
  function NewUserAttrs(req: RegisterRequest): map<Key, Value>
    requires req.firstName.Given? && req.lastName.Given? && req.username.Given?
    requires req.email.Given? && req.password.Given?
  {
    map[
      FirstName := Text(req.firstName.value),
      LastName := Text(req.lastName.value),
      Username := Text(req.username.value),
      Email := Text(req.email.value),
      Phone := (if req.phone.Given? then Text(req.phone.value) else Null),
      Password := Digest(Hashed(req.password.value)),
      Status := Text("active")]
  }

  /** The row User::create makes from those attributes. */
  function NewUser(id: UserId, req: RegisterRequest): (u: User)
    requires req.firstName.Given? && req.lastName.Given? && req.username.Given?
    requires req.email.Given? && req.password.Given?
    ensures u.id == id && IsActive(u) && !IsTrashed(u)
    ensures Get(u, Password) == Digest(Hashed(req.password.value))
    ensures Get(u, Username) == Text(req.username.value)
    ensures Get(u, Email) == Text(req.email.value)
    ensures Get(u, Phone) == (if req.phone.Given? then Text(req.phone.value) else Null)
    ensures TextAt(u, FirstName) == req.firstName.value && TextAt(u, LastName) == req.lastName.value
    ensures forall k :: k in u.attrs ==>
      k == FirstName || k == LastName || k == Username || k == Email || k == Phone || k == Password || k == Status
  {
    User(id, NewUserAttrs(req))
  }

  /** Every attribute register passes is fillable, so User::create stores
      all of them. */
  lemma CreateStoresAll(id: UserId, req: RegisterRequest)
    requires req.firstName.Given? && req.lastName.Given? && req.username.Given?
    requires req.email.Given? && req.password.Given?
    ensures Fill(User(id, map[]), NewUserAttrs(req)) == NewUser(id, req)
  {
    var attrs := NewUserAttrs(req);
    NewUserAttrsFillable(req);
    FillAllFillable(User(id, map[]), attrs);
    assert map[] + attrs == attrs;
  }

  lemma NewUserAttrsFillable(req: RegisterRequest)
    requires req.firstName.Given? && req.lastName.Given? && req.username.Given?
    requires req.email.Given? && req.password.Given?
    ensures forall k :: k in NewUserAttrs(req) ==> Fillable(k)
  {
  }

  /** register: a request that breaks a rule writes nothing. Otherwise one
      row is appended with the next key, status "active", the submitted
      identity and names, and the password only as its hash; one 30-day
      token is issued to it. */
  function AfterRegister(st: Session, req: RegisterRequest, now: int, v: Validators): (r: AuthStep)
    ensures !RegisterValid(st.users, req, v) ==> r == AuthStep(ValidationFailed, st)
    ensures RegisterValid(st.users, req, v) ==>
      && r.response == Registered(|st.users|, st.tokens.nextId)
      && |r.state.users| == |st.users| + 1
      && r.state.users[..|st.users|] == st.users
      && r.state.tokens == Mint(st.tokens, |st.users|, now)
    ensures RegisterValid(st.users, req, v) ==>
      var u := r.state.users[|st.users|];
      && u.id == |st.users| && IsActive(u) && !IsTrashed(u)
      && Get(u, Password) == Digest(Hashed(req.password.value))
      && Get(u, Username) == Text(req.username.value)
      && Get(u, Email) == Text(req.email.value)
      && Get(u, Phone) == (if req.phone.Given? then Text(req.phone.value) else Null)
      && TextAt(u, FirstName) == req.firstName.value && TextAt(u, LastName) == req.lastName.value
  {
    if !RegisterValid(st.users, req, v) then AuthStep(ValidationFailed, st)
    else
      var id := |st.users|;
      var u := NewUser(id, req);
      AuthStep(Registered(id, st.tokens.nextId), Session(st.users + [u], Mint(st.tokens, id, now)))
  }

  /** Registration keeps the table consistent: keys in order, hashes only
      under the password, and usernames, emails and phones unique. */
  lemma RegisterKeepsConsistent(st: Session, req: RegisterRequest, now: int, v: Validators)
    requires Consistent(st.users)
    ensures Consistent(AfterRegister(st, req, now, v).state.users)
  {
    if RegisterValid(st.users, req, v) {
      var u := NewUser(|st.users|, req);
      assert AfterRegister(st, req, now, v).state.users == st.users + [u];
      NewUserHashOnlyInPassword(|st.users|, req);
      AppendKeepsConsistent(st.users, u);
    }
  }

  lemma NewUserHashOnlyInPassword(id: UserId, req: RegisterRequest)
    requires req.firstName.Given? && req.lastName.Given? && req.username.Given?
    requires req.email.Given? && req.password.Given?
    ensures HashOnlyInPassword(NewUser(id, req))
  {
    AttrsHashOnlyInPassword(req);
    assert NewUser(id, req).attrs == NewUserAttrs(req);
  }

  /** Of the attributes register writes, only the password is a hash. */
  lemma AttrsHashOnlyInPassword(req: RegisterRequest)
    requires req.firstName.Given? && req.lastName.Given? && req.username.Given?
    requires req.email.Given? && req.password.Given?
    ensures forall k :: k in NewUserAttrs(req) && NewUserAttrs(req)[k].Digest? ==> k == Password
  {
  }

  // ------------------------------------------------------------ login

  datatype LoginRequest = LoginRequest(login: Field<string>, password: Field<string>)

  /** `login` and `password` are both `required|string`. */
  predicate LoginWellFormed(req: LoginRequest) {
    RequiredText(req.login) && RequiredText(req.password)
  }

  /** The throttle key: the client IP. */
  function LoginKey(ip: string): string {
    "login_attempts:" + ip
  }

  /** The column the identifier is looked up in. */
  function LoginField(login: string, v: Validators): (field: Key)
    ensures field == Email <==> v.filterEmail(login)
    ensures field == Username <==> !v.filterEmail(login)
  {
    if v.filterEmail(login) then Email else Username
  }

  /** Row `i` is live and holds `value` under `key`. */
  predicate LiveMatch(rows: seq<User>, key: Key, value: Value, i: int) {
    0 <= i < |rows| && !IsTrashed(rows[i]) && Get(rows[i], key) == value
  }

  /** Row `i` is the first live row holding `value` under `key` (`first()`
      under the soft-delete scope). */
  predicate FirstMatch(rows: seq<User>, key: Key, value: Value, i: int) {
    LiveMatch(rows, key, value, i) && forall j :: 0 <= j < i ==> !LiveMatch(rows, key, value, j)
  }

  /** `where(key, value)->first()`, scanning from row `from`. */
  function FirstWhere(rows: seq<User>, key: Key, value: Value, from: nat): (r: Option<UserId>)
    ensures r.Some? ==> from <= r.value && LiveMatch(rows, key, value, r.value)
    ensures r.Some? ==> forall i :: from <= i < r.value ==> !LiveMatch(rows, key, value, i)
    ensures r.None? ==> forall i :: from <= i < |rows| ==> !LiveMatch(rows, key, value, i)
    decreases |rows| - from
  {
    if from >= |rows| then None
    else if LiveMatch(rows, key, value, from) then Some(from)
    else FirstWhere(rows, key, value, from + 1)
  }

  /** Auth::attempt: the first live user whose chosen column equals the
      identifier, accepted exactly when the stored hash is that of the
      password. */
  function Attempt(rows: seq<User>, login: string, password: string, v: Validators): (r: Option<UserId>)
    ensures r.Some? ==>
      && FirstMatch(rows, LoginField(login, v), Text(login), r.value)
      && Get(rows[r.value], Password) == Digest(Hashed(password))
    ensures r.None? ==> forall i :: FirstMatch(rows, LoginField(login, v), Text(login), i) ==>
      Get(rows[i], Password) != Digest(Hashed(password))
  {
    match FirstWhere(rows, LoginField(login, v), Text(login), 0)
    case None => None
    case Some(id) => if Get(rows[id], Password) == Digest(Hashed(password)) then Some(id) else None
  }

  /** The update a successful login makes: both timestamps become `now`. The
      two now() calls of the source are read as one instant. */
  function StampLogin(u: User, now: int): (r: User)
    ensures r.id == u.id
    ensures Get(r, LastLoginAt) == Time(now) && Get(r, LastActivityAt) == Time(now)
    ensures forall k :: k != LastLoginAt && k != LastActivityAt ==> Get(r, k) == Get(u, k)
  {
    Fill(u, map[LastLoginAt := Time(now), LastActivityAt := Time(now)])
  }

  /** login. A malformed request is refused before anything else. When the
      IP's counter has reached 5 the attempt is refused before the
      credentials are looked at, and nothing changes. A credential failure
      adds exactly one hit and changes nothing else. A success clears the
      counter, sets last_login_at and last_activity_at to the same `now`,
      changes no other attribute or row, and issues one 30-day token. */
  function AfterLogin(st: Session, counters: Counters, req: LoginRequest, ip: string, now: int, v: Validators): (r: LoginStep)
    ensures !LoginWellFormed(req) ==> r == LoginStep(ValidationFailed, st, counters)
    ensures LoginWellFormed(req) && Exceeded(counters, LoginKey(ip), LOGIN_MAX_ATTEMPTS) ==>
      r == LoginStep(TooManyAttempts, st, counters)
    ensures (&& LoginWellFormed(req) && !Exceeded(counters, LoginKey(ip), LOGIN_MAX_ATTEMPTS)
             && Attempt(st.users, req.login.value, req.password.value, v).None?) ==>
      && r.response == InvalidCredentials && r.state == st
      && r.counters == AfterHit(counters, LoginKey(ip), LOGIN_DECAY_SECONDS)
    ensures r.response.LoggedIn? ==>
      && LoginWellFormed(req) && !Exceeded(counters, LoginKey(ip), LOGIN_MAX_ATTEMPTS)
      && Attempt(st.users, req.login.value, req.password.value, v) == Some(r.response.user)
      && r == LoginSucceeded(st, counters, r.response.user, ip, now)
    ensures (&& LoginWellFormed(req) && !Exceeded(counters, LoginKey(ip), LOGIN_MAX_ATTEMPTS)
             && Attempt(st.users, req.login.value, req.password.value, v).Some?) ==> r.response.LoggedIn?
  {
    if !LoginWellFormed(req) then LoginStep(ValidationFailed, st, counters)
    else
      var key := LoginKey(ip);
      if Exceeded(counters, key, LOGIN_MAX_ATTEMPTS) then LoginStep(TooManyAttempts, st, counters)
      else
        var found := Attempt(st.users, req.login.value, req.password.value, v);
        if found.None? then LoginStep(InvalidCredentials, st, AfterHit(counters, key, LOGIN_DECAY_SECONDS))
        else LoginSucceeded(st, counters, found.value, ip, now)
  }

  /** What a login with good credentials does: the IP's counter is cleared,
      the user's two timestamps become `now` and nothing else in the table
      changes, and one 30-day token is issued to that user. */
  function LoginSucceeded(st: Session, counters: Counters, id: UserId, ip: string, now: int): (r: LoginStep)
    requires id < |st.users|
    ensures r.response == LoggedIn(id, st.tokens.nextId)
    ensures r.counters == AfterClear(counters, LoginKey(ip))
    ensures r.state.tokens == Mint(st.tokens, id, now)
    ensures |r.state.users| == |st.users|
    ensures forall i :: 0 <= i < |st.users| && i != id ==> r.state.users[i] == st.users[i]
    ensures r.state.users[id] == StampLogin(st.users[id], now)
  {
    LoginStep(LoggedIn(id, st.tokens.nextId),
              Session(st.users[id := StampLogin(st.users[id], now)], Mint(st.tokens, id, now)),
              AfterClear(counters, LoginKey(ip)))
  }

  /** The login counter of an IP never goes past 5. */
  lemma LoginCounterBounded(st: Session, counters: Counters, req: LoginRequest, ip: string, now: int, v: Validators)
    requires Attempts(counters, LoginKey(ip)) <= LOGIN_MAX_ATTEMPTS
    ensures Attempts(AfterLogin(st, counters, req, ip, now, v).counters, LoginKey(ip)) <= LOGIN_MAX_ATTEMPTS
  {
  }

  /** A run of login requests from one IP. */
  function LoginRun(st: Session, counters: Counters, reqs: seq<LoginRequest>, ip: string, now: int, v: Validators): (r: LoginStep)
    decreases |reqs|
  {
    if reqs == [] then LoginStep(InvalidCredentials, st, counters)
    else
      var first := AfterLogin(st, counters, reqs[0], ip, now, v);
      if |reqs| == 1 then first else LoginRun(first.state, first.counters, reqs[1..], ip, now, v)
  }

  /** The attempt would fail on these tables: well formed, wrong credentials. */
  predicate FailsOn(rows: seq<User>, req: LoginRequest, v: Validators) {
    LoginWellFormed(req) && Attempt(rows, req.login.value, req.password.value, v).None?
  }

  /** Failed attempts below the limit each add one hit and change no table. */
  lemma {:induction false} FailuresAccumulate(st: Session, counters: Counters, reqs: seq<LoginRequest>, ip: string, now: int, v: Validators)
    requires reqs != []
    requires Attempts(counters, LoginKey(ip)) + |reqs| <= LOGIN_MAX_ATTEMPTS
    requires forall i :: 0 <= i < |reqs| ==> FailsOn(st.users, reqs[i], v)
    ensures var r := LoginRun(st, counters, reqs, ip, now, v);
      && r.state == st && r.response == InvalidCredentials
      && Attempts(r.counters, LoginKey(ip)) == Attempts(counters, LoginKey(ip)) + |reqs|
    decreases |reqs|
  {
    var first := AfterLogin(st, counters, reqs[0], ip, now, v);
    assert FailsOn(st.users, reqs[0], v);
    if |reqs| > 1 {
      assert forall i :: 0 <= i < |reqs[1..]| ==> reqs[1..][i] == reqs[i + 1];
      FailuresAccumulate(first.state, first.counters, reqs[1..], ip, now, v);
    }
  }

  /** After five failed attempts from one IP, a sixth well-formed attempt is
      refused even when its credentials are right. */
  lemma SixthAttemptThrottled(st: Session, counters: Counters, failures: seq<LoginRequest>, sixth: LoginRequest, ip: string, now: int, v: Validators)
    requires Attempts(counters, LoginKey(ip)) == 0
    requires |failures| == LOGIN_MAX_ATTEMPTS
    requires forall i :: 0 <= i < |failures| ==> FailsOn(st.users, failures[i], v)
    requires LoginWellFormed(sixth)
    ensures var after := LoginRun(st, counters, failures, ip, now, v);
      AfterLogin(after.state, after.counters, sixth, ip, now, v).response == TooManyAttempts
  {
    FailuresAccumulate(st, counters, failures, ip, now, v);
  }

  // ------------------------------------------------------------ the tables

  /** The personal-access-token table, updated in place. */
  class TokenStore {
    var issued: map<TokenId, Token>
    var nextId: TokenId

    function State(): Tokens
      reads this
    {
      Tokens(issued, nextId)
    }

    constructor ()
      ensures State() == Tokens(map[], 0)
    {
      issued := map[];
      nextId := 0;
    }

    method CreateToken(owner: UserId, now: int) returns (id: TokenId)
      modifies this
      ensures id == old(nextId)
      ensures State() == Mint(old(State()), owner, now)
    {
      id := nextId;
      issued := issued[id := Token(owner, "auth_token", now + TOKEN_LIFETIME_SECONDS)];
      nextId := nextId + 1;
    }

    method Delete(id: TokenId)
      modifies this
      ensures State() == AfterLogout(old(State()), id)
    {
      issued := issued - {id};
    }

    method DeleteAllOf(owner: UserId)
      modifies this
      ensures State() == AfterLogoutAll(old(State()), owner)
    {
      issued := map t | t in issued && issued[t].owner != owner :: issued[t];
    }
  }

  // ------------------------------------------------------------ endpoints

  method Register(users: UserTable, tokens: TokenStore, req: RegisterRequest, now: int, v: Validators)
    returns (response: AuthResponse)
    modifies users, tokens
    ensures AuthStep(response, Session(users.rows, tokens.State()))
         == AfterRegister(Session(old(users.rows), old(tokens.State())), req, now, v)
  {
    if !RegisterValid(users.rows, req, v) {
      response := ValidationFailed;
      return;
    }
    CreateStoresAll(|users.rows|, req);
    var id := users.Create(NewUserAttrs(req));
    var token := tokens.CreateToken(id, now);
    response := Registered(id, token);
  }

  method Login(users: UserTable, tokens: TokenStore, limiter: CounterStore,
               req: LoginRequest, ip: string, now: int, v: Validators)
    returns (response: AuthResponse)
    modifies users, tokens, limiter
    ensures LoginStep(response, Session(users.rows, tokens.State()), limiter.State())
         == AfterLogin(Session(old(users.rows), old(tokens.State())), old(limiter.State()), req, ip, now, v)
  {
    if !LoginWellFormed(req) {
      response := ValidationFailed;
      return;
    }
    var key := LoginKey(ip);
    var tooMany := limiter.TooManyAttempts(key, LOGIN_MAX_ATTEMPTS);
    if tooMany {
      response := TooManyAttempts;
      return;
    }
    var found := Attempt(users.rows, req.login.value, req.password.value, v);
    if found.None? {
      var count := limiter.Hit(key, LOGIN_DECAY_SECONDS);
      response := InvalidCredentials;
      return;
    }
    var id := found.value;
    limiter.Clear(key);
    users.Update(id, map[LastLoginAt := Time(now), LastActivityAt := Time(now)]);
    var token := tokens.CreateToken(id, now);
    response := LoggedIn(id, token);
  }

  /** logout with the token that authenticated the request. */
  method Logout(tokens: TokenStore, current: TokenId)
    modifies tokens
    ensures tokens.State() == AfterLogout(old(tokens.State()), current)
  {
    tokens.Delete(current);
  }

  /** logoutAll for the authenticated user. */
  method LogoutAll(tokens: TokenStore, user: UserId)
    modifies tokens
    ensures tokens.State() == AfterLogoutAll(old(tokens.State()), user)
  {
    tokens.DeleteAllOf(user);
  }

  /** me: the authenticated user, after touching their last activity. */
  method Me(users: UserTable, user: UserId, now: int) returns (me: User)
    requires user < |users.rows|
    modifies users
    ensures users.rows == old(users.rows)[user := Touched(old(users.rows)[user], now)]
    ensures me == users.rows[user]
  {
    users.UpdateLastActivity(user, now);
    me := users.rows[user];
  }
}
