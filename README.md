# jisort backend core in Dafny

A model of the request handling at the heart of the jisort Laravel backend,
with proofs of what it guarantees. It covers:

- the task store (`TaskController`): tasks with an owner, an assignee pivot
  and an append-only activity log;
- authentication (`AuthController`): registration, login with a per-IP
  throttle, token revocation and `me`;
- the API rate-limiting middleware (`ApiRateLimit`) and the counter store
  that it shares with the login throttle;
- user administration (`UserController`): the filtered, paginated listing,
  the profile update, the status change and soft deletion;
- the `User` model: computed attributes, scopes, mass assignment,
  serialisation and the online check.

The database tables become in-memory values:

- The users table is a `seq<User>` whose row `i` has key `i`. Keys are handed
  out in insertion order, and soft deletion never removes a row.
- Tasks and their assignees are maps keyed by task id.
- The activity log is a sequence.
- The cache behind `RateLimiter` is a pair of maps.

Each component has the same two layers:

- Pure functions (`AfterCreate`, `AfterLogin`, `Throttle`, …) state what one
  request does to those values. Lemmas prove the properties that follow:
  invariants kept, rejected requests changing nothing, the throttle bounds,
  and round trips.
- Classes (`TaskStore`, `UserTable`, `TokenStore`, `CounterStore`) hold the
  tables and are updated in place by methods. Each method follows the
  controller's steps and is proved to end in the state the pure function
  gives. The two exceptions are `UpdateProfile` and `TaskStore.Assign`. They
  follow the corrected definitions of the two defects under "## Findings",
  while `AsWrittenProfileUpdate` and `AsWrittenAssign` state what the code
  as written does.

Time (`now`, in seconds), the client IP and the authenticated user are
parameters. Password hashing is the constructor `Hashed(plain)`, and a hash
check is equality with it. Laravel's `email` and `date` rules and PHP's
`filter_var(…, FILTER_VALIDATE_EMAIL)` are parameters of type
`string -> bool`, grouped in `Validators`.

The model follows these behaviours of the code and the framework:

- The login throttle answers with a validation error (422), raised before
  the credentials are looked at. Request validation runs before that.
- `required` refuses a missing value, null, a blank string and an empty
  array.
- For a string that trims to "", the validator runs only the implicit rules
  (`required` and its kin). The input middleware trims every key except the
  password and its confirmation, turning a blank value into null. So a blank
  string reaches the validator only as a password, where
  `sometimes|string|min:8|confirmed` is skipped in full.
- Mass assignment casts the four `datetime` attributes of `$casts`: a text
  is stored as the instant Carbon parses from it (a parameter of the model),
  and one Carbon cannot parse throws, which gives a 500 with nothing written.
- `findOrFail`, `Auth::attempt` and the index query skip soft-deleted users.
  The `unique` and `exists` rules see soft-deleted rows.
- In `updateStatus`, validation runs before the lookup, so an invalid status
  for an unknown id gets 422, not 404.
- `per_page` of 0, or none, means 15, and there is no upper bound. A
  negative `per_page` is kept: the query builder ignores a negative limit
  and raises the offset to 0, so every page lists every selected user.
- The search uses SQL `LIKE`, so `%` and `_` in the search text are
  wildcards. The substring property is proved for wildcard-free searches,
  and a counterexample is given for `_`.
- A null `search` interpolates to the pattern `%%`, and a null `status`
  asks for a null status.
- `avatar_url` tests PHP truthiness, so an avatar named `"0"` gives the
  placeholder.
- The avatar file name uses the client's extension, while validation uses
  the type detected from the content.
- Tasks do not use soft deletes, so `delete` removes the task row. The
  activity row for the deletion still names the removed task.

## Model

| member | source | states |
|---|---|---|
| `Strings.Trim` | backend/jisort/app/Models/User.php:76 | trim(): the result is the string with its leading and trailing trimmable characters cut off, a slice with only trimmable characters outside it and none at either of its ends; a string already without outer blanks is returned unchanged (both directions) |
| `Strings.TrimmedFromIsTrim` | backend/jisort/app/Models/User.php:76 | any string so cut from s is trim(s), so the slice description pins trim() for every input |
| `Strings.FilledIffTrimmedNonEmpty` | backend/jisort/app/Http/Controllers/TaskController.php:31 | a string passes `required` exactly when trimming leaves something of it |
| `Strings.UpperChar` | backend/jisort/app/Models/User.php:82 | strtoupper() on one character: each of a..z becomes the letter at the same place in A..Z, and every other character is left alone |
| `Strings.Upper` | backend/jisort/app/Models/User.php:82 | strtoupper(): same length, each character mapped by UpperChar |
| `Strings.FirstChar` | backend/jisort/app/Models/User.php:82 | substr($s, 0, 1): a prefix of at most one character, empty exactly when the string is |
| `Strings.Like` | backend/jisort/app/Http/Controllers/Api/UserController.php:21-24 | SQL LIKE without an escape character: `%` matches any run, `_` exactly one character, every other character itself |
| `Strings.LikeIsSubstringSearch` | backend/jisort/app/Http/Controllers/Api/UserController.php:21-24 | for a search text without wildcards, `column LIKE '%q%'` holds exactly when the column contains q |
| `Strings.UnderscoreIsAWildcard` | backend/jisort/app/Http/Controllers/Api/UserController.php:21 | `"ab" LIKE '%_%'` holds although "ab" contains no underscore, so the substring reading fails for wildcard searches |
| `Strings.NatToString` | backend/jisort/app/Http/Controllers/TaskController.php:128 | an id as PHP prints it: a non-empty run of digits, with a leading 0 only for 0 |
| `Strings.NatToStringRoundTrip` | backend/jisort/app/Http/Controllers/TaskController.php:128 | the printed digits read back as the same number |
| `Strings.NatToStringInjective` | backend/jisort/app/Http/Controllers/TaskController.php:128 | distinct ids print differently |
| `Strings.SplitJoinIds` | backend/jisort/app/Http/Controllers/TaskController.php:128 | splitting `implode(', ', $ids)` at ", " gives back exactly the non-empty id list |
| `Strings.JoinIds` | backend/jisort/app/Http/Controllers/TaskController.php:128 | implode(', ', $ids): the printed ids joined by ", " |
| `RateLimiter.AfterHit` | backend/jisort/app/Http/Middleware/ApiRateLimit.php:21 | RateLimiter::hit: the key's count grows by exactly one; a window is opened with the decay only when the key has none; every other key keeps its count, its window and the window's length |
| `RateLimiter.AfterClear` | backend/jisort/app/Http/Controllers/Api/AuthController.php:70 | RateLimiter::clear: the key's count is 0 and its window is gone; every other key keeps its count, its window and the window's length |
| `RateLimiter.Exceeded` | backend/jisort/app/Http/Middleware/ApiRateLimit.php:15 | tooManyAttempts: the key's count has reached the limit |
| `RateLimiter.CounterStore.TooManyAttempts` | backend/jisort/app/Http/Middleware/ApiRateLimit.php:15 | reports exactly whether the key's count has reached the limit; changes nothing |
| `RateLimiter.CounterStore.Hit` | backend/jisort/app/Http/Controllers/Api/AuthController.php:63 | the store ends as AfterHit of its old state and returns the new count |
| `RateLimiter.CounterStore.Clear` | backend/jisort/app/Http/Controllers/Api/AuthController.php:70 | the store ends as AfterClear of its old state |
| `ApiRateLimit.Signature` | backend/jisort/app/Http/Middleware/ApiRateLimit.php:26-33 | the key is the user identifier's digits when the request is authenticated, and otherwise the client IP alone |
| `ApiRateLimit.DistinctUsersDistinctKeys` | backend/jisort/app/Http/Middleware/ApiRateLimit.php:28-30 | two different authenticated users never share a counter, whatever their IPs |
| `ApiRateLimit.Throttle` | backend/jisort/app/Http/Middleware/ApiRateLimit.php:11-24 | at or past the limit: 429 with the counters untouched; otherwise forwarded with exactly one more hit on the key, no other key changed, and a new window of decayMinutes * 60 seconds |
| `ApiRateLimit.Serve` | backend/jisort/app/Http/Middleware/ApiRateLimit.php:11-24 | a run of requests gets one response per request |
| `ApiRateLimit.ServeCounts` | backend/jisort/app/Http/Middleware/ApiRateLimit.php:15-21 | over a run, a key's final count is its first count plus the number of its requests that were forwarded, and a count that starts at or below the limit never passes it |
| `ApiRateLimit.AtMostMaxForwarded` | backend/jisort/app/Http/Middleware/ApiRateLimit.php:15-21 | within one window a fresh key gets at most maxAttempts requests forwarded, whatever other traffic is interleaved |
| `ApiRateLimit.RepeatedRequest` | backend/jisort/app/Http/Middleware/ApiRateLimit.php:15-21 | repeating one request n times forwards exactly min(n, remaining budget) of them |
| `ApiRateLimit.DefaultLimit` | backend/jisort/app/Http/Middleware/ApiRateLimit.php:11 | with the defaults (100 per 1-minute window) a fresh client gets exactly 100 of 101 requests through |
| `ApiRateLimit.Handle` | backend/jisort/app/Http/Middleware/ApiRateLimit.php:11-24 | the middleware on the shared store ends in exactly the response and counters Throttle gives |
| `UserModel.FullNameAttribute` | backend/jisort/app/Models/User.php:74-77 | full_name is the trim of first . " " . last for every user: that string with its outer trimmable characters cut off (exactly trim() by TrimmedFromIsTrim), no longer than the two names plus the space |
| `UserModel.FullNameOfCleanNames` | backend/jisort/app/Models/User.php:74-77 | for names without outer blanks, full_name is exactly first + " " + last |
| `UserModel.InitialsAttribute` | backend/jisort/app/Models/User.php:80-83 | initials: at most two characters, no lower-case letter, the upper-cased first letters of both names, and an empty name contributes nothing |
| `UserModel.AvatarUrlAttribute` | backend/jisort/app/Models/User.php:86-91 | the stored file is used exactly when the avatar is truthy (not null, "" or "0"); otherwise the placeholder is keyed by full_name |
| `UserModel.Where` | backend/jisort/app/Models/User.php:94-97 | a where clause keeps exactly the rows satisfying the predicate, and no more rows than it was given |
| `UserModel.ScopeActive` | backend/jisort/app/Models/User.php:94-97 | selects exactly the users whose status is "active" |
| `UserModel.ScopeVerified` | backend/jisort/app/Models/User.php:100-103 | selects exactly the users with a non-null email_verified_at |
| `UserModel.WithoutTrashed` | backend/jisort/app/Models/User.php:15 | the soft-delete scope keeps exactly the users without a deleted_at |
| `UserModel.Fill` | backend/jisort/app/Models/User.php:17-42 | mass assignment writes exactly the $fillable keys of the data, drops the rest, and changes nothing else |
| `UserModel.FillAllFillable` | backend/jisort/app/Models/User.php:17-42 | when every key of the data is fillable, all of it is written |
| `UserModel.FillKeepsHashOnlyInPassword` | backend/jisort/app/Models/User.php:17-42 | mass-assigning data with a hash only under the password keeps a row's only hash under the password |
| `UserModel.Trash` | backend/jisort/app/Http/Controllers/Api/UserController.php:135 | soft delete sets deleted_at to now, which makes the user trashed, and changes no other attribute |
| `UserModel.Touched` | backend/jisort/app/Models/User.php:115-118 | updateLastActivity: last_activity_at becomes now, which makes the user online at that moment, and no other attribute changes |
| `UserModel.OnlineForFiveMinutes` | backend/jisort/app/Models/User.php:121-124 | after a touch at t the user is online at now exactly when now < t + 300 seconds |
| `UserModel.IsOnline` | backend/jisort/app/Models/User.php:121-124 | isOnline: a last activity strictly after now minus 300 seconds |
| `UserModel.Fillable` | backend/jisort/app/Models/User.php:17-42 | the 24 keys of $fillable |
| `UserModel.DateTimeCast` | backend/jisort/app/Models/User.php:51-59 | the four keys `$casts` declares datetime: email_verified_at, phone_verified_at, last_login_at and last_activity_at |
| `UserModel.Hidden` | backend/jisort/app/Models/User.php:44-49 | the four keys of $hidden |
| `UserModel.Visible` | backend/jisort/app/Models/User.php:44-49 | exactly the stored attributes that are not in $hidden, with their values |
| `UserModel.Serialize` | backend/jisort/app/Models/User.php:44-71 | the serialised user holds no $hidden key (password, remember_token, both two-factor secrets), every other stored attribute unchanged, the computed full_name, initials and avatar_url, and nothing else |
| `UserModel.WithComputed` | backend/jisort/app/Models/User.php:67-71 | appending full_name, initials and avatar_url sets exactly those three keys and keeps every other key and value |
| `UserModel.VisiblePlusComputed` | backend/jisort/app/Models/User.php:44-71 | the visible attributes plus the computed ones hold no hidden key, nothing but stored or computed keys, and every visible value unchanged |
| `UserModel.SerializedCarriesNoHash` | backend/jisort/app/Models/User.php:44-49 | when hashes are kept only under the password, no value of the serialised user is a hash |
| `UserModel.AppendKeepsUnique` | backend/jisort/app/Http/Controllers/Api/AuthController.php:20-22 | appending a row whose value no row holds keeps a unique column unique |
| `UserModel.ReplaceKeepsUnique` | backend/jisort/app/Http/Controllers/Api/UserController.php:63-65 | replacing a row by one whose value no other row holds keeps a unique column unique |
| `UserModel.AppendKeepsConsistent` | backend/jisort/app/Http/Controllers/Api/AuthController.php:20-34 | appending a row with the next key, a hash only under the password and no username, email or phone already taken keeps the table consistent |
| `UserModel.UserTable.Create` | backend/jisort/app/Http/Controllers/Api/AuthController.php:26-34 | User::create appends one row with the next key, mass-assigned from the attributes |
| `UserModel.UserTable.Update` | backend/jisort/app/Http/Controllers/Api/UserController.php:91 | $user->update replaces exactly that row with its mass-assigned version |
| `UserModel.UserTable.SoftDelete` | backend/jisort/app/Http/Controllers/Api/UserController.php:135 | $user->delete replaces exactly that row with its trashed version |
| `UserModel.UserTable.UpdateLastActivity` | backend/jisort/app/Models/User.php:115-118 | replaces exactly that row with its touched version |
| `AuthController.Mint` | backend/jisort/app/Http/Controllers/Api/AuthController.php:36 | createToken: one new "auth_token" under a key no token had, owned by the user and expiring now + 30 days; existing tokens untouched |
| `AuthController.AfterLogout` | backend/jisort/app/Http/Controllers/Api/AuthController.php:89 | logout revokes the current token and only it |
| `AuthController.AfterLogoutAll` | backend/jisort/app/Http/Controllers/Api/AuthController.php:98 | logoutAll revokes exactly the user's tokens, and every other token survives unchanged |
| `AuthController.LogoutVersusLogoutAll` | backend/jisort/app/Http/Controllers/Api/AuthController.php:87-102 | with two tokens of one user, logout of one keeps the other, and logoutAll removes both |
| `AuthController.NewUser` | backend/jisort/app/Http/Controllers/Api/AuthController.php:26-34 | the registered row is active, not trashed, holds the submitted names, username, email and phone, the password only as its hash, and no other attribute |
| `AuthController.RegisterValid` | backend/jisort/app/Http/Controllers/Api/AuthController.php:17-24 | the register rules: required names, username and email of at most 255, a valid and unused email, an unused username, an optional phone of at most 20 unused, a password of at least 8 that is confirmed |
| `AuthController.CreateStoresAll` | backend/jisort/app/Http/Controllers/Api/AuthController.php:26-34 | every attribute register passes is fillable, so User::create stores all of them and yields exactly NewUser |
| `AuthController.NewUserAttrsFillable` | backend/jisort/app/Http/Controllers/Api/AuthController.php:26-34 | every key register writes is in $fillable |
| `AuthController.AfterRegister` | backend/jisort/app/Http/Controllers/Api/AuthController.php:15-42 | an invalid request writes nothing; otherwise exactly one active row is appended with the submitted values and the password hash, earlier rows are kept, and one 30-day token is issued to it |
| `AuthController.RegisterKeepsConsistent` | backend/jisort/app/Http/Controllers/Api/AuthController.php:17-34 | registration keeps keys in order, hashes only under the password, and username, email and phone unique |
| `AuthController.NewUserHashOnlyInPassword` | backend/jisort/app/Http/Controllers/Api/AuthController.php:32 | the registered row holds a hash only under the password |
| `AuthController.AttrsHashOnlyInPassword` | backend/jisort/app/Http/Controllers/Api/AuthController.php:26-34 | of the attributes register writes, only the password is a hash |
| `AuthController.LoginField` | backend/jisort/app/Http/Controllers/Api/AuthController.php:60 | the lookup column is email exactly when the identifier passes the email filter, and username exactly when it does not |
| `AuthController.LoginWellFormed` | backend/jisort/app/Http/Controllers/Api/AuthController.php:47-50 | login and password both required strings |
| `AuthController.LoginKey` | backend/jisort/app/Http/Controllers/Api/AuthController.php:52 | the throttle key "login_attempts:" followed by the client IP |
| `AuthController.FirstWhere` | backend/jisort/app/Http/Controllers/Api/AuthController.php:62 | the first live row at or after `from` holding the value, or none when no such row exists |
| `AuthController.Attempt` | backend/jisort/app/Http/Controllers/Api/AuthController.php:62 | Auth::attempt accepts exactly when the first live row with the identifier in the chosen column has the password's hash |
| `AuthController.StampLogin` | backend/jisort/app/Http/Controllers/Api/AuthController.php:73-76 | last_login_at and last_activity_at both become the same now, and nothing else changes |
| `AuthController.AfterLogin` | backend/jisort/app/Http/Controllers/Api/AuthController.php:45-84 | malformed: refused with nothing changed; at 5 or more hits: refused before the credentials are checked, counter unchanged; bad credentials: exactly one more hit and no table changed; good credentials (and only then): LoginSucceeded |
| `AuthController.LoginSucceeded` | backend/jisort/app/Http/Controllers/Api/AuthController.php:70-78 | the IP's counter is cleared, only the user's two timestamps change, and one 30-day token is issued to that user |
| `AuthController.LoginCounterBounded` | backend/jisort/app/Http/Controllers/Api/AuthController.php:54-63 | a login never takes an IP's counter past 5 |
| `AuthController.FailuresAccumulate` | backend/jisort/app/Http/Controllers/Api/AuthController.php:54-67 | failed attempts below the limit each add exactly one hit and change no table |
| `AuthController.SixthAttemptThrottled` | backend/jisort/app/Http/Controllers/Api/AuthController.php:54-63 | after five failures from one IP, a sixth well-formed attempt is refused, even with the right credentials |
| `AuthController.TokenStore.CreateToken` | backend/jisort/app/Http/Controllers/Api/AuthController.php:78 | the store ends as Mint of its old state, and the new key is returned |
| `AuthController.TokenStore.Delete` | backend/jisort/app/Http/Controllers/Api/AuthController.php:89 | the store ends as AfterLogout of its old state |
| `AuthController.TokenStore.DeleteAllOf` | backend/jisort/app/Http/Controllers/Api/AuthController.php:98 | the store ends as AfterLogoutAll of its old state |
| `AuthController.Register` | backend/jisort/app/Http/Controllers/Api/AuthController.php:15-42 | the endpoint on the tables ends in exactly the response and state AfterRegister gives |
| `AuthController.Login` | backend/jisort/app/Http/Controllers/Api/AuthController.php:45-84 | the endpoint on the tables and the counter store ends in exactly what AfterLogin gives |
| `AuthController.Logout` | backend/jisort/app/Http/Controllers/Api/AuthController.php:87-94 | the token table ends as AfterLogout |
| `AuthController.LogoutAll` | backend/jisort/app/Http/Controllers/Api/AuthController.php:96-103 | the token table ends as AfterLogoutAll |
| `AuthController.Me` | backend/jisort/app/Http/Controllers/Api/AuthController.php:105-113 | only the caller's row is touched, and the touched row is returned |
| `UserController.FindOrFail` | backend/jisort/app/Http/Controllers/Api/UserController.php:134 | finds the row with the key exactly when it exists and is not trashed |
| `UserController.Matching` | backend/jisort/app/Http/Controllers/Api/UserController.php:16-30 | selects exactly the live users passing the search clause and the status clause |
| `UserController.PageSize` | backend/jisort/app/Http/Controllers/Api/UserController.php:42 | `per_page ?: 15`: per_page whenever it is sent and not 0, negative values included, otherwise 15; never 0 |
| `UserController.CurrentPage` | backend/jisort/app/Http/Controllers/Api/UserController.php:42 | the page parameter when it is at least 1, otherwise 1 |
| `UserController.Index` | backend/jisort/app/Http/Controllers/Api/UserController.php:14-45 | reports the total of matching users; every listed row is live and matching, and of the requested status when one is given; for a positive page size the page has at most that many rows and a first page is as full as the matches allow; for a negative per_page every page lists every match |
| `UserController.PageOf` | backend/jisort/app/Http/Controllers/Api/UserController.php:42 | forPage: for a positive size a page holds at most size rows, all taken from the result, and the first page is as full as the result allows; a negative size selects the whole result |
| `UserController.IndexSearchFinds` | backend/jisort/app/Http/Controllers/Api/UserController.php:18-26 | for a wildcard-free search, every listed user contains the text in first_name, last_name, email or username |
| `UserController.IndexSearchComplete` | backend/jisort/app/Http/Controllers/Api/UserController.php:18-30 | conversely, a live user of the right status whose first_name, last_name, email or username contains the text is selected |
| `UserController.OwnValuesStayValid` | backend/jisort/app/Http/Controllers/Api/UserController.php:63-65 | in a consistent table, keeping one's own username, email or phone passes the unique rule |
| `UserController.ProfileValid` | backend/jisort/app/Http/Controllers/Api/UserController.php:60-78 | the corrected update rules: every sent field with a rule passes it, any password sent is confirmed and of at least 8, and an avatar is a small enough jpeg, png, jpg or gif |
| `UserController.AsWrittenPasswordValid` | backend/jisort/app/Http/Controllers/Api/UserController.php:76 | the rules sometimes, string, min:8 and confirmed, as the validator runs them: a confirmed password of at least 8, or a string that trims to "", for which none of the four rules runs |
| `UserController.AsWrittenProfileValid` | backend/jisort/app/Http/Controllers/Api/UserController.php:60-78 | the update rules as written: the field rules and the avatar rule of ProfileValid, with the password rule as the validator runs it |
| `UserController.ProfileKeysFillable` | backend/jisort/app/Http/Controllers/Api/UserController.php:60-91 | every key the update validates, and password, avatar and status, is fillable |
| `UserController.SubmittedData` | backend/jisort/app/Http/Controllers/Api/UserController.php:80 | $request->except(['password', 'avatar']): every other key sent, with its value |
| `UserController.AvatarFileName` | backend/jisort/app/Http/Controllers/Api/UserController.php:105 | the avatar file name: user id, "_", the upload time, ".", the client's extension |
| `UserController.SecretsKeepOthers` | backend/jisort/app/Http/Controllers/Api/UserController.php:80-89 | adding the password hash and the avatar name leaves every other key of the data unchanged; the password entry is the hash of the sent password, the avatar entry the generated file name, and neither is added otherwise |
| `UserController.CastOnSet` | backend/jisort/app/Models/User.php:51-59 | assigning under `$casts`: it throws exactly when a text under a datetime cast does not parse; otherwise the stored value is a hash exactly when the given one is |
| `UserController.CastAll` | backend/jisort/app/Models/User.php:51-59 | the data with every cast applied: the same keys, each holding the value CastOnSet stores |
| `UserController.CastSubmitted` | backend/jisort/app/Http/Controllers/Api/UserController.php:80 | the cast data holds every sent key but password and avatar; a key without a datetime cast holds its value as sent, a datetime key sent as null holds null, and one sent as text holds the parsed instant |
| `UserController.CastsSucceedIff` | backend/jisort/app/Http/Controllers/Api/UserController.php:80-91 | the as-written data can be assigned exactly when every datetime-cast key sent as text parses (both directions) |
| `UserController.AsWrittenProfileData` | backend/jisort/app/Http/Controllers/Api/UserController.php:80-91 | as written, every fillable key sent other than password and avatar is written, validated or not: a datetime-cast key as the instant parsed from its text (or null), any other as sent; the password changes only when one is sent, and then to its hash; the avatar only on upload, to the generated file name; every key not sent or not fillable keeps its value |
| `UserController.AsWrittenProfileUpdate` | backend/jisort/app/Http/Controllers/Api/UserController.php:56-97 | as written: a request failing AsWrittenProfileValid writes nothing (422); a datetime Carbon cannot parse writes nothing (500); otherwise the user's row becomes AsWrittenProfileData and every other row is kept |
| `UserController.SentActivityMakesOnline` | backend/jisort/app/Http/Controllers/Api/UserController.php:80-91 | as written, sending a last_activity_at that parses to within the last five minutes makes the user online |
| `UserController.UnparsableTimeFails` | backend/jisort/app/Http/Controllers/Api/UserController.php:80-91 | as written, a datetime-cast key sent as text Carbon cannot parse gives 500 with the table unchanged |
| `UserController.BlankPasswordAccepted` | backend/jisort/app/Http/Controllers/Api/UserController.php:76-83 | as written, `{"password": " "}` with no confirmation passes validation and stores the hash of " ", while the corrected validation refuses it |
| `UserController.AsWrittenDataShape` | backend/jisort/app/Http/Controllers/Api/UserController.php:80-89 | the data as written holds a hash only under password |
| `UserController.AsWrittenHashOnlyInPassword` | backend/jisort/app/Http/Controllers/Api/UserController.php:80-91 | after the update as written, a hash appears only under the password |
| `UserController.AsWrittenUniqueAfterUpdate` | backend/jisort/app/Http/Controllers/Api/UserController.php:63-65 | the update as written keeps username, email and phone unique, as their unique rules still apply |
| `UserController.AsWrittenUpdateKeepsConsistent` | backend/jisort/app/Http/Controllers/Api/UserController.php:56-97 | the update as written keeps keys in order, hashes only under the password, and username, email and phone unique |
| `UserController.ProfileDataShape` | backend/jisort/app/Http/Controllers/Api/UserController.php:60-89 | the validated data holds only fillable keys, and a hash only under password |
| `UserController.SelfReactivation` | backend/jisort/app/Http/Controllers/Api/UserController.php:80-91 | as written, a suspended user who sends `{"status": "active"}` passes validation and becomes active |
| `UserController.ProfileUpdated` | backend/jisort/app/Http/Controllers/Api/UserController.php:80-91 | validated fields take their sent values; the password changes only when one is sent, and then to its hash; the avatar changes only on upload, to the generated file name; every other attribute keeps its value |
| `UserController.AfterProfileUpdate` | backend/jisort/app/Http/Controllers/Api/UserController.php:56-97 | an invalid request writes nothing; otherwise only the user's row changes, as ProfileUpdated says |
| `UserController.ProfileUpdateKeepsStatus` | backend/jisort/app/Http/Controllers/Api/UserController.php:60-78 | no profile update changes a user's status |
| `UserController.PasswordSetOnlyConfirmed` | backend/jisort/app/Http/Controllers/Api/UserController.php:76-83 | with the corrected validation, an update that succeeds with a password sent was given a string of at least 8 and the same value as its confirmation, and stores its hash |
| `UserController.ProfileUpdateKeepsConsistent` | backend/jisort/app/Http/Controllers/Api/UserController.php:60-91 | a profile update keeps keys in order, hashes only under the password, and username, email and phone unique |
| `UserController.UpdatedHashOnlyInPassword` | backend/jisort/app/Http/Controllers/Api/UserController.php:80-84 | after the update, a hash appears only under the password |
| `UserController.UniqueAfterProfileUpdate` | backend/jisort/app/Http/Controllers/Api/UserController.php:63-65 | a valid update keeps username, email and phone unique |
| `UserController.AfterUpdateStatus` | backend/jisort/app/Http/Controllers/Api/UserController.php:117-130 | a missing or null status, or one outside active/inactive/suspended: 422 with nothing changed; then an unknown or trashed user: 404; otherwise exactly that user's status becomes the value sent, and nothing else changes |
| `UserController.AfterDestroy` | backend/jisort/app/Http/Controllers/Api/UserController.php:132-140 | an unknown or trashed user: 404 with nothing changed; otherwise only that row gets deleted_at = now |
| `UserController.DestroyHides` | backend/jisort/app/Http/Controllers/Api/UserController.php:132-140 | after a destroy the user is not found and not listed, a second destroy is 404, and every other user is found exactly as before |
| `UserController.UpdateProfile` | backend/jisort/app/Http/Controllers/Api/UserController.php:56-97 | with the corrected merge (validated fields only), building `$data` step by step and updating the row ends in exactly the outcome and table AfterProfileUpdate gives |
| `UserController.UpdateStatus` | backend/jisort/app/Http/Controllers/Api/UserController.php:117-130 | ends in exactly what AfterUpdateStatus gives |
| `UserController.Destroy` | backend/jisort/app/Http/Controllers/Api/UserController.php:132-140 | ends in exactly what AfterDestroy gives |
| `TaskController.ParseStatus` | backend/jisort/app/Http/Controllers/TaskController.php:34 | a status is accepted exactly when it is pending, in_progress or completed, and names that status |
| `TaskController.ParseStatusName` | backend/jisort/app/Http/Controllers/TaskController.php:34 | every status's name parses back to it |
| `TaskController.CreateValid` | backend/jisort/app/Http/Controllers/TaskController.php:30-35 | the create rules: a required title of at most 255, a progress in 0..100 when sent, a required status among the three |
| `TaskController.UpdateValid` | backend/jisort/app/Http/Controllers/TaskController.php:66-71 | the update rules: title at most 255, progress in 0..100 and a status among the three, each when sent |
| `TaskController.EmptyDbValid` | backend/jisort/app/Http/Controllers/TaskController.php:41-48 | the base case of the store invariant: before any task is created, the store with no tasks, assignees or activities satisfies the invariant that create establishes and every other operation keeps |
| `TaskController.VisibleTasks` | backend/jisort/app/Http/Controllers/TaskController.php:15-26 | exactly the tasks the user created or is assigned to, unchanged |
| `TaskController.AfterCreate` | backend/jisort/app/Http/Controllers/TaskController.php:28-58 | a missing title, a bad status or a progress outside 0..100 writes nothing; otherwise one task appears under a new key with the sent values, progress or 0, the caller as creator and is_assigned false, and exactly one "Task created" activity by the caller is logged |
| `TaskController.CreateKeepsValid` | backend/jisort/app/Http/Controllers/TaskController.php:28-58 | create keeps keys below the next key, titles within 255, progress in 0..100 and is_assigned in step with the assignees |
| `TaskController.CreatorSeesCreatedTask` | backend/jisort/app/Http/Controllers/TaskController.php:18 | the creator's list includes the task just created |
| `TaskController.Updated` | backend/jisort/app/Http/Controllers/TaskController.php:77 | only the fields sent among title, description, progress and status change; created_by and is_assigned never do |
| `TaskController.AfterUpdate` | backend/jisort/app/Http/Controllers/TaskController.php:60-87 | unknown task: 404; not the creator: 403; invalid: 422; none of them writes anything; otherwise only that task changes, as Updated says, the assignees are untouched, and one "Task updated" activity by the caller is logged |
| `TaskController.UpdateKeepsValid` | backend/jisort/app/Http/Controllers/TaskController.php:60-87 | updateTask keeps the store invariant |
| `TaskController.AfterDelete` | backend/jisort/app/Http/Controllers/TaskController.php:89-105 | unknown: 404; not the creator: 403; neither writes anything; otherwise only that task row is removed, and one "Task deleted" activity by the caller is logged |
| `TaskController.DeleteKeepsValid` | backend/jisort/app/Http/Controllers/TaskController.php:89-105 | delete keeps the store invariant |
| `TaskController.DeletedTaskHidden` | backend/jisort/app/Http/Controllers/TaskController.php:95-102 | a deleted task is in nobody's list, while the earlier log is kept intact |
| `TaskController.SetOf` | backend/jisort/app/Http/Controllers/TaskController.php:122 | sync's set: exactly the listed ids, empty exactly when the list is |
| `TaskController.AssignValidAsWritten` | backend/jisort/app/Http/Controllers/TaskController.php:113-116 | the assign rules as written: a required, hence non-empty, list of existing user ids |
| `TaskController.AssignValid` | backend/jisort/app/Http/Controllers/TaskController.php:113-116 | the assign rules as the flag computation expects them: any list of existing user ids, the empty one included |
| `TaskController.Assigned` | backend/jisort/app/Http/Controllers/TaskController.php:122-130 | the assignees become exactly the listed users; is_assigned is set exactly when the list is non-empty; nothing else changes but one appended activity with the joined ids |
| `TaskController.AsWrittenAssign` | backend/jisort/app/Http/Controllers/TaskController.php:107-133 | as written: 404, 403 and a missing, empty or unknown-id list all write nothing; a valid request from the creator (and only such a request) succeeds, ends as Assigned and always sets is_assigned |
| `TaskController.AsWrittenCannotUnassign` | backend/jisort/app/Http/Controllers/TaskController.php:114-123 | as written, assigning [] to an assigned task is refused and the task stays assigned |
| `TaskController.AfterAssign` | backend/jisort/app/Http/Controllers/TaskController.php:107-133 | 404, 403, or a missing list or unknown user id: nothing written; otherwise (and only then) the result is Assigned, with is_assigned set exactly when the list is non-empty |
| `TaskController.AssignThenUnassign` | backend/jisort/app/Http/Controllers/TaskController.php:122-123 | assigning [2, 3] and then [] leaves the task with no assignees, not assigned, and two more activities |
| `TaskController.AssignKeepsValid` | backend/jisort/app/Http/Controllers/TaskController.php:107-133 | assign keeps the store invariant, is_assigned in step with the assignees included |
| `TaskController.AssignDecidesVisibility` | backend/jisort/app/Http/Controllers/TaskController.php:18-21 | after an assign a user sees the task exactly when they are its creator or in the list |
| `TaskController.AssignActivityListsIds` | backend/jisort/app/Http/Controllers/TaskController.php:126-130 | the assign activity is "Task assigned to users: " followed by text that splits back into exactly the ids sent |
| `TaskController.TaskStore.Log` | backend/jisort/app/Http/Controllers/TaskController.php:51-55 | Activity::create appends exactly that activity, and nothing else changes |
| `TaskController.TaskStore.GetTasks` | backend/jisort/app/Http/Controllers/TaskController.php:15-26 | returns exactly VisibleTasks of the store and changes nothing |
| `TaskController.TaskStore.Create` | backend/jisort/app/Http/Controllers/TaskController.php:28-58 | the store ends in exactly the outcome and state AfterCreate gives |
| `TaskController.TaskStore.UpdateTask` | backend/jisort/app/Http/Controllers/TaskController.php:60-87 | ends in exactly what AfterUpdate gives |
| `TaskController.TaskStore.Delete` | backend/jisort/app/Http/Controllers/TaskController.php:89-105 | ends in exactly what AfterDelete gives |
| `TaskController.TaskStore.Assign` | backend/jisort/app/Http/Controllers/TaskController.php:107-133 | with the corrected rules, ends in exactly what AfterAssign gives |

## Left out

- Avatar file handling (`uploadAvatar`): deleting the old file, creating the directory and resizing with Intervention Image are file I/O and a foreign library. Only the generated file name is modelled.
- `orderBy` on a client-chosen column, the `role` filter (`whereHas` on Spatie roles), eager loading and the paginator's JSON shape: the listing keeps table order.
- Like, FirstWhere, Attempt, Unused, UnusedByOthers, UniqueOn, Consistent, MatchesStatus: the collation of the database decides whether `LIKE` and `=` tell case (and accents) apart. Under MySQL's default `_ci` collations `A@x.com` equals `a@x.com`, so `unique:users` refuses it, the login lookup finds the user by `A@X.COM`, and the status filter ignores case. The model compares text exactly, character by character.
- JSON resources, `created_at`/`updated_at` timestamps, process-wide activity logging (Spatie), routes, migrations, seeders and configuration.
- The sha1 of the rate-limit key and the cache TTL: a window running out is the same change as `clear`, so it is not a separate operation.
- The plain-text token secret, hashing algorithms and salts: a hash is `Hashed(plain)`.
- PHP request types and the global input middleware (trimming strings, turning "" into null): requests arrive as absent, null or a value of the expected type, already trimmed except for the password, and ids as natural numbers.
- The `date`, `boolean` and `json` casts of `$casts` (date_of_birth, two_factor_enabled, metadata): these values are stored as sent. Only the four `datetime` casts are modelled.
- The strict `!==` between `created_by` and the caller's id: both are taken to be integers, as the database driver returns them.
- Route-model binding is modelled as a 404 when the task key is unknown.
- AfterDelete and DeletedTaskHidden assume the task's foreign keys neither cascade nor restrict. The effect of deleting a task on its pivot rows and on its activities depends on migrations that are not part of this model. With any foreign key on `activities.task_id` the code also fails after the delete: the "Task deleted" `Activity::create` names a task that no longer exists, so the insert itself is refused. Beyond that, a cascade would erase the task's earlier log, and a restrict would make the delete fail. The model leaves both the pivot and the log as they were and logs the deletion.
- Concurrency and the atomicity of the database writes with the file store.
- `show` is only the FindOrFail lookup; roles and permissions loaded by `show` and `me` are not modelled.
- Serialize: avatar_url is given by the source its URL is built from (AvatarUrlAttribute), not by the URL text that asset() and urlencode() produce.
- FirstChar, InitialsAttribute: substr($s, 0, 1) takes the first byte, while the model takes the first character. For a name whose first character is not ASCII (such as "Émile") the source yields a lone, invalid UTF-8 byte and the model the whole character.
- UpperChar: strtoupper() is taken to be locale-independent and ASCII-only, which holds from PHP 8.2.
- Like: no escape character is modelled. MySQL and PostgreSQL treat a backslash in a LIKE pattern as an escape, so NoWildcards also excludes the backslash from the search texts the substring lemmas speak about.
- Exceeded: RateLimiter::tooManyAttempts also answers false once the key's window has run out. The model has no timer, and a window running out is the same change as clear; in the states the store reaches, the two differ only for a limit of 0.
- StampLogin: the two now() calls of the login update are read as one instant.
- UpdateProfile: follows the corrected merge (only the validated fields are written), not the except() at UserController.php:80; AsWrittenProfileUpdate is the update as written.
- TaskController.TaskStore.Assign: follows the corrected rules (the empty list is accepted), not the required rule at TaskController.php:114; AsWrittenAssign is the assign as written.

## Findings

| source | as written | input that shows it | evidently intended | confidence | as-written member | corrected member |
|---|---|---|---|---|---|---|
| backend/jisort/app/Http/Controllers/Api/UserController.php:80-91 | `$request->except(['password', 'avatar'])` is mass-assigned, so every fillable key sent (status, email_verified_at, last_login_at, …) is written although no rule checks it | a suspended user sends `{"status": "active"}` to the profile update and becomes active | only the validated fields, plus the password hash and the avatar name, are written; status changes only through updateStatus | medium, not executed | `UserController.SelfReactivation` | `UserController.ProfileUpdateKeepsStatus` |
| backend/jisort/app/Http/Controllers/TaskController.php:114-123 | `required` refuses `user_ids = []`, so the `!empty($request->user_ids)` is always true and a task can never be unassigned | assign `[2, 3]`, then `[]`: the second request is refused and the task stays assigned | `[]` is accepted, clears the assignees and sets is_assigned to false | medium, not executed | `TaskController.AsWrittenCannotUnassign` | `TaskController.AssignThenUnassign` |
| backend/jisort/app/Http/Controllers/Api/UserController.php:76-83 | the rules sometimes, string, min:8 and confirmed are skipped in full for a string that trims to "", and the input middleware does not trim passwords, so a blank password is hashed and stored with no confirmation | `{"password": " "}` sent to the profile update: validation passes and Hash::make(" ") becomes the password | a new password is at least 8 characters long and confirmed (a `required` on the password, or `filled`) | low, not executed: rests on the validator's handling of blank strings | `UserController.BlankPasswordAccepted` | `UserController.PasswordSetOnlyConfirmed` |

The corrected definitions, `UserController.AfterProfileUpdate` and
`TaskController.AfterAssign`, are the ones the endpoint methods
`UserController.UpdateProfile` and `TaskController.TaskStore.Assign` follow.
The as-written definitions, `UserController.AsWrittenProfileUpdate` and
`TaskController.AsWrittenAssign`, are kept beside them.
