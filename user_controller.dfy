/** `UserController`: the filtered listing of users, the profile update of
    the authenticated user, the status change and soft deletion, over the
    users table. */
module UserController {
  import opened Common
  import opened Strings
  import opened UserModel

  // ------------------------------------------------------------ requests

  /** A value of the JSON body or the query string as the controller reads it. */
  datatype Input = JsonNull | JsonString(s: string)

  /** An uploaded file: the extension the client gave its name, the type the
      framework detects from its content, and its size in kilobytes. */
  datatype Upload = Upload(clientExtension: string, detectedType: string, kilobytes: nat)

  /** The request of the profile update: every non-file key sent, and the
      file sent under "avatar", if any. */
  datatype ProfileRequest = ProfileRequest(fields: map<Key, Input>, avatar: Option<Upload>)

  /** How a request value is written to a column. */
  function ToValue(i: Input): Value {
    match i
    case JsonNull => Null
    case JsonString(s) => Text(s)
  }

  /** A request value used as a PHP string: null reads as "". */
  function Plain(i: Input): string {
    match i
    case JsonNull => ""
    case JsonString(s) => s
  }

  datatype UserOutcome =
    | Ok(user: User)   // 200 with the user
    | Deleted          // 200 "User deleted successfully"
    | Invalid          // 422 field errors
    | NotFound         // 404 from findOrFail
    | ServerError      // 500 from an exception thrown while the row is written

  datatype UserStep = UserStep(outcome: UserOutcome, rows: seq<User>)

  // ------------------------------------------------------------ lookups

  /** findOrFail (and show): the row with that key, unless it is trashed. */
  function FindOrFail(rows: seq<User>, id: nat): (r: Option<User>)
    ensures r.Some? <==> id < |rows| && !IsTrashed(rows[id])
    ensures r.Some? ==> r.value == rows[id]
  {
    if id < |rows| && !IsTrashed(rows[id]) then Some(rows[id]) else None
  }

  // ------------------------------------------------------------ index

  /** The query string of index: `search` and `status` may be missing, empty
      (read as null) or given; `per_page` and `page` are integers if sent. */
  datatype IndexRequest = IndexRequest(search: Field<string>, status: Field<string>, perPage: Option<int>, page: Option<int>)

  /** The model's page size, used when per_page is missing or 0. */
  const DEFAULT_PER_PAGE: nat := 15

  /** `column LIKE pattern`; a null column matches no pattern. */
  predicate ColumnLike(u: User, key: Key, pattern: string) {
    Get(u, key).Text? && Like(Get(u, key).text, pattern)
  }

  predicate AnyColumnLike(u: User, pattern: string) {
    || ColumnLike(u, FirstName, pattern)
    || ColumnLike(u, LastName, pattern)
    || ColumnLike(u, Email, pattern)
    || ColumnLike(u, Username, pattern)
  }

  /** The search clause: "%{$search}%" against four columns; a null search
      interpolates as "", giving "%%". */
  predicate MatchesSearch(u: User, search: Field<string>) {
    match search
    case Absent => true
    case Nil => AnyColumnLike(u, "%%")
    case Given(s) => AnyColumnLike(u, "%" + s + "%")
  }

  /** The status clause: `where('status', null)` asks for a null status. */
  predicate MatchesStatus(u: User, status: Field<string>) {
    match status
    case Absent => true
    case Nil => Get(u, Status) == Null
    case Given(s) => Get(u, Status) == Text(s)
  }

  /** The rows the query selects, in table order. */
  function Matching(rows: seq<User>, req: IndexRequest): (r: seq<User>)
    ensures forall u :: u in r <==>
      u in rows && !IsTrashed(u) && MatchesSearch(u, req.search) && MatchesStatus(u, req.status)
  {
    Where(rows, u => !IsTrashed(u) && MatchesSearch(u, req.search) && MatchesStatus(u, req.status))
  }

  /** paginate($perPage): `$perPage ?: 15`, with no bound either way; a
      negative value is truthy and is kept. */
  function PageSize(perPage: Option<int>): (n: int)
    ensures n != 0
    ensures perPage.None? || perPage.value == 0 ==> n == DEFAULT_PER_PAGE
    ensures perPage.Some? && perPage.value != 0 ==> n == perPage.value
  {
    if perPage.None? || perPage.value == 0 then DEFAULT_PER_PAGE else perPage.value
  }

  /** The paginator's current page: the `page` parameter when it is at least 1. */
  function CurrentPage(page: Option<int>): (p: nat)
    ensures p >= 1
    ensures page.Some? && page.value >= 1 ==> p == page.value
    ensures page.None? || page.value < 1 ==> p == 1
  {
    if page.Some? && page.value >= 1 then page.value else 1
  }

  datatype Page = Page(items: seq<User>, total: nat, perPage: int, currentPage: nat)

  function Min(a: int, b: int): int {
    if a <= b then a else b
  }

  /** index: one page of the live users that pass the search and status
      clauses. For a positive page size the page holds at most that many
      rows, every one of them selected, and the first page of a long enough
      result is full. For a negative `per_page` every page holds every
      selected row. */
  function Index(rows: seq<User>, req: IndexRequest): (r: Page)
    ensures r.total == |Matching(rows, req)|
    ensures r.perPage == PageSize(req.perPage) && r.currentPage == CurrentPage(req.page)
    ensures r.perPage > 0 ==> |r.items| <= r.perPage
    ensures r.perPage < 0 ==> r.items == Matching(rows, req)
    ensures forall u :: u in r.items ==> !IsTrashed(u) && u in Matching(rows, req)
    ensures req.status.Given? ==> forall u :: u in r.items ==> Get(u, Status) == Text(req.status.value)
    ensures r.perPage > 0 && r.currentPage == 1 ==> |r.items| == Min(r.perPage, r.total)
  {
    var all := Matching(rows, req);
    var size := PageSize(req.perPage);
    var page := CurrentPage(req.page);
    var items := PageOf(all, size, page);
    assert forall u :: u in all ==> !IsTrashed(u) && MatchesStatus(u, req.status);
    Page(items, |all|, size, page)
  }

  /** forPage($page, $size): `offset((page - 1) * size)->limit(size)`. The
      query builder raises a negative offset to 0 and ignores a negative
      limit, so a negative size selects every row on every page; otherwise
      the rows from offset (page - 1) * size, at most `size` of them. */
  function PageOf(all: seq<User>, size: int, page: nat): (r: seq<User>)
    requires size != 0 && page >= 1
    ensures size > 0 ==> |r| <= size
    ensures size < 0 ==> r == all
    ensures forall u :: u in r ==> u in all
    ensures size > 0 && page == 1 ==> |r| == Min(size, |all|)
  {
    if size < 0 then all else
    var offset := (page - 1) * size;
    assert page == 1 ==> offset == 0;
    var lo := Min(offset, |all|);
    var hi := Min(lo + size, |all|);
    assert forall i :: lo <= i < hi ==> all[i] in all;
    all[lo..hi]
  }

  /** For a search without LIKE wildcards, every listed user contains the
      search text in one of the four searched columns. */
  lemma IndexSearchFinds(rows: seq<User>, req: IndexRequest, u: User)
    requires req.search.Given? && NoWildcards(req.search.value)
    requires u in Index(rows, req).items
    ensures || Contains(TextAt(u, FirstName), req.search.value)
            || Contains(TextAt(u, LastName), req.search.value)
            || Contains(TextAt(u, Email), req.search.value)
            || Contains(TextAt(u, Username), req.search.value)
  {
    var q := req.search.value;
    assert MatchesSearch(u, req.search);
    LikeIsSubstringSearch(TextAt(u, FirstName), q);
    LikeIsSubstringSearch(TextAt(u, LastName), q);
    LikeIsSubstringSearch(TextAt(u, Email), q);
    LikeIsSubstringSearch(TextAt(u, Username), q);
  }

  /** The column holds a text that contains `q`. */
  predicate ColumnContains(u: User, key: Key, q: string) {
    Get(u, key).Text? && Contains(Get(u, key).text, q)
  }

  /** Conversely, every live user of the right status who contains the
      search text in one of the four searched columns is selected. */
  lemma IndexSearchComplete(rows: seq<User>, req: IndexRequest, u: User)
    requires req.search.Given? && NoWildcards(req.search.value)
    requires u in rows && !IsTrashed(u) && MatchesStatus(u, req.status)
    requires || ColumnContains(u, FirstName, req.search.value)
             || ColumnContains(u, LastName, req.search.value)
             || ColumnContains(u, Email, req.search.value)
             || ColumnContains(u, Username, req.search.value)
    ensures u in Matching(rows, req)
  {
    var q := req.search.value;
    LikeIsSubstringSearch(TextAt(u, FirstName), q);
    LikeIsSubstringSearch(TextAt(u, LastName), q);
    LikeIsSubstringSearch(TextAt(u, Email), q);
    LikeIsSubstringSearch(TextAt(u, Username), q);
  }

  // ------------------------------------------------------------ update

  /** The checks behind the rules of the profile fields. */
  datatype Check = AnyText | EmailAddress | CalendarDate | OneOf(choices: set<string>)

  /** One field's `sometimes|[nullable|]...` rules. */
  datatype Rule = Rule(nullable: bool, maxLength: Option<nat>, check: Check, unique: bool)

  /** The rules update validates, apart from password and avatar. */
  function ProfileRule(k: Key): Option<Rule> {
    match k
    case FirstName => Some(Rule(false, Some(255), AnyText, false))
    case LastName => Some(Rule(false, Some(255), AnyText, false))
    case Username => Some(Rule(false, Some(255), AnyText, true))
    case Email => Some(Rule(false, Some(255), EmailAddress, true))
    case Phone => Some(Rule(true, Some(20), AnyText, true))
    case Bio => Some(Rule(true, Some(1000), AnyText, false))
    case DateOfBirth => Some(Rule(true, None, CalendarDate, false))
    case Gender => Some(Rule(true, None, OneOf({"male", "female", "other"}), false))
    case Address => Some(Rule(true, Some(500), AnyText, false))
    case City => Some(Rule(true, Some(100), AnyText, false))
    case State => Some(Rule(true, Some(100), AnyText, false))
    case Country => Some(Rule(true, Some(100), AnyText, false))
    case PostalCode => Some(Rule(true, Some(20), AnyText, false))
    case Timezone => Some(Rule(true, Some(50), AnyText, false))
    case Language => Some(Rule(true, Some(10), AnyText, false))
    case _ => None
  }

  const PASSWORD_MIN_LENGTH: nat := 8

  /** `mimes:jpeg,png,jpg,gif|max:2048`. */
  const AVATAR_TYPES: set<string> := {"jpeg", "png", "jpg", "gif"}
  const AVATAR_MAX_KILOBYTES: nat := 2048

  predicate Passes(check: Check, s: string, v: Validators) {
    match check
    case AnyText => true
    case EmailAddress => v.emailRule(s)
    case CalendarDate => v.dateRule(s)
    case OneOf(choices) => s in choices
  }

  /** `unique:users,key,id`: no other row, trashed or not, holds the value. */
  predicate UnusedByOthers(rows: seq<User>, id: nat, key: Key, s: string) {
    forall i :: 0 <= i < |rows| && i != id ==> Get(rows[i], key) != Text(s)
  }

  predicate FieldValid(rows: seq<User>, id: nat, key: Key, rule: Rule, input: Input, v: Validators) {
    match input
    case JsonNull => rule.nullable
    case JsonString(s) =>
      && (rule.maxLength.None? || |s| <= rule.maxLength.value)
      && Passes(rule.check, s, v)
      && (rule.unique ==> UnusedByOthers(rows, id, key, s))
  }

  /** `sometimes|string|min:8|confirmed`. */
  predicate PasswordValid(fields: map<Key, Input>) {
    Password in fields ==>
      && fields[Password].JsonString?
      && |fields[Password].s| >= PASSWORD_MIN_LENGTH
      && PasswordConfirmation in fields
      && fields[PasswordConfirmation] == fields[Password]
  }

  /** `sometimes|image|mimes:...|max:2048`: a non-file value under "avatar"
      is not an image and fails. */
  predicate AvatarValid(req: ProfileRequest) {
    && Avatar !in req.fields
    && (req.avatar.Some? ==>
          req.avatar.value.detectedType in AVATAR_TYPES && req.avatar.value.kilobytes <= AVATAR_MAX_KILOBYTES)
  }

  /** Every sent key with a rule passes it. Keys without a rule are not
      checked. */
  predicate RulesValid(rows: seq<User>, id: nat, req: ProfileRequest, v: Validators) {
    forall key :: key in req.fields && ProfileRule(key).Some? ==>
      FieldValid(rows, id, key, ProfileRule(key).value, req.fields[key], v)
  }

  /** The validation of update for the user `id`, with the password rule
      applied to every password sent. */
  predicate ProfileValid(rows: seq<User>, id: nat, req: ProfileRequest, v: Validators) {
    && RulesValid(rows, id, req, v)
    && PasswordValid(req.fields)
    && AvatarValid(req)
  }

  /** `sometimes|string|min:8|confirmed` as the validator runs it: for a
      string that trims to "" it runs only the implicit rules (`required`
      and its kin), and none of these four is one, so a blank password
      passes. The input middleware does not trim the password. */
  predicate AsWrittenPasswordValid(fields: map<Key, Input>) {
    || PasswordValid(fields)
    || (Password in fields && fields[Password].JsonString? && !Filled(fields[Password].s))
  }

  /** The validation of update as the validator runs it. */
  predicate AsWrittenProfileValid(rows: seq<User>, id: nat, req: ProfileRequest, v: Validators) {
    && RulesValid(rows, id, req, v)
    && AsWrittenPasswordValid(req.fields)
    && AvatarValid(req)
  }

  /** Keeping one's own username, email or phone passes its unique rule. */
  lemma OwnValuesStayValid(rows: seq<User>, id: nat, key: Key, s: string)
    requires Consistent(rows) && id < |rows|
    requires key == Username || key == Email || key == Phone
    requires Get(rows[id], key) == Text(s)
    ensures UnusedByOthers(rows, id, key, s)
  {
    forall i | 0 <= i < |rows| && i != id ensures Get(rows[i], key) != Text(s) {
      assert UniqueOn(rows, key);
      assert Get(rows[id], key) != Get(rows[i], key);
    }
  }

  /** `$user->id . '_' . time() . '.' . $file->getClientOriginalExtension()`. */
  function AvatarFileName(id: UserId, now: nat, extension: string): string {
    NatToString(id) + "_" + NatToString(now) + "." + extension
  }

  /** `$data['password']` and `$data['avatar']`, added when a password was
      sent and when a file was uploaded. */
  function WithSecrets(data: map<Key, Value>, req: ProfileRequest, id: UserId, now: nat): map<Key, Value> {
    var d := if Password in req.fields then data[Password := Digest(Hashed(Plain(req.fields[Password])))] else data;
    if req.avatar.Some? then d[Avatar := Text(AvatarFileName(id, now, req.avatar.value.clientExtension))] else d
  }

  /** Adding the password hash and the avatar name leaves every other key
      of the data as it was. */
  lemma SecretsKeepOthers(data: map<Key, Value>, req: ProfileRequest, id: UserId, now: nat)
    ensures forall k :: k != Password && k != Avatar ==> (k in WithSecrets(data, req, id, now) <==> k in data)
    ensures forall k :: k in data && k != Password && k != Avatar ==> WithSecrets(data, req, id, now)[k] == data[k]
    ensures Password in req.fields ==>
      WithSecrets(data, req, id, now)[Password] == Digest(Hashed(Plain(req.fields[Password])))
    ensures Password !in req.fields ==> (Password in WithSecrets(data, req, id, now) <==> Password in data)
    ensures req.avatar.Some? ==>
      WithSecrets(data, req, id, now)[Avatar] == Text(AvatarFileName(id, now, req.avatar.value.clientExtension))
    ensures req.avatar.None? ==> (Avatar in WithSecrets(data, req, id, now) <==> Avatar in data)
  {
  }

  /** Assigning a value to an attribute under `$casts`: a text under a
      datetime cast becomes the instant Carbon parses from it, or throws
      (None) when Carbon cannot parse it; every other value is stored as
      given. */
  function CastOnSet(k: Key, x: Value, v: Validators): (r: Option<Value>)
    ensures r.None? <==> DateTimeCast(k) && x.Text? && v.parseTime(x.text).None?
    ensures r.Some? ==> (r.value.Digest? <==> x.Digest?)
  {
    if DateTimeCast(k) && x.Text? then
      match v.parseTime(x.text)
      case None => None
      case Some(t) => Some(Time(t))
    else Some(x)
  }

  /** No assignment of the data throws. */
  predicate CastsSucceed(data: map<Key, Value>, v: Validators) {
    forall k :: k in data ==> CastOnSet(k, data[k], v).Some?
  }

  /** The data as the model stores it once every cast is applied. */
  function CastAll(data: map<Key, Value>, v: Validators): (r: map<Key, Value>)
    requires CastsSucceed(data, v)
    ensures forall k :: k in r <==> k in data
    ensures forall k :: k in data ==> Some(r[k]) == CastOnSet(k, data[k], v)
  {
    map k | k in data :: CastOnSet(k, data[k], v).value
  }

  /** `$request->except(['password', 'avatar'])`: every other key sent,
      validated or not. */
  function SubmittedData(req: ProfileRequest): map<Key, Value> {
    map k | k in req.fields && k != Password && k != Avatar :: ToValue(req.fields[k])
  }

  /** The keys that passed a rule. */
  function ValidatedData(req: ProfileRequest): map<Key, Value> {
    map k | k in req.fields && ProfileRule(k).Some? :: ToValue(req.fields[k])
  }

  /** Every attribute update may write is in `$fillable`. */
  lemma ProfileKeysFillable()
    ensures forall k :: ProfileRule(k).Some? ==> Fillable(k)
    ensures Fillable(Password) && Fillable(Avatar) && Fillable(Status)
  {
  }

  /** The as-written data is assignable exactly when every datetime-cast
      key sent as a string holds a time Carbon can parse. */
  lemma CastsSucceedIff(req: ProfileRequest, v: Validators)
    ensures CastsSucceed(SubmittedData(req), v) <==>
      forall k :: k in req.fields && DateTimeCast(k) && req.fields[k].JsonString? ==>
        v.parseTime(req.fields[k].s).Some?
  {
    var data := SubmittedData(req);
    if CastsSucceed(data, v) {
      forall k | k in req.fields && DateTimeCast(k) && req.fields[k].JsonString?
        ensures v.parseTime(req.fields[k].s).Some?
      {
        assert k in data && data[k] == Text(req.fields[k].s);
        assert CastOnSet(k, data[k], v).Some?;
      }
    }
  }

  /** What the cast data holds, key by key of the request. */
  lemma CastSubmitted(req: ProfileRequest, v: Validators)
    requires CastsSucceed(SubmittedData(req), v)
    ensures var cast := CastAll(SubmittedData(req), v);
      && (forall k :: k in cast <==> k in req.fields && k != Password && k != Avatar)
      && (forall k :: k in cast && !DateTimeCast(k) ==> cast[k] == ToValue(req.fields[k]))
      && (forall k :: k in cast && DateTimeCast(k) && req.fields[k].JsonNull? ==> cast[k] == Null)
      && (forall k :: k in cast && DateTimeCast(k) && req.fields[k].JsonString? ==>
            v.parseTime(req.fields[k].s).Some? && cast[k] == Time(v.parseTime(req.fields[k].s).value))
  {
    var submitted := SubmittedData(req);
    var cast := CastAll(submitted, v);
    forall k | k in cast ensures Some(cast[k]) == CastOnSet(k, ToValue(req.fields[k]), v) {
      assert submitted[k] == ToValue(req.fields[k]);
    }
  }

  /** `$user->update($data)` as written, on the user's row: the whole
      request minus password and avatar is mass-assigned, so every fillable
      key of the request is written, whether a rule checked it or not; a
      datetime-cast key stores the instant parsed from the text sent. The
      password changes only when one was sent, and then to its hash; the
      avatar only on an upload, to the generated file name; a key that was
      not sent or is not fillable keeps its value. */
  function AsWrittenProfileData(u: User, req: ProfileRequest, now: nat, v: Validators): (r: User)
    requires CastsSucceed(SubmittedData(req), v)
    ensures r.id == u.id
    ensures forall k :: k in req.fields && Fillable(k) && k != Password && k != Avatar && !DateTimeCast(k) ==>
      Get(r, k) == ToValue(req.fields[k])
    ensures forall k :: k in req.fields && DateTimeCast(k) && req.fields[k].JsonNull? ==> Get(r, k) == Null
    ensures forall k :: k in req.fields && DateTimeCast(k) && req.fields[k].JsonString? ==>
      v.parseTime(req.fields[k].s).Some? && Get(r, k) == Time(v.parseTime(req.fields[k].s).value)
    ensures forall k :: (k !in req.fields || !Fillable(k)) && k != Password && k != Avatar ==>
      Get(r, k) == Get(u, k)
    ensures Password in req.fields ==> Get(r, Password) == Digest(Hashed(Plain(req.fields[Password])))
    ensures Password !in req.fields ==> Get(r, Password) == Get(u, Password)
    ensures req.avatar.Some? ==> Get(r, Avatar) == Text(AvatarFileName(u.id, now, req.avatar.value.clientExtension))
    ensures req.avatar.None? ==> Get(r, Avatar) == Get(u, Avatar)
  {
    var submitted := SubmittedData(req);
    var cast := CastAll(submitted, v);
    var data := WithSecrets(cast, req, u.id, now);
    CastSubmitted(req, v);
    SecretsKeepOthers(cast, req, u.id, now);
    ProfileKeysFillable();
    assert forall k :: DateTimeCast(k) ==> Fillable(k) && k != Password && k != Avatar;
    Fill(u, data)
  }

  /** update as written: the validation, then the assignment, which throws
      (500, nothing written) on a datetime Carbon cannot parse; otherwise
      only the user's row changes. */
  function AsWrittenProfileUpdate(rows: seq<User>, id: UserId, req: ProfileRequest, now: nat, v: Validators): (r: UserStep)
    requires id < |rows|
    ensures !AsWrittenProfileValid(rows, id, req, v) ==> r == UserStep(Invalid, rows)
    ensures AsWrittenProfileValid(rows, id, req, v) && !CastsSucceed(SubmittedData(req), v) ==>
      r == UserStep(ServerError, rows)
    ensures AsWrittenProfileValid(rows, id, req, v) && CastsSucceed(SubmittedData(req), v) ==>
      && |r.rows| == |rows| && r.rows[id] == AsWrittenProfileData(rows[id], req, now, v)
      && r.outcome == Ok(r.rows[id])
      && (forall i :: 0 <= i < |rows| && i != id ==> r.rows[i] == rows[i])
  {
    if !AsWrittenProfileValid(rows, id, req, v) then UserStep(Invalid, rows)
    else if !CastsSucceed(SubmittedData(req), v) then UserStep(ServerError, rows)
    else
      var u := AsWrittenProfileData(rows[id], req, now, v);
      UserStep(Ok(u), rows[id := u])
  }

  /** Request values are never hashes, so the update as written also leaves
      the only hash under the password. */
  lemma AsWrittenHashOnlyInPassword(u: User, req: ProfileRequest, now: nat, v: Validators)
    requires CastsSucceed(SubmittedData(req), v)
    requires HashOnlyInPassword(u)
    ensures HashOnlyInPassword(AsWrittenProfileData(u, req, now, v))
  {
    var data := WithSecrets(CastAll(SubmittedData(req), v), req, u.id, now);
    AsWrittenDataShape(req, u.id, now, v);
    FillKeepsHashOnlyInPassword(u, data);
  }

  /** The data update writes as written holds a hash only under Password:
      request values are never hashes, and no cast makes one. */
  lemma AsWrittenDataShape(req: ProfileRequest, id: UserId, now: nat, v: Validators)
    requires CastsSucceed(SubmittedData(req), v)
    ensures var data := WithSecrets(CastAll(SubmittedData(req), v), req, id, now);
      forall k :: k in data && data[k].Digest? ==> k == Password
  {
    var submitted := SubmittedData(req);
    var cast := CastAll(submitted, v);
    assert forall k :: k in cast ==> !cast[k].Digest? by {
      forall k | k in cast ensures !cast[k].Digest? {
        assert Some(cast[k]) == CastOnSet(k, submitted[k], v);
      }
    }
  }

  /** username, email and phone keep their unique rules in the update as
      written, so they stay unique. */
  lemma AsWrittenUniqueAfterUpdate(rows: seq<User>, id: UserId, req: ProfileRequest, now: nat, v: Validators, key: Key)
    requires Consistent(rows) && id < |rows| && AsWrittenProfileValid(rows, id, req, v)
    requires CastsSucceed(SubmittedData(req), v)
    requires key == Username || key == Email || key == Phone
    ensures UniqueOn(rows[id := AsWrittenProfileData(rows[id], req, now, v)], key)
  {
    var u := AsWrittenProfileData(rows[id], req, now, v);
    ProfileKeysFillable();
    assert ProfileRule(key).Some? && ProfileRule(key).value.unique && !DateTimeCast(key);
    if Get(u, key).Text? {
      if key in req.fields {
        assert Get(u, key) == ToValue(req.fields[key]);
        assert FieldValid(rows, id, key, ProfileRule(key).value, req.fields[key], v);
      } else {
        forall i | 0 <= i < |rows| && i != id ensures Get(rows[i], key) != Get(u, key) {
          assert UniqueOn(rows, key);
          assert Get(rows[id], key) != Get(rows[i], key);
        }
      }
    }
    ReplaceKeepsUnique(rows, id, u, key);
  }

  /** The update as written keeps the table consistent: keys, hashes only
      under the password, and unique usernames, emails and phones. */
  lemma AsWrittenUpdateKeepsConsistent(rows: seq<User>, id: UserId, req: ProfileRequest, now: nat, v: Validators)
    requires Consistent(rows) && id < |rows|
    ensures Consistent(AsWrittenProfileUpdate(rows, id, req, now, v).rows)
  {
    if AsWrittenProfileValid(rows, id, req, v) && CastsSucceed(SubmittedData(req), v) {
      var u := AsWrittenProfileData(rows[id], req, now, v);
      assert AsWrittenProfileUpdate(rows, id, req, now, v).rows == rows[id := u];
      AsWrittenUniqueAfterUpdate(rows, id, req, now, v, Username);
      AsWrittenUniqueAfterUpdate(rows, id, req, now, v, Email);
      AsWrittenUniqueAfterUpdate(rows, id, req, now, v, Phone);
      AsWrittenHashOnlyInPassword(rows[id], req, now, v);
      var after := rows[id := u];
      assert forall i :: 0 <= i < |rows| && i != id ==> after[i] == rows[i];
      assert WellFormed(after);
    }
  }

  /** As written, last_activity_at is fillable and unchecked: a user who
      sends a time Carbon parses to within the last five minutes is online
      from then on, whatever they last did. */
  lemma SentActivityMakesOnline(rows: seq<User>, id: UserId, req: ProfileRequest, now: nat, v: Validators, s: string, clock: int)
    requires id < |rows| && AsWrittenProfileValid(rows, id, req, v) && CastsSucceed(SubmittedData(req), v)
    requires LastActivityAt in req.fields && req.fields[LastActivityAt] == JsonString(s)
    requires v.parseTime(s).Some? && v.parseTime(s).value > clock - ONLINE_WINDOW_SECONDS
    ensures IsOnline(AsWrittenProfileUpdate(rows, id, req, now, v).rows[id], clock)
  {
    assert DateTimeCast(LastActivityAt);
  }

  /** As written, a time Carbon cannot parse under a datetime-cast key makes
      the update fail with a 500, and nothing is written. */
  lemma UnparsableTimeFails(rows: seq<User>, id: UserId, req: ProfileRequest, now: nat, v: Validators, k: Key)
    requires id < |rows| && AsWrittenProfileValid(rows, id, req, v)
    requires k in req.fields && DateTimeCast(k) && req.fields[k].JsonString? && v.parseTime(req.fields[k].s).None?
    ensures AsWrittenProfileUpdate(rows, id, req, now, v) == UserStep(ServerError, rows)
  {
    CastsSucceedIff(req, v);
  }

  /** As written, a blank password passes validation without a
      confirmation and is hashed and stored; the corrected validation
      refuses it. */
  lemma BlankPasswordAccepted(v: Validators)
    ensures var rows := [User(0, map[])];
      var req := ProfileRequest(map[Password := JsonString(" ")], None);
      && AsWrittenProfileValid(rows, 0, req, v)
      && CastsSucceed(SubmittedData(req), v)
      && Get(AsWrittenProfileUpdate(rows, 0, req, 0, v).rows[0], Password) == Digest(Hashed(" "))
      && !ProfileValid(rows, 0, req, v)
  {
    var rows := [User(0, map[])];
    var req := ProfileRequest(map[Password := JsonString(" ")], None);
    assert !Filled(" ") by {
      assert IsTrimmable(" "[0]);
    }
    assert SubmittedData(req) == map[];
    assert AsWrittenProfileValid(rows, 0, req, v);
  }

  /** A suspended user can reactivate their own account: status is fillable
      and has no rule, so `{"status": "active"}` passes validation and is
      written. */
  lemma SelfReactivation(v: Validators)
    ensures var rows := [User(0, map[Status := Text("suspended")])];
      var req := ProfileRequest(map[Status := JsonString("active")], None);
      && AsWrittenProfileValid(rows, 0, req, v)
      && IsActive(AsWrittenProfileUpdate(rows, 0, req, 0, v).rows[0])
  {
    var rows := [User(0, map[Status := Text("suspended")])];
    var req := ProfileRequest(map[Status := JsonString("active")], None);
    ProfileKeysFillable();
    assert ProfileRule(Status).None? && !DateTimeCast(Status);
    assert AsWrittenProfileValid(rows, 0, req, v);
    assert CastsSucceed(SubmittedData(req), v);
    assert Get(AsWrittenProfileData(rows[0], req, 0, v), Status) == Text("active");
  }

  /** The data update writes: the validated fields, the hash of a sent
      password and the name of an uploaded avatar. */
  function ProfileData(req: ProfileRequest, id: UserId, now: nat): map<Key, Value> {
    WithSecrets(ValidatedData(req), req, id, now)
  }

  /** `$user->update($data)` with only the validated fields, on the user's
      row. Each validated field takes its sent value; the password changes
      only when one was sent, and then only to its hash; the avatar changes
      only when a file was uploaded, to the generated file name; every
      other attribute (status included) keeps its value. */
  function ProfileUpdated(u: User, req: ProfileRequest, now: nat): (r: User)
    ensures r.id == u.id
    ensures forall k :: k in req.fields && ProfileRule(k).Some? ==> Get(r, k) == ToValue(req.fields[k])
    ensures forall k :: k !in req.fields && ProfileRule(k).Some? ==> Get(r, k) == Get(u, k)
    ensures forall k :: ProfileRule(k).None? && k != Password && k != Avatar ==> Get(r, k) == Get(u, k)
    ensures Password in req.fields ==> Get(r, Password) == Digest(Hashed(Plain(req.fields[Password])))
    ensures Password !in req.fields ==> Get(r, Password) == Get(u, Password)
    ensures req.avatar.Some? ==> Get(r, Avatar) == Text(AvatarFileName(u.id, now, req.avatar.value.clientExtension))
    ensures req.avatar.None? ==> Get(r, Avatar) == Get(u, Avatar)
  {
    var data := ProfileData(req, u.id, now);
    ProfileKeysFillable();
    FillAllFillable(u, data);
    Fill(u, data)
  }

  /** update with only the validated fields: a request that breaks a rule
      writes nothing; otherwise only the user's own row changes. */
  function AfterProfileUpdate(rows: seq<User>, id: UserId, req: ProfileRequest, now: nat, v: Validators): (r: UserStep)
    requires id < |rows|
    ensures !ProfileValid(rows, id, req, v) ==> r == UserStep(Invalid, rows)
    ensures ProfileValid(rows, id, req, v) ==>
      && |r.rows| == |rows| && r.rows[id] == ProfileUpdated(rows[id], req, now)
      && r.outcome == Ok(r.rows[id])
      && (forall i :: 0 <= i < |rows| && i != id ==> r.rows[i] == rows[i])
  {
    if !ProfileValid(rows, id, req, v) then UserStep(Invalid, rows)
    else
      var u := ProfileUpdated(rows[id], req, now);
      UserStep(Ok(u), rows[id := u])
  }

  /** No profile update changes a user's status. */
  lemma ProfileUpdateKeepsStatus(rows: seq<User>, id: UserId, req: ProfileRequest, now: nat, v: Validators)
    requires id < |rows|
    ensures Get(AfterProfileUpdate(rows, id, req, now, v).rows[id], Status) == Get(rows[id], Status)
  {
    assert ProfileRule(Status).None?;
  }

  /** With the corrected validation, the password is set only to one of at
      least 8 characters that was sent again as its confirmation; a blank
      one is refused like any other short one. */
  lemma PasswordSetOnlyConfirmed(rows: seq<User>, id: UserId, req: ProfileRequest, now: nat, v: Validators)
    requires id < |rows| && Password in req.fields
    ensures var r := AfterProfileUpdate(rows, id, req, now, v);
      r.outcome.Ok? ==>
        && req.fields[Password].JsonString?
        && |req.fields[Password].s| >= PASSWORD_MIN_LENGTH
        && PasswordConfirmation in req.fields && req.fields[PasswordConfirmation] == req.fields[Password]
        && Get(r.rows[id], Password) == Digest(Hashed(req.fields[Password].s))
  {
  }

  /** The profile update keeps the table consistent: hashes only under
      Password, and usernames, emails and phones unique. */
  lemma ProfileUpdateKeepsConsistent(rows: seq<User>, id: UserId, req: ProfileRequest, now: nat, v: Validators)
    requires Consistent(rows) && id < |rows|
    ensures Consistent(AfterProfileUpdate(rows, id, req, now, v).rows)
  {
    if ProfileValid(rows, id, req, v) {
      var u := ProfileUpdated(rows[id], req, now);
      assert AfterProfileUpdate(rows, id, req, now, v).rows == rows[id := u];
      UniqueAfterProfileUpdate(rows, id, req, now, v, Username);
      UniqueAfterProfileUpdate(rows, id, req, now, v, Email);
      UniqueAfterProfileUpdate(rows, id, req, now, v, Phone);
      UpdatedHashOnlyInPassword(rows[id], req, now);
      var after := rows[id := u];
      assert forall i :: 0 <= i < |rows| && i != id ==> after[i] == rows[i];
      assert WellFormed(after);
    }
  }

  /** The data update writes holds only fillable keys, and a hash only under
      Password: request values are never hashes. */
  lemma ProfileDataShape(req: ProfileRequest, id: UserId, now: nat)
    ensures forall k :: k in ProfileData(req, id, now) ==> Fillable(k)
    ensures forall k :: k in ProfileData(req, id, now) && ProfileData(req, id, now)[k].Digest? ==> k == Password
  {
    ProfileKeysFillable();
    var validated := ValidatedData(req);
    assert forall k :: k in validated ==> ProfileRule(k).Some? && !validated[k].Digest?;
  }

  /** Request values are never hashes, so the only hash after the update is
      the password's. */
  lemma UpdatedHashOnlyInPassword(u: User, req: ProfileRequest, now: nat)
    requires HashOnlyInPassword(u)
    ensures HashOnlyInPassword(ProfileUpdated(u, req, now))
  {
    var data := ProfileData(req, u.id, now);
    ProfileDataShape(req, u.id, now);
    FillAllFillable(u, data);
    var r := ProfileUpdated(u, req, now);
    assert r.attrs == u.attrs + data;
    forall k | k in r.attrs && r.attrs[k].Digest? ensures k == Password {
      if k !in data {
        assert r.attrs[k] == u.attrs[k];
      }
    }
  }

  lemma UniqueAfterProfileUpdate(rows: seq<User>, id: UserId, req: ProfileRequest, now: nat, v: Validators, key: Key)
    requires Consistent(rows) && id < |rows| && ProfileValid(rows, id, req, v)
    requires key == Username || key == Email || key == Phone
    ensures UniqueOn(rows[id := ProfileUpdated(rows[id], req, now)], key)
  {
    var u := ProfileUpdated(rows[id], req, now);
    assert ProfileRule(key).Some? && ProfileRule(key).value.unique;
    if Get(u, key).Text? {
      if key in req.fields {
        assert FieldValid(rows, id, key, ProfileRule(key).value, req.fields[key], v);
      } else {
        forall i | 0 <= i < |rows| && i != id ensures Get(rows[i], key) != Get(u, key) {
          assert UniqueOn(rows, key);
          assert Get(rows[id], key) != Get(rows[i], key);
        }
      }
    }
    ReplaceKeepsUnique(rows, id, u, key);
  }

  // ------------------------------------------------------------ status

  const STATUSES: set<string> := {"active", "inactive", "suspended"}

  /** updateStatus: the status is validated first (422), then the user is
      looked up (404). On success only that user's status changes, to the
      value sent. */
  function AfterUpdateStatus(rows: seq<User>, id: nat, status: Field<string>): (r: UserStep)
    ensures !(status.Given? && status.value in STATUSES) ==> r == UserStep(Invalid, rows)
    ensures status.Given? && status.value in STATUSES && FindOrFail(rows, id).None? ==> r == UserStep(NotFound, rows)
    ensures r.outcome.Ok? <==> status.Given? && status.value in STATUSES && FindOrFail(rows, id).Some?
    ensures r.outcome.Ok? ==>
      && |r.rows| == |rows| && r.outcome.user == r.rows[id] && r.rows[id].id == rows[id].id
      && (forall i :: 0 <= i < |rows| && i != id ==> r.rows[i] == rows[i])
      && Get(r.rows[id], Status) == Text(status.value)
      && (forall k :: k != Status ==> Get(r.rows[id], k) == Get(rows[id], k))
  {
    if !(status.Given? && status.value in STATUSES) then UserStep(Invalid, rows)
    else if FindOrFail(rows, id).None? then UserStep(NotFound, rows)
    else
      ProfileKeysFillable();
      var u := Fill(rows[id], map[Status := Text(status.value)]);
      UserStep(Ok(u), rows[id := u])
  }

  // ------------------------------------------------------------ destroy

  /** destroy: an unknown or already trashed user is not found; otherwise
      the row stays but is marked deleted at `now`, and nothing else changes. */
  function AfterDestroy(rows: seq<User>, id: nat, now: int): (r: UserStep)
    ensures FindOrFail(rows, id).None? ==> r == UserStep(NotFound, rows)
    ensures FindOrFail(rows, id).Some? ==>
      && r.outcome == Deleted && |r.rows| == |rows|
      && (forall i :: 0 <= i < |rows| && i != id ==> r.rows[i] == rows[i])
      && r.rows[id].id == rows[id].id && Get(r.rows[id], DeletedAt) == Time(now)
      && (forall k :: k != DeletedAt ==> Get(r.rows[id], k) == Get(rows[id], k))
  {
    if FindOrFail(rows, id).None? then UserStep(NotFound, rows)
    else UserStep(Deleted, rows[id := Trash(rows[id], now)])
  }

  /** After a destroy the user is gone from every listing and lookup, a
      second destroy is not found, and every other user is as findable as
      before. */
  lemma DestroyHides(rows: seq<User>, id: nat, now: int, later: int, req: IndexRequest)
    requires FindOrFail(rows, id).Some?
    ensures var after := AfterDestroy(rows, id, now).rows;
      && FindOrFail(after, id).None?
      && after[id] !in Matching(after, req)
      && AfterDestroy(after, id, later).outcome == NotFound
      && (forall j :: j != id ==> FindOrFail(after, j) == FindOrFail(rows, j))
  {
    var after := AfterDestroy(rows, id, now).rows;
    assert IsTrashed(after[id]);
  }

  // ------------------------------------------------------------ endpoints

  /** update for the authenticated user `id`, building `$data` step by step
      with the corrected merge: the validated fields rather than the whole
      request (AsWrittenProfileUpdate is the update as written). */
  method UpdateProfile(users: UserTable, id: UserId, req: ProfileRequest, now: nat, v: Validators)
    returns (outcome: UserOutcome)
    requires id < |users.rows|
    modifies users
    ensures UserStep(outcome, users.rows) == AfterProfileUpdate(old(users.rows), id, req, now, v)
  {
    if !ProfileValid(users.rows, id, req, v) {
      outcome := Invalid;
      return;
    }
    var data := ValidatedData(req);
    if Password in req.fields {
      data := data[Password := Digest(Hashed(Plain(req.fields[Password])))];
    }
    if req.avatar.Some? {
      data := data[Avatar := Text(AvatarFileName(users.rows[id].id, now, req.avatar.value.clientExtension))];
    }
    users.Update(id, data);
    outcome := Ok(users.rows[id]);
  }

  method UpdateStatus(users: UserTable, id: nat, status: Field<string>) returns (outcome: UserOutcome)
    modifies users
    ensures UserStep(outcome, users.rows) == AfterUpdateStatus(old(users.rows), id, status)
  {
    if !(status.Given? && status.value in STATUSES) {
      outcome := Invalid;
      return;
    }
    if !(id < |users.rows| && !IsTrashed(users.rows[id])) {
      outcome := NotFound;
      return;
    }
    users.Update(id, map[Status := Text(status.value)]);
    outcome := Ok(users.rows[id]);
  }

  method Destroy(users: UserTable, id: nat, now: int) returns (outcome: UserOutcome)
    modifies users
    ensures UserStep(outcome, users.rows) == AfterDestroy(old(users.rows), id, now)
  {
    if !(id < |users.rows| && !IsTrashed(users.rows[id])) {
      outcome := NotFound;
      return;
    }
    users.SoftDelete(id, now);
    outcome := Deleted;
  }
}
