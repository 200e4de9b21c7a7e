/** The `User` Eloquent model: its attribute bag, the mass-assignment and
    serialisation lists, the computed attributes, the query scopes, soft
    deletion and the last-activity touch; and the users table itself. */
module UserModel {
  import opened Common
  import opened Strings

  /** Hash::make of a password. The algorithm and the salt are not modelled;
      Hash::check of a plain password against a stored hash is equality with
      `Hashed(plain)`. A request can never supply such a value. */
  datatype PasswordHash = Hashed(plain: string)

  /** A column value as Eloquent holds it: null, text, a timestamp (seconds) or
      a password hash; and, in serialised form only, the avatar URL by the
      source it is built from. */
  datatype Value = Null | Text(text: string) | Time(at: int) | Digest(hash: PasswordHash) | Url(source: AvatarSource)

  /** The attribute names: the columns of the users table, the computed
      attributes serialisation adds, the request key password_confirmation,
      and `Other(name)` for any other key a request may carry. */
  datatype Key =
    | FirstName | LastName | Username | Email | Phone | Password | Avatar | Bio
    | DateOfBirth | Gender | Address | City | State | Country | PostalCode | Timezone
    | Language | Status | EmailVerifiedAt | PhoneVerifiedAt | TwoFactorEnabled
    | TwoFactorSecret | TwoFactorRecoveryCodes | RememberToken | LastLoginAt
    | LastActivityAt | Metadata | DeletedAt | PasswordConfirmation
    | FullName | Initials | AvatarUrl
    | Other(name: string)

  /** One row of the users table: its key and its attributes. A column that was
      never written reads as null. */
  datatype User = User(id: UserId, attrs: map<Key, Value>)

  /** `$fillable`: the attributes mass assignment may write. */
  predicate Fillable(k: Key) {
    match k
    case FirstName | LastName | Username | Email | Phone | Password | Avatar | Bio
       | DateOfBirth | Gender | Address | City | State | Country | PostalCode | Timezone
       | Language | Status | EmailVerifiedAt | PhoneVerifiedAt | TwoFactorEnabled
       | LastLoginAt | LastActivityAt | Metadata => true
    case _ => false
  }

  /** The attributes `$casts` declares as `datetime`. */
  predicate DateTimeCast(k: Key) {
    k == EmailVerifiedAt || k == PhoneVerifiedAt || k == LastLoginAt || k == LastActivityAt
  }

  /** `$hidden`: the attributes serialisation leaves out. */
  predicate Hidden(k: Key) {
    k == Password || k == RememberToken || k == TwoFactorRecoveryCodes || k == TwoFactorSecret
  }

  /** isOnline: active within the last five minutes. */
  const ONLINE_WINDOW_SECONDS: int := 5 * 60

  function Get(u: User, key: Key): Value {
    if key in u.attrs then u.attrs[key] else Null
  }

  /** A text column used as a PHP string: null reads as "". */
  function TextOf(v: Value): string {
    if v.Text? then v.text else ""
  }

  /** An attribute read as a PHP string. */
  function TextAt(u: User, key: Key): string {
    TextOf(Get(u, key))
  }

  // ------------------------------------------------------ computed attributes

  /** getFullNameAttribute: trim(first_name . ' ' . last_name). */
  function FullNameAttribute(u: User): (r: string)
    ensures |r| <= |TextAt(u, FirstName)| + 1 + |TextAt(u, LastName)|
    ensures TrimmedFrom(TextAt(u, FirstName) + " " + TextAt(u, LastName), r)
  {
    var s := TextAt(u, FirstName) + " " + TextAt(u, LastName);
    assert |s| == |TextAt(u, FirstName)| + 1 + |TextAt(u, LastName)|;
    Trim(s)
  }

  /** Names without surrounding blanks are joined by exactly one space. */
  lemma FullNameOfCleanNames(u: User)
    requires TextAt(u, FirstName) != [] && !IsTrimmable(TextAt(u, FirstName)[0])
    requires TextAt(u, LastName) != [] && !IsTrimmable(TextAt(u, LastName)[|TextAt(u, LastName)| - 1])
    ensures FullNameAttribute(u) == TextAt(u, FirstName) + " " + TextAt(u, LastName)
  {
    var s := TextAt(u, FirstName) + " " + TextAt(u, LastName);
    assert s[0] == TextAt(u, FirstName)[0] && s[|s| - 1] == TextAt(u, LastName)[|TextAt(u, LastName)| - 1];
  }

  /** getInitialsAttribute: strtoupper(substr(first, 0, 1) . substr(last, 0, 1)).
      At most two characters, no lower-case ASCII letter, and an empty name
      contributes nothing. */
  function InitialsAttribute(u: User): (r: string)
    ensures |r| <= 2
    ensures forall i :: 0 <= i < |r| ==> !('a' <= r[i] <= 'z')
    ensures TextAt(u, FirstName) != [] && TextAt(u, LastName) != [] ==>
      r == [UpperChar(TextAt(u, FirstName)[0]), UpperChar(TextAt(u, LastName)[0])]
    ensures TextAt(u, FirstName) == [] ==> r == Upper(FirstChar(TextAt(u, LastName)))
    ensures TextAt(u, LastName) == [] ==> r == Upper(FirstChar(TextAt(u, FirstName)))
  {
    var s := FirstChar(TextAt(u, FirstName)) + FirstChar(TextAt(u, LastName));
    assert TextAt(u, FirstName) == [] ==> s == FirstChar(TextAt(u, LastName));
    assert TextAt(u, LastName) == [] ==> s == FirstChar(TextAt(u, FirstName));
    Upper(s)
  }

  /** Which URL getAvatarUrlAttribute builds: the stored file, or the generated
      placeholder for the full name. The URL text itself (asset(), urlencode())
      is not modelled. */
  datatype AvatarSource = StoredFile(path: string) | Placeholder(name: string)

  /** PHP truthiness of a column: null, "" and "0" are false. */
  predicate Truthy(v: Value) {
    match v
    case Null => false
    case Text(s) => s != "" && s != "0"
    case _ => true
  }

  function AvatarUrlAttribute(u: User): (r: AvatarSource)
    ensures r.StoredFile? <==> Truthy(Get(u, Avatar))
    ensures r.StoredFile? ==> r.path == "storage/avatars/" + TextOf(Get(u, Avatar))
    ensures r.Placeholder? ==> r.name == FullNameAttribute(u)
  {
    if Truthy(Get(u, Avatar)) then StoredFile("storage/avatars/" + TextOf(Get(u, Avatar)))
    else Placeholder(FullNameAttribute(u))
  }

  /** isOnline: a last activity strictly after now minus five minutes. */
  predicate IsOnline(u: User, now: int) {
    Get(u, LastActivityAt).Time? && Get(u, LastActivityAt).at > now - ONLINE_WINDOW_SECONDS
  }

  // ------------------------------------------------------------- scopes

  predicate IsActive(u: User) {
    Get(u, Status) == Text("active")
  }

  predicate IsVerified(u: User) {
    Get(u, EmailVerifiedAt) != Null
  }

  /** SoftDeletes: a row with a deleted_at is trashed. */
  predicate IsTrashed(u: User) {
    Get(u, DeletedAt) != Null
  }

  /** A `where` clause: the rows satisfying `p`, in table order. */
  function Where(rows: seq<User>, p: User -> bool): (r: seq<User>)
    ensures |r| <= |rows|
    ensures forall u :: u in r <==> u in rows && p(u)
    decreases |rows|
  {
    if rows == [] then []
    else (if p(rows[0]) then [rows[0]] else []) + Where(rows[1..], p)
  }

  /** scopeActive: exactly the users whose status is "active". */
  function ScopeActive(rows: seq<User>): (r: seq<User>)
    ensures forall u :: u in r <==> u in rows && Get(u, Status) == Text("active")
  {
    Where(rows, IsActive)
  }

  /** scopeVerified: exactly the users with a non-null email_verified_at. */
  function ScopeVerified(rows: seq<User>): (r: seq<User>)
    ensures forall u :: u in r <==> u in rows && Get(u, EmailVerifiedAt) != Null
  {
    Where(rows, IsVerified)
  }

  /** The SoftDeletes global scope every default query carries. */
  function WithoutTrashed(rows: seq<User>): (r: seq<User>)
    ensures forall u :: u in r <==> u in rows && Get(u, DeletedAt) == Null
  {
    Where(rows, u => !IsTrashed(u))
  }

  // --------------------------------------------- mass assignment and writes

  /** fill()/update() with an attribute array: the fillable keys of `data`
      are written, every other key of `data` is dropped silently, and
      nothing else changes. */
  function Fill(u: User, data: map<Key, Value>): (r: User)
    ensures r.id == u.id
    ensures forall k :: Get(r, k) == if k in data && Fillable(k) then data[k] else Get(u, k)
  {
    User(u.id, u.attrs + map k | k in data && Fillable(k) :: data[k])
  }

  /** Data holding a hash only under the password leaves a row's only hash
      under the password. */
  lemma FillKeepsHashOnlyInPassword(u: User, data: map<Key, Value>)
    requires forall k :: k in u.attrs && u.attrs[k].Digest? ==> k == Password
    requires forall k :: k in data && data[k].Digest? ==> k == Password
    ensures forall k :: k in Fill(u, data).attrs && Fill(u, data).attrs[k].Digest? ==> k == Password
  {
  }

  /** When every key of `data` is fillable, fill() writes all of it. */
  lemma FillAllFillable(u: User, data: map<Key, Value>)
    requires forall k :: k in data ==> Fillable(k)
    ensures Fill(u, data) == User(u.id, u.attrs + data)
  {
    assert (map k | k in data && Fillable(k) :: data[k]) == data;
  }

  /** SoftDeletes::delete: deleted_at is set, nothing else changes. */
  function Trash(u: User, now: int): (r: User)
    ensures r.id == u.id && IsTrashed(r)
    ensures Get(r, DeletedAt) == Time(now)
    ensures forall k :: k != DeletedAt ==> Get(r, k) == Get(u, k)
  {
    User(u.id, u.attrs[DeletedAt := Time(now)])
  }

  /** updateLastActivity: last_activity_at becomes now, which makes the user
      online at that moment, and no other attribute changes. */
  function Touched(u: User, now: int): (r: User)
    ensures r.id == u.id
    ensures Get(r, LastActivityAt) == Time(now) && IsOnline(r, now)
    ensures forall k :: k != LastActivityAt ==> Get(r, k) == Get(u, k)
  {
    Fill(u, map[LastActivityAt := Time(now)])
  }

  /** After a touch at `touchedAt`, the user counts as online exactly until five
      minutes have passed. */
  lemma OnlineForFiveMinutes(u: User, touchedAt: int, now: int)
    ensures IsOnline(Touched(u, touchedAt), now) <==> now < touchedAt + ONLINE_WINDOW_SECONDS
  {
  }

  // ------------------------------------------------------------ serialisation

  /** The stored attributes minus `$hidden`. */
  function Visible(u: User): (r: map<Key, Value>)
    ensures forall k :: k in r <==> k in u.attrs && !Hidden(k)
    ensures forall k :: k in r ==> r[k] == u.attrs[k]
  {
    map k | k in u.attrs && !Hidden(k) :: u.attrs[k]
  }

  /** A computed attribute name of `$appends`. */
  predicate Appended(k: Key) {
    k == FullName || k == Initials || k == AvatarUrl
  }

  /** The visible attributes with the three computed attributes added. */
  function WithComputed(visible: map<Key, Value>, fullName: string, initials: string, avatar: AvatarSource): (r: map<Key, Value>)
    ensures forall k :: k in r <==> k in visible || Appended(k)
    ensures forall k :: k in visible && !Appended(k) ==> r[k] == visible[k]
    ensures FullName in r && Initials in r && AvatarUrl in r
    ensures r[FullName] == Text(fullName) && r[Initials] == Text(initials) && r[AvatarUrl] == Url(avatar)
  {
    visible[FullName := Text(fullName)][Initials := Text(initials)][AvatarUrl := Url(avatar)]
  }

  /** Adding the computed attributes to the visible ones adds no hidden key,
      no key beyond those two sources, and keeps every visible value. */
  lemma VisiblePlusComputed(u: User, fullName: string, initials: string, avatar: AvatarSource)
    ensures var r := WithComputed(Visible(u), fullName, initials, avatar);
      && (forall k :: k in r ==> !Hidden(k))
      && (forall k :: k in r ==> k in u.attrs || Appended(k))
      && (forall k :: k in u.attrs && !Hidden(k) && !Appended(k) ==> k in r && r[k] == u.attrs[k])
  {
  }

  /** toArray()/toJson(): the attributes minus `$hidden`, plus the computed
      full_name, initials and avatar_url of `$appends` (the avatar URL by the
      choice AvatarUrlAttribute makes; its text is not modelled). Nothing
      else is added. */
  function Serialize(u: User): (r: map<Key, Value>)
    ensures forall k :: k in r ==> !Hidden(k)
    ensures Password !in r && RememberToken !in r
    ensures TwoFactorSecret !in r && TwoFactorRecoveryCodes !in r
    ensures forall k :: k in r ==> k in u.attrs || Appended(k)
    ensures forall k :: k in u.attrs && !Hidden(k) && !Appended(k) ==> k in r && r[k] == u.attrs[k]
    ensures FullName in r && r[FullName] == Text(FullNameAttribute(u))
    ensures Initials in r && r[Initials] == Text(InitialsAttribute(u))
    ensures AvatarUrl in r && r[AvatarUrl] == Url(AvatarUrlAttribute(u))
  {
    var visible := Visible(u);
    var fullName := FullNameAttribute(u);
    var initials := InitialsAttribute(u);
    var avatar := AvatarUrlAttribute(u);
    VisiblePlusComputed(u, fullName, initials, avatar);
    WithComputed(visible, fullName, initials, avatar)
  }

  /** A password hash is only ever held under the password attribute. */
  predicate HashOnlyInPassword(u: User) {
    forall k :: k in u.attrs && u.attrs[k].Digest? ==> k == Password
  }

  /** No hash appears anywhere in the serialised form of such a user. */
  lemma SerializedCarriesNoHash(u: User)
    requires HashOnlyInPassword(u)
    ensures forall k :: k in Serialize(u) ==> !Serialize(u)[k].Digest?
  {
    var r := Serialize(u);
    forall k | k in r ensures !r[k].Digest? {
      if k == FullName || k == Initials || k == AvatarUrl {
        assert !r[k].Digest?;
      } else {
        assert k in u.attrs && !Hidden(k) && r[k] == u.attrs[k];
      }
    }
  }

  // ----------------------------------------------------------- the table

  /** Row i of the table has primary key i: keys are handed out in insertion
      order and soft deletion never removes a row. */
  predicate WellFormed(rows: seq<User>) {
    forall i :: 0 <= i < |rows| ==> rows[i].id == i
  }

  /** No two rows share a non-null value of `key` (the `unique:users` rules;
      they see soft-deleted rows too). */
  predicate UniqueOn(rows: seq<User>, key: Key) {
    forall i, j :: 0 <= i < |rows| && 0 <= j < |rows| && i != j && Get(rows[i], key).Text? ==>
      Get(rows[i], key) != Get(rows[j], key)
  }

  /** A row whose value of `key` no existing row holds can be appended
      without breaking uniqueness. */
  lemma AppendKeepsUnique(rows: seq<User>, u: User, key: Key)
    requires UniqueOn(rows, key)
    requires Get(u, key).Text? ==> forall i :: 0 <= i < |rows| ==> Get(rows[i], key) != Get(u, key)
    ensures UniqueOn(rows + [u], key)
  {
    var all := rows + [u];
    forall i, j | 0 <= i < |all| && 0 <= j < |all| && i != j && Get(all[i], key).Text?
      ensures Get(all[i], key) != Get(all[j], key)
    {
      if i == |rows| {
        assert all[j] == rows[j];
      } else if j == |rows| {
        assert all[i] == rows[i];
      } else {
        assert all[i] == rows[i] && all[j] == rows[j];
      }
    }
  }

  /** Replacing row `id` by a row whose value of `key` no other row holds
      keeps uniqueness. */
  lemma ReplaceKeepsUnique(rows: seq<User>, id: nat, u: User, key: Key)
    requires id < |rows| && UniqueOn(rows, key)
    requires Get(u, key).Text? ==> forall i :: 0 <= i < |rows| && i != id ==> Get(rows[i], key) != Get(u, key)
    ensures UniqueOn(rows[id := u], key)
  {
    var all := rows[id := u];
    forall i, j | 0 <= i < |all| && 0 <= j < |all| && i != j && Get(all[i], key).Text?
      ensures Get(all[i], key) != Get(all[j], key)
    {
      if i == id {
        assert all[j] == rows[j];
      } else if j == id {
        assert all[i] == rows[i];
      } else {
        assert all[i] == rows[i] && all[j] == rows[j];
      }
    }
  }

  /** What the register and profile flows keep true of the table. */
  predicate Consistent(rows: seq<User>) {
    && WellFormed(rows)
    && (forall i :: 0 <= i < |rows| ==> HashOnlyInPassword(rows[i]))
    && UniqueOn(rows, Username) && UniqueOn(rows, Email) && UniqueOn(rows, Phone)
  }

  /** Appending a row with the next key, hashes only under the password and no
      username, email or phone already taken keeps the table consistent. */
  lemma AppendKeepsConsistent(rows: seq<User>, u: User)
    requires Consistent(rows)
    requires u.id == |rows| && HashOnlyInPassword(u)
    requires forall key :: key in {Username, Email, Phone} && Get(u, key).Text? ==>
      forall i :: 0 <= i < |rows| ==> Get(rows[i], key) != Get(u, key)
    ensures Consistent(rows + [u])
  {
    AppendKeepsUnique(rows, u, Username);
    AppendKeepsUnique(rows, u, Email);
    AppendKeepsUnique(rows, u, Phone);
    var all := rows + [u];
    assert forall i :: 0 <= i < |rows| ==> all[i] == rows[i];
  }

  /** The users table, updated in place by the controllers. */
  class UserTable {
    var rows: seq<User>

    constructor ()
      ensures rows == []
    {
      rows := [];
    }

    /** User::create: a new row with the next key, mass-assigned from `attrs`. */
    method Create(attrs: map<Key, Value>) returns (id: UserId)
      modifies this
      ensures id == |old(rows)|
      ensures rows == old(rows) + [Fill(User(id, map[]), attrs)]
    {
      id := |rows|;
      var user := Fill(User(id, map[]), attrs);
      rows := rows + [user];
    }

    /** $user->update($data). */
    method Update(id: UserId, data: map<Key, Value>)
      requires id < |rows|
      modifies this
      ensures rows == old(rows)[id := Fill(old(rows)[id], data)]
    {
      rows := rows[id := Fill(rows[id], data)];
    }

    /** $user->delete() on a soft-deleting model. */
    method SoftDelete(id: UserId, now: int)
      requires id < |rows|
      modifies this
      ensures rows == old(rows)[id := Trash(old(rows)[id], now)]
    {
      rows := rows[id := Trash(rows[id], now)];
    }

    /** User::updateLastActivity on the row `id`. */
    method UpdateLastActivity(id: UserId, now: int)
      requires id < |rows|
      modifies this
      ensures rows == old(rows)[id := Touched(old(rows)[id], now)]
    {
      Update(id, map[LastActivityAt := Time(now)]);
    }
  }
}
