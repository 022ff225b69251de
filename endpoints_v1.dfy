/**
 * The v1 router of the journal service over an in-memory store: one map
 * per table, keyed by the row's id. Each request either commits all its
 * changes or, when it fails, none of them. The hashing function, the
 * clock, fresh ids and the two model services are parameters.
 */
module EndpointsV1 {
  import opened Wrappers
  import opened PyStr
  import opened PurePaths
  import opened Records
  import opened Listing
  import opened Functions
  import opened Activity

  // ---------------------------------------------------------------- users

  /** The body of `POST /users/`: username and email may be null, the password may not. */
  datatype UserCreate = UserCreate(username: Option<string>, email: Option<string>, password: string)

  /** Some user already has this email. */
  predicate EmailTaken(users: map<Uuid, User>, email: string) {
    exists id :: id in users && users[id].email == email
  }

  /** No two users share an email (the unique index on `users.email`). */
  predicate EmailsUnique(users: map<Uuid, User>) {
    forall a, b :: a in users && b in users && users[a].email == users[b].email ==> a == b
  }

  /**
   * The outcome of `create_user`. A registered email is refused with 400
   * before anything else; a null username or email, a username, email or
   * password hash too long for its column, or an id that is already in
   * use makes the insert fail (500). The new row holds the hash of the
   * password, never the password itself.
   */
  function CreateUserResult(users: map<Uuid, User>, req: UserCreate, newId: Uuid, now: Time,
                            hash: string -> string): (r: Result<User, ApiError>)
    ensures r == Err(HttpError(400, "Email already registered"))
         <==> req.email.Some? && EmailTaken(users, req.email.value)
    ensures r.Ok? <==> req.username.Some? && req.email.Some? && !EmailTaken(users, req.email.value)
                       && Fits(req.username.value) && Fits(req.email.value) && Fits(hash(req.password))
                       && newId !in users
    ensures r.Err? && r != Err(HttpError(400, "Email already registered")) ==> r == Err(ServerError)
    ensures r.Ok? ==> r.value.userId == newId && r.value.passwordHash == hash(req.password)
                      && r.value.username == req.username.value && r.value.email == req.email.value
                      && r.value.lastLogin.None? && r.value.isActive
                      && r.value.profilePictureUrl.None? && r.value.bio.None?
                      && r.value.timeCreated == now
    ensures r.Ok? ==> UserFits(r.value)
  {
    if req.email.Some? && EmailTaken(users, req.email.value) then
      Err(HttpError(400, "Email already registered"))
    else if req.username.None? || req.email.None? || newId in users then
      Err(ServerError)
    else if !Fits(req.username.value) || !Fits(req.email.value) || !Fits(hash(req.password)) then
      Err(ServerError)
    else
      Ok(User(newId, req.username.value, req.email.value, hash(req.password), now, None, true, None, None))
  }

  /** A successful `create_user` keeps the emails unique. */
  lemma CreateUserKeepsEmailsUnique(users: map<Uuid, User>, req: UserCreate, newId: Uuid, now: Time,
                                    hash: string -> string)
    requires EmailsUnique(users)
    requires CreateUserResult(users, req, newId, now, hash).Ok?
    ensures EmailsUnique(users[newId := CreateUserResult(users, req, newId, now, hash).value])
  {
    var u := CreateUserResult(users, req, newId, now, hash).value;
    assert !EmailTaken(users, u.email);
  }

  /**
   * The body of `PUT /users/{user_id}`, field by field in declaration
   * order. `Keep` is a field the client left out; `Set(None)` an explicit null.
   */
  datatype UserUpdate = UserUpdate(
    username: Patch<Option<string>>,
    email: Patch<Option<string>>,
    password: Patch<Option<string>>,
    isActive: Patch<Option<bool>>,
    profilePictureUrl: Patch<Option<string>>,
    bio: Patch<Option<string>>)

  /** One `(key, value)` pair of `user_update.dict(exclude_unset=True)`. */
  datatype UserField =
    | Username(text: Option<string>)
    | Email(text: Option<string>)
    | Password(text: Option<string>)
    | IsActive(flag: Option<bool>)
    | ProfilePictureUrl(text: Option<string>)
    | Bio(text: Option<string>)

  /** The pair field number `k` (1 to 6, in declaration order) contributes: none when it was not sent. */
  function FieldItem(upd: UserUpdate, k: nat): (items: seq<UserField>)
    requires 1 <= k <= 6
    ensures |items| <= 1
  {
    match k
    case 1 => if upd.username.Set? then [Username(upd.username.value)] else []
    case 2 => if upd.email.Set? then [Email(upd.email.value)] else []
    case 3 => if upd.password.Set? then [Password(upd.password.value)] else []
    case 4 => if upd.isActive.Set? then [IsActive(upd.isActive.value)] else []
    case 5 => if upd.profilePictureUrl.Set? then [ProfilePictureUrl(upd.profilePictureUrl.value)] else []
    case _ => if upd.bio.Set? then [Bio(upd.bio.value)] else []
  }

  /** The pairs of the first `k` fields. */
  function FieldItems(upd: UserUpdate, k: nat): (items: seq<UserField>)
    requires k <= 6
    ensures |items| <= k
  {
    if k == 0 then [] else FieldItems(upd, k - 1) + FieldItem(upd, k)
  }

  /** The pairs the update loop visits: the fields that were sent, in declaration order. */
  function UserItems(upd: UserUpdate): (items: seq<UserField>)
    ensures |items| <= 6
  {
    FieldItems(upd, 6)
  }

  /**
   * One `setattr` of the update loop. A password is stored as its hash;
   * a null password cannot be hashed, and a null username, email or
   * `is_active`, or a text too long for its column, cannot be committed:
   * either way the request ends in a 500.
   */
  function AssignUser(cur: Result<User, ApiError>, item: UserField, hash: string -> string): Result<User, ApiError> {
    if cur.Err? then cur
    else
      var u := cur.value;
      match item
      case Username(v) => if v.None? || !Fits(v.value) then Err(ServerError) else Ok(u.(username := v.value))
      case Email(v) => if v.None? || !Fits(v.value) then Err(ServerError) else Ok(u.(email := v.value))
      case Password(v) =>
        if v.None? || !Fits(hash(v.value)) then Err(ServerError) else Ok(u.(passwordHash := hash(v.value)))
      case IsActive(b) => if b.None? then Err(ServerError) else Ok(u.(isActive := b.value))
      case ProfilePictureUrl(v) => if !FitsOpt(v) then Err(ServerError) else Ok(u.(profilePictureUrl := v))
      case Bio(v) => if !FitsOpt(v) then Err(ServerError) else Ok(u.(bio := v))
  }

  /** The update loop run over `items`, from first to last. */
  function AssignUserAll(cur: Result<User, ApiError>, items: seq<UserField>, hash: string -> string): Result<User, ApiError> {
    if |items| == 0 then cur
    else AssignUser(AssignUserAll(cur, items[..|items| - 1], hash), items[|items| - 1], hash)
  }

  lemma {:induction false} AssignUserAllConcat(cur: Result<User, ApiError>, a: seq<UserField>, b: seq<UserField>,
                                               hash: string -> string)
    ensures AssignUserAll(cur, a + b, hash) == AssignUserAll(AssignUserAll(cur, a, hash), b, hash)
    decreases |b|
  {
    if |b| == 0 {
      assert a + b == a;
    } else {
      assert (a + b)[..|a + b| - 1] == a + b[..|b| - 1];
      AssignUserAllConcat(cur, a, b[..|b| - 1], hash);
    }
  }

  /** A patch field that cannot be stored: an explicit null for a column that needs a value. */
  predicate SetsNull<T>(p: Patch<Option<T>>) {
    p.Set? && p.value.None?
  }

  /** A patch field whose text is too long for its `VARCHAR(255)` column. */
  predicate SetsLong(p: Patch<Option<string>>) {
    p.Set? && p.value.Some? && !Fits(p.value.value)
  }

  /** A password field whose hash is too long for `password_hash`. */
  predicate HashTooLong(p: Patch<Option<string>>, hash: string -> string) {
    p.Set? && p.value.Some? && !Fits(hash(p.value.value))
  }

  /** The value a patch leaves in a column that needs a value. */
  function Patched<T>(p: Patch<Option<T>>, old_: T): T
    requires !SetsNull(p)
  {
    if p.Set? then p.value.value else old_
  }

  /** The value a patch leaves in a column that may be null. */
  function PatchedNullable<T>(p: Patch<Option<T>>, old_: Option<T>): Option<T> {
    if p.Set? then p.value else old_
  }

  /**
   * The row `update_user` leaves, field by field: each field that was sent
   * replaces the stored one (the password by its hash), each field left out
   * keeps its value; a null for a field that needs a value, or a text too
   * long for its column, is a 500.
   */
  function ApplyUserUpdate(u: User, upd: UserUpdate, hash: string -> string): (r: Result<User, ApiError>)
    ensures r.Err? <==> SetsNull(upd.username) || SetsNull(upd.email) || SetsNull(upd.password) || SetsNull(upd.isActive)
                        || SetsLong(upd.username) || SetsLong(upd.email) || HashTooLong(upd.password, hash)
                        || SetsLong(upd.profilePictureUrl) || SetsLong(upd.bio)
    ensures r.Err? ==> r == Err(ServerError)
    ensures r.Ok? && UserFits(u) ==> UserFits(r.value)
  {
    if SetsNull(upd.username) || SetsNull(upd.email) || SetsNull(upd.password) || SetsNull(upd.isActive) then
      Err(ServerError)
    else if SetsLong(upd.username) || SetsLong(upd.email) || HashTooLong(upd.password, hash)
            || SetsLong(upd.profilePictureUrl) || SetsLong(upd.bio) then
      Err(ServerError)
    else
      Ok(User(u.userId,
              Patched(upd.username, u.username),
              Patched(upd.email, u.email),
              if upd.password.Set? then hash(upd.password.value.value) else u.passwordHash,
              u.timeCreated,
              u.lastLogin,
              Patched(upd.isActive, u.isActive),
              PatchedNullable(upd.profilePictureUrl, u.profilePictureUrl),
              PatchedNullable(upd.bio, u.bio)))
  }

  /** The `setattr` loop of `update_user` over the fields sent. */
  method SetUserFields(u: User, items: seq<UserField>, hash: string -> string) returns (cur: Result<User, ApiError>)
    ensures cur == AssignUserAll(Ok(u), items, hash)
  {
    cur := Ok(u);
    var i := 0;
    while i < |items|
      invariant 0 <= i <= |items|
      invariant cur == AssignUserAll(Ok(u), items[..i], hash)
    {
      assert items[..i + 1][..i] == items[..i];
      cur := AssignUser(cur, items[i], hash);
      i := i + 1;
    }
    assert items[..i] == items;
  }

  /** The update with only its first `k` fields kept as sent. */
  function Upto(upd: UserUpdate, k: nat): UserUpdate {
    UserUpdate(if k >= 1 then upd.username else Keep,
               if k >= 2 then upd.email else Keep,
               if k >= 3 then upd.password else Keep,
               if k >= 4 then upd.isActive else Keep,
               if k >= 5 then upd.profilePictureUrl else Keep,
               if k >= 6 then upd.bio else Keep)
  }

  /** Running the loop over the pair of field `k` adds that field to the field-by-field result. */
  lemma FieldStep(u: User, upd: UserUpdate, k: nat, hash: string -> string)
    requires 1 <= k <= 6
    ensures AssignUserAll(ApplyUserUpdate(u, Upto(upd, k - 1), hash), FieldItem(upd, k), hash)
         == ApplyUserUpdate(u, Upto(upd, k), hash)
  {
    var items := FieldItem(upd, k);
    if |items| == 1 {
      assert items[..0] == [];
    }
  }

  lemma {:induction false} FieldsPrefix(u: User, upd: UserUpdate, k: nat, hash: string -> string)
    requires k <= 6
    ensures AssignUserAll(Ok(u), FieldItems(upd, k), hash) == ApplyUserUpdate(u, Upto(upd, k), hash)
  {
    if k > 0 {
      FieldsPrefix(u, upd, k - 1, hash);
      AssignUserAllConcat(Ok(u), FieldItems(upd, k - 1), FieldItem(upd, k), hash);
      FieldStep(u, upd, k, hash);
    }
  }

  /** The update loop computes the field-by-field result. */
  lemma UserLoopIsFieldwise(u: User, upd: UserUpdate, hash: string -> string)
    ensures AssignUserAll(Ok(u), UserItems(upd), hash) == ApplyUserUpdate(u, upd, hash)
  {
    FieldsPrefix(u, upd, 6, hash);
    assert Upto(upd, 6) == upd;
  }

  /** Another user already holds `email`. */
  predicate EmailClash(users: map<Uuid, User>, uid: Uuid, email: string) {
    exists id :: id in users && id != uid && users[id].email == email
  }

  /**
   * The outcome of `update_user`: 404 for an unknown user; otherwise the
   * field-by-field result, which fails to commit (500) when it would give
   * the user another user's email. A row whose columns fit keeps fitting.
   */
  function UpdateUserResult(users: map<Uuid, User>, uid: Uuid, upd: UserUpdate,
                            hash: string -> string): (r: Result<User, ApiError>)
    ensures r == Err(HttpError(404, "User not found")) <==> uid !in users
    ensures r.Ok? ==> uid in users && r.value.userId == users[uid].userId
                      && r.value.timeCreated == users[uid].timeCreated
                      && r.value.lastLogin == users[uid].lastLogin
    ensures r.Ok? ==> (upd.username.Keep? ==> r.value.username == users[uid].username)
                      && (upd.email.Keep? ==> r.value.email == users[uid].email)
                      && (upd.password.Keep? ==> r.value.passwordHash == users[uid].passwordHash)
                      && (upd.isActive.Keep? ==> r.value.isActive == users[uid].isActive)
                      && (upd.profilePictureUrl.Keep? ==> r.value.profilePictureUrl == users[uid].profilePictureUrl)
                      && (upd.bio.Keep? ==> r.value.bio == users[uid].bio)
    ensures r.Ok? ==> (upd.username.Set? ==> Some(r.value.username) == upd.username.value)
                      && (upd.email.Set? ==> Some(r.value.email) == upd.email.value)
                      && (upd.password.Set? ==> upd.password.value.Some?
                                                && r.value.passwordHash == hash(upd.password.value.value))
                      && (upd.isActive.Set? ==> Some(r.value.isActive) == upd.isActive.value)
                      && (upd.profilePictureUrl.Set? ==> r.value.profilePictureUrl == upd.profilePictureUrl.value)
                      && (upd.bio.Set? ==> r.value.bio == upd.bio.value)
    ensures uid in users && r.Err? ==> r == Err(ServerError)
    ensures uid in users ==>
      (r.Ok? <==> ApplyUserUpdate(users[uid], upd, hash).Ok?
                  && !EmailClash(users, uid, ApplyUserUpdate(users[uid], upd, hash).value.email))
    ensures r.Ok? ==> !EmailClash(users, uid, r.value.email)
    ensures r.Ok? && UserFits(users[uid]) ==> UserFits(r.value)
  {
    if uid !in users then Err(HttpError(404, "User not found"))
    else
      match ApplyUserUpdate(users[uid], upd, hash)
      case Err(e) => Err(e)
      case Ok(u) => if EmailClash(users, uid, u.email) then Err(ServerError) else Ok(u)
  }

  /** A successful `update_user` keeps the emails unique. */
  lemma UpdateUserKeepsEmailsUnique(users: map<Uuid, User>, uid: Uuid, upd: UserUpdate, hash: string -> string)
    requires EmailsUnique(users)
    requires UpdateUserResult(users, uid, upd, hash).Ok?
    ensures EmailsUnique(users[uid := UpdateUserResult(users, uid, upd, hash).value])
  {
    var u := UpdateUserResult(users, uid, upd, hash).value;
    assert !EmailClash(users, uid, u.email);
  }

  /** Sending nothing changes nothing. */
  lemma EmptyUserUpdate(users: map<Uuid, User>, uid: Uuid, hash: string -> string)
    requires uid in users && EmailsUnique(users)
    ensures UpdateUserResult(users, uid, UserUpdate(Keep, Keep, Keep, Keep, Keep, Keep), hash) == Ok(users[uid])
  {
    assert !EmailClash(users, uid, users[uid].email);
  }

  // ---------------------------------------------------------------- journals

  /** The body of `PUT /users/{user_id}/journals/{journal_id}`, as `UserUpdate`. */
  datatype JournalUpdate = JournalUpdate(
    title: Patch<Option<string>>,
    starred: Patch<Option<bool>>,
    description: Patch<Option<string>>)

  /** One `(key, value)` pair of `update_data`. */
  datatype JournalField =
    | Title(text: Option<string>)
    | Starred(flag: Option<bool>)
    | Description(text: Option<string>)

  /**
   * `update_data`: the fields sent, in declaration order. When a
   * description was sent, the title and description become the pair
   * `get_title_from_journal` makes of it (a title that was not sent is
   * added as the last key); a null description has no `find`, so 500.
   */
  function JournalItems(upd: JournalUpdate): Result<seq<JournalField>, ApiError>
  {
    var starred := StarredItems(upd);
    if upd.description.Set? then
      if upd.description.value.None? then Err(ServerError)
      else
        var ex := GetTitleFromJournal(upd.description.value.value);
        if upd.title.Set? then Ok([Title(Some(ex.title))] + starred + [Description(Some(ex.body))])
        else Ok(starred + [Description(Some(ex.body))] + [Title(Some(ex.title))])
    else
      Ok((if upd.title.Set? then [Title(upd.title.value)] else []) + starred)
  }

  /**
   * The keys of `update_data`: one per field sent, plus the title key that
   * a sent description adds after the others when no title was sent; the
   * extracted pair replaces a sent title.
   */
  lemma JournalItemsKeys(upd: JournalUpdate)
    ensures JournalItems(upd).Err? <==> SetsNull(upd.description)
    ensures JournalItems(upd).Err? ==> JournalItems(upd) == Err(ServerError)
    ensures var r := JournalItems(upd);
      r.Ok? ==> |r.value| == (if upd.title.Set? || upd.description.Set? then 1 else 0)
                             + (if upd.starred.Set? then 1 else 0) + (if upd.description.Set? then 1 else 0)
    ensures var r := JournalItems(upd);
      r.Ok? && upd.description.Set? && upd.title.Set? ==>
        var ex := GetTitleFromJournal(upd.description.value.value);
        r.value[0] == Title(Some(ex.title)) && r.value[|r.value| - 1] == Description(Some(ex.body))
    ensures var r := JournalItems(upd);
      r.Ok? && upd.description.Set? && upd.title.Keep? ==>
        var ex := GetTitleFromJournal(upd.description.value.value);
        r.value[|r.value| - 2] == Description(Some(ex.body)) && r.value[|r.value| - 1] == Title(Some(ex.title))
    ensures var r := JournalItems(upd);
      r.Ok? && upd.description.Keep? ==> forall k :: 0 <= k < |r.value| ==> !r.value[k].Description?
  {
    if upd.description.Set? && upd.description.value.Some? {
      var ex := GetTitleFromJournal(upd.description.value.value);
      var starred := StarredItems(upd);
      if upd.title.Set? {
        assert JournalItems(upd).value == [Title(Some(ex.title))] + starred + [Description(Some(ex.body))];
      } else {
        assert JournalItems(upd).value == starred + [Description(Some(ex.body))] + [Title(Some(ex.title))];
      }
    }
  }

  /**
   * One `setattr` of the journal update loop; a null title or `starred`,
   * or a title too long for its column, cannot be committed.
   */
  function AssignJournal(cur: Result<Journal, ApiError>, item: JournalField): Result<Journal, ApiError> {
    if cur.Err? then cur
    else
      var j := cur.value;
      match item
      case Title(v) => if v.None? || !Fits(v.value) then Err(ServerError) else Ok(j.(title := v.value))
      case Starred(b) => if b.None? then Err(ServerError) else Ok(j.(starred := b.value))
      case Description(v) => Ok(j.(description := v))
  }

  function AssignJournalAll(cur: Result<Journal, ApiError>, items: seq<JournalField>): Result<Journal, ApiError> {
    if |items| == 0 then cur
    else AssignJournal(AssignJournalAll(cur, items[..|items| - 1]), items[|items| - 1])
  }

  /**
   * The row `update_user_journal` leaves, field by field, before the
   * modification time: a sent description replaces title and description
   * by the extracted pair, other sent fields replace theirs, the rest stay.
   * A title that is written must fit its column, the extracted one included.
   */
  function ApplyJournalUpdate(j: Journal, upd: JournalUpdate): (r: Result<Journal, ApiError>)
    ensures r.Err? <==> SetsNull(upd.description) || SetsNull(upd.starred)
                        || (upd.description.Keep? && (SetsNull(upd.title) || SetsLong(upd.title)))
                        || (upd.description.Set? && !Fits(GetTitleFromJournal(upd.description.value.value).title))
    ensures r.Err? ==> r == Err(ServerError)
    ensures r.Ok? && JournalFits(j) ==> JournalFits(r.value)
    ensures r.Ok? ==> r.value.journalId == j.journalId && r.value.userId == j.userId
                      && r.value.timeCreated == j.timeCreated && r.value.timeModified == j.timeModified
    ensures r.Ok? && upd.description.Set? ==>
      var ex := GetTitleFromJournal(upd.description.value.value);
      r.value.title == ex.title && r.value.description == Some(ex.body)
    ensures r.Ok? && upd.description.Keep? ==>
      r.value.description == j.description
      && (upd.title.Keep? ==> r.value.title == j.title)
      && (upd.title.Set? ==> Some(r.value.title) == upd.title.value)
    ensures r.Ok? ==> r.value.starred == Patched(upd.starred, j.starred)
  {
    if SetsNull(upd.description) || SetsNull(upd.starred) || (upd.description.Keep? && SetsNull(upd.title)) then
      Err(ServerError)
    else
      var pair := match upd.description
        case Set(d) => GetTitleFromJournal(d.value)
        case Keep => Extracted(Patched(upd.title, j.title), "");
      var description := if upd.description.Set? then Some(pair.body) else j.description;
      if (upd.title.Set? || upd.description.Set?) && !Fits(pair.title) then Err(ServerError)
      else Ok(j.(title := pair.title, description := description, starred := Patched(upd.starred, j.starred)))
  }

  lemma AssignJournalSnoc(cur: Result<Journal, ApiError>, items: seq<JournalField>, x: JournalField)
    ensures AssignJournalAll(cur, items + [x]) == AssignJournal(AssignJournalAll(cur, items), x)
  {
    assert (items + [x])[..|items|] == items;
  }

  /** `update_data` for `starred` alone, as the loop sees it. */
  function StarredItems(upd: JournalUpdate): seq<JournalField> {
    if upd.starred.Set? then [Starred(upd.starred.value)] else []
  }

  lemma {:induction false} AssignStarred(c: Result<Journal, ApiError>, upd: JournalUpdate)
    requires c.Ok?
    ensures AssignJournalAll(c, StarredItems(upd))
         == if SetsNull(upd.starred) then Err(ServerError)
            else Ok(c.value.(starred := Patched(upd.starred, c.value.starred)))
  {
    if upd.starred.Set? {
      AssignJournalSnoc(c, [], Starred(upd.starred.value));
    }
  }

  lemma {:induction false} AssignJournalConcat(c: Result<Journal, ApiError>, a: seq<JournalField>, b: seq<JournalField>)
    ensures AssignJournalAll(c, a + b) == AssignJournalAll(AssignJournalAll(c, a), b)
    decreases |b|
  {
    if |b| == 0 {
      assert a + b == a;
    } else {
      var b' := b[..|b| - 1];
      AssignJournalConcat(c, a, b');
      assert (a + b)[..|a + b| - 1] == a + b';
    }
  }

  lemma AssignJournalOne(c: Result<Journal, ApiError>, x: JournalField)
    ensures AssignJournalAll(c, [x]) == AssignJournal(c, x)
  {
    AssignJournalSnoc(c, [], x);
  }

  /** Title and description after the extraction, with `starred` beside them. */
  function Extract(j: Journal, upd: JournalUpdate, t: string, b: string): Result<Journal, ApiError> {
    if SetsNull(upd.starred) || !Fits(t) then Err(ServerError)
    else Ok(j.(title := t, description := Some(b), starred := Patched(upd.starred, j.starred)))
  }

  /** The loop over a sent title, then `starred`, then the description. */
  lemma LoopTitleFirst(j: Journal, upd: JournalUpdate, t: string, b: string)
    ensures AssignJournalAll(Ok(j), [Title(Some(t))] + StarredItems(upd) + [Description(Some(b))])
         == Extract(j, upd, t, b)
  {
    var j1 := j.(title := t);
    AssignJournalConcat(Ok(j), [Title(Some(t))] + StarredItems(upd), [Description(Some(b))]);
    AssignJournalConcat(Ok(j), [Title(Some(t))], StarredItems(upd));
    AssignJournalOne(Ok(j), Title(Some(t)));
    AssignStarred(Ok(j1), upd);
    AssignJournalOne(AssignJournalAll(Ok(j1), StarredItems(upd)), Description(Some(b)));
  }

  /** The loop over `starred`, then the description, then the title it was given. */
  lemma LoopTitleLast(j: Journal, upd: JournalUpdate, t: string, b: string)
    ensures AssignJournalAll(Ok(j), StarredItems(upd) + [Description(Some(b))] + [Title(Some(t))])
         == Extract(j, upd, t, b)
  {
    AssignJournalConcat(Ok(j), StarredItems(upd) + [Description(Some(b))], [Title(Some(t))]);
    AssignJournalConcat(Ok(j), StarredItems(upd), [Description(Some(b))]);
    AssignStarred(Ok(j), upd);
    var c := AssignJournalAll(Ok(j), StarredItems(upd));
    AssignJournalOne(c, Description(Some(b)));
    AssignJournalOne(AssignJournal(c, Description(Some(b))), Title(Some(t)));
  }

  /** The loop over the title, if sent, then `starred`, if sent. */
  lemma {:induction false} LoopNoDescription(j: Journal, upd: JournalUpdate)
    requires upd.description.Keep?
    ensures AssignJournalAll(Ok(j), (if upd.title.Set? then [Title(upd.title.value)] else []) + StarredItems(upd))
         == ApplyJournalUpdate(j, upd)
  {
    var s1 := if upd.title.Set? then [Title(upd.title.value)] else [];
    AssignJournalConcat(Ok(j), s1, StarredItems(upd));
    if upd.title.Set? {
      AssignJournalOne(Ok(j), Title(upd.title.value));
      if upd.title.value.Some? && Fits(upd.title.value.value) {
        AssignStarred(Ok(j.(title := upd.title.value.value)), upd);
      } else {
        if upd.starred.Set? {
          AssignJournalOne(Err(ServerError), Starred(upd.starred.value));
        }
      }
    } else {
      AssignStarred(Ok(j), upd);
    }
  }

  /** With a description sent, the loop gives the extracted pair. */
  lemma LoopWithDescription(j: Journal, upd: JournalUpdate)
    requires upd.description.Set? && upd.description.value.Some?
    ensures AssignJournalAll(Ok(j), JournalItems(upd).value) == ApplyJournalUpdate(j, upd)
  {
    var ex := GetTitleFromJournal(upd.description.value.value);
    assert ApplyJournalUpdate(j, upd) == Extract(j, upd, ex.title, ex.body);
    if upd.title.Set? {
      LoopTitleFirst(j, upd, ex.title, ex.body);
    } else {
      LoopTitleLast(j, upd, ex.title, ex.body);
    }
  }

  /** The journal update loop computes the field-by-field result. */
  lemma JournalLoopIsFieldwise(j: Journal, upd: JournalUpdate)
    requires JournalItems(upd).Ok?
    ensures AssignJournalAll(Ok(j), JournalItems(upd).value) == ApplyJournalUpdate(j, upd)
  {
    if upd.description.Keep? {
      LoopNoDescription(j, upd);
    } else {
      LoopWithDescription(j, upd);
    }
  }

  /** The `setattr` loop of `update_user_journal` over the pairs of `update_data`. */
  method SetJournalFields(j: Journal, items: seq<JournalField>) returns (cur: Result<Journal, ApiError>)
    ensures cur == AssignJournalAll(Ok(j), items)
  {
    cur := Ok(j);
    var i := 0;
    while i < |items|
      invariant 0 <= i <= |items|
      invariant cur == AssignJournalAll(Ok(j), items[..i])
    {
      assert items[..i + 1][..i] == items[..i];
      cur := AssignJournal(cur, items[i]);
      i := i + 1;
    }
    assert items[..i] == items;
  }

  /** The row after the commit: `time_modified` moves to `now` exactly when some column changed. */
  function Touched(before: Journal, after: Journal, now: Time): (r: Journal)
    requires after.timeModified == before.timeModified
    ensures r.(timeModified := before.timeModified) == after
    ensures after == before ==> r == before
    ensures after != before ==> r.timeModified == now
  {
    if after == before then before else after.(timeModified := now)
  }

  /**
   * The outcome of `update_user_journal`: 404 for an unknown user, 404 for
   * a journal that does not exist or belongs to someone else, otherwise
   * the field-by-field result with its modification time.
   */
  function UpdateJournalResult(users: map<Uuid, User>, journals: map<Uuid, Journal>, uid: Uuid, jid: Uuid,
                               upd: JournalUpdate, now: Time): (r: Result<Journal, ApiError>)
    ensures r == Err(HttpError(404, "User not found")) <==> uid !in users
    ensures r == Err(HttpError(404, "Journal not found"))
         <==> uid in users && (jid !in journals || journals[jid].userId != uid)
    ensures uid in users && jid in journals && journals[jid].userId == uid ==>
      (r == Err(ServerError) <==> ApplyJournalUpdate(journals[jid], upd).Err?)
    ensures r.Ok? ==> jid in journals && journals[jid].userId == uid
                      && ApplyJournalUpdate(journals[jid], upd).Ok?
                      && r.value.(timeModified := journals[jid].timeModified) == ApplyJournalUpdate(journals[jid], upd).value
    ensures r.Ok? && JournalFits(journals[jid]) ==> JournalFits(r.value)
    ensures r.Ok? && r.value.(timeModified := journals[jid].timeModified) == journals[jid] ==> r.value == journals[jid]
    ensures r.Ok? && r.value.(timeModified := journals[jid].timeModified) != journals[jid] ==> r.value.timeModified == now
  {
    if uid !in users then Err(HttpError(404, "User not found"))
    else if jid !in journals || journals[jid].userId != uid then Err(HttpError(404, "Journal not found"))
    else
      match ApplyJournalUpdate(journals[jid], upd)
      case Err(e) => Err(e)
      case Ok(j) => Ok(Touched(journals[jid], j, now))
  }

  /** Updating with the stored values, or with nothing, leaves the journal as it was, `time_modified` included. */
  lemma JournalUpdateNoChange(users: map<Uuid, User>, journals: map<Uuid, Journal>, uid: Uuid, jid: Uuid, now: Time)
    requires uid in users && jid in journals && journals[jid].userId == uid
    ensures UpdateJournalResult(users, journals, uid, jid, JournalUpdate(Keep, Keep, Keep), now) == Ok(journals[jid])
    ensures JournalFits(journals[jid]) ==>
      UpdateJournalResult(users, journals, uid, jid,
                          JournalUpdate(Set(Some(journals[jid].title)), Set(Some(journals[jid].starred)), Keep),
                          now) == Ok(journals[jid])
  {
  }

  /**
   * A description that is one long line without '#' becomes its own
   * title, and a title longer than its column cannot be committed.
   */
  lemma LongLineRefused(users: map<Uuid, User>, journals: map<Uuid, Journal>, uid: Uuid, jid: Uuid, d: string,
                        now: Time)
    requires uid in users && jid in journals && journals[jid].userId == uid
    requires '#' !in d && '\n' !in d && !Fits(d)
    ensures UpdateJournalResult(users, journals, uid, jid, JournalUpdate(Keep, Keep, Set(Some(d))), now)
         == Err(ServerError)
  {
    assert GetTitleFromJournal(d).title == d;
  }

  /** A null title sent with a description is harmless: the title derived from the description replaces it. */
  lemma NullTitleReplaced(j: Journal, d: string)
    requires Fits(GetTitleFromJournal(d).title)
    ensures ApplyJournalUpdate(j, JournalUpdate(Set(None), Keep, Set(Some(d)))).Ok?
    ensures ApplyJournalUpdate(j, JournalUpdate(Set(None), Keep, Set(Some(d)))).value.title == GetTitleFromJournal(d).title
  {
  }

  /** The columns `sortby` may name. */
  datatype SortField = TimeCreated | TimeModified

  /** `if contains:` filters only on a non-empty text; a null description never matches the SQL `LIKE`. */
  predicate ContainsText(contains: Option<string>, description: Option<string>) {
    contains.None? || contains.value == "" || (description.Some? && Occurs(contains.value, description.value))
  }

  /** `if fromDate:` and `if toDate:` bound `time_modified`, both ends included. */
  predicate InPeriod(t: Time, fromDate: Option<Time>, toDate: Option<Time>) {
    (fromDate.Some? ==> fromDate.value <= t) && (toDate.Some? ==> t <= toDate.value)
  }

  /** `limit` is declared with `ge=1, le=100` and `offset` with `ge=0`. */
  predicate PageValid(limit: int, offset: int) {
    1 <= limit <= 100 && 0 <= offset
  }

  /** The filter parameters of `GET /users/{user_id}/journals` (`is_public` and `tags` are not modelled). */
  datatype JournalCriteria = JournalCriteria(
    starred: Option<bool>,
    fromDate: Option<Time>,
    toDate: Option<Time>,
    contains: Option<string>)

  /** All query parameters of `GET /users/{user_id}/journals`. */
  datatype JournalQuery = JournalQuery(limit: int, offset: int, criteria: JournalCriteria, sortby: SortField, order: string)

  /** The journal filters of `get_user_journals`; `starred` filters only when it is true. */
  predicate JournalSelected(j: Journal, uid: Uuid, c: JournalCriteria) {
    j.userId == uid && (c.starred == Some(true) ==> j.starred)
    && InPeriod(j.timeModified, c.fromDate, c.toDate) && ContainsText(c.contains, j.description)
  }

  function JournalFilter(uid: Uuid, c: JournalCriteria): Journal -> bool {
    (j: Journal) => JournalSelected(j, uid, c)
  }

  function JournalKey(f: SortField): Journal -> int {
    (j: Journal) => if f == TimeCreated then j.timeCreated else j.timeModified
  }

  /** The user's matching journals in the order the query asks for, before the page is cut. */
  function OrderedJournals(rows: seq<Journal>, uid: Uuid, c: JournalCriteria, sortby: SortField, order: string): seq<Journal> {
    Sort(Filter(rows, JournalFilter(uid, c)), JournalKey(sortby), order == "asc")
  }

  /**
   * `get_user_journals` over the journal table in scan order: the page
   * `[offset, offset + limit)` of the user's matching journals, ordered by
   * `sortby`, ascending exactly when `order` is "asc".
   */
  function ListUserJournals(users: map<Uuid, User>, rows: seq<Journal>, uid: Uuid, q: JournalQuery)
    : (r: Result<seq<Journal>, ApiError>)
    ensures r == Err(ValidationError) <==> !PageValid(q.limit, q.offset)
    ensures r == Err(HttpError(404, "User not found")) <==> PageValid(q.limit, q.offset) && uid !in users
    ensures r.Ok? ==> |r.value| <= q.limit
    ensures r.Ok? ==> forall j :: j in r.value ==>
      j in rows && j.userId == uid && (q.criteria.starred == Some(true) ==> j.starred)
      && InPeriod(j.timeModified, q.criteria.fromDate, q.criteria.toDate) && ContainsText(q.criteria.contains, j.description)
    ensures r.Ok? ==> SortedBy(r.value, JournalKey(q.sortby), q.order == "asc")
  {
    if !PageValid(q.limit, q.offset) then Err(ValidationError)
    else if uid !in users then Err(HttpError(404, "User not found"))
    else
      var ordered := OrderedJournals(rows, uid, q.criteria, q.sortby, q.order);
      WindowSorted(ordered, q.offset, q.limit, JournalKey(q.sortby), q.order == "asc");
      Ok(Window(ordered, q.offset, q.limit))
  }

  /** A first page at least as long as the matches holds every matching journal, each once. */
  lemma ListUserJournalsComplete(users: map<Uuid, User>, rows: seq<Journal>, uid: Uuid, q: JournalQuery)
    requires PageValid(q.limit, q.offset) && q.offset == 0 && uid in users
    requires |Filter(rows, JournalFilter(uid, q.criteria))| <= q.limit
    ensures multiset(ListUserJournals(users, rows, uid, q).value) == multiset(Filter(rows, JournalFilter(uid, q.criteria)))
  {
    var ordered := OrderedJournals(rows, uid, q.criteria, q.sortby, q.order);
    assert |ordered| == |Filter(rows, JournalFilter(uid, q.criteria))| by {
      assert |multiset(ordered)| == |multiset(Filter(rows, JournalFilter(uid, q.criteria)))|;
    }
    WindowAll(ordered, q.limit);
  }

  /**
   * A valid request of a known user returns the window
   * `[offset, offset + limit)` of the user's matching journals in the
   * requested order; `Listing.WindowPages` says how consecutive pages tile it.
   */
  lemma ListUserJournalsWindow(users: map<Uuid, User>, rows: seq<Journal>, uid: Uuid, q: JournalQuery)
    requires uid in users && PageValid(q.limit, q.offset)
    ensures ListUserJournals(users, rows, uid, q)
         == Ok(Window(OrderedJournals(rows, uid, q.criteria, q.sortby, q.order), q.offset, q.limit))
  {
  }

  /** Over the rows of the journal table, each once, a page holds stored matching journals, each once. */
  lemma JournalPageStored(users: map<Uuid, User>, journals: map<Uuid, Journal>, rows: seq<Journal>, uid: Uuid,
                          q: JournalQuery)
    requires Distinct(rows) && forall j :: j in rows <==> j in journals.Values
    requires ListUserJournals(users, rows, uid, q).Ok?
    ensures var page := ListUserJournals(users, rows, uid, q).value;
      Distinct(page) && forall j :: j in page ==> j in journals.Values && JournalSelected(j, uid, q.criteria)
  {
    ListUserJournalsWindow(users, rows, uid, q);
    PageDistinct(rows, JournalFilter(uid, q.criteria), JournalKey(q.sortby), q.order == "asc", q.offset, q.limit);
  }

  /** A first page long enough for all matches holds every matching stored journal. */
  lemma JournalPageComplete(users: map<Uuid, User>, journals: map<Uuid, Journal>, rows: seq<Journal>, uid: Uuid,
                            q: JournalQuery)
    requires forall j :: j in rows <==> j in journals.Values
    requires PageValid(q.limit, q.offset) && q.offset == 0 && uid in users
    requires |Filter(rows, JournalFilter(uid, q.criteria))| <= q.limit
    ensures forall j :: j in journals.Values && JournalSelected(j, uid, q.criteria) ==>
      j in ListUserJournals(users, rows, uid, q).value
  {
    var filtered := Filter(rows, JournalFilter(uid, q.criteria));
    ListUserJournalsComplete(users, rows, uid, q);
    forall j | j in journals.Values && JournalSelected(j, uid, q.criteria)
      ensures j in ListUserJournals(users, rows, uid, q).value
    {
      assert j in filtered;
      assert j in multiset(filtered);
    }
  }

  // ---------------------------------------------------------------- photos

  /** The filter parameters of `GET /users/{user_id}/photos`; `starred` is a plain flag here. */
  datatype PhotoCriteria = PhotoCriteria(
    starred: bool,
    fromDate: Option<Time>,
    toDate: Option<Time>,
    device: Option<string>,
    contains: Option<string>)

  /** All query parameters of `GET /users/{user_id}/photos`. */
  datatype PhotoQuery = PhotoQuery(limit: int, offset: int, criteria: PhotoCriteria, sortby: SortField, order: string)

  /** `if device:` filters only on a non-empty name. */
  predicate FiltersDevice(c: PhotoCriteria) {
    c.device.Some? && c.device.value != ""
  }

  /**
   * `db.query(DeviceModel).filter(device_name == name).first()`: the
   * position of the first device with that name in scan order, whoever
   * owns it, or -1.
   */
  function FirstDeviceNamed(devices: seq<Device>, name: string): (i: int)
    ensures -1 <= i < |devices|
    ensures i == -1 <==> forall k :: 0 <= k < |devices| ==> devices[k].deviceName != name
    ensures 0 <= i ==> devices[i].deviceName == name
                       && forall k :: 0 <= k < i ==> devices[k].deviceName != name
    decreases |devices|
  {
    if |devices| == 0 then -1
    else if devices[0].deviceName == name then 0
    else
      var k := FirstDeviceNamed(devices[1..], name);
      if k == -1 then -1 else k + 1
  }

  /** The photo filters of `get_user_photos`; `device` is the id the device name resolved to. */
  predicate PhotoSelected(p: Photo, uid: Uuid, c: PhotoCriteria, device: Option<Uuid>) {
    p.userId == uid && (c.starred ==> p.starred) && InPeriod(p.timeModified, c.fromDate, c.toDate)
    && (device.Some? ==> p.deviceId == device.value) && ContainsText(c.contains, p.description)
  }

  function PhotoFilter(uid: Uuid, c: PhotoCriteria, device: Option<Uuid>): Photo -> bool {
    (p: Photo) => PhotoSelected(p, uid, c, device)
  }

  function PhotoKey(f: SortField): Photo -> int {
    (p: Photo) => if f == TimeCreated then p.timeCreated else p.timeModified
  }

  /** The device id a photo query filters on: that of the first device with the name, when it names one. */
  function DeviceFilter(devices: seq<Device>, c: PhotoCriteria): (d: Option<Uuid>)
    ensures d.Some? <==> FiltersDevice(c) && FirstDeviceNamed(devices, c.device.value) >= 0
    ensures d.Some? ==> d.value == devices[FirstDeviceNamed(devices, c.device.value)].deviceId
  {
    if FiltersDevice(c) && FirstDeviceNamed(devices, c.device.value) >= 0 then
      Some(devices[FirstDeviceNamed(devices, c.device.value)].deviceId)
    else None
  }

  /** The user's matching photos in the order the query asks for, before the page is cut. */
  function OrderedPhotos(rows: seq<Photo>, uid: Uuid, c: PhotoCriteria, device: Option<Uuid>, sortby: SortField,
                         order: string): (r: seq<Photo>)
    ensures SortedBy(r, PhotoKey(sortby), order == "asc")
    ensures forall p :: p in r <==> p in rows && PhotoSelected(p, uid, c, device)
  {
    Sort(Filter(rows, PhotoFilter(uid, c, device)), PhotoKey(sortby), order == "asc")
  }

  /**
   * `get_user_photos` over the device and photo tables in scan order: a
   * device name that names no device is a 404; otherwise the page of the
   * user's matching photos, ordered as for journals.
   */
  function ListUserPhotos(users: map<Uuid, User>, devices: seq<Device>, rows: seq<Photo>, uid: Uuid, q: PhotoQuery)
    : (r: Result<seq<Photo>, ApiError>)
    ensures r == Err(ValidationError) <==> !PageValid(q.limit, q.offset)
    ensures r == Err(HttpError(404, "User not found")) <==> PageValid(q.limit, q.offset) && uid !in users
    ensures r == Err(HttpError(404, "Device not found"))
         <==> PageValid(q.limit, q.offset) && uid in users && FiltersDevice(q.criteria)
              && forall k :: 0 <= k < |devices| ==> devices[k].deviceName != q.criteria.device.value
    ensures r.Ok? ==> |r.value| <= q.limit
    ensures r.Ok? ==> forall p :: p in r.value ==>
      p in rows && PhotoSelected(p, uid, q.criteria, DeviceFilter(devices, q.criteria))
    ensures r.Ok? ==> SortedBy(r.value, PhotoKey(q.sortby), q.order == "asc")
  {
    if !PageValid(q.limit, q.offset) then Err(ValidationError)
    else if uid !in users then Err(HttpError(404, "User not found"))
    else if FiltersDevice(q.criteria) && FirstDeviceNamed(devices, q.criteria.device.value) == -1 then
      Err(HttpError(404, "Device not found"))
    else
      var ordered := OrderedPhotos(rows, uid, q.criteria, DeviceFilter(devices, q.criteria), q.sortby, q.order);
      WindowSorted(ordered, q.offset, q.limit, PhotoKey(q.sortby), q.order == "asc");
      Ok(Window(ordered, q.offset, q.limit))
  }

  /**
   * A request that succeeds returns the window `[offset, offset + limit)`
   * of the user's matching photos in the requested order.
   */
  lemma ListUserPhotosWindow(users: map<Uuid, User>, devices: seq<Device>, rows: seq<Photo>, uid: Uuid, q: PhotoQuery)
    requires ListUserPhotos(users, devices, rows, uid, q).Ok?
    ensures ListUserPhotos(users, devices, rows, uid, q)
         == Ok(Window(OrderedPhotos(rows, uid, q.criteria, DeviceFilter(devices, q.criteria), q.sortby, q.order),
                      q.offset, q.limit))
  {
  }

  /**
   * With a device name, every photo listed is the user's and was taken
   * with the first device of that name, whoever owns that device.
   */
  lemma ListUserPhotosDevice(users: map<Uuid, User>, devices: seq<Device>, rows: seq<Photo>, uid: Uuid, q: PhotoQuery)
    requires FiltersDevice(q.criteria)
    requires ListUserPhotos(users, devices, rows, uid, q).Ok?
    ensures var i := FirstDeviceNamed(devices, q.criteria.device.value);
      0 <= i && devices[i].deviceName == q.criteria.device.value
      && forall p :: p in ListUserPhotos(users, devices, rows, uid, q).value ==>
           p.userId == uid && p.deviceId == devices[i].deviceId
  {
    var r := ListUserPhotos(users, devices, rows, uid, q).value;
    var d := DeviceFilter(devices, q.criteria);
    assert d.Some?;
    forall p | p in r ensures p.userId == uid && p.deviceId == d.value {
      assert PhotoSelected(p, uid, q.criteria, d);
    }
  }

  /** Over the rows of the photo table, each once, a page holds stored photos of the user, each once. */
  lemma PhotoPageStored(users: map<Uuid, User>, photos: map<Uuid, Photo>, devs: seq<Device>, rows: seq<Photo>,
                        uid: Uuid, q: PhotoQuery)
    requires Distinct(rows) && forall p :: p in rows <==> p in photos.Values
    requires ListUserPhotos(users, devs, rows, uid, q).Ok?
    ensures var page := ListUserPhotos(users, devs, rows, uid, q).value;
      Distinct(page) && forall p :: p in page ==> p in photos.Values && p.userId == uid
  {
    ListUserPhotosWindow(users, devs, rows, uid, q);
    PageDistinct(rows, PhotoFilter(uid, q.criteria, DeviceFilter(devs, q.criteria)), PhotoKey(q.sortby),
                 q.order == "asc", q.offset, q.limit);
  }

  /** With a device name, a page holds only photos of one stored device of that name. */
  lemma PhotoPageDevice(users: map<Uuid, User>, devices: map<Uuid, Device>, devs: seq<Device>, rows: seq<Photo>,
                        uid: Uuid, q: PhotoQuery)
    requires forall d :: d in devs <==> d in devices.Values
    requires FiltersDevice(q.criteria) && ListUserPhotos(users, devs, rows, uid, q).Ok?
    ensures exists d :: d in devices.Values && d.deviceName == q.criteria.device.value
                        && forall p :: p in ListUserPhotos(users, devs, rows, uid, q).value ==> p.deviceId == d.deviceId
  {
    ListUserPhotosDevice(users, devs, rows, uid, q);
    var d := devs[FirstDeviceNamed(devs, q.criteria.device.value)];
    assert d in devices.Values;
  }

  /** The devices read in scan order name a device exactly when a stored device has that name. */
  lemma DeviceNamedStored(devices: map<Uuid, Device>, devs: seq<Device>, c: PhotoCriteria)
    requires forall d :: d in devs <==> d in devices.Values
    ensures FiltersDevice(c) ==>
      ((forall k :: 0 <= k < |devs| ==> devs[k].deviceName != c.device.value)
       <==> forall d :: d in devices.Values ==> d.deviceName != c.device.value)
  {
    if FiltersDevice(c) {
      if exists d :: d in devices.Values && d.deviceName == c.device.value {
        var d :| d in devices.Values && d.deviceName == c.device.value;
        var k :| 0 <= k < |devs| && devs[k] == d;
      }
    }
  }

  /**
   * The name `create_user_photo` stores an upload under: a fresh UUID, "_",
   * and the uploaded name. Both pieces can be read back, and the name is a
   * single path part exactly when neither piece holds a '/'.
   */
  function UniqueFilename(token: string, filename: string): (name: string)
    ensures |name| == |token| + 1 + |filename|
    ensures name[..|token|] == token && name[|token|] == '_' && name[|token| + 1..] == filename
    ensures IsPart(name) <==> '/' !in token && '/' !in filename
  {
    var name := token + "_" + filename;
    assert name[..|token|] == token && name[|token| + 1..] == filename;
    assert '/' in name <==> '/' in token || '/' in filename by {
      assert forall k :: 0 <= k < |name| ==> name[k] == if k < |token| then token[k]
                                                      else if k == |token| then '_' else filename[k - |token| - 1];
    }
    name
  }

  /**
   * The URL `create_user_photo` records for a stored upload: the server,
   * then the absolute path `/static/images/{user_id}/{name}`.
   */
  function PhotoUrl(staticServer: string, uid: Uuid, name: string): (url: string)
    ensures url == staticServer + ['/'] + Join(["static", "images", uid, name], '/')
  {
    PhotoUrlSuffix(uid, name);
    assert staticServer + "/static/images/" + uid + "/" + name == staticServer + ("/static/images/" + uid + "/" + name);
    staticServer + "/static/images/" + uid + "/" + name
  }

  /** The part of a photo URL after the server is an absolute path of four parts. */
  lemma PhotoUrlSuffix(uid: Uuid, name: string)
    ensures "/static/images/" + uid + "/" + name == ['/'] + Join(["static", "images", uid, name], '/')
  {
    var parts := ["static", "images", uid, name];
    assert parts[1..] == ["images", uid, name] && parts[1..][1..] == [uid, name] && parts[1..][1..][1..] == [name];
    assert Join([uid, name], '/') == uid + ['/'] + name;
    assert Join(["images", uid, name], '/') == "images" + ['/'] + Join([uid, name], '/');
    assert Join(parts, '/') == "static" + ['/'] + Join(["images", uid, name], '/');
    assert "/static/images/" == ['/'] + "static" + ['/'] + "images" + ['/'];
  }

  /**
   * The file `describe_image` looks at for a URL that `create_user_photo`
   * recorded is `static/images/{user_id}/{unique_filename}` under the
   * parent of the static directory, provided the server prefix occurs
   * nowhere else in the URL.
   */
  lemma PhotoUrlLocalPath(staticServer: string, staticPath: string, uid: Uuid, token: string, filename: string)
    requires IsPart(uid) && '/' !in token && '/' !in filename
    requires staticServer == ""
             || !Occurs(staticServer, ['/'] + Join(["static", "images", uid, UniqueFilename(token, filename)], '/'))
    ensures var name := UniqueFilename(token, filename);
      var base := Parent(Parse(staticPath));
      ImageLocalPath(PhotoUrl(staticServer, uid, name), staticServer, staticPath)
        == Some(Format(PurePath(base.root, base.parts + ["static", "images", uid, name])))
  {
    var name := UniqueFilename(token, filename);
    var parts := ["static", "images", uid, name];
    var suffix := ['/'] + Join(parts, '/');
    assert PhotoUrl(staticServer, uid, name) == staticServer + suffix;
    assert RemoveAll(staticServer + suffix, staticServer) == suffix by {
      if staticServer == "" {
        assert staticServer + suffix == suffix;
      } else {
        RemoveLeading(staticServer, suffix);
      }
    }
    ParseAbsolute(parts);
    assert Parse(suffix) == PurePath(Slash, parts);
    var rel := PurePath(NoRoot, parts);
    assert RelativeToSlash(Parse(suffix)) == Some(rel);
    ParseFormatRelative(rel);
  }

  // ---------------------------------------------------------------- generate

  /** `not photo.description`: the description is missing or empty. */
  predicate NeedsCaption(p: Photo) {
    p.description.None? || p.description.value == ""
  }

  /**
   * `if not photo.description: photo.description = describe_image(photo.url)`:
   * the description a photo has once the loop has reached it; `None` when
   * `describe_image` raises, which only a photo without a description can cause.
   */
  function Caption(p: Photo, staticServer: string, staticPath: string, vision: string -> seq<string>): (c: Option<string>)
    ensures !NeedsCaption(p) ==> c == p.description && c.Some? && c.value != ""
    ensures NeedsCaption(p) ==> c == DescribeImage(p.url, staticServer, staticPath, vision)
    ensures c.None? <==> NeedsCaption(p) && ImageLocalPath(p.url, staticServer, staticPath).None?
  {
    if NeedsCaption(p) then DescribeImage(p.url, staticServer, staticPath, vision) else p.description
  }

  /** The photos with their descriptions filled in, and the entries built from them. */
  datatype Collected = Collected(captioned: seq<Photo>, entries: seq<EntryItem>)

  /** A photo carrying the description `c`. */
  function WithCaption(p: Photo, c: string): Photo {
    p.(description := Some(c))
  }

  /** The entry `generate_journal` makes of a photo described by `c`. */
  function ImageEntry(p: Photo, c: string): EntryItem {
    EntryItem(p.timeCreated, "image", c, p.url)
  }

  /** The first `n` selected photos are captioned and have their entries. */
  predicate CollectedUpTo(selected: seq<Photo>, staticServer: string, staticPath: string, vision: string -> seq<string>,
                          captioned: seq<Photo>, entries: seq<EntryItem>, n: nat)
  {
    n <= |selected| && |captioned| == n && |entries| == n
    && forall k :: 0 <= k < n ==>
      var c := Caption(selected[k], staticServer, staticPath, vision);
      c.Some? && captioned[k] == WithCaption(selected[k], c.value) && entries[k] == ImageEntry(selected[k], c.value)
  }

  /** One more captioned photo extends the collection by one position. */
  lemma CollectedStep(selected: seq<Photo>, staticServer: string, staticPath: string, vision: string -> seq<string>,
                      captioned: seq<Photo>, entries: seq<EntryItem>, n: nat, c: string)
    requires CollectedUpTo(selected, staticServer, staticPath, vision, captioned, entries, n) && n < |selected|
    requires Caption(selected[n], staticServer, staticPath, vision) == Some(c)
    ensures CollectedUpTo(selected, staticServer, staticPath, vision,
                          captioned + [WithCaption(selected[n], c)], entries + [ImageEntry(selected[n], c)], n + 1)
  {
    var cs, es := captioned + [WithCaption(selected[n], c)], entries + [ImageEntry(selected[n], c)];
    forall k | 0 <= k < n + 1
      ensures var ck := Caption(selected[k], staticServer, staticPath, vision);
        ck.Some? && cs[k] == WithCaption(selected[k], ck.value) && es[k] == ImageEntry(selected[k], ck.value)
    {
      if k < n {
        assert cs[k] == captioned[k] && es[k] == entries[k];
      }
    }
  }

  /**
   * The loop of `generate_journal`: a photo without a description is
   * described first; then its entry is its time, "image", its
   * description and its URL. `None` when describing a photo raises.
   */
  method CollectEntries(selected: seq<Photo>, staticServer: string, staticPath: string,
                        vision: string -> seq<string>) returns (r: Option<Collected>)
    ensures r.None? <==> exists i :: 0 <= i < |selected| && Caption(selected[i], staticServer, staticPath, vision).None?
    ensures r.Some? ==> |r.value.captioned| == |selected| && |r.value.entries| == |selected|
    ensures r.Some? ==> forall i :: 0 <= i < |selected| ==>
      var c := Caption(selected[i], staticServer, staticPath, vision);
      c.Some? && r.value.captioned[i] == WithCaption(selected[i], c.value)
      && r.value.entries[i] == ImageEntry(selected[i], c.value)
  {
    var captioned: seq<Photo> := [];
    var entries: seq<EntryItem> := [];
    var i := 0;
    while i < |selected|
      invariant CollectedUpTo(selected, staticServer, staticPath, vision, captioned, entries, i)
    {
      var p := selected[i];
      var c := Caption(p, staticServer, staticPath, vision);
      if c.None? {
        return None;
      }
      CollectedStep(selected, staticServer, staticPath, vision, captioned, entries, i, c.value);
      captioned := captioned + [WithCaption(p, c.value)];
      entries := entries + [ImageEntry(p, c.value)];
      i := i + 1;
    }
    r := Some(Collected(captioned, entries));
  }

  /** The rows of `m` under the keys `ids`, in that order. */
  function RowsOf<V>(m: map<Uuid, V>, ids: seq<Uuid>): (rows: seq<V>)
    requires forall k :: k in ids ==> k in m
    ensures |rows| == |ids|
    ensures forall i :: 0 <= i < |ids| ==> rows[i] == m[ids[i]]
  {
    seq(|ids|, i requires 0 <= i < |ids| => m[ids[i]])
  }

  function PhotoInList(ids: seq<Uuid>): Photo -> bool {
    (p: Photo) => p.photoId in ids
  }

  function Created(): EntryItem -> int {
    (e: EntryItem) => e.timeCreated
  }

  /** A photo row after the commit: `time_modified` moves to `now` exactly when its description changed. */
  function PhotoTouched(before: Photo, after: Photo, now: Time): (r: Photo)
    ensures r.photoId == after.photoId
    ensures after == before ==> r == before
    ensures after != before ==> r.timeModified == now && r.(timeModified := after.timeModified) == after
  {
    if after == before then before else after.(timeModified := now)
  }

  /**
   * `photos` is what `generate_journal` selects: every stored photo whose
   * id was asked for, whoever owns it, each once, oldest first.
   */
  ghost predicate Selection(photos: map<Uuid, Photo>, wanted: seq<Uuid>, selected: seq<Photo>) {
    (forall p :: p in selected <==> p in photos.Values && p.photoId in wanted)
    && (forall i, j :: 0 <= i < j < |selected| ==> selected[i].photoId != selected[j].photoId)
    && SortedBy(selected, PhotoKey(TimeCreated), true)
  }

  /** The rows of a keyed table read in scan order are the table's rows, each once. */
  lemma RowsOfScan<V>(m: map<Uuid, V>, ks: seq<Uuid>, key: V -> Uuid)
    requires forall id :: id in m ==> key(m[id]) == id
    requires Distinct(ks) && forall k :: k in ks <==> k in m
    ensures Distinct(RowsOf(m, ks))
    ensures forall v :: v in RowsOf(m, ks) <==> v in m.Values
  {
    var rows := RowsOf(m, ks);
    forall v | v in m.Values ensures v in rows {
      var id :| id in m && m[id] == v;
      var i :| 0 <= i < |ks| && ks[i] == id;
      assert rows[i] == v;
    }
    forall i, j | 0 <= i < j < |rows| ensures rows[i] != rows[j] {
      assert key(rows[i]) == ks[i] && key(rows[j]) == ks[j];
    }
  }

  /** Filtering the scan by id and ordering by `time_created` ascending gives the selection. */
  lemma SelectionOfScan(photos: map<Uuid, Photo>, ks: seq<Uuid>, wanted: seq<Uuid>)
    requires forall id :: id in photos ==> photos[id].photoId == id
    requires Distinct(ks) && forall k :: k in ks <==> k in photos
    ensures Selection(photos, wanted, Sort(Filter(RowsOf(photos, ks), PhotoInList(wanted)), PhotoKey(TimeCreated), true))
  {
    var rows := RowsOf(photos, ks);
    var filtered := Filter(rows, PhotoInList(wanted));
    var selected := Sort(filtered, PhotoKey(TimeCreated), true);
    var key := (p: Photo) => p.photoId;
    assert forall id :: id in photos ==> key(photos[id]) == id;
    RowsOfScan(photos, ks, key);
    DistinctSub(rows, filtered);
    DistinctSub(filtered, selected);
    assert forall p :: p in rows <==> p in photos.Values;
    forall i, j | 0 <= i < j < |selected| ensures selected[i].photoId != selected[j].photoId {
      assert selected[i] in filtered && selected[j] in filtered;
      assert selected[i] in rows && selected[j] in rows;
    }
  }

  // ---------------------------------------------------------------- store

  /** The record of a journal, photo or entry that the activity count looks at. */
  function JournalStamps(m: map<Uuid, Journal>): map<Uuid, Stamp> {
    map id | id in m :: Stamp(m[id].userId, m[id].timeCreated)
  }

  function PhotoStamps(m: map<Uuid, Photo>): map<Uuid, Stamp> {
    map id | id in m :: Stamp(m[id].userId, m[id].timeCreated)
  }

  function EntryStamps(m: map<Uuid, Entry>): map<Uuid, Stamp> {
    map id | id in m :: Stamp(m[id].userId, m[id].timeCreated)
  }

  /** `m` with `vals[i]` written under `keys[i]`, in order. */
  function Overwrite<V>(m: map<Uuid, V>, keys: seq<Uuid>, vals: seq<V>): (r: map<Uuid, V>)
    requires |keys| == |vals| && Distinct(keys)
    requires forall k :: k in keys ==> k in m
    ensures r.Keys == m.Keys
    ensures forall i :: 0 <= i < |keys| ==> r[keys[i]] == vals[i]
    ensures forall k :: k in m && k !in keys ==> r[k] == m[k]
    decreases |keys|
  {
    if |keys| == 0 then m
    else
      var n := |keys| - 1;
      assert keys == keys[..n] + [keys[n]];
      var rest := Overwrite(m, keys[..n], vals[..n]);
      assert forall i :: 0 <= i < n ==> keys[..n][i] == keys[i] && vals[..n][i] == vals[i];
      rest[keys[n] := vals[n]]
  }

  /** Entries built one per photo of an oldest-first selection are oldest first. */
  lemma EntriesInTimeOrder(selected: seq<Photo>, entries: seq<EntryItem>)
    requires SortedBy(selected, PhotoKey(TimeCreated), true)
    requires |entries| == |selected|
    requires forall i :: 0 <= i < |selected| ==> entries[i].timeCreated == selected[i].timeCreated
    ensures SortedBy(entries, Created(), true)
  {
    forall i, j | 0 <= i < j < |entries| ensures InOrder(Created()(entries[i]), Created()(entries[j]), true) {
      assert InOrder(PhotoKey(TimeCreated)(selected[i]), PhotoKey(TimeCreated)(selected[j]), true);
    }
  }

  /** The ids of a selection, in order. */
  function PhotoIds(ps: seq<Photo>): (ids: seq<Uuid>)
    ensures |ids| == |ps| && forall i :: 0 <= i < |ps| ==> ids[i] == ps[i].photoId
  {
    seq(|ps|, i requires 0 <= i < |ps| => ps[i].photoId)
  }

  /** The rows the flush writes for the selected photos: the described row, touched when it changed. */
  function TouchedRows(selected: seq<Photo>, captioned: seq<Photo>, now: Time): (rows: seq<Photo>)
    requires |captioned| == |selected|
    ensures |rows| == |selected|
    ensures forall i :: 0 <= i < |selected| ==> rows[i] == PhotoTouched(selected[i], captioned[i], now)
  {
    seq(|selected|, i requires 0 <= i < |selected| => PhotoTouched(selected[i], captioned[i], now))
  }

  /**
   * The photo table once the session flushes the descriptions the loop
   * wrote: each selected photo takes its described row, the others stay,
   * and every row is still stored under its own id.
   */
  lemma CaptionsStored(photos: map<Uuid, Photo>, wanted: seq<Uuid>, selected: seq<Photo>, captioned: seq<Photo>, now: Time)
    requires forall id :: id in photos ==> photos[id].photoId == id
    requires Selection(photos, wanted, selected)
    requires |captioned| == |selected|
    requires forall i :: 0 <= i < |selected| ==> captioned[i].photoId == selected[i].photoId
    ensures Distinct(PhotoIds(selected)) && forall k :: k in PhotoIds(selected) ==> k in photos
    ensures var stored := Overwrite(photos, PhotoIds(selected), TouchedRows(selected, captioned, now));
      (forall id :: id in stored ==> stored[id].photoId == id)
      && forall id :: id in photos && id !in wanted ==> stored[id] == photos[id]
  {
    var ids := PhotoIds(selected);
    forall k | k in ids ensures k in photos && k in wanted {
      var i :| 0 <= i < |ids| && ids[i] == k;
      assert selected[i] in selected;
    }
    var stored := Overwrite(photos, ids, TouchedRows(selected, captioned, now));
    forall id | id in stored ensures stored[id].photoId == id {
      if id in ids {
        var i :| 0 <= i < |ids| && ids[i] == id;
        assert stored[id] == PhotoTouched(selected[i], captioned[i], now);
      }
    }
  }

  /** Each row is stored under its own id, emails are unique, and stored texts fit their columns. */
  ghost predicate TablesValid(users: map<Uuid, User>, devices: map<Uuid, Device>, journals: map<Uuid, Journal>,
                              photos: map<Uuid, Photo>, entries: map<Uuid, Entry>)
  {
    (forall id :: id in users ==> UserFits(users[id]))
    && (forall id :: id in journals ==> JournalFits(journals[id]))
    && (forall id :: id in users ==> users[id].userId == id)
    && (forall id :: id in devices ==> devices[id].deviceId == id)
    && (forall id :: id in journals ==> journals[id].journalId == id)
    && (forall id :: id in photos ==> photos[id].photoId == id)
    && (forall id :: id in entries ==> entries[id].entryId == id)
    && EmailsUnique(users)
  }

  /** Storing the generated journal and the re-keyed photo rows keeps the tables valid. */
  lemma GeneratedCommitValid(users: map<Uuid, User>, devices: map<Uuid, Device>, journals: map<Uuid, Journal>,
                             photos: map<Uuid, Photo>, entries: map<Uuid, Entry>, journal: Journal,
                             stored: map<Uuid, Photo>)
    requires TablesValid(users, devices, journals, photos, entries)
    requires JournalFits(journal)
    requires forall id :: id in stored ==> stored[id].photoId == id
    ensures TablesValid(users, devices, journals[journal.journalId := journal], stored, entries)
  {
  }

  /** The five tables. */
  class Store {
    var users: map<Uuid, User>
    var devices: map<Uuid, Device>
    var journals: map<Uuid, Journal>
    var photos: map<Uuid, Photo>
    var entries: map<Uuid, Entry>

    /** Each row is stored under its own id, emails are unique, and stored texts fit their columns. */
    ghost predicate Valid()
      reads this
    {
      TablesValid(users, devices, journals, photos, entries)
    }

    constructor ()
      ensures Valid()
      ensures users == map[] && devices == map[] && journals == map[] && photos == map[] && entries == map[]
    {
      users := map[];
      devices := map[];
      journals := map[];
      photos := map[];
      entries := map[];
    }

    /** `create_user`: look the email up, hash the password, insert the row. */
    method CreateUser(req: UserCreate, newId: Uuid, now: Time, hash: string -> string)
      returns (r: Result<User, ApiError>)
      requires Valid()
      modifies this
      ensures Valid()
      ensures r == CreateUserResult(old(users), req, newId, now, hash)
      ensures users == if r.Ok? then old(users)[newId := r.value] else old(users)
      ensures devices == old(devices) && journals == old(journals)
      ensures photos == old(photos) && entries == old(entries)
    {
      if req.email.Some? && EmailTaken(users, req.email.value) {
        return Err(HttpError(400, "Email already registered"));
      }
      var hashed := hash(req.password);
      if req.username.None? || req.email.None? || newId in users {
        return Err(ServerError);
      }
      if !Fits(req.username.value) || !Fits(req.email.value) || !Fits(hashed) {
        return Err(ServerError);
      }
      var u := User(newId, req.username.value, req.email.value, hashed, now, None, true, None, None);
      CreateUserKeepsEmailsUnique(users, req, newId, now, hash);
      users := users[newId := u];
      r := Ok(u);
    }

    /**
     * `update_user_journal`: check the user and that the journal is
     * theirs, build `update_data`, `setattr` each pair, commit.
     */
    method UpdateUserJournal(uid: Uuid, jid: Uuid, upd: JournalUpdate, now: Time) returns (r: Result<Journal, ApiError>)
      requires Valid()
      modifies this
      ensures Valid()
      ensures r == UpdateJournalResult(old(users), old(journals), uid, jid, upd, now)
      ensures journals == if r.Ok? then old(journals)[jid := r.value] else old(journals)
      ensures users == old(users) && devices == old(devices)
      ensures photos == old(photos) && entries == old(entries)
    {
      if uid !in users {
        return Err(HttpError(404, "User not found"));
      }
      if jid !in journals || journals[jid].userId != uid {
        return Err(HttpError(404, "Journal not found"));
      }
      var data := JournalItems(upd);
      if data.Err? {
        return Err(data.error);
      }
      var j := journals[jid];
      var cur := SetJournalFields(j, data.value);
      JournalLoopIsFieldwise(j, upd);
      if cur.Err? {
        return cur;
      }
      var row := Touched(j, cur.value, now);
      journals := journals[jid := row];
      r := Ok(row);
    }

    /** The number of the records (journals, photos, entries) of `uid` created on day `d`. */
    function DayCount(uid: Uuid, d: int): nat
      reads this
    {
      |OwnedOn(JournalStamps(journals), uid, d)| + |OwnedOn(PhotoStamps(photos), uid, d)|
      + |OwnedOn(EntryStamps(entries), uid, d)|
    }

    /** The number of the records (journals, photos, entries) of `uid`. */
    function RecordCount(uid: Uuid): nat
      reads this
    {
      |Owned(JournalStamps(journals), uid)| + |Owned(PhotoStamps(photos), uid)| + |Owned(EntryStamps(entries), uid)|
    }

    /**
     * `get_user_activities`: the creation day of each of the user's
     * journals, photos and entries, counted per day in a dictionary.
     */
    method GetUserActivities(uid: Uuid) returns (r: Result<seq<ActivityItem>, ApiError>)
      ensures r == Err(HttpError(404, "User not found")) <==> uid !in users
      ensures r.Ok? <==> uid in users
      ensures r.Ok? ==> forall i, j :: 0 <= i < j < |r.value| ==> r.value[i].date != r.value[j].date
      ensures r.Ok? ==> forall i :: 0 <= i < |r.value| ==>
        r.value[i].count >= 1 && r.value[i].count == DayCount(uid, r.value[i].date)
      ensures r.Ok? ==> forall d :: DayCount(uid, d) > 0 <==> exists i :: 0 <= i < |r.value| && r.value[i].date == d
      ensures r.Ok? ==> SumCounts(r.value) == RecordCount(uid)
    {
      if uid !in users {
        return Err(HttpError(404, "User not found"));
      }
      var fromJournals := UserDays(JournalStamps(journals), uid);
      var fromPhotos := UserDays(PhotoStamps(photos), uid);
      var fromEntries := UserDays(EntryStamps(entries), uid);
      var days := fromJournals + fromPhotos + fromEntries;
      var items := Tally(days);
      HistogramShape(days);
      HistogramSum(days);
      forall d ensures CountOf(days, d) == DayCount(uid, d) {
        CountOfConcat(fromJournals + fromPhotos, fromEntries, d);
        CountOfConcat(fromJournals, fromPhotos, d);
      }
      r := Ok(items);
    }

    /**
     * `get_user_journals`: read the journal table in an order the database
     * chooses (`scan`), then filter, order and cut the page. The page holds
     * stored journals only, each at most once; a first page long enough for
     * all matches holds every matching stored journal.
     */
    method GetUserJournals(uid: Uuid, q: JournalQuery) returns (r: Result<seq<Journal>, ApiError>, scan: seq<Uuid>)
      requires Valid()
      ensures Distinct(scan) && forall k :: k in scan <==> k in journals
      ensures r == ListUserJournals(users, RowsOf(journals, scan), uid, q)
      ensures r.Ok? ==> Distinct(r.value)
      ensures r.Ok? ==> forall j :: j in r.value ==> j in journals.Values && JournalSelected(j, uid, q.criteria)
      ensures r.Ok? && q.offset == 0 && |Filter(RowsOf(journals, scan), JournalFilter(uid, q.criteria))| <= q.limit ==>
        forall j :: j in journals.Values && JournalSelected(j, uid, q.criteria) ==> j in r.value
    {
      scan := ScanKeys(journals);
      var rows := RowsOf(journals, scan);
      r := ListUserJournals(users, rows, uid, q);
      var key := (j: Journal) => j.journalId;
      assert forall id :: id in journals ==> key(journals[id]) == id;
      RowsOfScan(journals, scan, key);
      if r.Ok? {
        JournalPageStored(users, journals, rows, uid, q);
        if q.offset == 0 && |Filter(rows, JournalFilter(uid, q.criteria))| <= q.limit {
          JournalPageComplete(users, journals, rows, uid, q);
        }
      }
    }

    /**
     * `get_user_photos`: read the device table (`deviceScan`) to resolve a
     * device name, then the photo table (`photoScan`), filter, order and cut
     * the page. A device name that no stored device has is a 404; a page
     * holds stored photos only, each at most once, and with a device name
     * only photos of a stored device of that name.
     */
    method GetUserPhotos(uid: Uuid, q: PhotoQuery)
      returns (r: Result<seq<Photo>, ApiError>, deviceScan: seq<Uuid>, photoScan: seq<Uuid>)
      requires Valid()
      ensures Distinct(deviceScan) && forall k :: k in deviceScan <==> k in devices
      ensures Distinct(photoScan) && forall k :: k in photoScan <==> k in photos
      ensures r == ListUserPhotos(users, RowsOf(devices, deviceScan), RowsOf(photos, photoScan), uid, q)
      ensures r == Err(HttpError(404, "Device not found"))
           <==> PageValid(q.limit, q.offset) && uid in users && FiltersDevice(q.criteria)
                && forall d :: d in devices.Values ==> d.deviceName != q.criteria.device.value
      ensures r.Ok? ==> Distinct(r.value)
      ensures r.Ok? ==> forall p :: p in r.value ==> p in photos.Values && p.userId == uid
      ensures r.Ok? && FiltersDevice(q.criteria) ==>
        exists d :: d in devices.Values && d.deviceName == q.criteria.device.value
                    && forall p :: p in r.value ==> p.deviceId == d.deviceId
    {
      deviceScan := ScanKeys(devices);
      photoScan := ScanKeys(photos);
      var devs := RowsOf(devices, deviceScan);
      var rows := RowsOf(photos, photoScan);
      r := ListUserPhotos(users, devs, rows, uid, q);
      var dkey := (d: Device) => d.deviceId;
      assert forall id :: id in devices ==> dkey(devices[id]) == id;
      RowsOfScan(devices, deviceScan, dkey);
      var pkey := (p: Photo) => p.photoId;
      assert forall id :: id in photos ==> pkey(photos[id]) == id;
      RowsOfScan(photos, photoScan, pkey);
      DeviceNamedStored(devices, devs, q.criteria);
      if r.Ok? {
        PhotoPageStored(users, photos, devs, rows, uid, q);
        if FiltersDevice(q.criteria) {
          PhotoPageDevice(users, devices, devs, rows, uid, q);
        }
      }
    }

    /**
     * `generate_journal`: select the photos asked for, oldest first;
     * describe those without a description and build one entry per photo;
     * hand the entries to the text-generation step; store the journal it
     * yields together with the new descriptions. `photoIds` is `None` when
     * the body has no "photo_ids", which the id filter cannot take (500).
     */
    method GenerateJournal(uid: Uuid, photoIds: Option<seq<Uuid>>, newId: Uuid, now: Time,
                           staticServer: string, staticPath: string, vision: string -> seq<string>,
                           generate: seq<EntryItem> -> GenerationResponse)
      returns (r: Result<Journal, ApiError>, selected: seq<Photo>, sent: Option<seq<EntryItem>>)
      requires Valid()
      modifies this
      ensures Valid()
      ensures users == old(users) && devices == old(devices) && entries == old(entries)
      ensures uid !in old(users) ==> r == Err(HttpError(404, "User not found")) && sent.None?
      ensures uid in old(users) && photoIds.None? ==> r == Err(ServerError) && sent.None?
      ensures uid in old(users) && photoIds.Some? ==> Selection(old(photos), photoIds.value, selected)
      ensures uid in old(users) && photoIds.Some? ==>
        (sent.None? <==> exists i :: 0 <= i < |selected| && Caption(selected[i], staticServer, staticPath, vision).None?)
      ensures sent.Some? ==> |sent.value| == |selected| && SortedBy(sent.value, Created(), true)
      ensures sent.Some? ==> forall i :: 0 <= i < |selected| ==>
        var c := Caption(selected[i], staticServer, staticPath, vision);
        c.Some? && sent.value[i] == ImageEntry(selected[i], c.value)
      ensures r.Ok? <==> sent.Some? && generate(sent.value).NoOutput? && newId !in old(journals)
      ensures r.Ok? ==> r.value == Journal(newId, uid, FailedTitle, Some(FailedBody), now, now, false)
      ensures r.Ok? ==> journals == old(journals)[newId := r.value] && photos.Keys == old(photos).Keys
      ensures r.Ok? ==> forall i :: 0 <= i < |selected| ==>
        var c := Caption(selected[i], staticServer, staticPath, vision);
        c.Some? && photos[selected[i].photoId] == PhotoTouched(selected[i], WithCaption(selected[i], c.value), now)
      ensures r.Ok? ==> forall id :: id in old(photos) && id !in photoIds.value ==> photos[id] == old(photos)[id]
      ensures r.Err? ==> journals == old(journals) && photos == old(photos)
    {
      selected, sent := [], None;
      if uid !in users {
        return Err(HttpError(404, "User not found")), selected, sent;
      }
      if photoIds.None? {
        return Err(ServerError), selected, sent;
      }
      var wanted := photoIds.value;
      selected := SelectPhotos(wanted);
      var collected := CollectEntries(selected, staticServer, staticPath, vision);
      if collected.None? {
        return Err(ServerError), selected, sent;
      }
      var col := collected.value;
      sent := Some(col.entries);
      EntriesInTimeOrder(selected, col.entries);
      r := CommitGenerated(uid, newId, now, wanted, selected, col, generate);
    }

    /** `db.query(PhotoModel).filter(photo_id.in_(wanted)).order_by(time_created.asc())`. */
    method SelectPhotos(wanted: seq<Uuid>) returns (selected: seq<Photo>)
      requires Valid()
      ensures Selection(photos, wanted, selected)
    {
      var ks := ScanKeys(photos);
      selected := Sort(Filter(RowsOf(photos, ks), PhotoInList(wanted)), PhotoKey(TimeCreated), true);
      SelectionOfScan(photos, ks, wanted);
    }

    /**
     * The end of `generate_journal`: the text-generation step, then the
     * commit of the new journal together with the described photos.
     */
    method CommitGenerated(uid: Uuid, newId: Uuid, now: Time, ghost wanted: seq<Uuid>, selected: seq<Photo>,
                           col: Collected, generate: seq<EntryItem> -> GenerationResponse)
      returns (r: Result<Journal, ApiError>)
      requires Valid() && Selection(photos, wanted, selected)
      requires |col.captioned| == |selected|
      requires forall i :: 0 <= i < |selected| ==> col.captioned[i].photoId == selected[i].photoId
      modifies this
      ensures Valid()
      ensures users == old(users) && devices == old(devices) && entries == old(entries)
      ensures r.Ok? <==> generate(col.entries).NoOutput? && newId !in old(journals)
      ensures r.Err? ==> r == Err(ServerError) && journals == old(journals) && photos == old(photos)
      ensures r.Ok? ==> r.value == Journal(newId, uid, FailedTitle, Some(FailedBody), now, now, false)
      ensures r.Ok? ==> journals == old(journals)[newId := r.value] && photos.Keys == old(photos).Keys
      ensures r.Ok? ==> forall i :: 0 <= i < |selected| ==>
        photos[selected[i].photoId] == PhotoTouched(selected[i], col.captioned[i], now)
      ensures r.Ok? ==> forall id :: id in old(photos) && id !in wanted ==> photos[id] == old(photos)[id]
    {
      var pair := GenerateJournalFunc(col.entries, generate);
      if pair.None? || newId in journals {
        return Err(ServerError);
      }
      var journal := Journal(newId, uid, pair.value.title, Some(pair.value.body), now, now, false);
      CaptionsStored(photos, wanted, selected, col.captioned, now);
      var stored := Overwrite(photos, PhotoIds(selected), TouchedRows(selected, col.captioned, now));
      GeneratedCommitValid(users, devices, journals, photos, entries, journal, stored);
      journals := journals[newId := journal];
      photos := stored;
      r := Ok(journal);
    }

    /**
     * `update_user`: look the user up, `setattr` each field that was sent,
     * then commit (which fails on an email another user holds).
     */
    method UpdateUser(uid: Uuid, upd: UserUpdate, hash: string -> string) returns (r: Result<User, ApiError>)
      requires Valid()
      modifies this
      ensures Valid()
      ensures r == UpdateUserResult(old(users), uid, upd, hash)
      ensures users == if r.Ok? then old(users)[uid := r.value] else old(users)
      ensures devices == old(devices) && journals == old(journals)
      ensures photos == old(photos) && entries == old(entries)
    {
      if uid !in users {
        return Err(HttpError(404, "User not found"));
      }
      var cur := SetUserFields(users[uid], UserItems(upd), hash);
      UserLoopIsFieldwise(users[uid], upd, hash);
      if cur.Err? {
        return cur;
      }
      if EmailClash(users, uid, cur.value.email) {
        return Err(ServerError);
      }
      UpdateUserKeepsEmailsUnique(users, uid, upd, hash);
      users := users[uid := cur.value];
      r := cur;
    }
  }
}
