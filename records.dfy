/**
 * The rows of the five tables (users, devices, journals, photos, entries)
 * and the values shared by the endpoints: identifiers, timestamps, the
 * "field present in the request" marker and the HTTP errors.
 */
module Records {
  import opened Wrappers

  /** A UUID in its canonical text form. */
  type Uuid = string

  /** A naive UTC `datetime`, as whole seconds. */
  type Time = int

  const SecondsPerDay := 86400

  /** The calendar day of a timestamp; `strftime("%Y-%m-%d")` names this day. */
  function DayOf(t: Time): int {
    t / SecondsPerDay
  }

  datatype User = User(
    userId: Uuid,
    username: string,
    email: string,
    passwordHash: string,
    timeCreated: Time,
    lastLogin: Option<Time>,
    isActive: bool,
    profilePictureUrl: Option<string>,
    bio: Option<string>)

  /**
   * The width of the `VARCHAR(255)` columns, in characters. A string field
   * without an explicit width gets the same width on MySQL, and MySQL in
   * its default strict mode refuses a longer value at commit.
   */
  const VarcharWidth := 255

  /** `s` fits a `VARCHAR(255)` column. */
  predicate Fits(s: string) {
    |s| <= VarcharWidth
  }

  /** A nullable value fits its `VARCHAR(255)` column. */
  predicate FitsOpt(s: Option<string>) {
    s.None? || Fits(s.value)
  }

  /** Every text column of a user row fits its width. */
  predicate UserFits(u: User) {
    Fits(u.username) && Fits(u.email) && Fits(u.passwordHash) && FitsOpt(u.profilePictureUrl) && FitsOpt(u.bio)
  }

  /** The title of a journal row fits its width (the description is `LONGTEXT`). */
  predicate JournalFits(j: Journal) {
    Fits(j.title)
  }

  datatype Device = Device(
    deviceId: Uuid,
    userId: Uuid,
    deviceName: string,
    apiKey: string,
    isActive: bool,
    timeCreated: Time,
    timeModified: Time)

  datatype Journal = Journal(
    journalId: Uuid,
    userId: Uuid,
    title: string,
    description: Option<string>,
    timeCreated: Time,
    timeModified: Time,
    starred: bool)

  datatype Photo = Photo(
    photoId: Uuid,
    userId: Uuid,
    journalId: Option<Uuid>,
    deviceId: Uuid,
    timeCreated: Time,
    timeModified: Time,
    location: Option<string>,
    description: Option<string>,
    url: string,
    starred: bool,
    fileName: Option<string>)

  datatype Entry = Entry(
    entryId: Uuid,
    userId: Uuid,
    journalId: Uuid,
    deviceId: Uuid,
    timeCreated: Time,
    timeModified: Time,
    content: Option<string>)

  /**
   * One optional field of a request body: `Keep` when the client did not
   * send it (left out by `dict(exclude_unset=True)`), `Set(v)` when it did;
   * an explicit JSON null is `Set(None)`.
   */
  datatype Patch<T> = Keep | Set(value: T)

  /**
   * An `HTTPException` with its status and detail; a request parameter
   * outside its declared bounds (HTTP 422, raised before the handler runs);
   * or an uncaught exception (HTTP 500, nothing committed).
   */
  datatype ApiError = HttpError(status: int, detail: string) | ValidationError | ServerError
}
