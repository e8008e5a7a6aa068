/** The persisted entities: application users with their profile fields and
    visibility setting, and contact relationships between two users. */
module Data {
  import opened Base

  /** Identity user ids are non-null strings. */
  type UserId = string

  /** Instants (`DateTime` in UTC) as ticks. */
  type Instant = int

  /** Who may view a user's profile. */
  datatype ProfileVisibility = Public | ContactsOnly | Private

  /** The enum's integer value. */
  function VisibilityCode(v: ProfileVisibility): (code: int)
    ensures 0 <= code < 3
    ensures code == 0 <==> v == Public
    ensures code == 2 <==> v == Private
  {
    match v
    case Public => 0
    case ContactsOnly => 1
    case Private => 2
  }

  /** A new user's visibility. */
  const DefaultVisibility: ProfileVisibility := Public

  /** An application user: the identity fields the controllers read plus the
      optional profile fields. */
  datatype User = User(
    id: UserId,
    userName: Option<string>,
    email: Option<string>,
    displayName: Option<string>,
    bio: Option<string>,
    avatarUrl: Option<string>,
    visibility: ProfileVisibility)

  /** A freshly registered user: no profile fields set, visibility at its default. */
  function NewUser(id: UserId, userName: Option<string>, email: Option<string>): (u: User)
    ensures u.id == id && u.userName == userName && u.email == email
    ensures u.displayName.None? && u.bio.None? && u.avatarUrl.None?
    ensures u.visibility == Public
  {
    User(id, userName, email, None, None, None, DefaultVisibility)
  }

  /** `UserManager.FindByIdAsync`: the first stored user with that id. */
  function FindUser(users: seq<User>, id: UserId): (r: Option<User>)
    ensures r.Some? ==> r.value in users && r.value.id == id
    ensures r.None? <==> forall k :: 0 <= k < |users| ==> users[k].id != id
  {
    match FirstIndex(users, (u: User) => u.id == id)
    case None => None
    case Some(k) => Some(users[k])
  }

  /** `UserManager.GetUserAsync(User)`: the stored user named by the request's
      identity claim; absent when there is no claim or no such user. */
  function CurrentUser(principal: Option<UserId>, users: seq<User>): (r: Option<User>)
    ensures r.Some? ==> principal.Some? && r.value in users && r.value.id == principal.value
    ensures principal.Some? && (exists k :: 0 <= k < |users| && users[k].id == principal.value) ==> r.Some?
  {
    if principal.None? then None else FindUser(users, principal.value)
  }

  /** Status of a contact relationship. */
  datatype ContactStatus = Pending | Accepted | Rejected | Blocked

  /** The enum's integer value. */
  function StatusCode(s: ContactStatus): (code: int)
    ensures 0 <= code < 4
  {
    match s
    case Pending => 0
    case Accepted => 1
    case Rejected => 2
    case Blocked => 3
  }

  /** The four statuses have four distinct codes. */
  lemma StatusCodeInjective(a: ContactStatus, b: ContactStatus)
    ensures StatusCode(a) == StatusCode(b) ==> a == b
  {
  }

  /** A contact relationship between a requester and a receiver. */
  datatype Contact = Contact(
    id: int,
    requesterId: UserId,
    receiverId: UserId,
    status: ContactStatus,
    createdAt: Instant,
    updatedAt: Instant)

  /** A contact built with only its parties set: status and both timestamps
      take their defaults (Pending, and the current time). */
  function NewContact(id: int, requesterId: UserId, receiverId: UserId, now: Instant): (c: Contact)
    ensures c.id == id && c.requesterId == requesterId && c.receiverId == receiverId
    ensures c.status == Pending
    ensures c.createdAt == now && c.updatedAt == now
  {
    Contact(id, requesterId, receiverId, Pending, now, now)
  }
}
