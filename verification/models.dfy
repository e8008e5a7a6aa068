/** The API's transfer objects: the status and visibility enums as the API
    sees them, the request bodies with their validation attributes, and the
    result shapes (display fields the controllers merely copy are omitted,
    except where a property is about them). */
module Models {
  import opened Base
  import opened Data
  import Text

  /** Contact status as exchanged with clients. */
  datatype ContactStatusDto = Pending | Accepted | Rejected | Blocked

  /** The integer value behind each API status. */
  function DtoCode(d: ContactStatusDto): (code: int)
    ensures 0 <= code < 4
  {
    match d
    case Pending => 0
    case Accepted => 1
    case Rejected => 2
    case Blocked => 3
  }

  /** The cast `(ContactStatusDto)status`: it keeps the integer value. */
  function ToStatusDto(s: ContactStatus): (d: ContactStatusDto)
    ensures DtoCode(d) == StatusCode(s)
  {
    match s
    case Pending => ContactStatusDto.Pending
    case Accepted => ContactStatusDto.Accepted
    case Rejected => ContactStatusDto.Rejected
    case Blocked => ContactStatusDto.Blocked
  }

  /** The cast `(ContactStatus)dto`: it keeps the integer value. */
  function FromStatusDto(d: ContactStatusDto): (s: ContactStatus)
    ensures StatusCode(s) == DtoCode(d)
  {
    match d
    case Pending => ContactStatus.Pending
    case Accepted => ContactStatus.Accepted
    case Rejected => ContactStatus.Rejected
    case Blocked => ContactStatus.Blocked
  }

  /** Because both enums carry the same codes, the two casts are inverse
      to each other: no status is lost or changed crossing the API. */
  lemma {:induction false} StatusCastsRoundTrip(s: ContactStatus, d: ContactStatusDto)
    ensures FromStatusDto(ToStatusDto(s)) == s
    ensures ToStatusDto(FromStatusDto(d)) == d
  {
    StatusCodeInjective(FromStatusDto(ToStatusDto(s)), s);
  }

  /** Profile visibility as exchanged with clients. */
  datatype ProfileVisibilityDto = Public | ContactsOnly | Private

  function VisibilityDtoCode(d: ProfileVisibilityDto): (code: int)
    ensures 0 <= code < 3
  {
    match d
    case Public => 0
    case ContactsOnly => 1
    case Private => 2
  }

  /** The cast `(ProfileVisibilityDto)visibility`: it keeps the integer value. */
  function ToVisibilityDto(v: ProfileVisibility): (d: ProfileVisibilityDto)
    ensures VisibilityDtoCode(d) == VisibilityCode(v)
  {
    match v
    case Public => ProfileVisibilityDto.Public
    case ContactsOnly => ProfileVisibilityDto.ContactsOnly
    case Private => ProfileVisibilityDto.Private
  }

  /** The cast `(ProfileVisibility)dto`: it keeps the integer value. */
  function FromVisibilityDto(d: ProfileVisibilityDto): (v: ProfileVisibility)
    ensures VisibilityCode(v) == VisibilityDtoCode(d)
  {
    match d
    case Public => ProfileVisibility.Public
    case ContactsOnly => ProfileVisibility.ContactsOnly
    case Private => ProfileVisibility.Private
  }

  lemma VisibilityCastsRoundTrip(v: ProfileVisibility, d: ProfileVisibilityDto)
    ensures FromVisibilityDto(ToVisibilityDto(v)) == v
    ensures ToVisibilityDto(FromVisibilityDto(d)) == d
  {
  }

  // ---------------------------------------------------------------------
  // Result shapes

  /** One entry of the viewer's contact list, seen from the viewer's side:
      `userId` is the other party. */
  datatype ContactDto = ContactDto(
    id: int,
    userId: UserId,
    status: ContactStatusDto,
    createdAt: Instant,
    updatedAt: Instant,
    isRequester: bool)

  /** A contact relationship with both parties named. */
  datatype ContactRequestDto = ContactRequestDto(
    id: int,
    requesterId: UserId,
    receiverId: UserId,
    status: ContactStatusDto,
    createdAt: Instant,
    updatedAt: Instant)

  /** A user found by a search, with the viewer's relationship to them if any. */
  datatype UserSearchResultDto = UserSearchResultDto(
    userId: UserId,
    userName: Option<string>,
    displayName: Option<string>,
    email: Option<string>,
    avatarUrl: Option<string>,
    contactStatus: Option<ContactStatusDto>,
    contactId: Option<int>)

  /** A user's profile as returned to a viewer. */
  datatype UserProfileDto = UserProfileDto(
    userId: UserId,
    userName: Option<string>,
    email: Option<string>,
    displayName: Option<string>,
    bio: Option<string>,
    avatarUrl: Option<string>,
    visibility: ProfileVisibilityDto)

  // ---------------------------------------------------------------------
  // Request bodies and their validation attributes

  /** `[Required]` on a string: present and not empty or white space only. */
  predicate RequiredPresent(s: Option<string>) {
    s.Some? && !Text.AllWhiteSpace(s.value)
  }

  /** `[StringLength(max, MinimumLength = min)]`: absent values pass. */
  predicate LengthWithin(s: Option<string>, min: int, max: int) {
    s.None? || min <= |s.value| <= max
  }

  datatype ContactSearchRequest = ContactSearchRequest(query: Option<string>, limit: int)

  const DefaultSearchLimit: int := 20

  /** A search request whose limit was not given. */
  function SearchRequestFor(query: Option<string>): (r: ContactSearchRequest)
    ensures r.query == query && r.limit == DefaultSearchLimit
  {
    ContactSearchRequest(query, DefaultSearchLimit)
  }

  /** The search request's validation attributes all hold. */
  predicate ValidSearchRequest(r: ContactSearchRequest) {
    && RequiredPresent(r.query)
    && LengthWithin(r.query, 1, 100)
    && 1 <= r.limit <= 50
  }

  const QueryRequiredMessage := "The Query field is required."
  const QueryLengthMessage := "Search query must be between 1 and 100 characters"
  const LimitRangeMessage := "Limit must be between 1 and 50"

  /** Model-state errors of a search request, one message per failed attribute. */
  function ValidateSearch(r: ContactSearchRequest): (errors: seq<string>)
    ensures errors == [] <==> ValidSearchRequest(r)
    ensures !RequiredPresent(r.query) ==> QueryRequiredMessage in errors
    ensures !LengthWithin(r.query, 1, 100) ==> QueryLengthMessage in errors
    ensures !(1 <= r.limit <= 50) ==> LimitRangeMessage in errors
  {
    (if RequiredPresent(r.query) then [] else [QueryRequiredMessage])
    + (if LengthWithin(r.query, 1, 100) then [] else [QueryLengthMessage])
    + (if 1 <= r.limit <= 50 then [] else [LimitRangeMessage])
  }

  /** The default limit lies within the accepted range. */
  lemma DefaultLimitAccepted(query: string)
    requires !Text.AllWhiteSpace(query) && |query| <= 100
    ensures ValidateSearch(SearchRequestFor(Some(query))) == []
  {
  }

  datatype SendContactRequestDto = SendContactRequestDto(receiverId: Option<string>)

  const ReceiverRequiredMessage := "The ReceiverId field is required."

  function ValidateSendRequest(r: SendContactRequestDto): (errors: seq<string>)
    ensures errors == [] <==> RequiredPresent(r.receiverId)
    ensures errors != [] ==> errors == [ReceiverRequiredMessage]
  {
    if RequiredPresent(r.receiverId) then [] else [ReceiverRequiredMessage]
  }

  /** The requested status: a non-nullable enum, so always present. */
  datatype UpdateContactRequestDto = UpdateContactRequestDto(status: ContactStatusDto)

  /** A field-wise profile patch: an absent field means "leave unchanged". */
  datatype UpdateUserProfileRequest = UpdateUserProfileRequest(
    displayName: Option<string>,
    bio: Option<string>,
    visibility: Option<ProfileVisibilityDto>)

  const DisplayNameLengthMessage := "Display name cannot exceed 100 characters"
  const BioLengthMessage := "Bio cannot exceed 500 characters"

  predicate ValidProfileUpdate(r: UpdateUserProfileRequest) {
    LengthWithin(r.displayName, 0, 100) && LengthWithin(r.bio, 0, 500)
  }

  function ValidateProfileUpdate(r: UpdateUserProfileRequest): (errors: seq<string>)
    ensures errors == [] <==> ValidProfileUpdate(r)
    ensures r.displayName.Some? && |r.displayName.value| > 100 ==> DisplayNameLengthMessage in errors
    ensures r.bio.Some? && |r.bio.value| > 500 ==> BioLengthMessage in errors
  {
    (if LengthWithin(r.displayName, 0, 100) then [] else [DisplayNameLengthMessage])
    + (if LengthWithin(r.bio, 0, 500) then [] else [BioLengthMessage])
  }
}
