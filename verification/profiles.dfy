/** The profile API: reading one's own profile, reading another user's
    profile under its visibility setting, and patching one's own profile. */
module Profiles {
  import opened Base
  import opened Data
  import opened Models
  import opened Http
  import Contacts

  /** The user's full profile, email included. */
  function ProfileOf(u: User): (p: UserProfileDto)
    ensures UserOfProfile(p) == u
  {
    VisibilityCastsRoundTrip(u.visibility, ProfileVisibilityDto.Public);
    UserProfileDto(u.id, u.userName, u.email, u.displayName, u.bio, u.avatarUrl, ToVisibilityDto(u.visibility))
  }

  /** The user a profile describes. */
  function UserOfProfile(p: UserProfileDto): User {
    User(p.userId, p.userName, p.email, p.displayName, p.bio, p.avatarUrl, FromVisibilityDto(p.visibility))
  }

  /** `GetMyProfileAsync`: every field of the current user, email included. */
  function GetMyProfile(principal: Option<UserId>, users: seq<User>): (r: Response<UserProfileDto>)
    ensures r.Ok? || r.Unauthorized?
    ensures r.Unauthorized? <==> CurrentUser(principal, users).None?
    ensures r.Ok? ==> UserOfProfile(r.value) == CurrentUser(principal, users).value
  {
    var current := CurrentUser(principal, users);
    if current.None? then Unauthorized else Ok(ProfileOf(current.value))
  }

  /** `AreUsersContactsAsync`: some row relating the two users, in either
      direction, is Accepted. */
  function AreUsersContacts(t: Contacts.Table, a: UserId, b: UserId): (r: bool)
    ensures r <==> exists k :: 0 <= k < |t| && Contacts.Links(t[k], a, b) && t[k].status == ContactStatus.Accepted
  {
    var k := FirstIndex(t, (c: Contact) => Contacts.Links(c, a, b) && c.status == ContactStatus.Accepted);
    if k.Some? then
      assert Contacts.Links(t[k.value], a, b);
      true
    else false
  }

  /** Being contacts does not depend on who asked whom. */
  lemma AreUsersContactsSymmetric(t: Contacts.Table, a: UserId, b: UserId)
    ensures AreUsersContacts(t, a, b) == AreUsersContacts(t, b, a)
  {
    if AreUsersContacts(t, a, b) {
      var k :| 0 <= k < |t| && Contacts.Links(t[k], a, b) && t[k].status == ContactStatus.Accepted;
      assert Contacts.Links(t[k], b, a);
    }
  }

  /** In a valid table two users are contacts exactly when the one row
      relating them is Accepted. */
  lemma AreUsersContactsIffLinkAccepted(t: Contacts.Table, a: UserId, b: UserId)
    requires Contacts.Valid(t)
    ensures AreUsersContacts(t, a, b) <==>
      Contacts.FindLink(t, a, b).Some? && t[Contacts.FindLink(t, a, b).value].status == ContactStatus.Accepted
  {
    if AreUsersContacts(t, a, b) {
      var k :| 0 <= k < |t| && Contacts.Links(t[k], a, b) && t[k].status == ContactStatus.Accepted;
      Contacts.LinkIsUnique(t, a, b, k);
    }
  }

  /** The viewer is the profile's owner. */
  predicate IsSelf(viewer: Option<User>, target: User) {
    viewer.Some? && viewer.value.id == target.id
  }

  /** The profile a permitted viewer sees: every field, except that the
      email is withheld from others when the profile is not Public. */
  function VisibleProfile(target: User, viewer: Option<User>): (p: UserProfileDto)
    ensures p.email.Some? ==> IsSelf(viewer, target) || target.visibility.Public?
    ensures IsSelf(viewer, target) || target.visibility.Public? ==> p.email == target.email
    ensures UserOfProfile(p) == target.(email := p.email)
  {
    var p := ProfileOf(target);
    if !IsSelf(viewer, target) && !target.visibility.Public? then p.(email := None) else p
  }

  /** `GetUserProfileAsync` as written. An unknown target is NotFound
      whoever asks. Private profiles go to their owner only; ContactsOnly
      profiles to their owner and to users with an Accepted row with the
      owner, but an anonymous viewer dereferences the missing current user;
      Public profiles go to everyone. */
  function GetUserProfile(principal: Option<UserId>, users: seq<User>, t: Contacts.Table, targetId: UserId)
    : (r: Response<UserProfileDto>)
    ensures r.Ok? || r.NotFound? || r.Forbidden? || r.Crash?
    ensures r.NotFound? <==> FindUser(users, targetId).None?
    ensures FindUser(users, targetId).Some? ==>
      var target := FindUser(users, targetId).value;
      var viewer := CurrentUser(principal, users);
      && (target.visibility.Public? ==> r.Ok?)
      && (target.visibility.Private? ==> (r.Ok? <==> IsSelf(viewer, target)))
      && (target.visibility.ContactsOnly? && viewer.Some? ==>
            (r.Ok? <==> IsSelf(viewer, target) || AreUsersContacts(t, viewer.value.id, target.id)))
      && (r.Crash? <==> target.visibility.ContactsOnly? && viewer.None?)
      && (r.Crash? ==> r.exception == NullReference)
      && (r.Ok? ==> r.value == VisibleProfile(target, viewer))
  {
    var viewer := CurrentUser(principal, users);
    var found := FindUser(users, targetId);
    if found.None? then NotFound
    else
      var target := found.value;
      if target.visibility.Private? && !IsSelf(viewer, target) then Forbidden
      else if target.visibility.ContactsOnly? && !IsSelf(viewer, target) then
        if viewer.None? then Crash(NullReference)
        else if !AreUsersContacts(t, viewer.value.id, target.id) then Forbidden
        else Ok(VisibleProfile(target, viewer))
      else Ok(VisibleProfile(target, viewer))
  }

  /** `GetUserProfileAsync` with the anonymous ContactsOnly case refused
      like every other unauthorised view. */
  function GetUserProfileGuarded(principal: Option<UserId>, users: seq<User>, t: Contacts.Table, targetId: UserId)
    : (r: Response<UserProfileDto>)
    ensures r.Ok? || r.NotFound? || r.Forbidden?
    ensures r.NotFound? <==> FindUser(users, targetId).None?
    ensures FindUser(users, targetId).Some? ==>
      var target := FindUser(users, targetId).value;
      var viewer := CurrentUser(principal, users);
      && (r.Ok? <==>
            || target.visibility.Public?
            || IsSelf(viewer, target)
            || (target.visibility.ContactsOnly? && viewer.Some? && AreUsersContacts(t, viewer.value.id, target.id)))
      && (r.Ok? ==> r.value == VisibleProfile(target, viewer))
  {
    var r := GetUserProfile(principal, users, t, targetId);
    if r.Crash? then Forbidden else r
  }

  /** The profile patch: fields present in the request overwrite, absent
      ones keep their value; identity fields never change. */
  function ApplyPatch(u: User, p: UpdateUserProfileRequest): (r: User)
    ensures r.id == u.id && r.userName == u.userName && r.email == u.email && r.avatarUrl == u.avatarUrl
    ensures p.displayName.Some? ==> r.displayName == p.displayName
    ensures p.displayName.None? ==> r.displayName == u.displayName
    ensures p.bio.Some? ==> r.bio == p.bio
    ensures p.bio.None? ==> r.bio == u.bio
    ensures p.visibility.Some? ==> r.visibility == FromVisibilityDto(p.visibility.value)
    ensures p.visibility.None? ==> r.visibility == u.visibility
  {
    var u1 := if p.displayName.Some? then u.(displayName := p.displayName) else u;
    var u2 := if p.bio.Some? then u1.(bio := p.bio) else u1;
    if p.visibility.Some? then u2.(visibility := FromVisibilityDto(p.visibility.value)) else u2
  }

  /** Applying the same patch twice changes nothing more. */
  lemma PatchIdempotent(u: User, p: UpdateUserProfileRequest)
    ensures ApplyPatch(ApplyPatch(u, p), p) == ApplyPatch(u, p)
  {
  }

  /** The empty patch changes nothing. */
  lemma EmptyPatchIsIdentity(u: User)
    ensures ApplyPatch(u, UpdateUserProfileRequest(None, None, None)) == u
  {
  }

  /** `q` laid over `p`: `q`'s present fields win. */
  function Merge(p: UpdateUserProfileRequest, q: UpdateUserProfileRequest): UpdateUserProfileRequest {
    UpdateUserProfileRequest(
      if q.displayName.Some? then q.displayName else p.displayName,
      if q.bio.Some? then q.bio else p.bio,
      if q.visibility.Some? then q.visibility else p.visibility)
  }

  /** Two successive patches act as their merge. */
  lemma PatchesCompose(u: User, p: UpdateUserProfileRequest, q: UpdateUserProfileRequest)
    ensures ApplyPatch(ApplyPatch(u, p), q) == ApplyPatch(u, Merge(p, q))
  {
  }

  /** The user store after `UpdateAsync(u)`: looking up `u`'s id now finds
      `u`, every other id finds what it found before, and records with other
      ids stay where they were. An unknown id leaves the store alone. */
  function StoreUser(users: seq<User>, u: User): (r: seq<User>)
    ensures |r| == |users|
    ensures FindUser(users, u.id).Some? ==> FindUser(r, u.id) == Some(u)
    ensures FindUser(users, u.id).None? ==> r == users
    ensures forall x :: x != u.id ==> FindUser(r, x) == FindUser(users, x)
    ensures forall k :: 0 <= k < |users| && users[k].id != u.id ==> r[k] == users[k]
  {
    var r := seq(|users|, k requires 0 <= k < |users| => if users[k].id == u.id then u else users[k]);
    forall x | x != u.id
      ensures FindUser(r, x) == FindUser(users, x)
    {
      FirstIndexAgrees(r, (v: User) => v.id == x, users, (v: User) => v.id == x);
    }
    FirstIndexAgrees(r, (v: User) => v.id == u.id, users, (v: User) => v.id == u.id);
    r
  }

  /** A handler's response together with the user store it leaves behind. */
  datatype ProfileReply = ProfileReply(response: Response<UserProfileDto>, users: seq<User>)

  /** `UpdateMyProfileAsync`. Model validation first, then the current user;
      the patched record is then handed to the user store, whose refusal
      (`storeErrors` non-empty) is reported as BadRequest with its messages
      and leaves the store as it was. */
  function UpdateMyProfile(principal: Option<UserId>, users: seq<User>, req: UpdateUserProfileRequest,
                           storeErrors: seq<string>): (r: ProfileReply)
    ensures !r.response.Ok? ==> r.users == users
    ensures !ValidProfileUpdate(req) ==> r.response == BadRequest(ValidateProfileUpdate(req))
    ensures ValidProfileUpdate(req) && CurrentUser(principal, users).None? ==> r.response.Unauthorized?
    ensures ValidProfileUpdate(req) && CurrentUser(principal, users).Some? ==>
      var patched := ApplyPatch(CurrentUser(principal, users).value, req);
      && (storeErrors != [] ==> r.response == BadRequest(storeErrors))
      && (storeErrors == [] ==>
            && r.response.Ok?
            && UserOfProfile(r.response.value) == patched
            && FindUser(r.users, patched.id) == Some(patched)
            && (forall x :: x != patched.id ==> FindUser(r.users, x) == FindUser(users, x))
            && |r.users| == |users|
            && forall k :: 0 <= k < |users| && users[k].id != patched.id ==> r.users[k] == users[k])
    ensures r.response.Ok? || r.response.BadRequest? || r.response.Unauthorized?
  {
    var errors := ValidateProfileUpdate(req);
    if errors != [] then ProfileReply(BadRequest(errors), users)
    else
      var current := CurrentUser(principal, users);
      if current.None? then ProfileReply(Unauthorized, users)
      else
        var patched := ApplyPatch(current.value, req);
        if storeErrors != [] then ProfileReply(BadRequest(storeErrors), users)
        else
          var stored := StoreUser(users, patched);
          ProfileReply(Ok(ProfileOf(patched)), stored)
  }
}
