/** Properties that span several requests: what one handler leaves behind
    and how the next handler answers, the life of one relationship from
    request to deletion, and the table invariant over any run of the
    contacts API. */
module Scenarios {
  import opened Base
  import opened Data
  import opened Models
  import opened Http
  import opened Contacts
  import Profiles

  /** A stored user is found by id. */
  lemma StoredUserFound(users: seq<User>, u: User)
    requires u in users
    ensures FindUser(users, u.id).Some?
  {
    var k :| 0 <= k < |users| && users[k] == u;
    assert users[k].id == u.id;
  }

  /** The id of the signed-in user. */
  function Sender(principal: Option<UserId>, users: seq<User>): UserId
    requires CurrentUser(principal, users).Some?
  {
    CurrentUser(principal, users).value.id
  }

  // ---------------------------------------------------------------------
  // Sending

  /** Once a request between two users exists, a second one between them,
      sent by either of them, is answered with Conflict and adds nothing. */
  lemma {:induction false} SecondRequestConflicts(principal: Option<UserId>, users: seq<User>, t: Table,
                                                 req: SendContactRequestDto, freshId: int, now: Instant,
                                                 principal2: Option<UserId>, req2: SendContactRequestDto,
                                                 freshId2: int, now2: Instant)
    requires SendContactRequest(principal, users, t, req, freshId, now).response.Created?
    requires CurrentUser(principal2, users).Some? && RequiredPresent(req2.receiverId)
    requires var x := Sender(principal2, users);
      var y := req2.receiverId.value;
      var v := Sender(principal, users);
      var w := req.receiverId.value;
      (x == v && y == w) || (x == w && y == v)
    ensures var t1 := SendContactRequest(principal, users, t, req, freshId, now).table;
      var r := SendContactRequest(principal2, users, t1, req2, freshId2, now2);
      r.response == Conflict(AlreadyExistsMessage) && r.table == t1
  {
    var v := Sender(principal, users);
    var w := req.receiverId.value;
    var x := Sender(principal2, users);
    var y := req2.receiverId.value;
    var t1 := SendContactRequest(principal, users, t, req, freshId, now).table;
    assert Links(t1[|t|], x, y);
    StoredUserFound(users, CurrentUser(principal, users).value);
    assert FindUser(users, y).Some?;
  }

  /** Sending a request to oneself is refused and adds nothing. */
  lemma SelfRequestRefused(principal: Option<UserId>, users: seq<User>, t: Table, freshId: int, now: Instant)
    requires CurrentUser(principal, users).Some?
    requires RequiredPresent(Some(Sender(principal, users)))
    ensures var r := SendContactRequest(principal, users, t, SendContactRequestDto(Some(Sender(principal, users))), freshId, now);
      r.response == BadRequest([SelfRequestMessage]) && r.table == t
  {
    StoredUserFound(users, CurrentUser(principal, users).value);
  }

  /** The row a successful request creates is the only one with its id
      when the id was fresh. */
  lemma CreatedRowFound(principal: Option<UserId>, users: seq<User>, t: Table,
                        req: SendContactRequestDto, freshId: int, now: Instant)
    requires Valid(t) && freshId !in Ids(t)
    requires SendContactRequest(principal, users, t, req, freshId, now).response.Created?
    ensures var t1 := SendContactRequest(principal, users, t, req, freshId, now).table;
      Valid(t1) && |t1| == |t| + 1 && FindContact(t1, freshId) == Some(|t|)
      && t1[|t|] == NewContact(freshId, Sender(principal, users), req.receiverId.value, now)
  {
    var t1 := SendContactRequest(principal, users, t, req, freshId, now).table;
    ContactIsUnique(t1, |t|);
  }

  // ---------------------------------------------------------------------
  // Answering

  /** A fresh request can be accepted or rejected by its receiver only:
      the requester and anyone else are refused with 403 (and the
      requester's attempt crashes as written). */
  lemma {:induction false} OnlyReceiverAnswers(principal: Option<UserId>, users: seq<User>, t: Table,
                                              req: SendContactRequestDto, freshId: int, now: Instant,
                                              actor: Option<UserId>, answer: ContactStatusDto, later: Instant)
    requires Valid(t) && freshId !in Ids(t)
    requires SendContactRequest(principal, users, t, req, freshId, now).response.Created?
    requires CurrentUser(actor, users).Some?
    requires answer == ContactStatusDto.Accepted || answer == ContactStatusDto.Rejected
    ensures var t1 := SendContactRequest(principal, users, t, req, freshId, now).table;
      var a := Sender(actor, users);
      var r := UpdateContact(actor, users, t1, freshId, UpdateContactRequestDto(answer), later);
      && (a == req.receiverId.value ==> r.response.Ok? && r.table[|t|].status == FromStatusDto(answer))
      && (a == Sender(principal, users) ==>
            && r.response.Forbidden? && r.table == t1
            && UpdateContactAsWritten(actor, users, t1, freshId, UpdateContactRequestDto(answer), later).response
               == Crash(InvalidOperation))
      && (a != req.receiverId.value && a != Sender(principal, users) ==> r.response.Forbidden?)
  {
    CreatedRowFound(principal, users, t, req, freshId, now);
    var t1 := SendContactRequest(principal, users, t, req, freshId, now).table;
    assert Authorize(actor, users, t1, freshId).NotAParty? || Authorize(actor, users, t1, freshId) == Granted(|t|);
  }

  /** Asking for Pending is always refused, so no update makes a row
      Pending: every row Pending after an update was Pending before. */
  lemma UpdateNeverMakesPending(principal: Option<UserId>, users: seq<User>, t: Table, id: int,
                                req: UpdateContactRequestDto, now: Instant)
    ensures var r := UpdateContact(principal, users, t, id, req, now);
      && (req.status == ContactStatusDto.Pending ==> !r.response.Ok?)
      && |r.table| == |t|
      && forall k :: 0 <= k < |t| && r.table[k].status == ContactStatus.Pending ==> t[k].status == ContactStatus.Pending
  {
    var r := UpdateContact(principal, users, t, id, req, now);
    if r.response.Ok? {
      StatusCastsRoundTrip(ContactStatus.Pending, req.status);
    }
  }

  /** A reference reading of the transition rule: the target is not
      Pending, and a pending request may be answered with Accepted or
      Rejected by its receiver alone. */
  lemma TransitionAllowedIff(row: Contact, actor: UserId, to: ContactStatus)
    ensures TransitionAllowed(row, actor, to) <==>
      match to
      case Pending => false
      case Blocked => true
      case _ => row.status != ContactStatus.Pending || row.receiverId == actor
  {
  }

  /** Either party may block, whatever the row's status. */
  lemma EitherPartyMayBlock(principal: Option<UserId>, users: seq<User>, t: Table, id: int, now: Instant)
    requires Authorize(principal, users, t, id).Granted?
    ensures UpdateContact(principal, users, t, id, UpdateContactRequestDto(ContactStatusDto.Blocked), now).response.Ok?
  {
  }

  // ---------------------------------------------------------------------
  // Being contacts

  /** Accepting a request makes the two users contacts, both ways round. */
  lemma {:induction false} AcceptMakesContacts(principal: Option<UserId>, users: seq<User>, t: Table,
                                              req: SendContactRequestDto, freshId: int, now: Instant,
                                              actor: Option<UserId>, later: Instant)
    requires Valid(t) && freshId !in Ids(t)
    requires SendContactRequest(principal, users, t, req, freshId, now).response.Created?
    requires CurrentUser(actor, users).Some? && Sender(actor, users) == req.receiverId.value
    ensures var t1 := SendContactRequest(principal, users, t, req, freshId, now).table;
      var t2 := UpdateContact(actor, users, t1, freshId, UpdateContactRequestDto(ContactStatusDto.Accepted), later).table;
      && Profiles.AreUsersContacts(t2, Sender(principal, users), req.receiverId.value)
      && Profiles.AreUsersContacts(t2, req.receiverId.value, Sender(principal, users))
  {
    OnlyReceiverAnswers(principal, users, t, req, freshId, now, actor, ContactStatusDto.Accepted, later);
    var t1 := SendContactRequest(principal, users, t, req, freshId, now).table;
    var t2 := UpdateContact(actor, users, t1, freshId, UpdateContactRequestDto(ContactStatusDto.Accepted), later).table;
    assert Links(t2[|t|], Sender(principal, users), req.receiverId.value);
    Profiles.AreUsersContactsSymmetric(t2, Sender(principal, users), req.receiverId.value);
  }

  /** In a valid table, moving the row relating two users to anything but
      Accepted ends their being contacts. */
  lemma {:induction false} LeavingAcceptedEndsContact(principal: Option<UserId>, users: seq<User>, t: Table,
                                                     id: int, req: UpdateContactRequestDto, now: Instant)
    requires Valid(t)
    requires req.status != ContactStatusDto.Accepted
    requires UpdateContact(principal, users, t, id, req, now).response.Ok?
    ensures var k := FindContact(t, id).value;
      var t2 := UpdateContact(principal, users, t, id, req, now).table;
      !Profiles.AreUsersContacts(t2, t[k].requesterId, t[k].receiverId)
  {
    var k := FindContact(t, id).value;
    var t2 := UpdateContact(principal, users, t, id, req, now).table;
    assert Valid(t2);
    assert Links(t2[k], t[k].requesterId, t[k].receiverId);
    LinkIsUnique(t2, t[k].requesterId, t[k].receiverId, k);
    Profiles.AreUsersContactsIffLinkAccepted(t2, t[k].requesterId, t[k].receiverId);
    StatusCastsRoundTrip(ContactStatus.Accepted, req.status);
  }

  // ---------------------------------------------------------------------
  // Deleting

  /** After a deletion the relationship is gone: reading it again is
      NotFound for any signed-in user. */
  lemma DeletedContactIsGone(principal: Option<UserId>, users: seq<User>, t: Table, id: int,
                             principal2: Option<UserId>)
    requires Valid(t)
    requires DeleteContact(principal, users, t, id).response.NoContent?
    ensures var t1 := DeleteContact(principal, users, t, id).table;
      && (CurrentUser(principal2, users).Some? ==> GetContact(principal2, users, t1, id).NotFound?)
      && !GetContact(principal2, users, t1, id).Ok?
  {
  }

  /** After a deletion the two users may send each other a new request. */
  lemma {:induction false} DeleteAllowsNewRequest(principal: Option<UserId>, users: seq<User>, t: Table, id: int,
                                                 principal2: Option<UserId>, req: SendContactRequestDto,
                                                 freshId: int, now: Instant)
    requires Valid(t)
    requires DeleteContact(principal, users, t, id).response.NoContent?
    requires CurrentUser(principal2, users).Some? && RequiredPresent(req.receiverId)
    requires FindUser(users, req.receiverId.value).Some?
    requires var c := t[FindContact(t, id).value];
      Links(c, Sender(principal2, users), req.receiverId.value)
    ensures var t1 := DeleteContact(principal, users, t, id).table;
      SendContactRequest(principal2, users, t1, req, freshId, now).response.Created?
  {
    var k := FindContact(t, id).value;
    var t1 := DeleteContact(principal, users, t, id).table;
    var x := Sender(principal2, users);
    var y := req.receiverId.value;
    assert x != y;
    forall j | 0 <= j < |t1| ensures !Links(t1[j], x, y) {
      assert t1[j] == t[if j < k then j else j + 1];
    }
  }

  // ---------------------------------------------------------------------
  // The table invariant over any run

  /** One request to the contacts API that can change the table. */
  datatype Step =
    | SendStep(principal: Option<UserId>, req: SendContactRequestDto, now: Instant)
    | UpdateStep(principal: Option<UserId>, id: int, status: UpdateContactRequestDto, now: Instant)
    | DeleteStep(principal: Option<UserId>, id: int)

  /** Every id is below the next value of the auto-increment counter. */
  predicate IdsBelow(t: Table, next: int) {
    forall k :: 0 <= k < |t| ==> t[k].id < next
  }

  /** The table and counter after one step: a created row takes the
      counter's value and advances it. */
  function Apply(users: seq<User>, t: Table, next: int, s: Step): (Table, int) {
    match s
    case SendStep(p, req, now) =>
      var r := SendContactRequest(p, users, t, req, next, now);
      if r.response.Created? then (r.table, next + 1) else (t, next)
    case UpdateStep(p, id, req, now) => (UpdateContact(p, users, t, id, req, now).table, next)
    case DeleteStep(p, id) => (DeleteContact(p, users, t, id).table, next)
  }

  /** The table after a run of steps. */
  function Run(users: seq<User>, t: Table, next: int, steps: seq<Step>): Table
    decreases |steps|
  {
    if steps == [] then t
    else
      var (t1, next1) := Apply(users, t, next, steps[0]);
      Run(users, t1, next1, steps[1..])
  }

  /** One step keeps the table valid and its ids below the counter. */
  lemma ApplyPreservesValid(users: seq<User>, t: Table, next: int, s: Step)
    requires Valid(t) && IdsBelow(t, next)
    ensures Valid(Apply(users, t, next, s).0) && IdsBelow(Apply(users, t, next, s).0, Apply(users, t, next, s).1)
  {
    match s
    case SendStep(p, req, now) =>
      assert next !in Ids(t);
    case UpdateStep(p, id, req, now) =>
      var r := UpdateContact(p, users, t, id, req, now);
      if r.response.Ok? {
        var a := Authorize(p, users, t, id);
        assert r.table[a.index].id == t[a.index].id;
      }
    case DeleteStep(p, id) =>
      var r := DeleteContact(p, users, t, id);
      forall k | 0 <= k < |r.table| ensures r.table[k].id < next {
        assert multiset(r.table)[r.table[k]] > 0;
        assert r.table[k] in t;
      }
  }

  /** Any run of requests keeps the table valid: unique ids, no self
      pairs, at most one row per pair of users. */
  lemma {:induction false} RunPreservesValid(users: seq<User>, t: Table, next: int, steps: seq<Step>)
    requires Valid(t) && IdsBelow(t, next)
    ensures Valid(Run(users, t, next, steps))
    decreases |steps|
  {
    if steps != [] {
      ApplyPreservesValid(users, t, next, steps[0]);
      var (t1, next1) := Apply(users, t, next, steps[0]);
      RunPreservesValid(users, t1, next1, steps[1..]);
    }
  }

  // ---------------------------------------------------------------------
  // Profiles

  /** A ContactsOnly profile is shown to an accepted contact, without the
      email, and refused to a signed-in stranger. */
  lemma ContactsOnlyProfile(principal: Option<UserId>, users: seq<User>, t: Table, targetId: UserId)
    requires CurrentUser(principal, users).Some?
    requires FindUser(users, targetId).Some? && FindUser(users, targetId).value.visibility == ProfileVisibility.ContactsOnly
    requires Sender(principal, users) != targetId
    ensures var r := Profiles.GetUserProfile(principal, users, t, targetId);
      && (Profiles.AreUsersContacts(t, Sender(principal, users), targetId) ==> r.Ok? && r.value.email.None?)
      && (!Profiles.AreUsersContacts(t, Sender(principal, users), targetId) ==> r.Forbidden?)
  {
  }

  /** A Public profile is shown to anyone, signed in or not, and its email
      is left in for every viewer. */
  lemma PublicProfileKeepsEmail(principal: Option<UserId>, users: seq<User>, t: Table, targetId: UserId)
    requires FindUser(users, targetId).Some? && FindUser(users, targetId).value.visibility == ProfileVisibility.Public
    ensures var r := Profiles.GetUserProfile(principal, users, t, targetId);
      r.Ok? && r.value.email == FindUser(users, targetId).value.email
    ensures Profiles.GetUserProfileGuarded(principal, users, t, targetId)
         == Profiles.GetUserProfile(principal, users, t, targetId)
  {
  }

  // ---------------------------------------------------------------------
  // Counterexamples behind the findings

  const Alice := User("alice", Some("alice"), Some("alice@example.com"), None, None, None, ProfileVisibility.Public)
  const Bob := User("bob", Some("bob"), Some("bob@example.com"), None, None, None, ProfileVisibility.ContactsOnly)

  /** The two sample users are told apart by id. */
  lemma SampleUsersFound()
    ensures FindUser([Alice, Bob], "bob") == Some(Bob)
    ensures FindUser([Alice, Bob], "alice") == Some(Alice)
    ensures FindUser([Alice, Bob], "carol") == None
  {
    var users := [Alice, Bob];
    assert "alice"[0] != "bob"[0] && "carol"[0] != "bob"[0] && "carol"[0] != "alice"[0];
    assert users[1].id == "bob" && users[0].id == "alice";
  }

  /** The requester of a pending request tries to accept it: the handler
      as written crashes where the corrected one answers 403. */
  lemma RequesterAcceptCrashes()
    ensures var t := [NewContact(1, "alice", "bob", 0)];
      var req := UpdateContactRequestDto(ContactStatusDto.Accepted);
      && UpdateContactAsWritten(Some("alice"), [Alice, Bob], t, 1, req, 5).response == Crash(InvalidOperation)
      && UpdateContact(Some("alice"), [Alice, Bob], t, 1, req, 5).response == Forbidden
  {
    var t := [NewContact(1, "alice", "bob", 0)];
    assert FindContact(t, 1) == Some(0);
    SampleUsersFound();
  }

  /** Alice sends Bob a request: the handler as written saves the row and
      then crashes where the corrected one answers 201, and Alice's retry
      of the same request is answered with Conflict. */
  lemma SendCrashesAfterSaving()
    ensures var req := SendContactRequestDto(Some("bob"));
      var r := SendContactRequestAsWritten(Some("alice"), [Alice, Bob], [], req, 1, 0);
      && r.response == Crash(InvalidOperation)
      && r.table == [NewContact(1, "alice", "bob", 0)]
      && SendContactRequest(Some("alice"), [Alice, Bob], [], req, 1, 0).response.Created?
      && SendContactRequestAsWritten(Some("alice"), [Alice, Bob], r.table, req, 2, 3).response
         == Conflict(AlreadyExistsMessage)
  {
    SampleUsersFound();
    var req := SendContactRequestDto(Some("bob"));
    assert !Text.IsWhiteSpace("bob"[0]);
    assert RequiredPresent(req.receiverId);
    assert CurrentUser(Some("alice"), [Alice, Bob]) == Some(Alice);
    assert "alice" != "bob" by { assert "alice"[0] != "bob"[0]; }
    var sent := SendContactRequest(Some("alice"), [Alice, Bob], [], req, 1, 0);
    assert sent.response.Created?;
    var t1 := [NewContact(1, "alice", "bob", 0)];
    assert sent.table == t1;
    assert Links(t1[0], "alice", "bob");
  }

  /** Whenever the handler as written crashes, the request it crashed on
      was stored: repeating it is answered with Conflict. */
  lemma CrashedSendIsStored(principal: Option<UserId>, users: seq<User>, t: Table,
                            req: SendContactRequestDto, freshId: int, now: Instant, freshId2: int, now2: Instant)
    requires SendContactRequestAsWritten(principal, users, t, req, freshId, now).response.Crash?
    ensures var t1 := SendContactRequestAsWritten(principal, users, t, req, freshId, now).table;
      && t1 == SendContactRequest(principal, users, t, req, freshId, now).table
      && SendContactRequestAsWritten(principal, users, t1, req, freshId2, now2).response == Conflict(AlreadyExistsMessage)
  {
    SecondRequestConflicts(principal, users, t, req, freshId, now, principal, req, freshId2, now2);
  }

  /** The handler, called without a current user, is asked for a
      ContactsOnly profile: as written it dereferences the missing user
      where the corrected one answers 403. Over HTTP `[Authorize]` turns
      such callers away first; the next lemma is the request that gets
      through. */
  lemma AnonymousContactsOnlyCrashes()
    ensures Profiles.GetUserProfile(None, [Alice, Bob], [], "bob") == Crash(NullReference)
    ensures Profiles.GetUserProfileGuarded(None, [Alice, Bob], [], "bob") == Forbidden
  {
    SampleUsersFound();
  }

  /** The same request made with a valid claim whose account no longer
      exists passes `[Authorize]` and reaches the same dereference; the
      corrected handler answers 403. */
  lemma DeletedAccountContactsOnlyCrashes()
    ensures Profiles.GetUserProfile(Some("carol"), [Alice, Bob], [], "bob") == Crash(NullReference)
    ensures Profiles.GetUserProfileGuarded(Some("carol"), [Alice, Bob], [], "bob") == Forbidden
  {
    SampleUsersFound();
  }
}
