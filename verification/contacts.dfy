/** The contacts API: user search, the viewer's contact list, sending a
    contact request, and reading, re-stating and deleting one relationship.
    The contacts table is a sequence in storage order; each handler is a
    function of the request's identity claim, the user store, the table and
    its inputs, returning the response (and the table it leaves behind). */
module Contacts {
  import opened Base
  import opened Data
  import opened Models
  import opened Http
  import Text
  import Sorting

  /** The contacts table, in storage order. */
  type Table = seq<Contact>

  /** A handler's response together with the table it leaves behind. */
  datatype Reply<+T> = Reply(response: Response<T>, table: Table)

  /** `c` relates `a` and `b`, in either direction. */
  predicate Links(c: Contact, a: UserId, b: UserId) {
    (c.requesterId == a && c.receiverId == b) || (c.requesterId == b && c.receiverId == a)
  }

  /** `v` is one of the two parties of `c`. */
  predicate Involves(c: Contact, v: UserId) {
    c.requesterId == v || c.receiverId == v
  }

  function Ids(t: Table): set<int> {
    set c | c in t :: c.id
  }

  /** The table invariant: ids are unique, nobody is their own contact, and
      at most one row exists for any unordered pair of users. */
  predicate Valid(t: Table) {
    && (forall i, j :: 0 <= i < |t| && 0 <= j < |t| && i != j ==> t[i].id != t[j].id)
    && (forall i :: 0 <= i < |t| ==> t[i].requesterId != t[i].receiverId)
    && (forall i, j :: 0 <= i < |t| && 0 <= j < |t| && i != j ==> !Links(t[j], t[i].requesterId, t[i].receiverId))
  }

  /** The row with id `id` (`FirstOrDefault(c => c.Id == id)`). */
  function FindContact(t: Table, id: int): (r: Option<nat>)
    ensures r.Some? ==> r.value < |t| && t[r.value].id == id
    ensures r.None? <==> id !in Ids(t)
  {
    var r := FirstIndex(t, (c: Contact) => c.id == id);
    assert r.Some? ==> t[r.value] in t;
    r
  }

  /** The first row relating `a` and `b`, in either direction. */
  function FindLink(t: Table, a: UserId, b: UserId): (r: Option<nat>)
    ensures r.Some? ==> r.value < |t| && Links(t[r.value], a, b)
    ensures r.None? <==> forall k :: 0 <= k < |t| ==> !Links(t[k], a, b)
  {
    FirstIndex(t, (c: Contact) => Links(c, a, b))
  }

  /** In a valid table the row relating two users, if any, is unique. */
  lemma LinkIsUnique(t: Table, a: UserId, b: UserId, k: nat)
    requires Valid(t) && k < |t| && Links(t[k], a, b)
    ensures FindLink(t, a, b) == Some(k)
  {
    var f := FindLink(t, a, b).value;
    if f != k {
      assert false;
    }
  }

  /** In a valid table the row with a given id, if any, is unique. */
  lemma ContactIsUnique(t: Table, k: nat)
    requires Valid(t) && k < |t|
    ensures FindContact(t, t[k].id) == Some(k)
  {
  }

  // ---------------------------------------------------------------------
  // Transfer objects built from rows

  /** The row as a `ContactRequestDto`. */
  function RequestDtoOf(c: Contact): (d: ContactRequestDto)
    ensures RowOfRequestDto(d) == c
  {
    StatusCastsRoundTrip(c.status, ContactStatusDto.Pending);
    ContactRequestDto(c.id, c.requesterId, c.receiverId, ToStatusDto(c.status), c.createdAt, c.updatedAt)
  }

  /** The row a `ContactRequestDto` describes. */
  function RowOfRequestDto(d: ContactRequestDto): Contact {
    Contact(d.id, d.requesterId, d.receiverId, FromStatusDto(d.status), d.createdAt, d.updatedAt)
  }

  /** The row as an entry of viewer `v`'s contact list: the other party, and
      whether `v` sent the request. */
  function ContactDtoFor(c: Contact, v: UserId): (d: ContactDto)
    ensures d.isRequester <==> c.requesterId == v
    ensures Involves(c, v) ==> RowOfContactDto(d, v) == c
  {
    StatusCastsRoundTrip(c.status, ContactStatusDto.Pending);
    var isRequester := c.requesterId == v;
    ContactDto(c.id, if isRequester then c.receiverId else c.requesterId,
               ToStatusDto(c.status), c.createdAt, c.updatedAt, isRequester)
  }

  /** The row an entry of viewer `v`'s contact list stands for. */
  function RowOfContactDto(d: ContactDto, v: UserId): Contact {
    if d.isRequester then Contact(d.id, v, d.userId, FromStatusDto(d.status), d.createdAt, d.updatedAt)
    else Contact(d.id, d.userId, v, FromStatusDto(d.status), d.createdAt, d.updatedAt)
  }

  function RowsOf(ds: seq<ContactDto>, v: UserId): (rows: seq<Contact>)
    ensures |rows| == |ds|
    ensures forall k :: 0 <= k < |ds| ==> rows[k] == RowOfContactDto(ds[k], v)
  {
    seq(|ds|, k requires 0 <= k < |ds| => RowOfContactDto(ds[k], v))
  }

  // ---------------------------------------------------------------------
  // Search (POST contacts/search)

  /** The search term: the query lower-cased, then trimmed. */
  function SearchTerm(query: string): string {
    Text.Trim(Text.ToLower(query))
  }

  /** A non-null field whose lower-cased form contains the term. */
  predicate FieldMatches(field: Option<string>, term: string) {
    field.Some? && Text.Contains(Text.ToLower(field.value), term)
  }

  /** A user the search selects for viewer `v`: someone else whose display
      name, user name or email matches. */
  predicate Selected(u: User, v: UserId, term: string) {
    u.id != v && (FieldMatches(u.displayName, term) || FieldMatches(u.userName, term) || FieldMatches(u.email, term))
  }

  /** All users the search selects, in storage order, before the limit applies. */
  function Candidates(users: seq<User>, v: UserId, term: string): (r: seq<User>)
    ensures |r| <= |users|
    ensures forall u :: u in r <==> u in users && Selected(u, v, term)
  {
    if |users| == 0 then []
    else
      var init := users[..|users| - 1];
      var last := users[|users| - 1];
      assert users == init + [last];
      if Selected(last, v, term) then Candidates(init, v, term) + [last] else Candidates(init, v, term)
  }

  /** Scanning a prefix of the users selects a prefix of the candidates. */
  lemma {:induction false} CandidatesOfPrefix(users: seq<User>, v: UserId, term: string, i: nat)
    requires i <= |users|
    ensures Candidates(users[..i], v, term) <= Candidates(users, v, term)
    decreases |users|
  {
    if i < |users| {
      var init := users[..|users| - 1];
      assert init[..i] == users[..i];
      CandidatesOfPrefix(init, v, term, i);
    } else {
      assert users[..i] == users;
    }
  }

  /** Scanning one more user adds it to the candidates when it is selected. */
  lemma CandidatesStep(users: seq<User>, v: UserId, term: string, i: nat)
    requires i < |users|
    ensures Candidates(users[..i + 1], v, term)
         == Candidates(users[..i], v, term) + (if Selected(users[i], v, term) then [users[i]] else [])
  {
    assert users[..i + 1][..i] == users[..i];
  }

  /** A selected user annotated with viewer `v`'s relationship to them. */
  function Annotate(u: User, v: UserId, t: Table): (d: UserSearchResultDto)
    ensures d.userId == u.id && d.userName == u.userName && d.displayName == u.displayName
    ensures d.email == u.email && d.avatarUrl == u.avatarUrl
    ensures d.contactId.None? <==> d.contactStatus.None?
    ensures d.contactId.None? <==> forall k :: 0 <= k < |t| ==> !Links(t[k], v, u.id)
    ensures d.contactId.Some? ==>
      var k := FindLink(t, v, u.id).value;
      d.contactId.value == t[k].id && d.contactStatus.value == ToStatusDto(t[k].status)
  {
    var link := FindLink(t, v, u.id);
    UserSearchResultDto(u.id, u.userName, u.displayName, u.email, u.avatarUrl,
                        if link.Some? then Some(ToStatusDto(t[link.value].status)) else None,
                        if link.Some? then Some(t[link.value].id) else None)
  }

  /** What every search result promises viewer `v`: it is someone else,
      one of its name fields contains the term, and it carries a contact
      id and status exactly when some row relates `v` and that user. */
  predicate ResultSound(d: UserSearchResultDto, v: UserId, term: string, t: Table) {
    && d.userId != v
    && (FieldMatches(d.displayName, term) || FieldMatches(d.userName, term) || FieldMatches(d.email, term))
    && (d.contactId.None? <==> d.contactStatus.None?)
    && (d.contactId.None? <==> forall k :: 0 <= k < |t| ==> !Links(t[k], v, d.userId))
  }

  lemma CandidateResultSound(users: seq<User>, v: UserId, term: string, t: Table, u: User)
    requires u in Candidates(users, v, term)
    ensures ResultSound(Annotate(u, v, t), v, term, t)
  {
  }

  /** A query of white space alone trims to the empty term, which every
      string contains: such a query selects every other user with at least
      one of the three fields present. Model validation refuses such a
      query before the search runs. */
  lemma BlankQuerySelectsEveryone(q: string, u: User, v: UserId)
    requires Text.AllWhiteSpace(q)
    ensures Selected(u, v, SearchTerm(q)) <==>
      u.id != v && (u.displayName.Some? || u.userName.Some? || u.email.Some?)
  {
    Text.ToLowerKeepsWhiteSpace(q);
    assert SearchTerm(q) == [];
    if u.displayName.Some? { Text.EmptyOccursEverywhere(Text.ToLower(u.displayName.value)); }
    if u.userName.Some? { Text.EmptyOccursEverywhere(Text.ToLower(u.userName.value)); }
    if u.email.Some? { Text.EmptyOccursEverywhere(Text.ToLower(u.email.value)); }
  }

  /** The first `limit` users the search selects, annotated (`Take(limit)`
      over the filtered users, then the projection to result objects). */
  method TakeSelected(users: seq<User>, v: UserId, term: string, t: Table, limit: int)
    returns (results: seq<UserSearchResultDto>)
    ensures |results| == Min(if limit < 0 then 0 else limit, |Candidates(users, v, term)|)
    ensures forall k :: 0 <= k < |results| ==> results[k] == Annotate(Candidates(users, v, term)[k], v, t)
  {
    var n := if limit < 0 then 0 else limit;
    results := [];
    var i := 0;
    while i < |users| && |results| < n
      invariant 0 <= i <= |users|
      invariant |results| == |Candidates(users[..i], v, term)| <= n
      invariant forall k :: 0 <= k < |results| ==> results[k] == Annotate(Candidates(users[..i], v, term)[k], v, t)
    {
      CandidatesStep(users, v, term, i);
      if Selected(users[i], v, term) {
        results := results + [Annotate(users[i], v, t)];
      }
      i := i + 1;
    }
    CandidatesOfPrefix(users, v, term, i);
    if i == |users| {
      assert users[..i] == users;
    }
  }

  /** `SearchUsersAsync`: model validation, then the current user, then the
      first `limit` selected users in storage order, each annotated with the
      viewer's relationship to them. */
  method SearchUsers(principal: Option<UserId>, users: seq<User>, t: Table, req: ContactSearchRequest)
    returns (r: Response<seq<UserSearchResultDto>>)
    ensures r.Ok? || r.BadRequest? || r.Unauthorized?
    ensures r.BadRequest? <==> !ValidSearchRequest(req)
    ensures r.BadRequest? ==> r.errors == ValidateSearch(req)
    ensures r.Unauthorized? <==> ValidSearchRequest(req) && CurrentUser(principal, users).None?
    ensures r.Ok? ==>
      var v := CurrentUser(principal, users).value.id;
      var found := Candidates(users, v, SearchTerm(req.query.value));
      && |r.value| == Min(req.limit, |found|)
      && forall k :: 0 <= k < |r.value| ==> r.value[k] == Annotate(found[k], v, t)
    ensures r.Ok? ==>
      && |r.value| <= req.limit
      && forall d :: d in r.value ==>
           ResultSound(d, CurrentUser(principal, users).value.id, SearchTerm(req.query.value), t)
  {
    var errors := ValidateSearch(req);
    if errors != [] {
      return BadRequest(errors);
    }
    var current := CurrentUser(principal, users);
    if current.None? {
      return Unauthorized;
    }
    var v := current.value.id;
    var term := SearchTerm(req.query.value);
    var results := TakeSelected(users, v, term, t, req.limit);
    ghost var found := Candidates(users, v, term);
    forall d | d in results
      ensures ResultSound(d, v, term, t)
    {
      var k :| 0 <= k < |results| && results[k] == d;
      CandidateResultSound(users, v, term, t, found[k]);
    }
    return Ok(results);
  }

  // ---------------------------------------------------------------------
  // Contact list (GET contacts)

  /** The rows `v` is a party to, with their multiplicities in `t`. */
  function Involving(t: Table, v: UserId): (r: seq<Contact>)
    ensures forall c :: multiset(r)[c] == if Involves(c, v) then multiset(t)[c] else 0
  {
    if |t| == 0 then []
    else
      assert t == [t[0]] + t[1..];
      if Involves(t[0], v) then [t[0]] + Involving(t[1..], v) else Involving(t[1..], v)
  }

  function UpdatedAt(c: Contact): int {
    c.updatedAt
  }

  /** The viewer's rows, most recently updated first. */
  function ContactRows(t: Table, v: UserId): (rows: seq<Contact>)
    ensures forall c :: multiset(rows)[c] == if Involves(c, v) then multiset(t)[c] else 0
    ensures forall i, j :: 0 <= i < j < |rows| ==> rows[i].updatedAt >= rows[j].updatedAt
    ensures forall k :: 0 <= k < |rows| ==> Involves(rows[k], v)
  {
    var rows := Sorting.SortDescending(Involving(t, v), UpdatedAt);
    assert forall k :: 0 <= k < |rows| ==> Involves(rows[k], v) by {
      forall k | 0 <= k < |rows| ensures Involves(rows[k], v) {
        assert multiset(rows)[rows[k]] > 0;
      }
    }
    rows
  }

  /** The viewer's rows as contact-list entries, in the same order. */
  function ContactEntries(rows: seq<Contact>, v: UserId): (ds: seq<ContactDto>)
    requires forall k :: 0 <= k < |rows| ==> Involves(rows[k], v)
    ensures RowsOf(ds, v) == rows
    ensures forall k :: 0 <= k < |ds| ==> ds[k].updatedAt == rows[k].updatedAt
    ensures forall k :: 0 <= k < |ds| ==> (ds[k].isRequester <==> rows[k].requesterId == v)
  {
    seq(|rows|, k requires 0 <= k < |rows| => ContactDtoFor(rows[k], v))
  }

  /** `GetContactsAsync`: the rows the viewer is a party to, most recently
      updated first, each seen from the viewer's side. */
  function GetContacts(principal: Option<UserId>, users: seq<User>, t: Table): (r: Response<seq<ContactDto>>)
    ensures r.Ok? || r.Unauthorized?
    ensures r.Unauthorized? <==> CurrentUser(principal, users).None?
    ensures r.Ok? ==>
      var v := CurrentUser(principal, users).value.id;
      var rows := RowsOf(r.value, v);
      && (forall c :: multiset(rows)[c] == if Involves(c, v) then multiset(t)[c] else 0)
      && (forall i, j :: 0 <= i < j < |r.value| ==> r.value[i].updatedAt >= r.value[j].updatedAt)
      && (forall i :: 0 <= i < |r.value| ==> (r.value[i].isRequester <==> rows[i].requesterId == v))
  {
    var current := CurrentUser(principal, users);
    if current.None? then Unauthorized
    else
      var v := current.value.id;
      Ok(ContactEntries(ContactRows(t, v), v))
  }

  // ---------------------------------------------------------------------
  // Sending a request (POST contacts/requests)

  const SelfRequestMessage := "Cannot send contact request to yourself"
  const AlreadyExistsMessage := "Contact relationship already exists"

  /** `SendContactRequestAsync`: model validation, then the current user,
      then the receiver's existence, then self-requests, then an existing
      row in either direction; only when all pass is one Pending row added. */
  function SendContactRequest(principal: Option<UserId>, users: seq<User>, t: Table,
                              req: SendContactRequestDto, freshId: int, now: Instant): (r: Reply<ContactRequestDto>)
    ensures !r.response.Created? ==> r.table == t
    ensures !RequiredPresent(req.receiverId) ==> r.response == BadRequest([ReceiverRequiredMessage])
    ensures RequiredPresent(req.receiverId) && CurrentUser(principal, users).None? ==> r.response.Unauthorized?
    ensures RequiredPresent(req.receiverId) && CurrentUser(principal, users).Some? ==>
      var v := CurrentUser(principal, users).value.id;
      var target := req.receiverId.value;
      && (FindUser(users, target).None? ==> r.response.NotFound?)
      && (FindUser(users, target).Some? && v == target ==> r.response == BadRequest([SelfRequestMessage]))
      && (FindUser(users, target).Some? && v != target && FindLink(t, v, target).Some? ==>
            r.response == Conflict(AlreadyExistsMessage))
      && (r.response.Created? <==>
            FindUser(users, target).Some? && v != target && forall k :: 0 <= k < |t| ==> !Links(t[k], v, target))
      && (r.response.Created? ==>
            && r.table == t + [NewContact(freshId, v, target, now)]
            && RowOfRequestDto(r.response.value) == NewContact(freshId, v, target, now))
    ensures r.response.Created? || r.response.BadRequest? || r.response.Unauthorized?
         || r.response.NotFound? || r.response.Conflict?
    ensures Valid(t) && freshId !in Ids(t) ==> Valid(r.table)
  {
    var errors := ValidateSendRequest(req);
    if errors != [] then Reply(BadRequest(errors), t)
    else
      var current := CurrentUser(principal, users);
      if current.None? then Reply(Unauthorized, t)
      else
        var v := current.value.id;
        var target := FindUser(users, req.receiverId.value);
        if target.None? then Reply(NotFound, t)
        else if v == target.value.id then Reply(BadRequest([SelfRequestMessage]), t)
        else if FindLink(t, v, target.value.id).Some? then Reply(Conflict(AlreadyExistsMessage), t)
        else
          var row := NewContact(freshId, v, target.value.id, now);
          Reply(Created(RequestDtoOf(row)), t + [row])
  }

  /** `SendContactRequestAsync` as written. Its success answer is
      `CreatedAtAction(nameof(GetContactAsync), …)`, but by default MVC
      strips the `Async` suffix from action names, so the read handler is
      routed as `GetContact`: no route matches, and executing the result
      throws `InvalidOperationException`. The row has been saved by then.
      Every refusal is that of `SendContactRequest`. */
  function SendContactRequestAsWritten(principal: Option<UserId>, users: seq<User>, t: Table,
                                       req: SendContactRequestDto, freshId: int, now: Instant)
    : (r: Reply<ContactRequestDto>)
    ensures !r.response.Crash? <==> !SendContactRequest(principal, users, t, req, freshId, now).response.Created?
    ensures r.response.Crash? ==>
      && r.response.exception == InvalidOperation
      && |r.table| == |t| + 1 && r.table[..|t|] == t
      && r.table[|t|] == NewContact(freshId, CurrentUser(principal, users).value.id, req.receiverId.value, now)
    ensures !r.response.Crash? ==> r == SendContactRequest(principal, users, t, req, freshId, now)
  {
    var sent := SendContactRequest(principal, users, t, req, freshId, now);
    if sent.response.Created? then
      assert sent.table[..|t|] == t;
      Reply(Crash(InvalidOperation), sent.table)
    else sent
  }

  // ---------------------------------------------------------------------
  // One relationship (GET, PUT, DELETE contacts/{id})

  /** The common prefix of the three handlers: a current user, a row with
      that id, and the current user being one of its parties. */
  datatype Access = Granted(index: nat) | NoUser | NoSuchContact | NotAParty

  function Authorize(principal: Option<UserId>, users: seq<User>, t: Table, id: int): (a: Access)
    ensures CurrentUser(principal, users).None? ==> a.NoUser?
    ensures CurrentUser(principal, users).Some? && id !in Ids(t) ==> a.NoSuchContact?
    ensures CurrentUser(principal, users).Some? && id in Ids(t) ==>
      var k := FindContact(t, id).value;
      (a.NotAParty? <==> !Involves(t[k], CurrentUser(principal, users).value.id))
    ensures a.Granted? ==>
      && CurrentUser(principal, users).Some?
      && a.index < |t| && t[a.index].id == id
      && Involves(t[a.index], CurrentUser(principal, users).value.id)
      && a == Granted(FindContact(t, id).value)
    ensures (CurrentUser(principal, users).Some? && id in Ids(t)
             && Involves(t[FindContact(t, id).value], CurrentUser(principal, users).value.id)) ==>
      a == Granted(FindContact(t, id).value)
  {
    var current := CurrentUser(principal, users);
    if current.None? then NoUser
    else
      var k := FindContact(t, id);
      if k.None? then NoSuchContact
      else if !Involves(t[k.value], current.value.id) then NotAParty
      else Granted(k.value)
  }

  /** The response a refused access produces. */
  function Denial<T>(a: Access): (r: Response<T>)
    requires !a.Granted?
    ensures r.Unauthorized? <==> a.NoUser?
    ensures r.NotFound? <==> a.NoSuchContact?
    ensures r.Forbidden? <==> a.NotAParty?
  {
    match a
    case NoUser => Unauthorized
    case NoSuchContact => NotFound
    case NotAParty => Forbidden
  }

  /** `GetContactAsync`. */
  function GetContact(principal: Option<UserId>, users: seq<User>, t: Table, id: int): (r: Response<ContactRequestDto>)
    ensures var a := Authorize(principal, users, t, id);
      && (!a.Granted? ==> r == Denial(a))
      && (a.Granted? ==> r.Ok? && RowOfRequestDto(r.value) == t[a.index])
    ensures r.Ok? ==>
      && RowOfRequestDto(r.value) in t
      && RowOfRequestDto(r.value).id == id
      && Involves(RowOfRequestDto(r.value), CurrentUser(principal, users).value.id)
  {
    var a := Authorize(principal, users, t, id);
    if !a.Granted? then Denial(a) else Ok(RequestDtoOf(t[a.index]))
  }

  /** The status-transition rule: no row returns to Pending, and only its
      receiver may accept or reject a pending request. Everything else,
      blocking by either party and any change out of Accepted, Rejected
      or Blocked included, is allowed. */
  predicate TransitionAllowed(row: Contact, actor: UserId, to: ContactStatus) {
    && to != ContactStatus.Pending
    && ((row.status == ContactStatus.Pending && (to == ContactStatus.Accepted || to == ContactStatus.Rejected))
          ==> row.receiverId == actor)
  }

  const BackToPendingMessage := "Cannot set status back to pending"

  /** `UpdateContactAsync` with the receiver-only refusal answered by 403.
      Access is checked first, then a request for Pending, then the
      receiver-only rule; on success only that row's status and update time
      change. */
  function UpdateContact(principal: Option<UserId>, users: seq<User>, t: Table, id: int,
                         req: UpdateContactRequestDto, now: Instant): (r: Reply<ContactRequestDto>)
    ensures !r.response.Ok? ==> r.table == t
    ensures var a := Authorize(principal, users, t, id);
      && (!a.Granted? ==> r.response == Denial(a))
      && (a.Granted? && req.status == ContactStatusDto.Pending ==> r.response == BadRequest([BackToPendingMessage]))
      && (a.Granted? && req.status != ContactStatusDto.Pending ==>
            var allowed := TransitionAllowed(t[a.index], CurrentUser(principal, users).value.id, FromStatusDto(req.status));
            && (allowed ==> r.response.Ok?)
            && (!allowed ==> r.response.Forbidden?))
      && (r.response.Ok? ==>
            && a.Granted?
            && |r.table| == |t|
            && r.table[a.index] == t[a.index].(status := FromStatusDto(req.status), updatedAt := now)
            && (forall k :: 0 <= k < |t| && k != a.index ==> r.table[k] == t[k])
            && RowOfRequestDto(r.response.value) == r.table[a.index])
    ensures Valid(t) ==> Valid(r.table)
  {
    var a := Authorize(principal, users, t, id);
    if !a.Granted? then Reply(Denial(a), t)
    else
      var v := CurrentUser(principal, users).value.id;
      var row := t[a.index];
      if req.status == ContactStatusDto.Pending then Reply(BadRequest([BackToPendingMessage]), t)
      else if row.status == ContactStatus.Pending
           && (req.status == ContactStatusDto.Accepted || req.status == ContactStatusDto.Rejected)
           && row.receiverId != v
      then Reply(Forbidden, t)
      else
        var updated := row.(status := FromStatusDto(req.status), updatedAt := now);
        Reply(Ok(RequestDtoOf(updated)), t[a.index := updated])
  }

  /** The receiver-only guard refuses the request: a party other than the
      receiver asks to accept or reject a pending request. */
  predicate ReceiverOnlyRefusal(principal: Option<UserId>, users: seq<User>, t: Table, id: int,
                                req: UpdateContactRequestDto) {
    var a := Authorize(principal, users, t, id);
    && a.Granted?
    && t[a.index].status == ContactStatus.Pending
    && (req.status == ContactStatusDto.Accepted || req.status == ContactStatusDto.Rejected)
    && t[a.index].receiverId != CurrentUser(principal, users).value.id
  }

  /** `UpdateContactAsync` as written: the receiver-only refusal is
      `Forbid(message)`, which names an authentication scheme rather than
      carrying a message, so executing it throws because no such scheme is
      registered. Every other outcome is that of `UpdateContact`. */
  function UpdateContactAsWritten(principal: Option<UserId>, users: seq<User>, t: Table, id: int,
                                  req: UpdateContactRequestDto, now: Instant): (r: Reply<ContactRequestDto>)
    ensures ReceiverOnlyRefusal(principal, users, t, id, req) ==>
      r.response == Crash(InvalidOperation) && UpdateContact(principal, users, t, id, req, now).response.Forbidden?
    ensures !ReceiverOnlyRefusal(principal, users, t, id, req) ==> r == UpdateContact(principal, users, t, id, req, now)
    ensures r.table == UpdateContact(principal, users, t, id, req, now).table
  {
    if ReceiverOnlyRefusal(principal, users, t, id, req) then Reply(Crash(InvalidOperation), t)
    else UpdateContact(principal, users, t, id, req, now)
  }

  /** `t` without its `k`-th row. */
  function RemoveAt(t: Table, k: nat): (r: Table)
    requires k < |t|
    ensures |r| == |t| - 1
    ensures multiset(r) + multiset{t[k]} == multiset(t)
    ensures forall j :: 0 <= j < |r| ==> r[j] == t[if j < k then j else j + 1]
  {
    assert t == t[..k] + [t[k]] + t[k + 1..];
    t[..k] + t[k + 1..]
  }

  /** Removing a row keeps the table valid. */
  lemma RemovePreservesValid(t: Table, k: nat)
    requires Valid(t) && k < |t|
    ensures Valid(RemoveAt(t, k))
  {
    var r := RemoveAt(t, k);
    forall i, j | 0 <= i < |r| && 0 <= j < |r| && i != j
      ensures r[i].id != r[j].id && !Links(r[j], r[i].requesterId, r[i].receiverId)
    {
      var i' := if i < k then i else i + 1;
      var j' := if j < k then j else j + 1;
      assert r[i] == t[i'] && r[j] == t[j'];
    }
  }

  /** `DeleteContactAsync`: after the access checks, the row is removed
      whatever its status. */
  function DeleteContact(principal: Option<UserId>, users: seq<User>, t: Table, id: int): (r: Reply<()>)
    ensures var a := Authorize(principal, users, t, id);
      && (!a.Granted? ==> r.response == Denial(a) && r.table == t)
      && (a.Granted? ==> r.response.NoContent? && multiset(r.table) + multiset{t[a.index]} == multiset(t))
    ensures r.response.NoContent? && Valid(t) ==>
      && id !in Ids(r.table)
      && forall c :: c in t && c.id != id ==> c in r.table
    ensures Valid(t) ==> Valid(r.table)
  {
    var a := Authorize(principal, users, t, id);
    if !a.Granted? then Reply(Denial(a), t)
    else
      var r := RemoveAt(t, a.index);
      assert Valid(t) ==> Valid(r) by {
        if Valid(t) {
          RemovePreservesValid(t, a.index);
        }
      }
      assert forall c :: c in t && c != t[a.index] ==> c in r by {
        assert forall c :: c in t && c != t[a.index] ==> multiset(t)[c] == multiset(r)[c];
      }
      Reply(NoContent, r)
  }
}
