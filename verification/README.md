# MyChatApp contacts, profiles and avatars in Dafny

A functional model of the contact, profile and avatar logic of MyChatApp,
an ASP.NET chat application.

It covers the following parts:

- The contacts API (`ContactsController`):
  - user search annotated with the viewer's relationship to each result;
  - the viewer's contact list, most recently updated first;
  - sending a contact request;
  - reading, re-stating and deleting one relationship.
- The profile API (`ProfileController`):
  - one's own profile;
  - another user's profile under its visibility setting;
  - the field-wise profile patch.
- The local avatar store (`LocalFileUploadService`):
  - image validation;
  - naming and storing an upload;
  - deleting a file by its URL.
- The entities and transfer objects these use:
  - `Contact` and `ContactStatus`;
  - `ApplicationUser` and `ProfileVisibility`;
  - the API's DTOs and request bodies with their validation attributes.

Each handler is a pure function of its inputs, which are:

- the request's identity claim (`Option<UserId>`);
- the user store (a sequence of `User` records);
- the contacts table (a sequence of `Contact` rows in storage order);
- the request body.

Each handler returns a `Response` with one constructor per HTTP result.
`Crash` stands for an exception that escapes the handler. Handlers that
write return the new table or user store alongside the response.

The contacts table is a sequence rather than a map. `FirstOrDefault`
without an ordering then means "first in storage order", a choice the
database does not promise (see "Left out"). Its invariant
`Contacts.Valid` has three parts:

- ids are unique;
- nobody is their own contact;
- at most one row exists per unordered pair of users.

Runtime-supplied values become parameters:

- the clock is `now`;
- the auto-increment id is `freshId`;
- the avatar GUID is `token`;
- the web root is `webRoot`;
- the file system is a set of paths.

A file-system failure during delete is a boolean parameter. The user
store's own refusal of an update is a list of error descriptions.

Modules, one per file:

| file | module | contents |
|---|---|---|
| base.dfy | `Base` | `Option`, first-match search |
| text.dfy | `Text` | .NET string operations: white space, lower-casing, trimming, substring tests |
| data.dfy | `Data` | the stored entities |
| models.dfy | `Models` | the API's transfer objects, enum casts and validation |
| http.dfy | `Http` | the handler outcome |
| sorting.dfy | `Sorting` | descending sort by key |
| contacts.dfy | `Contacts` | the contacts API |
| profiles.dfy | `Profiles` | the profile API |
| avatars.dfy | `Avatars` | the avatar store |
| scenarios.dfy | `Scenarios` | properties across several requests, and the counterexamples behind the findings |

A Public profile keeps its email for every viewer: the controller strips
the email only from a profile that is not Public and is viewed by someone
other than its owner (`ProfileController.cs:106-110`; see
`Profiles.VisibleProfile` and `Scenarios.PublicProfileKeepsEmail`).

## Model

| member | source | states |
|---|---|---|
| `Base.FirstIndex` | src/MyChatApp.ApiService/Controllers/ContactsController.cs:181-184 | `FirstOrDefault` over a table in storage order: the result satisfies the predicate, no earlier element does, and there is no result exactly when no element satisfies it |
| `Text.ToLower` | src/MyChatApp.ApiService/Controllers/ContactsController.cs:54 | lower-casing keeps the length and maps each character on its own |
| `Text.ToLowerIdempotent` | src/MyChatApp.ApiService/Controllers/ContactsController.cs:59-61 | lower-casing an already lower-cased string changes nothing, so fields and query are compared in one case |
| `Text.Trim` | src/MyChatApp.ApiService/Controllers/ContactsController.cs:54 | `Trim` drops only white space from the ends, is empty exactly for all-white-space input, and leaves no white space at either end |
| `Data.VisibilityCode` | src/MyChatApp.Web/Data/ApplicationUser.cs:32-48 | the three visibility levels carry codes 0, 1, 2; Public is 0 and Private is 2 |
| `Data.NewUser` | src/MyChatApp.Web/Data/ApplicationUser.cs:9-27 | a new user has no display name, bio or avatar and is Public by default |
| `Data.FindUser` | src/MyChatApp.ApiService/Controllers/ProfileController.cs:70 | `FindByIdAsync`: a found user is stored with that id; nothing is found exactly when no stored user has it |
| `Data.CurrentUser` | src/MyChatApp.ApiService/Controllers/ContactsController.cs:48-52 | `GetUserAsync`: a current user exists only for a claim naming a stored user, and always does for one |
| `Data.StatusCodeInjective` | src/MyChatApp.Web/Data/Contact.cs:56-77 | the four statuses have four distinct codes |
| `Data.NewContact` | src/MyChatApp.Web/Data/Contact.cs:9-51 | a new row is Pending and its creation and update times are both the current time |
| `Models.ToStatusDto` | src/MyChatApp.ApiService/Models/Contact.cs:89-95 | the cast to the API status keeps the integer code |
| `Models.FromStatusDto` | src/MyChatApp.ApiService/Models/Contact.cs:89-95 | the cast from the API status keeps the integer code |
| `Models.StatusCastsRoundTrip` | src/MyChatApp.ApiService/Models/Contact.cs:89-95 | the two status casts are inverse to each other, so no status changes crossing the API |
| `Models.ToVisibilityDto` | src/MyChatApp.ApiService/Models/UserProfile.cs:36-41 | the cast to the API visibility keeps the integer code |
| `Models.FromVisibilityDto` | src/MyChatApp.ApiService/Models/UserProfile.cs:36-41 | the cast from the API visibility keeps the integer code |
| `Models.VisibilityCastsRoundTrip` | src/MyChatApp.ApiService/Models/UserProfile.cs:36-41 | the two visibility casts are inverse to each other |
| `Models.SearchRequestFor` | src/MyChatApp.ApiService/Models/Contact.cs:64-65 | a search request without a limit gets the limit 20 |
| `Models.ValidateSearch` | src/MyChatApp.ApiService/Models/Contact.cs:58-66 | a search request is accepted exactly when its query is present and not blank, 1 to 100 characters long, and its limit lies in 1..50; each failed attribute contributes its message |
| `Models.DefaultLimitAccepted` | src/MyChatApp.ApiService/Models/Contact.cs:64-65 | the default limit passes the range check |
| `Models.ValidateSendRequest` | src/MyChatApp.ApiService/Models/Contact.cs:71-75 | a send request is accepted exactly when its receiver id is present and not blank |
| `Models.ValidateProfileUpdate` | src/MyChatApp.ApiService/Models/UserProfile.cs:22-31 | a profile patch is accepted exactly when a present display name has at most 100 characters and a present bio at most 500; each violation contributes its message |
| `Sorting.SortDescending` | src/MyChatApp.ApiService/Controllers/ContactsController.cs:119 | `OrderByDescending`: a permutation of the input whose keys never increase |
| `Contacts.FindContact` | src/MyChatApp.ApiService/Controllers/ContactsController.cs:244-247 | the row found has the requested id; no row is found exactly when the id is not in the table |
| `Contacts.FindLink` | src/MyChatApp.ApiService/Controllers/ContactsController.cs:181-184 | the row found relates the two users in one direction or the other; none is found exactly when no row relates them |
| `Contacts.LinkIsUnique` | src/MyChatApp.ApiService/Controllers/ContactsController.cs:180-189 | in a valid table any row relating two users is the one the lookup finds |
| `Contacts.ContactIsUnique` | src/MyChatApp.ApiService/Controllers/ContactsController.cs:244-252 | in a valid table the lookup by a row's id finds that row |
| `Contacts.RequestDtoOf` | src/MyChatApp.ApiService/Controllers/ContactsController.cs:260-274 | the DTO of a row gives back exactly that row: id, both parties, status, both times |
| `Contacts.ContactDtoFor` | src/MyChatApp.ApiService/Controllers/ContactsController.cs:122-139 | an entry of the viewer's list says the viewer is the requester exactly when they are, and for a row the viewer is party to gives back that row |
| `Contacts.Candidates` | src/MyChatApp.ApiService/Controllers/ContactsController.cs:57-61 | a user is a search candidate exactly when stored, not the viewer, and having a display name, user name or email whose lower-cased form contains the term |
| `Contacts.Annotate` | src/MyChatApp.ApiService/Controllers/ContactsController.cs:72-94 | a search result copies the user's fields; contact id and status are absent together, absent exactly when no row relates viewer and user, and otherwise those of the first such row |
| `Contacts.CandidateResultSound` | src/MyChatApp.ApiService/Controllers/ContactsController.cs:57-93 | every annotated candidate is someone else, matches the term, and carries a relationship exactly when one exists |
| `Contacts.BlankQuerySelectsEveryone` | src/MyChatApp.ApiService/Controllers/ContactsController.cs:54-61 | a white-space query trims to the empty term and would select every other user with any of the three fields present |
| `Contacts.TakeSelected` | src/MyChatApp.ApiService/Controllers/ContactsController.cs:57-63 | `Take(limit)` after the filter: the first `min(limit, candidates)` candidates in storage order, each annotated, and none for a negative limit |
| `Contacts.SearchUsers` | src/MyChatApp.ApiService/Controllers/ContactsController.cs:41-98 | BadRequest with the validation messages exactly for an invalid request, then Unauthorized exactly without a current user; otherwise at most `limit` results, the first candidates in order, each sound for the viewer |
| `Contacts.Involving` | src/MyChatApp.ApiService/Controllers/ContactsController.cs:118 | keeps exactly the rows the viewer is party to, each as often as it occurs |
| `Contacts.ContactRows` | src/MyChatApp.ApiService/Controllers/ContactsController.cs:115-120 | the query behind the list: exactly the viewer's rows, each as often as stored, most recently updated first |
| `Contacts.ContactEntries` | src/MyChatApp.ApiService/Controllers/ContactsController.cs:122-140 | the entries stand for the rows in the same order, keep their update times, and mark the viewer as requester exactly when they are |
| `Contacts.GetContacts` | src/MyChatApp.ApiService/Controllers/ContactsController.cs:107-143 | Unauthorized exactly without a current user; otherwise the entries stand for exactly the viewer's rows, most recently updated first, each marked as sent by the viewer exactly when it was |
| `Contacts.SendContactRequest` | src/MyChatApp.ApiService/Controllers/ContactsController.cs:156-224 | the corrected handler; checks in order: validation, current user, receiver exists (NotFound), not oneself (BadRequest), no row either way (Conflict); Created exactly when all pass, adding one Pending row from viewer to receiver; errors leave the table alone; validity is kept for a fresh id |
| `Contacts.SendContactRequestAsWritten` | src/MyChatApp.ApiService/Controllers/ContactsController.cs:197-223 | as written: where the corrected handler answers Created, this one crashes with `InvalidOperationException` after the new Pending row is already stored; every refusal is the corrected handler's |
| `Contacts.Authorize` | src/MyChatApp.ApiService/Controllers/ContactsController.cs:238-258 | the shared access check: no current user, then unknown id, then not a party, in that order; access is granted to a signed-in party of the row with that id, and only to one |
| `Contacts.Denial` | src/MyChatApp.ApiService/Controllers/ContactsController.cs:249-258 | a missing current user answers Unauthorized, an unknown contact id NotFound, and a user who is not a party Forbidden, each exactly in its case |
| `Contacts.GetContact` | src/MyChatApp.ApiService/Controllers/ContactsController.cs:236-277 | the access refusal, or the row with that id, which involves the viewer |
| `Contacts.UpdateContact` | src/MyChatApp.ApiService/Controllers/ContactsController.cs:291-356 | after access: Pending is refused with BadRequest; a pending request is accepted or rejected by its receiver alone (Forbidden otherwise); on success only that row's status and update time change; validity is kept |
| `Contacts.UpdateContactAsWritten` | src/MyChatApp.ApiService/Controllers/ContactsController.cs:326-332 | where the receiver-only rule refuses, the handler as written crashes; otherwise it behaves as the corrected handler |
| `Contacts.RemoveAt` | src/MyChatApp.ApiService/Controllers/ContactsController.cs:390 | removing one row keeps every other row, in order |
| `Contacts.RemovePreservesValid` | src/MyChatApp.ApiService/Controllers/ContactsController.cs:390-391 | removing a row keeps the table valid |
| `Contacts.DeleteContact` | src/MyChatApp.ApiService/Controllers/ContactsController.cs:368-394 | the access refusal with the table unchanged, or NoContent with exactly that row removed, whatever its status; in a valid table the id is gone, every other row stays, and validity is kept |
| `Profiles.ProfileOf` | src/MyChatApp.ApiService/Controllers/ProfileController.cs:44-53 | the full profile gives back exactly the user record |
| `Profiles.GetMyProfile` | src/MyChatApp.ApiService/Controllers/ProfileController.cs:36-56 | Unauthorized exactly without a current user; otherwise every field of that user, email included |
| `Profiles.AreUsersContacts` | src/MyChatApp.ApiService/Controllers/ProfileController.cs:185-194 | two users are contacts exactly when some Accepted row relates them in either direction |
| `Profiles.AreUsersContactsSymmetric` | src/MyChatApp.ApiService/Controllers/ProfileController.cs:189-190 | being contacts does not depend on argument order |
| `Profiles.AreUsersContactsIffLinkAccepted` | src/MyChatApp.ApiService/Controllers/ProfileController.cs:185-194 | in a valid table two users are contacts exactly when the one row relating them is Accepted |
| `Profiles.VisibleProfile` | src/MyChatApp.ApiService/Controllers/ProfileController.cs:95-110 | a shown profile carries an email only for its owner or a Public profile, and always does for those; every other field is the user's |
| `Profiles.GetUserProfile` | src/MyChatApp.ApiService/Controllers/ProfileController.cs:67-113 | as written: NotFound exactly for an unknown target; Public is shown to all; Private only to its owner; ContactsOnly to its owner and Accepted contacts; a ContactsOnly view without a current user crashes |
| `Profiles.GetUserProfileGuarded` | src/MyChatApp.ApiService/Controllers/ProfileController.cs:85-93 | corrected: shown exactly when Public, to its owner, or ContactsOnly to a signed-in Accepted contact; never a crash |
| `Profiles.ApplyPatch` | src/MyChatApp.ApiService/Controllers/ProfileController.cs:137-151 | each present patch field overwrites, each absent one keeps its value, and id, user name, email and avatar never change |
| `Profiles.PatchIdempotent` | src/MyChatApp.ApiService/Controllers/ProfileController.cs:137-151 | applying the same patch twice is applying it once |
| `Profiles.EmptyPatchIsIdentity` | src/MyChatApp.ApiService/Controllers/ProfileController.cs:137-151 | the empty patch changes nothing |
| `Profiles.PatchesCompose` | src/MyChatApp.ApiService/Controllers/ProfileController.cs:137-151 | two patches in a row act as one merged patch whose later fields win |
| `Profiles.StoreUser` | src/MyChatApp.ApiService/Controllers/ProfileController.cs:153 | after `UpdateAsync(u)` a lookup of `u`'s id finds `u`, a lookup of any other id finds what it found before, records with other ids keep their place, and an unknown id leaves the store alone |
| `Profiles.UpdateMyProfile` | src/MyChatApp.ApiService/Controllers/ProfileController.cs:124-177 | BadRequest with the validation messages, then Unauthorized, then BadRequest with the store's errors; otherwise the patched user is stored, every other user kept, and returned in full |
| `Avatars.ExtensionUnique` | src/MyChatApp.Web/Services/FileUploadService.cs:66 | a path has at most one extension |
| `Avatars.ExtensionScan` | src/MyChatApp.Web/Services/FileUploadService.cs:66 | the backward scan of `Path.GetExtension` finds the extension, or nothing exactly when the path has none |
| `Avatars.GetExtension` | src/MyChatApp.Web/Services/FileUploadService.cs:66 | the result is a '.'-led suffix with no further '.' or separator, or empty exactly when the path ends in '.' or has no '.' after its last separator |
| `Avatars.GetExtensionFindsExtension` | src/MyChatApp.Web/Services/FileUploadService.cs:66 | any suffix shaped like an extension is the extension |
| `Avatars.IsValidImage` | src/MyChatApp.Web/Services/FileUploadService.cs:56-76 | a valid image is present, non-empty, at most 5 MiB, with an allowed lower-cased extension and content type |
| `Avatars.ExtensionCheckIsSuffixCheck` | src/MyChatApp.Web/Services/FileUploadService.cs:66-68 | the lower-cased extension is an allowed one exactly when the lower-cased name ends with it |
| `Avatars.ValidImageIff` | src/MyChatApp.Web/Services/FileUploadService.cs:56-76 | a file is valid exactly when its size is non-zero and at most 5 MiB, its name ends with an allowed extension, and its content type is allowed, case ignored |
| `Avatars.MissingOrEmptyRejected` | src/MyChatApp.Web/Services/FileUploadService.cs:58-59 | a missing file and an empty file are rejected |
| `Avatars.SizeLimit` | src/MyChatApp.Web/Services/FileUploadService.cs:41-63 | files over 5 MiB are rejected; a file of exactly 5 MiB is judged by name and type alone |
| `Avatars.CaseIgnored` | src/MyChatApp.Web/Services/FileUploadService.cs:66-73 | validation gives the same answer for the lower-cased name and content type |
| `Avatars.ExtensionAndTypeIndependent` | src/MyChatApp.Web/Services/FileUploadService.cs:65-73 | a PNG name with a GIF content type passes: the two checks are not required to agree |
| `Avatars.TextFileRejected` | src/MyChatApp.Web/Services/FileUploadService.cs:71-73 | a `text/plain` file is rejected |
| `Avatars.ExecutableRejected` | src/MyChatApp.Web/Services/FileUploadService.cs:66-68 | an `.exe` name is rejected even with an image content type |
| `Avatars.NegativeSizeAccepted` | src/MyChatApp.Web/Services/FileUploadService.cs:58-63 | the size check rejects only zero and oversized files |
| `Avatars.Combine` | src/MyChatApp.Web/Services/FileUploadService.cs:85 | `Path.Combine`: an empty part is ignored (either one), a rooted part replaces the base, and otherwise the part is appended to the base with exactly one '/' between them |
| `Avatars.AvatarsUrlPrefixSpelled` | src/MyChatApp.Web/Services/FileUploadService.cs:92 | avatar URLs begin with `/uploads/avatars/` |
| `Avatars.AvatarUrl` | src/MyChatApp.Web/Services/FileUploadService.cs:92 | the URL is the avatars prefix immediately followed by the stored file name: it begins with the prefix, ends with the name, and has no other characters |
| `Avatars.UploadAvatar` | src/MyChatApp.Web/Services/FileUploadService.cs:78-96 | an invalid file fails with "Invalid image file" and writes nothing; a valid one yields exactly `/uploads/avatars/` + user id + `_` + token + the allowed lower-cased extension, and adds exactly the stored file |
| `Avatars.RelativePath` | src/MyChatApp.Web/Services/FileUploadService.cs:106 | exactly one leading '/' is stripped, and nothing else changes |
| `Avatars.DeleteAvatar` | src/MyChatApp.Web/Services/FileUploadService.cs:98-121 | never fails; a missing or empty URL, or a failing file system, leaves the files alone; otherwise exactly the file the URL names is gone |
| `Avatars.UrlNamesStoredFile` | src/MyChatApp.Web/Services/FileUploadService.cs:83-107 | the URL of a stored name resolves to the file it was stored as |
| `Avatars.AvatarFileNameRelative` | src/MyChatApp.Web/Services/FileUploadService.cs:84 | the stored name is not rooted unless the user id is |
| `Avatars.UploadThenDeleteRestores` | src/MyChatApp.Web/Services/FileUploadService.cs:78-121 | uploading and then deleting by the returned URL restores the file set |
| `Avatars.RootedUrlLeavesWebRoot` | src/MyChatApp.Web/Services/FileUploadService.cs:106-111 | a URL starting with two separators deletes a file outside the web root |
| `Scenarios.SecondRequestConflicts` | src/MyChatApp.ApiService/Controllers/ContactsController.cs:180-189 | after a request between two users, a second one by either of them gets Conflict and adds nothing |
| `Scenarios.SelfRequestRefused` | src/MyChatApp.ApiService/Controllers/ContactsController.cs:175-178 | a request to oneself gets BadRequest and adds nothing |
| `Scenarios.CreatedRowFound` | src/MyChatApp.ApiService/Controllers/ContactsController.cs:191-199 | the row a request creates is found by its fresh id and the table stays valid |
| `Scenarios.OnlyReceiverAnswers` | src/MyChatApp.ApiService/Controllers/ContactsController.cs:326-335 | a fresh request is accepted or rejected by its receiver only; the requester is refused (and crashes as written), anyone else is refused |
| `Scenarios.UpdateNeverMakesPending` | src/MyChatApp.ApiService/Controllers/ContactsController.cs:320-324 | asking for Pending never succeeds, and every row Pending after an update was Pending before |
| `Scenarios.TransitionAllowedIff` | src/MyChatApp.ApiService/Controllers/ContactsController.cs:320-332 | the transition rule: never to Pending, Blocked always, Accepted and Rejected by the receiver alone while the row is Pending |
| `Scenarios.EitherPartyMayBlock` | src/MyChatApp.ApiService/Controllers/ContactsController.cs:326-335 | either party may block, whatever the row's status |
| `Scenarios.AcceptMakesContacts` | src/MyChatApp.ApiService/Controllers/ProfileController.cs:185-194 | a request accepted by its receiver makes the two users contacts, both ways round |
| `Scenarios.LeavingAcceptedEndsContact` | src/MyChatApp.ApiService/Controllers/ProfileController.cs:185-194 | moving the relating row to any status but Accepted ends the two users being contacts |
| `Scenarios.DeletedContactIsGone` | src/MyChatApp.ApiService/Controllers/ContactsController.cs:376-393 | after a delete, reading the id again is NotFound for any signed-in user |
| `Scenarios.DeleteAllowsNewRequest` | src/MyChatApp.ApiService/Controllers/ContactsController.cs:180-199 | after a delete the two users may send each other a new request |
| `Scenarios.ApplyPreservesValid` | src/MyChatApp.ApiService/Controllers/ContactsController.cs:156-394 | each send, update or delete keeps the table valid and its ids below the auto-increment counter |
| `Scenarios.RunPreservesValid` | src/MyChatApp.ApiService/Controllers/ContactsController.cs:156-394 | any run of sends, updates and deletes keeps the table valid |
| `Scenarios.ContactsOnlyProfile` | src/MyChatApp.ApiService/Controllers/ProfileController.cs:85-110 | a ContactsOnly profile is shown without email to an Accepted contact and refused to a signed-in stranger |
| `Scenarios.PublicProfileKeepsEmail` | src/MyChatApp.ApiService/Controllers/ProfileController.cs:106-110 | a Public profile is shown to anyone with its email |
| `Scenarios.RequesterAcceptCrashes` | src/MyChatApp.ApiService/Controllers/ContactsController.cs:326-332 | a requester accepting their own request crashes as written and gets Forbidden when corrected |
| `Scenarios.SendCrashesAfterSaving` | src/MyChatApp.ApiService/Controllers/ContactsController.cs:197-223 | a first request from one user to another crashes as written yet stores the row, where the corrected handler answers Created; the retry gets Conflict |
| `Scenarios.CrashedSendIsStored` | src/MyChatApp.ApiService/Controllers/ContactsController.cs:180-223 | whenever the send as written crashes, its row was stored, so repeating the request gets Conflict |
| `Scenarios.AnonymousContactsOnlyCrashes` | src/MyChatApp.ApiService/Controllers/ProfileController.cs:85-88 | a viewer without a current user (a direct call of the handler) of a ContactsOnly profile crashes as written and gets Forbidden when corrected |
| `Scenarios.DeletedAccountContactsOnlyCrashes` | src/MyChatApp.ApiService/Controllers/ProfileController.cs:69-88 | a claim naming an account that no longer exists passes `[Authorize]`, reaches the same crash as written, and gets Forbidden when corrected |

## Left out

- HTTP, routing and identity plumbing are not modelled. This covers `[Authorize]`, `ModelState` mechanics, claims and `async`. The current user is the stored user named by the claim.
- `[Authorize]` on both controllers (ContactsController.cs:15, ProfileController.cs:15) challenges a request without an authenticated user before the action runs. An absent current user in the model therefore stands for a handler called directly, or for a claim whose account no longer exists; only the second reaches the handlers over HTTP.
- The order of checks for an anonymous caller differs: over HTTP the `[Authorize]` challenge comes before `[ApiController]` model validation, whereas the handlers in the model validate first and then answer Unauthorized.
- Message payloads of NotFound and BadRequest are not modelled. `NotFound("User not found")` is a plain NotFound, and a BadRequest carries message strings rather than a `ModelState` dictionary.
- The EF Core mapping is not modelled: navigation properties, `Include`, database defaults, delete behaviour and the ordered-pair unique index. Two concurrent sends racing past the existence check are out of scope, since each handler is one atomic step.
- Display-field copying in the DTOs is not modelled. `ContactDto` and `ContactRequestDto` keep ids, parties, status and times, but not the users' display names, user names or avatars.
- `DateTime.UtcNow`, the auto-increment counter and `Guid.NewGuid()` are parameters. The GUID's format is not modelled.
- `Text.ToLower`: lower-cases ASCII letters only, whereas `ToLower`/`ToLowerInvariant` also map non-ASCII letters. The SQL translation of the search is taken to compare in the same way.
- Lengths count characters, not UTF-16 code units, for the `StringLength` limits.
- Enum values outside the declared ones, which C# casts allow, are not modelled.
- `UpdateContactRequestDto` validation is not modelled: a non-nullable enum always passes `[Required]`.
- File-system effects are not modelled: the avatar directory creation in the constructor, the byte copy, and failures while writing an upload. The file system is a set of paths; Unix path rules are used.
- `Contacts.TakeSelected`: the model returns the first `min(limit, candidates)` candidates in storage order, whereas `Take(limit)` without `OrderBy` (ContactsController.cs:57-63) leaves it to the database which matching users come back when more than `limit` match. The count, the bound and the soundness of each result do not depend on that order.
- `Contacts.SearchUsers`: which candidates fill the `limit` is fixed by storage order for the same reason; its count, bound and per-result soundness do not depend on that choice.
- Logging is not modelled.
- `ChatController`, `ChatApiClient`, `ThemeService`, the hosting `Program.cs` files and the plain records `UserInfo` and `ChatMessage` are not part of this model.

## Findings

| source | as written | input that shows it | evidently intended | confidence | as-written member | corrected member |
|---|---|---|---|---|---|---|
| src/MyChatApp.ApiService/Controllers/ContactsController.cs:331 | `Forbid("Only the receiver …")` passes the message as an authentication scheme name. No scheme of that name is registered, so executing the result throws `InvalidOperationException` and the client gets a server error | the requester of a pending request asks to accept it (`Scenarios.RequesterAcceptCrashes`) | a 403 refusal | high; not executed | `Contacts.UpdateContactAsWritten` | `Contacts.UpdateContact` |
| src/MyChatApp.ApiService/Controllers/ProfileController.cs:88 | `requestingUser!.Id` is evaluated when the claim's account is gone, which throws `NullReferenceException` | a valid token for an account that has since been deleted asks for a ContactsOnly profile (`Scenarios.DeletedAccountContactsOnlyCrashes`) | a 403 refusal, as for a Private profile | high; not executed | `Profiles.GetUserProfile` | `Profiles.GetUserProfileGuarded` |
| src/MyChatApp.ApiService/Controllers/ContactsController.cs:223 | `CreatedAtAction(nameof(GetContactAsync), …)` names the action `GetContactAsync`, but controllers are registered with default options (src/MyChatApp.ApiService/Program.cs:35), which strip the `Async` suffix, so the read handler is routed as `GetContact`. No route matches, and executing the result throws `InvalidOperationException` after `SaveChangesAsync` has stored the row | any valid first request (`Scenarios.SendCrashesAfterSaving`); the client sees a server error, and a retry gets Conflict | a 201 answer pointing at the new contact | high; not executed | `Contacts.SendContactRequestAsWritten` | `Contacts.SendContactRequest` |
