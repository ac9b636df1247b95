# assoconnect: accounts, sessions, invitations and meetings in Dafny

This project models the server core of assoconnect, an association
management back end written in TypeScript:

- **Accounts and sessions** (`SessionHandler.ts`): password hashing and
  verification, `getAuth`, `login`, `logout` and session validity, and the
  `/login`, `/logout` and `/register` requests.
- **Invitations** (`InvitationHandler.ts`): invitation validity, the
  invitation link built from a URL pattern, and the requests that list,
  create, show and cancel invitations.
- **Meetings** (`MettingHandler.ts`): the `/meetings` listing.
- **The four record collections** (`UserDatabase.ts`, `SessionDatabase.ts`,
  `InvitationDatabase.ts`, `MeetingDatabase.ts`): filtered reads, lookups by
  id or token, deletion and the upsert `createOrUpdateX`.

Modules:

| file | module | models |
|---|---|---|
| `common.dfy` | `Common` | optional values, results, request fields and their JavaScript truthiness |
| `store.dfy` | `Store` | the keyed document store shared by the four collections; `Collection` is the class whose `docs` field the deletion and upsert methods update |
| `user_database.dfy` | `UserDatabase` | users, roles, `getUserById`, `createOrUpdateUser` |
| `session_database.dfy` | `SessionDatabase` | sessions, lookups by token and by id |
| `invitation_database.dfy` | `InvitationDatabase` | invitations and their statuses, lookups by token and by id |
| `meeting_database.dfy` | `MeetingDatabase` | meetings; how an end date is read back |
| `password.dfy` | `Password` | `hashPassword`, `verifyPassword`, hex encoding, `split(':')` |
| `invitations.dfy` | `Invitations` | `isValid` for invitations, `getBestInvitationUrl` |
| `session_handler.dfy` | `SessionHandler` | the session handler |
| `invitation_handler.dfy` | `InvitationHandler` | the invitation requests |
| `meeting_handler.dfy` | `MeetingHandler` | `getMeetings` |

How the model is built:

- **A collection** is a sequence of documents. Each document pairs a storage
  key (the Firestore document id) with a raw record: a logical id, the
  entity's fields, and creation and update times.
- **Reads** take the whole collection and filter it in order, as
  `getXsByFilter` does. A lookup returns the first match.
- **An upsert** deletes the first record with the same logical id. It then
  writes the new record under that record's key, or under a fresh key when
  there is none.
- **Request handlers** that write are methods over `Collection` objects. Their
  postconditions give the new contents as a function of the old ones. Handlers
  that only read are functions over the collections' contents.
- **Error replies** are `Err` values carrying the source's own messages.

Some values are parameters rather than computed:

- The clock is the parameter `now`, in milliseconds.
- Random ids, tokens and salts are parameters, and so are the storage keys the
  store picks for new documents.
- The key derivation function is a parameter `kdf`.
- Whether the invitation mail was sent is a parameter `sent`.
- The URL pattern from the environment is a parameter `pattern`.

## Model

| member | source | states |
|---|---|---|
| Store.Select | src/database/UserDatabase.ts:6-24 | the filtered read holds every stored record that passes the filter and no other record, and is never longer than the collection |
| Store.SelectAppend | src/database/UserDatabase.ts:6-24 | filtering keeps store order and multiplicity: the read of two stretches of the collection is the read of the first followed by the read of the second |
| Store.SelectOne | src/database/UserDatabase.ts:6-24 | a single record is kept exactly when it passes the filter |
| Store.FirstIndex | src/database/UserDatabase.ts:26-28 | the position found is a match and no earlier record matches; it is the length when nothing matches |
| Store.First | src/database/UserDatabase.ts:26-28 | `[0] \|\| null`: nothing exactly when no record matches, otherwise a stored matching record at the first matching position |
| Store.SelectEverything | src/database/UserDatabase.ts:30-32 | reading with the always-true filter returns the whole collection in order |
| Store.DropMembers | src/database/UserDatabase.ts:40-44 | after deleting a set of keys, exactly the records under the other keys remain |
| Store.DropKeepsKeysUnique | src/database/UserDatabase.ts:40-44 | deleting keeps storage keys unique |
| Store.DropDrop | src/database/UserDatabase.ts:40-44 | deleting one key after another is the same as deleting all the keys at once |
| Store.DropSameKeys | src/database/UserDatabase.ts:40-44 | two key sets that agree on the stored keys delete the same records |
| Store.DropSelected | src/database/UserDatabase.ts:34-38 | with unique keys, deleting the keys of the selected records leaves exactly the records the filter rejects, in order |
| Store.DropAppended | src/database/InvitationDatabase.ts:46-50 | deleting the key of a record appended under a new key gives back the records before it |
| Store.PutMembers | src/database/UserDatabase.ts:61 | `doc(key).set(raw)` keeps keys unique and leaves the written record plus every record under another key, and nothing else |
| Store.PutAbsent | src/database/UserDatabase.ts:50-61 | a write under a key no document has appends the record at the end |
| Store.Stamped | src/database/UserDatabase.ts:47-60 | the written record has the given id and fields and `updatedAt` now; it takes the key and `createdAt` of the first record with that id, or the fresh key and `createdAt` now when there is none |
| Store.UpsertedMembers | src/database/UserDatabase.ts:46-61 | after an upsert the collection holds the stamped record and every earlier record under another key, nothing else, and keys stay unique |
| Store.UpsertedFresh | src/database/UserDatabase.ts:46-61 | an upsert of a new id under an unused key appends exactly one record, created and updated now |
| Store.UpsertedKeepsOthers | src/database/UserDatabase.ts:46-61 | a record with another id survives an upsert unchanged unless the fresh key collides with its key |
| Store.UpsertedOtherIds | src/database/UserDatabase.ts:46-61 | with unique ids, every record besides the stamped one was there before and has another id |
| Store.UpsertedKeepsIdsUnique | src/database/UserDatabase.ts:46-61 | unique ids stay unique, and a lookup by the id then finds the stamped record |
| Store.FirstOnly | src/database/UserDatabase.ts:26-28 | when one record alone matches, the lookup returns it |
| Store.FirstUniqueId | src/database/UserDatabase.ts:26-28 | with unique ids, a lookup by a stored record's id finds that record at the first matching position |
| Store.Collection.Remove | src/database/UserDatabase.ts:40-44 | `removeXs` deletes the document under each given record's key, leaving the old records minus those keys; keys stay unique |
| Store.Collection.RemoveByFilter | src/database/UserDatabase.ts:34-38 | `removeXsByFilter` leaves exactly the records the filter rejects, in order |
| Store.Collection.Upsert | src/database/UserDatabase.ts:46-61 | `createOrUpdateX` returns the stamped record and leaves the upserted collection; keys stay unique |
| UserDatabase.ParseRole | src/handlers/InvitationHandler.ts:38-39 | a string names no role exactly when it is none of `admin`, `member`, `external`; a named role's string is that name |
| UserDatabase.ParseRoleName | src/database/UserDatabase.ts:76-80 | every role's stored name parses back to the role |
| UserDatabase.UserById | src/database/UserDatabase.ts:26-28 | the user found is the stored user with the id at the first position where that id occurs; nothing exactly when no user has it |
| UserDatabase.CreateOrUpdateUser | src/database/UserDatabase.ts:46-73 | the collection is upserted with the given fields; the returned user is the stored one except that its name and display name are the email |
| SessionDatabase.SessionByToken | src/database/SessionDatabase.ts:69-71 | the first stored session with the token; nothing exactly when no session carries it |
| SessionDatabase.SessionById | src/database/SessionDatabase.ts:24-26 | the session found is the stored session with the id at the first position where that id occurs; nothing exactly when no session has it |
| InvitationDatabase.InvitationByToken | src/database/InvitationDatabase.ts:28-30 | the first stored invitation with the token; nothing exactly when no invitation carries it |
| InvitationDatabase.InvitationById | src/database/InvitationDatabase.ts:32-34 | the first stored invitation with the id; nothing exactly when no invitation has it |
| MeetingDatabase.ReadEndDate | src/database/MeetingDatabase.ts:19 | a stored end date reads back as none exactly when it is absent or 0, otherwise unchanged |
| MeetingDatabase.ReadMeeting | src/database/MeetingDatabase.ts:13-25 | reading back keeps key, id, times and every field except the end date, which goes through the truthiness test |
| MeetingDatabase.ReadMeetings | src/database/MeetingDatabase.ts:11-25 | every record is read back in place, order and length kept |
| MeetingDatabase.MeetingsByFilter | src/database/MeetingDatabase.ts:6-26 | the filtered read is the selected records, each read back |
| MeetingDatabase.MeetingById | src/database/MeetingDatabase.ts:28-30 | nothing exactly when no meeting has the id, otherwise the first such meeting read back |
| MeetingDatabase.CreateOrUpdateMeeting | src/database/MeetingDatabase.ts:48-79 | the meeting is upserted with its end date as given, 0 included, and the reply is the stored record read back |
| MeetingDatabase.EndDateRoundTrip | src/database/MeetingDatabase.ts:48-79 | after an upsert the meeting is found by its id, and its end date is missing exactly when it was given as none or 0 |
| Password.Hex | src/handlers/SessionHandler.ts:135 | `toString('hex')` gives two lower-case hex digits per byte |
| Password.HexInjective | src/handlers/SessionHandler.ts:135 | different byte strings have different hex forms |
| Password.Split | src/handlers/SessionHandler.ts:140 | `split` gives at least one piece and no piece holds the separator |
| Password.JoinSplit | src/handlers/SessionHandler.ts:140 | joining the pieces of a split gives back the string |
| Password.SplitPrefix | src/handlers/SessionHandler.ts:140 | a prefix without the separator stays glued to the first piece |
| Password.SplitJoin | src/handlers/SessionHandler.ts:136-140 | pieces without the separator split back out of their join |
| Password.HashPassword | src/handlers/SessionHandler.ts:133-137 | the stored credential splits at its colon into exactly the hex salt and the hex derived key |
| Password.VerifyPassword | src/handlers/SessionHandler.ts:139-143 | the password verifies when the key derived from it under the credential's salt, in hex, equals the key part; the pieces are the first two of `split(':')`, a missing key part never matching |
| Password.VerifyHashed | src/handlers/SessionHandler.ts:133-143 | a password verifies against its own hash |
| Password.VerifyOther | src/handlers/SessionHandler.ts:133-143 | another password verifies exactly when the derivation gives it the same key under that salt |
| Password.NoColonNeverVerifies | src/handlers/SessionHandler.ts:139-143 | a credential without a colon never verifies |
| Invitations.InvitationValid | src/handlers/InvitationHandler.ts:132-134 | an invitation is usable while it is pending and its expiry is strictly after now |
| Invitations.ReplaceAll | src/handlers/InvitationHandler.ts:69-72 | `replace(/pat/g, rep)` with a literal pattern: each occurrence found scanning left to right is replaced, and the scan resumes after it |
| Invitations.BestInvitationUrl | src/handlers/InvitationHandler.ts:67-74 | the pattern with `{id}`, `{token}`, `{email}` and `{role}` replaced, one after the other, by the invitation's id, token, email and role name |
| Invitations.InvitationValidity | src/handlers/InvitationHandler.ts:132-134 | a usable invitation is exactly one that is pending and not yet at its expiry |
| Invitations.RetiredInvitation | src/handlers/InvitationHandler.ts:142-143 | rewriting an invitation under its id with a status other than pending keeps its key, its token then finds the rewritten record, and that record is never valid again |
| Invitations.ReplaceAbsent | src/handlers/InvitationHandler.ts:69-72 | `replace(/pat/g, …)` leaves text without an occurrence unchanged |
| Invitations.ReplaceOverPlainPrefix | src/handlers/InvitationHandler.ts:69-72 | replacing a `{`-opened placeholder passes over a prefix without `{` unchanged |
| Invitations.PlaceholderNotPrefix | src/handlers/InvitationHandler.ts:69-72 | text starting with one placeholder never starts with another |
| Invitations.ReplaceOverOtherPlaceholder | src/handlers/InvitationHandler.ts:69-72 | a placeholder with another name survives a replacement unchanged |
| Invitations.Fill | src/handlers/InvitationHandler.ts:69-72 | every hole of that name becomes the value and every other piece stays, so length and well-formedness are kept |
| Invitations.ReplaceFills | src/handlers/InvitationHandler.ts:69-72 | one global replace on a rendered pattern is the rendering of the filled pattern |
| Invitations.FillsExpand | src/handlers/InvitationHandler.ts:67-74 | the four fills in the link's order give the expansion of the pattern |
| Invitations.UrlFromPattern | src/handlers/InvitationHandler.ts:67-74 | for a pattern whose every `{` opens a placeholder, and field values without `{`, the link is the pattern with `{id}`, `{token}`, `{email}` and `{role}` replaced by the fields, unknown placeholders and text unchanged |
| SessionHandler.SessionValid | src/handlers/SessionHandler.ts:45-47 | a session is valid while its expiry is strictly after now |
| SessionHandler.RequestToken | src/handlers/SessionHandler.ts:18-19 | the token is the `authtoken` query field when that is truthy, else the header; only a non-empty string counts |
| SessionHandler.GetAuth | src/handlers/SessionHandler.ts:17-25 | a result is the first session with the request's token, still valid, and the first stored user with the session's user id; nothing exactly when one of those steps fails |
| SessionHandler.AuthOf | src/handlers/SessionHandler.ts:17-25 | when token, session, validity and user lookup all succeed, `getAuth` returns that user and session |
| SessionHandler.LoginUser | src/handlers/SessionHandler.ts:27-31 | the account found is the first with that email or name and its password verifies; nothing exactly when no account has the identifier or the first one's password fails |
| SessionHandler.LoginWithOwnPassword | src/handlers/SessionHandler.ts:27-31 | the first account under an identifier logs in with the password it was hashed from |
| SessionHandler.LoginWithOtherPassword | src/handlers/SessionHandler.ts:27-31 | another password logs in exactly when the derivation cannot tell it from the real one |
| SessionHandler.Login | src/handlers/SessionHandler.ts:27-39 | on success a session for the user, expiring in two weeks, is upserted and returned; on failure nothing is written |
| SessionHandler.LoginAuthenticates | src/handlers/SessionHandler.ts:17-39 | with unique user ids and an unused non-empty token, the new session's token authenticates the user who logged in |
| SessionHandler.Logout | src/handlers/SessionHandler.ts:41-43 | the document under the session's key is deleted and nothing else |
| SessionHandler.LogoutRevokes | src/handlers/SessionHandler.ts:17-43 | after logout the session's token finds no session and authenticates no one |
| SessionHandler.ApiLogout | src/handlers/SessionHandler.ts:71-76 | unauthenticated: refused, nothing changes; otherwise the request's session is deleted |
| SessionHandler.ApiLogin | src/handlers/SessionHandler.ts:49-69 | non-string fields or bad credentials are refused with nothing written; otherwise a session is upserted and the reply carries its token, expiry and the user with the session's id |
| SessionHandler.NameOk | src/handlers/SessionHandler.ts:86-90 | the name pattern `^[a-zA-Z0-9_.-]{3,24}$`: 3 to 24 characters, each a letter, a digit, `_`, `.` or `-` |
| SessionHandler.EmailOk | src/handlers/SessionHandler.ts:92-93 | the email pattern `^[^@]+@[^@]+\.[^@]+$`: one `@`, not first, with a `.` later that is neither right after it nor last |
| SessionHandler.RegisterCheck | src/handlers/SessionHandler.ts:78-97 | one clause per outcome: "Invalid request" exactly when a field is not a string; the null-invitation failure exactly when the fields are strings and no invitation has the token; "Invalid invitation", "Invalid name", "Invalid display", "Invalid email" and "User already exists" each exactly when every earlier check passes and its own fails; success exactly when all pass, with the token's invitation |
| SessionHandler.Register | src/handlers/SessionHandler.ts:78-130 | a failed check writes nothing; otherwise user, accepted invitation and session are upserted and the reply shows the email as name and display name |
| SessionHandler.RegisterConsumesInvitation | src/handlers/SessionHandler.ts:82-109 | once a registration has accepted the invitation, every later registration with the same token is refused |
| SessionHandler.RegisterThenLogin | src/handlers/SessionHandler.ts:95-106 | the newly registered user logs in with their email and password when no stored name holds an `@` |
| InvitationHandler.Summaries | src/handlers/InvitationHandler.ts:22-27 | one summary per invitation, in order |
| InvitationHandler.OwnedSummaries | src/handlers/InvitationHandler.ts:21-27 | the summaries are those of the stored invitations with that owner, all of them and no others |
| InvitationHandler.OwnerSummaries | src/handlers/InvitationHandler.ts:21-27 | one summary per stored invitation with that owner, position by position in store order, so every owned invitation appears and nothing else |
| InvitationHandler.MyInvitations | src/handlers/InvitationHandler.ts:18-28 | refused with "Unauthorized" exactly when unauthenticated; otherwise the owner summaries of the authenticated user |
| InvitationHandler.CreateInvitation | src/handlers/InvitationHandler.ts:30-65 | non-admins, non-string fields and unknown roles are refused with nothing written; otherwise a pending invitation expiring in two days is upserted, kept when the mail was sent and deleted again when not |
| InvitationHandler.CreateRollbackRestores | src/handlers/InvitationHandler.ts:41-55 | with a new id and key, a failed send leaves the collection exactly as before |
| InvitationHandler.CreatedInvitationUsable | src/handlers/InvitationHandler.ts:41-49 | a created invitation is found by its token and is valid until two days have passed |
| InvitationHandler.GetInvitation | src/handlers/InvitationHandler.ts:108-130 | not found exactly when no invitation has the id; an authenticated caller gets the details, anyone else only id, role and usability |
| InvitationHandler.TokenOnlyWhenAuthenticated | src/handlers/InvitationHandler.ts:113-129 | an unauthenticated caller never gets the details that hold the token |
| InvitationHandler.CancelInvitation | src/handlers/InvitationHandler.ts:136-152 | unauthenticated, unknown id or not the owner: refused, nothing written; otherwise the invitation is written back cancelled under its key and described in the reply |
| InvitationHandler.CancelRetires | src/handlers/InvitationHandler.ts:136-143 | after a cancellation, registering with the invitation's token is refused |
| MeetingHandler.FlatMembers | src/handlers/MettingHandler.ts:16-19 | an id is collected exactly when some meeting lists it |
| MeetingHandler.Dedup | src/handlers/MettingHandler.ts:16-19 | the collected ids hold no duplicate, and each is one of the input ids, all of which appear |
| MeetingHandler.DedupOrder | src/handlers/MettingHandler.ts:16-19 | the collected ids are in order of first appearance: their first positions in the input increase along the list |
| MeetingHandler.PushNew | src/handlers/MettingHandler.ts:18-19 | pushing each id not yet included extends the deduplicated list by the new ids |
| MeetingHandler.CollectParticipants | src/handlers/MettingHandler.ts:16-19 | the first loop collects every participant id once, in order of first appearance |
| MeetingHandler.People | src/handlers/MettingHandler.ts:26-30 | every listed participant is the first loaded user with its id, that id is one the meeting names, and no id is listed twice |
| MeetingHandler.PeopleOrder | src/handlers/MettingHandler.ts:26-30 | the participants are listed in the order their ids first appear among the meeting's participant ids |
| MeetingHandler.PeopleCovers | src/handlers/MettingHandler.ts:26-30 | every participant id some loaded user has is listed |
| MeetingHandler.CollectPeople | src/handlers/MettingHandler.ts:26-30 | the participant loop builds exactly that list |
| MeetingHandler.PersonsOf | src/handlers/MettingHandler.ts:42-45 | each participant is shown with their id and display name, in order |
| MeetingHandler.Views | src/handlers/MettingHandler.ts:22-47 | one view per meeting whose owner was loaded, in store order, so never more views than meetings |
| MeetingHandler.ViewsAppend | src/handlers/MettingHandler.ts:22-47 | the reply keeps store order: the views of two stretches of the meetings are the views of the first followed by those of the second |
| MeetingHandler.ViewsOne | src/handlers/MettingHandler.ts:22-25 | a single meeting gives exactly its view when its owner was loaded, and nothing otherwise |
| MeetingHandler.ViewsComplete | src/handlers/MettingHandler.ts:22-47 | every meeting whose owner was loaded has its view in the reply |
| MeetingHandler.ViewsSound | src/handlers/MettingHandler.ts:22-47 | every view in the reply is the view of a meeting whose owner was loaded |
| MeetingHandler.OwnerFoundIff | src/handlers/MettingHandler.ts:20-25 | a meeting is listed exactly when its owner takes part in some meeting and a user with that id exists |
| MeetingHandler.CollectViews | src/handlers/MettingHandler.ts:22-47 | the meeting loop builds exactly the views of the listed meetings, in order |
| MeetingHandler.GetMeetings | src/handlers/MettingHandler.ts:12-49 | unauthenticated: refused; otherwise the views of all meetings read back, with owners and participants found among the users taking part |

## Behaviours of the code worth knowing

- **Cancelling.** `cancelInvitation` writes the invitation back as cancelled
  whatever its current status, an accepted or rejected one included.
  `CancelInvitation` has no status check either.
- **Sending the invitation mail.** `createInvitation` stores the invitation
  first and sends the mail afterwards. When sending fails, it deletes the
  record again. `CreateInvitation` and `CreateRollbackRestores` state this
  order.
- **A token that names no invitation.** `apiRegister` passes `null` to
  `isValid`, which throws. The request is not refused with a message.
  `RegisterCheck` returns `NullInvitation` for this case.
- **A stored credential without a colon.** `verifyPassword` returns false
  for it rather than failing. `NoColonNeverVerifies` states this.

## Left out

- The HTTP call in `sendInvitation` is not modelled. Its outcome is the
  boolean `sent`.
- Crypto is not modelled. PBKDF2 is the parameter `kdf`. `randomBytes` values
  (ids, tokens, salts) and the document ids Firestore picks are parameters.
  Nothing says they are unique; lemmas that need uniqueness require it.
- `Date.now()` is the single parameter `now` per request. The two clock
  readings inside one upsert are treated as the same instant.
- Regular expressions are not run. The name and email patterns of
  `apiRegister` are the predicates `NameOk` and `EmailOk`.
- Cookies, `console` output, Express routing and the `Main`, `API` and
  `Database` wiring are not modelled. `UserHandler.ts` is not part of this
  model.
- Concurrency is not modelled. Each request runs alone against the store, and
  the races between concurrent requests are not captured.
- Firestore snapshot order is not modelled. A collection is a sequence, and a
  snapshot lists its documents in sequence order. A rewritten document moves
  to the end of the sequence, whereas Firestore orders by document id.
- Role and status strings are not modelled. Both are enumerations. A stored
  string outside the enumeration, which the source's casts let through,
  cannot occur in the model.
- Invitations.UrlFromPattern: `$` sequences in the replacement value are not
  modelled. JavaScript's `replace` would expand them. The lemma covers
  patterns in which every `{` opens a placeholder whose name has no braces,
  and field values without `{`. A stray `{` in the pattern's text, or a field
  value holding a placeholder that a later replacement would fill, falls
  outside it: the link then depends on the order of the four replacements.
- SessionHandler.ApiLogin: the "Invalid user" reply is not modelled. The user
  who logged in is stored under the id its new session names, so that lookup
  cannot fail.
- InvitationHandler.CancelInvitation: the "Error to update invitation" reply
  is not modelled. `createOrUpdateInvitation` always returns a record.
- SessionHandler.Register: a token that names no invitation ends in the
  `NullInvitation` error. This stands for the exception the source throws
  when it reads a field of `null`. No reply is modelled for it.
- MeetingHandler.Views: its own contract only bounds the length. Order and
  multiplicity are stated by `ViewsAppend` and `ViewsOne`, which together fix
  the reply meeting by meeting; membership is also stated by `ViewsComplete`
  and `ViewsSound`.
