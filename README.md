# Notes service: access control and document mutations

A Dafny model of the core of a multi-user note-taking service. Users sign up
with a username and password. They create, read, update, soft-delete and share
text notes, and they search their own notes. The model covers three things:

- the rules that decide who may read, write or share a note;
- the fixed order of checks in each operation, which decides which error wins;
- the in-place updates to the `notes` and `users` collections.

It also proves the invariants those updates keep.

Layout, one module per file:

- `exceptions.dfy` (`Exceptions`): the seven exception kinds with their default
  HTTP status codes, and the constructor's override rule.
- `documents.dfy` (`Documents`): the note and user documents and the store
  (`Db`). It holds the store invariant `Consistent` and the lookup of an active
  user by username.
- `access.dfy` (`Access`): `has_read_access`, `has_write_access` and
  `check_if_note_can_be_shared`, as checks that pass or raise.
- `notes.dfy` (`Notes`): each note operation as a function from the store before
  the call to the result and the store after it. It also holds the lemmas about
  those operations: effects and frames, invariant preservation, and sequences
  of calls.
- `users.dfy` (`Users`): signup, and the stored password as the hex encoding of
  the digest.
- `store.dfy` (`Store`): the class `Database`, whose fields are the two
  collections. Its methods perform each operation step by step and update the
  fields in place. Each method is proved equal to the function of the same name
  in `Notes`, `Users` or `Documents`. Each method that changes the store keeps
  `Consistent`.

The store invariant `Consistent` has five parts:

- every id in use was issued by the id generator;
- every note's author exists and lists the note in `notes`;
- a user's `notes` list holds only notes that user wrote, with no repeats;
- a user's `sharedNotes` list holds only existing notes written by someone
  else, with no repeats;
- no two active users share a username.

## Model

| member | source | states |
|---|---|---|
| `Exceptions.DefaultStatus` | app/exceptions.py:29-89 | ForbiddenAccess alone carries 403. IncorrectUsernameOrPassword and UnauthorizedAccess carry 401. The other four carry 400. |
| `Exceptions.Raise` | app/exceptions.py:15-26 | A supplied non-empty message replaces the class default, and so does a supplied non-zero status. A missing or falsy argument keeps the default. |
| `Exceptions.RecipientMissing` | app/notes.py:262-265 | The missing-recipient error is a DocumentNotExists with an overridden message and status 400. |
| `Exceptions.MessageOverrideKeepsStatus` | app/exceptions.py:25-26 | Overriding only the message never changes the status code. |
| `Exceptions.FalsyArgumentsKeepDefaults` | app/exceptions.py:25-26 | An empty message or a zero status behaves exactly like omitting it. |
| `Documents.FindActiveUser` | app/helpers.py:8-19 | Returns an active user with the given username if one exists, and nothing exactly when none exists. |
| `Documents.FindActiveUserUnique` | app/user.py:30-38 | When active usernames are unique, the lookup returns the one active user with that name. |
| `Access.HasReadAccess` | app/notes.py:55-67 | Passes iff the caller is the author or the note id is in the caller's `sharedNotes`. Otherwise raises ForbiddenAccess. |
| `Access.HasWriteAccess` | app/notes.py:69-81 | Passes iff the caller is the author. Otherwise raises ForbiddenAccess. |
| `Access.CheckIfNoteCanBeShared` | app/notes.py:222-239 | Passes iff the recipient is not the author and does not already hold the note. A self-share raises CannotShareNoteToYourself, and this test wins over AlreadyShared. |
| `Access.WriteImpliesRead` | app/notes.py:66-81 | Write access implies read access. |
| `Access.AccessDenialIsForbidden` | app/exceptions.py:56-62 | Both access denials carry status 403. |
| `Access.ReadOnlyMeansShared` | app/notes.py:66-67 | Read access without write access holds exactly for a non-author who holds the note in `sharedNotes`. |
| `Notes.FetchNote` | app/notes.py:39-53 | Succeeds iff the note exists and is active, and then returns it. Otherwise raises DocumentNotExists. |
| `Notes.CreateNote` | app/notes.py:95-121 | Always succeeds. The returned id is issued by the id generator, which then moves past it. The new note is active, has the caller as author, the given title and body, and one creation and modification instant. The caller's record gains the id at the end of `notes` and a new modification time, and nothing else in it changes. No other note or user changes. |
| `Notes.GetNotes` | app/notes.py:129-152 | With an id, a missing or inactive note raises DocumentNotExists before any read check. A note the caller cannot read raises ForbiddenAccess. Otherwise the result is that single note. Without an id, the result holds exactly the active notes listed in the caller's `notes` or `sharedNotes`, each mapped to its stored document. |
| `Notes.DeleteNote` | app/notes.py:160-180 | DocumentNotExists comes before ForbiddenAccess. Success happens iff the note is live and the caller wrote it. A failure leaves the store unchanged. |
| `Notes.UpdateNote` | app/notes.py:188-214 | Same check order and success condition as delete. A failure leaves the store unchanged. |
| `Notes.ShareNote` | app/notes.py:241-274 | The checks run in this order, and the first failure decides the error: the note exists; the caller may write it; the recipient exists (the recipient-specific DocumentNotExists); the recipient is not the caller; the recipient does not already hold the note. A failure leaves the store unchanged. |
| `Notes.SearchNotes` | app/notes.py:282-293 | Returns exactly the caller's notes that match the query, with no filter on the active flag. |
| `Notes.ListedIsReadable` | app/notes.py:145-152 | Given the invariant, the listing without an id is exactly the active notes the caller has read access to. |
| `Notes.GetOneAgreesWithList` | app/notes.py:145-152 | Fetching one id succeeds iff the full listing contains it, and both return the same note. |
| `Notes.SearchOwnNotesOnly` | app/notes.py:290-292 | Every search hit is in the caller's own `notes` list and never in the caller's `sharedNotes`. |
| `Notes.CreateNoteEffect` | app/notes.py:106-121 | Create inserts one fresh, active note with the caller as author and the given title and body. The new id is in no collection and no list beforehand. The caller's record changes only by the new id appended to `notes` and the new modification time. No other note or user changes. |
| `Notes.CreateThenFetch` | app/notes.py:106-121 | Fetching a newly created note returns it exactly as created. |
| `Notes.DeleteNoteEffect` | app/notes.py:172-180 | A successful delete only clears that note's active flag and stamps it. A later fetch of the note raises DocumentNotExists. |
| `Notes.DeletedNoteNotListed` | app/notes.py:149-151 | After a delete, the note is absent from every user's listing. |
| `Notes.UpdateNoteEffect` | app/notes.py:200-214 | A successful update overwrites only the supplied title and body. The author, the active flag, the creation time, other notes and all users are unchanged. |
| `Notes.ShareNoteEffect` | app/notes.py:257-274 | A successful share appends the note id to the recipient's `sharedNotes`. The notes, the author's record and every other user are untouched. |
| `Notes.ShareGrantsRead` | app/notes.py:267-273 | After a share, the recipient sees the note in their listing and can fetch it by id. |
| `Notes.ContentChangePreserves` | app/notes.py:176-213 | Changing note contents keeps the invariant. This covers any change that leaves the note ids, their authors and the users alone. |
| `Notes.CreateNotePreserves` | app/notes.py:108-121 | Create keeps the store invariant. |
| `Notes.DeleteNotePreserves` | app/notes.py:172-180 | Delete keeps the store invariant. |
| `Notes.UpdateNotePreserves` | app/notes.py:200-214 | Update keeps the store invariant. |
| `Notes.ShareNotePreserves` | app/notes.py:259-273 | Share keeps the store invariant. In particular, `sharedNotes` never gains a duplicate or the recipient's own note. |
| `Notes.ShareTwiceFails` | app/notes.py:238-239 | Repeating a successful share to the same recipient raises AlreadyShared and changes nothing. |
| `Notes.ShareWithSelfFails` | app/notes.py:235-236 | An author sharing their own live note under their own username gets CannotShareNoteToYourself. |
| `Notes.SharedReaderCannotWrite` | app/notes.py:80-81 | A user who holds a note through sharing sees it in their listing, but their update and delete both raise ForbiddenAccess. |
| `Users.Hex` | app/user.py:48 | `bytes.hex()` yields two lower-case hex digits per byte. |
| `Users.HexInjective` | app/user.py:48 | Equal hex strings come from equal byte strings. |
| `Users.HashPassword` | app/user.py:40-48 | The stored password is 32 lower-case hex digits, one pair per digest byte. |
| `Users.StoredPasswordMatchesDigest` | app/user.py:48 | Two stored passwords are equal iff their digests are, so the same plaintext always gives the same stored value. |
| `Users.StoredPasswordIsNotPlaintext` | app/user.py:80 | A plaintext that contains a non-hex character is never stored as typed. The signup schema requires every password to contain a special character. |
| `Users.NewUserDocument` | app/serializers.py:113-123 | A new user document has empty `notes` and `sharedNotes`, is active, and has equal creation and modification times. |
| `Users.CreateUser` | app/user.py:62-86 | Signup fails with UserAlreadyExists, leaving the store unchanged, iff an active user already has the username. On success the returned id names an active user with that username. |
| `Users.InactiveUserDoesNotBlock` | app/user.py:38 | Inactive users with the same username do not block signup. |
| `Users.CreateUserEffect` | app/user.py:80-86 | Signup adds exactly one user under an id that no note and no user had. That user holds the requested username, first and last name, the hashed password, empty lists, is active, and was created and modified at `now`. No note and no other user changes. |
| `Users.CreateUserPreserves` | app/user.py:77-86 | Signup keeps the store invariant, including the uniqueness of active usernames. |
| `Users.SignupTwice` | app/user.py:77-78 | Two signups in a row with the same username give success, then UserAlreadyExists. |
| `Store.Database.FindActiveUser` | app/helpers.py:8-19 | The lookup by active username agrees with `Documents.FindActiveUser`. |
| `Store.Database.FetchNote` | app/notes.py:39-53 | Returns what `Notes.FetchNote` gives on the current store. |
| `Store.Database.CreateNote` | app/notes.py:95-121 | Inserts the note and pushes its id onto the author's list in one step, as `Notes.CreateNote` says. Keeps the invariant. |
| `Store.Database.GetNotes` | app/notes.py:129-152 | Reads only. The result equals `Notes.GetNotes` on the current store. |
| `Store.Database.DeleteNote` | app/notes.py:160-180 | The result and the new fields equal `Notes.DeleteNote` of the old store. Keeps the invariant. |
| `Store.Database.UpdateNote` | app/notes.py:188-214 | The result and the new fields equal `Notes.UpdateNote` of the old store. Keeps the invariant. |
| `Store.Database.ShareNote` | app/notes.py:241-274 | The result and the new fields equal `Notes.ShareNote` of the old store. Keeps the invariant. |
| `Store.Database.SearchNotes` | app/notes.py:282-293 | Reads only. The result equals `Notes.SearchNotes` on the current store. |
| `Store.Database.CreateUser` | app/user.py:62-86 | Does the existence check, replaces the plaintext with its stored form, then inserts. The result and the new fields equal `Users.CreateUser` of the old store. Keeps the invariant. |

## Left out

- Authentication, token issuance and login are not modelled. `authenticate_user` and `LoginUser` are not defined in any source file shown. Each note operation takes the caller's id and assumes the caller is a stored user. The caller's snapshot is the stored document, since every operation is one atomic step.
- IncorrectUsernameOrPassword and UnauthorizedAccess appear only through their status codes, because the code that raises them is not part of this model.
- Transport is not modelled: Flask views, routing, rate limits, CORS, logging and response formatting (`app/base.py`, `app/main.py`, `app/routes.py`, `app/utils.py` `make_response`).
- Request validation is left out. Of the schemas, the model keeps only the defaults they supply: the active flag, empty lists and equal timestamps.
- The argon2id hash is not modelled. It is the function parameter `hash`, a deterministic map from the plaintext to a 16-byte digest (HASH_LENGTH in `app/enums.py`). The secret salt and cost parameters live inside it. The UTF-8 encoding of the plaintext is folded into it too.
- `HashingError` is left out, and so are storage faults.
- MongoDB's `$text` matching and relevance ranking are the function parameter `matches`.
- The clock is the parameter `now`, one instant per operation. CreateNote reads the clock once for the note and once for the author's record, and the model uses the same instant for both.
- ObjectId generation is the counter `nextId`, shared by both collections.
- Concurrency is left out. Each operation is one atomic step, so the model does not capture two races: two signups with the same username, or two shares of the same note to the same recipient. Delete, Update and Share issue their `update_one` without the session, and this is not captured either.
- Message texts are opaque: a message is either the class default or a given string. `app/exceptions.py` refers to `NOTE_ALREADY_SHARED` and `NOTE_CANNOT_BE_SHARED_WITH_YOURSELF`, which `app/enums.py` does not define. The model assumes those two classes exist with some default message.
- Notes.UpdateNote: the payload is limited to an optional title and an optional body. The source writes every validated key except `note_id`, and its update schema is not part of this model. An empty payload is accepted: the model then only stamps the modification time, as the code would.
- Notes.SearchNotes: follows the code, which does not filter on the active flag, so soft-deleted notes of the caller can be returned. The design description says search returns only active notes.
- Ordering is left out. Listings and search results are maps from id to note, because their order is not fixed.
