/** The document store as a mutable object: the notes and users collections
    are fields that the operations update in place, each operation running as
    one atomic step. Every method is proved against the function of the same
    name in Notes, Users or Documents, and the methods that change the store
    keep the store invariant. */
module Store {
  import opened Exceptions
  import opened Documents
  import Access
  import Notes
  import Users

  class Database {
    var notes: map<Id, Note>
    var users: map<Id, User>
    var nextId: Id

    /** The store as a value. */
    function State(): Db
      reads this
    {
      Db(notes, users, nextId)
    }

    ghost predicate Valid()
      reads this
    {
      Consistent(State())
    }

    constructor ()
      ensures Valid() && State() == Empty()
    {
      notes, users, nextId := map[], map[], 0;
    }

    /** `find_one` on the users collection by active username. */
    method FindActiveUser(username: string) returns (r: Option<Id>)
      requires Valid()
      ensures r == Documents.FindActiveUser(State(), username)
    {
      if exists u :: u in users && ActiveNamed(users[u], username) {
        var u :| u in users && ActiveNamed(users[u], username);
        FindActiveUserUnique(State(), username, u);
        r := Some(u);
      } else {
        r := None;
      }
    }

    /** `Notes.fetch_note`. */
    method FetchNote(noteId: Id) returns (r: Result<Note>)
      ensures r == Notes.FetchNote(State(), noteId)
    {
      if noteId in notes && notes[noteId].isActive {
        r := Ok(notes[noteId]);
      } else {
        r := Err(Default(DocumentNotExists));
      }
    }

    /** `CreateNote.process`: insert the note, then push its id onto the
        author's list; both writes belong to one step. */
    method CreateNote(caller: Id, title: string, body: string, now: Timestamp) returns (id: Id)
      requires Valid() && caller in users
      modifies this
      ensures Valid()
      ensures Notes.CreateNote(old(State()), caller, title, body, now) == Step(Ok(id), State())
    {
      ghost var before := State();
      Notes.CreateNotePreserves(before, caller, title, body, now);
      id := nextId;
      nextId := nextId + 1;
      notes := notes[id := Note(caller, title, body, true, now, now)];
      var user := users[caller];
      users := users[caller := user.(notes := user.notes + [id], lastModifiedAt := now)];
    }

    /** `GetNotes.process`; reads only. */
    method GetNotes(caller: Id, noteId: Option<Id>) returns (r: Result<map<Id, Note>>)
      requires caller in users
      ensures r == Notes.GetNotes(State(), caller, noteId)
    {
      if noteId.Some? {
        var fetched := FetchNote(noteId.value);
        if fetched.Err? {
          return Err(fetched.error);
        }
        var access := Access.HasReadAccess(caller, users[caller], noteId.value, fetched.value);
        if access.Fail? {
          return Err(access.error);
        }
        r := Ok(map[noteId.value := fetched.value]);
      } else {
        var own, shared := users[caller].notes, users[caller].sharedNotes;
        r := Ok(map id | id in notes && notes[id].isActive && (id in own || id in shared) :: notes[id]);
      }
    }

    /** `DeleteNote.process`: existence check, write check, soft delete. */
    method DeleteNote(caller: Id, noteId: Id, now: Timestamp) returns (r: Result<()>)
      requires Valid()
      modifies this
      ensures Valid()
      ensures Notes.DeleteNote(old(State()), caller, noteId, now) == Step(r, State())
    {
      Notes.DeleteNotePreserves(State(), caller, noteId, now);
      var fetched := FetchNote(noteId);
      if fetched.Err? {
        return Err(fetched.error);
      }
      var access := Access.HasWriteAccess(caller, fetched.value);
      if access.Fail? {
        return Err(access.error);
      }
      notes := notes[noteId := fetched.value.(isActive := false, lastModifiedAt := now)];
      r := Ok(());
    }

    /** `UpdateNote.process`: existence check, write check, then `$set` of the
        supplied fields. */
    method UpdateNote(caller: Id, noteId: Id, fields: Notes.UpdateFields, now: Timestamp) returns (r: Result<()>)
      requires Valid()
      modifies this
      ensures Valid()
      ensures Notes.UpdateNote(old(State()), caller, noteId, fields, now) == Step(r, State())
    {
      Notes.UpdateNotePreserves(State(), caller, noteId, fields, now);
      var fetched := FetchNote(noteId);
      if fetched.Err? {
        return Err(fetched.error);
      }
      var access := Access.HasWriteAccess(caller, fetched.value);
      if access.Fail? {
        return Err(access.error);
      }
      var note := fetched.value;
      if fields.title.Some? {
        note := note.(title := fields.title.value);
      }
      if fields.body.Some? {
        note := note.(body := fields.body.value);
      }
      notes := notes[noteId := note.(lastModifiedAt := now)];
      r := Ok(());
    }

    /** `ShareNote.process`: existence check, write check, recipient lookup,
        share checks, then `$push` onto the recipient's shared list. */
    method ShareNote(caller: Id, noteId: Id, shareWith: string, now: Timestamp) returns (r: Result<()>)
      requires Valid()
      modifies this
      ensures Valid()
      ensures Notes.ShareNote(old(State()), caller, noteId, shareWith, now) == Step(r, State())
    {
      Notes.ShareNotePreserves(State(), caller, noteId, shareWith, now);
      var fetched := FetchNote(noteId);
      if fetched.Err? {
        return Err(fetched.error);
      }
      var note := fetched.value;
      var access := Access.HasWriteAccess(caller, note);
      if access.Fail? {
        return Err(access.error);
      }
      var recipient := FindActiveUser(shareWith);
      if recipient.None? {
        return Err(RecipientMissing());
      }
      var rid := recipient.value;
      var check := Access.CheckIfNoteCanBeShared(noteId, note, rid, users[rid]);
      if check.Fail? {
        return Err(check.error);
      }
      var user := users[rid];
      users := users[rid := user.(sharedNotes := user.sharedNotes + [noteId], lastModifiedAt := now)];
      r := Ok(());
    }

    /** `SearchNotes.process`; reads only. */
    method SearchNotes(caller: Id, query: string, matches: (string, string, string) -> bool)
      returns (r: map<Id, Note>)
      ensures r == Notes.SearchNotes(State(), caller, query, matches)
    {
      r := map id | id in notes && notes[id].author == caller && matches(query, notes[id].title, notes[id].body)
             :: notes[id];
    }

    /** `CreateUser.process`: the existence check, the in-place replacement of
        the plaintext by its stored form, then the insertion. */
    method CreateUser(request: Users.SignupRequest, hash: string -> Users.Digest, now: Timestamp)
      returns (r: Result<Id>)
      requires Valid()
      modifies this
      ensures Valid()
      ensures Users.CreateUser(old(State()), request, hash, now) == Step(r, State())
    {
      Users.CreateUserPreserves(State(), request, hash, now);
      var existing := FindActiveUser(request.username);
      if existing.Some? {
        return Err(Default(UserAlreadyExists));
      }
      var data := request.(password := Users.HashPassword(hash, request.password));
      var id := nextId;
      nextId := nextId + 1;
      users := users[id := Users.NewUserDocument(data, now)];
      r := Ok(id);
    }
  }
}
