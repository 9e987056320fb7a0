/** The note operations of the service as functions of the store: each takes
    the store before the call and gives the result together with the store
    after it. Every operation is one atomic step: a failing call leaves the
    store exactly as it was. */
module Notes {
  import opened Exceptions
  import opened Documents
  import opened Access

  /** The validated payload of an update: an optional new title and an
      optional new body. */
  datatype UpdateFields = UpdateFields(title: Option<string>, body: Option<string>)

  predicate IsLive(db: Db, noteId: Id)
  {
    noteId in db.notes && db.notes[noteId].isActive
  }

  /** `fetch_note`: the note, provided it exists and is not soft-deleted. */
  function FetchNote(db: Db, noteId: Id): (r: Result<Note>)
    ensures r.Ok? <==> IsLive(db, noteId)
    ensures r.Ok? ==> r.value == db.notes[noteId]
    ensures r.Err? ==> r.error == Default(DocumentNotExists)
  {
    if noteId in db.notes && db.notes[noteId].isActive then
      Ok(db.notes[noteId])
    else
      Err(Default(DocumentNotExists))
  }

  /** `CreateNote.process`: insert an active note written by the caller and
      push its fresh id onto the caller's own-notes list, as one unit. */
  function CreateNote(db: Db, caller: Id, title: string, body: string, now: Timestamp): (s: Step<Id>)
    requires caller in db.users
    ensures s.result.Ok? && db.nextId <= s.result.value < s.after.nextId
    ensures var id := s.result.value;
      && s.after.notes.Keys == db.notes.Keys + {id}
      && s.after.notes[id] == Note(caller, title, body, true, now, now)
      && (forall n :: n in db.notes && n != id ==> s.after.notes[n] == db.notes[n])
      && s.after.users.Keys == db.users.Keys
      && s.after.users[caller] == db.users[caller].(notes := db.users[caller].notes + [id], lastModifiedAt := now)
      && (forall u :: u in db.users && u != caller ==> s.after.users[u] == db.users[u])
  {
    var id := db.nextId;
    var user := db.users[caller];
    Step(Ok(id),
      Db(db.notes[id := Note(caller, title, body, true, now, now)],
         db.users[caller := user.(notes := user.notes + [id], lastModifiedAt := now)],
         id + 1))
  }

  /** The notes a caller is shown when no id is given: the active notes whose
      ids sit in the caller's own or shared list. */
  function ListedNotes(db: Db, caller: Id): (m: map<Id, Note>)
    requires caller in db.users
    ensures forall id :: id in m ==> IsLive(db, id) && m[id] == db.notes[id]
  {
    map id | id in db.notes && db.notes[id].isActive
               && (id in db.users[caller].notes || id in db.users[caller].sharedNotes)
      :: db.notes[id]
  }

  /** `GetNotes.process`. With an id: the existence check, then the read
      check, then that one note. Without: every listed note. Order is not
      observable, so the result is a map from id to note. */
  function GetNotes(db: Db, caller: Id, noteId: Option<Id>): (r: Result<map<Id, Note>>)
    requires caller in db.users
    ensures noteId.Some? && !IsLive(db, noteId.value) ==> r == Err(Default(DocumentNotExists))
    ensures noteId.Some? && IsLive(db, noteId.value) ==>
      var n := db.notes[noteId.value];
      if HasReadAccess(caller, db.users[caller], noteId.value, n).Pass?
      then r.Ok? && r.value == map[noteId.value := n]
      else r == Err(Default(ForbiddenAccess))
    ensures noteId.None? ==> r.Ok?
    ensures noteId.None? ==> forall id :: id in r.value <==>
      IsLive(db, id) && (id in db.users[caller].notes || id in db.users[caller].sharedNotes)
    ensures noteId.None? ==> forall id :: id in r.value ==> id in db.notes && r.value[id] == db.notes[id]
  {
    if noteId.Some? then
      match FetchNote(db, noteId.value)
      case Err(e) => Err(e)
      case Ok(note) =>
        match HasReadAccess(caller, db.users[caller], noteId.value, note)
        case Fail(e) => Err(e)
        case Pass => Ok(map[noteId.value := note])
    else
      Ok(ListedNotes(db, caller))
  }

  /** `DeleteNote.process`: existence check, write check, then soft-delete. */
  function DeleteNote(db: Db, caller: Id, noteId: Id, now: Timestamp): (s: Step<()>)
    ensures !IsLive(db, noteId) ==> s.result == Err(Default(DocumentNotExists))
    ensures IsLive(db, noteId) && db.notes[noteId].author != caller ==>
      s.result == Err(Default(ForbiddenAccess))
    ensures s.result.Ok? <==> IsLive(db, noteId) && db.notes[noteId].author == caller
    ensures s.result.Err? ==> s.after == db
  {
    match FetchNote(db, noteId)
    case Err(e) => Step(Err(e), db)
    case Ok(note) =>
      match HasWriteAccess(caller, note)
      case Fail(e) => Step(Err(e), db)
      case Pass =>
        Step(Ok(()), db.(notes := db.notes[noteId := note.(isActive := false, lastModifiedAt := now)]))
  }

  /** The note after an update: the supplied fields overwrite, the others stay. */
  function ApplyFields(note: Note, fields: UpdateFields, now: Timestamp): (n: Note)
  {
    note.(title := if fields.title.Some? then fields.title.value else note.title,
          body := if fields.body.Some? then fields.body.value else note.body,
          lastModifiedAt := now)
  }

  /** `UpdateNote.process`: existence check, write check, then overwrite the
      supplied fields. */
  function UpdateNote(db: Db, caller: Id, noteId: Id, fields: UpdateFields, now: Timestamp): (s: Step<()>)
    ensures !IsLive(db, noteId) ==> s.result == Err(Default(DocumentNotExists))
    ensures IsLive(db, noteId) && db.notes[noteId].author != caller ==>
      s.result == Err(Default(ForbiddenAccess))
    ensures s.result.Ok? <==> IsLive(db, noteId) && db.notes[noteId].author == caller
    ensures s.result.Err? ==> s.after == db
  {
    match FetchNote(db, noteId)
    case Err(e) => Step(Err(e), db)
    case Ok(note) =>
      match HasWriteAccess(caller, note)
      case Fail(e) => Step(Err(e), db)
      case Pass => Step(Ok(()), db.(notes := db.notes[noteId := ApplyFields(note, fields, now)]))
  }

  /** `ShareNote.process`: existence check, write check, recipient lookup
      among active users, the self-share and already-shared checks, then push
      the note id onto the recipient's shared list. The first failing check
      decides the error. */
  ghost function ShareNote(db: Db, caller: Id, noteId: Id, shareWith: string, now: Timestamp): (s: Step<()>)
    ensures !IsLive(db, noteId) ==> s.result == Err(Default(DocumentNotExists))
    ensures IsLive(db, noteId) && db.notes[noteId].author != caller ==>
      s.result == Err(Default(ForbiddenAccess))
    ensures IsLive(db, noteId) && db.notes[noteId].author == caller ==>
      match FindActiveUser(db, shareWith)
      case None => s.result == Err(RecipientMissing())
      case Some(rid) =>
        if rid == caller then s.result == Err(Default(CannotShareNoteToYourself))
        else if noteId in db.users[rid].sharedNotes then s.result == Err(Default(AlreadyShared))
        else s.result == Ok(())
    ensures s.result.Err? ==> s.after == db
  {
    match FetchNote(db, noteId)
    case Err(e) => Step(Err(e), db)
    case Ok(note) =>
      match HasWriteAccess(caller, note)
      case Fail(e) => Step(Err(e), db)
      case Pass =>
        match FindActiveUser(db, shareWith)
        case None => Step(Err(RecipientMissing()), db)
        case Some(rid) =>
          var recipient := db.users[rid];
          match CheckIfNoteCanBeShared(noteId, note, rid, recipient)
          case Fail(e) => Step(Err(e), db)
          case Pass =>
            Step(Ok(()), db.(users := db.users[rid := recipient.(
              sharedNotes := recipient.sharedNotes + [noteId], lastModifiedAt := now)]))
  }

  /** `SearchNotes.process`: the caller's own notes whose text matches the
      query. `matches` stands for the store's text index. Soft-deleted notes
      are not filtered out. */
  function SearchNotes(db: Db, caller: Id, query: string, matches: (string, string, string) -> bool)
    : (r: map<Id, Note>)
    ensures forall id :: id in r <==>
      id in db.notes && db.notes[id].author == caller && matches(query, db.notes[id].title, db.notes[id].body)
    ensures forall id :: id in r ==> r[id] == db.notes[id]
  {
    map id | id in db.notes && db.notes[id].author == caller
               && matches(query, db.notes[id].title, db.notes[id].body)
      :: db.notes[id]
  }

  // ---------------------------------------------------------------------
  // Reads
  // ---------------------------------------------------------------------

  /** Listing all notes returns exactly the live notes the caller may read:
      the own-notes list is, by the store invariant, the set of notes the
      caller wrote. */
  lemma ListedIsReadable(db: Db, caller: Id, id: Id)
    requires Consistent(db) && caller in db.users
    ensures id in GetNotes(db, caller, None).value <==>
      IsLive(db, id) && HasReadAccess(caller, db.users[caller], id, db.notes[id]).Pass?
  {
    if IsLive(db, id) && db.notes[id].author == caller {
      assert id in db.users[caller].notes;
    }
  }

  /** Fetching one note succeeds exactly when the listing contains it, and
      then yields the same note. */
  lemma GetOneAgreesWithList(db: Db, caller: Id, id: Id)
    requires Consistent(db) && caller in db.users
    ensures GetNotes(db, caller, Some(id)).Ok? <==> id in GetNotes(db, caller, None).value
    ensures GetNotes(db, caller, Some(id)).Ok? ==>
      GetNotes(db, caller, Some(id)).value == map[id := GetNotes(db, caller, None).value[id]]
  {
    ListedIsReadable(db, caller, id);
  }

  /** Search returns only notes the caller wrote, all of them on the caller's
      own list, and never a note that was merely shared with the caller. */
  lemma SearchOwnNotesOnly(db: Db, caller: Id, query: string, matches: (string, string, string) -> bool)
    requires Consistent(db) && caller in db.users
    ensures forall id :: id in SearchNotes(db, caller, query, matches) ==>
      id in db.users[caller].notes && id !in db.users[caller].sharedNotes
  {
    var r := SearchNotes(db, caller, query, matches);
    forall id | id in r
      ensures id in db.users[caller].notes && id !in db.users[caller].sharedNotes
    {
      assert db.notes[id].author == caller;
    }
  }

  // ---------------------------------------------------------------------
  // Effects of the mutating operations
  // ---------------------------------------------------------------------

  /** In a consistent store the id CreateNote hands out is fresh: no note,
      no user and no list holds it yet, so every existing note stays as it
      was, and the caller's record changes only by the appended id and the
      new modification time. */
  lemma CreateNoteEffect(db: Db, caller: Id, title: string, body: string, now: Timestamp)
    requires Consistent(db) && caller in db.users
    ensures var s := CreateNote(db, caller, title, body, now);
      var id := s.result.value;
      && id !in db.notes && id !in db.users
      && (forall u :: u in db.users ==> id !in db.users[u].notes && id !in db.users[u].sharedNotes)
      && s.after.notes.Keys == db.notes.Keys + {id}
      && s.after.notes[id] == Note(caller, title, body, true, now, now)
      && (forall n :: n in db.notes ==> s.after.notes[n] == db.notes[n])
      && s.after.users.Keys == db.users.Keys
      && s.after.users[caller] == db.users[caller].(notes := db.users[caller].notes + [id], lastModifiedAt := now)
      && (forall u :: u in db.users && u != caller ==> s.after.users[u] == db.users[u])
  {
  }

  /** A successful delete only clears the note's active flag (and stamps it);
      the note is then gone for every reader. */
  lemma DeleteNoteEffect(db: Db, caller: Id, noteId: Id, now: Timestamp)
    requires DeleteNote(db, caller, noteId, now).result.Ok?
    ensures var after := DeleteNote(db, caller, noteId, now).after;
      && after.users == db.users
      && after.notes.Keys == db.notes.Keys
      && (forall n :: n in db.notes && n != noteId ==> after.notes[n] == db.notes[n])
      && after.notes[noteId] == db.notes[noteId].(isActive := false, lastModifiedAt := now)
      && FetchNote(after, noteId) == Err(Default(DocumentNotExists))
  {
  }

  /** A deleted note disappears from every user's listing. */
  lemma DeletedNoteNotListed(db: Db, caller: Id, noteId: Id, now: Timestamp, reader: Id)
    requires DeleteNote(db, caller, noteId, now).result.Ok?
    requires reader in db.users
    ensures var after := DeleteNote(db, caller, noteId, now).after;
      reader in after.users && noteId !in GetNotes(after, reader, None).value
  {
  }

  /** A successful update overwrites exactly the supplied title and body; the
      author, the active flag, other notes and all users stay as they were. */
  lemma UpdateNoteEffect(db: Db, caller: Id, noteId: Id, fields: UpdateFields, now: Timestamp)
    requires UpdateNote(db, caller, noteId, fields, now).result.Ok?
    ensures var after := UpdateNote(db, caller, noteId, fields, now).after;
      var was := db.notes[noteId];
      && after.users == db.users
      && after.notes.Keys == db.notes.Keys
      && (forall n :: n in db.notes && n != noteId ==> after.notes[n] == db.notes[n])
      && after.notes[noteId].author == was.author == caller
      && after.notes[noteId].isActive
      && after.notes[noteId].createdAt == was.createdAt
      && after.notes[noteId].title == (if fields.title.Some? then fields.title.value else was.title)
      && after.notes[noteId].body == (if fields.body.Some? then fields.body.value else was.body)
      && after.notes[noteId].lastModifiedAt == now
  {
  }

  /** A successful share appends the note id to the recipient's shared list
      and changes nothing else: the note, the author's record and every other
      user are untouched. */
  lemma ShareNoteEffect(db: Db, caller: Id, noteId: Id, shareWith: string, now: Timestamp)
    requires ShareNote(db, caller, noteId, shareWith, now).result.Ok?
    ensures FindActiveUser(db, shareWith).Some?
    ensures var after := ShareNote(db, caller, noteId, shareWith, now).after;
      var rid := FindActiveUser(db, shareWith).value;
      && rid != caller && rid != db.notes[noteId].author
      && after.notes == db.notes
      && after.users.Keys == db.users.Keys
      && after.users[rid] == db.users[rid].(sharedNotes := db.users[rid].sharedNotes + [noteId],
                                             lastModifiedAt := now)
      && (forall u :: u in db.users && u != rid ==> after.users[u] == db.users[u])
      && (caller in db.users ==> after.users[caller] == db.users[caller])
  {
  }

  // ---------------------------------------------------------------------
  // Invariant preservation
  // ---------------------------------------------------------------------

  /** Changing note contents but not the set of notes, their authors or the
      users keeps the store consistent. */
  lemma ContentChangePreserves(db: Db, after: Db)
    requires Consistent(db)
    requires after.users == db.users && after.nextId == db.nextId
    requires after.notes.Keys == db.notes.Keys
    requires forall n :: n in db.notes ==> after.notes[n].author == db.notes[n].author
    ensures Consistent(after)
  {
  }

  lemma CreateNotePreserves(db: Db, caller: Id, title: string, body: string, now: Timestamp)
    requires Consistent(db) && caller in db.users
    ensures Consistent(CreateNote(db, caller, title, body, now).after)
  {
    var s := CreateNote(db, caller, title, body, now);
    var id := db.nextId;
    var after := s.after;
    forall u | u in db.users
      ensures id !in db.users[u].notes && id !in db.users[u].sharedNotes
    {
      assert id !in db.notes;
    }
    var own := db.users[caller].notes;
    assert NoDuplicates(own + [id]) by {
      forall i, j | 0 <= i < j < |own + [id]| ensures (own + [id])[i] != (own + [id])[j] {
        if j == |own| { assert own[i] in own; }
      }
    }
    assert OwnListsExact(after) by {
      forall u | u in after.users
        ensures forall n :: n in after.users[u].notes ==> n in after.notes && after.notes[n].author == u
      {
        forall n | n in after.users[u].notes ensures n in after.notes && after.notes[n].author == u {
          if u == caller && n != id {
            assert n in own;
          }
        }
      }
    }
    assert NotesListedByAuthor(after) by {
      forall n | n in after.notes
        ensures after.notes[n].author in after.users && n in after.users[after.notes[n].author].notes
      {
        if n != id {
          var a := db.notes[n].author;
          assert n in db.users[a].notes;
          if a == caller { assert n in own + [id]; }
        } else {
          assert id in own + [id];
        }
      }
    }
    assert SharedListsClean(after) by {
      forall u | u in after.users
        ensures forall n :: n in after.users[u].sharedNotes ==> n in after.notes && after.notes[n].author != u
      {
        forall n | n in after.users[u].sharedNotes
          ensures n in after.notes && after.notes[n].author != u
        {
          assert n in db.users[u].sharedNotes;
        }
      }
    }
  }

  lemma DeleteNotePreserves(db: Db, caller: Id, noteId: Id, now: Timestamp)
    requires Consistent(db)
    ensures Consistent(DeleteNote(db, caller, noteId, now).after)
  {
    var s := DeleteNote(db, caller, noteId, now);
    if s.result.Ok? {
      ContentChangePreserves(db, s.after);
    }
  }

  lemma UpdateNotePreserves(db: Db, caller: Id, noteId: Id, fields: UpdateFields, now: Timestamp)
    requires Consistent(db)
    ensures Consistent(UpdateNote(db, caller, noteId, fields, now).after)
  {
    var s := UpdateNote(db, caller, noteId, fields, now);
    if s.result.Ok? {
      ContentChangePreserves(db, s.after);
    }
  }

  lemma ShareNotePreserves(db: Db, caller: Id, noteId: Id, shareWith: string, now: Timestamp)
    requires Consistent(db)
    ensures Consistent(ShareNote(db, caller, noteId, shareWith, now).after)
  {
    var s := ShareNote(db, caller, noteId, shareWith, now);
    if s.result.Ok? {
      ShareNoteEffect(db, caller, noteId, shareWith, now);
      var rid := FindActiveUser(db, shareWith).value;
      var shared := db.users[rid].sharedNotes;
      assert noteId !in shared;
      assert NoDuplicates(shared + [noteId]) by {
        forall i, j | 0 <= i < j < |shared + [noteId]|
          ensures (shared + [noteId])[i] != (shared + [noteId])[j]
        {
          if j == |shared| { assert shared[i] in shared; }
        }
      }
      assert SharedListsClean(s.after) by {
        forall u | u in s.after.users
          ensures forall n :: n in s.after.users[u].sharedNotes ==>
            n in s.after.notes && s.after.notes[n].author != u
        {
          if u == rid {
            forall n | n in s.after.users[u].sharedNotes
              ensures n in s.after.notes && s.after.notes[n].author != u
            {
              if n != noteId { assert n in shared; }
            }
          }
        }
      }
      assert ActiveUsernamesUnique(s.after) by {
        forall u, v | u in s.after.users && v in s.after.users && s.after.users[u].isActive
          && s.after.users[v].isActive && s.after.users[u].username == s.after.users[v].username
          ensures u == v
        {
          assert db.users[u].isActive && db.users[v].isActive;
        }
      }
    }
  }

  // ---------------------------------------------------------------------
  // Sequences of operations
  // ---------------------------------------------------------------------

  /** Creating a note and then fetching it yields the note as created. */
  lemma CreateThenFetch(db: Db, caller: Id, title: string, body: string, now: Timestamp)
    requires caller in db.users
    ensures var s := CreateNote(db, caller, title, body, now);
      FetchNote(s.after, s.result.value) == Ok(Note(caller, title, body, true, now, now))
  {
  }

  /** Repeating a successful share to the same recipient fails with
      AlreadyShared and changes nothing. */
  lemma ShareTwiceFails(db: Db, caller: Id, noteId: Id, shareWith: string, t1: Timestamp, t2: Timestamp)
    requires Consistent(db)
    requires ShareNote(db, caller, noteId, shareWith, t1).result.Ok?
    ensures var mid := ShareNote(db, caller, noteId, shareWith, t1).after;
      ShareNote(mid, caller, noteId, shareWith, t2) == Step(Err(Default(AlreadyShared)), mid)
  {
    var mid := ShareNote(db, caller, noteId, shareWith, t1).after;
    ShareNoteEffect(db, caller, noteId, shareWith, t1);
    ShareNotePreserves(db, caller, noteId, shareWith, t1);
    var rid := FindActiveUser(db, shareWith).value;
    FindActiveUserUnique(mid, shareWith, rid);
    assert noteId in mid.users[rid].sharedNotes by {
      assert mid.users[rid].sharedNotes == db.users[rid].sharedNotes + [noteId];
    }
  }

  /** After a successful share the recipient can read the note: it is in
      their listing and fetching it by id succeeds. */
  lemma ShareGrantsRead(db: Db, caller: Id, noteId: Id, shareWith: string, now: Timestamp)
    requires ShareNote(db, caller, noteId, shareWith, now).result.Ok?
    ensures FindActiveUser(db, shareWith).Some?
    ensures var after := ShareNote(db, caller, noteId, shareWith, now).after;
      var rid := FindActiveUser(db, shareWith).value;
      && rid in after.users
      && noteId in GetNotes(after, rid, None).value
      && GetNotes(after, rid, Some(noteId)) == Ok(map[noteId := db.notes[noteId]])
  {
    ShareNoteEffect(db, caller, noteId, shareWith, now);
    var after := ShareNote(db, caller, noteId, shareWith, now).after;
    var rid := FindActiveUser(db, shareWith).value;
    assert noteId in after.users[rid].sharedNotes by {
      assert after.users[rid].sharedNotes == db.users[rid].sharedNotes + [noteId];
    }
  }

  /** The author sharing a note under their own active username fails with
      CannotShareNoteToYourself. */
  lemma ShareWithSelfFails(db: Db, caller: Id, noteId: Id, now: Timestamp)
    requires Consistent(db)
    requires caller in db.users && db.users[caller].isActive
    requires IsLive(db, noteId) && db.notes[noteId].author == caller
    ensures ShareNote(db, caller, noteId, db.users[caller].username, now).result ==
      Err(Default(CannotShareNoteToYourself))
  {
    FindActiveUserUnique(db, db.users[caller].username, caller);
  }

  /** A reader the note was shared with sees it in the listing, yet may
      neither update nor delete it. */
  lemma SharedReaderCannotWrite(db: Db, reader: Id, noteId: Id, fields: UpdateFields, now: Timestamp)
    requires Consistent(db) && reader in db.users
    requires IsLive(db, noteId) && noteId in db.users[reader].sharedNotes
    ensures noteId in GetNotes(db, reader, None).value
    ensures UpdateNote(db, reader, noteId, fields, now).result == Err(Default(ForbiddenAccess))
    ensures DeleteNote(db, reader, noteId, now).result == Err(Default(ForbiddenAccess))
  {
  }
}
