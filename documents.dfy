/** The two document collections of the store (notes and users), the
    invariants that tie them together, and the username lookup that every
    user query goes through. */
module Documents {
  import opened Exceptions

  /** Document ids are opaque, comparable and generated by the store. */
  type Id = nat

  /** Wall-clock instants are opaque; only equality is ever observed. */
  type Timestamp = int

  /** A note document. */
  datatype Note = Note(
    author: Id,
    title: string,
    body: string,
    isActive: bool,
    createdAt: Timestamp,
    lastModifiedAt: Timestamp)

  /** A user document. `password` holds the hex form of the password digest. */
  datatype User = User(
    username: string,
    password: string,
    firstName: string,
    lastName: string,
    notes: seq<Id>,
    sharedNotes: seq<Id>,
    isActive: bool,
    createdAt: Timestamp,
    lastModifiedAt: Timestamp)

  /** The whole store. `nextId` stands for the id generator: every id handed
      out so far is below it. */
  datatype Db = Db(notes: map<Id, Note>, users: map<Id, User>, nextId: Id)

  /** What one operation returns, and the store it leaves behind. */
  datatype Step<T> = Step(result: Result<T>, after: Db)

  predicate NoDuplicates(s: seq<Id>)
  {
    forall i, j :: 0 <= i < j < |s| ==> s[i] != s[j]
  }

  /** Every id in use was handed out by the generator. */
  ghost predicate IdsIssued(db: Db)
  {
    && (forall id :: id in db.notes ==> id < db.nextId)
    && (forall id :: id in db.users ==> id < db.nextId)
  }

  /** Every note's author exists and lists the note among its own notes. */
  ghost predicate NotesListedByAuthor(db: Db)
  {
    forall id :: id in db.notes ==>
      db.notes[id].author in db.users && id in db.users[db.notes[id].author].notes
  }

  /** A user's own-notes list names only existing notes that user wrote,
      without repetition. */
  ghost predicate OwnListsExact(db: Db)
  {
    forall u :: u in db.users ==>
      && NoDuplicates(db.users[u].notes)
      && forall id :: id in db.users[u].notes ==> id in db.notes && db.notes[id].author == u
  }

  /** A user's shared-notes list names only existing notes written by someone
      else, without repetition. */
  ghost predicate SharedListsClean(db: Db)
  {
    forall u :: u in db.users ==>
      && NoDuplicates(db.users[u].sharedNotes)
      && forall id :: id in db.users[u].sharedNotes ==> id in db.notes && db.notes[id].author != u
  }

  predicate ActiveNamed(user: User, username: string)
  {
    user.isActive && user.username == username
  }

  /** At most one active user carries a given username. */
  ghost predicate ActiveUsernamesUnique(db: Db)
  {
    forall u, v ::
      (u in db.users && v in db.users && db.users[u].isActive && db.users[v].isActive
       && db.users[u].username == db.users[v].username) ==> u == v
  }

  /** The invariant every operation of the service keeps. */
  ghost predicate Consistent(db: Db)
  {
    && IdsIssued(db)
    && NotesListedByAuthor(db)
    && OwnListsExact(db)
    && SharedListsClean(db)
    && ActiveUsernamesUnique(db)
  }

  /** The empty store. */
  function Empty(): (db: Db)
    ensures Consistent(db)
    ensures db.notes == map[] && db.users == map[]
  {
    Db(map[], map[], 0)
  }

  /** `find_one({"isActive": True, "username": username})` on the users
      collection: the active user with that username, if there is one. */
  ghost function FindActiveUser(db: Db, username: string): (r: Option<Id>)
    ensures r.Some? ==> r.value in db.users && ActiveNamed(db.users[r.value], username)
    ensures r.None? <==> forall u :: u in db.users ==> !ActiveNamed(db.users[u], username)
  {
    if exists u :: u in db.users && ActiveNamed(db.users[u], username) then
      var u :| u in db.users && ActiveNamed(db.users[u], username);
      Some(u)
    else
      None
  }

  /** With unique active usernames the lookup is determined by the store: any
      active user with the name is the one it finds. */
  lemma FindActiveUserUnique(db: Db, username: string, u: Id)
    requires ActiveUsernamesUnique(db)
    requires u in db.users && ActiveNamed(db.users[u], username)
    ensures FindActiveUser(db, username) == Some(u)
  {
    var r := FindActiveUser(db, username);
    assert r.Some?;
  }
}
