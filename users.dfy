/** Signup: the existence check on the username among active users, the
    password digest stored in hexadecimal, and the insertion of a fresh user
    document with empty note lists. */
module Users {
  import opened Exceptions
  import opened Documents

  newtype byte = x: int | 0 <= x < 256

  /** The digest length the keyed hash is configured with, in bytes. */
  const HashLength: nat := 16

  /** A password digest: the output of the keyed, memory-hard hash. */
  type Digest = d: seq<byte> | |d| == HashLength
    witness [0, 0, 0, 0, 0, 0, 0, 0, 0, 0, 0, 0, 0, 0, 0, 0]

  /** The lower-case digits of `bytes.hex()`. */
  const HexDigits: string := "0123456789abcdef"

  /** `bytes.hex()`: two lower-case hexadecimal digits per byte, high nibble
      first. */
  function Hex(bytes: seq<byte>): (s: string)
    ensures |s| == 2 * |bytes|
    ensures forall i :: 0 <= i < |s| ==> s[i] in HexDigits
  {
    if bytes == [] then
      ""
    else
      [HexDigits[bytes[0] as int / 16], HexDigits[bytes[0] as int % 16]] + Hex(bytes[1..])
  }

  lemma HexDigitsDistinct(i: int, j: int)
    requires 0 <= i < 16 && 0 <= j < 16
    requires HexDigits[i] == HexDigits[j]
    ensures i == j
  {
  }

  /** Hex encoding loses nothing: equal encodings come from equal bytes. */
  lemma {:induction false} HexInjective(a: seq<byte>, b: seq<byte>)
    requires Hex(a) == Hex(b)
    ensures a == b
  {
    if a != [] {
      assert b != [];
      var x, y := a[0] as int, b[0] as int;
      assert Hex(a)[0] == HexDigits[x / 16] && Hex(b)[0] == HexDigits[y / 16];
      assert Hex(a)[1] == HexDigits[x % 16] && Hex(b)[1] == HexDigits[y % 16];
      HexDigitsDistinct(x / 16, y / 16);
      HexDigitsDistinct(x % 16, y % 16);
      assert Hex(a)[2..] == Hex(a[1..]) && Hex(b)[2..] == Hex(b[1..]);
      HexInjective(a[1..], b[1..]);
      assert a == [a[0]] + a[1..] && b == [b[0]] + b[1..];
    }
  }

  /** `User.hash_password`: the hex form of the digest of the plaintext.
      `hash` stands for the keyed hash applied to the encoded plaintext. */
  function HashPassword(hash: string -> Digest, password: string): (stored: string)
    ensures |stored| == 2 * HashLength
    ensures forall i :: 0 <= i < |stored| ==> stored[i] in HexDigits
  {
    Hex(hash(password))
  }

  /** Two stored passwords are equal exactly when the digests are: the same
      plaintext always gives the same stored value, and the stored value
      determines the digest. */
  lemma StoredPasswordMatchesDigest(hash: string -> Digest, p: string, q: string)
    ensures HashPassword(hash, p) == HashPassword(hash, q) <==> hash(p) == hash(q)
  {
    if HashPassword(hash, p) == HashPassword(hash, q) {
      HexInjective(hash(p), hash(q));
    }
  }

  /** A plaintext that is not itself a string of hex digits is never what gets
      stored. Every password the signup form accepts contains a special
      character, so none is ever stored as typed. */
  lemma StoredPasswordIsNotPlaintext(hash: string -> Digest, password: string, k: nat)
    requires k < |password| && password[k] !in HexDigits
    ensures HashPassword(hash, password) != password
  {
    var stored := HashPassword(hash, password);
    if |stored| == |password| {
      assert stored[k] in HexDigits;
      assert stored[k] != password[k];
    }
  }

  /** The validated signup payload. */
  datatype SignupRequest = SignupRequest(
    username: string,
    password: string,
    firstName: string,
    lastName: string)

  /** The user document built from a signup payload whose password has
      already been replaced by its stored form: empty note lists, active, and
      one instant for both timestamps. */
  function NewUserDocument(data: SignupRequest, now: Timestamp): (u: User)
    ensures u.username == data.username && u.password == data.password
    ensures u.firstName == data.firstName && u.lastName == data.lastName
    ensures u.notes == [] && u.sharedNotes == []
    ensures u.isActive && u.createdAt == u.lastModifiedAt == now
  {
    User(data.username, data.password, data.firstName, data.lastName, [], [], true, now, now)
  }

  predicate UsernameTaken(db: Db, username: string)
  {
    exists u :: u in db.users && ActiveNamed(db.users[u], username)
  }

  /** `CreateUser.process`: fail if an active user already has the username;
      otherwise store the user with the hashed password and return its id. */
  function CreateUser(db: Db, request: SignupRequest, hash: string -> Digest, now: Timestamp): (s: Step<Id>)
    ensures s.result.Err? <==> UsernameTaken(db, request.username)
    ensures s.result.Err? ==> s == Step(Err(Default(UserAlreadyExists)), db)
    ensures s.result.Ok? ==>
      s.result.value in s.after.users && ActiveNamed(s.after.users[s.result.value], request.username)
  {
    if UsernameTaken(db, request.username) then
      Step(Err(Default(UserAlreadyExists)), db)
    else
      var data := request.(password := HashPassword(hash, request.password));
      var id := db.nextId;
      Step(Ok(id), db.(users := db.users[id := NewUserDocument(data, now)], nextId := id + 1))
  }

  /** Only an ACTIVE user with the same username blocks signup. */
  lemma InactiveUserDoesNotBlock(db: Db, request: SignupRequest, hash: string -> Digest, now: Timestamp)
    requires forall u :: u in db.users && db.users[u].username == request.username ==> !db.users[u].isActive
    ensures CreateUser(db, request, hash, now).result.Ok?
  {
  }

  /** A successful signup adds exactly one user, under a fresh id, holding the
      hashed password and empty note lists; no note and no other user
      changes. */
  lemma CreateUserEffect(db: Db, request: SignupRequest, hash: string -> Digest, now: Timestamp)
    requires Consistent(db)
    requires CreateUser(db, request, hash, now).result.Ok?
    ensures var s := CreateUser(db, request, hash, now);
      var id := s.result.value;
      && id !in db.notes && id !in db.users
      && s.after.notes == db.notes
      && s.after.users.Keys == db.users.Keys + {id}
      && (forall u :: u in db.users ==> s.after.users[u] == db.users[u])
      && s.after.users[id].username == request.username
      && s.after.users[id].firstName == request.firstName
      && s.after.users[id].lastName == request.lastName
      && s.after.users[id].password == HashPassword(hash, request.password)
      && s.after.users[id].notes == [] && s.after.users[id].sharedNotes == []
      && s.after.users[id].isActive
      && s.after.users[id].createdAt == s.after.users[id].lastModifiedAt == now
  {
  }

  lemma CreateUserPreserves(db: Db, request: SignupRequest, hash: string -> Digest, now: Timestamp)
    requires Consistent(db)
    ensures Consistent(CreateUser(db, request, hash, now).after)
  {
    var s := CreateUser(db, request, hash, now);
    if s.result.Ok? {
      var id := db.nextId;
      var after := s.after;
      assert id !in db.users;
      assert NotesListedByAuthor(after) by {
        forall n | n in after.notes
          ensures after.notes[n].author in after.users && n in after.users[after.notes[n].author].notes
        {
          assert db.notes[n].author in db.users;
        }
      }
      assert SharedListsClean(after) by {
        forall u | u in after.users
          ensures forall n :: n in after.users[u].sharedNotes ==> n in after.notes && after.notes[n].author != u
        {
          if u != id {
            assert after.users[u] == db.users[u];
          }
        }
      }
      assert forall u :: u in db.users && db.users[u].isActive ==> db.users[u].username != request.username;
      assert ActiveUsernamesUnique(after);
    }
  }

  /** Signing up twice in a row with the same username succeeds and then
      fails with UserAlreadyExists. */
  lemma SignupTwice(db: Db, first: SignupRequest, second: SignupRequest, hash: string -> Digest,
                    t1: Timestamp, t2: Timestamp)
    requires !UsernameTaken(db, first.username)
    requires second.username == first.username
    ensures CreateUser(db, first, hash, t1).result.Ok?
    ensures var mid := CreateUser(db, first, hash, t1).after;
      CreateUser(mid, second, hash, t2) == Step(Err(Default(UserAlreadyExists)), mid)
  {
    var s := CreateUser(db, first, hash, t1);
    var id := s.result.value;
    assert ActiveNamed(s.after.users[id], second.username);
  }
}
