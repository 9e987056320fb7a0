/** The access-control rules of the note service: read, write and share
    eligibility, decided from a snapshot of the caller and of the note. Each
    check passes or raises the exception the service raises. */
module Access {
  import opened Exceptions
  import opened Documents

  /** `has_read_access`: the caller wrote the note or it was shared with them. */
  function HasReadAccess(callerId: Id, caller: User, noteId: Id, note: Note): (o: Outcome)
    ensures o.Pass? <==> callerId == note.author || noteId in caller.sharedNotes
    ensures o.Fail? ==> o.error == Default(ForbiddenAccess)
  {
    if callerId != note.author && noteId !in caller.sharedNotes then
      Fail(Default(ForbiddenAccess))
    else
      Pass
  }

  /** `has_write_access`: only the author may write. */
  function HasWriteAccess(callerId: Id, note: Note): (o: Outcome)
    ensures o.Pass? <==> callerId == note.author
    ensures o.Fail? ==> o.error == Default(ForbiddenAccess)
  {
    if callerId != note.author then Fail(Default(ForbiddenAccess)) else Pass
  }

  /** `check_if_note_can_be_shared`: the recipient is not the author, and the
      note is not already in the recipient's shared list; the self-share test
      comes first. */
  function CheckIfNoteCanBeShared(noteId: Id, note: Note, recipientId: Id, recipient: User): (o: Outcome)
    ensures o.Pass? <==> recipientId != note.author && noteId !in recipient.sharedNotes
    ensures recipientId == note.author ==> o == Fail(Default(CannotShareNoteToYourself))
    ensures recipientId != note.author && noteId in recipient.sharedNotes ==> o == Fail(Default(AlreadyShared))
  {
    if recipientId == note.author then
      Fail(Default(CannotShareNoteToYourself))
    else if noteId in recipient.sharedNotes then
      Fail(Default(AlreadyShared))
    else
      Pass
  }

  /** Write access implies read access, whatever the caller's shared list. */
  lemma WriteImpliesRead(callerId: Id, caller: User, noteId: Id, note: Note)
    ensures HasWriteAccess(callerId, note).Pass? ==> HasReadAccess(callerId, caller, noteId, note).Pass?
  {
  }

  /** Both access checks fail with the 403 ForbiddenAccess exception. */
  lemma AccessDenialIsForbidden(callerId: Id, caller: User, noteId: Id, note: Note)
    ensures HasReadAccess(callerId, caller, noteId, note).Fail? ==>
      HasReadAccess(callerId, caller, noteId, note).error.statusCode == Forbidden
    ensures HasWriteAccess(callerId, note).Fail? ==>
      HasWriteAccess(callerId, note).error.statusCode == Forbidden
  {
  }

  /** Read access without write access is exactly a share from someone else. */
  lemma ReadOnlyMeansShared(callerId: Id, caller: User, noteId: Id, note: Note)
    ensures HasReadAccess(callerId, caller, noteId, note).Pass? && HasWriteAccess(callerId, note).Fail?
        <==> callerId != note.author && noteId in caller.sharedNotes
  {
  }
}
