/** Note deletion: `delete_note`. */
module Notes {
  import opened Schema

  /** `delete_note`: removes the note when it exists and does nothing when it does not. */
  function DeleteNoteEffect(db: Db, role: string, noteId: int): Step {
    if role != Admin then Step(Denied, db)
    else if noteId in db.notes then Step(Done, db.(notes := db.notes - {noteId}))
    else Step(Done, db)
  }

  /** An admin's deletion removes exactly that note, or nothing for an unknown id; no other table changes. */
  lemma DeleteNoteRemovesOne(db: Db, role: string, noteId: int)
    requires ValidDb(db)
    ensures var r := DeleteNoteEffect(db, role, noteId);
      && ValidDb(r.db)
      && (r.outcome == Done <==> role == Admin)
      && (r.outcome == Done ==>
            && r.db.notes.Keys == db.notes.Keys - {noteId}
            && (forall id :: id in r.db.notes ==> r.db.notes[id] == db.notes[id])
            && (noteId in db.notes ==> |r.db.notes| == |db.notes| - 1)
            && (noteId !in db.notes ==> r.db == db)
            && r.db.(notes := db.notes) == db)
  {
  }
}
