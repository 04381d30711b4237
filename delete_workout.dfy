/** The delete link: for a logged-in user, delete the workout of the given id
    if and only if that user owns it; always redirect. */
module DeleteWorkout {
  import opened Store

  datatype Outcome = RedirectToLogin | RedirectToDashboard

  /** The handler; `workoutId` is `$_GET['id']`. */
  method Handle(db: Database, session: Session, workoutId: int) returns (out: Outcome)
    requires db.Valid()
    modifies db
    ensures db.Valid()
    ensures session.userId.None? ==> out == RedirectToLogin && unchanged(db)
    ensures session.userId.Some? ==>
              && out == RedirectToDashboard
              && db.workouts == DeleteWhere(old(db.workouts), workoutId, session.userId.value)
              && db.users == old(db.users)
              && db.nextUserId == old(db.nextUserId) && db.nextWorkoutId == old(db.nextWorkoutId)
  {
    if session.userId.None? {
      return RedirectToLogin;
    }
    var userId := session.userId.value;
    DeleteKeepsUniqueIds(db.workouts, workoutId, userId);
    ghost var before := db.workouts;
    db.workouts := DeleteWhere(db.workouts, workoutId, userId);
    forall i | 0 <= i < |db.workouts| ensures db.workouts[i].id < db.nextWorkoutId {
      assert db.workouts[i] in before;
    }
    out := RedirectToDashboard;
  }
}
