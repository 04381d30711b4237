/** The guided training page: for a logged-in user, a POST carrying
    `finish_workout` records one finished workout of the session's type at
    the current time. The page's countdown timer runs in the browser and does
    not gate the submission. */
module TrainingTemplate {
  import opened Php
  import opened Store

  const NotAuthorizedMessage := "Ошибка: пользователь не авторизован."

  datatype Outcome =
    | NotAuthorized(message: string)  // echoed, and the request ends
    | Page(workoutType: string)       // the page, nothing recorded
    | Finished(workoutType: string)   // a success line, then the page

  /** `$_SESSION['workout_type']`, or '' when unset. */
  function SessionWorkoutType(workoutType: Option<string>): (t: string)
    ensures workoutType.Some? ==> t == workoutType.value
    ensures workoutType.None? ==> t == ""
  {
    if workoutType.Some? then workoutType.value else ""
  }

  /** The row the finish button inserts: user, type and `workout_date = NOW()`
      only; no `date`, duration, notes or image. */
  function FinishedRow(id: Id, userId: Id, workoutType: string, now: Day): (w: Workout)
    ensures w.id == id && w.userId == userId && w.workoutType == Some(workoutType)
    ensures forall d :: OnDay(w, userId, d) <==> d == now
    ensures w.date.None? && w.duration.None? && w.notes.None? && w.image.None?
  {
    Workout(id, userId, None, Some(now), Some(workoutType), None, None, None)
  }

  /** The handler; `now` is the day of `NOW()`. */
  method Handle(db: Database, session: Session, isPost: bool, finishWorkout: bool, now: Day)
    returns (out: Outcome)
    requires db.Valid()
    modifies db
    ensures db.Valid()
    ensures session.userId.None? ==> out == NotAuthorized(NotAuthorizedMessage) && unchanged(db)
    ensures session.userId.Some? && !(isPost && finishWorkout) ==>
              out == Page(SessionWorkoutType(session.workoutType)) && unchanged(db)
    ensures session.userId.Some? && isPost && finishWorkout ==>
              && out == Finished(SessionWorkoutType(session.workoutType))
              && db.workouts == old(db.workouts) + [FinishedRow(old(db.nextWorkoutId), session.userId.value, out.workoutType, now)]
              && db.nextWorkoutId == old(db.nextWorkoutId) + 1
              && db.users == old(db.users) && db.nextUserId == old(db.nextUserId)
              && CountOf(db.workouts, session.userId.value) == CountOf(old(db.workouts), session.userId.value) + 1
              && CountOn(db.workouts, session.userId.value, now) == CountOn(old(db.workouts), session.userId.value, now) + 1
  {
    if session.userId.None? {
      return NotAuthorized(NotAuthorizedMessage);
    }
    var userId := session.userId.value;
    var workoutType := SessionWorkoutType(session.workoutType);
    if isPost && finishWorkout {
      var row := FinishedRow(db.nextWorkoutId, userId, workoutType, now);
      CountsAfterInsert(db.workouts, row, userId, now);
      AppendFreshWorkout(db.workouts, row, db.nextWorkoutId);
      db.workouts := db.workouts + [row];
      db.nextWorkoutId := db.nextWorkoutId + 1;
      out := Finished(workoutType);
    } else {
      out := Page(workoutType);
    }
  }
}
