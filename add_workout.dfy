/** The add-workout form: for a logged-in user's POST, derive the image path
    from the upload and insert one row with the submitted fields. */
module AddWorkout {
  import opened Php
  import opened Store

  /** PHP's `UPLOAD_ERR_OK`. */
  const UploadErrOk := 0
  const UploadDir := "uploads/"

  /** `$_FILES['image']`: the client's file name and the upload error code. */
  datatype Upload = Upload(name: string, error: int)

  /** The submitted form fields, each `null` when the client left it out.
      None of them is validated. */
  datatype Form = Form(date: Option<string>, workoutType: Option<string>, duration: Option<string>, notes: Option<string>)

  datatype Outcome = RedirectToLogin | ShowForm | RedirectToDashboard

  /** The stored image path: only a successful upload gets one, and it is
      the upload directory followed by a single path component. */
  function ImagePath(upload: Option<Upload>): (image: Option<string>)
    ensures image.Some? <==> upload.Some? && upload.value.error == UploadErrOk
    ensures image.Some? ==>
              && UploadDir <= image.value
              && '/' !in image.value[|UploadDir|..]
              && image.value[|UploadDir|..] == Basename(upload.value.name)
  {
    if upload.Some? && upload.value.error == UploadErrOk then Some(UploadDir + Basename(upload.value.name)) else None
  }

  /** The row a POST inserts: `date`, not `workout_date`, is set. */
  function NewRow(id: Id, userId: Id, form: Form, image: Option<string>): (w: Workout)
    ensures w.id == id && w.userId == userId && w.image == image
    ensures w.date == form.date && w.workoutType == form.workoutType
    ensures w.duration == form.duration && w.notes == form.notes
    ensures forall d :: !OnDay(w, userId, d)
  {
    Workout(id, userId, form.date, None, form.workoutType, form.duration, form.notes, image)
  }

  /** The handler. Moving the uploaded file is left to the filesystem; only
      the path stored in the row is modelled. */
  method Handle(db: Database, session: Session, isPost: bool, form: Form, upload: Option<Upload>)
    returns (out: Outcome)
    requires db.Valid()
    modifies db
    ensures db.Valid()
    ensures session.userId.None? ==> out == RedirectToLogin && unchanged(db)
    ensures session.userId.Some? && !isPost ==> out == ShowForm && unchanged(db)
    ensures session.userId.Some? && isPost ==>
              && out == RedirectToDashboard
              && db.workouts == old(db.workouts) + [NewRow(old(db.nextWorkoutId), session.userId.value, form, ImagePath(upload))]
              && db.nextWorkoutId == old(db.nextWorkoutId) + 1
              && db.users == old(db.users) && db.nextUserId == old(db.nextUserId)
              && CountOf(db.workouts, session.userId.value) == CountOf(old(db.workouts), session.userId.value) + 1
              && forall d :: CountOn(db.workouts, session.userId.value, d) == CountOn(old(db.workouts), session.userId.value, d)
  {
    if session.userId.None? {
      return RedirectToLogin;
    }
    if !isPost {
      return ShowForm;
    }
    var userId := session.userId.value;
    var image := ImagePath(upload);
    var row := NewRow(db.nextWorkoutId, userId, form, image);
    AppendFreshWorkout(db.workouts, row, db.nextWorkoutId);
    InsertUndated(db.workouts, row, userId);
    db.workouts := db.workouts + [row];
    db.nextWorkoutId := db.nextWorkoutId + 1;
    out := RedirectToDashboard;
  }
}
