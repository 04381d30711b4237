/** The registration page: on a POST, reject empty fields, reject a taken
    username, otherwise insert the user with a hashed password and log the
    new user in. */
module Register {
  import opened Php
  import opened Store

  const EmptyFieldsMessage := "Имя пользователя и пароль не могут быть пустыми."
  const TakenMessage := "Пользователь с таким именем уже существует."

  datatype Outcome =
    | ShowForm                   // not a POST: the form is rendered
    | Rejected(message: string)  // a message is echoed and the request ends
    | Registered(id: Id)         // redirect to the dashboard as the new user

  /** The handler. `salt` is the randomness `password_hash` draws. A missing
      form field is the empty string here, which `empty()` rejects alike. */
  method Handle(db: Database, session: Session, isPost: bool, username: string, password: string, salt: nat)
    returns (out: Outcome)
    requires db.Valid()
    modifies db, session
    ensures db.Valid()
    ensures !isPost ==> out == ShowForm
    ensures isPost && (Empty(username) || Empty(password)) ==> out == Rejected(EmptyFieldsMessage)
    ensures isPost && !Empty(username) && !Empty(password) && FindUserByName(old(db.users), username).Some? ==>
              out == Rejected(TakenMessage)
    ensures out.Registered? <==>
              isPost && !Empty(username) && !Empty(password) && FindUserByName(old(db.users), username).None?
    ensures !out.Registered? ==> unchanged(db) && unchanged(session)
    ensures out.Registered? ==>
              && out.id == old(db.nextUserId)
              && db.users == old(db.users) + [User(out.id, username, PasswordHash(password, salt))]
              && db.nextUserId == old(db.nextUserId) + 1
              && db.workouts == old(db.workouts) && db.nextWorkoutId == old(db.nextWorkoutId)
              && session.userId == Some(out.id)
              && session.username == Some(username)
              && session.workoutType == old(session.workoutType)
  {
    if !isPost {
      return ShowForm;
    }
    if Empty(username) || Empty(password) {
      return Rejected(EmptyFieldsMessage);
    }
    var existing := FindUserByName(db.users, username);
    if existing.Some? {
      return Rejected(TakenMessage);
    }
    var hash := PasswordHash(password, salt);
    var id := db.nextUserId;
    db.users := db.users + [User(id, username, hash)];
    db.nextUserId := db.nextUserId + 1;
    session.userId := Some(id);
    session.username := Some(username);
    out := Registered(id);
  }
}
