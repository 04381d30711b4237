/** The login page: on a POST, look the user up by name and verify the
    password against the stored hash. */
module Login {
  import opened Php
  import opened Store

  /** One message for a missing user and for a wrong password alike. */
  const ErrorMessage := "Неправильное имя пользователя или пароль."

  datatype Outcome =
    | ShowForm                  // not a POST
    | LoggedIn(id: Id)          // redirect to the dashboard
    | Failed(message: string)   // the form is rendered again with the message

  /** The credentials are accepted: a user of that name exists and the
      password verifies against that user's stored hash. */
  predicate Accepts(users: seq<User>, username: string, password: string)
  {
    var found := FindUserByName(users, username);
    found.Some? && PasswordVerify(password, found.value.password)
  }

  /** The handler. It only reads the users table and only ever writes
      `user_id` into the session; the cached username stays as it was. */
  method Handle(db: Database, session: Session, isPost: bool, username: string, password: string)
    returns (out: Outcome)
    modifies session
    ensures !isPost ==> out == ShowForm && unchanged(session)
    ensures isPost && Accepts(db.users, username, password) ==>
              && out == LoggedIn(FindUserByName(db.users, username).value.id)
              && session.userId == Some(out.id)
              && session.username == old(session.username)
              && session.workoutType == old(session.workoutType)
    ensures isPost && !Accepts(db.users, username, password) ==>
              out == Failed(ErrorMessage) && unchanged(session)
  {
    if !isPost {
      return ShowForm;
    }
    if Accepts(db.users, username, password) {
      var user := FindUserByName(db.users, username);
      session.userId := Some(user.value.id);
      out := LoggedIn(user.value.id);
    } else {
      out := Failed(ErrorMessage);
    }
  }

  /** With unique usernames the login succeeds exactly for the password some
      user of that name registered with, and logs in as that user. */
  lemma AcceptsRegistered(users: seq<User>, i: nat, password: string)
    requires UniqueUsernames(users) && i < |users|
    ensures Accepts(users, users[i].username, password) <==> PasswordVerify(password, users[i].password)
    ensures FindUserByName(users, users[i].username) == Some(users[i])
  {
    FindUserByNameUnique(users, i);
  }
}
