/** Runs of several requests against a fresh store, one browser session per
    client, showing what the handlers' contracts let a caller conclude. */
module Scenarios {
  import opened Php
  import opened Store
  import Register
  import Login
  import DeleteWorkout
  import AddWorkout
  import TrainingTemplate
  import Dashboard

  /** Registering and then logging in with the same credentials, from a
      second browser, logs in as the newly created user. */
  method RegisterThenLogin(name: string, password: string, salt: nat)
    returns (registered: Register.Outcome, loggedIn: Login.Outcome)
    requires !Empty(name) && !Empty(password)
    ensures registered.Registered?
    ensures loggedIn == Login.LoggedIn(registered.id)
  {
    var db := new Database();
    var first := new Session();
    registered := Register.Handle(db, first, true, name, password, salt);
    assert db.users == [User(registered.id, name, PasswordHash(password, salt))];
    var second := new Session();
    loggedIn := Login.Handle(db, second, true, name, password);
  }

  /** A second registration under the same name is refused, whatever its
      password, and the table keeps exactly one account. */
  method RegisterTwice(name: string, password: string, otherPassword: string, salt: nat, otherSalt: nat)
    returns (first: Register.Outcome, second: Register.Outcome, accounts: nat)
    requires !Empty(name) && !Empty(password) && !Empty(otherPassword)
    ensures first.Registered?
    ensures second == Register.Rejected(Register.TakenMessage)
    ensures accounts == 1
  {
    var db := new Database();
    var session := new Session();
    first := Register.Handle(db, session, true, name, password, salt);
    var other := new Session();
    second := Register.Handle(db, other, true, name, otherPassword, otherSalt);
    accounts := |db.users|;
  }

  /** `empty()` rejects the username "0" like the empty one. */
  method RegisterZero(password: string, salt: nat) returns (out: Register.Outcome, accounts: nat)
    ensures out == Register.Rejected(Register.EmptyFieldsMessage)
    ensures accounts == 0
  {
    var db := new Database();
    var session := new Session();
    out := Register.Handle(db, session, true, "0", password, salt);
    accounts := |db.users|;
  }

  /** One user's workout survives another user's delete request for its id. */
  method DeleteByOtherUser(form: AddWorkout.Form) returns (before: seq<Workout>, after: seq<Workout>)
    ensures |before| == 1
    ensures after == before
  {
    var db := new Database();
    var alice := new Session();
    var a := Register.Handle(db, alice, true, "alice", "secret", 1);
    var added := AddWorkout.Handle(db, alice, true, form, None);
    before := db.workouts;
    var bob := new Session();
    var b := Register.Handle(db, bob, true, "bob", "hunter2", 2);
    var deleted := DeleteWorkout.Handle(db, bob, before[0].id);
    DeleteOthersWorkout(before, before[0].id, b.id);
    after := db.workouts;
  }

  /** A workout from the full form raises the dashboard's total by one and
      leaves today's count, and so the progress, as it was. */
  method AddRaisesTotal(form: AddWorkout.Form, today: Day)
    returns (earlier: Dashboard.Page, later: Dashboard.Page)
    ensures earlier.View? && later.View?
    ensures later.totalCount == earlier.totalCount + 1
    ensures later.todayCount == earlier.todayCount && later.progress == earlier.progress
  {
    var db := new Database();
    var session := new Session();
    var r := Register.Handle(db, session, true, "runner", "pa55word", 7);
    earlier := Dashboard.Handle(db, session, today, GroupByDay(db.workouts, r.id, Dashboard.QueryWindow(today)));
    var added := AddWorkout.Handle(db, session, true, form, None);
    later := Dashboard.Handle(db, session, today, GroupByDay(db.workouts, r.id, Dashboard.QueryWindow(today)));
  }

  /** A training finished exactly five days ago falls inside the trend query's
      window but outside the five labels: the chart gets six values for five
      labels, the sixth being that day's count. */
  method TemplateFiveDaysAgo(today: Day, workoutType: string) returns (page: Dashboard.Page)
    ensures page.View?
    ensures |page.labels| == 5
    ensures page.workoutCounts == [0, 0, 0, 0, 0, 1]
  {
    var db := new Database();
    var session := new Session();
    var r := Register.Handle(db, session, true, "yogi", "namaste", 3);
    session.workoutType := Some(workoutType);
    var done := TrainingTemplate.Handle(db, session, true, true, today - 5);
    var row := db.workouts[0];
    assert db.workouts == [row] && OnDay(row, r.id, today - 5);
    var rows := GroupByDay(db.workouts, r.id, Dashboard.QueryWindow(today));
    SingleRowGrouped(row, r.id, today - 5, Dashboard.QueryWindow(today));
    page := Dashboard.Handle(db, session, today, rows);
    TrendWithOneEarlierDay(today);
  }

  /** A table of one row groups to that row's day with count 1. */
  lemma SingleRowGrouped(w: Workout, uid: Id, d: Day, win: Window)
    requires OnDay(w, uid, d) && win.Contains(d)
    ensures GroupByDay([w], uid, win) == [(d, 1)]
  {
    assert [w][1..] == [];
    assert DaysIn([w], uid, win) == [d];
  }

  /** Overlaying one row for the day before the window appends it after today. */
  lemma TrendWithOneEarlierDay(today: Day)
    ensures Dashboard.Trend(today, [(today - 5, 1)]) == [0, 0, 0, 0, 0, 1]
  {
    var m := Dashboard.Prefilled(today);
    Dashboard.PrefilledHasKey(today, today - 5);
    assert [(today - 5, 1)][..0] == [];
    assert PutAll(m, [(today - 5, 1)]) == m + [(today - 5, 1)];
  }

  /** Login writes only `user_id`: a browser that registered as one user and
      then logs in as another, without logging out, keeps greeting the first. */
  method StaleGreetingAfterLogin(today: Day)
    returns (second: Id, greeted: Option<string>, current: Option<Id>)
    ensures current == Some(second)
    ensures greeted == Some("alice")
  {
    var db := new Database();
    var browser := new Session();
    var a := Register.Handle(db, browser, true, "alice", "secret", 1);
    var other := new Session();
    var b := Register.Handle(db, other, true, "bob", "hunter2", 2);
    second := b.id;
    assert db.users[1] == User(b.id, "bob", PasswordHash("hunter2", 2));
    FindUserByNameUnique(db.users, 1);
    var login := Login.Handle(db, browser, true, "bob", "hunter2");
    var page := Dashboard.Handle(db, browser, today, GroupByDay(db.workouts, b.id, Dashboard.QueryWindow(today)));
    greeted, current := browser.username, browser.userId;
  }
}
