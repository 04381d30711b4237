/** The relational store and the session the handlers share: the `users` and
    `workouts` tables, their auto-increment counters, the per-browser session,
    and the SQL statements the handlers run, each as a function over the
    table contents. */
module Store {
  import opened Php

  /** An auto-increment row id. */
  type Id = nat

  /** A calendar day, as a day number. A DATETIME column holds a day and a
      time of day; every comparison the handlers make is either `DATE(col) = d`
      or `col >= <midnight of d>`, and both depend on the day alone. */
  type Day = int

  // ---------------------------------------------------------------------------
  // Passwords

  /** A `password_hash(..., PASSWORD_BCRYPT)` digest, as a symbolic term: the
      salt drawn when it was computed and the password it was computed from.
      It is a value of its own type, never a password string. */
  datatype Digest = Bcrypt(salt: nat, preimage: string)

  /** `password_verify($password, $hash)`, for an ideal, collision-free hash. */
  predicate PasswordVerify(password: string, hash: Digest)
  {
    hash.preimage == password
  }

  /** `password_hash($password, PASSWORD_BCRYPT)`; the salt is the randomness
      the call draws, given here as a parameter. */
  function PasswordHash(password: string, salt: nat): (h: Digest)
    ensures PasswordVerify(password, h)
    ensures forall other :: PasswordVerify(other, h) ==> other == password
  {
    Bcrypt(salt, password)
  }

  // ---------------------------------------------------------------------------
  // Rows

  /** A row of `users(id, username, password)`. */
  datatype User = User(id: Id, username: string, password: Digest)

  /** A row of `workouts`. `date` is the form's date as submitted (written by
      the add-workout form only), `workoutDate` the server timestamp (written
      by the training template only); every other column is nullable. */
  datatype Workout = Workout(
    id: Id,
    userId: Id,
    date: Option<string>,
    workoutDate: Option<Day>,
    workoutType: Option<string>,
    duration: Option<string>,
    notes: Option<string>,
    image: Option<string>)

  predicate UniqueUsernames(users: seq<User>)
  {
    forall i, j :: 0 <= i < j < |users| ==> users[i].username != users[j].username
  }

  predicate UniqueUserIds(users: seq<User>)
  {
    forall i, j :: 0 <= i < j < |users| ==> users[i].id != users[j].id
  }

  predicate UniqueWorkoutIds(ws: seq<Workout>)
  {
    forall i, j :: 0 <= i < j < |ws| ==> ws[i].id != ws[j].id
  }

  /** Appending a row whose id is the next auto-increment value keeps the ids
      unique and below the advanced counter. */
  lemma AppendFreshWorkout(ws: seq<Workout>, w: Workout, next: nat)
    requires UniqueWorkoutIds(ws) && (forall i :: 0 <= i < |ws| ==> ws[i].id < next)
    requires w.id == next
    ensures UniqueWorkoutIds(ws + [w])
    ensures forall i :: 0 <= i < |ws + [w]| ==> (ws + [w])[i].id < next + 1
  {
    forall i, j | 0 <= i < j < |ws + [w]| ensures (ws + [w])[i].id != (ws + [w])[j].id {
      if j == |ws| {
        assert (ws + [w])[i] == ws[i];
      }
    }
  }

  /** The database: two tables and the next value of each auto-increment key. */
  class Database {
    var users: seq<User>
    var workouts: seq<Workout>
    var nextUserId: Id
    var nextWorkoutId: Id

    /** Keys are unique and below their counters; usernames are unique. */
    ghost predicate Valid()
      reads this
    {
      && UniqueUserIds(users)
      && UniqueUsernames(users)
      && (forall i :: 0 <= i < |users| ==> users[i].id < nextUserId)
      && UniqueWorkoutIds(workouts)
      && (forall i :: 0 <= i < |workouts| ==> workouts[i].id < nextWorkoutId)
    }

    /** Empty tables; MySQL's AUTO_INCREMENT starts at 1. */
    constructor ()
      ensures Valid()
      ensures users == [] && workouts == [] && nextUserId == 1 && nextWorkoutId == 1
    {
      users, workouts := [], [];
      nextUserId, nextWorkoutId := 1, 1;
    }
  }

  /** `$_SESSION`: the keys the handlers read or write; an unset key is `None`. */
  class Session {
    var userId: Option<Id>
    var username: Option<string>
    var workoutType: Option<string>

    /** A fresh session, before any page has set a key. */
    constructor ()
      ensures userId == None && username == None && workoutType == None
    {
      userId, username, workoutType := None, None, None;
    }
  }

  // ---------------------------------------------------------------------------
  // Queries on `users`

  /** `SELECT * FROM users WHERE username = ?` and one `fetch`: the first
      matching row, or `false` (here `None`) when there is none. */
  function FindUserByName(users: seq<User>, name: string): (r: Option<User>)
    ensures r.Some? ==> r.value in users && r.value.username == name
    ensures r.None? <==> forall u :: u in users ==> u.username != name
  {
    if users == [] then None
    else if users[0].username == name then Some(users[0])
    else FindUserByName(users[1..], name)
  }

  /** `SELECT username FROM users WHERE id = ?` and `fetchColumn`. */
  function FindUserById(users: seq<User>, id: Id): (r: Option<User>)
    ensures r.Some? ==> r.value in users && r.value.id == id
    ensures r.None? <==> forall u :: u in users ==> u.id != id
  {
    if users == [] then None
    else if users[0].id == id then Some(users[0])
    else FindUserById(users[1..], id)
  }

  /** Under unique usernames the lookup finds THE user of that name. */
  lemma {:induction false} FindUserByNameUnique(users: seq<User>, i: nat)
    requires UniqueUsernames(users) && i < |users|
    ensures FindUserByName(users, users[i].username) == Some(users[i])
  {
    if i > 0 {
      assert users[0].username != users[i].username;
      FindUserByNameUnique(users[1..], i - 1);
    }
  }

  /** A user appended under a name nobody holds is what a lookup of that name finds. */
  lemma {:induction false} FindUserByNameAppended(users: seq<User>, u: User)
    requires FindUserByName(users, u.username).None?
    ensures FindUserByName(users + [u], u.username) == Some(u)
  {
    if users != [] {
      assert (users + [u])[1..] == users[1..] + [u];
      FindUserByNameAppended(users[1..], u);
    }
  }

  /** Under unique ids the lookup finds THE user of that id. */
  lemma {:induction false} FindUserByIdUnique(users: seq<User>, i: nat)
    requires UniqueUserIds(users) && i < |users|
    ensures FindUserById(users, users[i].id) == Some(users[i])
  {
    if i > 0 {
      assert users[0].id != users[i].id;
      assert UniqueUserIds(users[1..]) by {
        forall a, b | 0 <= a < b < |users[1..]| ensures users[1..][a].id != users[1..][b].id {
          assert users[1..][a] == users[a + 1] && users[1..][b] == users[b + 1];
        }
      }
      FindUserByIdUnique(users[1..], i - 1);
    }
  }

  // ---------------------------------------------------------------------------
  // Counting queries on `workouts`

  /** The row belongs to `uid` and its `workout_date` falls on day `d`; a NULL
      `workout_date` falls on no day. */
  predicate OnDay(w: Workout, uid: Id, d: Day)
  {
    w.userId == uid && w.workoutDate == Some(d)
  }

  /** `SELECT COUNT(*) FROM workouts WHERE user_id = ?`. */
  function CountOf(ws: seq<Workout>, uid: Id): (c: nat)
    ensures c <= |ws|
    ensures c == 0 <==> forall i :: 0 <= i < |ws| ==> ws[i].userId != uid
  {
    if ws == [] then 0 else (if ws[0].userId == uid then 1 else 0) + CountOf(ws[1..], uid)
  }

  /** `SELECT COUNT(*) FROM workouts WHERE user_id = ? AND DATE(workout_date) = ?`. */
  function CountOn(ws: seq<Workout>, uid: Id, d: Day): (c: nat)
    ensures c <= |ws|
  {
    if ws == [] then 0 else (if OnDay(ws[0], uid, d) then 1 else 0) + CountOn(ws[1..], uid, d)
  }

  /** A user's count for one day never exceeds their total count. */
  lemma {:induction false} CountOnAtMostCountOf(ws: seq<Workout>, uid: Id, d: Day)
    ensures CountOn(ws, uid, d) <= CountOf(ws, uid)
  {
    if ws != [] {
      CountOnAtMostCountOf(ws[1..], uid, d);
    }
  }

  /** A day's count is positive exactly when some row of the user falls on it. */
  lemma {:induction false} CountOnPositive(ws: seq<Workout>, uid: Id, d: Day)
    ensures CountOn(ws, uid, d) > 0 <==> exists i :: 0 <= i < |ws| && OnDay(ws[i], uid, d)
  {
    if ws != [] {
      CountOnPositive(ws[1..], uid, d);
      if exists i :: 0 <= i < |ws| && OnDay(ws[i], uid, d) {
        var i :| 0 <= i < |ws| && OnDay(ws[i], uid, d);
        if i > 0 { assert OnDay(ws[1..][i - 1], uid, d); }
      }
      if exists i :: 0 <= i < |ws[1..]| && OnDay(ws[1..][i], uid, d) {
        var i :| 0 <= i < |ws[1..]| && OnDay(ws[1..][i], uid, d);
        assert OnDay(ws[i + 1], uid, d);
      }
    }
  }

  /** Inserting one row raises its owner's total by one and the count of the
      day it falls on by one; no other user's counts move. */
  lemma {:induction false} CountsAfterInsert(ws: seq<Workout>, w: Workout, uid: Id, d: Day)
    ensures CountOf(ws + [w], uid) == CountOf(ws, uid) + (if w.userId == uid then 1 else 0)
    ensures CountOn(ws + [w], uid, d) == CountOn(ws, uid, d) + (if OnDay(w, uid, d) then 1 else 0)
  {
    if ws != [] {
      assert (ws + [w])[1..] == ws[1..] + [w];
      CountsAfterInsert(ws[1..], w, uid, d);
    }
  }

  /** A row with a NULL `workout_date` adds to the owner's total but to no
      day's count. */
  lemma InsertUndated(ws: seq<Workout>, w: Workout, uid: Id)
    requires w.userId == uid && w.workoutDate.None?
    ensures CountOf(ws + [w], uid) == CountOf(ws, uid) + 1
    ensures forall d :: CountOn(ws + [w], uid, d) == CountOn(ws, uid, d)
  {
    forall d ensures CountOn(ws + [w], uid, d) == CountOn(ws, uid, d) {
      CountsAfterInsert(ws, w, uid, d);
    }
    CountsAfterInsert(ws, w, uid, 0);
  }

  // ---------------------------------------------------------------------------
  // DELETE

  /** The row a `DELETE ... WHERE id = ? AND user_id = ?` removes. */
  predicate Matches(w: Workout, id: int, uid: Id)
  {
    w.id == id && w.userId == uid
  }

  /** `DELETE FROM workouts WHERE id = ? AND user_id = ?`: the table without
      the matching rows, the others in their order. */
  function DeleteWhere(ws: seq<Workout>, id: int, uid: Id): (r: seq<Workout>)
    ensures |r| <= |ws|
    ensures forall w :: w in r ==> w in ws && !Matches(w, id, uid)
    ensures forall w :: w in ws && !Matches(w, id, uid) ==> w in r
  {
    if ws == [] then []
    else if Matches(ws[0], id, uid) then DeleteWhere(ws[1..], id, uid)
    else [ws[0]] + DeleteWhere(ws[1..], id, uid)
  }

  /** The statement works row by row: deleting from two halves of a table and
      joining the results is deleting from the whole, so the surviving rows
      keep their relative order. */
  lemma {:induction false} DeleteWhereConcat(a: seq<Workout>, b: seq<Workout>, id: int, uid: Id)
    ensures DeleteWhere(a + b, id, uid) == DeleteWhere(a, id, uid) + DeleteWhere(b, id, uid)
  {
    if a != [] {
      assert (a + b)[0] == a[0];
      assert (a + b)[1..] == a[1..] + b;
      DeleteWhereConcat(a[1..], b, id, uid);
    } else {
      assert a + b == b;
    }
  }

  /** One row survives exactly when it does not match. */
  lemma DeleteWhereSingle(w: Workout, id: int, uid: Id)
    ensures DeleteWhere([w], id, uid) == if Matches(w, id, uid) then [] else [w]
  {
    assert [w][1..] == [];
  }

  /** With no matching row the statement affects zero rows: the table is
      identical, order included. */
  lemma {:induction false} DeleteNothingMatches(ws: seq<Workout>, id: int, uid: Id)
    requires forall w :: w in ws ==> !Matches(w, id, uid)
    ensures DeleteWhere(ws, id, uid) == ws
  {
    if ws != [] {
      DeleteNothingMatches(ws[1..], id, uid);
    }
  }

  /** Deleting a row that belongs to someone else changes nothing. */
  lemma DeleteOthersWorkout(ws: seq<Workout>, id: int, uid: Id)
    requires forall w :: w in ws && w.id == id ==> w.userId != uid
    ensures DeleteWhere(ws, id, uid) == ws
  {
    DeleteNothingMatches(ws, id, uid);
  }

  /** A second identical delete changes nothing. */
  lemma DeleteIdempotent(ws: seq<Workout>, id: int, uid: Id)
    ensures DeleteWhere(DeleteWhere(ws, id, uid), id, uid) == DeleteWhere(ws, id, uid)
  {
    DeleteNothingMatches(DeleteWhere(ws, id, uid), id, uid);
  }

  /** The deleting user's total drops by the number of rows removed; every
      other user's counts are untouched. */
  lemma {:induction false} DeleteCounts(ws: seq<Workout>, id: int, uid: Id, other: Id, d: Day)
    requires other != uid
    ensures CountOf(DeleteWhere(ws, id, uid), other) == CountOf(ws, other)
    ensures CountOn(DeleteWhere(ws, id, uid), other, d) == CountOn(ws, other, d)
    ensures CountOf(DeleteWhere(ws, id, uid), uid) == CountOf(ws, uid) - (|ws| - |DeleteWhere(ws, id, uid)|)
  {
    if ws != [] {
      DeleteCounts(ws[1..], id, uid, other, d);
      if !Matches(ws[0], id, uid) {
        assert ([ws[0]] + DeleteWhere(ws[1..], id, uid))[1..] == DeleteWhere(ws[1..], id, uid);
      }
    }
  }

  /** Removing rows keeps the ids unique. */
  lemma {:induction false} DeleteKeepsUniqueIds(ws: seq<Workout>, id: int, uid: Id)
    requires UniqueWorkoutIds(ws)
    ensures UniqueWorkoutIds(DeleteWhere(ws, id, uid))
  {
    if ws != [] {
      var rest := DeleteWhere(ws[1..], id, uid);
      assert UniqueWorkoutIds(ws[1..]) by {
        forall i, j | 0 <= i < j < |ws[1..]| ensures ws[1..][i].id != ws[1..][j].id {
          assert ws[1..][i] == ws[i + 1] && ws[1..][j] == ws[j + 1];
        }
      }
      DeleteKeepsUniqueIds(ws[1..], id, uid);
      if !Matches(ws[0], id, uid) {
        var r := [ws[0]] + rest;
        forall j | 0 < j < |r| ensures r[0].id != r[j].id {
          assert r[j] in ws[1..];
          var k :| 0 <= k < |ws[1..]| && ws[1..][k] == r[j];
          assert ws[k + 1] == r[j];
        }
        forall i, j | 0 <= i < j < |r| ensures r[i].id != r[j].id {
          if i > 0 { assert r[i] == rest[i - 1] && r[j] == rest[j - 1]; }
        }
      }
    }
  }

  /** With unique ids, a delete removes exactly one row when the caller owns
      a row of that id, and none otherwise. */
  lemma {:induction false} DeleteRemovesAtMostOne(ws: seq<Workout>, id: int, uid: Id)
    requires UniqueWorkoutIds(ws)
    ensures |DeleteWhere(ws, id, uid)| == |ws| - (if exists w :: w in ws && Matches(w, id, uid) then 1 else 0)
  {
    if ws != [] {
      assert UniqueWorkoutIds(ws[1..]) by {
        forall i, j | 0 <= i < j < |ws[1..]| ensures ws[1..][i].id != ws[1..][j].id {
          assert ws[1..][i] == ws[i + 1] && ws[1..][j] == ws[j + 1];
        }
      }
      if Matches(ws[0], id, uid) {
        forall w | w in ws[1..] ensures !Matches(w, id, uid) {
          var k :| 0 <= k < |ws[1..]| && ws[1..][k] == w;
          assert ws[k + 1] == w;
        }
        DeleteNothingMatches(ws[1..], id, uid);
      } else {
        DeleteRemovesAtMostOne(ws[1..], id, uid);
        assert (exists w :: w in ws && Matches(w, id, uid)) <==> (exists w :: w in ws[1..] && Matches(w, id, uid)) by {
          if exists w :: w in ws && Matches(w, id, uid) {
            var w :| w in ws && Matches(w, id, uid);
            assert w != ws[0];
            assert w in ws[1..];
          }
        }
      }
    }
  }

  // ---------------------------------------------------------------------------
  // The grouped trend query

  /** The `WHERE` on `workout_date` of a dated query: from midnight of `from`,
      and up to the end of day `until` when there is one. */
  datatype Window = Window(from: Day, until: Option<Day>) {
    predicate Contains(d: Day)
    {
      from <= d && (until.Some? ==> d <= until.value)
    }
  }

  /** `rows` is an answer of `SELECT DATE(workout_date), COUNT(*) FROM workouts
      WHERE user_id = ? AND <window> GROUP BY DATE(workout_date)`: one row per
      day of the window on which the user has rows, carrying that day's count,
      in an order SQL leaves unspecified. */
  ghost predicate GroupedRows(rows: seq<(Day, int)>, ws: seq<Workout>, uid: Id, win: Window)
  {
    && DistinctKeys(rows)
    && (forall i :: 0 <= i < |rows| ==> win.Contains(rows[i].0) && rows[i].1 == CountOn(ws, uid, rows[i].0) > 0)
    && (forall d :: win.Contains(d) && CountOn(ws, uid, d) > 0 ==> HasKey(rows, d))
  }

  /** The days of the window on which the user has rows, each once. */
  function DaysIn(ws: seq<Workout>, uid: Id, win: Window): (days: seq<Day>)
    ensures forall i, j :: 0 <= i < j < |days| ==> days[i] != days[j]
    ensures forall i :: 0 <= i < |days| ==> win.Contains(days[i]) && CountOn(ws, uid, days[i]) > 0
    ensures forall d :: win.Contains(d) && CountOn(ws, uid, d) > 0 ==> d in days
  {
    if ws == [] then []
    else
      var rest := DaysIn(ws[1..], uid, win);
      var w := ws[0];
      if w.userId == uid && w.workoutDate.Some? && win.Contains(w.workoutDate.value) && w.workoutDate.value !in rest
      then [w.workoutDate.value] + rest
      else rest
  }

  /** One answer the store can give to the grouped query: so the query always
      has an answer, whatever the table holds. */
  function GroupByDay(ws: seq<Workout>, uid: Id, win: Window): (rows: seq<(Day, int)>)
    ensures GroupedRows(rows, ws, uid, win)
  {
    var days := DaysIn(ws, uid, win);
    var rows := seq(|days|, i requires 0 <= i < |days| => (days[i], CountOn(ws, uid, days[i]) as int));
    assert forall d :: d in days ==> HasKey(rows, d) by {
      forall d | d in days ensures HasKey(rows, d) {
        var i :| 0 <= i < |days| && days[i] == d;
        assert rows[i].0 == d;
      }
    }
    rows
  }
}
