/** The dashboard: for a logged-in user, fill in the cached username, count
    today's and all-time workouts, compute the progress towards the daily
    goal, and build the five-day trend series. */
module Dashboard {
  import opened Php
  import opened Store

  /** Workouts per day that make 100%. */
  const DailyGoal := 2
  /** Days in the trend chart, today included. */
  const TrendDays := 5
  /** The name shown when the user row is missing or its name is falsy. */
  const Guest := "Гость"

  datatype Page =
    | RedirectToLogin
    | View(todayCount: nat, totalCount: nat, progress: nat, labels: seq<Day>, workoutCounts: seq<int>)

  // ---------------------------------------------------------------------------
  // Username and progress

  /** The name the dashboard caches when the session has none: the user's
      stored name if the row exists and the name is truthy, else the guest name. */
  function GreetingName(users: seq<User>, uid: Id): (name: string)
    ensures name == Guest || exists u :: u in users && u.id == uid && u.username == name && Truthy(name)
    ensures (forall u :: u in users ==> u.id != uid) ==> name == Guest
  {
    var user := FindUserById(users, uid);
    if user.Some? && Truthy(user.value.username) then user.value.username else Guest
  }

  /** With unique ids, a registered user (whose name `empty()` accepted) is greeted by name. */
  lemma {:induction false} GreetingOfRegistered(users: seq<User>, i: nat)
    requires UniqueUserIds(users) && i < |users| && Truthy(users[i].username)
    ensures GreetingName(users, users[i].id) == users[i].username
  {
    FindUserByIdUnique(users, i);
  }

  /** `min(100, ($today / $daily_goal) * 100)`. With a goal of 2 the PHP float
      is always a whole number, so integer arithmetic is exact. */
  function Progress(todayCount: nat): (p: nat)
    ensures p <= 100
    ensures p < 100 ==> p * DailyGoal == todayCount * 100
    ensures p == 100 <==> todayCount >= DailyGoal
    ensures p == 0 <==> todayCount == 0
  {
    var percent := todayCount * 100 / DailyGoal;
    if percent < 100 then percent else 100
  }

  // ---------------------------------------------------------------------------
  // The five-day trend

  /** The chart labels: the five days ending today, oldest first. */
  function Labels(today: Day): (labels: seq<Day>)
    ensures |labels| == TrendDays && labels[TrendDays - 1] == today
    ensures forall i :: 0 <= i < TrendDays - 1 ==> labels[i + 1] == labels[i] + 1
    ensures forall i, j :: 0 <= i < j < |labels| ==> labels[i] < labels[j]
  {
    seq(TrendDays, i requires 0 <= i < TrendDays => today - (TrendDays - 1) + i)
  }

  /** The pre-filled array: each label day mapped to 0, in label order. */
  function Prefilled(today: Day): (m: seq<(Day, int)>)
    ensures Keys(m) == Labels(today) && DistinctKeys(m)
    ensures forall i :: 0 <= i < |m| ==> m[i].1 == 0
  {
    seq(TrendDays, i requires 0 <= i < TrendDays => (Labels(today)[i], 0))
  }

  /** A key of the pre-filled array is exactly a day from today-4 to today. */
  lemma PrefilledHasKey(today: Day, d: Day)
    ensures HasKey(Prefilled(today), d) <==> today - (TrendDays - 1) <= d <= today
  {
    if today - (TrendDays - 1) <= d <= today {
      assert Prefilled(today)[d - today + (TrendDays - 1)].0 == d;
    }
  }

  /** The `for ($i = 4; $i >= 0; $i--)` loop: append each day to the labels
      and assign it 0 in the data array. */
  method BuildWindow(today: Day) returns (labels: seq<Day>, workoutData: seq<(Day, int)>)
    ensures labels == Labels(today)
    ensures workoutData == Prefilled(today)
  {
    labels, workoutData := [], [];
    var i := TrendDays - 1;
    while i >= 0
      invariant -1 <= i < TrendDays
      invariant labels == Labels(today)[..TrendDays - 1 - i]
      invariant workoutData == Prefilled(today)[..TrendDays - 1 - i]
    {
      var date := today - i;
      assert !HasKey(workoutData, date) by {
        forall j | 0 <= j < |workoutData| ensures workoutData[j].0 != date {
          assert workoutData[j].0 == Labels(today)[j];
        }
      }
      labels := labels + [date];
      workoutData := Put(workoutData, date, 0);
      i := i - 1;
    }
  }

  /** The `foreach` over the grouped rows: `$workout_data[$date] = $count`. */
  method Overlay(workoutData: seq<(Day, int)>, rows: seq<(Day, int)>) returns (out: seq<(Day, int)>)
    requires DistinctKeys(workoutData)
    ensures out == PutAll(workoutData, rows)
  {
    out := workoutData;
    var i := 0;
    while i < |rows|
      invariant 0 <= i <= |rows|
      invariant DistinctKeys(out)
      invariant out == PutAll(workoutData, rows[..i])
    {
      assert rows[..i + 1][..i] == rows[..i];
      out := Put(out, rows[i].0, rows[i].1);
      i := i + 1;
    }
    assert rows[..|rows|] == rows;
  }

  /** `array_values` of the overlaid array: the chart's data series. */
  function Trend(today: Day, rows: seq<(Day, int)>): (series: seq<int>)
    ensures TrendDays <= |series| <= TrendDays + |rows|
  {
    Values(PutAll(Prefilled(today), rows))
  }

  /** Whatever order the grouped rows come in, the first five values are the
      user's counts for the five label days (0 for a day without rows), as
      long as the query's window covers them; the series has exactly five
      values iff no row lies outside today-4..today. */
  lemma TrendShape(today: Day, rows: seq<(Day, int)>, ws: seq<Workout>, uid: Id, win: Window)
    requires GroupedRows(rows, ws, uid, win)
    ensures |Trend(today, rows)| >= TrendDays
    ensures forall i :: 0 <= i < TrendDays && win.Contains(Labels(today)[i]) ==>
              Trend(today, rows)[i] == CountOn(ws, uid, Labels(today)[i])
    ensures |Trend(today, rows)| == TrendDays <==>
              forall i :: 0 <= i < |rows| ==> today - (TrendDays - 1) <= rows[i].0 <= today
  {
    var m := Prefilled(today);
    PutAllPrefix(m, rows);
    PutAllLength(m, rows);
    forall i | 0 <= i < TrendDays && win.Contains(Labels(today)[i])
      ensures Trend(today, rows)[i] == CountOn(ws, uid, Labels(today)[i])
    {
      var d := Labels(today)[i];
      assert m[i] == (d, 0);
      if HasKey(rows, d) {
        var j :| 0 <= j < |rows| && rows[j].0 == d;
        LastValueOfDistinct(rows, j, 0);
      } else {
        LastValueAbsent(rows, d, 0);
      }
    }
    forall k ensures HasKey(m, k) <==> today - (TrendDays - 1) <= k <= today {
      PrefilledHasKey(today, k);
    }
  }

  /** The trend query's window as written: `workout_date >= CURDATE() - INTERVAL 5 DAY`,
      six days back and unbounded towards the future. */
  function QueryWindow(today: Day): (w: Window)
    ensures forall d :: w.Contains(d) <==> today - TrendDays <= d
  {
    Window(today - TrendDays, None)
  }

  /** The user has no workout dated five days ago and none dated after today:
      the only days the as-written window adds to the five labels. */
  ghost predicate NothingOutsideLabels(ws: seq<Workout>, uid: Id, today: Day)
  {
    CountOn(ws, uid, today - TrendDays) == 0 && forall d :: d > today ==> CountOn(ws, uid, d) == 0
  }

  /** As written, the series still starts with the five label days' counts,
      but it has exactly five values only when the user has no workout dated
      five days ago and none dated after today. */
  lemma AsWrittenTrend(today: Day, rows: seq<(Day, int)>, ws: seq<Workout>, uid: Id)
    requires GroupedRows(rows, ws, uid, QueryWindow(today))
    ensures |Trend(today, rows)| >= TrendDays
    ensures forall i :: 0 <= i < TrendDays ==> Trend(today, rows)[i] == CountOn(ws, uid, Labels(today)[i])
    ensures |Trend(today, rows)| == TrendDays <==> NothingOutsideLabels(ws, uid, today)
  {
    TrendShape(today, rows, ws, uid, QueryWindow(today));
    var noStray := NothingOutsideLabels(ws, uid, today);
    if |Trend(today, rows)| == TrendDays {
      assert !HasKey(rows, today - TrendDays);
      assert QueryWindow(today).Contains(today - TrendDays);
      forall d | d > today ensures CountOn(ws, uid, d) == 0 {
        assert !HasKey(rows, d);
        assert QueryWindow(today).Contains(d);
      }
      assert noStray;
    }
    if noStray {
      forall i | 0 <= i < |rows| ensures today - (TrendDays - 1) <= rows[i].0 <= today {
        assert CountOn(ws, uid, rows[i].0) > 0;
      }
      assert |Trend(today, rows)| == TrendDays;
    }
  }

  /** The window that matches the five labels: from today-4 to today. */
  function CorrectedWindow(today: Day): (w: Window)
    ensures forall d :: w.Contains(d) <==> Labels(today)[0] <= d <= Labels(today)[TrendDays - 1]
  {
    Window(today - (TrendDays - 1), Some(today))
  }

  /** With the corrected window the series always has one value per label,
      and each is the user's count for that label's day. */
  lemma CorrectedTrend(today: Day, rows: seq<(Day, int)>, ws: seq<Workout>, uid: Id)
    requires GroupedRows(rows, ws, uid, CorrectedWindow(today))
    ensures |Trend(today, rows)| == |Labels(today)|
    ensures forall i :: 0 <= i < |Labels(today)| ==> Trend(today, rows)[i] == CountOn(ws, uid, Labels(today)[i])
  {
    TrendShape(today, rows, ws, uid, CorrectedWindow(today));
  }

  // ---------------------------------------------------------------------------
  // The handler

  /** The handler. `today` is the current day (`date('Y-m-d')` and
      `CURDATE()` alike); `rows` is the store's answer to the trend query,
      in whatever order it gives them. */
  method Handle(db: Database, session: Session, today: Day, rows: seq<(Day, int)>) returns (page: Page)
    requires session.userId.Some? ==> GroupedRows(rows, db.workouts, session.userId.value, QueryWindow(today))
    modifies session
    ensures old(session.userId).None? ==> page == RedirectToLogin && unchanged(session)
    ensures old(session.userId).Some? ==>
              var uid := old(session.userId).value;
              && session.userId == old(session.userId)
              && session.workoutType == old(session.workoutType)
              && session.username == (if old(session.username).Some? then old(session.username)
                                      else Some(GreetingName(db.users, uid)))
              && page.View?
              && page.todayCount == CountOn(db.workouts, uid, today)
              && page.totalCount == CountOf(db.workouts, uid)
              && page.todayCount <= page.totalCount
              && page.progress == Progress(page.todayCount)
              && page.labels == Labels(today)
              && page.workoutCounts == Trend(today, rows)
              && |page.workoutCounts| >= |page.labels|
              && (forall i :: 0 <= i < |page.labels| ==>
                    page.workoutCounts[i] == CountOn(db.workouts, uid, page.labels[i]))
              && (|page.workoutCounts| == |page.labels| <==> NothingOutsideLabels(db.workouts, uid, today))
  {
    if session.userId.None? {
      return RedirectToLogin;
    }
    var uid := session.userId.value;
    if session.username.None? {
      var user := FindUserById(db.users, uid);
      if user.Some? && Truthy(user.value.username) {
        session.username := Some(user.value.username);
      } else {
        session.username := Some(Guest);
      }
    }
    var todayCount := CountOn(db.workouts, uid, today);
    var totalCount := CountOf(db.workouts, uid);
    CountOnAtMostCountOf(db.workouts, uid, today);
    var progress := Progress(todayCount);
    var labels, workoutData := BuildWindow(today);
    workoutData := Overlay(workoutData, rows);
    var workoutCounts := Values(workoutData);
    AsWrittenTrend(today, rows, db.workouts, uid);
    page := View(todayCount, totalCount, progress, labels, workoutCounts);
  }
}
