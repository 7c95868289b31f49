/** The HTTP routes of the pause router, once authentication has let the request through.
    The user of `/pauses/today` and the local midnight it counts from are parameters. */
module PauseRoutes {
  import opened Model
  import opened Db
  import PauseModel

  /** The length of a calendar day in milliseconds. */
  const DayMillis: int := 86_400_000

  /** `POST /start`: 404 for an unknown user; otherwise a new running pause starting now,
      and 201. */
  method StartPause(s: Store, userId: Id, now: Time) returns (status: nat, p: Option<Pause>)
    requires s.Valid()
    modifies s
    ensures s.Valid()
    ensures s.users == old(s.users) && s.conversations == old(s.conversations) && s.messages == old(s.messages)
    ensures UserAt(old(s.users), userId).None? ==>
              status == 404 && p.None? && s.pauses == old(s.pauses) && s.nextId == old(s.nextId)
    ensures UserAt(old(s.users), userId).Some? ==>
              status == 201 && p == Some(Pause(old(s.nextId), userId, now, None, None, true)) &&
              s.pauses == old(s.pauses) + [p.value] && s.nextId == old(s.nextId) + 1
  {
    if UserAt(s.users, userId).None? {
      return 404, None;
    }
    var created := s.InsertPause(userId, now);
    status, p := 201, Some(created);
  }

  /** `Pause.findOne({ user: u, isPaused: true })`: the first running pause of the user. */
  function ActivePauseAt(ps: seq<Pause>, u: Id): (r: Option<nat>)
    ensures r.Some? ==> r.value < |ps| && ps[r.value].user == u && ps[r.value].isPaused
    ensures r.Some? ==> forall j :: 0 <= j < r.value ==> !(ps[j].user == u && ps[j].isPaused)
    ensures r.None? <==> forall j :: 0 <= j < |ps| ==> !(ps[j].user == u && ps[j].isPaused)
  {
    if |ps| == 0 then None
    else if ps[0].user == u && ps[0].isPaused then Some(0)
    else match ActivePauseAt(ps[1..], u)
      case None => None
      case Some(k) => Some(k + 1)
  }

  /** `POST /end`: 404 when the user has no running pause; otherwise the first running pause
      gets its end time, its flag cleared and its duration in seconds, and the answer is 200. */
  method EndPause(s: Store, userId: Id, now: Time) returns (status: nat, p: Option<Pause>)
    requires s.Valid()
    modifies s
    ensures s.Valid()
    ensures s.users == old(s.users) && s.conversations == old(s.conversations) && s.messages == old(s.messages)
    ensures s.nextId == old(s.nextId)
    ensures match ActivePauseAt(old(s.pauses), userId)
            case None => status == 404 && p.None? && s.pauses == old(s.pauses)
            case Some(k) =>
              status == 200 && p == Some(PauseModel.Ended(old(s.pauses)[k], now)) &&
              s.pauses == old(s.pauses)[k := p.value] &&
              (old(s.pauses)[k].startTime <= now ==> p.value.duration.value >= 0.0)
  {
    var at := ActivePauseAt(s.pauses, userId);
    if at.None? {
      return 404, None;
    }
    var k := at.value;
    var doc := new PauseModel.PauseDoc.Load(s.pauses[k]);
    doc.endTime := Some(now);
    doc.isPaused := false;
    doc.duration := Some(PauseModel.DurationSeconds(doc.startTime, now));
    s.SetPause(k, doc.Value());
    status, p := 200, Some(doc.Value());
  }

  /* ---------- GET /count/:userId/:date ---------- */

  datatype CountResponse = CountResponse(status: nat, pauseCount: Option<nat>)

  /** The route as written: it calls `Pause.getPauseCountForDate`, which the model never
      defines, so every request ends in the catch block with 500. */
  function CountRouteAsWritten(ps: seq<Pause>, u: Id, dayStart: Time): (r: CountResponse)
    ensures r.status == 500 && r.pauseCount.None?
  {
    CountResponse(500, None)
  }

  /** The number of the user's pauses that start within the day beginning at `dayStart`. */
  function PauseCountForDate(ps: seq<Pause>, u: Id, dayStart: Time): (n: nat)
    ensures n <= |ps|
    ensures n == 0 <==> forall j :: 0 <= j < |ps| ==>
              !(ps[j].user == u && dayStart <= ps[j].startTime < dayStart + DayMillis)
  {
    if |ps| == 0 then 0
    else
      var init := ps[..|ps| - 1];
      var last := ps[|ps| - 1];
      assert forall j :: 0 <= j < |init| ==> init[j] == ps[j];
      PauseCountForDate(init, u, dayStart) +
        (if last.user == u && dayStart <= last.startTime < dayStart + DayMillis then 1 else 0)
  }

  /** The route with the count defined. */
  function CountRoute(ps: seq<Pause>, u: Id, dayStart: Time): (r: CountResponse)
    ensures r.status == 200 && r.pauseCount.Some?
    ensures r.pauseCount.value == 0 <==> forall j :: 0 <= j < |ps| ==>
              !(ps[j].user == u && dayStart <= ps[j].startTime < dayStart + DayMillis)
  {
    CountResponse(200, Some(PauseCountForDate(ps, u, dayStart)))
  }

  /** A user with one running pause started at the beginning of the day: the defined count
      reports that pause, the route as written answers 500 with no count. */
  lemma CountRouteLosesTodaysPause(t: Time)
    ensures CountRoute([Pause(0, 1, t, None, None, true)], 1, t) == CountResponse(200, Some(1))
    ensures CountRouteAsWritten([Pause(0, 1, t, None, None, true)], 1, t) == CountResponse(500, None)
  {
    assert [Pause(0, 1, t, None, None, true)][..0] == [];
  }

  /* ---------- GET /pauses/today ---------- */

  /** `Pause.find({ user: u, startTime: { $gte: midnight } })`, in store order. */
  function TodaysPauses(ps: seq<Pause>, u: Id, midnight: Time): (r: seq<Pause>)
    ensures |r| <= |ps|
  {
    if |ps| == 0 then []
    else
      var last := ps[|ps| - 1];
      TodaysPauses(ps[..|ps| - 1], u, midnight) + (if last.user == u && last.startTime >= midnight then [last] else [])
  }

  /** The query answers exactly the user's pauses started since midnight. */
  lemma {:induction false} TodaysPausesMembers(ps: seq<Pause>, u: Id, midnight: Time)
    ensures var r := TodaysPauses(ps, u, midnight);
            && (forall j :: 0 <= j < |r| ==> r[j] in ps && r[j].user == u && r[j].startTime >= midnight)
            && (forall j :: 0 <= j < |ps| && ps[j].user == u && ps[j].startTime >= midnight ==> ps[j] in r)
  {
    if |ps| > 0 {
      var n := |ps| - 1;
      var init, last := ps[..n], ps[n];
      TodaysPausesMembers(init, u, midnight);
      var before := TodaysPauses(init, u, midnight);
      var r := TodaysPauses(ps, u, midnight);
      assert r == before + (if last.user == u && last.startTime >= midnight then [last] else []);
      forall j | 0 <= j < |r| ensures r[j] in ps && r[j].user == u && r[j].startTime >= midnight {
        if j < |before| {
          assert r[j] == before[j];
          var i :| 0 <= i < |init| && init[i] == before[j];
          assert ps[i] == init[i];
        } else {
          assert r[j] == last;
        }
      }
      forall j | 0 <= j < |ps| && ps[j].user == u && ps[j].startTime >= midnight ensures ps[j] in r {
        if j < n {
          assert ps[j] == init[j];
        } else {
          assert r[|r| - 1] == last;
        }
      }
    }
  }

  /** `pause.duration || 0`: a running pause counts for nothing. */
  function DurationOrZero(p: Pause): (r: real)
    ensures p.duration.Some? ==> r == p.duration.value
    ensures p.duration.None? ==> r == 0.0
  {
    match p.duration
    case Some(d) => d
    case None => 0.0
  }

  /** `pauses.reduce((acc, pause) => acc + (pause.duration || 0), 0)`. */
  function TotalPauseTime(ps: seq<Pause>): (r: real)
    ensures (forall j :: 0 <= j < |ps| ==> ps[j].duration.None?) ==> r == 0.0
    ensures (forall j :: 0 <= j < |ps| && ps[j].duration.Some? ==> ps[j].duration.value >= 0.0) ==> r >= 0.0
  {
    if |ps| == 0 then 0.0
    else
      var init := ps[..|ps| - 1];
      assert forall j :: 0 <= j < |init| ==> init[j] == ps[j];
      TotalPauseTime(init) + DurationOrZero(ps[|ps| - 1])
  }

  datatype Summary = Summary(nbrPauses: nat, totalPauseTime: real)

  /** The answer of `/pauses/today`. */
  function TodaySummary(ps: seq<Pause>, u: Id, midnight: Time): (r: Summary)
    ensures r.nbrPauses == |TodaysPauses(ps, u, midnight)|
    ensures r.nbrPauses <= |ps|
    ensures r.nbrPauses == 0 <==> forall j :: 0 <= j < |ps| ==> !(ps[j].user == u && ps[j].startTime >= midnight)
    ensures (forall j :: 0 <= j < |ps| && ps[j].duration.Some? ==> ps[j].duration.value >= 0.0) ==>
              r.totalPauseTime >= 0.0
  {
    var today := TodaysPauses(ps, u, midnight);
    TodaysPausesMembers(ps, u, midnight);
    assert |today| > 0 ==> today[0] in ps && today[0].user == u && today[0].startTime >= midnight;
    assert (forall j :: 0 <= j < |ps| && ps[j].duration.Some? ==> ps[j].duration.value >= 0.0) ==>
             TotalPauseTime(today) >= 0.0 by {
      if forall j :: 0 <= j < |ps| && ps[j].duration.Some? ==> ps[j].duration.value >= 0.0 {
        forall j | 0 <= j < |today| && today[j].duration.Some? ensures today[j].duration.value >= 0.0 {
          var i :| 0 <= i < |ps| && ps[i] == today[j];
        }
      }
    }
    Summary(|today|, TotalPauseTime(today))
  }

  lemma TotalAppend(ps: seq<Pause>, p: Pause)
    ensures TotalPauseTime(ps + [p]) == TotalPauseTime(ps) + DurationOrZero(p)
  {
    assert (ps + [p])[..|ps|] == ps;
  }

  /** Starting a pause today adds one to the day's count and nothing to its total. */
  lemma StartCountsToday(ps: seq<Pause>, p: Pause, midnight: Time)
    requires p.startTime >= midnight && p.duration.None?
    ensures TodaySummary(ps + [p], p.user, midnight) ==
              Summary(TodaySummary(ps, p.user, midnight).nbrPauses + 1, TodaySummary(ps, p.user, midnight).totalPauseTime)
  {
    assert (ps + [p])[..|ps|] == ps;
    TotalAppend(TodaysPauses(ps, p.user, midnight), p);
  }

  lemma {:induction false} EndAddsToTodayTotal(ps: seq<Pause>, k: nat, now: Time, midnight: Time)
    requires k < |ps| && ps[k].startTime >= midnight && ps[k].duration.None?
    ensures var u := ps[k].user;
            var before := TodaysPauses(ps, u, midnight);
            var after := TodaysPauses(ps[k := PauseModel.Ended(ps[k], now)], u, midnight);
            |after| == |before| &&
            TotalPauseTime(after) == TotalPauseTime(before) + PauseModel.DurationSeconds(ps[k].startTime, now)
  {
    var u := ps[k].user;
    var ended := PauseModel.Ended(ps[k], now);
    var after := ps[k := ended];
    var n := |ps| - 1;
    var init, init' := ps[..n], after[..n];
    var before := TodaysPauses(init, u, midnight);
    assert TodaysPauses(ps, u, midnight) ==
             before + (if ps[n].user == u && ps[n].startTime >= midnight then [ps[n]] else []);
    assert TodaysPauses(after, u, midnight) ==
             TodaysPauses(init', u, midnight) + (if after[n].user == u && after[n].startTime >= midnight then [after[n]] else []);
    if k == n {
      assert init' == init;
      TotalAppend(before, ps[k]);
      TotalAppend(before, ended);
    } else {
      assert init' == init[k := ended];
      EndAddsToTodayTotal(init, k, now, midnight);
      assert after[n] == ps[n];
      if ps[n].user == u && ps[n].startTime >= midnight {
        TotalAppend(before, ps[n]);
        TotalAppend(TodaysPauses(init', u, midnight), ps[n]);
      } else {
        assert TodaysPauses(ps, u, midnight) == before;
        assert TodaysPauses(after, u, midnight) == TodaysPauses(init', u, midnight);
      }
    }
  }

  /** Ending a running pause that started today leaves the day's count alone and adds the
      pause's duration to the day's total. */
  lemma EndAddsToToday(ps: seq<Pause>, k: nat, now: Time, midnight: Time)
    requires k < |ps| && ps[k].startTime >= midnight && ps[k].duration.None?
    ensures var after := ps[k := PauseModel.Ended(ps[k], now)];
            TodaySummary(after, ps[k].user, midnight) ==
              Summary(TodaySummary(ps, ps[k].user, midnight).nbrPauses,
                      TodaySummary(ps, ps[k].user, midnight).totalPauseTime +
                        PauseModel.DurationSeconds(ps[k].startTime, now))
  {
    EndAddsToTodayTotal(ps, k, now, midnight);
  }

  /** When none of the user's pauses starts after the day that began at midnight, the count
      of the fixed `/count` route for that day equals the count of `/pauses/today`. */
  lemma {:induction false} CountForTodayMatchesSummary(ps: seq<Pause>, u: Id, midnight: Time)
    requires forall j :: 0 <= j < |ps| && ps[j].user == u ==> ps[j].startTime < midnight + DayMillis
    ensures PauseCountForDate(ps, u, midnight) == TodaySummary(ps, u, midnight).nbrPauses
  {
    if |ps| > 0 {
      CountForTodayMatchesSummary(ps[..|ps| - 1], u, midnight);
    }
  }
}
