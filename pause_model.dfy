/** The Pause schema: its defaults, the duration in seconds, and the two document methods
    `startPause` and `endPause`, which assign fields of a loaded pause document. */
module PauseModel {
  import opened Model

  /** `(endTime - startTime) / 1000`: the seconds between two dates, fractions kept. */
  function DurationSeconds(start: Time, end: Time): (d: real)
    ensures d * 1000.0 == (end - start) as real
    ensures start <= end ==> d >= 0.0
    ensures end < start ==> d < 0.0
  {
    (end - start) as real / 1000.0
  }

  /** `new Pause(fields)` with schema validation: `user` is required, `startTime` defaults
      to now and `isPaused` to true; `endTime` and `duration` start out unset. */
  function NewPause(id: Id, user: Option<Id>, startTime: Option<Time>, isPaused: Option<bool>, now: Time): (r: Outcome<Pause>)
    ensures r.Err? <==> user.None?
    ensures r.Ok? ==> r.value.id == id && r.value.user == user.value
    ensures r.Ok? ==> r.value.endTime.None? && r.value.duration.None?
    ensures r.Ok? && startTime.None? ==> r.value.startTime == now
    ensures r.Ok? && startTime.Some? ==> r.value.startTime == startTime.value
    ensures r.Ok? && isPaused.None? ==> r.value.isPaused
    ensures r.Ok? && isPaused.Some? ==> r.value.isPaused == isPaused.value
  {
    match user
    case None => Err(Thrown)
    case Some(u) =>
      Ok(Pause(id, u,
               match startTime case Some(t) => t case None => now,
               None, None,
               match isPaused case Some(b) => b case None => true))
  }

  /** The pause after `startPause`. */
  function Started(p: Pause, now: Time): (r: Pause)
    ensures r.isPaused && r.startTime == now
    ensures r.id == p.id && r.user == p.user && r.endTime == p.endTime && r.duration == p.duration
  {
    p.(startTime := now, isPaused := true)
  }

  /** The pause after `endPause` (and after the inline equivalent in the `/end` route): it has
      an end time, no longer runs, and its duration is the elapsed time in seconds, never
      negative when the end is not before the start. */
  function Ended(p: Pause, now: Time): (r: Pause)
    ensures !r.isPaused && r.endTime == Some(now)
    ensures r.duration.Some? && r.duration.value * 1000.0 == (now - p.startTime) as real
    ensures p.startTime <= now ==> r.duration.value >= 0.0
    ensures r.id == p.id && r.user == p.user && r.startTime == p.startTime
  {
    p.(endTime := Some(now), duration := Some(DurationSeconds(p.startTime, now)), isPaused := false)
  }

  /** A loaded pause document; its methods assign fields one at a time, as the schema's
      instance methods do before `save()`. */
  class PauseDoc {
    const id: Id
    const user: Id
    var startTime: Time
    var endTime: Option<Time>
    var duration: Option<real>
    var isPaused: bool

    function Value(): Pause
      reads this
    {
      Pause(id, user, startTime, endTime, duration, isPaused)
    }

    constructor Load(p: Pause)
      ensures Value() == p
    {
      id, user := p.id, p.user;
      startTime, endTime, duration, isPaused := p.startTime, p.endTime, p.duration, p.isPaused;
    }

    /** `startPause`: restart the clock; the end time and duration stay as they were. */
    method StartPause(now: Time)
      modifies this
      ensures Value() == Started(old(Value()), now)
      ensures endTime == old(endTime) && duration == old(duration)
    {
      startTime := now;
      isPaused := true;
    }

    /** `endPause`: stamp the end, derive the duration from the start, clear the flag.
        There is no guard on `isPaused`. */
    method EndPause(now: Time)
      modifies this
      ensures Value() == Ended(old(Value()), now)
      ensures old(startTime) <= now ==> duration.Some? && duration.value >= 0.0
    {
      endTime := Some(now);
      duration := Some(DurationSeconds(startTime, now));
      isPaused := false;
    }
  }

  /** Ending an ended pause again overwrites the end time and the duration, still measured
      from the same start. */
  lemma EndIsUnguarded(p: Pause, t1: Time, t2: Time)
    ensures Ended(Ended(p, t1), t2) == Ended(p, t2)
    ensures Ended(Ended(p, t1), t2).duration == Some(DurationSeconds(p.startTime, t2))
  {
  }

  /** Restarting an ended pause makes it active again while it still carries the old end
      time and duration. */
  lemma RestartKeepsStaleDuration(p: Pause, t1: Time, t2: Time)
    ensures Started(Ended(p, t1), t2).isPaused
    ensures Started(Ended(p, t1), t2).duration == Some(DurationSeconds(p.startTime, t1))
    ensures Started(Ended(p, t1), t2).endTime == Some(t1)
  {
  }

  /** A pause created with the defaults and then ended lasts from its creation to its end. */
  lemma DefaultThenEnded(id: Id, u: Id, t0: Time, t1: Time)
    ensures NewPause(id, Some(u), None, None, t0) == Ok(Pause(id, u, t0, None, None, true))
    ensures Ended(NewPause(id, Some(u), None, None, t0).value, t1).duration == Some(DurationSeconds(t0, t1))
  {
  }
}
