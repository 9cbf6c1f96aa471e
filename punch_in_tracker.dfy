/** The punch-in tracker of the dashboard header: punching in and out, taking and
    ending a break, and the once-a-second recomputation of today's working time and
    of the running break. Times are milliseconds since the epoch, passed in by the
    caller instead of read from the wall clock; elapsed times are whole minutes. */
module PunchInTracker {
  import opened Wrappers

  const MsPerMinute := 60000
  const MsPerHour := 3600000

  /** JavaScript's `diff % 3600000`: the remainder truncated toward zero, signed
      like the dividend. */
  function TruncRemHour(a: int): (r: int)
    ensures a >= 0 ==> 0 <= r < MsPerHour
    ensures a < 0 ==> -MsPerHour < r <= 0
    ensures -MsPerHour < a < MsPerHour ==> r == a
  {
    if a >= 0 then a % MsPerHour else -((-a) % MsPerHour)
  }

  // ---------------------------------------------------------------------------
  // Elapsed time, as written and as intended

  /** The effect's arithmetic, in minutes: Math.floor(diff / 3600000) hours plus
      Math.floor((diff % 3600000) / 60000) minutes, with JavaScript's truncating `%`. */
  function ElapsedMinutesAsWritten(diff: int): (r: int)
    ensures r < 0 <==> diff < 0
  {
    var hours, minutes := diff / MsPerHour, TruncRemHour(diff) / MsPerMinute;
    assert diff < 0 ==> hours <= -1 && -60 <= minutes <= 0;
    assert diff >= 0 ==> hours >= 0 && minutes >= 0;
    60 * hours + minutes
  }

  /** For a non-negative difference the two floors add up to whole minutes: the
      seconds are dropped. */
  lemma AsWrittenWholeMinutes(diff: int)
    requires diff >= 0
    ensures ElapsedMinutesAsWritten(diff) == diff / MsPerMinute
  {
    var q, r := diff / MsPerHour, diff % MsPerHour;
    assert diff == MsPerMinute * (60 * q) + r;
    assert (MsPerMinute * (60 * q) + r) / MsPerMinute == 60 * q + r / MsPerMinute;
  }

  /** A negative difference, which occurs right after punching in or taking a break
      (the stored clock reading is up to a second older than the new start time),
      yields a negative elapsed time. */
  lemma AsWrittenNegative(diff: int)
    requires diff < 0
    ensures ElapsedMinutesAsWritten(diff) < 0
    ensures -MsPerMinute <= diff ==> ElapsedMinutesAsWritten(diff) == -61
  {
    var q := diff / MsPerHour;
    assert q <= -1;
    if -MsPerMinute <= diff {
      assert q == -1;
      assert TruncRemHour(diff) == diff;
    }
  }

  /** Half a second behind gives -61 minutes: -1 hour and -1 minute. */
  lemma AsWrittenHalfSecondBehind()
    ensures ElapsedMinutesAsWritten(-500) == -61
  {
    AsWrittenNegative(-500);
  }

  /** Whole minutes elapsed, never negative: a start time later than the clock
      reading counts as no time elapsed. */
  function ElapsedMinutes(diff: int): (r: nat)
    ensures diff <= 0 ==> r == 0
    ensures diff >= 0 ==> r * MsPerMinute <= diff < (r + 1) * MsPerMinute
  {
    if diff <= 0 then 0 else diff / MsPerMinute
  }

  /** Wherever the source's arithmetic is non-negative, the corrected one agrees with it. */
  lemma ElapsedMinutesAgrees(diff: int)
    requires diff >= 0
    ensures ElapsedMinutes(diff) == ElapsedMinutesAsWritten(diff)
  {
    AsWrittenWholeMinutes(diff);
  }

  /** Elapsed time never decreases as the clock advances. */
  lemma ElapsedMinutesMonotone(a: int, b: int)
    requires a <= b
    ensures ElapsedMinutes(a) <= ElapsedMinutes(b)
  {
    if a > 0 {
      assert a / MsPerMinute <= b / MsPerMinute;
    }
  }

  // ---------------------------------------------------------------------------
  // The component's state

  class Tracker {
    var currentTime: int
    var isPunchedIn: bool
    var startTime: Option<int>
    var isOnBreak: bool
    var breakStartTime: Option<int>
    var todayMinutes: nat
    var breakMinutes: nat

    /** Punched in exactly when a start time is set; on break exactly when a break
        start time is set; only while punched in; no break time off a break. */
    ghost predicate Valid()
      reads this
    {
      (isPunchedIn <==> startTime.Some?) &&
      (isOnBreak <==> breakStartTime.Some?) &&
      (isOnBreak ==> isPunchedIn) &&
      (!isOnBreak ==> breakMinutes == 0)
    }

    /** The initial state: the clock read once, not punched in, nothing elapsed. */
    constructor (now: int)
      ensures Valid()
      ensures currentTime == now && !isPunchedIn && !isOnBreak
      ensures todayMinutes == 0 && breakMinutes == 0
    {
      currentTime := now;
      isPunchedIn := false;
      startTime := None;
      isOnBreak := false;
      breakStartTime := None;
      todayMinutes := 0;
      breakMinutes := 0;
    }

    /** handlePunchIn: starts the working time at `now`, unless already punched in. */
    method PunchIn(now: int)
      requires Valid()
      modifies this
      ensures Valid()
      ensures old(isPunchedIn) ==> isPunchedIn && startTime == old(startTime)
      ensures !old(isPunchedIn) ==> isPunchedIn && startTime == Some(now)
      ensures isOnBreak == old(isOnBreak) && breakStartTime == old(breakStartTime)
      ensures todayMinutes == old(todayMinutes) && breakMinutes == old(breakMinutes)
      ensures currentTime == old(currentTime)
    {
      if !isPunchedIn {
        isPunchedIn := true;
        startTime := Some(now);
      }
    }

    /** handlePunchOut: clears the punch and the break, but keeps todayMinutes. */
    method PunchOut()
      requires Valid()
      modifies this
      ensures Valid()
      ensures !isPunchedIn && startTime == None
      ensures !isOnBreak && breakStartTime == None && breakMinutes == 0
      ensures todayMinutes == old(todayMinutes) && currentTime == old(currentTime)
    {
      isPunchedIn := false;
      startTime := None;
      isOnBreak := false;
      breakStartTime := None;
      breakMinutes := 0;
    }

    /** handleTakeBreak: starts a break at `now` when punched in and not on one, ends
        the running break otherwise, and does nothing when not punched in. */
    method TakeBreak(now: int)
      requires Valid()
      modifies this
      ensures Valid()
      ensures old(isPunchedIn && !isOnBreak) ==> isOnBreak && breakStartTime == Some(now)
      ensures old(isOnBreak) ==> !isOnBreak && breakStartTime == None
      ensures !old(isPunchedIn) ==> !isOnBreak && breakStartTime == None
      ensures breakMinutes == 0
      ensures isPunchedIn == old(isPunchedIn) && startTime == old(startTime)
      ensures todayMinutes == old(todayMinutes) && currentTime == old(currentTime)
    {
      if isPunchedIn && !isOnBreak {
        isOnBreak := true;
        breakStartTime := Some(now);
      } else if isOnBreak {
        isOnBreak := false;
        breakStartTime := None;
        breakMinutes := 0;
      }
    }

    /** The effect that runs after a render in which the clock reading, the start time,
        the break start time or the break flag changed: today's time counts from the
        start time (breaks are not subtracted), the break's time only while on break. */
    method RecomputeElapsed()
      requires Valid()
      modifies this
      ensures Valid()
      ensures old(startTime).Some? ==> todayMinutes == ElapsedMinutes(currentTime - old(startTime).value)
      ensures old(startTime).None? ==> todayMinutes == old(todayMinutes)
      ensures old(isOnBreak) ==> breakMinutes == ElapsedMinutes(currentTime - old(breakStartTime).value)
      ensures !old(isOnBreak) ==> breakMinutes == old(breakMinutes)
      ensures currentTime == old(currentTime)
      ensures isPunchedIn == old(isPunchedIn) && startTime == old(startTime)
      ensures isOnBreak == old(isOnBreak) && breakStartTime == old(breakStartTime)
    {
      if startTime.Some? {
        todayMinutes := ElapsedMinutes(currentTime - startTime.value);
      }
      if breakStartTime.Some? && isOnBreak {
        breakMinutes := ElapsedMinutes(currentTime - breakStartTime.value);
      }
    }

    /** One tick of the one-second timer: read the clock, then run the effect. */
    method Tick(now: int)
      requires Valid()
      modifies this
      ensures Valid()
      ensures currentTime == now
      ensures old(startTime).Some? ==> todayMinutes == ElapsedMinutes(now - old(startTime).value)
      ensures old(startTime).None? ==> todayMinutes == old(todayMinutes)
      ensures old(isOnBreak) ==> breakMinutes == ElapsedMinutes(now - old(breakStartTime).value)
      ensures !old(isOnBreak) ==> breakMinutes == old(breakMinutes)
      ensures isPunchedIn == old(isPunchedIn) && startTime == old(startTime)
      ensures isOnBreak == old(isOnBreak) && breakStartTime == old(breakStartTime)
    {
      currentTime := now;
      RecomputeElapsed();
    }

    /** The break button is rendered only while punched in. */
    function BreakButtonShown(): (shown: bool)
      reads this
      requires Valid()
      ensures shown <==> startTime.Some?
    {
      isPunchedIn
    }

    /** A press of the main button: "Punch Out" while punched in, "Punch In" otherwise.
        The state change re-renders the component and the effect runs against the
        clock reading of the last tick, so a fresh punch-in starts at zero minutes. */
    method PressMainButton(now: int)
      requires Valid()
      modifies this
      ensures Valid()
      ensures old(isPunchedIn) ==> !isPunchedIn && startTime == None && !isOnBreak && breakMinutes == 0
      ensures old(isPunchedIn) ==> todayMinutes == old(todayMinutes)
      ensures !old(isPunchedIn) ==> isPunchedIn && startTime == Some(now) && !isOnBreak
      ensures !old(isPunchedIn) ==> todayMinutes == ElapsedMinutes(old(currentTime) - now)
      ensures !old(isPunchedIn) && old(currentTime) <= now ==> todayMinutes == 0
      ensures currentTime == old(currentTime)
    {
      if isPunchedIn {
        PunchOut();
      } else {
        PunchIn(now);
      }
      RecomputeElapsed();
    }

    /** A press of the break button, which is rendered only while punched in: it
        starts or ends the break, then the effect runs as after any state change. */
    method PressBreakButton(now: int)
      requires Valid() && BreakButtonShown()
      modifies this
      ensures Valid()
      ensures isOnBreak == !old(isOnBreak)
      ensures isOnBreak ==> breakStartTime == Some(now)
      ensures isOnBreak ==> breakMinutes == ElapsedMinutes(old(currentTime) - now)
      ensures isOnBreak && old(currentTime) <= now ==> breakMinutes == 0
      ensures !isOnBreak ==> breakStartTime == None && breakMinutes == 0
      ensures isPunchedIn && startTime == old(startTime)
      ensures todayMinutes == ElapsedMinutes(currentTime - startTime.value)
      ensures currentTime == old(currentTime)
    {
      TakeBreak(now);
      RecomputeElapsed();
    }
  }
}
