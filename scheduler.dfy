/**
 * The arithmetic of `askForHour`: validate the hour and minute typed by the user,
 * build today's `h:m:00`, move it one minute on if it is already past, and compute
 * the delay until it. Instants are integer milliseconds; `dayStart` is the instant
 * of today's local midnight and `now` the current instant, both given by the
 * caller in place of `new Date()`.
 */
module Scheduler {
  import opened Wrappers

  const MsPerMinute: int := 60000
  const MsPerHour: int := 3600000
  const MsPerDay: int := 86400000

  /** When the selection runs, and how long `setTimeout` is asked to wait. */
  datatype Schedule = Schedule(target: int, delay: int)

  /** The hour and minute the user typed, `None` standing for `NaN`. */
  predicate ValidTime(hour: Option<int>, minute: Option<int>)
  {
    hour.Some? && minute.Some? && 0 <= hour.value <= 23 && 0 <= minute.value <= 59
  }

  /** `new Date(year, month, day, hour, minute, 0)` for today. */
  function LiteralTarget(dayStart: int, hour: int, minute: int): int
  {
    dayStart + hour * MsPerHour + minute * MsPerMinute
  }

  /** `None` is the "invalid format" answer, after which the user is asked again. */
  function AskForHour(hour: Option<int>, minute: Option<int>, dayStart: int, now: int): (r: Option<Schedule>)
    ensures r.Some? <==> ValidTime(hour, minute)
    ensures r.Some? ==>
      var literal := LiteralTarget(dayStart, hour.value, minute.value);
      && r.value.delay == r.value.target - now
      && (literal < now ==> r.value.target == literal + MsPerMinute)
      && (literal >= now ==> r.value.target == literal && r.value.delay >= 0)
      && dayStart <= r.value.target <= dayStart + MsPerDay
      && (r.value.delay < 0 <==> literal + MsPerMinute < now)
  {
    if !ValidTime(hour, minute) then None
    else
      var literal := LiteralTarget(dayStart, hour.value, minute.value);
      var target := if literal < now then literal + MsPerMinute else literal;
      Some(Schedule(target, target - now))
  }

  /** A time typed more than a minute ago still gets scheduled, one minute after
      it, with a negative delay: `setTimeout` then fires at once. */
  lemma StaleTimeGivesNegativeDelay()
    ensures AskForHour(Some(8), Some(0), 0, 8 * MsPerHour + 2 * MsPerMinute)
            == Some(Schedule(8 * MsPerHour + MsPerMinute, -MsPerMinute))
  {
  }

  /** A time equal to now is not advanced: the delay is zero. */
  lemma PresentTimeNotAdvanced(dayStart: int, hour: int, minute: int)
    requires 0 <= hour <= 23 && 0 <= minute <= 59
    ensures AskForHour(Some(hour), Some(minute), dayStart, LiteralTarget(dayStart, hour, minute))
            == Some(Schedule(LiteralTarget(dayStart, hour, minute), 0))
  {
  }

  /** 23:59 asked a millisecond after it is moved to the next midnight: at most
      one minute later, never a whole day. */
  lemma LastMinuteMovesToMidnight(dayStart: int)
    ensures AskForHour(Some(23), Some(59), dayStart, LiteralTarget(dayStart, 23, 59) + 1)
            == Some(Schedule(dayStart + MsPerDay, MsPerMinute - 1))
  {
  }
}
