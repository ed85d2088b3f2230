/** Report periods: the `period` query parameter selects how far back the
    report looks, as a threshold timestamp in milliseconds. */
module Periods {

  const HourMs: int := 60 * 60 * 1000
  const DayMs: int := 24 * HourMs
  /** `7 * 24 * 60 * 60 * 1000` */
  const WeekMs: int := 7 * DayMs
  /** `30 * 24 * 60 * 60 * 1000` */
  const MonthMs: int := 30 * DayMs

  datatype Period = Daily | Weekly | Monthly

  /** "weekly" and "monthly" are recognised; a missing value (""), "daily"
      and anything else all select the daily window. */
  function ParsePeriod(s: string): (p: Period)
    ensures p == Weekly <==> s == "weekly"
    ensures p == Monthly <==> s == "monthly"
    ensures p == Daily <==> s != "weekly" && s != "monthly"
  {
    if s == "daily" then Daily
    else if s == "weekly" then Weekly
    else if s == "monthly" then Monthly
    else Daily
  }

  /** The request's clock: `now` and the start of the current local
      calendar day, which the local time zone decides. */
  datatype Clock = Clock(now: int, dayStart: int)

  /** Local midnight is not after `now` and, a daylight-saving change
      included, at most 25 hours before it. */
  predicate ValidClock(c: Clock)
  {
    c.dayStart <= c.now < c.dayStart + DayMs + HourMs
  }

  function Threshold(p: Period, c: Clock): (t: int)
    ensures p == Daily ==> t == c.dayStart
    ensures p == Weekly ==> t == c.now - 604800000
    ensures p == Monthly ==> t == c.now - 2592000000
  {
    match p
    case Daily => c.dayStart
    case Weekly => c.now - WeekMs
    case Monthly => c.now - MonthMs
  }

  /** A longer period never starts later, and no period starts after `now`. */
  lemma ThresholdsNest(c: Clock)
    requires ValidClock(c)
    ensures Threshold(Monthly, c) < Threshold(Weekly, c) < Threshold(Daily, c) <= c.now
  {
  }
}
