/** The shift-duration rule of the protected-Excel import (`calcular_horas`):
    an entry and an exit clock reading become the hours worked, with an exit
    earlier than the entry read as falling on the next day. */
module ShiftHours {

  const SecondsPerDay: int := 86400
  const SecondsPerHour: int := 3600

  /** A time of day, in whole seconds since midnight. */
  type TimeOfDay = s: int | 0 <= s < 86400

  /** One entry or exit cell of a sheet row, as `calcular_horas` sees it:
      a missing value (`pd.isna` holds), a value that cannot be read as a
      time (reading it raises), or a value that reads as a time of day. */
  datatype Punch = Blank | Unreadable | Clock(at: TimeOfDay)

  /** Seconds worked between an entry and an exit punch; every path that
      does not reach two clock readings yields 0. */
  function WorkedSeconds(entry: Punch, exit: Punch): (d: int)
    ensures 0 <= d < SecondsPerDay
    ensures d > 0 ==> entry.Clock? && exit.Clock? && entry.at != exit.at
  {
    if entry.Blank? || exit.Blank? then 0
    else if entry.Unreadable? || exit.Unreadable? then 0
    else if exit.at < entry.at then (exit.at + SecondsPerDay) - entry.at
    else exit.at - entry.at
  }

  /** Hours worked, as the exact quotient of the seconds by 3600. */
  function WorkedHours(entry: Punch, exit: Punch): (h: real)
    ensures 0.0 <= h < 24.0
  {
    WorkedSeconds(entry, exit) as real / SecondsPerHour as real
  }

  /** A shift with a missing or unreadable punch on either side is worth
      nothing, and reading it is not an error. */
  lemma IncompleteShiftWorksNothing(entry: Punch, exit: Punch)
    requires !entry.Clock? || !exit.Clock?
    ensures WorkedHours(entry, exit) == 0.0
  {
  }

  /** An exit at or after the entry is on the same day: the hours are the
      plain difference, so equal readings give 0 hours and not 24. */
  lemma SameDayShift(e: TimeOfDay, s: TimeOfDay)
    requires e <= s
    ensures WorkedHours(Clock(e), Clock(s)) == (s - e) as real / 3600.0
    ensures e == s ==> WorkedHours(Clock(e), Clock(s)) == 0.0
  {
  }

  /** An exit before the entry crosses midnight: the hours are the rest of
      the entry's day plus the exit's part of the next, strictly between 0
      and 24. */
  lemma OvernightShift(e: TimeOfDay, s: TimeOfDay)
    requires s < e
    ensures WorkedHours(Clock(e), Clock(s)) == ((SecondsPerDay - e) + s) as real / 3600.0
    ensures 0.0 < WorkedHours(Clock(e), Clock(s)) < 24.0
  {
  }

  /** Reference definition: for two clock readings the seconds worked are the
      forward distance on the 24-hour dial from the entry to the exit. */
  lemma WorkedIsForwardDistance(e: TimeOfDay, s: TimeOfDay)
    ensures WorkedSeconds(Clock(e), Clock(s)) == (s - e) % SecondsPerDay
  {
  }

  /** The time of day `w` seconds after `t`. */
  function ClockAfter(t: TimeOfDay, w: int): TimeOfDay
  {
    (t + w) % SecondsPerDay
  }

  /** Round trip: walking the clock forward from the entry by the time worked
      lands on the exit, and no shorter walk does. */
  lemma ExitReachedFromEntry(e: TimeOfDay, s: TimeOfDay)
    ensures ClockAfter(e, WorkedSeconds(Clock(e), Clock(s))) == s
    ensures forall w :: 0 <= w < WorkedSeconds(Clock(e), Clock(s)) ==> ClockAfter(e, w) != s
  {
  }
}
