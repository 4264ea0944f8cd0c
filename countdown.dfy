/**
 * `calculateTimeLeft` of the countdown shown next to a task with a due date:
 * the remaining (or overdue) milliseconds split into days, hours, minutes and
 * seconds by floor division and remainder, and the first matching display
 * form. One timer tick is a call with the current time `now`.
 */
module CountdownTimer {
  import opened Wrappers
  import opened Dates
  import opened Text

  const MsPerSecond: int := 1000
  const MsPerMinute: int := 60000
  const MsPerHour: int := 3600000

  datatype Units = Units(days: nat, hours: nat, minutes: nat, seconds: nat)

  /** The milliseconds a tuple of units stands for. */
  function Compose(u: Units): int {
    u.days * MsPerDay + u.hours * MsPerHour + u.minutes * MsPerMinute + u.seconds * MsPerSecond
  }

  predicate InRange(u: Units) {
    u.hours < 24 && u.minutes < 60 && u.seconds < 60
  }

  /** Floor division and remainder by one of the unit lengths are determined by the bounds of the quotient. */
  lemma DivByUnit(a: int, k: int, q: int)
    requires k == MsPerSecond || k == MsPerMinute || k == MsPerHour || k == MsPerDay
    requires q * k <= a < q * k + k
    ensures a / k == q && a % k == a - q * k
  {
  }

  /**
   * `Math.floor(ms / day)`, `Math.floor((ms % day) / hour)`,
   * `Math.floor((ms % hour) / minute)`, `Math.floor((ms % minute) / 1000)`:
   * the units lie in their ranges and account for ms up to the dropped milliseconds.
   */
  function Decompose(ms: nat): (u: Units)
    ensures InRange(u)
    ensures Compose(u) <= ms < Compose(u) + MsPerSecond
  {
    var d := ms / MsPerDay;
    var h := (ms % MsPerDay) / MsPerHour;
    var m := (ms % MsPerHour) / MsPerMinute;
    var s := (ms % MsPerMinute) / MsPerSecond;
    DecomposeSound(ms, d, h, m, s);
    Units(d, h, m, s)
  }

  lemma DecomposeSound(ms: nat, d: nat, h: nat, m: nat, s: nat)
    requires d == ms / MsPerDay && h == (ms % MsPerDay) / MsPerHour
    requires m == (ms % MsPerHour) / MsPerMinute && s == (ms % MsPerMinute) / MsPerSecond
    ensures InRange(Units(d, h, m, s))
    ensures Compose(Units(d, h, m, s)) <= ms < Compose(Units(d, h, m, s)) + MsPerSecond
  {
    var r1 := ms - d * MsPerDay;
    assert 0 <= r1 < MsPerDay;
    var r2 := r1 - h * MsPerHour;
    assert 0 <= r2 < MsPerHour;
    DivByUnit(ms, MsPerHour, d * 24 + h);
    var r3 := r2 - m * MsPerMinute;
    assert 0 <= r3 < MsPerMinute;
    DivByUnit(ms, MsPerMinute, d * 1440 + h * 60 + m);
    assert s * MsPerSecond <= r3 < s * MsPerSecond + MsPerSecond;
  }

  /** Units in range plus fewer than 1000 extra milliseconds decompose back to the same units. */
  lemma DecomposeCompose(u: Units, extra: int)
    requires InRange(u) && 0 <= extra < MsPerSecond
    ensures Decompose(Compose(u) + extra) == u
  {
    var ms := Compose(u) + extra;
    DivByUnit(ms, MsPerDay, u.days);
    DivByUnit(ms - u.days * MsPerDay, MsPerHour, u.hours);
    DivByUnit(ms, MsPerHour, u.days * 24 + u.hours);
    DivByUnit(ms - u.days * MsPerDay - u.hours * MsPerHour, MsPerMinute, u.minutes);
    DivByUnit(ms, MsPerMinute, u.days * 1440 + u.hours * 60 + u.minutes);
    DivByUnit(ms - u.days * MsPerDay - u.hours * MsPerHour - u.minutes * MsPerMinute, MsPerSecond, u.seconds);
  }

  /** The forms the countdown text takes. */
  datatype Display =
    | DaysLeft(d: nat, h: nat, m: nat)        // `${days}d ${hours}h ${minutes}m`
    | HoursLeft(h: nat, m: nat, s: nat)       // `${hours}h ${minutes}m ${seconds}s`
    | MinutesLeft(m: nat, s: nat)             // `${minutes}m ${seconds}s`
    | SecondsLeft(s: nat)                     // `${seconds}s`
    | OverdueDays(d: nat, h: nat)             // `${days}d ${hours}h overdue`
    | OverdueHours(h: nat, m: nat)            // `${hours}h ${minutes}m overdue`

  /** The `isOverdue` and `timeLeft` state one evaluation sets. */
  datatype TimeLeft = TimeLeft(isOverdue: bool, display: Display)

  predicate Within(x: int, low: int, width: int) {
    low <= x < low + width
  }

  /**
   * The meaning of each form: the differences `deadline - now` it may be shown
   * for. Every form names its leading unit as non-zero (or is the last resort),
   * keeps the lower units in range, and is exact up to its smallest unit.
   */
  predicate Denotes(disp: Display, difference: int) {
    match disp
    case DaysLeft(d, h, m) =>
      d >= 1 && h < 24 && m < 60 && Within(difference, d * MsPerDay + h * MsPerHour + m * MsPerMinute, MsPerMinute)
    case HoursLeft(h, m, s) =>
      1 <= h < 24 && m < 60 && s < 60 && Within(difference, h * MsPerHour + m * MsPerMinute + s * MsPerSecond, MsPerSecond)
    case MinutesLeft(m, s) =>
      1 <= m < 60 && s < 60 && Within(difference, m * MsPerMinute + s * MsPerSecond, MsPerSecond)
    case SecondsLeft(s) =>
      s < 60 && Within(difference, s * MsPerSecond, MsPerSecond)
    case OverdueDays(d, h) =>
      d >= 1 && h < 24 && Within(-difference, d * MsPerDay + h * MsPerHour, MsPerHour)
    case OverdueHours(h, m) =>
      difference < 0 && h < 24 && m < 60 && Within(-difference, h * MsPerHour + m * MsPerMinute, MsPerMinute)
  }

  predicate IsOverdueForm(disp: Display) {
    disp.OverdueDays? || disp.OverdueHours?
  }

  /**
   * `calculateTimeLeft()` for a deadline and the current time, both in
   * milliseconds: overdue exactly when the difference is negative (a
   * difference of 0 is still pending), and the display form denotes the
   * difference.
   */
  function CalculateTimeLeft(deadline: int, now: int): (r: TimeLeft)
    ensures r.isOverdue <==> deadline - now < 0
    ensures r.isOverdue <==> IsOverdueForm(r.display)
    ensures Denotes(r.display, deadline - now)
  {
    var difference := deadline - now;
    if difference < 0 then
      var u := Decompose(-difference);
      TimeLeft(true, if u.days > 0 then OverdueDays(u.days, u.hours) else OverdueHours(u.hours, u.minutes))
    else
      var u := Decompose(difference);
      TimeLeft(false,
        if u.days > 0 then DaysLeft(u.days, u.hours, u.minutes)
        else if u.hours > 0 then HoursLeft(u.hours, u.minutes, u.seconds)
        else if u.minutes > 0 then MinutesLeft(u.minutes, u.seconds)
        else SecondsLeft(u.seconds))
  }

  /** Only one form denotes a given difference, so the chosen form is the only correct one. */
  lemma DenotesDetermines(disp: Display, deadline: int, now: int)
    requires Denotes(disp, deadline - now)
    ensures disp == CalculateTimeLeft(deadline, now).display
  {
    var diff := deadline - now;
    match disp
    case DaysLeft(d, h, m) =>
      var rest := diff - (d * MsPerDay + h * MsPerHour + m * MsPerMinute);
      DenotesByUnits(diff, Units(d, h, m, rest / MsPerSecond));
    case HoursLeft(h, m, s) =>
      DenotesByUnits(diff, Units(0, h, m, s));
    case MinutesLeft(m, s) =>
      DenotesByUnits(diff, Units(0, 0, m, s));
    case SecondsLeft(s) =>
      DenotesByUnits(diff, Units(0, 0, 0, s));
    case OverdueDays(d, h) =>
      var rest := -diff - (d * MsPerDay + h * MsPerHour);
      DenotesByUnits(-diff, Units(d, h, rest / MsPerMinute, rest % MsPerMinute / MsPerSecond));
    case OverdueHours(h, m) =>
      var rest := -diff - (h * MsPerHour + m * MsPerMinute);
      DenotesByUnits(-diff, Units(0, h, m, rest / MsPerSecond));
  }

  /** A difference lying within the second named by in-range units decomposes to those units. */
  lemma DenotesByUnits(ms: int, u: Units)
    requires InRange(u) && Compose(u) <= ms < Compose(u) + MsPerSecond
    ensures ms >= 0 && Decompose(ms) == u
  {
    DecomposeCompose(u, ms - Compose(u));
  }

  /**
   * `countdown-timer` text for a display form: the overdue forms end in
   * " overdue", the pending ones in their smallest unit's letter.
   */
  function Render(disp: Display): (r: string)
    ensures IsOverdueForm(disp) ==> |r| >= 8 && r[|r| - 8..] == " overdue"
    ensures !IsOverdueForm(disp) ==> |r| >= 2 && (r[|r| - 1] == 'm' || r[|r| - 1] == 's')
  {
    match disp
    case DaysLeft(d, h, m) => NatToString(d) + "d " + NatToString(h) + "h " + NatToString(m) + "m"
    case HoursLeft(h, m, s) => NatToString(h) + "h " + NatToString(m) + "m " + NatToString(s) + "s"
    case MinutesLeft(m, s) => NatToString(m) + "m " + NatToString(s) + "s"
    case SecondsLeft(s) => NatToString(s) + "s"
    case OverdueDays(d, h) => NatToString(d) + "d " + NatToString(h) + "h overdue"
    case OverdueHours(h, m) => NatToString(h) + "h " + NatToString(m) + "m overdue"
  }

  /**
   * What the component evaluates for a task: nothing when the due date is
   * absent or the task is completed (the effect returns early and the
   * component renders null), otherwise the time left to midnight UTC of the
   * due date.
   */
  function CountdownFor(dueDate: Option<CalendarDate>, completed: bool, now: int): (r: Option<TimeLeft>)
    ensures r.None? <==> dueDate.None? || completed
    ensures r.Some? ==> (r.value.isOverdue <==> now > Deadline(dueDate.value))
    ensures r.Some? ==> Denotes(r.value.display, Deadline(dueDate.value) - now)
  {
    if dueDate.None? || completed then None
    else Some(CalculateTimeLeft(Deadline(dueDate.value), now))
  }

  /** A deadline equal to the current time is pending and reads "0s". */
  lemma BoundaryIsPending(now: int)
    ensures CalculateTimeLeft(now, now) == TimeLeft(false, SecondsLeft(0))
    ensures Render(SecondsLeft(0)) == "0s"
  {
    assert Decompose(0) == Units(0, 0, 0, 0);
  }

  /** Ninety minutes past the deadline reads "1h 30m overdue". */
  lemma NinetyMinutesOverdue(now: int)
    ensures CalculateTimeLeft(now - 5400000, now) == TimeLeft(true, OverdueHours(1, 30))
    ensures Render(OverdueHours(1, 30)) == "1h 30m overdue"
  {
    DenotesDetermines(OverdueHours(1, 30), now - 5400000, now);
    assert NatToString(30) == NatToString(3) + [DigitChar(0)];
  }

  /** The `timeLeft` and `isOverdue` state of one countdown and the interval tick that rewrites it. */
  class Timer {
    var timeLeft: string
    var isOverdue: bool

    constructor ()
      ensures timeLeft == "" && !isOverdue
    {
      timeLeft := "";
      isOverdue := false;
    }

    /** One run of `calculateTimeLeft` at time `now` (the first run and every 1-second tick). */
    method Tick(dueDate: Option<CalendarDate>, completed: bool, now: int)
      modifies this
      ensures dueDate.None? || completed ==> timeLeft == old(timeLeft) && isOverdue == old(isOverdue)
      ensures dueDate.Some? && !completed ==>
        var r := CalculateTimeLeft(Deadline(dueDate.value), now);
        isOverdue == r.isOverdue && timeLeft == Render(r.display)
    {
      if dueDate.None? || completed {
        return;
      }
      var r := CalculateTimeLeft(Deadline(dueDate.value), now);
      isOverdue := r.isOverdue;
      timeLeft := Render(r.display);
    }

    /** What the component renders: null, or the overdue flag and the text. */
    function Shown(dueDate: Option<CalendarDate>, completed: bool): (r: Option<(bool, string)>)
      reads this
      ensures r.None? <==> dueDate.None? || completed
      ensures r.Some? ==> r.value == (isOverdue, timeLeft)
    {
      if dueDate.None? || completed then None else Some((isOverdue, timeLeft))
    }
  }
}
