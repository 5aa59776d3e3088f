/**
 * The day count between two dates of a leave request (src/tools/dateUtils.ts).
 *
 * A date reaches the computation as a JavaScript timestamp: whole
 * milliseconds since the epoch. The source divides the millisecond
 * difference by 1000, 60, 60 and 24 and rounds up; on integer milliseconds
 * that is exact ceiling division by the length of a day, which is how it is
 * written here.
 */
module DateUtils {
  import opened Wrappers

  /** Milliseconds since the epoch. */
  type Timestamp = int

  /** Milliseconds in one day. */
  const MsPerDay: int := 1000 * 60 * 60 * 24

  /** What `getDaysDiff` returns: the placeholder string "*днів" when a date
      is missing (`Unknown`), or a whole number of days, of either sign. */
  datatype DayCount = Unknown | Days(n: int)

  /** The smallest `q` with `a <= q * b`: exact ceiling division. */
  function CeilDiv(a: int, b: int): (q: int)
    requires b > 0
    ensures (q - 1) * b < a <= q * b
  {
    var f := (-a) / b;
    assert b * f <= -a < b * f + b;
    -f
  }

  /** Only one integer lies in the window that `CeilDiv` promises. */
  lemma CeilDivUnique(a: int, b: int, q: int)
    requires b > 0
    requires (q - 1) * b < a <= q * b
    ensures q == CeilDiv(a, b)
  {
  }

  /**
   * `getDaysDiff(startDate, endDate)`: the placeholder when either date is
   * missing, otherwise the number of days from start to end rounded up.
   */
  function GetDaysDiff(start: Option<Timestamp>, end: Option<Timestamp>): (r: DayCount)
    ensures r == Unknown <==> start == None || end == None
    ensures start.Some? && end.Some? ==>
      r.Days? && (r.n - 1) * MsPerDay < end.value - start.value <= r.n * MsPerDay
  {
    if start.None? || end.None? then Unknown
    else Days(CeilDiv(end.value - start.value, MsPerDay))
  }

  /** The same instant at both ends gives 0 days. */
  lemma SameInstantIsZero(t: Timestamp)
    ensures GetDaysDiff(Some(t), Some(t)) == Days(0)
  {
  }

  /** An end later than the start by any positive amount counts at least one day. */
  lemma LaterEndIsPositive(s: Timestamp, e: Timestamp)
    requires s < e
    ensures GetDaysDiff(Some(s), Some(e)).n >= 1
  {
  }

  /** An end not later than the start never counts a positive number of days. */
  lemma NotLaterEndIsNonPositive(s: Timestamp, e: Timestamp)
    requires e <= s
    ensures GetDaysDiff(Some(s), Some(e)).n <= 0
  {
  }

  /** Between instants a whole number `k` of days apart the count is exactly
      `k`, and `-k` with the arguments swapped. */
  lemma WholeDays(s: Timestamp, k: int)
    ensures GetDaysDiff(Some(s), Some(s + k * MsPerDay)) == Days(k)
    ensures GetDaysDiff(Some(s + k * MsPerDay), Some(s)) == Days(-k)
  {
  }

  /**
   * Swapping the arguments negates the count only when the two instants are
   * a whole number of days apart; otherwise the two counts add up to 1,
   * because both are rounded up.
   */
  lemma SwapSum(s: Timestamp, e: Timestamp)
    ensures GetDaysDiff(Some(s), Some(e)).n + GetDaysDiff(Some(e), Some(s)).n
         == if (e - s) % MsPerDay == 0 then 0 else 1
  {
  }

  /** A later end never gives a smaller count. */
  lemma MonotoneInEnd(s: Timestamp, e1: Timestamp, e2: Timestamp)
    requires e1 <= e2
    ensures GetDaysDiff(Some(s), Some(e1)).n <= GetDaysDiff(Some(s), Some(e2)).n
  {
  }

  /** A later start never gives a larger count. */
  lemma AntitoneInStart(s1: Timestamp, s2: Timestamp, e: Timestamp)
    requires s1 <= s2
    ensures GetDaysDiff(Some(s2), Some(e)).n <= GetDaysDiff(Some(s1), Some(e)).n
  {
  }

  /**
   * The end-date rule rounds the end down to its midnight but hands the
   * start to `getDaysDiff` as it is. A start up to a day after a midnight
   * still counts the whole days between the midnights: rounding up absorbs
   * the offset.
   */
  lemma OffsetAbsorbed(a: Timestamp, k: int, offset: int)
    requires 0 <= offset < MsPerDay
    ensures GetDaysDiff(Some(a + offset), Some(a + k * MsPerDay)) == Days(k)
  {
  }

  /** A start up to a day before a midnight counts one day more than the
      whole days between the midnights. */
  lemma EarlyStartAddsDay(a: Timestamp, k: int, offset: int)
    requires -MsPerDay < offset < 0
    ensures GetDaysDiff(Some(a + offset), Some(a + k * MsPerDay)) == Days(k + 1)
  {
  }

  /**
   * `toDateString()` parsed back: the midnight that begins the day holding
   * `t`. Timestamps count local time, so the midnights are the multiples of
   * `MsPerDay`.
   */
  function DayStart(t: Timestamp): (m: Timestamp)
    ensures m % MsPerDay == 0 && m <= t < m + MsPerDay
  {
    t - t % MsPerDay
  }

  /** Only one midnight begins the day holding `t`. */
  lemma DayStartUnique(t: Timestamp, m: Timestamp)
    requires m % MsPerDay == 0 && m <= t < m + MsPerDay
    ensures m == DayStart(t)
  {
  }

  /** Moving a time by whole days moves its midnight by the same days. */
  lemma DayStartShift(t: Timestamp, k: int)
    ensures DayStart(t + k * MsPerDay) == DayStart(t) + k * MsPerDay
  {
    DayStartUnique(t + k * MsPerDay, DayStart(t) + k * MsPerDay);
  }
}
