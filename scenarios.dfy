/**
 * Concrete leave requests and names, checked against the rules.
 * Dates are midnights, written as whole days since the epoch.
 */
module Scenarios {
  import opened Wrappers
  import opened DateUtils
  import opened Validation

  /** The midnight that begins day `d` after the epoch. */
  function Midnight(d: int): Timestamp
  {
    d * MsPerDay
  }

  /** 2024-03-01 is day 19783 after 1970-01-01. */
  const March1st2024: int := 19783

  /** 2024-03-01 to 2024-03-10: nine days, and both date rules pass with
      today being the first of March. */
  lemma NineDayLeave()
    ensures GetDaysDiff(Some(Midnight(March1st2024)), Some(Midnight(March1st2024 + 9))) == Days(9)
    ensures StartNotPast(Midnight(March1st2024), Midnight(March1st2024))
    ensures EndNotBeforeStart(Some(Midnight(March1st2024)), Midnight(March1st2024 + 9))
    ensures EndSpanOk(Some(Midnight(March1st2024)), Midnight(March1st2024 + 9))
  {
    WholeDays(Midnight(March1st2024), 9);
    DayStartUnique(Midnight(March1st2024), Midnight(March1st2024));
    DayStartUnique(Midnight(March1st2024 + 9), Midnight(March1st2024 + 9));
  }

  /** 2024-03-10 to 2024-03-10: zero days, and the span test fails. */
  lemma ZeroDayLeave()
    ensures GetDaysDiff(Some(Midnight(March1st2024 + 9)), Some(Midnight(March1st2024 + 9))) == Days(0)
    ensures !EndSpanOk(Some(Midnight(March1st2024 + 9)), Midnight(March1st2024 + 9))
  {
    SameInstantIsZero(Midnight(March1st2024 + 9));
    DayStartUnique(Midnight(March1st2024 + 9), Midnight(March1st2024 + 9));
  }

  /** 2024-03-01 to 2024-03-20: nineteen days, more than fourteen. */
  lemma NineteenDayLeave()
    ensures GetDaysDiff(Some(Midnight(March1st2024)), Some(Midnight(March1st2024 + 19))) == Days(19)
    ensures !EndSpanOk(Some(Midnight(March1st2024)), Midnight(March1st2024 + 19))
  {
    WholeDays(Midnight(March1st2024), 19);
    DayStartUnique(Midnight(March1st2024 + 19), Midnight(March1st2024 + 19));
  }

  /** An end at 01:00 on 2024-03-15 is rounded down to its midnight: the leave
      from 2024-03-01 counts 14 days and passes the span test. */
  lemma FourteenDaysAndAnHour()
    ensures EndSpanOk(Some(Midnight(March1st2024)), Midnight(March1st2024 + 14) + 3_600_000)
  {
    DayStartUnique(Midnight(March1st2024 + 14) + 3_600_000, Midnight(March1st2024 + 14));
  }

  /** Whatever the clock reads, now is accepted as a start, and 14:00
      yesterday and the last millisecond of yesterday are rejected. */
  lemma YesterdayRejected(now: Timestamp)
    ensures StartNotPast(now, now)
    ensures !StartNotPast(now, DayStart(now) - MsPerDay + 14 * 3_600_000)
    ensures !StartNotPast(now, DayStart(now) - 1)
  {
    StartNotPastIff(now, now);
    StartNotPastIff(now, DayStart(now) - MsPerDay + 14 * 3_600_000);
    StartNotPastIff(now, DayStart(now) - 1);
  }

  /** "John Doe" as code units. */
  const JohnDoe: seq<CodeUnit> := [74, 111, 104, 110, 32, 68, 111, 101]

  /** "Іван" as code units (Cyrillic letters). */
  const Ivan: seq<CodeUnit> := [0x0406, 0x0432, 0x0430, 0x043D]

  /** "john.doe@mail.com" as code units. */
  const JohnsAddress: seq<CodeUnit> :=
    [106, 111, 104, 110, 46, 100, 111, 101, 64, 109, 97, 105, 108, 46, 99, 111, 109]

  /** "John Doe" passes the Latin-letters test; the Cyrillic "Іван" fails it. */
  lemma Names()
    ensures LatinName(JohnDoe)
    ensures !LatinName(Ivan)
  {
    LatinNameIff(JohnDoe);
    LatinNameIff(Ivan);
  }

  /** A usual address matches the email pattern. */
  lemma UsualAddress()
    ensures MatchesEmail(JohnsAddress)
  {
    assert EmailSplitAt(JohnsAddress, 8, 13);
  }
}
