/**
 * The field rules of the leave-request form (src/tools/validation.ts).
 *
 * JavaScript strings are sequences of UTF-16 code units (`split('')` cuts a
 * string into them, `charCodeAt(0)` reads one back as a number), so the
 * form hands every rule a sequence of code units; an empty field
 * reaches the rules as an absent value. The two date fields arrive as
 * timestamps (`None` when empty). The moment of validation is the explicit
 * parameter `now`, the reading of the clock that `new Date()` takes.
 */
module Validation {
  import opened Wrappers
  import opened DateUtils

  /** One UTF-16 code unit, a 16-bit unsigned number. */
  type CodeUnit = x: int | 0 <= x < 0x1_0000

  /** The longest leave, in days. */
  const DaysCount: int := 14

  /** The form values (src/types/types.ts); `position` and `avatar_url` carry no rule. */
  datatype FormValues = FormValues(
    login: seq<CodeUnit>,
    name: seq<CodeUnit>,
    position: seq<CodeUnit>,
    startDate: Option<Timestamp>,
    endDate: Option<Timestamp>,
    email: seq<CodeUnit>,
    phone: seq<CodeUnit>,
    avatar_url: seq<CodeUnit>)

  /** The fields the schema validates. */
  datatype Field = Login | Name | StartDate | EndDate | Email | Phone

  // ---------------------------------------------------------------- required

  /** A string field passes `required` when it is not empty. */
  predicate Required(s: seq<CodeUnit>)
  {
    |s| > 0
  }

  // ------------------------------------------------------------------- name

  /** A space, an upper-case or a lower-case ASCII Latin letter. */
  predicate IsLatinUnit(c: CodeUnit)
  {
    c == 32 || 65 <= c <= 90 || 97 <= c <= 122
  }

  /** `value.split('').some(...)`: some code unit of the name is not a Latin
      letter or a space. */
  predicate SomeNonLatin(s: seq<CodeUnit>)
  {
    s != [] && (!IsLatinUnit(s[0]) || SomeNonLatin(s[1..]))
  }

  /** The Latin-letters test on the name. */
  predicate LatinName(s: seq<CodeUnit>)
  {
    !SomeNonLatin(s)
  }

  /** A name passes the Latin-letters test exactly when every code unit is a
      space or an ASCII Latin letter. */
  lemma {:induction false} LatinNameIff(s: seq<CodeUnit>)
    ensures LatinName(s) <==> forall i :: 0 <= i < |s| ==> IsLatinUnit(s[i])
  {
    if s != [] {
      LatinNameIff(s[1..]);
      assert forall i :: 1 <= i < |s| ==> s[i] == s[1..][i - 1];
    }
  }

  // ------------------------------------------------------------ start date

  /** The start date is not in the past: both the clock and the start are
      rounded down to their midnights (`toDateString()`), and
      `getDaysDiff` between them must be `>= 0`. An `Unknown` count would be
      NaN after `+`, and fails the comparison. */
  predicate StartNotPast(now: Timestamp, start: Timestamp)
  {
    match GetDaysDiff(Some(DayStart(now)), Some(DayStart(start)))
    case Days(n) => n >= 0
    case Unknown => false
  }

  // -------------------------------------------------------------- end date

  /** `min(ref('startDate'))`: the end is not earlier than the start (the
      bound is inclusive). Against a missing start the comparison is with
      `undefined`, which is false. */
  predicate EndNotBeforeStart(start: Option<Timestamp>, end: Timestamp)
  {
    start.Some? && end >= start.value
  }

  /** The span test: `0 < getDaysDiff(start, end) <= DaysCount`, with the end
      rounded down to its midnight (`toDateString()`) and the start as it is.
      A missing start gives the placeholder, NaN after `+`, and fails. */
  predicate EndSpanOk(start: Option<Timestamp>, end: Timestamp)
  {
    match GetDaysDiff(start, Some(DayStart(end)))
    case Days(n) => 0 < n <= DaysCount
    case Unknown => false
  }

  // ----------------------------------------------------------------- email

  predicate IsAsciiLetter(c: CodeUnit)
  {
    65 <= c <= 90 || 97 <= c <= 122
  }

  predicate IsAsciiDigit(c: CodeUnit)
  {
    48 <= c <= 57
  }

  /** `[a-zA-Z0-9._%+-]`: a code unit allowed before the '@'. */
  predicate InLocalClass(c: CodeUnit)
  {
    IsAsciiLetter(c) || IsAsciiDigit(c) || c == 46 || c == 95 || c == 37 || c == 43 || c == 45
  }

  /** `[a-zA-Z0-9.-]`: a code unit allowed between the '@' and the last dot. */
  predicate InDomainClass(c: CodeUnit)
  {
    IsAsciiLetter(c) || IsAsciiDigit(c) || c == 46 || c == 45
  }

  /** The address splits at `at` ('@') and `dot` ('.') into the three parts of
      `^[a-zA-Z0-9._%+-]+@[a-zA-Z0-9.-]+\.[a-zA-Z]{2,}$`. */
  predicate EmailSplitAt(s: seq<CodeUnit>, at: int, dot: int)
  {
    1 <= at && at + 2 <= dot && dot + 3 <= |s|
    && s[at] == 64 && s[dot] == 46
    && (forall k :: 0 <= k < at ==> InLocalClass(s[k]))
    && (forall k :: at < k < dot ==> InDomainClass(s[k]))
    && (forall k :: dot < k < |s| ==> IsAsciiLetter(s[k]))
  }

  /** The email pattern matches the whole address for some split. */
  predicate MatchesEmail(s: seq<CodeUnit>)
  {
    exists at, dot | 0 <= at < |s| && 0 <= dot < |s| :: EmailSplitAt(s, at, dot)
  }

  // ------------------------------------------------------------------ form

  /** One field's verdict: its `required` rule and, for a present value, its
      further rules. Only the end date looks at another field, the start. */
  predicate FieldFails(f: Field, v: FormValues, now: Timestamp)
  {
    match f
    case Login => !Required(v.login)
    case Name => !Required(v.name) || !LatinName(v.name)
    case StartDate => v.startDate.None? || !StartNotPast(now, v.startDate.value)
    case EndDate =>
      v.endDate.None? || !EndNotBeforeStart(v.startDate, v.endDate.value)
      || !EndSpanOk(v.startDate, v.endDate.value)
    case Email => !Required(v.email) || !MatchesEmail(v.email)
    case Phone => !Required(v.phone)
  }

  /** The set of fields the schema reports an error for. */
  function ValidateForm(v: FormValues, now: Timestamp): (errors: set<Field>)
    ensures Login !in errors <==> |v.login| > 0
    ensures Name !in errors <==>
      |v.name| > 0 && forall i :: 0 <= i < |v.name| ==> IsLatinUnit(v.name[i])
    ensures StartDate !in errors <==>
      v.startDate.Some? && v.startDate.value >= DayStart(now)
    ensures EndDate !in errors <==>
      v.startDate.Some? && v.endDate.Some?
      && 0 < DayStart(v.endDate.value) - v.startDate.value <= DaysCount * MsPerDay
    ensures Email !in errors <==> MatchesEmail(v.email)
    ensures Phone !in errors <==> |v.phone| > 0
  {
    var start := if v.startDate.Some? then v.startDate.value else now;
    var end := if v.endDate.Some? then v.endDate.value else now;
    StartNotPastIff(now, start);
    EndSpanIff(v.startDate, end);
    EndSpanImpliesNotBefore(v.startDate, end);
    MatchingEmailIsNonEmpty(v.email);
    LatinNameIff(v.name);
    set f | f in {Login, Name, StartDate, EndDate, Email, Phone} && FieldFails(f, v, now)
  }

  // ---------------------------------------------------------------- lemmas

  /** The start is accepted exactly when it is not before the midnight that
      begins the day of `now`: any time today or later passes. */
  lemma StartNotPastIff(now: Timestamp, start: Timestamp)
    ensures StartNotPast(now, start) <==> start >= DayStart(now)
  {
  }

  /** A start at any time of the day `k` days after today passes exactly when
      `k >= 0`: today passes, yesterday fails. */
  lemma StartNotPastWholeDays(now: Timestamp, k: int, t: int)
    requires 0 <= t < MsPerDay
    ensures StartNotPast(now, DayStart(now) + k * MsPerDay + t) <==> k >= 0
  {
    StartNotPastIff(now, DayStart(now) + k * MsPerDay + t);
  }

  /** The span test holds exactly when the midnight of the end day is after
      the start by at most `DaysCount` days. */
  lemma EndSpanIff(start: Option<Timestamp>, end: Timestamp)
    ensures EndSpanOk(start, end) <==>
      start.Some? && 0 < DayStart(end) - start.value <= DaysCount * MsPerDay
  {
  }

  /** An end `k` whole days after the start passes the span test exactly for
      1 to 14 days: 0 and 15 fail, 1 and 14 pass. */
  lemma EndSpanWholeDays(start: Timestamp, k: int)
    ensures EndSpanOk(Some(start), start + k * MsPerDay) <==> 1 <= k <= DaysCount
  {
    DayStartShift(start, k);
  }

  /** From a start at midnight, the time of day of the end does not matter:
      any time on the day `k` days later passes exactly for 1 to 14 days. */
  lemma EndTimeOfDayIgnored(start: Timestamp, k: int, t: int)
    requires start % MsPerDay == 0 && 0 <= t < MsPerDay
    ensures EndSpanOk(Some(start), start + k * MsPerDay + t) <==> 1 <= k <= DaysCount
  {
    DayStartUnique(start + k * MsPerDay + t, start + k * MsPerDay);
  }

  /** The span test already rules out an end before the start, so the
      `min` rule never decides the verdict on its own. */
  lemma EndSpanImpliesNotBefore(start: Option<Timestamp>, end: Timestamp)
    ensures EndSpanOk(start, end) ==> EndNotBeforeStart(start, end)
  {
    EndSpanIff(start, end);
  }

  /** The `min` rule accepts an end equal to the start. */
  lemma EndEqualToStartNotBefore(t: Timestamp)
    ensures EndNotBeforeStart(Some(t), t) && !EndSpanOk(Some(t), t)
  {
    SameInstantIsZero(t);
  }

  /** A matching address is not empty, so the pattern subsumes `required`. */
  lemma MatchingEmailIsNonEmpty(s: seq<CodeUnit>)
    ensures MatchesEmail(s) ==> |s| >= 5
  {
  }

  /** A matching address holds exactly one '@', at the split. */
  lemma EmailHasOneAt(s: seq<CodeUnit>, at: int, dot: int)
    requires EmailSplitAt(s, at, dot)
    ensures forall k :: 0 <= k < |s| && s[k] == 64 ==> k == at
  {
  }

  /** The dot of the split is the last dot of the address. */
  lemma EmailDotIsLast(s: seq<CodeUnit>, at: int, dot: int)
    requires EmailSplitAt(s, at, dot)
    ensures forall k :: dot < k < |s| ==> s[k] != 46
  {
  }

  /** Every field with an empty value fails its `required` rule. */
  lemma EmptyFieldsFail(v: FormValues, now: Timestamp)
    requires v.login == [] && v.name == [] && v.startDate == None
    requires v.endDate == None && v.email == [] && v.phone == []
    ensures ValidateForm(v, now) == {Login, Name, StartDate, EndDate, Email, Phone}
  {
  }

  /** Two forms that agree on what field `f` reads give `f` the same verdict. */
  predicate SameInputs(f: Field, v1: FormValues, v2: FormValues)
  {
    match f
    case Login => v1.login == v2.login
    case Name => v1.name == v2.name
    case StartDate => v1.startDate == v2.startDate
    case EndDate => v1.startDate == v2.startDate && v1.endDate == v2.endDate
    case Email => v1.email == v2.email
    case Phone => v1.phone == v2.phone
  }

  /** Each field's verdict depends only on its own value (and the start, for
      the end date): one field failing never changes another's verdict. */
  lemma VerdictsIndependent(f: Field, v1: FormValues, v2: FormValues, now: Timestamp)
    requires SameInputs(f, v1, v2)
    ensures f in ValidateForm(v1, now) <==> f in ValidateForm(v2, now)
  {
  }
}
