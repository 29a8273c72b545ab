/**
 The helpers local to the birthday view row: its own copies of
 `getNextBirthday` and `daysUntil`, and the "days until" label.
 */
module ViewBirthdayRow {
  import opened Calendar
  import DateUtils
  import Text

  /** The row's `getNextBirthday(date)`: month and day come from the stored date. */
  function NextBirthday(date: CivilDate, now: DateUtils.Clock): int
  {
    var month := date.month;
    var day := date.day;
    var isThisYear := month > now.month || (month == now.month && day >= now.day);
    DateUtils.TimeOf(now.year + (if isThisYear then 0 else 1), month, day)
  }

  /** The row's `daysUntil(date)`: floor of the day difference from midnight-truncated now. */
  function DaysUntil(date: int, now: DateUtils.Clock): int
  {
    var nowTruncated := DateUtils.TimeOf(now.year, now.month, now.day);
    (date - nowTruncated) / (1000 * 3600 * 24)
  }

  /** `getDaysUntilString`: "today" for 0, otherwise the count followed by " days". */
  function DaysUntilString(days: int): string
  {
    if days == 0 then "today" else Text.IntToString(days) + " days"
  }

  /** The label the row shows next to a stored date. */
  function Label(date: CivilDate, now: DateUtils.Clock): string
  {
    DaysUntilString(DaysUntil(NextBirthday(date, now), now))
  }

  // ---------------------------------------------------------------------------
  // lemmas

  /** The row's copy agrees with `getNextBirthdayByDate` of the date utilities. */
  lemma NextBirthdayAgrees(date: CivilDate, now: DateUtils.Clock)
    ensures NextBirthday(date, now) == DateUtils.NextBirthdayByDate(date, now)
  {
  }

  /** The row's copy of `daysUntil` agrees with the date utilities' one. */
  lemma DaysUntilAgrees(date: int, now: DateUtils.Clock)
    ensures DaysUntil(date, now) == DateUtils.DaysUntil(date, now)
  {
  }

  /** The label is "today" exactly for a count of 0. */
  lemma TodayIffZero(days: int)
    ensures DaysUntilString(days) == "today" <==> days == 0
  {
    if days != 0 {
      var s := DaysUntilString(days);
      assert s[|s| - 1] == 's';
    }
  }

  /** A nonzero count is rendered in decimal followed by " days", with no singular form. */
  lemma NonzeroCountLabel(days: int)
    requires days != 0
    ensures exists digits :: DaysUntilString(days) == digits + " days"
                             && Text.ParseInt(digits) == days
  {
    Text.IntToStringRoundTrip(days);
    assert DaysUntilString(days) == Text.IntToString(days) + " days";
  }

  /** Different counts give different labels. */
  lemma LabelInjective(m: int, n: int)
    requires DaysUntilString(m) == DaysUntilString(n)
    ensures m == n
  {
    TodayIffZero(m);
    TodayIffZero(n);
    if m != 0 && n != 0 {
      var a, b := Text.IntToString(m), Text.IntToString(n);
      assert a + " days" == b + " days";
      assert |a| == |b|;
      assert a == (a + " days")[..|a|];
      assert b == (b + " days")[..|b|];
      Text.IntToStringInjective(m, n);
    }
  }

  /** A count of 1 reads "1 days". */
  lemma OneDayLabel()
    ensures DaysUntilString(1) == "1 days"
  {
  }

  /** A real stored date is labelled "today" exactly on its month and day. */
  lemma LabelTodayIffBirthday(date: CivilDate, now: DateUtils.Clock)
    requires now.Valid() && date.Valid()
    ensures Label(date, now) == "today" <==> date.month == now.month && date.day == now.day
  {
    NextBirthdayAgrees(date, now);
    DaysUntilAgrees(NextBirthday(date, now), now);
    DateUtils.DaysUntilNextBirthday(date, now);
    TodayIffZero(DaysUntil(NextBirthday(date, now), now));
  }
}
