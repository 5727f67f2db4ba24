/**
 * A worked day of the application: today is June 15 of any four-digit year,
 * and the tasks are due in that June.
 */
module Scenarios {
  import opened Wrappers
  import opened Dates
  import opened Text
  import opened Tasks
  import opened View

  lemma TwoDigits(s: string)
    requires |s| == 2 && AllDigits(s)
    ensures Numeral(s) == 10 * DigitValue(s[0]) + DigitValue(s[1])
  {
    assert s[1..][1..] == [];
  }

  /** Two well-formed dates of the same month are their day-of-month difference apart. */
  lemma SameMonthDifference(s: string, t: string)
    requires WellFormedDate(s) && WellFormedDate(t)
    requires s[..7] == t[..7]
    ensures DayOf(t) - DayOf(s) == DayOfMonth(t) - DayOfMonth(s)
  {
    assert s[..4] == s[..7][..4] == t[..7][..4] == t[..4];
    assert s[5..7] == s[..7][5..] == t[..7][5..] == t[5..7];
  }

  /** The date string with the given year, month and day fields. */
  function DateString(y: string, m: string, d: string): string { y + "-" + m + "-" + d }

  lemma DateStringFields(y: string, m: string, d: string)
    requires |y| == 4 && |m| == 2 && |d| == 2 && AllDigits(y) && AllDigits(m) && AllDigits(d)
    ensures var s := DateString(y, m, d);
      && HasDateShape(s) && s[..4] == y && s[5..7] == m && s[8..] == d && s[..7] == y + "-" + m
  {
    var s := DateString(y, m, d);
    assert s[..4] == y;
    assert s[5..7] == m;
    assert s[8..] == d;
    assert s[..7] == y + "-" + m;
  }

  /** A four-digit year field. */
  predicate Year(y: string) { |y| == 4 && AllDigits(y) }

  /** A two-digit day field that exists in June. */
  predicate JuneDay(day: string) { |day| == 2 && AllDigits(day) && 1 <= Numeral(day) <= 30 }

  function June(y: string, day: string): string { DateString(y, "06", day) }

  lemma JuneDate(y: string, day: string)
    requires Year(y) && JuneDay(day)
    ensures WellFormedDate(June(y, day)) && DayOfMonth(June(y, day)) == Numeral(day)
    ensures June(y, day)[..7] == y + "-" + "06"
  {
    assert AllDigits("06");
    DateStringFields(y, "06", day);
    TwoDigits("06");
    assert MonthOf(June(y, day)) == 6;
  }

  /** Today's date in the examples: June 15 of year `y`. */
  function Today(y: string): string { June(y, "15") }

  lemma TodayIsWellFormed(y: string)
    requires Year(y)
    ensures WellFormedDate(Today(y)) && DayOfMonth(Today(y)) == 15
  {
    TwoDigits("15");
    JuneDate(y, "15");
  }

  /** A task due in June, seen on June 15: its day count. */
  lemma JuneDays(y: string, t: Task, day: string)
    requires Year(y) && JuneDay(day) && t.dueDate == June(y, day)
    ensures WellFormedDate(Today(y)) && WellFormedDate(t.dueDate)
    ensures ViewOf(t, Today(y)).days == Numeral(day) - 15
  {
    TodayIsWellFormed(y);
    JuneDate(y, day);
    SameMonthDifference(Today(y), June(y, day));
  }

  /** Due in five days: Active, warned that it expires in 5 days. */
  lemma DueInFiveDays(y: string)
    requires Year(y)
    ensures var a := Task(1, "A", Today(y), June(y, "20"), 2, "", false);
      && WellFormedDate(Today(y)) && WellFormedDate(a.dueDate)
      && ViewOf(a, Today(y)).days == 5 && BucketOf(ViewOf(a, Today(y))) == Active
      && ViewOf(a, Today(y)).warning == Some(Ahead + "5" + Tail)
  {
    TwoDigits("20");
    var a := Task(1, "A", Today(y), June(y, "20"), 2, "", false);
    JuneDays(y, a, "20");
    assert ViewOf(a, Today(y)).warning == Some(ExpiryText(5));
    assert Decimal(5) == "5";
  }

  /** Five days late: Expired, warned that it expired 5 days ago. */
  lemma FiveDaysLate(y: string)
    requires Year(y)
    ensures var b := Task(2, "B", Today(y), June(y, "10"), 1, "", false);
      && WellFormedDate(Today(y)) && WellFormedDate(b.dueDate)
      && ViewOf(b, Today(y)).days == -5 && BucketOf(ViewOf(b, Today(y))) == Expired
      && ViewOf(b, Today(y)).warning == Some(Behind + "5" + Tail)
  {
    TwoDigits("10");
    var b := Task(2, "B", Today(y), June(y, "10"), 1, "", false);
    JuneDays(y, b, "10");
    assert ViewOf(b, Today(y)).warning == Some(ExpiryText(-5));
    assert Decimal(5) == "5";
  }

  /** Due today: Active, warned that it expires today. */
  lemma DueOnTheDay(y: string)
    requires Year(y)
    ensures var c := Task(3, "C", Today(y), June(y, "15"), 3, "", false);
      && WellFormedDate(Today(y)) && WellFormedDate(c.dueDate)
      && ViewOf(c, Today(y)).days == 0 && BucketOf(ViewOf(c, Today(y))) == Active
      && ViewOf(c, Today(y)).warning == Some(DueToday)
  {
    TwoDigits("15");
    JuneDays(y, Task(3, "C", Today(y), June(y, "15"), 3, "", false), "15");
  }

  /** Completed two weeks late: Completed, with no warning. */
  lemma CompletedLate(y: string)
    requires Year(y)
    ensures var d := Task(4, "D", Today(y), June(y, "01"), 1, "", true);
      && WellFormedDate(Today(y)) && WellFormedDate(d.dueDate)
      && ViewOf(d, Today(y)).days == -14
      && BucketOf(ViewOf(d, Today(y))) == Completed && ViewOf(d, Today(y)).warning == None
  {
    TwoDigits("01");
    JuneDays(y, Task(4, "D", Today(y), June(y, "01"), 1, "", true), "01");
  }

  /** A June date is not in July. */
  lemma NotInJuly(y: string, day: string)
    requires Year(y) && JuneDay(day)
    ensures WellFormedDate(June(y, day)) && !StartsWith(June(y, day), y + "-07")
  {
    JuneDate(y, day);
    assert (y + "-" + "06")[6] == '6' && (y + "-07")[6] == '7';
  }

  /** Two tasks due outside the selected month: the message and three empty lists. */
  lemma NothingDueIn(a: Task, d: Task, month: string, today: string)
    requires WellFormedDate(a.dueDate) && WellFormedDate(d.dueDate) && WellFormedDate(today)
    requires month != "" && !StartsWith(a.dueDate, month) && !StartsWith(d.dueDate, month)
    ensures Dated([a, d]) && BuildListing([a, d], month, today) == Listing([], [], [], true)
  {
    var ts := [a, d];
    assert forall t :: t in ts ==> t == a || t == d;
    NoTasksMessage(ts, month, today);
  }

  /** A month with no task due in it gets the message and three empty lists. */
  lemma NoTaskInJuly(y: string, today: string)
    requires Year(y) && WellFormedDate(today)
    ensures var ts := [Task(1, "A", today, June(y, "20"), 2, "", false),
                       Task(4, "D", today, June(y, "01"), 1, "", true)];
      Dated(ts) && BuildListing(ts, y + "-07", today) == Listing([], [], [], true)
  {
    TwoDigits("20"); TwoDigits("01");
    NotInJuly(y, "20"); NotInJuly(y, "01");
    NothingDueIn(Task(1, "A", today, June(y, "20"), 2, "", false),
                 Task(4, "D", today, June(y, "01"), 1, "", true), y + "-07", today);
  }
}
