/**
 * The listing `renderTasks` builds: keep the tasks of the selected month,
 * sort them by due date, annotate each with its day count, expiry warning
 * and displayed dates, and deal them into the Active, Expired and Completed
 * lists. The markup is left out; each list is a sequence of view records.
 */
module View {
  import opened Wrappers
  import opened Dates
  import opened Text
  import opened Tasks
  import opened Seqs
  import opened Sorting

  // ---------------------------------------------------------------------------
  // Filtering by month
  // ---------------------------------------------------------------------------

  /**
   * `tasks.filter(task => task.dueDate.startsWith(month))`, which never grows
   * the collection. What it keeps is `InMonthKeeps`.
   */
  function InMonth(ts: seq<Task>, month: string): (r: seq<Task>)
    ensures |r| <= |ts|
  {
    if ts == [] then []
    else if StartsWith(ts[0].dueDate, month) then [ts[0]] + InMonth(ts[1..], month)
    else InMonth(ts[1..], month)
  }

  /**
   * The month filter keeps exactly the tasks whose due date starts with
   * `month`, each as often as before, in their original order.
   */
  lemma {:induction false} InMonthKeeps(ts: seq<Task>, month: string)
    ensures forall t :: multiset(InMonth(ts, month))[t] ==
                         (if StartsWith(t.dueDate, month) then multiset(ts)[t] else 0)
    ensures Subseq(InMonth(ts, month), ts)
  {
    if ts != [] {
      InMonthKeeps(ts[1..], month);
      assert ts == [ts[0]] + ts[1..];
      if StartsWith(ts[0].dueDate, month) {
        assert InMonth(ts, month)[1..] == InMonth(ts[1..], month);
      }
    }
  }

  /** The tasks to show: all of them when no month is selected, else those of the month. */
  function Shown(ts: seq<Task>, month: string): (r: seq<Task>)
    ensures month == "" ==> r == ts
    ensures forall t :: t in r <==> t in ts && (month == "" || StartsWith(t.dueDate, month))
  {
    if month == "" then ts
    else
      var r := InMonth(ts, month);
      InMonthKeeps(ts, month);
      assert forall t :: t in r <==> multiset(r)[t] > 0;
      r
  }

  // ---------------------------------------------------------------------------
  // Sorting by due date
  // ---------------------------------------------------------------------------

  /**
   * What the sort comparator compares: the day `new Date(t.dueDate)` denotes.
   * The listing is only built over well-formed due dates (`Dated`), so the
   * value for any other string is never looked at.
   */
  function Due(t: Task): int
  {
    if WellFormedDate(t.dueDate) then DayOf(t.dueDate) else 0
  }

  /** The sort of `renderTasks`: the same tasks, by non-decreasing due day. */
  function SortByDue(ts: seq<Task>): (r: seq<Task>)
    requires Dated(ts)
    ensures multiset(r) == multiset(ts) && SortedBy(r, Due)
    ensures Dated(r)
  {
    var r := SortBy(ts, Due);
    assert forall t :: t in r ==> t in multiset(ts);
    r
  }

  /**
   * The sorted tasks are the same tasks, with due-date strings running in
   * ascending order.
   */
  lemma SortOrdersDueDates(ts: seq<Task>)
    requires Dated(ts)
    ensures var r := SortByDue(ts);
      && multiset(r) == multiset(ts)
      && forall i, j :: 0 <= i < j < |r| ==> !LexLess(r[j].dueDate, r[i].dueDate)
  {
    var r := SortByDue(ts);
    forall i, j | 0 <= i < j < |r| ensures !LexLess(r[j].dueDate, r[i].dueDate) {
      assert r[i] in r && r[j] in r;
      DayOrderIsStringOrder(r[j].dueDate, r[i].dueDate);
    }
  }

  // ---------------------------------------------------------------------------
  // Annotating one task
  // ---------------------------------------------------------------------------

  datatype Bucket = Active | Expired | Completed

  /**
   * What the listing shows of one task. `note` is the observation when it is
   * not empty; `warning` is the expiry text, shown only for a task that is
   * not completed.
   */
  datatype TaskView = TaskView(
    id: int,
    name: string,
    priority: int,
    completed: bool,
    createdText: string,
    dueText: string,
    note: Option<string>,
    days: int,
    warning: Option<string>)

  /** The annotation of one task against `today`. */
  function ViewOf(t: Task, today: string): (v: TaskView)
    requires WellFormedDate(t.dueDate) && WellFormedDate(today)
    ensures v.days == DayOf(t.dueDate) - DayOf(today)
  {
    var days := DiffInDays(t.dueDate, today);
    TaskView(
      t.id, t.name, t.priority, t.completed,
      DisplayDate(t.createdDate), DisplayDate(t.dueDate),
      if t.observation != "" then Some(t.observation) else None,
      days,
      if t.completed then None else Some(ExpiryText(days)))
  }

  /** The list a task goes to: completion first, then a past due date. */
  function BucketOf(v: TaskView): (b: Bucket)
    ensures b == Completed <==> v.completed
    ensures b == Expired <==> !v.completed && v.days < 0
    ensures b == Active <==> !v.completed && v.days >= 0
  {
    if v.completed then Completed else if v.days < 0 then Expired else Active
  }

  /**
   * The displayed fields of a view say what their task is: its id, name,
   * priority and completion flag as stored, its dates in day/month/year
   * order, its observation as the note when there is one, and its warning
   * exactly when it is open, a warning from which the signed day count can
   * be read back.
   */
  lemma ViewShowsTask(t: Task, today: string)
    requires WellFormedDate(t.dueDate) && WellFormedDate(today) && WellFormedDate(t.createdDate)
    ensures var v := ViewOf(t, today);
      && v.id == t.id && v.name == t.name && v.priority == t.priority && v.completed == t.completed
      && v.dueText == t.dueDate[8..] + "/" + t.dueDate[5..7] + "/" + t.dueDate[..4]
      && v.createdText == t.createdDate[8..] + "/" + t.createdDate[5..7] + "/" + t.createdDate[..4]
      && v.note == (if t.observation == "" then None else Some(t.observation))
      && (v.warning.None? <==> t.completed)
      && (!t.completed ==> DaysInExpiryText(v.warning.value) == Some(DayOf(t.dueDate) - DayOf(today)))
  {
    DisplayOfWellFormedDate(t.dueDate);
    DisplayOfWellFormedDate(t.createdDate);
    ExpiryTextRoundTrip(DayOf(t.dueDate) - DayOf(today));
  }

  /**
   * The classification: a completed task is Completed whatever its due date;
   * an open one is Expired when its due date is before today and Active
   * otherwise, with the warning for "due today" when it is today.
   */
  lemma Classification(t: Task, today: string)
    requires WellFormedDate(t.dueDate) && WellFormedDate(today)
    ensures t.completed ==> BucketOf(ViewOf(t, today)) == Completed
    ensures !t.completed && LexLess(t.dueDate, today) ==> BucketOf(ViewOf(t, today)) == Expired
    ensures !t.completed && !LexLess(t.dueDate, today) ==> BucketOf(ViewOf(t, today)) == Active
    ensures !t.completed && t.dueDate == today ==> ViewOf(t, today).warning == Some(DueToday)
  {
    DayOrderIsStringOrder(t.dueDate, today);
  }

  // ---------------------------------------------------------------------------
  // Dealing the shown tasks into the three lists
  // ---------------------------------------------------------------------------

  /** The views of the shown tasks, in order. */
  function Views(shown: seq<Task>, today: string): (r: seq<TaskView>)
    requires Dated(shown) && WellFormedDate(today)
    ensures |r| == |shown|
  {
    if shown == [] then []
    else Views(shown[..|shown| - 1], today) + [ViewOf(shown[|shown| - 1], today)]
  }

  /** The view at each position is the view of the shown task at that position. */
  lemma {:induction false} ViewAt(shown: seq<Task>, today: string, i: nat)
    requires Dated(shown) && WellFormedDate(today) && i < |shown|
    ensures WellFormedDate(shown[i].dueDate) && Views(shown, today)[i] == ViewOf(shown[i], today)
  {
    assert shown[i] in shown;
    var front := shown[..|shown| - 1];
    assert Dated(front) by {
      assert forall t :: t in front ==> t in shown;
    }
    if i < |front| {
      ViewAt(front, today, i);
      assert front[i] == shown[i];
      assert Views(shown, today)[i] == Views(front, today)[i];
    }
  }

  /** The view at each position counts the days to the due date of the shown task at that position. */
  lemma ViewsDays(shown: seq<Task>, today: string)
    requires Dated(shown) && WellFormedDate(today)
    ensures var views := Views(shown, today);
      forall i :: 0 <= i < |shown| ==> views[i].days == DayOf(shown[i].dueDate) - DayOf(today)
  {
    forall i | 0 <= i < |shown|
      ensures Views(shown, today)[i].days == DayOf(shown[i].dueDate) - DayOf(today)
    {
      ViewAt(shown, today, i);
    }
  }

  /** The views of the shown tasks that go to list `b`, in order; each belongs there. */
  function BucketViews(shown: seq<Task>, today: string, b: Bucket): (r: seq<TaskView>)
    requires Dated(shown) && WellFormedDate(today)
    ensures forall v :: v in r ==> BucketOf(v) == b
  {
    if shown == [] then []
    else
      var last := shown[|shown| - 1];
      var v := ViewOf(last, today);
      BucketViews(shown[..|shown| - 1], today, b) + (if BucketOf(v) == b then [v] else [])
  }

  /**
   * The `forEach` of `renderTasks`: one pass over the sorted tasks, each
   * appended to the list its annotation selects.
   */
  method Distribute(shown: seq<Task>, today: string)
      returns (active: seq<TaskView>, expired: seq<TaskView>, completed: seq<TaskView>)
    requires Dated(shown) && WellFormedDate(today)
    ensures active == BucketViews(shown, today, Active)
    ensures expired == BucketViews(shown, today, Expired)
    ensures completed == BucketViews(shown, today, Completed)
  {
    active, expired, completed := [], [], [];
    var i := 0;
    while i < |shown|
      invariant 0 <= i <= |shown|
      invariant active == BucketViews(shown[..i], today, Active)
      invariant expired == BucketViews(shown[..i], today, Expired)
      invariant completed == BucketViews(shown[..i], today, Completed)
    {
      var task := shown[i];
      var v := ViewOf(task, today);
      if task.completed {
        completed := completed + [v];
      } else if v.days < 0 {
        expired := expired + [v];
      } else {
        active := active + [v];
      }
      BucketViewsStep(shown, i, today, Active);
      BucketViewsStep(shown, i, today, Expired);
      BucketViewsStep(shown, i, today, Completed);
      i := i + 1;
    }
    assert shown[..i] == shown;
  }

  /** One more shown task extends list `b` by its view when it belongs there. */
  lemma BucketViewsStep(shown: seq<Task>, i: nat, today: string, b: Bucket)
    requires Dated(shown) && WellFormedDate(today) && i < |shown|
    ensures Dated(shown[..i]) && Dated(shown[..i + 1])
    ensures var v := ViewOf(shown[i], today);
      BucketViews(shown[..i + 1], today, b) == BucketViews(shown[..i], today, b) + (if BucketOf(v) == b then [v] else [])
  {
    assert forall t :: t in shown[..i + 1] ==> t in shown;
    assert shown[..i + 1][..i] == shown[..i];
  }

  /** Every shown task lands in exactly one of the three lists. */
  lemma {:induction false} BucketsPartition(shown: seq<Task>, today: string)
    requires Dated(shown) && WellFormedDate(today)
    ensures var a, e, c := BucketViews(shown, today, Active), BucketViews(shown, today, Expired),
                           BucketViews(shown, today, Completed);
      multiset(a) + multiset(e) + multiset(c) == multiset(Views(shown, today))
      && |a| + |e| + |c| == |shown|
  {
    if shown != [] {
      var front := shown[..|shown| - 1];
      assert Dated(front) by {
        assert forall t :: t in front ==> t in shown;
      }
      BucketsPartition(front, today);
    }
  }

  /** Each list keeps the order the tasks were shown in. */
  lemma {:induction false} BucketKeepsOrder(shown: seq<Task>, today: string, b: Bucket)
    requires Dated(shown) && WellFormedDate(today)
    ensures Subseq(BucketViews(shown, today, b), Views(shown, today))
  {
    if shown != [] {
      var front := shown[..|shown| - 1];
      var v := ViewOf(shown[|shown| - 1], today);
      var bucket, all := BucketViews(front, today, b), Views(front, today);
      BucketKeepsOrder(front, today, b);
      SubseqExtend(bucket, all, v);
      assert Views(shown, today) == all + [v];
      if BucketOf(v) == b {
        assert BucketViews(shown, today, b) == bucket + [v];
      } else {
        assert BucketViews(shown, today, b) == bucket;
      }
    }
  }

  predicate DaysAscending(vs: seq<TaskView>)
  {
    forall i, j :: 0 <= i < j < |vs| ==> vs[i].days <= vs[j].days
  }

  lemma {:induction false} SubseqOfAscending(a: seq<TaskView>, b: seq<TaskView>)
    requires Subseq(a, b) && DaysAscending(b)
    ensures DaysAscending(a)
    decreases |b|
  {
    if a != [] {
      if a[0] == b[0] && Subseq(a[1..], b[1..]) {
        SubseqOfAscending(a[1..], b[1..]);
        SubseqMembers(a[1..], b[1..]);
        forall j | 0 < j < |a| ensures a[0].days <= a[j].days {
          assert a[j] == a[1..][j - 1];
          assert a[j] in b[1..];
        }
      } else {
        SubseqOfAscending(a, b[1..]);
      }
    }
  }

  /** With the shown tasks sorted, every list runs from the earliest due date to the latest. */
  lemma BucketsAscending(shown: seq<Task>, today: string, b: Bucket)
    requires Dated(shown) && WellFormedDate(today) && SortedBy(shown, Due)
    ensures DaysAscending(BucketViews(shown, today, b))
  {
    var views := Views(shown, today);
    ViewsDays(shown, today);
    forall i, j | 0 <= i < j < |views| ensures views[i].days <= views[j].days {
      assert shown[i] in shown && shown[j] in shown;
    }
    BucketKeepsOrder(shown, today, b);
    SubseqOfAscending(BucketViews(shown, today, b), views);
  }

  // ---------------------------------------------------------------------------
  // The whole listing
  // ---------------------------------------------------------------------------

  /**
   * The three lists, and whether the "no task found for this month" message
   * replaces the Active list.
   */
  datatype Listing = Listing(
    active: seq<TaskView>,
    expired: seq<TaskView>,
    completed: seq<TaskView>,
    noTasksMessage: bool)

  lemma ShownIsDated(ts: seq<Task>, month: string)
    requires Dated(ts)
    ensures Dated(Shown(ts, month))
  {
  }

  /**
   * The listing `renderTasks` draws for the collection, the month filter and
   * today's date: the three lists together hold one view per shown task, and
   * the message is only ever given for a selected month.
   */
  function BuildListing(ts: seq<Task>, month: string, today: string): (l: Listing)
    requires Dated(ts) && WellFormedDate(today)
    ensures |l.active| + |l.expired| + |l.completed| == |Shown(ts, month)|
    ensures l.noTasksMessage ==> month != ""
  {
    ShownIsDated(ts, month);
    var shown := SortByDue(Shown(ts, month));
    BucketsPartition(shown, today);
    assert |shown| == |Shown(ts, month)| by {
      assert |multiset(shown)| == |multiset(Shown(ts, month))|;
    }
    Listing(
      BucketViews(shown, today, Active),
      BucketViews(shown, today, Expired),
      BucketViews(shown, today, Completed),
      month != "" && |shown| == 0)
  }

  /**
   * The message appears exactly when a month is selected and no task is due
   * in it, and then all three lists are empty.
   */
  lemma NoTasksMessage(ts: seq<Task>, month: string, today: string)
    requires Dated(ts) && WellFormedDate(today)
    ensures BuildListing(ts, month, today).noTasksMessage
      <==> month != "" && forall t :: t in ts ==> !StartsWith(t.dueDate, month)
    ensures BuildListing(ts, month, today).noTasksMessage ==>
      var l := BuildListing(ts, month, today);
      l.active == [] && l.expired == [] && l.completed == []
  {
    ShownIsDated(ts, month);
    var shown := Shown(ts, month);
    var sorted := SortByDue(shown);
    assert |sorted| == |shown| by {
      assert |multiset(sorted)| == |multiset(shown)|;
    }
    if month != "" {
      NothingShown(ts, month);
    }
  }

  /** With a month selected, nothing is shown exactly when no task is due in that month. */
  lemma NothingShown(ts: seq<Task>, month: string)
    requires month != ""
    ensures Shown(ts, month) == [] <==> forall t :: t in ts ==> !StartsWith(t.dueDate, month)
  {
    var shown := Shown(ts, month);
    if shown != [] {
      assert shown[0] in shown;
    }
  }

  /**
   * The lists hold the views of exactly the shown tasks, once each, and each
   * list is ordered by due date.
   */
  lemma ListingContents(ts: seq<Task>, month: string, today: string)
    requires Dated(ts) && WellFormedDate(today)
    ensures var l := BuildListing(ts, month, today);
      var shown := SortByDue(Shown(ts, month));
      && multiset(l.active) + multiset(l.expired) + multiset(l.completed) == multiset(Views(shown, today))
      && multiset(shown) == multiset(Shown(ts, month))
      && DaysAscending(l.active) && DaysAscending(l.expired) && DaysAscending(l.completed)
  {
    ShownIsDated(ts, month);
    var shown := SortByDue(Shown(ts, month));
    BucketsPartition(shown, today);
    BucketsAscending(shown, today, Active);
    BucketsAscending(shown, today, Expired);
    BucketsAscending(shown, today, Completed);
  }

  lemma {:induction false} InMonthAppend(ts: seq<Task>, t: Task, month: string)
    ensures InMonth(ts + [t], month) == InMonth(ts, month) + (if StartsWith(t.dueDate, month) then [t] else [])
  {
    var tail := if StartsWith(t.dueDate, month) then [t] else [];
    if ts == [] {
      assert [] + [t] == [t] && [t][1..] == [];
      assert InMonth([t], month) == tail + InMonth([], month);
    } else {
      var head := if StartsWith(ts[0].dueDate, month) then [ts[0]] else [];
      var rest := ts[1..];
      InMonthAppend(rest, t, month);
      assert (ts + [t])[0] == ts[0] && (ts + [t])[1..] == rest + [t];
      assert InMonth(ts + [t], month) == head + InMonth(rest + [t], month);
      assert InMonth(ts, month) == head + InMonth(rest, month);
    }
  }

  lemma InMonthDated(ts: seq<Task>, month: string)
    requires Dated(ts)
    ensures Dated(InMonth(ts, month))
  {
    InMonthKeeps(ts, month);
    var r := InMonth(ts, month);
    forall t | t in r ensures WellFormedDate(t.dueDate) {
      assert multiset(r)[t] > 0;
    }
  }

  /** Keeping a month and keeping a due day can be done in either order. */
  lemma {:induction false} MonthAndDayCommute(ts: seq<Task>, month: string, day: int)
    requires Dated(ts)
    ensures Dated(InMonth(ts, month))
    ensures WithKey(InMonth(ts, month), Due, day) == InMonth(WithKey(ts, Due, day), month)
  {
    InMonthDated(ts, month);
    if ts != [] {
      var front, last := ts[..|ts| - 1], ts[|ts| - 1];
      assert ts == front + [last];
      MonthAndDayCommute(front, month, day);
      InMonthAppend(front, last, month);
      InMonthDated(front, month);
      var kept := InMonth(front, month);
      var byDay := WithKey(front, Due, day);
      var p, q := StartsWith(last.dueDate, month), Due(last) == day;
      assert WithKey(kept, Due, day) == InMonth(byDay, month);
      assert WithKey(ts, Due, day) == byDay + (if q then [last] else []);
      if p {
        assert InMonth(ts, month) == kept + [last];
        assert (kept + [last])[..|kept|] == kept;
        assert WithKey(InMonth(ts, month), Due, day) == InMonth(byDay, month) + (if q then [last] else []);
      } else {
        assert InMonth(ts, month) == kept;
      }
      if q {
        InMonthAppend(byDay, last, month);
        assert InMonth(WithKey(ts, Due, day), month) == InMonth(byDay, month) + (if p then [last] else []);
      } else {
        assert WithKey(ts, Due, day) == byDay;
      }
    }
  }

  /**
   * Two collections hold the same tasks of each due day in the same order;
   * only how tasks of different days interleave may differ.
   */
  ghost predicate SameDayOrder(a: seq<Task>, b: seq<Task>)
  {
    forall k :: WithKey(a, Due, k) == WithKey(b, Due, k)
  }

  /**
   * The listing sees only the order of the tasks of each due day: two
   * collections that agree on it are listed alike.
   */
  lemma ListingDependsOnDayOrder(a: seq<Task>, b: seq<Task>, month: string, today: string)
    requires Dated(a) && Dated(b) && WellFormedDate(today)
    requires SameDayOrder(a, b)
    ensures BuildListing(a, month, today) == BuildListing(b, month, today)
  {
    ShownIsDated(a, month);
    ShownIsDated(b, month);
    var sa, sb := SortByDue(Shown(a, month)), SortByDue(Shown(b, month));
    forall k ensures WithKey(sa, Due, k) == WithKey(sb, Due, k) {
      SortIsStable(Shown(a, month), Due, k);
      SortIsStable(Shown(b, month), Due, k);
      if month != "" {
        MonthAndDayCommute(a, month, k);
        MonthAndDayCommute(b, month, k);
        assert WithKey(a, Due, k) == WithKey(b, Due, k);
      }
    }
    SortedUnique(sa, sb, Due);
  }

  /** Sorting keeps the order of the tasks of each due day. */
  lemma SortKeepsDayOrder(ts: seq<Task>)
    requires Dated(ts)
    ensures SameDayOrder(SortByDue(ts), ts)
  {
    forall k ensures WithKey(SortByDue(ts), Due, k) == WithKey(ts, Due, k) {
      SortIsStable(ts, Due, k);
    }
  }

  /**
   * A listing does not depend on the order of the stored collection: the
   * reordering an unfiltered render leaves behind does not show in the next
   * listing. `Store.ChangesAfterRenderListAlike` carries this through the
   * changes that follow.
   */
  lemma ListingIgnoresStoredOrder(ts: seq<Task>, month: string, today: string)
    requires Dated(ts) && WellFormedDate(today)
    ensures BuildListing(SortByDue(ts), month, today) == BuildListing(ts, month, today)
  {
    SortKeepsDayOrder(ts);
    ListingDependsOnDayOrder(SortByDue(ts), ts, month, today);
  }
}
