/**
 * The page's state: the `tasks` array every handler reads and reassigns, and
 * the copy last written to browser storage. Each change is followed by
 * `saveAndRender`: the array is saved first and then rendered, and an
 * unfiltered render sorts the array itself, so the in-memory order and the
 * saved order can differ until the next save.
 */
module Store {
  import opened Wrappers
  import opened Dates
  import opened Tasks
  import opened Sorting
  import opened View

  /**
   * The collection a render leaves behind. Without a month filter the list
   * it sorts is the collection itself, which therefore ends sorted; with a
   * filter it sorts a copy and the collection is untouched.
   */
  function AfterRender(ts: seq<Task>, month: string): (r: seq<Task>)
    requires Dated(ts)
    ensures Dated(r) && multiset(r) == multiset(ts)
    ensures month == "" ==> SortedBy(r, Due)
    ensures month != "" ==> r == ts
  {
    if month == "" then SortByDue(ts) else ts
  }

  /**
   * After an unfiltered render no further render, filtered or not, changes
   * the collection.
   */
  lemma RenderSettles(ts: seq<Task>, month: string)
    requires Dated(ts)
    ensures AfterRender(AfterRender(ts, ""), month) == AfterRender(ts, "")
  {
    SortOfSorted(SortByDue(ts), Due);
  }

  // ---------------------------------------------------------------------------
  // The render's reordering and the changes after it
  // ---------------------------------------------------------------------------

  lemma {:induction false} ToggledSnoc(s: seq<Task>, y: Task, id: int)
    ensures Toggled(s + [y], id) == Toggled(s, id) + [Flip(y, id)]
  {
    if s == [] {
      assert [] + [y] == [y] && [y][1..] == [];
    } else {
      ToggledSnoc(s[1..], y, id);
      assert (s + [y])[0] == s[0] && (s + [y])[1..] == s[1..] + [y];
    }
  }

  /** Toggling and picking the tasks of one due day can be done in either order. */
  lemma {:induction false} ToggleByDay(s: seq<Task>, id: int, k: int)
    ensures WithKey(Toggled(s, id), Due, k) == Toggled(WithKey(s, Due, k), id)
  {
    if s != [] {
      var front, last := s[..|s| - 1], s[|s| - 1];
      assert s == front + [last];
      ToggleByDay(front, id, k);
      if Due(last) == k {
        ToggleByDayPicked(front, last, id, k);
      } else {
        ToggleByDaySkipped(front, last, id, k);
      }
    }
  }

  /** The step of `ToggleByDay` for a last task of day `k`. */
  lemma ToggleByDayPicked(front: seq<Task>, last: Task, id: int, k: int)
    requires Due(last) == k
    requires WithKey(Toggled(front, id), Due, k) == Toggled(WithKey(front, Due, k), id)
    ensures WithKey(Toggled(front + [last], id), Due, k) == Toggled(WithKey(front + [last], Due, k), id)
  {
    var f := Flip(last, id);
    assert Due(f) == k by {
      assert f.dueDate == last.dueDate;
    }
    var picked := WithKey(front, Due, k);
    ToggledSnoc(front, last, id);
    WithKeySnoc(Toggled(front, id), f, Due, k);
    WithKeySnoc(front, last, Due, k);
    ToggledSnoc(picked, last, id);
  }

  /** The step of `ToggleByDay` for a last task of another day. */
  lemma ToggleByDaySkipped(front: seq<Task>, last: Task, id: int, k: int)
    requires Due(last) != k
    requires WithKey(Toggled(front, id), Due, k) == Toggled(WithKey(front, Due, k), id)
    ensures WithKey(Toggled(front + [last], id), Due, k) == Toggled(WithKey(front + [last], Due, k), id)
  {
    var f := Flip(last, id);
    assert Due(f) != k by {
      assert f.dueDate == last.dueDate;
    }
    var toggled := Toggled(front, id);
    ToggledSnoc(front, last, id);
    WithKeySnoc(toggled, f, Due, k);
    WithKeySnoc(front, last, Due, k);
    assert WithKey(toggled + [f], Due, k) == WithKey(toggled, Due, k);
    assert WithKey(front + [last], Due, k) == WithKey(front, Due, k);
  }

  lemma RemoveSnoc(s: seq<Task>, y: Task, id: int)
    ensures y.id != id ==> WithoutId(s + [y], id) == WithoutId(s, id) + [y]
    ensures y.id == id ==> WithoutId(s + [y], id) == WithoutId(s, id)
  {
    RemoveFromAppend(s, [y], id);
    RemoveHead(y, [], id);
    assert [y] + [] == [y];
  }

  /** Removing and picking the tasks of one due day can be done in either order. */
  lemma {:induction false} RemoveByDay(s: seq<Task>, id: int, k: int)
    ensures WithKey(WithoutId(s, id), Due, k) == WithoutId(WithKey(s, Due, k), id)
  {
    if s != [] {
      var front, last := s[..|s| - 1], s[|s| - 1];
      assert s == front + [last];
      RemoveByDay(front, id, k);
      RemoveSnoc(front, last, id);
      var picked := WithKey(front, Due, k);
      if Due(last) == k {
        assert WithKey(s, Due, k) == picked + [last];
        RemoveSnoc(picked, last, id);
        if last.id != id {
          WithKeySnoc(WithoutId(front, id), last, Due, k);
        }
      } else {
        assert WithKey(s, Due, k) == picked;
        if last.id != id {
          WithKeySnoc(WithoutId(front, id), last, Due, k);
        }
      }
    }
  }

  /**
   * Agreeing on the order of each due day's tasks survives every change the
   * page makes: a toggle, a removal, an appended task and a render.
   */
  lemma DayOrderSurvivesChanges(a: seq<Task>, b: seq<Task>, id: int, t: Task, month: string)
    requires Dated(a) && Dated(b) && SameDayOrder(a, b)
    ensures SameDayOrder(Toggled(a, id), Toggled(b, id))
    ensures SameDayOrder(WithoutId(a, id), WithoutId(b, id))
    ensures SameDayOrder(a + [t], b + [t])
    ensures SameDayOrder(AfterRender(a, month), b)
  {
    forall k ensures WithKey(Toggled(a, id), Due, k) == WithKey(Toggled(b, id), Due, k) {
      ToggleByDay(a, id, k);
      ToggleByDay(b, id, k);
      assert WithKey(a, Due, k) == WithKey(b, Due, k);
    }
    forall k ensures WithKey(WithoutId(a, id), Due, k) == WithKey(WithoutId(b, id), Due, k) {
      RemoveByDay(a, id, k);
      RemoveByDay(b, id, k);
      assert WithKey(a, Due, k) == WithKey(b, Due, k);
    }
    forall k ensures WithKey(a + [t], Due, k) == WithKey(b + [t], Due, k) {
      WithKeySnoc(a, t, Due, k);
      WithKeySnoc(b, t, Due, k);
      assert WithKey(a, Due, k) == WithKey(b, Due, k);
    }
    if month == "" {
      SortKeepsDayOrder(a);
      forall k ensures WithKey(AfterRender(a, month), Due, k) == WithKey(b, Due, k) {
        assert WithKey(SortByDue(a), Due, k) == WithKey(a, Due, k);
        assert WithKey(a, Due, k) == WithKey(b, Due, k);
      }
    }
  }

  /**
   * Whatever change follows a render, the collection the render reordered
   * and the collection as it was before the render give the same listing.
   */
  lemma ChangesAfterRenderListAlike(ts: seq<Task>, month: string, id: int, t: Task,
                                    month': string, today: string)
    requires Dated(ts) && WellFormedDate(today) && WellFormedDate(t.dueDate)
    ensures var r := AfterRender(ts, month);
      && Dated(Toggled(r, id)) && Dated(Toggled(ts, id))
      && Dated(WithoutId(r, id)) && Dated(WithoutId(ts, id))
      && Dated(r + [t]) && Dated(ts + [t])
    ensures var r := AfterRender(ts, month);
      && BuildListing(Toggled(r, id), month', today) == BuildListing(Toggled(ts, id), month', today)
      && BuildListing(WithoutId(r, id), month', today) == BuildListing(WithoutId(ts, id), month', today)
      && BuildListing(r + [t], month', today) == BuildListing(ts + [t], month', today)
  {
    var r := AfterRender(ts, month);
    ToggleKeepsDates(r, id);
    ToggleKeepsDates(ts, id);
    RemoveKeepsDates(r, id);
    RemoveKeepsDates(ts, id);
    AppendKeepsDates(r, t);
    AppendKeepsDates(ts, t);
    assert SameDayOrder(ts, ts);
    DayOrderSurvivesChanges(ts, ts, id, t, month);
    DayOrderSurvivesChanges(r, ts, id, t, month);
    ListingDependsOnDayOrder(Toggled(r, id), Toggled(ts, id), month', today);
    ListingDependsOnDayOrder(WithoutId(r, id), WithoutId(ts, id), month', today);
    ListingDependsOnDayOrder(r + [t], ts + [t], month', today);
  }

  lemma AppendKeepsDates(ts: seq<Task>, t: Task)
    requires Dated(ts) && WellFormedDate(t.dueDate)
    ensures Dated(ts + [t])
  {
    forall u | u in ts + [t] ensures WellFormedDate(u.dueDate) {
      assert u in ts || u == t;
    }
  }

  class TaskStore {
    /** The `tasks` array of the page. */
    var tasks: seq<Task>
    /** The value of the `tasksDB` storage entry, `None` while nothing is stored. */
    var saved: Option<seq<Task>>

    /**
     * Page load: the stored collection, or an empty one when nothing is
     * stored, is rendered at once; with no month selected that render leaves
     * it sorted while storage keeps the order it was saved in.
     */
    constructor (stored: Option<seq<Task>>, month: string, today: string)
      requires stored.Some? ==> Dated(stored.value)
      requires WellFormedDate(today)
      ensures saved == stored
      ensures tasks == AfterRender(if stored.Some? then stored.value else [], month)
    {
      tasks := if stored.Some? then stored.value else [];
      saved := stored;
      new;
      var listing := Render(month, today);
    }

    /**
     * `renderTasks` with the month filter's value (empty when no month is
     * selected) and today's UTC date.
     */
    method Render(month: string, today: string) returns (listing: Listing)
      requires Dated(tasks) && WellFormedDate(today)
      modifies this`tasks
      ensures listing == BuildListing(old(tasks), month, today)
      ensures tasks == AfterRender(old(tasks), month)
    {
      var shown: seq<Task>;
      if month == "" {
        // the list to show is the collection itself, so sorting it reorders the collection
        tasks := SortByDue(tasks);
        shown := tasks;
      } else {
        InMonthDated(tasks, month);
        shown := SortByDue(InMonth(tasks, month));
      }
      var active, expired, completed := Distribute(shown, today);
      listing := Listing(active, expired, completed, month != "" && |shown| == 0);
    }

    /** `saveAndRender`: store the collection as it is, then render it. */
    method SaveAndRender(month: string, today: string) returns (listing: Listing)
      requires Dated(tasks) && WellFormedDate(today)
      modifies this
      ensures saved == Some(old(tasks))
      ensures listing == BuildListing(old(tasks), month, today)
      ensures tasks == AfterRender(old(tasks), month)
    {
      saved := Some(tasks);
      listing := Render(month, today);
    }

    /**
     * `addTask` with the form's values: refused, with nothing changed, when
     * the name or the due date is empty; otherwise the new task is appended
     * and the collection saved and rendered. The date input yields either
     * nothing or a well-formed date.
     */
    method Add(id: int, name: string, dueDate: string, priority: int, observation: string,
               month: string, today: string) returns (r: Result<Listing, AddError>)
      requires Dated(tasks) && WellFormedDate(today)
      requires dueDate == "" || WellFormedDate(dueDate)
      modifies this
      ensures var made := NewTask(id, name, dueDate, priority, observation, today);
        if made.Failure? then
          r == Failure(made.error) && tasks == old(tasks) && saved == old(saved)
        else
          var added := old(tasks) + [made.value];
          && saved == Some(added)
          && r == Success(BuildListing(added, month, today))
          && tasks == AfterRender(added, month)
    {
      var made := NewTask(id, name, dueDate, priority, observation, today);
      if made.Failure? {
        return Failure(made.error);
      }
      tasks := tasks + [made.value];
      var listing := SaveAndRender(month, today);
      r := Success(listing);
    }

    /** `toggleTask`: flip the completion of the tasks with `id`, then save and render. */
    method Toggle(id: int, month: string, today: string) returns (listing: Listing)
      requires Dated(tasks) && WellFormedDate(today)
      modifies this
      ensures saved == Some(Toggled(old(tasks), id))
      ensures listing == BuildListing(Toggled(old(tasks), id), month, today)
      ensures tasks == AfterRender(Toggled(old(tasks), id), month)
    {
      ToggleKeepsDates(tasks, id);
      tasks := Toggled(tasks, id);
      listing := SaveAndRender(month, today);
    }

    /**
     * `removeTask` once the user has confirmed: drop the tasks with `id`,
     * then save and render.
     */
    method Remove(id: int, month: string, today: string) returns (listing: Listing)
      requires Dated(tasks) && WellFormedDate(today)
      modifies this
      ensures Dated(WithoutId(old(tasks), id))
      ensures saved == Some(WithoutId(old(tasks), id))
      ensures listing == BuildListing(WithoutId(old(tasks), id), month, today)
      ensures tasks == AfterRender(WithoutId(old(tasks), id), month)
    {
      RemoveKeepsDates(tasks, id);
      tasks := WithoutId(tasks, id);
      listing := SaveAndRender(month, today);
    }

    /** `clearFilter`: empty the month filter and render everything. */
    method ClearFilter(today: string) returns (listing: Listing)
      requires Dated(tasks) && WellFormedDate(today)
      modifies this`tasks
      ensures listing == BuildListing(old(tasks), "", today)
      ensures tasks == SortByDue(old(tasks))
    {
      listing := Render("", today);
    }
  }
}
