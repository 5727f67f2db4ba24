/**
 * The `Task` record and the three changes the application makes to its task
 * collection: appending a validated new task, flipping the completion flag
 * of the tasks with an id (a `map` over the array), and dropping the tasks
 * with an id (a `filter`).
 */
module Tasks {
  import opened Wrappers
  import opened Dates
  import opened Seqs

  /**
   * One stored task. `id` is the `Date.now()` timestamp of its creation and
   * `createdDate` the UTC date of that moment; `priority` is 1 (low),
   * 2 (medium) or 3 (high) and only styles the view.
   */
  datatype Task = Task(
    id: int,
    name: string,
    createdDate: string,
    dueDate: string,
    priority: int,
    observation: string,
    completed: bool)

  datatype AddError = MissingNameOrDueDate

  /** Every due date in the collection is a well-formed `YYYY-MM-DD`. */
  predicate Dated(ts: seq<Task>)
  {
    forall t :: t in ts ==> WellFormedDate(t.dueDate)
  }

  // ---------------------------------------------------------------------------
  // Adding a task
  // ---------------------------------------------------------------------------

  /**
   * The validation and the record built by adding a task: an empty name or
   * an empty due date is refused; priority and observation are not checked.
   */
  function NewTask(id: int, name: string, dueDate: string, priority: int, observation: string,
                   today: string): (r: Result<Task, AddError>)
    ensures r.Failure? <==> name == "" || dueDate == ""
    ensures r.Success? ==>
      && r.value.id == id && r.value.name == name && r.value.dueDate == dueDate
      && r.value.priority == priority && r.value.observation == observation
      && r.value.createdDate == today && !r.value.completed
  {
    if name == "" || dueDate == "" then Failure(MissingNameOrDueDate)
    else Success(Task(id, name, today, dueDate, priority, observation, false))
  }

  // ---------------------------------------------------------------------------
  // Toggling completion
  // ---------------------------------------------------------------------------

  /** One task after toggling `id`: only its completion can change, and it does when the id matches. */
  function Flip(t: Task, id: int): (r: Task)
    ensures r.(completed := t.completed) == t
    ensures r.completed != t.completed <==> t.id == id
  {
    if t.id == id then t.(completed := !t.completed) else t
  }

  /**
   * The collection after toggling `id`: same length and order, only the
   * completion flag of the tasks carrying `id` changes, and it changes on
   * every one of them.
   */
  function Toggled(ts: seq<Task>, id: int): (r: seq<Task>)
    ensures |r| == |ts|
    ensures forall i :: 0 <= i < |ts| ==> r[i].(completed := ts[i].completed) == ts[i]
    ensures forall i :: 0 <= i < |ts| ==> (r[i].completed != ts[i].completed <==> ts[i].id == id)
  {
    if ts == [] then [] else [Flip(ts[0], id)] + Toggled(ts[1..], id)
  }

  /** Toggling the same id twice restores the collection. */
  lemma {:induction false} ToggleTwice(ts: seq<Task>, id: int)
    ensures Toggled(Toggled(ts, id), id) == ts
  {
    if ts != [] {
      ToggleTwice(ts[1..], id);
      assert Toggled(ts, id)[1..] == Toggled(ts[1..], id);
    }
  }

  /** Toggling an id no task carries changes nothing. */
  lemma {:induction false} ToggleUnknownId(ts: seq<Task>, id: int)
    requires forall t :: t in ts ==> t.id != id
    ensures Toggled(ts, id) == ts
  {
    if ts != [] {
      ToggleUnknownId(ts[1..], id);
    }
  }

  /** Toggles of two ids can be done in either order. */
  lemma {:induction false} TogglesCommute(ts: seq<Task>, id: int, id': int)
    ensures Toggled(Toggled(ts, id), id') == Toggled(Toggled(ts, id'), id)
  {
    if ts != [] {
      TogglesCommute(ts[1..], id, id');
      assert Toggled(ts, id)[1..] == Toggled(ts[1..], id);
      assert Toggled(ts, id')[1..] == Toggled(ts[1..], id');
    }
  }

  lemma ToggleKeepsDates(ts: seq<Task>, id: int)
    requires Dated(ts)
    ensures Dated(Toggled(ts, id))
  {
    var r := Toggled(ts, id);
    forall t | t in r ensures WellFormedDate(t.dueDate) {
      var i :| 0 <= i < |r| && r[i] == t;
      assert r[i].dueDate == r[i].(completed := ts[i].completed).dueDate == ts[i].dueDate;
      assert ts[i] in ts;
    }
  }

  // ---------------------------------------------------------------------------
  // Removing a task
  // ---------------------------------------------------------------------------

  /**
   * The collection after removing `id`: the `filter` of `removeTask`, which
   * never grows the collection. What it keeps is `RemoveKeepsOthers`.
   */
  function WithoutId(ts: seq<Task>, id: int): (r: seq<Task>)
    ensures |r| <= |ts|
  {
    if ts == [] then []
    else if ts[0].id != id then [ts[0]] + WithoutId(ts[1..], id)
    else WithoutId(ts[1..], id)
  }

  /**
   * Removal keeps exactly the tasks whose id differs, each as often as
   * before, in their original order.
   */
  lemma {:induction false} RemoveKeepsOthers(ts: seq<Task>, id: int)
    ensures var r := WithoutId(ts, id);
      && (forall t :: multiset(r)[t] == if t.id != id then multiset(ts)[t] else 0)
      && Subseq(r, ts)
  {
    if ts != [] {
      RemoveKeepsOthers(ts[1..], id);
      assert ts == [ts[0]] + ts[1..];
      var rest := WithoutId(ts[1..], id);
      if ts[0].id != id {
        assert WithoutId(ts, id) == [ts[0]] + rest;
        assert ([ts[0]] + rest)[1..] == rest;
      }
    }
  }

  /** Removing an id no task carries changes nothing. */
  lemma {:induction false} RemoveUnknownId(ts: seq<Task>, id: int)
    requires forall t :: t in ts ==> t.id != id
    ensures WithoutId(ts, id) == ts
  {
    if ts != [] {
      RemoveUnknownId(ts[1..], id);
      assert ts == [ts[0]] + ts[1..];
    }
  }

  /** Removing the same id again changes nothing more. */
  lemma RemoveTwice(ts: seq<Task>, id: int)
    ensures WithoutId(WithoutId(ts, id), id) == WithoutId(ts, id)
  {
    var r := WithoutId(ts, id);
    RemoveKeepsOthers(ts, id);
    forall t | t in r ensures t.id != id {
      assert multiset(r)[t] > 0;
    }
    RemoveUnknownId(r, id);
  }

  /** Removal keeps every due date well-formed. */
  lemma RemoveKeepsDates(ts: seq<Task>, id: int)
    requires Dated(ts)
    ensures Dated(WithoutId(ts, id))
  {
    var r := WithoutId(ts, id);
    RemoveKeepsOthers(ts, id);
    forall t | t in r ensures WellFormedDate(t.dueDate) {
      assert multiset(r)[t] > 0;
    }
  }

  /** Removal distributes over concatenation. */
  lemma {:induction false} RemoveFromAppend(a: seq<Task>, b: seq<Task>, id: int)
    ensures WithoutId(a + b, id) == WithoutId(a, id) + WithoutId(b, id)
  {
    if a == [] {
      assert a + b == b;
    } else {
      var x, a' := a[0], a[1..];
      RemoveFromAppend(a', b, id);
      assert a == [x] + a' && a + b == [x] + (a' + b);
      RemoveHead(x, a' + b, id);
      RemoveHead(x, a', id);
      var ra, rb := WithoutId(a', id), WithoutId(b, id);
      if x.id != id {
        assert [x] + (ra + rb) == ([x] + ra) + rb;
      }
    }
  }

  /** Removal looks at the first task, then at the rest. */
  lemma RemoveHead(x: Task, rest: seq<Task>, id: int)
    ensures x.id != id ==> WithoutId([x] + rest, id) == [x] + WithoutId(rest, id)
    ensures x.id == id ==> WithoutId([x] + rest, id) == WithoutId(rest, id)
  {
    assert ([x] + rest)[0] == x && ([x] + rest)[1..] == rest;
  }

  /** Removing a freshly added task, whose id was not in use, undoes the addition. */
  lemma RemoveUndoesAdd(ts: seq<Task>, t: Task)
    requires forall u :: u in ts ==> u.id != t.id
    ensures WithoutId(ts + [t], t.id) == ts
  {
    RemoveFromAppend(ts, [t], t.id);
    RemoveUnknownId(ts, t.id);
    assert [t][1..] == [];
  }
}
