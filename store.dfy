/**
 * The application state of app.js (its `state` object) and the actions
 * that change it. The fields are reassigned in place, as the source does;
 * what each action leaves behind is stated by the list functions of
 * module Tasks, whose properties are proved there.
 */
module TaskStore {
  import opened Wrappers
  import opened Lists
  import opened Strings
  import opened Tasks

  /** What parsing the stored text gave: a parse error, an array of task records, or some other value. */
  datatype Parsed = Unparseable | ArrayValue(items: seq<Task>) | OtherValue

  /**
   * loadTasks: the stored text under the storage key (None when absent),
   * parsed by `parse`. Anything but a non-empty text that parses to an
   * array yields the empty list; an array is taken as it is.
   */
  function LoadTasks(raw: Option<string>, parse: string -> Parsed): (r: seq<Task>)
    ensures raw == None || raw == Some("") ==> r == []
    ensures raw.Some? && raw.value != "" && !parse(raw.value).ArrayValue? ==> r == []
    ensures r != [] ==> raw.Some? && parse(raw.value) == ArrayValue(r)
    ensures raw.Some? && raw.value != "" && parse(raw.value).ArrayValue? ==> r == parse(raw.value).items
  {
    match raw
    case None => []
    case Some(text) =>
      if text == "" then []
      else match parse(text)
        case ArrayValue(items) => items
        case _ => []
  }

  class Store {
    /** Newest first. */
    var tasks: seq<Task>
    /** "all", "active" or "done"; any other value shows every task. */
    var filter: string

    /** The initial state: the loaded list, and the filter "all". */
    constructor (raw: Option<string>, parse: string -> Parsed)
      ensures tasks == LoadTasks(raw, parse) && filter == "all"
    {
      tasks := LoadTasks(raw, parse);
      filter := "all";
    }

    /** setFilter: only the filter changes. */
    method SetFilter(next: string)
      modifies this
      ensures filter == next && tasks == old(tasks)
    {
      filter := next;
    }

    /**
     * addTask, with the id and the clock reading that uid() and Date.now()
     * would supply passed in: a blank text changes nothing, any other puts
     * a new task at the head.
     */
    method AddTask(text: string, id: string, now: int)
      modifies this
      ensures tasks == Added(old(tasks), text, id, now) && filter == old(filter)
    {
      var trimmed := Trim(text);
      if trimmed == "" {
        return;
      }
      tasks := [Task(id, trimmed, false, now)] + tasks;
    }

    /** toggleTask: flips the first task carrying `id`, if there is one. */
    method ToggleTask(id: string)
      modifies this
      ensures tasks == Toggled(old(tasks), id) && filter == old(filter)
    {
      var found := IndexOfId(tasks, id);
      if found.None? {
        return;
      }
      var i := found.value;
      tasks := tasks[i := tasks[i].(done := !tasks[i].done)];
    }

    /** deleteTask: keeps the tasks whose id differs from `id`. */
    method DeleteTask(id: string)
      modifies this
      ensures tasks == WithoutId(old(tasks), id) && filter == old(filter)
    {
      tasks := Filter(tasks, (t: Task) => t.id != id);
    }

    /** clearDone: keeps the tasks that are not done. */
    method ClearDone()
      modifies this
      ensures tasks == ActiveTasks(old(tasks)) && filter == old(filter)
    {
      tasks := Filter(tasks, IsActive);
    }

    /**
     * seedDemo: adds the demo entries back to front, the k-th add taking
     * ids[k] and times[k], so that they read top to bottom in their listed
     * order above the tasks that were there.
     */
    method SeedDemo(ids: seq<string>, times: seq<int>)
      requires |ids| == |DEMO_TEXTS| && |times| == |DEMO_TEXTS|
      modifies this
      ensures |tasks| == |old(tasks)| + 4 && tasks[4..] == old(tasks)
      ensures forall k :: 0 <= k < 4 ==> tasks[k] == Task(ids[3 - k], DEMO_TEXTS[k], false, times[3 - k])
      ensures filter == old(filter)
    {
      SeedDemoShape(tasks, ids, times);
      AddEach(Reverse(DEMO_TEXTS), ids, times);
    }

    /** forEach over `texts` calling addTask, the k-th call with ids[k] and times[k]. */
    method AddEach(texts: seq<string>, ids: seq<string>, times: seq<int>)
      requires |ids| == |texts| && |times| == |texts|
      modifies this
      ensures tasks == AddedAll(old(tasks), texts, ids, times) && filter == old(filter)
    {
      for i := 0 to |texts|
        invariant tasks == AddedAll(old(tasks), texts[..i], ids[..i], times[..i])
        invariant filter == old(filter)
      {
        AddedAllStep(old(tasks), texts, ids, times, i);
        AddTask(texts[i], ids[i], times[i]);
      }
      assert texts[..|texts|] == texts && ids[..|texts|] == ids && times[..|texts|] == times;
    }
  }
}
