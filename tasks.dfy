/**
 * The task list as a value: the task record, the list transformations the
 * store's actions apply (app.js addTask, toggleTask, deleteTask, clearDone,
 * seedDemo), the filtered view and the summary line that render shows.
 */
module Tasks {
  import opened Wrappers
  import opened Lists
  import opened Strings

  /** One to-do item. `createdAt` is the creation time in epoch milliseconds. */
  datatype Task = Task(id: string, text: string, done: bool, createdAt: int)

  predicate IsActive(t: Task) {
    !t.done
  }

  predicate IsDone(t: Task) {
    t.done
  }

  predicate ContainsId(ts: seq<Task>, id: string) {
    exists t :: t in ts && t.id == id
  }

  /** No two tasks of the list share an id. */
  predicate UniqueIds(ts: seq<Task>) {
    forall i, j :: 0 <= i < |ts| && 0 <= j < |ts| && ts[i].id == ts[j].id ==> i == j
  }

  /** Every text in the list is non-empty and trimmed, as addTask creates them. */
  predicate TrimmedTexts(ts: seq<Task>) {
    forall t :: t in ts ==> IsTrimmed(t.text)
  }

  // ---------- addTask ----------

  /**
   * addTask: a text that is all whitespace leaves the list alone; any other
   * text becomes a new, not-done task at the head of the list, carrying the
   * trimmed text, the given id and the given timestamp, with the old list
   * unchanged behind it.
   */
  function Added(ts: seq<Task>, text: string, id: string, now: int): (r: seq<Task>)
    ensures AllWhitespace(text) ==> r == ts
    ensures !AllWhitespace(text) ==>
      |r| == |ts| + 1 && r[1..] == ts && r[0] == Task(id, Trim(text), false, now) && IsTrimmed(r[0].text)
  {
    var trimmed := Trim(text);
    if trimmed == "" then ts else [Task(id, trimmed, false, now)] + ts
  }

  /** Two adds put the later task first. */
  lemma NewestFirst(ts: seq<Task>, a: string, idA: string, tA: int, b: string, idB: string, tB: int)
    requires !AllWhitespace(a) && !AllWhitespace(b)
    ensures var r := Added(Added(ts, a, idA, tA), b, idB, tB);
      |r| == |ts| + 2 && r[0].id == idB && r[1].id == idA && r[2..] == ts
  {
    var r1 := Added(ts, a, idA, tA);
    var r := Added(r1, b, idB, tB);
    assert r[1..] == r1;
    assert r[2..] == r1[1..];
  }

  /** Adding a task under a fresh id keeps the ids unique and the texts trimmed. */
  lemma AddedKeepsInvariants(ts: seq<Task>, text: string, id: string, now: int)
    requires UniqueIds(ts) && TrimmedTexts(ts)
    requires !ContainsId(ts, id)
    ensures UniqueIds(Added(ts, text, id, now)) && TrimmedTexts(Added(ts, text, id, now))
  {
    var r := Added(ts, text, id, now);
    if !AllWhitespace(text) {
      forall i, j | 0 <= i < |r| && 0 <= j < |r| && r[i].id == r[j].id ensures i == j {
        if i > 0 && j > 0 {
          assert r[i] == ts[i - 1] && r[j] == ts[j - 1];
        }
      }
      forall t | t in r ensures IsTrimmed(t.text) {
        if t != r[0] {
          assert r == [r[0]] + ts;
          assert t in ts;
        }
      }
    }
  }

  // ---------- toggleTask ----------

  /** Array.prototype.find by id, as the position of the first task carrying `id`. */
  function IndexOfId(ts: seq<Task>, id: string): (r: Option<nat>)
    ensures r.None? ==> forall k :: 0 <= k < |ts| ==> ts[k].id != id
    ensures r.Some? ==> r.value < |ts| && ts[r.value].id == id &&
                        forall k :: 0 <= k < r.value ==> ts[k].id != id
  {
    if ts == [] then None
    else if ts[0].id == id then Some(0)
    else match IndexOfId(ts[1..], id)
      case None => None
      case Some(i) => Some(i + 1)
  }

  /** The task with `done` negated and every other field as it was. */
  function Flip(t: Task): (r: Task)
    ensures r.id == t.id && r.text == t.text && r.createdAt == t.createdAt
    ensures r.done != t.done
  {
    t.(done := !t.done)
  }

  /**
   * toggleTask: flips `done` on the first task whose id is `id` and on no
   * other; ids, texts, timestamps and the length stay as they were.
   */
  function Toggled(ts: seq<Task>, id: string): (r: seq<Task>)
    ensures |r| == |ts|
    ensures forall k :: 0 <= k < |ts| ==>
      r[k].id == ts[k].id && r[k].text == ts[k].text && r[k].createdAt == ts[k].createdAt
    ensures forall k :: 0 <= k < |ts| ==>
      (r[k].done != ts[k].done <==> ts[k].id == id && forall j :: 0 <= j < k ==> ts[j].id != id)
  {
    match IndexOfId(ts, id)
    case None => ts
    case Some(i) => ts[i := Flip(ts[i])]
  }

  /** Toggling an id that no task carries changes nothing. */
  lemma ToggledAbsent(ts: seq<Task>, id: string)
    requires !ContainsId(ts, id)
    ensures Toggled(ts, id) == ts
  {
    var r := Toggled(ts, id);
    forall k | 0 <= k < |ts| ensures r[k] == ts[k] {
      assert ts[k] in ts;
    }
  }

  /** Toggling the same id twice restores the list. */
  lemma ToggleTwice(ts: seq<Task>, id: string)
    ensures Toggled(Toggled(ts, id), id) == ts
  {
    var r1 := Toggled(ts, id);
    var r2 := Toggled(r1, id);
    forall k | 0 <= k < |ts| ensures r2[k] == ts[k] {
      assert (forall j :: 0 <= j < k ==> r1[j].id != id) <==> (forall j :: 0 <= j < k ==> ts[j].id != id);
    }
  }

  /** Toggling keeps the ids unique and the texts trimmed. */
  lemma ToggledKeepsInvariants(ts: seq<Task>, id: string)
    requires UniqueIds(ts) && TrimmedTexts(ts)
    ensures UniqueIds(Toggled(ts, id)) && TrimmedTexts(Toggled(ts, id))
  {
    var r := Toggled(ts, id);
    forall t | t in r ensures IsTrimmed(t.text) {
      var k :| 0 <= k < |r| && r[k] == t;
      assert ts[k] in ts;
    }
  }

  // ---------- deleteTask and clearDone ----------

  /** deleteTask: the tasks whose id is not `id`, in their original order. */
  function WithoutId(ts: seq<Task>, id: string): (r: seq<Task>)
    ensures IsSubsequence(r, ts)
    ensures !ContainsId(r, id)
    ensures forall t: Task :: t.id != id ==> multiset(r)[t] == multiset(ts)[t]
    ensures |r| == |ts| - Count(ts, (t: Task) => t.id == id)
  {
    var r := Filter(ts, (t: Task) => t.id != id);
    CountComplement(ts, (t: Task) => t.id != id, (t: Task) => t.id == id);
    r
  }

  /** Deleting an id that no task carries leaves the list as it was. */
  lemma WithoutAbsentId(ts: seq<Task>, id: string)
    requires !ContainsId(ts, id)
    ensures WithoutId(ts, id) == ts
  {
    FilterKeepsAll(ts, (t: Task) => t.id != id);
  }

  /** An order-preserving filter keeps the ids unique and the texts trimmed. */
  lemma FilterKeepsInvariants(ts: seq<Task>, p: Task -> bool)
    requires UniqueIds(ts) && TrimmedTexts(ts)
    ensures UniqueIds(Filter(ts, p)) && TrimmedTexts(Filter(ts, p))
  {
    FilterKeepsUniqueIds(ts, p);
  }

  lemma {:induction false} FilterKeepsUniqueIds(ts: seq<Task>, p: Task -> bool)
    requires UniqueIds(ts)
    ensures UniqueIds(Filter(ts, p))
  {
    if ts != [] {
      UniqueIdsTail(ts);
      FilterKeepsUniqueIds(ts[1..], p);
      if p(ts[0]) {
        assert Filter(ts, p) == [ts[0]] + Filter(ts[1..], p);
        HeadIdNotInTail(ts, Filter(ts[1..], p));
        HeadKeepsUniqueIds(ts[0], Filter(ts[1..], p));
      }
    }
  }

  lemma UniqueIdsTail(ts: seq<Task>)
    requires UniqueIds(ts) && ts != []
    ensures UniqueIds(ts[1..])
  {
    var tl := ts[1..];
    forall i, j | 0 <= i < |tl| && 0 <= j < |tl| && tl[i].id == tl[j].id ensures i == j {
      assert tl[i] == ts[i + 1] && tl[j] == ts[j + 1];
    }
  }

  lemma HeadIdNotInTail(ts: seq<Task>, rest: seq<Task>)
    requires UniqueIds(ts) && ts != []
    requires forall x :: x in rest ==> x in ts[1..]
    ensures forall k :: 0 <= k < |rest| ==> rest[k].id != ts[0].id
  {
    forall k | 0 <= k < |rest| ensures rest[k].id != ts[0].id {
      assert rest[k] in rest;
      var m :| 0 <= m < |ts[1..]| && ts[1..][m] == rest[k];
      assert ts[m + 1] == rest[k];
    }
  }

  lemma HeadKeepsUniqueIds(h: Task, rest: seq<Task>)
    requires UniqueIds(rest)
    requires forall k :: 0 <= k < |rest| ==> rest[k].id != h.id
    ensures UniqueIds([h] + rest)
  {
    var r := [h] + rest;
    forall i, j | 0 <= i < |r| && 0 <= j < |r| && r[i].id == r[j].id ensures i == j {
      if i > 0 && j > 0 { assert r[i] == rest[i - 1] && r[j] == rest[j - 1]; }
    }
  }

  /** clearDone: the tasks that are not done, in their original order. */
  function ActiveTasks(ts: seq<Task>): (r: seq<Task>)
    ensures IsSubsequence(r, ts) && |r| <= |ts|
    ensures forall t :: multiset(r)[t] == if t.done then 0 else multiset(ts)[t]
    ensures forall t :: t in r ==> !t.done
  {
    Filter(ts, IsActive)
  }

  /** The tasks that are done, in their original order. */
  function DoneTasks(ts: seq<Task>): (r: seq<Task>)
    ensures IsSubsequence(r, ts) && |r| <= |ts|
    ensures forall t :: multiset(r)[t] == if t.done then multiset(ts)[t] else 0
    ensures forall t :: t in r ==> t.done
  {
    Filter(ts, IsDone)
  }

  /** Clearing the done tasks a second time changes nothing. */
  lemma ClearDoneIdempotent(ts: seq<Task>)
    ensures ActiveTasks(ActiveTasks(ts)) == ActiveTasks(ts)
  {
    FilterIdempotent(ts, IsActive);
  }

  /**
   * The active and done views split the list: every task is in exactly
   * one of them, as often as in the list, and their lengths add up.
   */
  lemma ViewsPartition(ts: seq<Task>)
    ensures |ActiveTasks(ts)| + |DoneTasks(ts)| == |ts|
    ensures multiset(ActiveTasks(ts)) + multiset(DoneTasks(ts)) == multiset(ts)
    ensures forall t :: !(t in ActiveTasks(ts) && t in DoneTasks(ts))
  {
    CountComplement(ts, IsActive, IsDone);
  }

  // ---------- filteredTasks ----------

  /**
   * filteredTasks: "active" shows exactly the tasks not done, "done"
   * exactly the tasks done, and every other filter value the list itself;
   * each view keeps the list's order.
   */
  function FilteredTasks(ts: seq<Task>, filter: string): (r: seq<Task>)
    ensures IsSubsequence(r, ts)
    ensures filter == "active" ==> forall t :: multiset(r)[t] == if t.done then 0 else multiset(ts)[t]
    ensures filter == "done" ==> forall t :: multiset(r)[t] == if t.done then multiset(ts)[t] else 0
    ensures filter != "active" && filter != "done" ==> r == ts
  {
    if filter == "active" then ActiveTasks(ts)
    else if filter == "done" then DoneTasks(ts)
    else
      SubsequenceReflexive(ts);
      ts
  }

  /**
   * The contract of FilteredTasks pins the view down: any order-preserving
   * selection with the "active" (or "done") multiplicities is that view.
   */
  lemma FilteredTasksDetermined(r: seq<Task>, ts: seq<Task>, filter: string)
    requires filter == "active" || filter == "done"
    requires IsSubsequence(r, ts)
    requires filter == "active" ==> forall t :: multiset(r)[t] == if t.done then 0 else multiset(ts)[t]
    requires filter == "done" ==> forall t :: multiset(r)[t] == if t.done then multiset(ts)[t] else 0
    ensures r == FilteredTasks(ts, filter)
  {
    if filter == "active" {
      FilterUnique(r, ts, IsActive);
    } else {
      FilterUnique(r, ts, IsDone);
    }
  }

  // ---------- the summary line ----------

  /**
   * "0 tasks" for an empty list, else "n task(s) • d done". The line is
   * "0 tasks" exactly when the total is zero, and it always opens with the
   * numeral of the total.
   */
  function StatsText(total: nat, done: nat): (r: string)
    ensures (r == "0 tasks") == (total == 0)
    ensures |NatToString(total)| < |r| && r[..|NatToString(total)|] == NatToString(total)
  {
    if total == 0 then "0 tasks"
    else NatToString(total) + " task" + (if total == 1 then "" else "s") + " • " + NatToString(done) + " done"
  }

  /**
   * The summary render shows beneath the list, from the whole list (not the
   * view): reading it back gives the length of the list and its number of
   * done tasks.
   */
  function Summary(ts: seq<Task>): (r: string)
    ensures ParseStats(r) == Some((|ts|, |DoneTasks(ts)|))
  {
    ViewsPartition(ts);
    StatsTextRoundTrip(|ts|, |DoneTasks(ts)|);
    StatsText(|ts|, |DoneTasks(ts)|)
  }

  /** Reads a summary line back into its total and done count. */
  function ParseStats(s: string): Option<(nat, nat)> {
    match ParseNumber(s)
    case None => None
    case Some((total, rest)) =>
      if total == 0 then
        if rest == " tasks" then Some((0, 0)) else None
      else
        var sep := if total == 1 then " task • " else " tasks • ";
        if |rest| >= |sep| && rest[..|sep|] == sep then
          match ParseNumber(rest[|sep|..])
          case None => None
          case Some((done, tail)) => if tail == " done" then Some((total, done)) else None
        else None
  }

  /** A summary line can be read back: the total and done count it was made from are recovered. */
  lemma StatsTextRoundTrip(total: nat, done: nat)
    requires done <= total
    ensures ParseStats(StatsText(total, done)) == Some((total, done))
  {
    if total == 0 {
      assert StatsText(total, done) == NatToString(0) + " tasks";
      ParseNumberRoundTrip(0, " tasks");
    } else {
      var sep := if total == 1 then " task • " else " tasks • ";
      var tail := NatToString(done) + " done";
      assert StatsText(total, done) == NatToString(total) + (sep + tail);
      assert (sep + tail)[0] == ' ';
      ParseNumberRoundTrip(total, sep + tail);
      ParseNumberRoundTrip(done, " done");
      ParseStatsOfParts(StatsText(total, done), total, sep, tail, done);
    }
  }

  lemma ParseStatsOfParts(s: string, total: nat, sep: string, tail: string, done: nat)
    requires total > 0 && sep == (if total == 1 then " task • " else " tasks • ")
    requires ParseNumber(s) == Some((total, sep + tail))
    requires ParseNumber(tail) == Some((done, " done"))
    ensures ParseStats(s) == Some((total, done))
  {
    var rest := sep + tail;
    assert rest[..|sep|] == sep && rest[|sep|..] == tail;
  }

  /**
   * The summary names the number of tasks and the number done, with the
   * singular for one task, and the done count never exceeds the total.
   */
  lemma SummaryCases(ts: seq<Task>)
    ensures |DoneTasks(ts)| <= |ts|
    ensures |ts| == 0 ==> Summary(ts) == "0 tasks"
    ensures |ts| == 1 ==> Summary(ts) == "1 task • " + NatToString(|DoneTasks(ts)|) + " done"
    ensures |ts| > 1 ==> Summary(ts) == NatToString(|ts|) + " tasks • " + NatToString(|DoneTasks(ts)|) + " done"
  {
    StatsTextCases(|ts|, |DoneTasks(ts)|);
  }

  lemma StatsTextCases(total: nat, done: nat)
    ensures total == 1 ==> StatsText(total, done) == "1 task • " + NatToString(done) + " done"
    ensures total > 1 ==> StatsText(total, done) == NatToString(total) + " tasks • " + NatToString(done) + " done"
  {
    var n := NatToString(total);
    if total == 1 {
      assert n + " task" + "" + " • " == "1 task • ";
    } else if total > 1 {
      assert n + " task" + "s" + " • " == n + " tasks • ";
    }
  }

  /** Two lists with the same summary have the same length and the same number of done tasks. */
  lemma SummaryDeterminesCounts(a: seq<Task>, b: seq<Task>)
    requires Summary(a) == Summary(b)
    ensures |a| == |b| && |DoneTasks(a)| == |DoneTasks(b)|
  {
    // Summary's contract reads both counts back from the line.
  }

  // ---------- seedDemo ----------

  /** The demo entries in the order they are meant to read, top to bottom. */
  const DEMO_TEXTS: seq<string> := ["Push repo to GitHub", "Open index.html in browser", "Add a task", "Mark it done ✅"]

  /** None of the demo entries has whitespace at either end. */
  lemma DemoTextsTrimmed()
    ensures forall k :: 0 <= k < |DEMO_TEXTS| ==> IsTrimmed(DEMO_TEXTS[k])
  {
    assert IsTrimmed("Push repo to GitHub");
    assert IsTrimmed("Open index.html in browser");
    assert IsTrimmed("Add a task");
    assert IsTrimmed("Mark it done ✅");
  }

  /** addTask applied to each text in turn, the k-th with the k-th id and timestamp. */
  function AddedAll(ts: seq<Task>, texts: seq<string>, ids: seq<string>, times: seq<int>): (r: seq<Task>)
    requires |ids| == |texts| && |times| == |texts|
    ensures |ts| <= |r| <= |ts| + |texts|
    ensures forall k :: 0 <= k < |ts| ==> r[|r| - |ts| + k] == ts[k]
  {
    if texts == [] then ts
    else
      var n := |texts| - 1;
      Added(AddedAll(ts, texts[..n], ids[..n], times[..n]), texts[n], ids[n], times[n])
  }

  /** One more add extends the fold by one step. */
  lemma AddedAllStep(ts: seq<Task>, texts: seq<string>, ids: seq<string>, times: seq<int>, i: nat)
    requires |ids| == |texts| && |times| == |texts| && i < |texts|
    ensures AddedAll(ts, texts[..i + 1], ids[..i + 1], times[..i + 1])
         == Added(AddedAll(ts, texts[..i], ids[..i], times[..i]), texts[i], ids[i], times[i])
  {
    assert texts[..i + 1][..i] == texts[..i] && ids[..i + 1][..i] == ids[..i] && times[..i + 1][..i] == times[..i];
  }

  /** The tasks addTask creates from `texts` when none is blank, the last created first. */
  function NewTasks(texts: seq<string>, ids: seq<string>, times: seq<int>): (r: seq<Task>)
    requires |ids| == |texts| && |times| == |texts|
    ensures |r| == |texts|
  {
    if texts == [] then []
    else
      var n := |texts| - 1;
      [Task(ids[n], texts[n], false, times[n])] + NewTasks(texts[..n], ids[..n], times[..n])
  }

  /** The k-th task from the top is the one made from the k-th text from the end. */
  lemma {:induction false} NewTasksAt(texts: seq<string>, ids: seq<string>, times: seq<int>, k: nat)
    requires |ids| == |texts| && |times| == |texts|
    requires k < |texts|
    ensures var n := |texts| - 1 - k; NewTasks(texts, ids, times)[k] == Task(ids[n], texts[n], false, times[n])
  {
    if k > 0 {
      var n := |texts| - 1;
      NewTasksAt(texts[..n], ids[..n], times[..n], k - 1);
    }
  }

  /**
   * Adding texts that are already trimmed puts one task per text in front
   * of the list, the last added first, and leaves the old list behind them.
   */
  lemma {:induction false} AddedAllTrimmed(ts: seq<Task>, texts: seq<string>, ids: seq<string>, times: seq<int>)
    requires |ids| == |texts| && |times| == |texts|
    requires forall k :: 0 <= k < |texts| ==> IsTrimmed(texts[k])
    ensures AddedAll(ts, texts, ids, times) == NewTasks(texts, ids, times) + ts
  {
    if texts != [] {
      var n := |texts| - 1;
      AddedAllTrimmed(ts, texts[..n], ids[..n], times[..n]);
      var prev := AddedAll(ts, texts[..n], ids[..n], times[..n]);
      AddedTrimmed(prev, texts[n], ids[n], times[n]);
      var t := Task(ids[n], texts[n], false, times[n]);
      assert [t] + (NewTasks(texts[..n], ids[..n], times[..n]) + ts)
          == ([t] + NewTasks(texts[..n], ids[..n], times[..n])) + ts;
    }
  }

  /** addTask on a text that is already trimmed adds exactly that text. */
  lemma AddedTrimmed(ts: seq<Task>, text: string, id: string, now: int)
    requires IsTrimmed(text)
    ensures Added(ts, text, id, now) == [Task(id, text, false, now)] + ts
  {
    TrimOfTrimmed(text);
  }

  /**
   * seedDemo: four not-done tasks in front of the old list, reading
   * "Push repo to GitHub", "Open index.html in browser", "Add a task",
   * "Mark it done ✅" from the top; the last id and timestamp go to the top task.
   */
  lemma SeedDemoShape(ts: seq<Task>, ids: seq<string>, times: seq<int>)
    requires |ids| == 4 && |times| == 4
    ensures var r := AddedAll(ts, Reverse(DEMO_TEXTS), ids, times);
      |r| == |ts| + 4 && r[4..] == ts &&
      forall k :: 0 <= k < 4 ==> r[k] == Task(ids[3 - k], DEMO_TEXTS[k], false, times[3 - k])
  {
    DemoTextsTrimmed();
    AddedAllReversed(ts, DEMO_TEXTS, ids, times);
  }

  /**
   * Seeding under four distinct ids that no task carries keeps the ids
   * distinct and every text trimmed.
   */
  lemma SeedDemoKeepsInvariants(ts: seq<Task>, ids: seq<string>, times: seq<int>)
    requires UniqueIds(ts) && TrimmedTexts(ts)
    requires |ids| == 4 && |times| == 4
    requires forall i, j :: 0 <= i < j < 4 ==> ids[i] != ids[j]
    requires forall i :: 0 <= i < 4 ==> !ContainsId(ts, ids[i])
    ensures UniqueIds(AddedAll(ts, Reverse(DEMO_TEXTS), ids, times))
    ensures TrimmedTexts(AddedAll(ts, Reverse(DEMO_TEXTS), ids, times))
  {
    var r := AddedAll(ts, Reverse(DEMO_TEXTS), ids, times);
    SeedDemoShape(ts, ids, times);
    DemoTextsTrimmed();
    forall i, j | 0 <= i < |r| && 0 <= j < |r| && r[i].id == r[j].id
      ensures i == j
    {
      if i >= 4 && j >= 4 {
        assert r[i] == ts[i - 4] && r[j] == ts[j - 4];
      }
    }
    forall t | t in r
      ensures IsTrimmed(t.text)
    {
      var k :| 0 <= k < |r| && r[k] == t;
      if k >= 4 {
        assert r[k] == ts[k - 4];
      }
    }
  }

  /**
   * Adding trimmed texts back to front: they end up in front of the old
   * list in their given order, the k-th from the top made by the last-but-k add.
   */
  lemma AddedAllReversed(ts: seq<Task>, texts: seq<string>, ids: seq<string>, times: seq<int>)
    requires |ids| == |texts| && |times| == |texts|
    requires forall k :: 0 <= k < |texts| ==> IsTrimmed(texts[k])
    ensures var n, r := |texts|, AddedAll(ts, Reverse(texts), ids, times);
      |r| == |ts| + n && r[n..] == ts &&
      forall k :: 0 <= k < n ==> r[k] == Task(ids[n - 1 - k], texts[k], false, times[n - 1 - k])
  {
    var n, rev := |texts|, Reverse(texts);
    ReverseTrimmed(texts);
    AddedAllTrimmed(ts, rev, ids, times);
    var front := NewTasks(rev, ids, times);
    var r := front + ts;
    assert r[n..] == ts;
    forall k | 0 <= k < n ensures r[k] == Task(ids[n - 1 - k], texts[k], false, times[n - 1 - k]) {
      NewTasksAt(rev, ids, times, k);
      assert r[k] == front[k];
    }
  }

  lemma ReverseTrimmed(texts: seq<string>)
    requires forall k :: 0 <= k < |texts| ==> IsTrimmed(texts[k])
    ensures forall k :: 0 <= k < |texts| ==> IsTrimmed(Reverse(texts)[k])
  {
    forall k | 0 <= k < |texts| ensures IsTrimmed(Reverse(texts)[k]) {
      assert Reverse(texts)[k] == texts[|texts| - 1 - k];
    }
  }

  // ---------- two sessions, step by step ----------

  /** Starting empty, adding "Buy milk" gives one open task and the line "1 task • 0 done". */
  lemma ScenarioBuyMilk(id: string, now: int)
    ensures Added([], "Buy milk", id, now) == [Task(id, "Buy milk", false, now)]
    ensures Summary(Added([], "Buy milk", id, now)) == "1 task • 0 done"
  {
    assert IsTrimmed("Buy milk");
    AddedTrimmed([], "Buy milk", id, now);
    var ts := [Task(id, "Buy milk", false, now)];
    assert DoneTasks(ts) == [];
    SummaryCases(ts);
  }

  /**
   * Adding "A" then "B" and toggling A: the line reads "2 tasks • 1 done",
   * the done view shows only A, and clearing the done tasks leaves only B.
   */
  lemma ScenarioToggleAndClear(idA: string, tA: int, idB: string, tB: int)
    requires idA != idB
    ensures var ts := Toggled(Added(Added([], "A", idA, tA), "B", idB, tB), idA);
      && Summary(ts) == "2 tasks • 1 done"
      && FilteredTasks(ts, "done") == [Task(idA, "A", true, tA)]
      && ActiveTasks(ts) == [Task(idB, "B", false, tB)]
  {
    var a, b := Task(idA, "A", false, tA), Task(idB, "B", false, tB);
    assert IsTrimmed("A") && IsTrimmed("B");
    AddedTrimmed([], "A", idA, tA);
    assert Added([], "A", idA, tA) == [a];
    AddedTrimmed([a], "B", idB, tB);
    assert Added([a], "B", idB, tB) == [b, a];
    ToggleSecond(a, b);
    assert Flip(a) == Task(idA, "A", true, tA);
    ViewsOfPair(Flip(a), b);
    SummaryTwoOne([b, Flip(a)]);
  }

  lemma ToggleSecond(a: Task, b: Task)
    requires a.id != b.id
    ensures Toggled([b, a], a.id) == [b, Flip(a)]
  {
    assert [b, a][1..] == [a];
  }

  lemma ViewsOfPair(a: Task, b: Task)
    requires !b.done && a.done
    ensures DoneTasks([b, a]) == [a] && ActiveTasks([b, a]) == [b]
  {
    assert [b, a][1..] == [a] && [a][1..] == [];
  }

  lemma SummaryTwoOne(ts: seq<Task>)
    requires |ts| == 2 && |DoneTasks(ts)| == 1
    ensures Summary(ts) == "2 tasks • 1 done"
  {
    SummaryCases(ts);
    assert NatToString(2) == "2" && NatToString(1) == "1";
  }
}
