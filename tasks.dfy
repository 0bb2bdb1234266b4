/**
 * The task list of the to-do page as values: the task record, the lookups
 * (`find`, `findIndex`), the edits each event handler makes to the list, the
 * filter behind the rendered list, the counters and the overdue flag.
 */
module Tasks {
  import opened Wrappers
  import opened Text
  import opened Seqs

  /**
   * One task. `dueDate` is the date input's value as a day number (days since
   * 1970-01-01), `None` for the empty string; `id` is the `Date.now()` value
   * at creation, which nothing keeps unique.
   */
  datatype Task = Task(
    id: int,
    text: string,
    completed: bool,
    priority: string,
    dueDate: Option<int>,
    categories: seq<string>,
    createdAt: string)

  /** The priority a new task gets. */
  const DefaultPriority: string := "medium"

  /** The category list used when storage holds none. */
  const DefaultCategories: seq<string> := ["Work", "Personal", "Shopping"]

  /** The filter value that lets every task through. */
  const All: string := "all"

  // ---------------------------------------------------------------- lookup

  /** Some task carries `id`. */
  predicate Present(ts: seq<Task>, id: int) {
    exists k :: 0 <= k < |ts| && ts[k].id == id
  }

  /** `k` is the first position whose task carries `id`: the one `find` and `findIndex` return. */
  predicate IsFirst(ts: seq<Task>, id: int, k: int) {
    0 <= k < |ts| && ts[k].id == id && forall j :: 0 <= j < k ==> ts[j].id != id
  }

  /** `tasks.findIndex(task => task.id === id)`: -1 when no task carries `id`. */
  function FindIndex(ts: seq<Task>, id: int): (r: int)
    ensures -1 <= r < |ts|
    ensures r == -1 <==> !Present(ts, id)
    ensures r != -1 ==> IsFirst(ts, id, r)
  {
    if ts == [] then -1
    else if ts[0].id == id then 0
    else
      var k := FindIndex(ts[1..], id);
      assert forall j :: 1 <= j < |ts| ==> ts[j] == ts[1..][j - 1];
      if k == -1 then -1 else k + 1
  }

  /** The first position holding `id` is unique. */
  lemma IsFirstUnique(ts: seq<Task>, id: int, k: int)
    requires IsFirst(ts, id, k)
    ensures k == FindIndex(ts, id)
  {
  }

  // ------------------------------------------------------------------- add

  /** The record `addTask` creates for already trimmed text. */
  function NewTask(id: int, text: string, createdAt: string): Task {
    Task(id, text, false, DefaultPriority, None, [], createdAt)
  }

  /** `addTask`: trim the input, ignore it when empty, otherwise put a new task in front (`unshift`). */
  function Added(ts: seq<Task>, input: string, id: int, createdAt: string): seq<Task> {
    var text := Trim(input);
    if text == [] then ts else [NewTask(id, text, createdAt)] + ts
  }

  /** Whitespace-only input adds nothing. */
  lemma AddBlankIsNoop(ts: seq<Task>, input: string, id: int, createdAt: string)
    requires Blank(input)
    ensures Added(ts, input, id, createdAt) == ts
  {
    TrimEmptyIffBlank(input);
  }

  /**
   * Any other input puts one new pending, medium-priority task without due date
   * or categories in front, with the trimmed text, and the old tasks follow in their order.
   */
  lemma AddPrepends(ts: seq<Task>, input: string, id: int, createdAt: string)
    requires !Blank(input)
    ensures Added(ts, input, id, createdAt) ==
            [Task(id, Trim(input), false, "medium", None, [], createdAt)] + ts
    ensures !Blank(Trim(input)) && Trim(Trim(input)) == Trim(input)
  {
    TrimEmptyIffBlank(input);
    TrimIdempotent(input);
    TrimEmptyIffBlank(Trim(input));
  }

  // ---------------------------------------------------------------- toggle

  /** `toggleTaskComplete`: negate `completed` of the task `find` returns. */
  function Toggled(ts: seq<Task>, id: int): (r: seq<Task>)
    ensures |r| == |ts|
    ensures forall k :: 0 <= k < |ts| ==> r[k] == ts[k].(completed := r[k].completed)
    ensures forall k :: 0 <= k < |ts| ==> (r[k].completed == !ts[k].completed <==> IsFirst(ts, id, k))
    ensures forall k :: 0 <= k < |ts| ==> (r[k].completed == ts[k].completed <==> !IsFirst(ts, id, k))
    ensures !Present(ts, id) ==> r == ts
  {
    var i := FindIndex(ts, id);
    if i == -1 then ts else ts[i := ts[i].(completed := !ts[i].completed)]
  }

  /** Toggling the same id twice gives back the list it started from. */
  lemma ToggleTwice(ts: seq<Task>, id: int)
    ensures Toggled(Toggled(ts, id), id) == ts
  {
  }

  /** A toggle leaves every task's categories alone, so it keeps both category invariants. */
  lemma ToggleKeepsCategories(ts: seq<Task>, id: int, known: seq<string>)
    ensures CategoriesUnique(ts) ==> CategoriesUnique(Toggled(ts, id))
    ensures CategoriesKnown(ts, known) ==> CategoriesKnown(Toggled(ts, id), known)
  {
    var r := Toggled(ts, id);
    forall t | t in r
      ensures exists u :: u in ts && u.categories == t.categories
    {
      var k :| 0 <= k < |r| && r[k] == t;
      assert ts[k].categories == t.categories;
    }
  }

  // ---------------------------------------------------------------- delete

  /** `tasks.filter(task => task.id !== id)`. */
  function Deleted(ts: seq<Task>, id: int): seq<Task> {
    Filter(ts, (t: Task) => t.id != id)
  }

  /** After a delete no task carries `id`, and every task that carried another id is still there. */
  lemma DeleteMembers(ts: seq<Task>, id: int)
    ensures forall t :: t in Deleted(ts, id) <==> t in ts && t.id != id
  {
    forall t ensures t in Deleted(ts, id) <==> t in ts && t.id != id {
      FilterMembers(ts, (t: Task) => t.id != id, t);
    }
  }

  /** Every task with another id is kept as often as it occurred, and the kept tasks stay in their order. */
  lemma DeleteKeepsOthers(ts: seq<Task>, id: int)
    ensures forall t: Task :: t.id != id ==> multiset(Deleted(ts, id))[t] == multiset(ts)[t]
    ensures IsSubseq(Deleted(ts, id), ts)
  {
    var keep := (t: Task) => t.id != id;
    forall t: Task | t.id != id ensures multiset(Deleted(ts, id))[t] == multiset(ts)[t] {
      FilterMultiplicity(ts, keep, t);
    }
    FilterIsSubseq(ts, keep);
  }

  /** A delete shortens the list by the number of positions that held `id`. */
  lemma DeleteCount(ts: seq<Task>, id: int)
    ensures |Deleted(ts, id)| + |set k: nat | k < |ts| && ts[k].id == id| == |ts|
  {
    var keep := (t: Task) => t.id != id;
    var drop := (t: Task) => t.id == id;
    FilterComplement(ts, keep, drop);
    FilterCount(ts, drop);
    assert Positions(ts, drop) == set k: nat | k < |ts| && ts[k].id == id;
  }

  /** Deleting an id no task carries leaves the list unchanged. */
  lemma DeleteAbsentIsNoop(ts: seq<Task>, id: int)
    requires !Present(ts, id)
    ensures Deleted(ts, id) == ts
  {
    FilterAllPass(ts, (t: Task) => t.id != id);
  }

  // ------------------------------------------------------------------ drop

  /**
   * The reorder of `drop`: when the two ids differ and both are found, the
   * dragged task is spliced out and spliced back in at the index the target
   * had before the removal.
   */
  function Dropped(ts: seq<Task>, dragged: int, target: int): seq<Task> {
    if dragged == target then ts
    else
      var from := FindIndex(ts, dragged);
      var to := FindIndex(ts, target);
      if from == -1 || to == -1 then ts else Move(ts, from, to)
  }

  /** Equal ids, or an id that is not found, leave the list as it was. */
  lemma DropNoop(ts: seq<Task>, dragged: int, target: int)
    requires dragged == target || !Present(ts, dragged) || !Present(ts, target)
    ensures Dropped(ts, dragged, target) == ts
  {
  }

  /** A reorder keeps every task: the result is a permutation of the list. */
  lemma DropPermutation(ts: seq<Task>, dragged: int, target: int)
    ensures |Dropped(ts, dragged, target)| == |ts|
    ensures multiset(Dropped(ts, dragged, target)) == multiset(ts)
  {
    var from := FindIndex(ts, dragged);
    var to := FindIndex(ts, target);
    if dragged != target && from != -1 && to != -1 {
      MovePermutation(ts, from, to);
    }
  }

  /**
   * A reorder that happens puts the dragged task at the target's old index and
   * shifts every task between the two positions by one towards the dragged
   * task's old index; the tasks outside that range keep their places.
   */
  lemma DropPositions(ts: seq<Task>, dragged: int, target: int)
    requires dragged != target && Present(ts, dragged) && Present(ts, target)
    ensures var from, to, r := FindIndex(ts, dragged), FindIndex(ts, target), Dropped(ts, dragged, target);
      && |r| == |ts|
      && r[to] == ts[from] && r[to].id == dragged
      && (forall k :: 0 <= k < |ts| && k < from && k < to ==> r[k] == ts[k])
      && (forall k :: 0 <= k < |ts| && k > from && k > to ==> r[k] == ts[k])
      && (forall k :: from <= k < to ==> r[k] == ts[k + 1])
      && (forall k :: to < k <= from ==> r[k] == ts[k - 1])
  {
    MovePositions(ts, FindIndex(ts, dragged), FindIndex(ts, target));
  }

  /** Swapping the first holders of two ids that sit side by side swaps where each id is first found. */
  lemma SwapFirstPositions(ts: seq<Task>, a: int, b: int, i: nat)
    requires i + 1 < |ts| && a != b
    requires (FindIndex(ts, a) == i && FindIndex(ts, b) == i + 1) ||
             (FindIndex(ts, b) == i && FindIndex(ts, a) == i + 1)
    ensures FindIndex(SwapNeighbours(ts, i), a) == FindIndex(ts, b)
    ensures FindIndex(SwapNeighbours(ts, i), b) == FindIndex(ts, a)
  {
    var r := SwapNeighbours(ts, i);
    assert IsFirst(r, a, FindIndex(ts, b));
    assert IsFirst(r, b, FindIndex(ts, a));
    IsFirstUnique(r, a, FindIndex(ts, b));
    IsFirstUnique(r, b, FindIndex(ts, a));
  }

  /** Dropping a task onto its neighbour swaps the two. */
  lemma DropNeighbourSwaps(ts: seq<Task>, dragged: int, target: int, i: nat)
    requires i + 1 < |ts| && dragged != target
    requires (FindIndex(ts, dragged) == i && FindIndex(ts, target) == i + 1) ||
             (FindIndex(ts, target) == i && FindIndex(ts, dragged) == i + 1)
    ensures Dropped(ts, dragged, target) == SwapNeighbours(ts, i)
  {
    MoveNeighbourSwap(ts, i);
  }

  /** When the two tasks are neighbours a reorder swaps them, and dropping back restores the list. */
  lemma DropNeighboursUndone(ts: seq<Task>, dragged: int, target: int)
    requires dragged != target && Present(ts, dragged) && Present(ts, target)
    requires FindIndex(ts, target) == FindIndex(ts, dragged) + 1 ||
             FindIndex(ts, dragged) == FindIndex(ts, target) + 1
    ensures Dropped(Dropped(ts, dragged, target), target, dragged) == ts
  {
    var from, to := FindIndex(ts, dragged), FindIndex(ts, target);
    var i: nat := if from < to then from else to;
    DropNeighbourSwaps(ts, dragged, target, i);
    SwapFirstPositions(ts, dragged, target, i);
    DropNeighbourSwaps(SwapNeighbours(ts, i), target, dragged, i);
    SwapNeighboursTwice(ts, i);
  }

  /**
   * A reorder is not undone by the reverse reorder when another task lies
   * between the two: with A, X, B, dropping A on B gives X, B, A, and dropping
   * B on A then gives X, A, B.
   */
  lemma DropBackNotInverse(a: Task, x: Task, b: Task)
    requires a.id != b.id && x.id != a.id && x.id != b.id
    ensures Dropped([a, x, b], a.id, b.id) == [x, b, a]
    ensures Dropped(Dropped([a, x, b], a.id, b.id), b.id, a.id) == [x, a, b]
    ensures Dropped(Dropped([a, x, b], a.id, b.id), b.id, a.id) != [a, x, b]
  {
    DropFirstOntoLast(a, x, b);
    DropMiddleOntoLast(x, b, a);
  }

  /** Dropping the first of three tasks onto the last rotates it to the end. */
  lemma DropFirstOntoLast(a: Task, x: Task, b: Task)
    requires a.id != b.id && x.id != a.id && x.id != b.id
    ensures Dropped([a, x, b], a.id, b.id) == [x, b, a]
  {
    var s := [a, x, b];
    IsFirstUnique(s, a.id, 0);
    assert IsFirst(s, b.id, 2);
    IsFirstUnique(s, b.id, 2);
    assert RemoveAt(s, 0) == [x, b];
  }

  /** Dropping the middle of three tasks onto the last swaps those two. */
  lemma DropMiddleOntoLast(x: Task, b: Task, a: Task)
    requires a.id != b.id && x.id != a.id && x.id != b.id
    ensures Dropped([x, b, a], b.id, a.id) == [x, a, b]
  {
    var s := [x, b, a];
    assert IsFirst(s, b.id, 1);
    IsFirstUnique(s, b.id, 1);
    assert IsFirst(s, a.id, 2);
    IsFirstUnique(s, a.id, 2);
    assert RemoveAt(s, 1) == [x, a];
  }

  // ------------------------------------------------------------------ save

  /**
   * `saveTaskChanges` on the list: the task `find` returns for `id` gets the
   * trimmed text (an empty result is kept) and the other field values; its id
   * and creation time stay.
   */
  function Saved(ts: seq<Task>, id: int, text: string, priority: string,
                 dueDate: Option<int>, categories: seq<string>, completed: bool): (r: seq<Task>)
    ensures |r| == |ts|
    ensures forall k :: 0 <= k < |ts| && k != FindIndex(ts, id) ==> r[k] == ts[k]
    ensures Present(ts, id) ==> var i := FindIndex(ts, id);
      r[i] == Task(ts[i].id, Trim(text), completed, priority, dueDate, categories, ts[i].createdAt)
    ensures !Present(ts, id) ==> r == ts
  {
    var i := FindIndex(ts, id);
    if i == -1 then ts
    else
      var t := Task(ts[i].id, Trim(text), completed, priority, dueDate, categories, ts[i].createdAt);
      ts[i := t]
  }

  /** Saving whitespace-only text leaves the task with empty text: an edit is not rejected the way an add is. */
  lemma SaveKeepsBlankText(ts: seq<Task>, id: int, text: string, priority: string,
                           dueDate: Option<int>, categories: seq<string>, completed: bool)
    requires Present(ts, id) && Blank(text)
    ensures Saved(ts, id, text, priority, dueDate, categories, completed)[FindIndex(ts, id)].text == ""
  {
    TrimEmptyIffBlank(text);
  }

  // ---------------------------------------------------------------- filter

  /** The filter controls of the page: status, priority, category and the search box. */
  datatype Criteria = Criteria(status: string, priority: string, category: string, search: string)

  /** The filter lambda of `renderTasks`: each check in turn can reject the task. */
  predicate Keep(c: Criteria, t: Task) {
    var search := ToLower(c.search);
    if c.status == "completed" && !t.completed then false
    else if c.status == "pending" && t.completed then false
    else if c.priority != All && t.priority != c.priority then false
    else if c.category != All && c.category !in t.categories then false
    else if search != "" && !Includes(ToLower(t.text), search) then false
    else true
  }

  /**
   * The `searchValue &&` guard changes nothing: every text includes the empty
   * search text, so the guarded test rejects exactly what `includes` alone does.
   */
  lemma SearchGuardRedundant(text: string, search: string)
    ensures (search != "" && !Includes(text, search)) <==> !Includes(text, search)
  {
    if search == "" {
      IncludesEmpty(text);
    }
  }

  /** The tasks `renderTasks` shows, in list order. */
  function FilterTasks(ts: seq<Task>, c: Criteria): seq<Task> {
    Filter(ts, (t: Task) => Keep(c, t))
  }

  /** The status check on its own. */
  predicate StatusMatches(c: Criteria, t: Task) {
    (c.status == "completed" ==> t.completed) && (c.status == "pending" ==> !t.completed)
  }

  /** The priority check on its own. */
  predicate PriorityMatches(c: Criteria, t: Task) {
    c.priority == All || t.priority == c.priority
  }

  /** The category check on its own. */
  predicate CategoryMatches(c: Criteria, t: Task) {
    c.category == All || c.category in t.categories
  }

  /** The search check on its own: empty search, or the lowered search text occurs in the lowered task text. */
  ghost predicate SearchMatches(c: Criteria, t: Task) {
    c.search == "" || exists i: nat :: OccursAt(ToLower(t.text), ToLower(c.search), i)
  }

  /** A task is kept exactly when it passes all four checks. */
  lemma KeepIff(c: Criteria, t: Task)
    ensures Keep(c, t) <==>
      StatusMatches(c, t) && PriorityMatches(c, t) && CategoryMatches(c, t) && SearchMatches(c, t)
  {
    IncludesIff(ToLower(t.text), ToLower(c.search));
  }

  /**
   * The shown tasks are a subsequence of the list (its order kept); a task is
   * shown exactly when it passes all four checks, and then as many times as
   * it occurs in the list.
   */
  lemma FilterTasksSpec(ts: seq<Task>, c: Criteria)
    ensures IsSubseq(FilterTasks(ts, c), ts)
    ensures forall t :: t in FilterTasks(ts, c) <==>
      t in ts && StatusMatches(c, t) && PriorityMatches(c, t) && CategoryMatches(c, t) && SearchMatches(c, t)
    ensures forall t :: multiset(FilterTasks(ts, c))[t] == if Keep(c, t) then multiset(ts)[t] else 0
  {
    var p := (t: Task) => Keep(c, t);
    FilterIsSubseq(ts, p);
    forall t ensures t in FilterTasks(ts, c) <==>
      t in ts && StatusMatches(c, t) && PriorityMatches(c, t) && CategoryMatches(c, t) && SearchMatches(c, t)
    {
      FilterMembers(ts, p, t);
      KeepIff(c, t);
    }
    forall t ensures multiset(FilterTasks(ts, c))[t] == if Keep(c, t) then multiset(ts)[t] else 0 {
      FilterMultiplicity(ts, p, t);
    }
  }

  /** The filter with every control at its neutral value shows the whole list. */
  lemma FilterNeutralShowsAll(ts: seq<Task>)
    ensures FilterTasks(ts, Criteria(All, All, All, "")) == ts
  {
    FilterAllPass(ts, (t: Task) => Keep(Criteria(All, All, All, ""), t));
  }

  /** The search for "mil" (in any case) finds a task whose text is "Buy milk". */
  lemma SearchMilFindsBuyMilk(t: Task, search: string)
    requires t.text == "Buy milk"
    requires search == "mil" || search == "MIL" || search == "Mil"
    ensures SearchMatches(Criteria(All, All, All, search), t)
  {
    assert ToLower(search) == "mil";
    assert ToLower(t.text)[4..7] == "mil";
    assert OccursAt(ToLower(t.text), ToLower(search), 4);
  }

  /** A task in "Work" and "Home" is shown under the category filter for either one. */
  lemma CategoryFilterExample(t: Task, status: string, search: string)
    requires t.categories == ["Work", "Home"]
    ensures CategoryMatches(Criteria(status, All, "Work", search), t)
    ensures CategoryMatches(Criteria(status, All, "Home", search), t)
  {
  }

  // ---------------------------------------------------------------- counts

  /** The test of `tasks.filter(task => task.completed)`. */
  predicate IsCompleted(t: Task) { t.completed }

  /** The test of `tasks.filter(task => !task.completed)`. */
  predicate IsPending(t: Task) { !t.completed }

  /** The completed counter. */
  function CompletedCount(ts: seq<Task>): nat {
    |Filter(ts, IsCompleted)|
  }

  /** The pending counter. */
  function PendingCount(ts: seq<Task>): nat {
    |Filter(ts, IsPending)|
  }

  /**
   * The counters count positions: completed is the number of tasks whose
   * `completed` is set, pending the number whose flag is clear, and the two add up to the total.
   */
  lemma CountsSpec(ts: seq<Task>)
    ensures CompletedCount(ts) == |set k: nat | k < |ts| && ts[k].completed|
    ensures PendingCount(ts) == |set k: nat | k < |ts| && !ts[k].completed|
    ensures CompletedCount(ts) + PendingCount(ts) == |ts|
  {
    FilterCount(ts, IsCompleted);
    FilterCount(ts, IsPending);
    assert Positions(ts, IsCompleted) == set k: nat | k < |ts| && ts[k].completed;
    assert Positions(ts, IsPending) == set k: nat | k < |ts| && !ts[k].completed;
    FilterComplement(ts, IsCompleted, IsPending);
  }

  // --------------------------------------------------------------- overdue

  /** Minutes in a day: the model's clock unit. */
  const MinutesPerDay: int := 1440

  /**
   * The overdue expression as written: `new Date(dueDate)` reads the date-only
   * string as midnight UTC, `today` is midnight of the local day `today`, and
   * `tzOffset` is `getTimezoneOffset()` (minutes UTC is ahead of local time),
   * so both instants are compared in minutes since the epoch, UTC.
   */
  predicate OverdueAsWritten(dueDate: Option<int>, completed: bool, today: int, tzOffset: int) {
    dueDate.Some? && dueDate.value * MinutesPerDay < today * MinutesPerDay + tzOffset && !completed
  }

  /**
   * The overdue flag as intended: the due date read as midnight of that LOCAL
   * day, against local midnight today. Both instants carry the same offset,
   * so the flag is a comparison of day numbers and does not depend on the zone.
   */
  function IsOverdue(dueDate: Option<int>, completed: bool, today: int, tzOffset: int): (r: bool)
    ensures r <==> dueDate.Some? && dueDate.value < today && !completed
  {
    dueDate.Some? && dueDate.value * MinutesPerDay + tzOffset < today * MinutesPerDay + tzOffset && !completed
  }

  /** At UTC and east of it the comparison as written means what it should. */
  lemma OverdueAsWrittenEastOfUtc(dueDate: Option<int>, completed: bool, today: int, tzOffset: int)
    requires -MinutesPerDay < tzOffset <= 0
    ensures OverdueAsWritten(dueDate, completed, today, tzOffset) <==> IsOverdue(dueDate, completed, today, tzOffset)
  {
  }

  /** West of UTC the comparison as written also flags a task due today. */
  lemma OverdueAsWrittenWestOfUtc(dueDate: Option<int>, completed: bool, today: int, tzOffset: int)
    requires 0 < tzOffset < MinutesPerDay
    ensures OverdueAsWritten(dueDate, completed, today, tzOffset) <==>
            dueDate.Some? && dueDate.value <= today && !completed
  {
  }

  /** In a zone five hours behind UTC a pending task due today is shown overdue, though it is not. */
  lemma DueTodayShownOverdueWestOfUtc(today: int)
    ensures OverdueAsWritten(Some(today), false, today, 300)
    ensures !IsOverdue(Some(today), false, today, 300)
  {
  }

  // ------------------------------------------------------------------ view

  /**
   * What one rendered row shows: the priority badge, the due date, the first
   * category, and the overdue flag both as the page computes it
   * (`overdueShown`) and as intended (`overdue`).
   */
  datatype TaskView = TaskView(
    id: int,
    text: string,
    completed: bool,
    priority: string,
    dueDate: Option<int>,
    overdueShown: bool,
    overdue: bool,
    category: Option<string>)

  /**
   * The row `renderTasks` builds for one task. `overdueShown` is the flag the
   * page sets, which agrees with the intended flag only at UTC and east of it.
   */
  function ViewOf(t: Task, today: int, tzOffset: int): (v: TaskView)
    ensures v.id == t.id && v.text == t.text && v.completed == t.completed
    ensures v.priority == t.priority && v.dueDate == t.dueDate
    ensures v.overdueShown <==> OverdueAsWritten(t.dueDate, t.completed, today, tzOffset)
    ensures v.overdue <==> t.dueDate.Some? && t.dueDate.value < today && !t.completed
    ensures -MinutesPerDay < tzOffset <= 0 ==> (v.overdueShown <==> v.overdue)
    ensures 0 < tzOffset < MinutesPerDay ==>
              (v.overdueShown <==> t.dueDate.Some? && t.dueDate.value <= today && !t.completed)
    ensures v.category.Some? <==> t.categories != []
    ensures v.category.Some? ==> v.category.value == t.categories[0]
  {
    TaskView(t.id, t.text, t.completed, t.priority, t.dueDate,
             OverdueAsWritten(t.dueDate, t.completed, today, tzOffset),
             IsOverdue(t.dueDate, t.completed, today, tzOffset),
             if t.categories != [] then Some(t.categories[0]) else None)
  }

  // ------------------------------------------------------------ invariants

  /** Every category a task carries is in `known`. */
  predicate CategoriesKnown(ts: seq<Task>, known: seq<string>) {
    forall t, c :: t in ts && c in t.categories ==> c in known
  }

  /** No task carries a category twice. */
  predicate CategoriesUnique(ts: seq<Task>) {
    forall t :: t in ts ==> NoDuplicates(t.categories)
  }
}
