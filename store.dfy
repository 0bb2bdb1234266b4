/**
 * The page's state and its event handlers: the task list, the global category
 * list, the edit dialog's buffer (`currentEditId`, `currentCategories`) and
 * the id remembered at drag start. Each handler is a method that changes the
 * state the way the page's script does; the values the script reads from the
 * page (input fields, the confirmation dialog, the clock) are parameters.
 */
module Store {
  import opened Wrappers
  import opened Text
  import opened Seqs
  import opened Tasks

  class TaskStore {
    var tasks: seq<Task>
    var categories: seq<string>
    var currentEditId: Option<int>
    var currentCategories: seq<string>
    var dragStartId: Option<int>

    /**
     * The consistency the handlers keep: neither category list holds a name
     * twice, no task carries a category twice, and every category a task or
     * the edit buffer holds is in the global list.
     */
    ghost predicate Valid()
      reads this
    {
      && NoDuplicates(categories)
      && NoDuplicates(currentCategories)
      && CategoriesUnique(tasks)
      && CategoriesKnown(tasks, categories)
      && (forall c :: c in currentCategories ==> c in categories)
    }

    /**
     * Start-up: the stored list, or an empty one; the stored categories, or the
     * three defaults; the edit dialog closed and no drag in progress.
     */
    constructor (storedTasks: Option<seq<Task>>, storedCategories: Option<seq<string>>)
      ensures tasks == storedTasks.GetOr([])
      ensures categories == storedCategories.GetOr(DefaultCategories)
      ensures currentEditId == None && currentCategories == [] && dragStartId == None
      ensures storedTasks.None? && storedCategories.None? ==> Valid()
      ensures storedTasks.Some? && storedCategories.Some? ==>
        (Valid() <==> NoDuplicates(categories) && CategoriesUnique(tasks) && CategoriesKnown(tasks, categories))
    {
      tasks := storedTasks.GetOr([]);
      categories := storedCategories.GetOr(DefaultCategories);
      currentEditId := None;
      currentCategories := [];
      dragStartId := None;
    }

    /** `addTask`: whitespace-only input is ignored; other input puts a new task, with the trimmed text, in front. */
    method AddTask(input: string, now: int, createdAt: string)
      modifies this`tasks
      ensures tasks == Added(old(tasks), input, now, createdAt)
      ensures Blank(input) ==> tasks == old(tasks)
      ensures !Blank(input) ==> tasks == [Task(now, Trim(input), false, "medium", None, [], createdAt)] + old(tasks)
      ensures old(Valid()) ==> Valid()
    {
      var text := Trim(input);
      TrimEmptyIffBlank(input);
      if text == [] {
        return;
      }
      tasks := [NewTask(now, text, createdAt)] + tasks;
    }

    /** `toggleTaskComplete`: the first task with `id` has its `completed` flag negated; an unknown id changes nothing. */
    method ToggleTaskComplete(id: int)
      modifies this`tasks
      ensures tasks == Toggled(old(tasks), id)
      ensures old(Valid()) ==> Valid()
    {
      var i := FindIndex(tasks, id);
      if i != -1 {
        tasks := tasks[i := tasks[i].(completed := !tasks[i].completed)];
      }
      ToggleKeepsCategories(old(tasks), id, categories);
    }

    /** `deleteTask`: when the user confirms, every task with `id` is removed; otherwise nothing changes. */
    method DeleteTask(id: int, confirmed: bool)
      modifies this`tasks
      ensures tasks == if confirmed then Deleted(old(tasks), id) else old(tasks)
      ensures old(Valid()) ==> Valid()
    {
      if confirmed {
        DeleteMembers(tasks, id);
        tasks := Deleted(tasks, id);
      }
    }

    /**
     * `openEditModal`: for a known id the buffer takes the id and a copy of the
     * first such task's categories; an unknown id changes nothing.
     */
    method OpenEditModal(id: int)
      modifies this`currentEditId, this`currentCategories
      ensures !Present(tasks, id) ==>
        currentEditId == old(currentEditId) && currentCategories == old(currentCategories)
      ensures Present(tasks, id) ==>
        currentEditId == Some(id) && currentCategories == tasks[FindIndex(tasks, id)].categories
      ensures old(Valid()) ==> Valid()
    {
      var i := FindIndex(tasks, id);
      if i == -1 {
        return;
      }
      currentEditId := Some(id);
      currentCategories := tasks[i].categories;
    }

    /** `closeModal`: the buffer is emptied. */
    method CloseModal()
      modifies this`currentEditId, this`currentCategories
      ensures currentEditId == None && currentCategories == []
      ensures old(Valid()) ==> Valid()
    {
      currentEditId := None;
      currentCategories := [];
    }

    /**
     * `saveTaskChanges`: with no id in the buffer (or the id 0, which the
     * script's truthiness test also refuses), or an id no task carries any
     * more, nothing changes. Otherwise the first task with that id gets the
     * dialog's values and the buffer's categories, and the dialog is closed.
     */
    method SaveTaskChanges(text: string, priority: string, dueDate: Option<int>, completed: bool)
      modifies this`tasks, this`currentEditId, this`currentCategories
      ensures old(currentEditId).None? || old(currentEditId).value == 0 ||
              !Present(old(tasks), old(currentEditId).value) ==>
        tasks == old(tasks) && currentEditId == old(currentEditId) &&
        currentCategories == old(currentCategories)
      ensures old(currentEditId).Some? && old(currentEditId).value != 0 &&
              Present(old(tasks), old(currentEditId).value) ==>
        tasks == Saved(old(tasks), old(currentEditId).value, text, priority, dueDate,
                       old(currentCategories), completed) &&
        currentEditId == None && currentCategories == []
      ensures old(Valid()) ==> Valid()
    {
      if currentEditId.None? || currentEditId.value == 0 {
        return;
      }
      var id := currentEditId.value;
      var i := FindIndex(tasks, id);
      if i == -1 {
        return;
      }
      var edited := Task(tasks[i].id, Trim(text), completed, priority, dueDate,
                         currentCategories, tasks[i].createdAt);
      tasks := tasks[i := edited];
      assert forall t :: t in tasks ==> t == edited || t in old(tasks);
      CloseModal();
    }

    /**
     * `addCategory`: the trimmed name is ignored when empty or already in the
     * buffer; otherwise it is appended to the buffer, and to the global list
     * when that list lacks it. Neither list gains a duplicate.
     */
    method AddCategory(input: string)
      modifies this`currentCategories, this`categories
      ensures Blank(input) || Trim(input) in old(currentCategories) ==>
        currentCategories == old(currentCategories) && categories == old(categories)
      ensures !Blank(input) && Trim(input) !in old(currentCategories) ==>
        currentCategories == old(currentCategories) + [Trim(input)] &&
        categories == if Trim(input) in old(categories) then old(categories)
                      else old(categories) + [Trim(input)]
      ensures NoDuplicates(old(currentCategories)) ==> NoDuplicates(currentCategories)
      ensures NoDuplicates(old(categories)) ==> NoDuplicates(categories)
      ensures old(Valid()) ==> Valid()
    {
      var category := Trim(input);
      TrimEmptyIffBlank(input);
      if category == [] || category in currentCategories {
        return;
      }
      currentCategories := currentCategories + [category];
      if category !in categories {
        categories := categories + [category];
      }
    }

    /** `removeCategory`: every occurrence of the name leaves the buffer; the other names keep their order. */
    method RemoveCategory(category: string)
      modifies this`currentCategories
      ensures currentCategories == Without(old(currentCategories), category)
      ensures old(Valid()) ==> Valid()
    {
      WithoutSpec(currentCategories, category);
      currentCategories := Without(currentCategories, category);
      assert forall c :: c in currentCategories ==> c in old(currentCategories) by {
        forall c | c in currentCategories ensures c in old(currentCategories) {
          assert multiset(currentCategories)[c] == multiset(old(currentCategories))[c];
        }
      }
    }

    /** `dragStart`: remember the id of the task being dragged. */
    method DragStart(id: int)
      modifies this`dragStartId
      ensures dragStartId == Some(id)
    {
      dragStartId := Some(id);
    }

    /**
     * `drop` on the task `target`: with no drag started nothing changes;
     * otherwise the remembered task is moved to the target's index. The list
     * is always a permutation of what it was.
     */
    method Drop(target: int)
      modifies this`tasks
      ensures old(dragStartId).None? ==> tasks == old(tasks)
      ensures old(dragStartId).Some? ==> tasks == Dropped(old(tasks), old(dragStartId).value, target)
      ensures multiset(tasks) == multiset(old(tasks))
      ensures old(Valid()) ==> Valid()
    {
      if dragStartId.None? {
        return;
      }
      var dragged := dragStartId.value;
      DropPermutation(tasks, dragged, target);
      tasks := Dropped(tasks, dragged, target);
      assert forall t :: t in tasks ==> t in old(tasks) by {
        forall t | t in tasks ensures t in old(tasks) {
          assert t in multiset(tasks);
        }
      }
    }

    /**
     * `renderTasks` without the markup: one row per task the filter keeps, in
     * list order, each with its overdue flag for the local day `today` in the
     * zone `tzOffset` minutes behind UTC.
     */
    method RenderTasks(c: Criteria, today: int, tzOffset: int) returns (views: seq<TaskView>)
      ensures |views| == |FilterTasks(tasks, c)|
      ensures forall k :: 0 <= k < |views| ==> views[k] == ViewOf(FilterTasks(tasks, c)[k], today, tzOffset)
    {
      var shown := FilterTasks(tasks, c);
      views := [];
      for k := 0 to |shown|
        invariant |views| == k
        invariant forall j :: 0 <= j < k ==> views[j] == ViewOf(shown[j], today, tzOffset)
      {
        views := views + [ViewOf(shown[k], today, tzOffset)];
      }
    }

    /** `updateStats`: the three counters, which always add up. */
    method UpdateStats() returns (total: nat, completed: nat, pending: nat)
      ensures total == |tasks|
      ensures completed == |set k: nat | k < |tasks| && tasks[k].completed|
      ensures pending == |set k: nat | k < |tasks| && !tasks[k].completed|
      ensures completed + pending == total
    {
      total := |tasks|;
      completed := CompletedCount(tasks);
      pending := PendingCount(tasks);
      CountsSpec(tasks);
    }
  }

  /**
   * From empty storage: add "Pay rent", give it priority "high" and a due date
   * in the past, then render. The one row is overdue with the high badge, and
   * the counters read one pending and none completed.
   */
  method PayRentScenario(now: int, today: int, tzOffset: int, createdAt: string)
    returns (views: seq<TaskView>, completed: nat, pending: nat)
    requires now > 0
    ensures |views| == 1
    ensures views[0].text == "Pay rent" && views[0].priority == "high" && views[0].overdue
    ensures tzOffset > -MinutesPerDay ==> views[0].overdueShown
    ensures completed == 0 && pending == 1
  {
    var store := new TaskStore(None, None);
    store.AddTask("Pay rent", now, createdAt);
    TrimOfTrimmed("Pay rent");
    store.OpenEditModal(now);
    store.SaveTaskChanges("Pay rent", "high", Some(today - 1), false);
    FilterNeutralShowsAll(store.tasks);
    views := store.RenderTasks(Criteria(All, All, All, ""), today, tzOffset);
    var total;
    total, completed, pending := store.UpdateStats();
    assert (set k: nat | k < |store.tasks| && store.tasks[k].completed) == {};
    assert (set k: nat | k < |store.tasks| && !store.tasks[k].completed) == {0};
  }
}
