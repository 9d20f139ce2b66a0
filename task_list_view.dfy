/** The task list screen: the category picker's entries, the filtered,
    searched and sorted projection of the store, and the two operations that
    change the store, adding a task and deleting rows. */
module TaskList {
  import opened TaskModel
  import opened Text

  /** The picker entry that switches the category filter off. */
  const AllCategory: string := "All"

  /** The category a new task gets when none is typed. */
  const DefaultCategory: string := "General"

  datatype SortOption = CreatedAtDescending | CreatedAtAscending | DueDateAscending | CompletionStatus

  /** The `areInIncreasingOrder` closure that the list passes to `sort` for
      each option: does `a` belong strictly before `b`? */
  predicate Precedes(a: TaskItem, b: TaskItem, option: SortOption)
    reads a, b
  {
    match option
    case CreatedAtDescending => a.createdAt > b.createdAt
    case CreatedAtAscending => a.createdAt < b.createdAt
    case DueDateAscending =>
      (match a.dueDate
       case None => false
       case Some(date1) =>
         match b.dueDate
         case None => true
         case Some(date2) => date1 < date2)
    case CompletionStatus =>
      if a.isCompleted == b.isCompleted then a.createdAt > b.createdAt
      else !a.isCompleted && b.isCompleted
  }

  /** A pair of integers, compared lexicographically. */
  datatype SortKey = SortKey(major: int, minor: int)

  predicate KeyLess(x: SortKey, y: SortKey) {
    x.major < y.major || (x.major == y.major && x.minor < y.minor)
  }

  /** An independent description of each closure as the comparison of a key. */
  function Key(t: TaskItem, option: SortOption): SortKey
    reads t
  {
    match option
    case CreatedAtDescending => SortKey(-t.createdAt, 0)
    case CreatedAtAscending => SortKey(t.createdAt, 0)
    case DueDateAscending =>
      (match t.dueDate
       case Some(d) => SortKey(0, d)
       case None => SortKey(1, 0))
    case CompletionStatus => SortKey(if t.isCompleted then 1 else 0, -t.createdAt)
  }

  /** Each closure compares keys. */
  lemma PrecedesComparesKeys(a: TaskItem, b: TaskItem, option: SortOption)
    ensures Precedes(a, b, option) <==> KeyLess(Key(a, option), Key(b, option))
  {
  }

  /** Each closure is a strict weak ordering, which is what `sort(by:)`
      demands of its argument. */
  lemma PrecedesIsStrictWeakOrder(a: TaskItem, b: TaskItem, c: TaskItem, option: SortOption)
    ensures !Precedes(a, a, option)
    ensures Precedes(a, b, option) && Precedes(b, c, option) ==> Precedes(a, c, option)
    ensures !Precedes(a, b, option) && !Precedes(b, a, option) && !Precedes(b, c, option) && !Precedes(c, b, option)
            ==> !Precedes(a, c, option) && !Precedes(c, a, option)
  {
  }

  /** No task of `s` is preceded, under `option`, by a task after it. */
  predicate SortedBy(s: seq<TaskItem>, option: SortOption)
    reads s
  {
    forall i, j :: 0 <= i < j < |s| ==> !Precedes(s[j], s[i], option)
  }

  /** A task that no task of a sorted list precedes can head that list. */
  lemma ConsKeepsSorted(a: TaskItem, s: seq<TaskItem>, option: SortOption)
    requires SortedBy(s, option)
    requires forall j | 0 <= j < |s| :: !Precedes(s[j], a, option)
    ensures SortedBy([a] + s, option)
  {
  }

  /** A task that precedes the head of a sorted list is preceded by none of it. */
  lemma PrecedesHead(x: TaskItem, s: seq<TaskItem>, option: SortOption)
    requires SortedBy(s, option) && s != [] && Precedes(x, s[0], option)
    ensures forall j | 0 <= j < |s| :: !Precedes(s[j], x, option)
  {
  }

  /** The tail of a sorted list is sorted and made of the list's tasks. */
  lemma TailOfSorted(s: seq<TaskItem>, option: SortOption)
    requires s != [] && SortedBy(s, option)
    ensures SortedBy(s[1..], option)
    ensures forall i | 0 <= i < |s| - 1 :: s[1..][i] == s[i + 1]
  {
  }

  /** A head that `x` does not precede, in front of `x` inserted into the tail. */
  lemma HeadBeforeInserted(s: seq<TaskItem>, x: TaskItem, rest: seq<TaskItem>, option: SortOption)
    requires s != [] && SortedBy(s, option) && !Precedes(x, s[0], option)
    requires SortedBy(rest, option) && multiset(rest) == multiset(s[1..]) + multiset{x}
    ensures SortedBy([s[0]] + rest, option)
    ensures multiset([s[0]] + rest) == multiset(s) + multiset{x}
    ensures forall i | 0 <= i < |rest| + 1 :: ([s[0]] + rest)[i] == x || ([s[0]] + rest)[i] in s
  {
    assert s == [s[0]] + s[1..];
    forall j | 0 <= j < |rest| ensures !Precedes(rest[j], s[0], option) && (rest[j] == x || rest[j] in s) {
      assert rest[j] in multiset(rest);
    }
    ConsKeepsSorted(s[0], rest, option);
  }

  /** Puts `x` into a sorted list after every task it does not precede and
      before the first one it does: one more `x`, still sorted. */
  function Insert(x: TaskItem, s: seq<TaskItem>, option: SortOption): (r: seq<TaskItem>)
    reads x, s
    requires SortedBy(s, option)
    ensures |r| == |s| + 1 && multiset(r) == multiset(s) + multiset{x}
    ensures forall i | 0 <= i < |r| :: r[i] == x || r[i] in s
    ensures SortedBy(r, option)
    decreases |s|
  {
    if s == [] then [x]
    else if Precedes(x, s[0], option) then
      PrecedesHead(x, s, option);
      ConsKeepsSorted(x, s, option);
      [x] + s
    else
      TailOfSorted(s, option);
      var rest := Insert(x, s[1..], option);
      HeadBeforeInserted(s, x, rest, option);
      [s[0]] + rest
  }

  /** `sort(by:)` with the closure of `option`: the result is a rearrangement
      of the input in which no task is preceded by a later one. (The order of
      tasks the closure leaves unordered is not specified.) */
  function SortTasks(tasks: seq<TaskItem>, option: SortOption): (sorted: seq<TaskItem>)
    reads tasks
    ensures |sorted| == |tasks| && multiset(sorted) == multiset(tasks)
    ensures SortedBy(sorted, option)
  {
    if tasks == [] then []
    else
      var init := tasks[..|tasks| - 1];
      assert forall i | 0 <= i < |init| :: init[i] in tasks;
      assert tasks == init + [tasks[|tasks| - 1]];
      var front := SortTasks(init, option);
      assert forall i | 0 <= i < |front| :: front[i] in multiset(init);
      Insert(tasks[|tasks| - 1], front, option)
  }

  /** Sorted newest first: `createdAt` never increases along the list. */
  lemma NewestFirst(s: seq<TaskItem>)
    requires SortedBy(s, CreatedAtDescending)
    ensures forall i, j :: 0 <= i < j < |s| ==> s[i].createdAt >= s[j].createdAt
  {
  }

  /** Sorted oldest first: `createdAt` never decreases along the list. */
  lemma OldestFirst(s: seq<TaskItem>)
    requires SortedBy(s, CreatedAtAscending)
    ensures forall i, j :: 0 <= i < j < |s| ==> s[i].createdAt <= s[j].createdAt
  {
  }

  /** Sorted by due date: every dated task comes before every undated one,
      and the dated ones are in ascending date order. */
  lemma DatedFirstByDate(s: seq<TaskItem>)
    requires SortedBy(s, DueDateAscending)
    ensures forall i, j :: 0 <= i < j < |s| && s[j].dueDate.Some? ==>
              s[i].dueDate.Some? && s[i].dueDate.value <= s[j].dueDate.value
  {
  }

  /** Sorted by completion: every incomplete task comes before every
      completed one, and within each group the newest comes first. */
  lemma IncompleteFirstThenNewest(s: seq<TaskItem>)
    requires SortedBy(s, CompletionStatus)
    ensures forall i, j :: 0 <= i < j < |s| && s[i].isCompleted ==> s[j].isCompleted
    ensures forall i, j :: 0 <= i < j < |s| && s[i].isCompleted == s[j].isCompleted ==>
              s[i].createdAt >= s[j].createdAt
  {
  }

  /** One stage of the filter pipeline. */
  datatype Criterion = InCategory(category: string) | TitleContains(text: string)

  predicate Matches(t: TaskItem, criterion: Criterion)
    reads t
  {
    match criterion
    case InCategory(category) => t.category == category
    case TitleContains(text) => ContainsIgnoringCase(t.title, text)
  }

  /** `filter`: the tasks that meet the criterion, each as often as in the
      input, and nothing else. */
  function Retain(tasks: seq<TaskItem>, criterion: Criterion): (r: seq<TaskItem>)
    reads tasks
    ensures multiset(r) <= multiset(tasks)
    ensures forall t | t in r :: t in tasks && Matches(t, criterion)
    ensures forall t | t in tasks && Matches(t, criterion) :: t in r && multiset(r)[t] == multiset(tasks)[t]
  {
    if tasks == [] then []
    else
      var rest := Retain(tasks[1..], criterion);
      assert tasks == [tasks[0]] + tasks[1..];
      (if Matches(tasks[0], criterion) then [tasks[0]] else []) + rest
  }

  /** `modelContext.delete(doomed)`: the store without that object, every
      other task kept as often as before. */
  function Without(tasks: seq<TaskItem>, doomed: TaskItem): (r: seq<TaskItem>)
    ensures forall t | t in r :: t in tasks && t != doomed
    ensures forall t | t in tasks && t != doomed :: t in r
    ensures multiset(r) == multiset(tasks)[doomed := 0]
  {
    if tasks == [] then []
    else
      var rest := Without(tasks[1..], doomed);
      assert tasks == [tasks[0]] + tasks[1..];
      (if tasks[0] == doomed then [] else [tasks[0]]) + rest
  }

  /** `allTasks.map { $0.category }`. */
  function CategoryNames(tasks: seq<TaskItem>): seq<string>
    reads tasks
  {
    seq(|tasks|, i reads tasks requires 0 <= i < |tasks| => tasks[i].category)
  }

  /** The category stored for a new task typed as `raw`: never empty, never
      padded with whitespace, and the typed text itself whenever it holds
      anything but whitespace. */
  function CategoryToSave(raw: string): (r: string)
    ensures r != [] && IsTrimmed(r)
    ensures !AllWhitespace(raw) ==> r == Trim(raw)
    ensures AllWhitespace(raw) ==> r == DefaultCategory
  {
    var trimmed := Trim(raw);
    if trimmed == [] then DefaultCategory else trimmed
  }

  /** The store holds each task object once. */
  predicate Distinct(tasks: seq<TaskItem>) {
    forall t | t in multiset(tasks) :: multiset(tasks)[t] == 1
  }

  /** The tasks at the given rows of a displayed list. */
  function RowsAt(rows: seq<TaskItem>, offsets: set<nat>): set<TaskItem>
    requires forall i :: i in offsets ==> i < |rows|
  {
    set i | i in offsets :: rows[i]
  }

  class TaskListView {
    /** The `@Query` result: every stored task. */
    var allTasks: seq<TaskItem>
    var selectedCategory: string
    var newTaskTitle: string
    var newTaskCategory: string
    var searchText: string
    var currentSortOption: SortOption

    ghost predicate Valid()
      reads this
    {
      Distinct(allTasks)
    }

    /** The screen as it first appears over the stored tasks. */
    constructor (stored: seq<TaskItem>)
      requires Distinct(stored)
      ensures Valid() && allTasks == stored
      ensures selectedCategory == AllCategory && searchText == ""
      ensures newTaskTitle == "" && newTaskCategory == DefaultCategory
      ensures currentSortOption == CreatedAtDescending
    {
      allTasks := stored;
      selectedCategory := AllCategory;
      newTaskTitle := "";
      newTaskCategory := DefaultCategory;
      searchText := "";
      currentSortOption := CreatedAtDescending;
    }

    /** `categories`: "All", then each category in use exactly once, in
        ascending order. */
    function Categories(): (r: seq<string>)
      reads this, allTasks
      ensures |r| >= 1 && r[0] == AllCategory
      ensures StrictlyIncreasing(r[1..])
      ensures forall t :: t in allTasks ==> t.category in r[1..]
      ensures forall c :: c in r[1..] ==> exists t :: t in allTasks && t.category == c
    {
      var names := CategoryNames(allTasks);
      var sorted := SortedDistinct(names);
      assert forall i | 0 <= i < |allTasks| :: names[i] == allTasks[i].category;
      assert forall t :: t in allTasks ==> t.category in names;
      assert forall c :: c in names ==> exists t :: t in allTasks && t.category == c;
      assert ([AllCategory] + sorted)[1..] == sorted;
      [AllCategory] + sorted
    }

    /** Whether a task passes both filters of the current selection. */
    predicate Passes(t: TaskItem)
      reads this, t
    {
      && (selectedCategory == AllCategory || Matches(t, InCategory(selectedCategory)))
      && (searchText == [] || Matches(t, TitleContains(searchText)))
    }

    /** The two filter stages, in order, before sorting. */
    function FilteredTasks(): (r: seq<TaskItem>)
      reads this, allTasks
      ensures multiset(r) <= multiset(allTasks)
      ensures forall t | t in r :: Passes(t)
      ensures forall t | t in allTasks && Passes(t) :: multiset(r)[t] == multiset(allTasks)[t]
      ensures selectedCategory == AllCategory && searchText == [] ==> r == allTasks
    {
      var byCategory :=
        if selectedCategory != AllCategory then Retain(allTasks, InCategory(selectedCategory)) else allTasks;
      assert forall i | 0 <= i < |byCategory| :: byCategory[i] in allTasks;
      if searchText != [] then Retain(byCategory, TitleContains(searchText)) else byCategory
    }

    /** `searchedAndFilteredTasks`: exactly the stored tasks that pass both
        filters, each once per occurrence in the store, sorted by the chosen
        option; with no filter and no search, a rearrangement of the store. */
    function SearchedAndFilteredTasks(): (shown: seq<TaskItem>)
      reads this, allTasks
      ensures multiset(shown) == multiset(FilteredTasks())
      ensures forall t | t in shown :: t in allTasks && Passes(t)
      ensures forall t | t in allTasks && Passes(t) :: t in shown && multiset(shown)[t] == multiset(allTasks)[t]
      ensures selectedCategory == AllCategory && searchText == [] ==> multiset(shown) == multiset(allTasks)
      ensures SortedBy(shown, currentSortOption)
    {
      var tasksToDisplay := FilteredTasks();
      assert forall i | 0 <= i < |tasksToDisplay| :: tasksToDisplay[i] in allTasks;
      var sorted := SortTasks(tasksToDisplay, currentSortOption);
      assert forall t | t in sorted :: t in multiset(tasksToDisplay);
      assert forall t | t in tasksToDisplay :: t in multiset(sorted);
      sorted
    }

    /** The "+" button is disabled while the title is blank. */
    predicate AddButtonDisabled()
      reads this
    {
      Trim(newTaskTitle) == []
    }

    /** `addTask()`: a blank title changes nothing; otherwise exactly one new
        task is stored, with the trimmed title and the category to save, and
        both input fields are reset. `id` and `now` stand for `UUID()` and
        `Date()`. */
    method AddTask(id: Uuid, now: Date)
      requires Valid()
      modifies this`allTasks, this`newTaskTitle, this`newTaskCategory
      ensures Valid()
      ensures old(AddButtonDisabled()) ==>
                allTasks == old(allTasks) && newTaskTitle == old(newTaskTitle)
                && newTaskCategory == old(newTaskCategory)
      ensures !old(AddButtonDisabled()) ==>
                && |allTasks| == |old(allTasks)| + 1
                && allTasks[..|old(allTasks)|] == old(allTasks)
                && fresh(allTasks[|old(allTasks)|])
                && allTasks[|old(allTasks)|].id == id
                && allTasks[|old(allTasks)|].createdAt == now
                && allTasks[|old(allTasks)|].title == Trim(old(newTaskTitle))
                && allTasks[|old(allTasks)|].category == CategoryToSave(old(newTaskCategory))
                && !allTasks[|old(allTasks)|].isCompleted
                && allTasks[|old(allTasks)|].dueDate == None
                && newTaskTitle == "" && newTaskCategory == DefaultCategory
    {
      var trimmedTitle := Trim(newTaskTitle);
      if trimmedTitle == [] {
        return;
      }
      var categoryToSave := CategoryToSave(newTaskCategory);
      var newTask := new TaskItem(id, now, title := trimmedTitle, category := categoryToSave);
      assert newTask !in allTasks;
      assert multiset(allTasks + [newTask]) == multiset(allTasks) + multiset{newTask};
      allTasks := allTasks + [newTask];
      newTaskTitle := "";
      newTaskCategory := DefaultCategory;
    }

    /** `deleteTask(offsets:)`: the offsets are rows of the displayed list;
        exactly the tasks on those rows leave the store, and every other task
        stays. */
    method DeleteTask(offsets: set<nat>)
      requires Valid()
      requires forall i :: i in offsets ==> i < |SearchedAndFilteredTasks()|
      modifies this`allTasks
      ensures Valid()
      ensures forall t | t in allTasks :: t in old(allTasks) && t !in old(RowsAt(SearchedAndFilteredTasks(), offsets))
      ensures forall t | t in old(allTasks) && t !in old(RowsAt(SearchedAndFilteredTasks(), offsets)) :: t in allTasks
      ensures multiset(allTasks) <= multiset(old(allTasks))
    {
      var doomed := RowsAt(SearchedAndFilteredTasks(), offsets);
      DeleteEach(doomed);
    }

    /** `forEach(modelContext.delete)`: deletes the given tasks one by one;
        every other task stays. */
    method DeleteEach(doomed: set<TaskItem>)
      requires Valid()
      modifies this`allTasks
      ensures Valid()
      ensures forall t | t in allTasks :: t in old(allTasks) && t !in doomed
      ensures forall t | t in old(allTasks) && t !in doomed :: t in allTasks
      ensures multiset(allTasks) <= multiset(old(allTasks))
    {
      var pending := doomed;
      while pending != {}
        invariant pending <= doomed
        invariant forall t | t in allTasks :: t in old(allTasks) && t !in doomed - pending
        invariant forall t | t in old(allTasks) && t !in doomed - pending :: t in allTasks
        invariant multiset(allTasks) <= multiset(old(allTasks))
        invariant Valid()
        decreases pending
      {
        var t :| t in pending;
        var remaining := Without(allTasks, t);
        allTasks := remaining;
        pending := pending - {t};
      }
    }
  }
}
