/** One row of the task list: the completion toggle and the overdue highlight. */
module TaskRow {
  import opened TaskModel

  /** `taskIsOverdue()`: due strictly before the start of today. Completion is
      not looked at here; `startOfToday` stands for
      `Calendar.current.startOfDay(for: Date())`. */
  predicate TaskIsOverdue(task: TaskItem, startOfToday: Date)
    reads task
  {
    match task.dueDate
    case None => false
    case Some(dueDate) => dueDate < startOfToday
  }

  /** The condition under which the title, the icon and the due-date caption
      are drawn in red. */
  predicate HighlightedAsOverdue(task: TaskItem, startOfToday: Date)
    reads task
  {
    TaskIsOverdue(task, startOfToday) && !task.isCompleted
  }

  /** A task without a due date is never overdue. */
  lemma NoDueDateNeverOverdue(task: TaskItem, startOfToday: Date)
    requires task.dueDate == None
    ensures !TaskIsOverdue(task, startOfToday)
  {
  }

  /** A task due at or after today's midnight is not overdue; one due before it is. */
  lemma OverdueExactlyBeforeToday(task: TaskItem, startOfToday: Date)
    requires task.dueDate.Some?
    ensures TaskIsOverdue(task, startOfToday) <==> task.dueDate.value < startOfToday
  {
  }

  /** Once overdue, a task stays overdue on every later day. */
  lemma OverdueStaysOverdue(task: TaskItem, startOfToday: Date, laterStartOfDay: Date)
    requires startOfToday <= laterStartOfDay
    requires TaskIsOverdue(task, startOfToday)
    ensures TaskIsOverdue(task, laterStartOfDay)
  {
  }

  /** A completed task is never highlighted, overdue or not, and an
      incomplete one is highlighted exactly when it is overdue. */
  lemma HighlightIgnoresCompletedTasks(task: TaskItem, startOfToday: Date)
    ensures task.isCompleted ==> !HighlightedAsOverdue(task, startOfToday)
    ensures !task.isCompleted ==> (HighlightedAsOverdue(task, startOfToday) <==> TaskIsOverdue(task, startOfToday))
  {
  }

  /** The tap handler on the checkmark: `task.isCompleted.toggle()`. */
  method ToggleCompletion(task: TaskItem)
    modifies task`isCompleted
    ensures task.isCompleted == !old(task.isCompleted)
  {
    task.isCompleted := !task.isCompleted;
  }

  /** Two taps restore the completion flag, and nothing else moved. */
  method TapTwice(task: TaskItem)
    modifies task`isCompleted
    ensures task.isCompleted == old(task.isCompleted)
    ensures task.id == old(task.id) && task.createdAt == old(task.createdAt)
    ensures task.title == old(task.title) && task.category == old(task.category)
    ensures task.dueDate == old(task.dueDate)
  {
    ToggleCompletion(task);
    ToggleCompletion(task);
  }
}
