/** The edit form of one task: title and category bound straight into the
    task, and a due date edited as a switch plus a date picker that are
    committed together by "Done". */
module EditTask {
  import opened TaskModel

  /** The switch's initial position: on exactly when the task has a due date. */
  function InitialHasDueDate(dueDate: Option<Date>): bool {
    dueDate.Some?
  }

  /** The picker's initial date: the task's due date, or the current time. */
  function InitialPickerDate(dueDate: Option<Date>, now: Date): Date {
    match dueDate
    case Some(d) => d
    case None => now
  }

  /** What "Done" writes to `dueDate`: the picked date if the switch is on,
      no date if it is off, whatever the picker holds. */
  function CommittedDueDate(hasDueDate: bool, pickerDate: Date): (r: Option<Date>)
    ensures r.Some? <==> hasDueDate
    ensures r.Some? ==> r.value == pickerDate
  {
    if hasDueDate then Some(pickerDate) else None
  }

  /** Opening the form and committing it untouched gives back the due date it started from. */
  lemma OpenThenCommitKeepsDueDate(dueDate: Option<Date>, now: Date)
    ensures CommittedDueDate(InitialHasDueDate(dueDate), InitialPickerDate(dueDate, now)) == dueDate
  {
  }

  /** Reopening the form after a commit shows the switch as it was left and,
      when it was on, the date that was picked. */
  lemma CommitThenReopenShowsSameState(hasDueDate: bool, pickerDate: Date, now: Date)
    ensures InitialHasDueDate(CommittedDueDate(hasDueDate, pickerDate)) == hasDueDate
    ensures hasDueDate ==> InitialPickerDate(CommittedDueDate(hasDueDate, pickerDate), now) == pickerDate
  {
  }

  class EditTaskView {
    const task: TaskItem
    var taskDueDate: Date
    var hasDueDate: bool

    /** `init(task:)`: the form state is derived from the task's due date;
        `now` stands for `Date()`. */
    constructor (task: TaskItem, now: Date)
      ensures this.task == task
      ensures hasDueDate == InitialHasDueDate(task.dueDate)
      ensures taskDueDate == InitialPickerDate(task.dueDate, now)
    {
      this.task := task;
      taskDueDate := InitialPickerDate(task.dueDate, now);
      hasDueDate := InitialHasDueDate(task.dueDate);
    }

    /** The title field writes into the task as typed: no trimming, no emptiness check. */
    method EditTitle(text: string)
      modifies task`title
      ensures task.title == text
    {
      task.title := text;
    }

    /** The category field writes into the task as typed: no trimming, no default. */
    method EditCategory(text: string)
      modifies task`category
      ensures task.category == text
    {
      task.category := text;
    }

    /** The "Set Due Date" switch. */
    method SetHasDueDate(on: bool)
      modifies this`hasDueDate
      ensures hasDueDate == on
    {
      hasDueDate := on;
    }

    /** The date picker. */
    method PickDate(date: Date)
      modifies this`taskDueDate
      ensures taskDueDate == date
    {
      taskDueDate := date;
    }

    /** The "Done" button: commits the switch and the picker into `dueDate`
        and touches no other field of the task. */
    method Done()
      modifies task`dueDate
      ensures task.dueDate == CommittedDueDate(hasDueDate, taskDueDate)
    {
      if hasDueDate {
        task.dueDate := Some(taskDueDate);
      } else {
        task.dueDate := None;
      }
    }
  }

  /** Opening the editor on a task and pressing "Done" at once leaves the
      whole task as it was. */
  method OpenAndDone(task: TaskItem, now: Date)
    modifies task`dueDate
    ensures task.dueDate == old(task.dueDate)
    ensures task.id == old(task.id) && task.createdAt == old(task.createdAt)
    ensures task.title == old(task.title) && task.category == old(task.category)
    ensures task.isCompleted == old(task.isCompleted)
  {
    var editor := new EditTaskView(task, now);
    editor.Done();
    OpenThenCommitKeepsDueDate(old(task.dueDate), now);
  }
}
