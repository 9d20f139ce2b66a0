/** The persisted to-do record. */
module TaskModel {

  /** A point in time, in whole seconds; `Date()` is passed in as such a value. */
  type Date = int

  /** The task identifier; `UUID()` is passed in as such a value. */
  type Uuid = nat

  datatype Option<T> = None | Some(value: T)

  /** One task. The store and the views share these objects and update
      `title`, `isCompleted`, `dueDate` and `category` in place; no method of
      this model has `id` or `createdAt` in its frame, so only the
      constructor writes them. */
  class TaskItem {
    var id: Uuid
    var title: string
    var isCompleted: bool
    var dueDate: Option<Date>
    var category: string
    var createdAt: Date

    /** `TaskItem(id:title:isCompleted:dueDate:category:createdAt:)`. The
        identifier and the creation time have no default here: the caller
        supplies the fresh UUID and the current time. */
    constructor (id: Uuid, createdAt: Date, title: string := "", isCompleted: bool := false,
                 dueDate: Option<Date> := None, category: string := "General")
      ensures this.id == id && this.createdAt == createdAt
      ensures this.title == title && this.isCompleted == isCompleted
      ensures this.dueDate == dueDate && this.category == category
    {
      this.id := id;
      this.title := title;
      this.isCompleted := isCompleted;
      this.dueDate := dueDate;
      this.category := category;
      this.createdAt := createdAt;
    }
  }

  /** `TaskItem(id:createdAt:)` with every other argument left at its default. */
  method NewDefaultTask(id: Uuid, createdAt: Date) returns (t: TaskItem)
    ensures fresh(t)
    ensures t.id == id && t.createdAt == createdAt
    ensures t.title == "" && t.category == "General"
    ensures !t.isCompleted && t.dueDate == None
  {
    t := new TaskItem(id, createdAt);
  }
}
