/** The offline dashboard: a task list held in component state (and saved by
    the browser), changed by the add, toggle and delete handlers. */
module LocalDashboard {
  import opened Text
  import opened TaskList

  /** What every record added through the form satisfies: a non-empty trimmed
      title, a trimmed description and a due date. */
  ghost predicate WellFormed(tasks: seq<Task<int>>) {
    forall t :: t in tasks ==>
      t.title != "" && IsTrimmed(t.title) && IsTrimmed(t.description) && t.dueDate != ""
  }

  /** The record `handleAdd` builds from the form. */
  function NewTask(id: int, form: Form): (t: Task<int>)
    requires !AddRejected(form)
    ensures t.id == id && !t.completed
    ensures t.title == Trim(form.title) && t.description == Trim(form.description)
    ensures t.title != "" && IsTrimmed(t.title) && IsTrimmed(t.description)
    ensures t.dueDate == form.dueDate && t.dueDate != "" && t.priority == form.priority
  {
    Task(id, Trim(form.title), Trim(form.description), form.dueDate, form.priority, false)
  }

  /** `tasks.map((t) => t.id === id ? { ...t, completed: !t.completed } : t)`. */
  function ToggleById<Id(==)>(tasks: seq<Task<Id>>, id: Id): (r: seq<Task<Id>>)
    ensures |r| == |tasks|
    ensures forall i :: 0 <= i < |tasks| ==> r[i].(completed := tasks[i].completed) == tasks[i]
    ensures forall i :: 0 <= i < |tasks| ==> (r[i].completed != tasks[i].completed <==> tasks[i].id == id)
  {
    if tasks == [] then []
    else
      var t := tasks[0];
      var rest := ToggleById(tasks[1..], id);
      var r := [if t.id == id then t.(completed := !t.completed) else t] + rest;
      assert forall i :: 1 <= i < |tasks| ==> r[i] == rest[i - 1] && tasks[i] == tasks[1..][i - 1];
      r
  }

  /** Toggling the same id twice gives back the list it started from. */
  lemma ToggleTwice<Id>(tasks: seq<Task<Id>>, id: Id)
    ensures ToggleById(ToggleById(tasks, id), id) == tasks
  {
  }

  /** Toggling keeps every record's title, description and due date, so it
      keeps the records well formed. */
  lemma ToggleKeepsWellFormed(tasks: seq<Task<int>>, id: int)
    requires WellFormed(tasks)
    ensures WellFormed(ToggleById(tasks, id))
  {
  }

  /** The list `handleAdd` sets: `None` when the guard rejects the form,
      otherwise the new record in front of the old list. */
  function AddTask(id: int, form: Form, tasks: seq<Task<int>>): (r: Option<seq<Task<int>>>)
    ensures r.None? <==> AddRejected(form)
    ensures r.Some? ==>
      |r.value| == |tasks| + 1 && r.value[0] == NewTask(id, form) && r.value[1..] == tasks
    ensures r.Some? && WellFormed(tasks) ==> WellFormed(r.value)
  {
    if AddRejected(form) then None
    else
      var t := NewTask(id, form);
      assert ([t] + tasks)[1..] == tasks;
      Some([t] + tasks)
  }

  class Dashboard {
    var tasks: seq<Task<int>>
    var optionsTaskId: Option<int>
    var isModalOpen: bool
    var form: Form

    constructor ()
      ensures tasks == [] && optionsTaskId == None && !isModalOpen && form == EmptyForm()
    {
      tasks := [];
      optionsTaskId := None;
      isModalOpen := false;
      form := EmptyForm();
    }

    /** `handleAdd`: `id` stands for `Date.now()` and need not be unique. */
    method HandleAdd(id: int)
      modifies this`tasks, this`form, this`isModalOpen
      ensures AddRejected(old(form)) ==>
        tasks == old(tasks) && form == old(form) && isModalOpen == old(isModalOpen)
      ensures !AddRejected(old(form)) ==>
        tasks == AddTask(id, old(form), old(tasks)).value && form == EmptyForm() && !isModalOpen
    {
      var next := AddTask(id, form, tasks);
      if next.Some? {
        tasks := next.value;
        form := EmptyForm();
        isModalOpen := false;
      }
    }

    /** `toggleComplete`: flips the completion flag of the records with this id. */
    method ToggleComplete(id: int)
      modifies this`tasks, this`optionsTaskId
      ensures tasks == ToggleById(old(tasks), id)
      ensures optionsTaskId == None
      ensures WellFormed(old(tasks)) ==> WellFormed(tasks)
    {
      if WellFormed(tasks) {
        ToggleKeepsWellFormed(tasks, id);
      }
      tasks := ToggleById(tasks, id);
      optionsTaskId := None;
    }

    /** `handleDelete`: `confirmed` is the answer to the confirmation dialog. */
    method HandleDelete(id: int, confirmed: bool)
      modifies this`tasks, this`optionsTaskId
      ensures !confirmed ==> tasks == old(tasks) && optionsTaskId == old(optionsTaskId)
      ensures confirmed ==> tasks == RemoveById(old(tasks), id) && optionsTaskId == None
      ensures WellFormed(old(tasks)) ==> WellFormed(tasks)
    {
      if confirmed {
        tasks := RemoveById(tasks, id);
        optionsTaskId := None;
      }
    }
  }
}
