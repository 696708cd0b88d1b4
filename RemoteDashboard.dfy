/** The server-backed dashboard: the same task list, changed only by what the
    task API answers. Each request is abstracted to its outcome, a `Response`
    the caller supplies: `Ok` with the response body, or `Err` when the
    request throws (the `catch` blocks only log). */
module RemoteDashboard {
  import opened TaskList

  datatype Response<T> = Ok(payload: T) | Err

  /** `tasks.map((t) => (t._id === id ? updated : t))`. */
  function ReplaceById<Id(==)>(tasks: seq<Task<Id>>, id: Id, updated: Task<Id>): (r: seq<Task<Id>>)
    ensures |r| == |tasks|
    ensures forall i :: 0 <= i < |tasks| && tasks[i].id == id ==> r[i] == updated
    ensures forall i :: 0 <= i < |tasks| && tasks[i].id != id ==> r[i] == tasks[i]
  {
    if tasks == [] then []
    else
      var rest := ReplaceById(tasks[1..], id, updated);
      var r := [if tasks[0].id == id then updated else tasks[0]] + rest;
      assert forall i :: 1 <= i < |tasks| ==> r[i] == rest[i - 1] && tasks[i] == tasks[1..][i - 1];
      r
  }

  /** An answer for an id no record has leaves the list as it was. */
  lemma ReplaceMissing<Id>(tasks: seq<Task<Id>>, id: Id, updated: Task<Id>)
    requires forall t :: t in tasks ==> t.id != id
    ensures ReplaceById(tasks, id, updated) == tasks
  {
  }

  /** Applying the same server answer twice changes nothing more, provided the
      answer keeps the id it was asked about. */
  lemma ReplaceTwice<Id>(tasks: seq<Task<Id>>, id: Id, updated: Task<Id>)
    requires updated.id == id
    ensures ReplaceById(ReplaceById(tasks, id, updated), id, updated) == ReplaceById(tasks, id, updated)
  {
  }

  class Dashboard {
    var tasks: seq<Task<string>>
    var optionsTaskId: Option<string>
    var isModalOpen: bool
    var form: Form

    constructor ()
      ensures tasks == [] && optionsTaskId == None && !isModalOpen && form == EmptyForm()
    {
      tasks := [];
      optionsTaskId := None;
      isModalOpen := false;
      form := EmptyForm();
    }

    /** `fetchTasks`: GET the caller's tasks; a success replaces the list. */
    method FetchTasks(response: Response<seq<Task<string>>>)
      modifies this`tasks
      ensures response.Ok? ==> tasks == response.payload
      ensures response.Err? ==> tasks == old(tasks)
    {
      if response.Ok? {
        tasks := response.payload;
      }
    }

    /** `handleAdd`: `request` is the body it POSTs, if it posts at all;
        `response` is what that request comes back with. */
    method HandleAdd(response: Response<Task<string>>) returns (request: Option<Form>)
      modifies this`tasks, this`form, this`isModalOpen
      ensures request.None? <==> AddRejected(old(form))
      ensures request.Some? ==> request.value == old(form)
      ensures request.Some? && response.Ok? ==>
        tasks == [response.payload] + old(tasks) && form == EmptyForm() && !isModalOpen
      ensures request.None? || response.Err? ==>
        tasks == old(tasks) && form == old(form) && isModalOpen == old(isModalOpen)
    {
      if AddRejected(form) {
        return None;
      }
      request := Some(form);
      if response.Ok? {
        tasks := [response.payload] + tasks;
        form := EmptyForm();
        isModalOpen := false;
      }
    }

    /** `toggleComplete`: PUTs `{ completed: !currentStatus }` (returned as
        `completed`) and puts the record the server answers with in place of
        the records with this id. */
    method ToggleComplete(id: string, currentStatus: bool, response: Response<Task<string>>)
      returns (completed: bool)
      modifies this`tasks, this`optionsTaskId
      ensures completed == !currentStatus
      ensures response.Ok? ==> tasks == ReplaceById(old(tasks), id, response.payload) && optionsTaskId == None
      ensures response.Err? ==> tasks == old(tasks) && optionsTaskId == old(optionsTaskId)
    {
      completed := !currentStatus;
      if response.Ok? {
        tasks := ReplaceById(tasks, id, response.payload);
        optionsTaskId := None;
      }
    }

    /** `handleDelete`: `confirmed` is the answer to the confirmation dialog;
        `requested` says whether a DELETE is sent. */
    method HandleDelete(id: string, confirmed: bool, response: Response<()>) returns (requested: bool)
      modifies this`tasks, this`optionsTaskId
      ensures requested == confirmed
      ensures confirmed && response.Ok? ==> tasks == RemoveById(old(tasks), id) && optionsTaskId == None
      ensures !confirmed || response.Err? ==> tasks == old(tasks) && optionsTaskId == old(optionsTaskId)
    {
      if !confirmed {
        return false;
      }
      requested := true;
      if response.Ok? {
        tasks := RemoveById(tasks, id);
        optionsTaskId := None;
      }
    }
  }
}
