/** The task records and the pure derivations both dashboards share: the
    `filter` of a list, the add guard, delete-by-id, the filtered view and
    the stat cards. */
module TaskList {
  import opened Text

  datatype Option<T> = None | Some(value: T)

  /** A task record. `Id` is the type of its identifier: a number (`id`) in
      the offline dashboard, a string (`_id`) in the server-backed one. */
  datatype Task<Id> = Task(id: Id, title: string, description: string,
                           dueDate: string, priority: string, completed: bool)

  /** The add-task modal's form state. */
  datatype Form = Form(title: string, description: string, dueDate: string, priority: string)

  /** The form as it starts and as a successful add leaves it. */
  function EmptyForm(): Form {
    Form("", "", "", "normal")
  }

  /** The guard `!title.trim() || !dueDate` both dashboards put before an add. */
  predicate AddRejected(form: Form): (rejected: bool)
    ensures rejected <==> AllWhitespace(form.title) || form.dueDate == ""
  {
    Trim(form.title) == "" || form.dueDate == ""
  }

  /** `r` is `s` with some elements left out, the rest in their order. */
  ghost predicate IsSubsequence<T>(r: seq<T>, s: seq<T>)
    decreases |s|
  {
    r == [] ||
    (s != [] && ((r[0] == s[0] && IsSubsequence(r[1..], s[1..])) || IsSubsequence(r, s[1..])))
  }

  /** `Array.prototype.filter`: the elements of `s` that satisfy `p`, in order. */
  function Keep<T(==,!new)>(s: seq<T>, p: T -> bool): (r: seq<T>)
    ensures IsSubsequence(r, s)
    ensures forall x :: x in r <==> x in s && p(x)
    ensures forall x :: multiset(r)[x] == if p(x) then multiset(s)[x] else 0
    ensures |r| <= |s|
  {
    if s == [] then []
    else
      var rest := Keep(s[1..], p);
      assert s == [s[0]] + s[1..];
      if p(s[0]) then
        var r := [s[0]] + rest;
        assert r[1..] == rest;
        r
      else
        rest
  }

  /** When every element passes, `filter` returns its input. */
  lemma {:induction false} KeepAll<T(!new)>(s: seq<T>, p: T -> bool)
    requires forall x :: x in s ==> p(x)
    ensures Keep(s, p) == s
  {
    if s != [] {
      assert s == [s[0]] + s[1..];
      KeepAll(s[1..], p);
    }
  }

  /** `filter` keeps the length exactly when every element passes. */
  lemma {:induction false} KeepFull<T(!new)>(s: seq<T>, p: T -> bool)
    ensures |Keep(s, p)| == |s| <==> forall x :: x in s ==> p(x)
  {
    if s != [] {
      assert s == [s[0]] + s[1..];
      KeepFull(s[1..], p);
      if p(s[0]) {
        assert forall x :: x in s && x != s[0] ==> x in s[1..];
      }
    }
  }

  /** `tasks.filter((t) => t.id !== id)`: what a confirmed delete leaves. */
  function RemoveById<Id(==,!new)>(tasks: seq<Task<Id>>, id: Id): (r: seq<Task<Id>>)
    ensures IsSubsequence(r, tasks)
    ensures forall t :: t in r <==> t in tasks && t.id != id
    ensures forall t: Task<Id> :: t.id != id ==> multiset(r)[t] == multiset(tasks)[t]
    ensures (forall t :: t in tasks ==> t.id != id) ==> r == tasks
  {
    var p := (t: Task<Id>) => t.id != id;
    var r := Keep(tasks, p);
    assert (forall t :: t in tasks ==> p(t)) ==> r == tasks by {
      if forall t :: t in tasks ==> p(t) {
        KeepAll(tasks, p);
      }
    }
    r
  }

  /** Deleting by the id of a record just prepended undoes that add (and
      deletes the older records with the same id). */
  lemma RemovePrepended<Id(!new)>(t: Task<Id>, tasks: seq<Task<Id>>)
    ensures RemoveById([t] + tasks, t.id) == RemoveById(tasks, t.id)
  {
  }

  /** The status selector admits a task with this completion flag; a value
      other than "completed" and "pending" (the selector's "all") admits all. */
  predicate StatusAdmits(filter: string, completed: bool) {
    !(filter == "completed" && !completed) && !(filter == "pending" && completed)
  }

  /** The filtered view's test for one task. */
  predicate Matches<Id>(t: Task<Id>, filter: string, searchTerm: string) {
    StatusAdmits(filter, t.completed) && Contains(Lower(t.title), Lower(searchTerm))
  }

  /** The `filtered` view: the tasks the status selector admits whose
      lower-cased title includes the lower-cased search term. */
  function Filtered<Id(==,!new)>(tasks: seq<Task<Id>>, filter: string, searchTerm: string): (r: seq<Task<Id>>)
    ensures IsSubsequence(r, tasks)
    ensures forall t :: t in r ==>
      t in tasks &&
      (filter == "completed" ==> t.completed) &&
      (filter == "pending" ==> !t.completed) &&
      Contains(Lower(t.title), Lower(searchTerm))
    ensures forall t ::
      (t in tasks &&
       (filter == "completed" ==> t.completed) &&
       (filter == "pending" ==> !t.completed) &&
       Contains(Lower(t.title), Lower(searchTerm)))
      ==> multiset(r)[t] == multiset(tasks)[t]
    ensures filter == "all" && searchTerm == "" ==> r == tasks
  {
    var p := (t: Task<Id>) => Matches(t, filter, searchTerm);
    var r := Keep(tasks, p);
    assert filter == "all" && searchTerm == "" ==> r == tasks by {
      if filter == "all" && searchTerm == "" {
        KeepAll(tasks, p);
      }
    }
    r
  }

  /** `Math.round((completed / total) * 100)` with exact rational arithmetic
      (rounding half up), and 0 for an empty list. */
  function CompletionRate(completed: nat, total: nat): (rate: int)
    requires completed <= total
    ensures 0 <= rate <= 100
    ensures total == 0 ==> rate == 0
    ensures total > 0 ==> (2 * rate - 1) * total <= 200 * completed < (2 * rate + 1) * total
    ensures total > 0 && completed == total ==> rate == 100
  {
    if total == 0 then 0
    else
      var rate := (200 * completed + total) / (2 * total);
      RoundedRate(completed, total, rate);
      rate
  }

  /** Division facts behind `CompletionRate`, one multiplication at a time. */
  lemma RoundedRate(completed: nat, total: nat, rate: int)
    requires 0 < total && completed <= total
    requires rate == (200 * completed + total) / (2 * total)
    ensures 0 <= rate <= 100
    ensures (2 * rate - 1) * total <= 200 * completed < (2 * rate + 1) * total
    ensures completed == total ==> rate == 100
  {
    var n, d := 200 * completed + total, 2 * total;
    DivBounds(n, d);
    var m := total * rate;
    assert d * rate == 2 * m;
    assert (2 * rate - 1) * total == 2 * m - total;
    assert (2 * rate + 1) * total == 2 * m + total;
    assert 200 * completed <= 200 * total;
    assert d * rate < d * 101;
    CancelLess(d, rate, 101);
    if completed == total {
      CancelLess(total, 200, 2 * rate + 1);
    }
  }

  lemma DivBounds(n: int, d: int)
    requires 0 <= n && 0 < d
    ensures 0 <= n / d && d * (n / d) <= n < d * (n / d) + d
  {
  }

  lemma CancelLess(d: int, a: int, b: int)
    requires 0 < d && d * a < d * b
    ensures a < b
  {
  }

  /** The four stat cards. */
  datatype Stats = Stats(total: int, completedCount: int, pendingCount: int, completionRate: int)

  predicate IsDone<Id>(t: Task<Id>) {
    t.completed
  }

  /** The number of completed tasks, counted one record at a time. */
  ghost function CountCompleted<Id>(tasks: seq<Task<Id>>): nat {
    if tasks == [] then 0 else (if tasks[0].completed then 1 else 0) + CountCompleted(tasks[1..])
  }

  /** `tasks.filter((t) => t.completed).length` counts the completed tasks. */
  lemma {:induction false} KeepDoneCount<Id(!new)>(tasks: seq<Task<Id>>)
    ensures |Keep(tasks, IsDone)| == CountCompleted(tasks)
  {
    if tasks != [] {
      KeepDoneCount(tasks[1..]);
    }
  }

  function ComputeStats<Id(==,!new)>(tasks: seq<Task<Id>>): (s: Stats)
    ensures s.total == |tasks|
    ensures s.completedCount == CountCompleted(tasks)
    ensures 0 <= s.completedCount && 0 <= s.pendingCount
    ensures s.completedCount + s.pendingCount == s.total
    ensures s.completedCount == 0 <==> forall t :: t in tasks ==> !t.completed
    ensures s.completedCount == s.total <==> forall t :: t in tasks ==> t.completed
    ensures 0 <= s.completionRate <= 100
    ensures s.total == 0 ==> s.completionRate == 0
    ensures s.total > 0 && s.completedCount == s.total ==> s.completionRate == 100
    ensures s.completionRate == CompletionRate(s.completedCount, s.total)
  {
    var total := |tasks|;
    var done := Keep(tasks, IsDone);
    assert done == [] <==> |done| == 0;
    KeepDoneCount(tasks);
    KeepFull(tasks, IsDone);
    Stats(total, |done|, total - |done|, CompletionRate(|done|, total))
  }

  /** Prepending an unfinished task (what a successful offline add does)
      raises the total and the pending count by one and keeps the completed count. */
  lemma PrependPendingStats<Id(!new)>(t: Task<Id>, tasks: seq<Task<Id>>)
    requires !t.completed
    ensures ComputeStats([t] + tasks).total == ComputeStats(tasks).total + 1
    ensures ComputeStats([t] + tasks).completedCount == ComputeStats(tasks).completedCount
    ensures ComputeStats([t] + tasks).pendingCount == ComputeStats(tasks).pendingCount + 1
  {
  }
}
