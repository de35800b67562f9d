/** The task list of static/scripts.js: the `tasks` array of
    `{name, duration, completed, subTasks}` records, changed in place by the
    add, delete, toggle and sub-task handlers. The array is the `tasks` field
    of a `TaskList`, which its methods reassign; the records are values
    inside it (nothing else holds a reference to them). What the user types
    in a `prompt` and what the sub-task service replies are parameters. */
module Tasks {
  import opened Optional

  datatype SubTask = SubTask(name: string, completed: bool)

  /** `duration` is the text of the duration selector; only `"long"` has a
      meaning. */
  datatype Task = Task(name: string, duration: string, completed: bool, subTasks: seq<SubTask>)

  const Long := "long"

  /** How `addSubTask` ended: a sub-task was appended, the prompt was
      cancelled or left empty, or the task is not long (the alert). */
  datatype SubTaskOutcome = Added | Cancelled | NotLong

  function Names(subs: seq<SubTask>): (names: seq<string>)
    ensures |names| == |subs|
  {
    seq(|subs|, k requires 0 <= k < |subs| => subs[k].name)
  }

  /** The sub-tasks after the `forEach` that marks each one completed. */
  function Completed(subs: seq<SubTask>): (r: seq<SubTask>)
    ensures |r| == |subs|
    ensures forall k :: 0 <= k < |r| ==> r[k].name == subs[k].name && r[k].completed
  {
    if subs == [] then [] else [subs[0].(completed := true)] + Completed(subs[1..])
  }

  /** The `forEach` loop of `toggleTaskCompletion`, one sub-task at a time. */
  method CompleteAll(subs: seq<SubTask>) returns (r: seq<SubTask>)
    ensures r == Completed(subs)
  {
    r := subs;
    var i := 0;
    while i < |r|
      invariant 0 <= i <= |r| == |subs|
      invariant forall k :: 0 <= k < i ==> r[k] == SubTask(subs[k].name, true)
      invariant forall k :: i <= k < |r| ==> r[k] == subs[k]
    {
      r := r[i := r[i].(completed := true)];
      i := i + 1;
    }
  }

  /** `toggleTaskCompletion` on one task: the flag flips; completing the
      task completes every sub-task, un-completing it leaves them alone. */
  function ToggleTask(t: Task): (r: Task)
    ensures r.completed == !t.completed
    ensures r.name == t.name && r.duration == t.duration
    ensures Names(r.subTasks) == Names(t.subTasks)
    ensures r.completed ==> forall k :: 0 <= k < |r.subTasks| ==> r.subTasks[k].completed
    ensures !r.completed ==> r.subTasks == t.subTasks
  {
    var flipped := t.(completed := !t.completed);
    if flipped.completed then flipped.(subTasks := Completed(t.subTasks)) else flipped
  }

  /** The cascade is one-way: toggling twice restores the task's own flag
      but leaves every sub-task completed, whichever way it started. */
  lemma ToggleTwice(t: Task)
    ensures ToggleTask(ToggleTask(t)) == t.(subTasks := Completed(t.subTasks))
  {
    if t.completed {
      assert ToggleTask(t).subTasks == t.subTasks;
    } else {
      CompletedIdempotent(t.subTasks);
    }
  }

  lemma CompletedIdempotent(subs: seq<SubTask>)
    ensures Completed(Completed(subs)) == Completed(subs)
  {
    var once := Completed(subs);
    var twice := Completed(once);
    assert forall k :: 0 <= k < |subs| ==> twice[k] == once[k];
  }

  /** `toggleSubTaskCompletion` on one task: exactly sub-task `j` flips. */
  function ToggleSubTask(t: Task, j: nat): (r: Task)
    requires j < |t.subTasks|
    ensures r.name == t.name && r.duration == t.duration && r.completed == t.completed
    ensures |r.subTasks| == |t.subTasks|
    ensures r.subTasks[j] == SubTask(t.subTasks[j].name, !t.subTasks[j].completed)
    ensures forall k :: 0 <= k < |t.subTasks| && k != j ==> r.subTasks[k] == t.subTasks[k]
  {
    var s := t.subTasks[j];
    t.(subTasks := t.subTasks[j := s.(completed := !s.completed)])
  }

  /** Toggling the same sub-task twice is no change at all. */
  lemma ToggleSubTaskTwice(t: Task, j: nat)
    requires j < |t.subTasks|
    ensures ToggleSubTask(ToggleSubTask(t, j), j) == t
  {
    var back := ToggleSubTask(ToggleSubTask(t, j), j);
    assert back.subTasks == t.subTasks;
  }

  /** `addSubTask` on one task: with a long task and a non-empty name from
      the prompt, one incomplete sub-task is appended; otherwise nothing
      changes. */
  function WithSubTask(t: Task, entered: Option<string>): (r: (SubTaskOutcome, Task))
    ensures r.0 == NotLong <==> t.duration != Long
    ensures r.0 == Added <==> t.duration == Long && entered.Some? && entered.value != ""
    ensures r.0 != Added ==> r.1 == t
    ensures r.0 == Added ==>
              r.1.name == t.name && r.1.duration == t.duration && r.1.completed == t.completed &&
              r.1.subTasks == t.subTasks + [SubTask(entered.value, false)]
  {
    if t.duration == "long" then
      match entered
      case Some(name) =>
        if name != "" then (Added, t.(subTasks := t.subTasks + [SubTask(name, false)]))
        else (Cancelled, t)
      case None => (Cancelled, t)
    else (NotLong, t)
  }

  /** `tasks.splice(i, 1)` for a non-negative `i`: element `i` is removed
      and the later ones move down by one; past the end nothing happens. */
  function RemoveAt(tasks: seq<Task>, i: nat): (r: seq<Task>)
    ensures i < |tasks| ==> |r| == |tasks| - 1
    ensures i >= |tasks| ==> r == tasks
    ensures forall k :: 0 <= k < i && k < |r| ==> r[k] == tasks[k]
    ensures forall k :: i <= k < |r| ==> r[k] == tasks[k + 1]
  {
    if i < |tasks| then tasks[..i] + tasks[i + 1..] else tasks
  }

  /** Removal loses exactly the removed task: putting it back where it was
      restores the list. */
  lemma RemoveThenReinsert(tasks: seq<Task>, i: nat)
    requires i < |tasks|
    ensures RemoveAt(tasks, i)[..i] + [tasks[i]] + RemoveAt(tasks, i)[i..] == tasks
  {
    var r := RemoveAt(tasks, i);
    var back := r[..i] + [tasks[i]] + r[i..];
    assert forall k :: 0 <= k < |tasks| ==> back[k] == tasks[k];
  }

  /** Sub-tasks made from the service's names, all incomplete, in order. */
  function FreshSubTasks(names: seq<string>): (r: seq<SubTask>)
    ensures Names(r) == names
    ensures forall k :: 0 <= k < |r| ==> !r[k].completed
  {
    seq(|names|, k requires 0 <= k < |names| => SubTask(names[k], false))
  }

  /** The reply handler of `generateSubTasksForTask` and
      `addSubTasksAutomatically`. With a list of names (`Some`) the task at
      `i` gets exactly those names as incomplete sub-tasks, its earlier
      sub-tasks dropped. A failed request, or an index that no longer names
      a task (the handler throws and the error is caught), changes
      nothing. No other task changes in any case. */
  function WithGenerated(tasks: seq<Task>, i: nat, reply: Option<seq<string>>): (r: seq<Task>)
    ensures |r| == |tasks|
    ensures forall k :: 0 <= k < |tasks| && k != i ==> r[k] == tasks[k]
    ensures reply.None? || i >= |tasks| ==> r == tasks
    ensures reply.Some? && i < |tasks| ==>
              r[i].name == tasks[i].name && r[i].duration == tasks[i].duration &&
              r[i].completed == tasks[i].completed &&
              Names(r[i].subTasks) == reply.value &&
              forall k :: 0 <= k < |r[i].subTasks| ==> !r[i].subTasks[k].completed
  {
    match reply
    case Some(names) =>
      if i < |tasks| then tasks[i := tasks[i].(subTasks := FreshSubTasks(names))] else tasks
    case None => tasks
  }

  /** `tasks.findIndex(task => task.duration === 'long')`. */
  function FirstLong(tasks: seq<Task>): (idx: int)
    ensures -1 <= idx < |tasks|
    ensures idx == -1 <==> forall k :: 0 <= k < |tasks| ==> tasks[k].duration != Long
    ensures idx >= 0 ==> tasks[idx].duration == Long &&
                         forall k :: 0 <= k < idx ==> tasks[k].duration != Long
  {
    if tasks == [] then -1
    else if tasks[0].duration == "long" then 0
    else
      var rest := FirstLong(tasks[1..]);
      if rest == -1 then -1 else rest + 1
  }

  /** The `tasks` array. */
  class TaskList {
    var tasks: seq<Task>

    constructor ()
      ensures tasks == []
    {
      tasks := [];
    }

    /** `addTask`: the input fields' values are passed in. */
    method AddTask(name: string, duration: string)
      modifies this
      ensures tasks == old(tasks) + [Task(name, duration, false, [])]
    {
      var task := Task(name, duration, false, []);
      tasks := tasks + [task];
    }

    /** `addSubTask`: `entered` is what the prompt returned (`None` when
        cancelled). */
    method AddSubTask(i: nat, entered: Option<string>) returns (outcome: SubTaskOutcome)
      requires i < |tasks|
      modifies this
      ensures |tasks| == |old(tasks)|
      ensures (outcome, tasks[i]) == WithSubTask(old(tasks)[i], entered)
      ensures tasks == old(tasks)[i := tasks[i]]
    {
      if tasks[i].duration == "long" {
        if entered.Some? && entered.value != "" {
          var t := tasks[i];
          tasks := tasks[i := t.(subTasks := t.subTasks + [SubTask(entered.value, false)])];
          outcome := Added;
        } else {
          outcome := Cancelled;
        }
      } else {
        outcome := NotLong;
      }
    }

    method ToggleTaskCompletion(i: nat)
      requires i < |tasks|
      modifies this
      ensures tasks == old(tasks)[i := ToggleTask(old(tasks)[i])]
    {
      var t := tasks[i];
      t := t.(completed := !t.completed);
      if t.completed {
        var subs := CompleteAll(t.subTasks);
        t := t.(subTasks := subs);
      }
      tasks := tasks[i := t];
    }

    method ToggleSubTaskCompletion(i: nat, j: nat)
      requires i < |tasks| && j < |tasks[i].subTasks|
      modifies this
      ensures tasks == old(tasks)[i := ToggleSubTask(old(tasks)[i], j)]
    {
      var t := tasks[i];
      var s := t.subTasks[j];
      tasks := tasks[i := t.(subTasks := t.subTasks[j := s.(completed := !s.completed)])];
    }

    /** `deleteTask`. */
    method DeleteTask(i: nat)
      modifies this
      ensures tasks == RemoveAt(old(tasks), i)
    {
      if i < |tasks| {
        tasks := tasks[..i] + tasks[i + 1..];
      }
    }

    /** What `generateSubTasksForTask` sends: the task's name. */
    method GenerationRequest(i: nat) returns (description: string)
      requires i < |tasks|
      ensures description == tasks[i].name
    {
      description := tasks[i].name;
    }

    /** The task `addSubTasksAutomatically` asks sub-tasks for: the first
        long one, or -1 (the alert) when there is none. */
    method AutoGenerationTarget() returns (idx: int)
      ensures -1 <= idx < |tasks|
      ensures idx >= 0 ==> tasks[idx].duration == Long
      ensures idx >= 0 ==> forall k :: 0 <= k < idx ==> tasks[k].duration != Long
      ensures idx == -1 <==> forall k :: 0 <= k < |tasks| ==> tasks[k].duration != Long
      ensures idx == FirstLong(tasks)
    {
      idx := FirstLong(tasks);
    }

    /** The reply to a sub-task request for index `i`, applied when it
        arrives (the list may have changed since the request). */
    method ApplyGenerated(i: nat, reply: Option<seq<string>>)
      modifies this
      ensures tasks == WithGenerated(old(tasks), i, reply)
    {
      if reply.Some? && i < |tasks| {
        var generated := FreshSubTasks(reply.value);
        tasks := tasks[i := tasks[i].(subTasks := generated)];
      }
    }
  }
}
