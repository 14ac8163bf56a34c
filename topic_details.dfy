/** The task operations of the topic detail view. Each one builds a new topic value from the
    old one (a spread with a mapped or filtered task array) and hands it to the update callback;
    `None` stands for "the callback is not called". */
module TopicDetails {
  import opened Types
  import opened Lists
  import opened Strings

  /** The task `addTask` creates: not completed, medium priority, empty notes, no deadline. */
  function NewTask(id: Id, title: string): Task
  {
    Task(id, title, false, Medium, Some(""), None)
  }

  /** `addTask`: ignore a blank title, otherwise append one new task at the end. */
  function AddTask(topic: Topic, title: string, id: Id): (r: Option<Topic>)
    ensures r.None? <==> IsBlank(title)
    ensures r.Some? ==> r.value.(tasks := topic.tasks) == topic
    ensures r.Some? ==>
              && |r.value.tasks| == |topic.tasks| + 1
              && r.value.tasks[..|topic.tasks|] == topic.tasks
              && r.value.tasks[|topic.tasks|] == NewTask(id, title)
  {
    if IsBlank(title) then None
    else Some(topic.(tasks := topic.tasks + [NewTask(id, title)]))
  }

  /** The completion toggle of one task, applied to every task carrying `id`. */
  function Toggled(ts: seq<Task>, id: Id): (r: seq<Task>)
    ensures |r| == |ts|
    ensures forall i :: 0 <= i < |ts| ==>
              r[i] == if ts[i].id == id then ts[i].(completed := !ts[i].completed) else ts[i]
  {
    if ts == [] then []
    else
      var t := ts[0];
      [if t.id == id then t.(completed := !t.completed) else t] + Toggled(ts[1..], id)
  }

  /** Task checkbox: flip `completed` on the task with this id. */
  function ToggleTask(topic: Topic, id: Id): (r: Topic)
    ensures r.(tasks := topic.tasks) == topic
    ensures |r.tasks| == |topic.tasks|
    ensures forall i :: 0 <= i < |topic.tasks| ==>
              r.tasks[i].(completed := topic.tasks[i].completed) == topic.tasks[i]
              && (r.tasks[i].completed != topic.tasks[i].completed <==> topic.tasks[i].id == id)
  {
    topic.(tasks := Toggled(topic.tasks, id))
  }

  /** Toggling the same task twice restores the topic. */
  lemma ToggleTwice(topic: Topic, id: Id)
    ensures ToggleTask(ToggleTask(topic, id), id) == topic
  {
    var r := ToggleTask(ToggleTask(topic, id), id);
    assert r.tasks == topic.tasks;
  }

  /** Trash button: drop every task with this id, keeping the others in order. */
  function DeleteTask(topic: Topic, id: Id): (r: Topic)
    ensures r.(tasks := topic.tasks) == topic
    ensures |r.tasks| <= |topic.tasks|
  {
    topic.(tasks := Filter(topic.tasks, (t: Task) => t.id != id))
  }

  /** After a delete no task carries the id, and every task with another id is still there. */
  lemma DeleteTaskFacts(topic: Topic, id: Id)
    ensures forall i :: 0 <= i < |DeleteTask(topic, id).tasks| ==> DeleteTask(topic, id).tasks[i].id != id
    ensures forall i :: 0 <= i < |topic.tasks| && topic.tasks[i].id != id ==>
              topic.tasks[i] in DeleteTask(topic, id).tasks
  {
    FilterSound(topic.tasks, (t: Task) => t.id != id);
    FilterComplete(topic.tasks, (t: Task) => t.id != id);
  }

  /** With distinct task ids, deleting the task at position `i` removes exactly that task. */
  lemma DeleteTaskRemovesOne(topic: Topic, i: nat)
    requires i < |topic.tasks|
    requires forall j, k :: 0 <= j < k < |topic.tasks| ==> topic.tasks[j].id != topic.tasks[k].id
    ensures DeleteTask(topic, topic.tasks[i].id).tasks == topic.tasks[..i] + topic.tasks[i + 1..]
  {
    var ts := topic.tasks;
    FilterDropsOne(ts, (t: Task) => t.id != ts[i].id, i);
  }

  /** Deleting a freshly added task gives back the topic it was added to. */
  lemma DeleteUndoesAdd(topic: Topic, title: string, id: Id)
    requires !IsBlank(title)
    requires forall i :: 0 <= i < |topic.tasks| ==> topic.tasks[i].id != id
    ensures DeleteTask(AddTask(topic, title, id).value, id) == topic
  {
    var keep := (t: Task) => t.id != id;
    FilterAppend(topic.tasks, [NewTask(id, title)], keep);
    FilterKeepsAll(topic.tasks, keep);
  }

  /** Notes save, applied to every task carrying `id`. */
  function WithNotes(ts: seq<Task>, id: Id, notes: string): (r: seq<Task>)
    ensures |r| == |ts|
    ensures forall i :: 0 <= i < |ts| ==>
              r[i] == if ts[i].id == id then ts[i].(notes := Some(notes)) else ts[i]
  {
    if ts == [] then []
    else
      var t := ts[0];
      [if t.id == id then t.(notes := Some(notes)) else t] + WithNotes(ts[1..], id, notes)
  }

  /** Notes panel "Save": set the notes of the task with this id. */
  function SaveTaskNotes(topic: Topic, id: Id, notes: string): (r: Topic)
    ensures r.(tasks := topic.tasks) == topic
    ensures |r.tasks| == |topic.tasks|
    ensures forall i :: 0 <= i < |topic.tasks| ==>
              r.tasks[i].(notes := topic.tasks[i].notes) == topic.tasks[i]
              && (topic.tasks[i].id == id ==> r.tasks[i].notes == Some(notes))
              && (topic.tasks[i].id != id ==> r.tasks[i] == topic.tasks[i])
  {
    topic.(tasks := WithNotes(topic.tasks, id, notes))
  }

  /** Saving notes is idempotent, and a second save overrides the first. */
  lemma SaveNotesLastWins(topic: Topic, id: Id, a: string, b: string)
    ensures SaveTaskNotes(SaveTaskNotes(topic, id, a), id, b) == SaveTaskNotes(topic, id, b)
  {
    var r := SaveTaskNotes(SaveTaskNotes(topic, id, a), id, b);
    assert r.tasks == SaveTaskNotes(topic, id, b).tasks;
  }
}
