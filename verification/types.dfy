/**
  The records of the kanban board: a task, the project it names, the three
  board statuses, and the store invariants stated over a task list.
 */
module Types {

  datatype Option<T> = None | Some(value: T)

  /** The closed set of board columns. */
  datatype Status = Todo | InProgress | Done

  /** The spelling of a status in stored tasks and as a drop-zone id. */
  function StatusName(s: Status): string
  {
    match s
    case Todo => "todo"
    case InProgress => "in-progress"
    case Done => "done"
  }

  /** Reads a status spelling back; anything but the three spellings is rejected. */
  function ParseStatus(name: string): (r: Option<Status>)
    ensures r.Some? ==> StatusName(r.value) == name
  {
    if name == "todo" then Some(Todo)
    else if name == "in-progress" then Some(InProgress)
    else if name == "done" then Some(Done)
    else None
  }

  /** The three spellings are exactly the statuses: parsing inverts naming. */
  lemma {:induction false} StatusNameRoundTrip(s: Status)
    ensures ParseStatus(StatusName(s)) == Some(s)
  {
    match s
    case Todo =>
    case InProgress =>
    case Done =>
  }

  type TaskId = string

  /** A card on the board. `projectName` refers to a project by its name, not by its id. */
  datatype Task = Task(
    id: TaskId,
    title: string,
    description: string,
    status: Status,
    progress: int,
    dueDate: string,
    comments: int,
    attachments: int,
    assignees: seq<string>,
    projectName: string)

  /** A task before the store has given it an id. */
  datatype TaskDraft = TaskDraft(
    title: string,
    description: string,
    status: Status,
    progress: int,
    dueDate: string,
    comments: int,
    attachments: int,
    assignees: seq<string>,
    projectName: string)

  /** A project; `taskCount` is stored, not derived from the task list. */
  datatype Project = Project(id: string, name: string, taskCount: int)

  /** The task a draft becomes once the store supplies `id`. */
  function FromDraft(d: TaskDraft, id: TaskId): (t: Task)
    ensures t.id == id
    ensures t.title == d.title && t.description == d.description
    ensures t.status == d.status && t.progress == d.progress && t.dueDate == d.dueDate
    ensures t.comments == d.comments && t.attachments == d.attachments
    ensures t.assignees == d.assignees && t.projectName == d.projectName
  {
    Task(id, d.title, d.description, d.status, d.progress, d.dueDate,
         d.comments, d.attachments, d.assignees, d.projectName)
  }

  /** No two tasks of the list share an id. */
  ghost predicate UniqueIds(ts: seq<Task>)
  {
    forall i, j :: 0 <= i < |ts| && 0 <= j < |ts| && ts[i].id == ts[j].id ==> i == j
  }

  /** Every progress value is a percentage. */
  ghost predicate ProgressInRange(ts: seq<Task>)
  {
    forall t :: t in ts ==> 0 <= t.progress <= 100
  }

  /** Every finished task shows full progress. */
  ghost predicate DoneComplete(ts: seq<Task>)
  {
    forall t :: t in ts && t.status == Done ==> t.progress == 100
  }

  /** In a list with unique ids, a task is determined by its id. */
  lemma {:induction false} SameIdSameTask(ts: seq<Task>, a: Task, b: Task)
    requires UniqueIds(ts) && a in ts && b in ts && a.id == b.id
    ensures a == b
  {
    var i :| 0 <= i < |ts| && ts[i] == a;
    var j :| 0 <= j < |ts| && ts[j] == b;
  }

  /** Ids stay unique in any slice. */
  lemma {:induction false} UniqueIdsSlice(ts: seq<Task>, lo: int, hi: int)
    requires UniqueIds(ts) && 0 <= lo <= hi <= |ts|
    ensures UniqueIds(ts[lo..hi])
  {
    var s := ts[lo..hi];
    forall i, j | 0 <= i < |s| && 0 <= j < |s| && s[i].id == s[j].id
      ensures i == j
    {
      assert s[i] == ts[lo + i] && s[j] == ts[lo + j];
    }
  }

  /** Ids stay unique when two lists with disjoint ids are joined. */
  lemma {:induction false} UniqueIdsConcat(a: seq<Task>, b: seq<Task>)
    requires UniqueIds(a) && UniqueIds(b)
    requires forall x, y :: x in a && y in b ==> x.id != y.id
    ensures UniqueIds(a + b)
  {
    var s := a + b;
    forall i, j | 0 <= i < |s| && 0 <= j < |s| && s[i].id == s[j].id
      ensures i == j
    {
      if i < |a| {
        assert s[i] == a[i];
      } else {
        assert s[i] == b[i - |a|];
      }
      if j < |a| {
        assert s[j] == a[j];
      } else {
        assert s[j] == b[j - |a|];
      }
    }
  }

  /** Inserting a task whose id is new keeps the ids unique. */
  lemma {:induction false} UniqueIdsInsert(s: seq<Task>, j: int, u: Task)
    requires UniqueIds(s) && 0 <= j <= |s|
    requires forall x :: x in s ==> x.id != u.id
    ensures UniqueIds(s[..j] + [u] + s[j..])
  {
    var r := s[..j] + [u] + s[j..];
    assert forall c :: 0 <= c < j ==> r[c] == s[c];
    assert forall c :: j < c < |r| ==> r[c] == s[c - 1];
    assert r[j] == u;
    forall a, b | 0 <= a < |r| && 0 <= b < |r| && r[a].id == r[b].id
      ensures a == b
    {
      if a != j && b != j {
        var a', b' := if a < j then a else a - 1, if b < j then b else b - 1;
        assert s[a'].id == s[b'].id;
      }
    }
  }
}
