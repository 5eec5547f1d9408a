/**
  The task store: one flat, ordered task list, the projects with their cached
  task counts, and the updaters the store applies to them (adding, changing
  status, deleting). The drag-and-drop resolver lives in module `Reorder`.
 */
module TaskStore {
  import opened Seqs
  import opened Types

  /** Both lists the store owns. */
  datatype Store = Store(tasks: seq<Task>, projects: seq<Project>)

  function HasStatus(s: Status): Task -> bool { (t: Task) => t.status == s }
  function HasId(id: TaskId): Task -> bool { (t: Task) => t.id == id }
  function IdIsNot(id: TaskId): Task -> bool { (t: Task) => t.id != id }
  function InProject(name: string): Task -> bool { (t: Task) => t.projectName == name }

  /** A board column: the tasks of one status, in flat-list order. */
  function Column(ts: seq<Task>, s: Status): (r: seq<Task>)
    ensures |r| <= |ts|
    ensures forall t {:trigger t in r} :: t in r <==> t in ts && t.status == s
  {
    Filter(HasStatus(s), ts)
  }

  /** The number of tasks that name project `name`. */
  function ProjectCount(ts: seq<Task>, name: string): (n: nat)
    ensures n <= |ts|
  {
    |Filter(InProject(name), ts)|
  }

  /** Every project's cached count equals the number of tasks that name it. */
  ghost predicate CountsConsistent(ts: seq<Task>, ps: seq<Project>)
  {
    forall i :: 0 <= i < |ps| ==> ps[i].taskCount == ProjectCount(ts, ps[i].name)
  }

  // ----- seed data -----

  const InitialTasks: seq<Task> := [
    Task("1", "Design new ui presentation", "Dribbble marketing", Todo, 70,
         "24 Aug 2022", 7, 2, [], "Design system"),
    Task("2", "Design system update", "Oreo website project", InProgress, 30,
         "12 Nov 2022", 0, 0, [], "Design system"),
    Task("3", "Add product to the market", "Ui8 marketplace", Done, 100,
         "6 Jan 2022", 1, 5, [], "Design system")
  ]

  const InitialProjects: seq<Project> := [
    Project("1", "Design system", 3),
    Project("2", "User flow", 0),
    Project("3", "Ux research", 0)
  ]

  const InitialStore: Store := Store(InitialTasks, InitialProjects)

  /** How many seed tasks name `name`, counted element by element. */
  lemma {:induction false} SeedProjectCount(name: string)
    ensures ProjectCount(InitialTasks, name)
         == (if name == "Design system" then 3 else 0)
  {
    var ts := InitialTasks;
    assert ts == [ts[0], ts[1], ts[2]];
    FilterThree(InProject(name), ts[0], ts[1], ts[2]);
  }

  /** The seed data satisfies every store invariant, the cached counts included. */
  lemma {:induction false} SeedIsConsistent()
    ensures UniqueIds(InitialStore.tasks)
    ensures ProgressInRange(InitialStore.tasks) && DoneComplete(InitialStore.tasks)
    ensures CountsConsistent(InitialStore.tasks, InitialStore.projects)
  {
    var ps := InitialProjects;
    forall i | 0 <= i < |ps|
      ensures ps[i].taskCount == ProjectCount(InitialTasks, ps[i].name)
    {
      SeedProjectCount(ps[i].name);
      assert i == 0 || i == 1 || i == 2;
    }
  }

  // ----- status change -----

  /** The status change shared by `updateTaskStatus` and the drag resolver:
      entering `done` forces full progress, any other status keeps it. */
  function WithStatus(t: Task, s: Status): (u: Task)
    ensures u.status == s
    ensures u.progress == (if s == Done then 100 else t.progress)
    ensures u.id == t.id && u.title == t.title && u.description == t.description
    ensures u.dueDate == t.dueDate && u.comments == t.comments && u.attachments == t.attachments
    ensures u.assignees == t.assignees && u.projectName == t.projectName
  {
    t.(status := s, progress := if s == Done then 100 else t.progress)
  }

  /** Changing a task to the status it already has is a no-op exactly when it
      does not drop a finished task's progress below 100. */
  lemma {:induction false} WithSameStatus(t: Task)
    ensures WithStatus(t, t.status) == t <==> (t.status != Done || t.progress == 100)
  {
  }

  /** `updateTaskStatus`: every task with the id gets the new status; the others are untouched. */
  function UpdateTaskStatus(ts: seq<Task>, id: TaskId, s: Status): (r: seq<Task>)
    ensures |r| == |ts|
    ensures forall i :: 0 <= i < |ts| && ts[i].id == id ==> r[i].status == s
    ensures forall i :: 0 <= i < |ts| && ts[i].id == id && s == Done ==> r[i].progress == 100
    ensures forall i :: 0 <= i < |ts| && ts[i].id == id && s != Done ==> r[i].progress == ts[i].progress
    ensures forall i :: 0 <= i < |ts| && ts[i].id == id ==> r[i] == WithStatus(ts[i], s)
    ensures forall i :: 0 <= i < |ts| && ts[i].id != id ==> r[i] == ts[i]
  {
    seq(|ts|, i requires 0 <= i < |ts| => if ts[i].id == id then WithStatus(ts[i], s) else ts[i])
  }

  /** An unknown id leaves the list as it was. */
  lemma {:induction false} UpdateUnknownIdIsNoOp(ts: seq<Task>, id: TaskId, s: Status)
    requires forall t :: t in ts ==> t.id != id
    ensures UpdateTaskStatus(ts, id, s) == ts
  {
    var r := UpdateTaskStatus(ts, id, s);
    assert forall i :: 0 <= i < |ts| ==> r[i] == ts[i];
  }

  /** A status change keeps the ids, the progress range and the done-means-100 coupling. */
  lemma {:induction false} UpdateKeepsInvariants(ts: seq<Task>, id: TaskId, s: Status)
    ensures var r := UpdateTaskStatus(ts, id, s);
      && (forall i :: 0 <= i < |ts| ==> r[i].id == ts[i].id)
      && (UniqueIds(ts) ==> UniqueIds(r))
      && (ProgressInRange(ts) ==> ProgressInRange(r))
      && (DoneComplete(ts) ==> DoneComplete(r))
  {
    var r := UpdateTaskStatus(ts, id, s);
    forall t | t in r
      ensures exists i :: 0 <= i < |ts| && r[i] == t
    {
    }
  }

  /** Applying the same status change twice is the same as applying it once. */
  lemma {:induction false} UpdateIdempotent(ts: seq<Task>, id: TaskId, s: Status)
    ensures UpdateTaskStatus(UpdateTaskStatus(ts, id, s), id, s) == UpdateTaskStatus(ts, id, s)
  {
  }

  // ----- deletion -----

  /** `deleteTask`: the tasks without the given id, in their original order.
      The projects and their cached counts are not touched. */
  function DeleteTask(ts: seq<Task>, id: TaskId): (r: seq<Task>)
    ensures forall t {:trigger t in r} :: t in r <==> t in ts && t.id != id
    ensures |r| <= |ts|
  {
    Filter(IdIsNot(id), ts)
  }

  /** Deletion keeps the order of the remaining tasks. */
  lemma {:induction false} DeleteKeepsOrder(ts: seq<Task>, id: TaskId)
    ensures IsSubsequence(DeleteTask(ts, id), ts)
  {
    FilterIsSubsequence(IdIsNot(id), ts);
  }

  /** Deleting an unknown id changes nothing. */
  lemma {:induction false} DeleteUnknownIdIsNoOp(ts: seq<Task>, id: TaskId)
    requires forall t :: t in ts ==> t.id != id
    ensures DeleteTask(ts, id) == ts
  {
    FilterKeepsAll(IdIsNot(id), ts);
  }

  /** With unique ids, deleting the task at position `k` cuts exactly that task out. */
  lemma {:induction false} DeleteAt(ts: seq<Task>, k: int)
    requires UniqueIds(ts) && 0 <= k < |ts|
    ensures DeleteTask(ts, ts[k].id) == ts[..k] + ts[k+1..]
  {
    forall i | 0 <= i < |ts| && i != k
      ensures IdIsNot(ts[k].id)(ts[i])
    {
    }
    FilterDropsOne(IdIsNot(ts[k].id), ts, k);
  }

  /** Any filter of a list with unique ids has unique ids. */
  lemma {:induction false} UniqueIdsFilter(p: Task -> bool, ts: seq<Task>)
    requires UniqueIds(ts)
    ensures UniqueIds(Filter(p, ts))
  {
    if |ts| != 0 {
      UniqueIdsSlice(ts, 1, |ts|);
      UniqueIdsFilter(p, ts[1..]);
      if p(ts[0]) {
        forall y | y in Filter(p, ts[1..])
          ensures ts[0].id != y.id
        {
          var j :| 0 <= j < |ts| - 1 && ts[1..][j] == y;
          assert ts[1 + j] == y;
        }
        UniqueIdsConcat([ts[0]], Filter(p, ts[1..]));
      }
    }
  }

  /** Deleting a task that names a listed project leaves that project's cached
      count one higher than the number of tasks still naming it. */
  lemma {:induction false} DeleteLeavesCountStale(ts: seq<Task>, ps: seq<Project>, k: int, i: int)
    requires UniqueIds(ts) && CountsConsistent(ts, ps)
    requires 0 <= k < |ts| && 0 <= i < |ps| && ps[i].name == ts[k].projectName
    ensures ps[i].taskCount == ProjectCount(DeleteTask(ts, ts[k].id), ps[i].name) + 1
  {
    var q := InProject(ps[i].name);
    DeleteAt(ts, k);
    FilterAt(q, ts, k);
    FilterConcat(q, ts[..k], ts[k+1..]);
  }

  /** On the seed data, deleting task "1" breaks the cached count of "Design system". */
  lemma {:induction false} DeleteBreaksSeedCounts()
    ensures !CountsConsistent(DeleteTask(InitialTasks, "1"), InitialProjects)
  {
    SeedIsConsistent();
    DeleteLeavesCountStale(InitialTasks, InitialProjects, 0, 0);
  }

  // ----- creation -----

  /** `addTask`: appends the draft with the id the caller supplies and bumps the
      cached count of every project whose name equals the draft's project name. */
  function AddTask(st: Store, d: TaskDraft, freshId: TaskId): (r: Store)
    ensures |r.tasks| == |st.tasks| + 1 && r.tasks[..|st.tasks|] == st.tasks
    ensures r.tasks[|st.tasks|] == FromDraft(d, freshId)
    ensures |r.projects| == |st.projects|
    ensures forall i :: 0 <= i < |st.projects| ==>
      && r.projects[i].id == st.projects[i].id
      && r.projects[i].name == st.projects[i].name
      && r.projects[i].taskCount
         == st.projects[i].taskCount + (if st.projects[i].name == d.projectName then 1 else 0)
  {
    Store(
      st.tasks + [FromDraft(d, freshId)],
      seq(|st.projects|, i requires 0 <= i < |st.projects| =>
        var p := st.projects[i];
        if p.name == d.projectName then p.(taskCount := p.taskCount + 1) else p))
  }

  /** Adding a task keeps every cached count in step with the task list. */
  lemma {:induction false} AddTaskKeepsCounts(st: Store, d: TaskDraft, freshId: TaskId)
    requires CountsConsistent(st.tasks, st.projects)
    ensures var r := AddTask(st, d, freshId); CountsConsistent(r.tasks, r.projects)
  {
    var r := AddTask(st, d, freshId);
    var t := FromDraft(d, freshId);
    forall i | 0 <= i < |r.projects|
      ensures r.projects[i].taskCount == ProjectCount(r.tasks, r.projects[i].name)
    {
      var q := InProject(st.projects[i].name);
      FilterConcat(q, st.tasks, [t]);
      FilterSingle(q, t);
    }
  }

  /** Adding a task under a fresh id keeps the ids unique; adding a well-formed
      draft keeps the progress invariants. */
  lemma {:induction false} AddTaskKeepsInvariants(st: Store, d: TaskDraft, freshId: TaskId)
    requires UniqueIds(st.tasks) && forall t :: t in st.tasks ==> t.id != freshId
    ensures UniqueIds(AddTask(st, d, freshId).tasks)
    ensures ProgressInRange(st.tasks) && 0 <= d.progress <= 100 ==>
      ProgressInRange(AddTask(st, d, freshId).tasks)
    ensures DoneComplete(st.tasks) && (d.status == Done ==> d.progress == 100) ==>
      DoneComplete(AddTask(st, d, freshId).tasks)
  {
    UniqueIdsConcat(st.tasks, [FromDraft(d, freshId)]);
  }
}
