/**
  The settings page: the read-only task summary, "clear completed tasks" with
  its caption, and the notification switches.
 */
module Settings {
  import opened Seqs
  import opened Types
  import opened TaskStore
  import Board

  // ----- task summary -----

  /** The three figures of the profile summary. */
  datatype Summary = Summary(total: nat, completed: nat, inProgress: nat)

  /** Total, finished and in-progress task counts. */
  function TaskSummary(ts: seq<Task>): (s: Summary)
    ensures s.total == |ts|
    ensures s.completed + s.inProgress <= s.total
  {
    Board.ColumnCountsAddUp(ts);
    Summary(|ts|, |Column(ts, Done)|, |Column(ts, InProgress)|)
  }

  /** The summary agrees with the board's column headers. */
  lemma SummaryMatchesBoard(ts: seq<Task>)
    ensures var s, cs := TaskSummary(ts), Board.Columns(ts);
            s.completed == cs[2].count && s.inProgress == cs[1].count
            && s.total == cs[0].count + cs[1].count + cs[2].count
  {
    Board.ColumnsCoverStatuses(ts);
  }

  // ----- clear completed -----

  /** The ids of a task list, in order. */
  function Ids(ts: seq<Task>): (ids: seq<TaskId>)
    ensures |ids| == |ts|
    ensures forall t :: t in ts ==> t.id in ids
  {
    if |ts| == 0 then [] else [ts[0].id] + Ids(ts[1..])
  }

  /** The ids of `ts` are exactly the ids of its tasks. */
  lemma {:induction false} IdsAreTaskIds(ts: seq<Task>, id: TaskId)
    ensures id in Ids(ts) <==> exists t :: t in ts && t.id == id
  {
    if |ts| > 0 {
      IdsAreTaskIds(ts[1..], id);
      if id in Ids(ts[1..]) {
        var t :| t in ts[1..] && t.id == id;
        assert t in ts;
      }
    }
  }

  /** Deleting each id in turn, each deletion seeing the list the previous one left. */
  function DeleteAll(ts: seq<Task>, ids: seq<TaskId>): (r: seq<Task>)
    ensures |r| <= |ts|
    ensures forall t :: t in r <==> t in ts && t.id !in ids
    decreases |ids|
  {
    if |ids| == 0 then ts else DeleteAll(DeleteTask(ts, ids[0]), ids[1..])
  }

  /** Keeps the tasks whose id is not listed. */
  function IdNotIn(ids: seq<TaskId>): Task -> bool
  {
    (t: Task) => t.id !in ids
  }

  /** Deleting a list of ids one by one is one order-preserving filter. */
  lemma {:induction false} DeleteAllIsFilter(ts: seq<Task>, ids: seq<TaskId>)
    ensures DeleteAll(ts, ids) == Filter(IdNotIn(ids), ts)
    decreases |ids|
  {
    if |ids| == 0 {
      FilterKeepsAll(IdNotIn(ids), ts);
    } else {
      DeleteAllIsFilter(DeleteTask(ts, ids[0]), ids[1..]);
      FilterFilter(IdNotIn(ids[1..]), IdIsNot(ids[0]), IdNotIn(ids), ts);
    }
  }

  /** The "clear completed" button: after the confirmation dialog is accepted,
      deletes the id of every finished task in turn. */
  function ClearCompleted(ts: seq<Task>, confirmed: bool): (r: seq<Task>)
    ensures !confirmed ==> r == ts
    ensures confirmed ==> forall t :: t in r ==> t in ts && t.status != Done
  {
    if confirmed then
      var done := Column(ts, Done);
      assert forall t :: t in done ==> t.id in Ids(done);
      DeleteAll(ts, Ids(done))
    else ts
  }

  function NotDone(t: Task): bool
  {
    t.status != Done
  }

  /** With unique ids, clearing keeps every unfinished task, in its original
      order, and nothing else. */
  lemma {:induction false} ClearCompletedKeepsOthers(ts: seq<Task>)
    requires UniqueIds(ts)
    ensures ClearCompleted(ts, true) == Filter(NotDone, ts)
  {
    var done := Column(ts, Done);
    var ids := Ids(done);
    DeleteAllIsFilter(ts, ids);
    forall t | t in ts
      ensures IdNotIn(ids)(t) == NotDone(t)
    {
      IdsAreTaskIds(done, t.id);
      if t.id in ids {
        var u :| u in done && u.id == t.id;
        assert u in ts;
        SameIdSameTask(ts, t, u);
      } else {
        assert t.status == Done ==> t in done;
      }
    }
    FilterAgree(IdNotIn(ids), NotDone, ts);
  }

  /** Clearing a list with no finished task changes nothing. */
  lemma {:induction false} ClearCompletedWithoutDoneIsNoOp(ts: seq<Task>, confirmed: bool)
    requires Column(ts, Done) == []
    ensures ClearCompleted(ts, confirmed) == ts
  {
    assert Ids([]) == [];
  }

  /** After clearing, the summary shows no finished task and the total drops by
      the old finished count. */
  lemma {:induction false} ClearCompletedSummary(ts: seq<Task>)
    requires UniqueIds(ts)
    ensures var before, after := TaskSummary(ts), TaskSummary(ClearCompleted(ts, true));
            after.completed == 0 && after.total == before.total - before.completed
            && after.inProgress == before.inProgress
  {
    var r := ClearCompleted(ts, true);
    ClearCompletedKeepsOthers(ts);
    NotDoneCount(ts);
    FilterDropsAll(HasStatus(Done), r);
    FilterFilter(HasStatus(InProgress), NotDone, HasStatus(InProgress), ts);
    assert |Column(r, InProgress)| == |Column(ts, InProgress)|;
  }

  /** The unfinished tasks are the list minus its Done column. */
  lemma {:induction false} NotDoneCount(ts: seq<Task>)
    ensures |Filter(NotDone, ts)| == |ts| - |Column(ts, Done)|
  {
    if |ts| > 0 {
      NotDoneCount(ts[1..]);
    }
  }

  /** The noun in "Remove all N completed task(s) permanently". */
  function TaskNoun(n: int): (noun: string)
    ensures noun == "task" <==> n == 1
    ensures noun == "tasks" <==> n != 1
  {
    "task" + (if n != 1 then "s" else "")
  }

  // ----- notification switches -----

  datatype NotifKey = TaskUpdates | DueDateReminders | NewComments | WeeklyDigest

  /** The four switches of the notifications section. */
  datatype Notifs = Notifs(taskUpdates: bool, dueDateReminders: bool, newComments: bool, weeklyDigest: bool)

  /** On when the page opens: all but new comments. */
  const InitialNotifs: Notifs := Notifs(true, true, false, true)

  function Get(n: Notifs, k: NotifKey): bool
  {
    match k
    case TaskUpdates => n.taskUpdates
    case DueDateReminders => n.dueDateReminders
    case NewComments => n.newComments
    case WeeklyDigest => n.weeklyDigest
  }

  /** Clicking one switch flips that key and no other. */
  function Toggle(n: Notifs, k: NotifKey): (r: Notifs)
    ensures Get(r, k) == !Get(n, k)
    ensures forall other :: other != k ==> Get(r, other) == Get(n, other)
  {
    match k
    case TaskUpdates => n.(taskUpdates := !n.taskUpdates)
    case DueDateReminders => n.(dueDateReminders := !n.dueDateReminders)
    case NewComments => n.(newComments := !n.newComments)
    case WeeklyDigest => n.(weeklyDigest := !n.weeklyDigest)
  }

  /** Two switches are determined by their four readings. */
  lemma {:induction false} NotifsByKeys(a: Notifs, b: Notifs)
    requires forall k :: Get(a, k) == Get(b, k)
    ensures a == b
  {
    assert Get(a, TaskUpdates) == Get(b, TaskUpdates);
    assert Get(a, DueDateReminders) == Get(b, DueDateReminders);
    assert Get(a, NewComments) == Get(b, NewComments);
    assert Get(a, WeeklyDigest) == Get(b, WeeklyDigest);
  }

  /** Clicking the same switch twice restores every setting, and clicks on two
      switches commute. */
  lemma {:induction false} ToggleLaws(n: Notifs, a: NotifKey, b: NotifKey)
    ensures Toggle(Toggle(n, a), a) == n
    ensures Toggle(Toggle(n, a), b) == Toggle(Toggle(n, b), a)
  {
    NotifsByKeys(Toggle(Toggle(n, a), a), n);
    NotifsByKeys(Toggle(Toggle(n, a), b), Toggle(Toggle(n, b), a));
  }

  /** Starting from the initial switches, only new comments is off. */
  lemma InitialNotifsOffOnlyNewComments(k: NotifKey)
    ensures !Get(InitialNotifs, k) <==> k == NewComments
  {
  }
}
