/**
  The drag-and-drop resolver of the task store (`reorderTasks`). Indices are
  column indices: positions in the flat list filtered by one status. The
  resolver removes the dragged task by id, gives it the destination status,
  and splices it back at the flat-list position that puts it at the requested
  place of the destination column, leaving tasks of other statuses where they were.
 */
module Reorder {
  import opened Seqs
  import opened Types
  import opened TaskStore

  /** Where the moved task goes in `rem`, the list without it: just before the
      destination task now at column index `end`; just after the column's last
      task when `end` is past the end of the column; at the very end of the flat
      list when the column is empty. */
  function InsertionIndex(rem: seq<Task>, end: nat, dst: Status): (j: int)
    ensures 0 <= j <= |rem|
  {
    var destTasks := Column(rem, dst);
    if end < |destTasks| then
      assert destTasks[end] in destTasks;
      FindIndex(HasId(destTasks[end].id), rem)
    else if |destTasks| > 0 then
      assert destTasks[|destTasks| - 1] in destTasks;
      FindIndex(HasId(destTasks[|destTasks| - 1].id), rem) + 1
    else
      |rem|
  }

  /** `reorderTasks(startIndex, endIndex, sourceStatus, destinationStatus)`.
      A start index outside the source column leaves the list unchanged. */
  function ReorderTasks(ts: seq<Task>, start: int, end: nat, src: Status, dst: Status): (r: seq<Task>)
    ensures !(0 <= start < |Column(ts, src)|) ==> r == ts
    ensures 0 <= start < |Column(ts, src)| ==> WithStatus(Column(ts, src)[start], dst) in r
  {
    var sourceTasks := Column(ts, src);
    if !(0 <= start < |sourceTasks|) then ts
    else
      var dragged := sourceTasks[start];
      var remaining := DeleteTask(ts, dragged.id);
      var updated := WithStatus(dragged, dst);
      var j := InsertionIndex(remaining, end, dst);
      remaining[..j] + [updated] + remaining[j..]
  }

  // ----- how the splice position splits the destination column -----

  /** In a list with unique ids, a column entry is at the column index given
      by the number of column entries before it in the flat list. */
  lemma {:induction false} ColumnIndexOf(rem: seq<Task>, q: int, e: int, dst: Status)
    requires UniqueIds(rem) && 0 <= q < |rem| && 0 <= e < |Column(rem, dst)|
    requires rem[q] == Column(rem, dst)[e]
    ensures Column(rem[..q], dst) == Column(rem, dst)[..e]
    ensures Column(rem[q..], dst) == Column(rem, dst)[e..]
  {
    var p := HasStatus(dst);
    var d := Column(rem, dst);
    var x := rem[q];
    assert d[e] in d;
    var front, back := Filter(p, rem[..q]), Filter(p, rem[q+1..]);
    FilterAt(p, rem, q);
    assert d == front + [x] + back;
    assert d[|front|] == x;
    UniqueIdsFilter(p, rem);
    assert |front| == e;
    assert d[..e] == front && d[e..] == [x] + back;
    calc {
      Filter(p, rem[q..]);
      { assert rem[q..] == [x] + rem[q+1..]; FilterConcat(p, [x], rem[q+1..]); }
      Filter(p, [x]) + back;
      { FilterSingle(p, x); }
      [x] + back;
    }
  }

  /** In a list with unique ids, finding a member by its id finds its position. */
  lemma {:induction false} FindById(rem: seq<Task>, x: Task) returns (q: int)
    requires UniqueIds(rem) && x in rem
    ensures 0 <= q < |rem| && rem[q] == x && FindIndex(HasId(x.id), rem) == q
  {
    q :| 0 <= q < |rem| && rem[q] == x;
    var f := FindIndex(HasId(x.id), rem);
    assert f != -1 by {
      assert HasId(x.id)(rem[q]);
    }
    assert rem[f].id == rem[q].id;
  }

  /** Dropping before an existing destination task: the splice position is that
      task's flat position, which cuts the column at `end`. */
  lemma {:induction false} SplitBeforeEntry(rem: seq<Task>, end: nat, dst: Status)
    requires UniqueIds(rem) && end < |Column(rem, dst)|
    ensures var d := Column(rem, dst);
            var j := InsertionIndex(rem, end, dst);
            Column(rem[..j], dst) == d[..end] && Column(rem[j..], dst) == d[end..]
  {
    var d := Column(rem, dst);
    assert d[end] in d;
    var q := FindById(rem, d[end]);
    ColumnIndexOf(rem, q, end, dst);
  }

  /** Dropping past the last destination task: the splice position is just
      after that task, which leaves the whole column before it. */
  lemma {:induction false} SplitAfterLast(rem: seq<Task>, end: nat, dst: Status)
    requires UniqueIds(rem) && 0 < |Column(rem, dst)| <= end
    ensures var d := Column(rem, dst);
            var j := InsertionIndex(rem, end, dst);
            Column(rem[..j], dst) == d && Column(rem[j..], dst) == []
  {
    var d := Column(rem, dst);
    var p := HasStatus(dst);
    assert d[|d| - 1] in d;
    var q := FindById(rem, d[|d| - 1]);
    var j := q + 1;
    ColumnIndexOf(rem, q, |d| - 1, dst);
    assert rem[q..] == [rem[q]] + rem[j..];
    FilterConcat(p, [rem[q]], rem[j..]);
    FilterSingle(p, rem[q]);
    assert rem[..j] == rem[..q] + [rem[q]];
    FilterConcat(p, rem[..q], [rem[q]]);
  }

  /** In a list with unique ids, the splice position cuts the destination column
      at `min(end, |column|)`. */
  lemma {:induction false} InsertionIndexSplits(rem: seq<Task>, end: nat, dst: Status)
    requires UniqueIds(rem)
    ensures var d := Column(rem, dst);
            var m := if end < |d| then end else |d|;
            var j := InsertionIndex(rem, end, dst);
            Column(rem[..j], dst) == d[..m] && Column(rem[j..], dst) == d[m..]
  {
    var d := Column(rem, dst);
    if end < |d| {
      SplitBeforeEntry(rem, end, dst);
    } else if |d| > 0 {
      SplitAfterLast(rem, end, dst);
      assert d[..|d|] == d && d[|d|..] == [];
    } else {
      var j := InsertionIndex(rem, end, dst);
      assert rem[j..] == [] && rem[..j] == rem;
    }
  }

  /** Filtering by status and deleting by id commute. */
  lemma ColumnOfDelete(ts: seq<Task>, id: TaskId, c: Status)
    ensures Column(DeleteTask(ts, id), c) == DeleteTask(Column(ts, c), id)
  {
    FilterCommute(HasStatus(c), IdIsNot(id), ts);
  }

  /** Removing the dragged task by id leaves every column of another status alone. */
  lemma {:induction false} DeleteSparesOtherColumns(ts: seq<Task>, k: int, c: Status)
    requires UniqueIds(ts) && 0 <= k < |ts| && ts[k].status != c
    ensures Column(DeleteTask(ts, ts[k].id), c) == Column(ts, c)
  {
    ColumnOfDelete(ts, ts[k].id, c);
    forall t | t in Column(ts, c)
      ensures t.id != ts[k].id
    {
      assert t in ts;
    }
    DeleteUnknownIdIsNoOp(Column(ts, c), ts[k].id);
  }

  /** Removing the dragged task by id from its own column cuts out its column entry. */
  lemma {:induction false} DeleteFromOwnColumn(ts: seq<Task>, start: int, s: Status)
    requires UniqueIds(ts) && 0 <= start < |Column(ts, s)|
    ensures var c := Column(ts, s);
            Column(DeleteTask(ts, c[start].id), s) == c[..start] + c[start+1..]
  {
    var c := Column(ts, s);
    ColumnOfDelete(ts, c[start].id, s);
    UniqueIdsFilter(HasStatus(s), ts);
    DeleteAt(c, start);
  }

  /** The dragged task sits at some flat position `k`; removing it by id cuts
      out exactly that position and keeps the ids unique. */
  lemma {:induction false} DraggedAt(ts: seq<Task>, start: int, src: Status) returns (k: int)
    requires UniqueIds(ts) && 0 <= start < |Column(ts, src)|
    ensures var moved := Column(ts, src)[start];
            var rem := DeleteTask(ts, moved.id);
            && moved.status == src
            && 0 <= k < |ts| && ts[k] == moved
            && rem == ts[..k] + ts[k+1..]
            && UniqueIds(rem)
  {
    var c := Column(ts, src);
    var moved := c[start];
    assert moved in c;
    k :| 0 <= k < |ts| && ts[k] == moved;
    DeleteAt(ts, k);
    UniqueIdsFilter(IdIsNot(moved.id), ts);
  }

  /** An in-range reorder is the list without the dragged task, with the
      re-statused task spliced in at the insertion index. */
  lemma {:induction false} ReorderSplice(ts: seq<Task>, start: int, end: nat, src: Status, dst: Status)
    returns (j: int)
    requires 0 <= start < |Column(ts, src)|
    ensures var moved := Column(ts, src)[start];
            var rem := DeleteTask(ts, moved.id);
            && 0 <= j <= |rem|
            && j == InsertionIndex(rem, end, dst)
            && ReorderTasks(ts, start, end, src, dst) == rem[..j] + [WithStatus(moved, dst)] + rem[j..]
  {
    var moved := Column(ts, src)[start];
    j := InsertionIndex(DeleteTask(ts, moved.id), end, dst);
  }

  /** A column that the spliced task does not belong to is the column of the list it was spliced into. */
  lemma {:induction false} ColumnSkipsInserted(rem: seq<Task>, j: int, u: Task, c: Status)
    requires 0 <= j <= |rem| && u.status != c
    ensures Column(rem[..j] + [u] + rem[j..], c) == Column(rem, c)
  {
    FilterOfInsert(HasStatus(c), rem, j, u);
    FilterSplit(HasStatus(c), rem, j);
  }

  // ----- what a reorder promises -----

  /** Exactly one task moves: the list keeps its length and unique ids. */
  lemma {:induction false} ReorderKeepsIds(ts: seq<Task>, start: int, end: nat, src: Status, dst: Status)
    requires UniqueIds(ts)
    ensures var r := ReorderTasks(ts, start, end, src, dst);
            |r| == |ts| && UniqueIds(r)
  {
    if 0 <= start < |Column(ts, src)| {
      var moved := Column(ts, src)[start];
      var u := WithStatus(moved, dst);
      var rem := DeleteTask(ts, moved.id);
      var k := DraggedAt(ts, start, src);
      var j := ReorderSplice(ts, start, end, src, dst);
      assert forall x :: x in rem ==> x.id != u.id;
      UniqueIdsInsert(rem, j, u);
    }
  }

  /** Removing the dragged task from input and output leaves the same list, so
      every other task keeps its relative order; the output holds the
      re-statused task at some position `j`, and cutting it out there gives the
      input with the dragged task cut out of its position `k`. */
  lemma {:induction false} ReorderMovesOneTask(ts: seq<Task>, start: int, end: nat, src: Status, dst: Status)
    requires UniqueIds(ts) && 0 <= start < |Column(ts, src)|
    ensures var moved := Column(ts, src)[start];
            var r := ReorderTasks(ts, start, end, src, dst);
            && DeleteTask(r, moved.id) == DeleteTask(ts, moved.id)
            && (exists k, j :: 0 <= k < |ts| && ts[k] == moved && 0 <= j < |r|
                  && r[j] == WithStatus(moved, dst) && r[..j] + r[j+1..] == ts[..k] + ts[k+1..])
  {
    var moved := Column(ts, src)[start];
    var u := WithStatus(moved, dst);
    var rem := DeleteTask(ts, moved.id);
    var k := DraggedAt(ts, start, src);
    var j := ReorderSplice(ts, start, end, src, dst);
    InsertCut(rem, j, u);
    DeleteInserted(rem, j, u);
  }

  /** Deleting by id a task that was spliced into a list without its id gives the list back. */
  lemma {:induction false} DeleteInserted(rem: seq<Task>, j: int, u: Task)
    requires 0 <= j <= |rem| && forall x :: x in rem ==> x.id != u.id
    ensures DeleteTask(rem[..j] + [u] + rem[j..], u.id) == rem
  {
    var p := IdIsNot(u.id);
    assert !p(u);
    forall x | x in rem
      ensures p(x)
    {
    }
    calc {
      Filter(p, rem[..j] + [u] + rem[j..]);
      { FilterOfInsert(p, rem, j, u); }
      Filter(p, rem[..j]) + Filter(p, rem[j..]);
      { FilterSplit(p, rem, j); }
      Filter(p, rem);
      { FilterKeepsAll(p, rem); }
      rem;
    }
  }

  /** As a multiset, the result is the input with the dragged task exchanged
      for its re-statused copy: a permutation plus a single-task update. */
  lemma {:induction false} ReorderPermutes(ts: seq<Task>, start: int, end: nat, src: Status, dst: Status)
    requires UniqueIds(ts) && 0 <= start < |Column(ts, src)|
    ensures var moved := Column(ts, src)[start];
            multiset(ReorderTasks(ts, start, end, src, dst))
              == multiset(ts) - multiset{moved} + multiset{WithStatus(moved, dst)}
  {
    var moved := Column(ts, src)[start];
    var u := WithStatus(moved, dst);
    var rem := DeleteTask(ts, moved.id);
    var k := DraggedAt(ts, start, src);
    var j := ReorderSplice(ts, start, end, src, dst);
    MultisetOfCut(ts, k);
    InsertMembers(rem, j, u);
  }

  /** Cutting out every task with one id and splicing in a single task with
      that id keeps the set of ids, provided the id was there. */
  lemma {:induction false} IdSetOfSplice(ts: seq<Task>, moved: Task, j: int, u: Task)
    requires moved in ts && u.id == moved.id && 0 <= j <= |DeleteTask(ts, moved.id)|
    ensures var rem := DeleteTask(ts, moved.id);
            (set t | t in rem[..j] + [u] + rem[j..] :: t.id) == (set t | t in ts :: t.id)
  {
    var rem := DeleteTask(ts, moved.id);
    var r := rem[..j] + [u] + rem[j..];
    var after, before := set t | t in r :: t.id, set t | t in ts :: t.id;
    InsertMembers(rem, j, u);
    forall id | id in after
      ensures id in before
    {
      var t :| t in r && t.id == id;
      if t != u {
        assert t in rem;
      }
    }
    forall id | id in before
      ensures id in after
    {
      var t :| t in ts && t.id == id;
      if t.id != moved.id {
        assert t in rem;
      }
    }
  }

  /** The set of ids on the board is the same before and after. */
  lemma {:induction false} ReorderKeepsIdSet(ts: seq<Task>, start: int, end: nat, src: Status, dst: Status)
    ensures (set t | t in ReorderTasks(ts, start, end, src, dst) :: t.id) == (set t | t in ts :: t.id)
  {
    if 0 <= start < |Column(ts, src)| {
      var moved := Column(ts, src)[start];
      var j := ReorderSplice(ts, start, end, src, dst);
      assert moved in Column(ts, src);
      IdSetOfSplice(ts, moved, j, WithStatus(moved, dst));
    }
  }

  /** Columns of statuses other than the source and destination are untouched. */
  lemma {:induction false} ReorderKeepsOtherColumns(ts: seq<Task>, start: int, end: nat, src: Status, dst: Status, c: Status)
    requires UniqueIds(ts) && c != src && c != dst
    ensures Column(ReorderTasks(ts, start, end, src, dst), c) == Column(ts, c)
  {
    if 0 <= start < |Column(ts, src)| {
      var moved := Column(ts, src)[start];
      var k := DraggedAt(ts, start, src);
      var j := ReorderSplice(ts, start, end, src, dst);
      ColumnSkipsInserted(DeleteTask(ts, moved.id), j, WithStatus(moved, dst), c);
      DeleteSparesOtherColumns(ts, k, c);
    }
  }

  /** The destination column of the result is the destination column without
      the dragged task, with the re-statused task inserted at `min(end, count)`. */
  lemma {:induction false} ReorderDestinationSplice(ts: seq<Task>, start: int, end: nat, src: Status, dst: Status)
    requires UniqueIds(ts) && 0 <= start < |Column(ts, src)|
    ensures var moved := Column(ts, src)[start];
            var d := Column(DeleteTask(ts, moved.id), dst);
            var m := if end < |d| then end else |d|;
            Column(ReorderTasks(ts, start, end, src, dst), dst) == d[..m] + [WithStatus(moved, dst)] + d[m..]
  {
    var moved := Column(ts, src)[start];
    var u := WithStatus(moved, dst);
    var rem := DeleteTask(ts, moved.id);
    var k := DraggedAt(ts, start, src);
    var j := ReorderSplice(ts, start, end, src, dst);
    InsertionIndexSplits(rem, end, dst);
    FilterOfInsert(HasStatus(dst), rem, j, u);
  }

  /** The destination column of the result, in terms of the input's columns: the
      input's own destination column when the task changes column, and the
      source column without its `start`-th entry when it does not; either way
      the re-statused task lands at index `min(end, count)`. */
  lemma {:induction false} ReorderDestinationColumn(ts: seq<Task>, start: int, end: nat, src: Status, dst: Status)
    requires UniqueIds(ts) && 0 <= start < |Column(ts, src)|
    ensures var c := Column(ts, src);
            var u := WithStatus(c[start], dst);
            var d := if src == dst then c[..start] + c[start+1..] else Column(ts, dst);
            var m := if end < |d| then end else |d|;
            Column(ReorderTasks(ts, start, end, src, dst), dst) == d[..m] + [u] + d[m..]
  {
    ReorderDestinationSplice(ts, start, end, src, dst);
    if src != dst {
      var k := DraggedAt(ts, start, src);
      DeleteSparesOtherColumns(ts, k, dst);
    } else {
      DeleteFromOwnColumn(ts, start, src);
    }
  }

  /** Into a column with no other task, the moved task goes to the very end of
      the flat list. */
  lemma {:induction false} ReorderIntoEmptyColumn(ts: seq<Task>, start: int, end: nat, src: Status, dst: Status)
    requires 0 <= start < |Column(ts, src)|
    requires Column(DeleteTask(ts, Column(ts, src)[start].id), dst) == []
    ensures var moved := Column(ts, src)[start];
            ReorderTasks(ts, start, end, src, dst) == DeleteTask(ts, moved.id) + [WithStatus(moved, dst)]
  {
    var moved := Column(ts, src)[start];
    var rem := DeleteTask(ts, moved.id);
    var j := ReorderSplice(ts, start, end, src, dst);
    assert j == |rem|;
    assert rem[..j] == rem && rem[j..] == [];
  }

  /** Across columns, the source column loses exactly its `start`-th task. */
  lemma {:induction false} ReorderSourceColumn(ts: seq<Task>, start: int, end: nat, src: Status, dst: Status)
    requires UniqueIds(ts) && src != dst && 0 <= start < |Column(ts, src)|
    ensures var c := Column(ts, src);
            Column(ReorderTasks(ts, start, end, src, dst), src) == c[..start] + c[start+1..]
  {
    var moved := Column(ts, src)[start];
    var rem := DeleteTask(ts, moved.id);
    var j := ReorderSplice(ts, start, end, src, dst);
    ColumnSkipsInserted(rem, j, WithStatus(moved, dst), src);
    DeleteFromOwnColumn(ts, start, src);
  }

  /** A drop back onto its own slot changes its column only by re-applying the
      status change to the dragged task. */
  lemma {:induction false} ReorderSameSlotColumn(ts: seq<Task>, i: nat, s: Status)
    requires UniqueIds(ts) && i < |Column(ts, s)|
    ensures var c := Column(ts, s);
            Column(ReorderTasks(ts, i, i, s, s), s) == c[i := WithStatus(c[i], s)]
  {
    var c := Column(ts, s);
    ReorderDestinationColumn(ts, i, i, s, s);
    CutThenPut(c, i, WithStatus(c[i], s));
  }

  /** When finished tasks already show 100, a drop back onto its own slot leaves
      every column exactly as it was. */
  lemma {:induction false} ReorderSameSlot(ts: seq<Task>, i: nat, s: Status)
    requires UniqueIds(ts) && DoneComplete(ts) && i < |Column(ts, s)|
    ensures forall st :: Column(ReorderTasks(ts, i, i, s, s), st) == Column(ts, st)
  {
    var c := Column(ts, s);
    ReorderSameSlotColumn(ts, i, s);
    assert c[i] in c;
    WithSameStatus(c[i]);
    assert c[i := c[i]] == c;
    forall st
      ensures Column(ReorderTasks(ts, i, i, s, s), st) == Column(ts, st)
    {
      if st != s {
        ReorderKeepsOtherColumns(ts, i, i, s, s, st);
      }
    }
  }

  /** The flat list itself can change on a drop back onto the same slot: the
      dragged task hops over a task of another status that sat between it and
      its column predecessor. */
  lemma ReorderSameSlotCanShiftFlatList()
    ensures var a := Task("a", "", "", Todo, 0, "", 0, 0, [], "");
            var x := Task("x", "", "", Done, 100, "", 0, 0, [], "");
            var b := Task("b", "", "", Todo, 0, "", 0, 0, [], "");
            ReorderTasks([a, x, b], 1, 1, Todo, Todo) == [a, b, x]
  {
    var a := Task("a", "", "", Todo, 0, "", 0, 0, [], "");
    var x := Task("x", "", "", Done, 100, "", 0, 0, [], "");
    var b := Task("b", "", "", Todo, 0, "", 0, 0, [], "");
    FilterThree(HasStatus(Todo), a, x, b);
    assert Column([a, x, b], Todo) == [a, b];
    FilterThree(IdIsNot("b"), a, x, b);
    assert DeleteTask([a, x, b], "b") == [a, x];
    assert [a, x] == [a] + [x];
    FilterConcat(HasStatus(Todo), [a], [x]);
    FilterSingle(HasStatus(Todo), a);
    FilterSingle(HasStatus(Todo), x);
    assert Column([a, x], Todo) == [a];
    assert FindIndex(HasId("a"), [a, x]) == 0;
    assert InsertionIndex([a, x], 1, Todo) == 1;
  }

  /** A reorder keeps the progress range and the done-means-100 coupling. */
  lemma {:induction false} ReorderKeepsProgress(ts: seq<Task>, start: int, end: nat, src: Status, dst: Status)
    ensures var r := ReorderTasks(ts, start, end, src, dst);
            && (ProgressInRange(ts) ==> ProgressInRange(r))
            && (DoneComplete(ts) ==> DoneComplete(r))
  {
    var c := Column(ts, src);
    if 0 <= start < |c| {
      var moved := c[start];
      var rem := DeleteTask(ts, moved.id);
      var u := WithStatus(moved, dst);
      var j := InsertionIndex(rem, end, dst);
      var r := rem[..j] + [u] + rem[j..];
      assert moved in c;
      forall t | t in r
        ensures t in ts || t == u
      {
        if t in rem[..j] {
          assert t in rem;
        } else if t in rem[j..] {
          assert t in rem;
        }
      }
    }
  }
}
