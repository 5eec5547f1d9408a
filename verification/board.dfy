/**
  The board view: three status columns projected from the flat task list, the
  drop handler that turns a finished drag into a call of the store's reorder,
  and the colours a card shows for its progress and its status.
 */
module Board {
  import opened Types
  import opened TaskStore
  import opened Reorder
  import Search

  // ----- columns and cards -----

  /** A column header: its caption, the status it shows and its task count. */
  datatype ColumnHeader = ColumnHeader(title: string, status: Status, count: nat)

  /** The three columns, left to right, each counting the tasks of its status. */
  function Columns(ts: seq<Task>): (cs: seq<ColumnHeader>)
    ensures |cs| == 3
    ensures forall i :: 0 <= i < 3 ==> cs[i].count <= |ts|
  {
    [ ColumnHeader("To do", Todo, |Column(ts, Todo)|),
      ColumnHeader("In progress", InProgress, |Column(ts, InProgress)|),
      ColumnHeader("Done", Done, |Column(ts, Done)|) ]
  }

  /** Every task sits in exactly one column, so the header counts add up to the
      length of the list. */
  lemma {:induction false} ColumnCountsAddUp(ts: seq<Task>)
    ensures |Column(ts, Todo)| + |Column(ts, InProgress)| + |Column(ts, Done)| == |ts|
  {
    if |ts| > 0 {
      ColumnCountsAddUp(ts[1..]);
    }
  }

  /** The headers show each status exactly once, in board order, under the
      same caption the search dialog uses, and their counts sum to the list length. */
  lemma ColumnsCoverStatuses(ts: seq<Task>)
    ensures var cs := Columns(ts);
            && cs[0].status == Todo && cs[1].status == InProgress && cs[2].status == Done
            && (forall i :: 0 <= i < 3 ==> cs[i].title == Search.StatusLabel(cs[i].status))
            && (forall i :: 0 <= i < 3 ==> cs[i].count == |Column(ts, cs[i].status)|)
            && cs[0].count + cs[1].count + cs[2].count == |ts|
  {
    ColumnCountsAddUp(ts);
  }

  /** A rendered card: the task and its index within its column. */
  datatype Card = Card(task: Task, index: nat)

  /** The cards of one column, in list order, numbered from 0. */
  function Cards(ts: seq<Task>, s: Status): (cards: seq<Card>)
    ensures |cards| == |Column(ts, s)|
    ensures forall i :: 0 <= i < |cards| ==> cards[i].index == i && cards[i].task.status == s
    ensures forall i :: 0 <= i < |cards| ==> cards[i].task == Column(ts, s)[i]
  {
    var c := Column(ts, s);
    assert forall i :: 0 <= i < |c| ==> c[i] in c;
    seq(|c|, i requires 0 <= i < |c| => Card(c[i], i))
  }

  // ----- dropping a card -----

  /** One end of a drag: a droppable column and an index within it. */
  datatype Location = Location(droppableId: Status, index: nat)

  /** What the drag library reports when a drag ends; there is no destination
      when the card was released outside every column. */
  datatype DropResult = DropResult(source: Location, destination: Option<Location>)

  /** The arguments handed to the store's reorder. */
  datatype ReorderCall = ReorderCall(startIndex: nat, endIndex: nat, sourceStatus: Status, destinationStatus: Status)

  /** `onDragEnd`: a drop outside every column, or back onto the slot it came
      from, calls nothing; any other drop forwards both ends unchanged. */
  function OnDragEnd(res: DropResult): (call: Option<ReorderCall>)
    ensures call.None? <==> res.destination.None? || res.destination.value == res.source
    ensures call.Some? ==>
      && call.value.startIndex == res.source.index
      && call.value.sourceStatus == res.source.droppableId
      && call.value.endIndex == res.destination.value.index
      && call.value.destinationStatus == res.destination.value.droppableId
  {
    match res.destination
    case None => None
    case Some(dest) =>
      if res.source.droppableId == dest.droppableId && res.source.index == dest.index then None
      else Some(ReorderCall(res.source.index, dest.index, res.source.droppableId, dest.droppableId))
  }

  /** The task list after a drop. */
  function ApplyDrop(ts: seq<Task>, res: DropResult): (r: seq<Task>)
    ensures res.destination.None? || res.destination.value == res.source ==> r == ts
  {
    match OnDragEnd(res)
    case None => ts
    case Some(call) =>
      ReorderTasks(ts, call.startIndex, call.endIndex, call.sourceStatus, call.destinationStatus)
  }

  /** The guard drops only calls that could not change any column: with unique
      ids and finished tasks at 100, every column after a drop is what the
      unguarded reorder would have produced. */
  lemma {:induction false} GuardSkipsOnlyNoOps(ts: seq<Task>, res: DropResult)
    requires UniqueIds(ts) && DoneComplete(ts) && res.destination.Some?
    ensures var src, dest := res.source, res.destination.value;
            var unguarded := ReorderTasks(ts, src.index, dest.index, src.droppableId, dest.droppableId);
            forall st :: Column(ApplyDrop(ts, res), st) == Column(unguarded, st)
  {
    var src, dest := res.source, res.destination.value;
    if dest == src && src.index < |Column(ts, src.droppableId)| {
      ReorderSameSlot(ts, src.index, src.droppableId);
    }
  }

  /** Card indices are the reorder's index space: dragging the `i`-th card of a
      column to any other slot moves exactly that card's task, re-statused to
      the destination column, and leaves every other task in order. */
  lemma {:induction false} DragMovesTheCard(ts: seq<Task>, s: Status, i: nat, dest: Location)
    requires UniqueIds(ts) && i < |Cards(ts, s)| && dest != Location(s, i)
    ensures var card := Cards(ts, s)[i];
            var r := ApplyDrop(ts, DropResult(Location(s, i), Some(dest)));
            && WithStatus(card.task, dest.droppableId) in r
            && DeleteTask(r, card.task.id) == DeleteTask(ts, card.task.id)
  {
    ReorderMovesOneTask(ts, i, dest.index, s, dest.droppableId);
  }

  // ----- card colours -----

  /** The colour of a card's progress bar. */
  datatype BarColor = GreenBar | OrangeBar | PinkBar

  /** `getProgressColor`: green from 80, orange from 40, pink below. */
  function ProgressColor(progress: int): (c: BarColor)
    ensures c == GreenBar <==> progress >= 80
    ensures c == OrangeBar <==> 40 <= progress < 80
    ensures c == PinkBar <==> progress < 40
  {
    if progress >= 80 then GreenBar
    else if progress >= 40 then OrangeBar
    else PinkBar
  }

  /** Pink, orange, green: the order in which the bar warms up. */
  function BarRank(c: BarColor): (n: nat)
    ensures n <= 2
  {
    match c
    case PinkBar => 0
    case OrangeBar => 1
    case GreenBar => 2
  }

  /** More progress never shows a colder colour. */
  lemma ProgressColorMonotone(p: int, q: int)
    requires p <= q
    ensures BarRank(ProgressColor(p)) <= BarRank(ProgressColor(q))
  {
  }

  /** When finished tasks show 100, every card of the Done column has a green bar. */
  lemma DoneCardsAreGreen(ts: seq<Task>, card: Card)
    requires DoneComplete(ts) && card in Cards(ts, Done)
    ensures ProgressColor(card.task.progress) == GreenBar
  {
    var cards := Cards(ts, Done);
    var i :| 0 <= i < |cards| && cards[i] == card;
    assert card.task == Column(ts, Done)[i];
    assert card.task in Column(ts, Done);
  }

  /** The colour of a card's due-date badge, chosen by status. */
  function BadgeColor(s: Status): (tone: Search.Tone)
    ensures tone == Search.Indigo <==> s.Todo?
  {
    if s == Done then Search.Green
    else if s == InProgress then Search.Orange
    else Search.Indigo
  }

  /** The board badge and the search result badge agree on every status. */
  lemma BadgeMatchesSearch(s: Status)
    ensures BadgeColor(s) == Search.StatusColor(s)
  {
  }
}
