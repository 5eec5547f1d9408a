/**
  The add-task dialog: the form it opens with, the draft it submits to the
  store, and where the new task ends up.
 */
module AddTaskForm {
  import opened Seqs
  import opened Types
  import opened TaskStore
  import Board

  /** The three inputs of the dialog. */
  datatype Form = Form(title: string, description: string, projectName: string)

  /** The project preselected in the picker: the first project's name, or the
      empty name when there is no project. */
  function DefaultProjectName(ps: seq<Project>): (name: string)
    ensures |ps| > 0 ==> name == ps[0].name
    ensures |ps| == 0 ==> name == ""
  {
    if |ps| > 0 && ps[0].name != "" then ps[0].name else ""
  }

  /** The form as the dialog first shows it. */
  function OpenForm(ps: seq<Project>): (f: Form)
    ensures f.title == "" && f.description == ""
    ensures f.projectName == DefaultProjectName(ps)
  {
    Form("", "", DefaultProjectName(ps))
  }

  /** What a submit attempt yields: the draft handed to the store, if any, and
      the form left on screen. */
  datatype Submission = Submission(draft: Option<TaskDraft>, next: Form)

  /** `handleSubmit`. Title and description are required inputs, so an empty
      one blocks the submit. Otherwise the draft is a fresh to-do card with no
      progress, comments, attachments or assignees, dated `today`, and the two
      text inputs are cleared while the project choice stays. */
  function Submit(f: Form, today: string): (s: Submission)
    ensures s.draft.Some? <==> f.title != "" && f.description != ""
    ensures s.draft.None? ==> s.next == f
    ensures s.draft.Some? ==>
      var d := s.draft.value;
      && d.title == f.title && d.description == f.description && d.projectName == f.projectName
      && d.status == Todo && d.progress == 0 && d.dueDate == today
      && d.comments == 0 && d.attachments == 0 && d.assignees == []
      && s.next == Form("", "", f.projectName)
  {
    if f.title == "" || f.description == "" then Submission(None, f)
    else
      var d := TaskDraft(f.title, f.description, Todo, 0, today, 0, 0, [], f.projectName);
      Submission(Some(d), f.(title := "", description := ""))
  }

  /** A submitted draft keeps every store invariant: the new task, with the
      fresh id the store gives it, becomes the last card of the To do column,
      the other columns are untouched, its bar is pink, and project counts
      stay consistent. */
  lemma {:induction false} SubmittedTaskLandsLastInTodo(st: Store, f: Form, today: string, freshId: TaskId)
    requires Submit(f, today).draft.Some?
    requires UniqueIds(st.tasks) && forall t :: t in st.tasks ==> t.id != freshId
    requires ProgressInRange(st.tasks) && DoneComplete(st.tasks) && CountsConsistent(st.tasks, st.projects)
    ensures var d := Submit(f, today).draft.value;
            var r := AddTask(st, d, freshId);
            && Column(r.tasks, Todo) == Column(st.tasks, Todo) + [FromDraft(d, freshId)]
            && Column(r.tasks, InProgress) == Column(st.tasks, InProgress)
            && Column(r.tasks, Done) == Column(st.tasks, Done)
            && Board.ProgressColor(FromDraft(d, freshId).progress) == Board.PinkBar
            && UniqueIds(r.tasks) && ProgressInRange(r.tasks) && DoneComplete(r.tasks)
            && CountsConsistent(r.tasks, r.projects)
  {
    var d := Submit(f, today).draft.value;
    var r := AddTask(st, d, freshId);
    var u := FromDraft(d, freshId);
    assert r.tasks == st.tasks + [u];
    FilterConcat(HasStatus(Todo), st.tasks, [u]);
    FilterConcat(HasStatus(InProgress), st.tasks, [u]);
    FilterConcat(HasStatus(Done), st.tasks, [u]);
    FilterSingle(HasStatus(Todo), u);
    FilterSingle(HasStatus(InProgress), u);
    FilterSingle(HasStatus(Done), u);
    AddTaskKeepsInvariants(st, d, freshId);
    AddTaskKeepsCounts(st, d, freshId);
  }

  /** Submitting with the preselected project counts the new task against the
      first project. */
  lemma {:induction false} DefaultProjectGetsTheTask(st: Store, today: string, title: string, description: string, freshId: TaskId)
    requires |st.projects| > 0 && title != "" && description != ""
    ensures var f := OpenForm(st.projects).(title := title, description := description);
            var r := AddTask(st, Submit(f, today).draft.value, freshId);
            r.projects[0].taskCount == st.projects[0].taskCount + 1
  {
  }
}
