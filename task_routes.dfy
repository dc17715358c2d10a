/**
  The task routes: the decision chains of the handlers that create, update,
  re-date and delete a task, and the contexts the task pages are rendered
  with. As for labels, each decision is a function of the parsed form and the
  repository's outcome, and each handler method makes the repository call
  only when the form passes validation.
*/
module TaskRoutes {
  import opened Query
  import opened Web
  import opened TaskModel
  import LabelModel

  /** The contexts of the task templates. */
  datatype View =
    | Context(msg: Option<Msg>, tasks: seq<Task>, labels: seq<LabelModel.Label>)
    | SingleTaskContext(msg: Option<Msg>, task: Task, labels: seq<LabelModel.Label>)
    | TasksByLabelContext(tasks: seq<Task>, labelRow: LabelModel.Label)

  /** `Context::err`: a warning with the given text, all tasks (oldest date
      first) and all labels. */
  function ContextErr(tasks: seq<Task>, labels: seq<LabelModel.Label>, tasksLoaded: bool, labelsLoaded: bool,
                      text: string): (c: View)
    ensures c.Context? && c.msg == Some(Msg("warning", text))
    ensures Listed(c.tasks, tasks, tasksLoaded) && LabelModel.Listed(c.labels, labels, labelsLoaded)
  {
    Context(Some(Warning(text)), All(tasks, tasksLoaded), LabelModel.All(labels, labelsLoaded))
  }

  /** `Context::raw`: the given message, unchanged, all tasks and all labels. */
  function ContextRaw(tasks: seq<Task>, labels: seq<LabelModel.Label>, tasksLoaded: bool, labelsLoaded: bool,
                      msg: Option<Msg>): (c: View)
    ensures c.Context? && c.msg == msg
    ensures Listed(c.tasks, tasks, tasksLoaded) && LabelModel.Listed(c.labels, labels, labelsLoaded)
  {
    Context(msg, All(tasks, tasksLoaded), LabelModel.All(labels, labelsLoaded))
  }

  /** `SingleTaskContext::raw`: the given message, the task with that id
      (which must exist) and all labels. */
  function SingleTaskContextRaw(tasks: seq<Task>, labels: seq<LabelModel.Label>, id: int, labelsLoaded: bool,
                                msg: Option<Msg>): (c: View)
    requires Has(tasks, TaskModel.Id, id)
    ensures c.SingleTaskContext? && c.msg == msg && c.task in tasks && c.task.id == Some(id)
    ensures LabelModel.Listed(c.labels, labels, labelsLoaded)
  {
    SingleTaskContext(msg, TaskById(tasks, id), LabelModel.All(labels, labelsLoaded))
  }

  /** `TasksByLabelContext::raw`: the tasks of the label and the label
      itself, which must exist. */
  function TasksByLabelContextRaw(tasks: seq<Task>, labels: seq<LabelModel.Label>, labelId: int): (c: View)
    requires Has(labels, LabelModel.Id, labelId)
    ensures c.TasksByLabelContext? && c.labelRow in labels && c.labelRow.id == Some(labelId)
    ensures forall i :: 0 <= i < |c.tasks| ==> c.tasks[i] in tasks && c.tasks[i].labelId == c.labelRow.id
    ensures forall i :: 0 <= i < |tasks| && tasks[i].labelId == Some(labelId) ==> tasks[i] in c.tasks
    ensures multiset(c.tasks) <= multiset(tasks) && SortedBy(c.tasks, Name)
  {
    TasksByLabelContext(TasksByLabel(tasks, labels, labelId), LabelModel.LabelById(labels, labelId))
  }

  const NoName: string := "Please input task name."

  /** `new`'s decision: every outcome redirects to `/`; an empty name is
      refused before any insert. */
  function NewResponse(form: TaskName, inserted: bool): (r: Response<View>)
    ensures r.Redirect? && r.target == Index
    ensures r.flash.kind == "success" <==> form.name != "" && inserted
    ensures form.name == "" ==> r.flash == Msg("warning", NoName)
    ensures form.name != "" ==>
      r.flash == if inserted then Msg("success", "New task added.") else Msg("warning", ServerFailed)
  {
    if form.name == "" then Redirect(Index, Warning(NoName))
    else if inserted then Redirect(Index, Success("New task added."))
    else Redirect(Index, Warning(ServerFailed))
  }

  /** `update`'s decision: every outcome redirects to the task's page. */
  function UpdateResponse(id: int, form: TaskUpdate, updated: bool): (r: Response<View>)
    ensures r.Redirect? && r.target == TaskPage(id)
    ensures r.flash.kind == "success" <==> form.name != "" && updated
    ensures form.name == "" ==> r.flash == Msg("warning", NoName)
    ensures form.name != "" ==>
      r.flash == if updated then Msg("success", "Your task was updated.") else Msg("warning", ServerFailed)
  {
    if form.name == "" then Redirect(TaskPage(id), Warning(NoName))
    else if updated then Redirect(TaskPage(id), Success("Your task was updated."))
    else Redirect(TaskPage(id), Warning(ServerFailed))
  }

  /** `update_date`'s decision: nothing to validate; both outcomes redirect to `/`. */
  function UpdateDateResponse(touched: bool): (r: Response<View>)
    ensures r.Redirect? && r.target == Index
    ensures touched ==> r.flash == Msg("success", "\"Last updated\" date is updated to today.")
    ensures !touched ==> r.flash == Msg("warning", ServerFailed)
  {
    if touched then Redirect(Index, Success("\"Last updated\" date is updated to today."))
    else Redirect(Index, Warning(ServerFailed))
  }

  /** `delete`'s decision: a deleted task redirects to `/`; a failed delete
      renders `detail` with a warning, all tasks and all labels. */
  function DeleteResponse(deleted: bool, tasks: seq<Task>, labels: seq<LabelModel.Label>, tasksLoaded: bool,
                          labelsLoaded: bool): (r: Response<View>)
    ensures deleted ==> r == Redirect(Index, Msg("success", "Your task was deleted."))
    ensures !deleted ==> r.Render? && r.template == "detail" && r.context.Context?
    ensures !deleted ==> r.context.msg == Some(Msg("warning", "Couldn't delete task."))
    ensures !deleted ==> Listed(r.context.tasks, tasks, tasksLoaded)
    ensures !deleted ==> LabelModel.Listed(r.context.labels, labels, labelsLoaded)
  {
    if deleted then Redirect(Index, Success("Your task was deleted."))
    else Render("detail", ContextErr(tasks, labels, tasksLoaded, labelsLoaded, "Couldn't delete task."))
  }

  /** With an empty name the response does not depend on the store's
      outcome: the store is not consulted. */
  lemma EmptyNameIgnoresStore(id: int, name: TaskName, form: TaskUpdate)
    requires name.name == "" && form.name == ""
    ensures NewResponse(name, true) == NewResponse(name, false)
    ensures UpdateResponse(id, form, true) == UpdateResponse(id, form, false)
  {
  }

  /** `index`: the `index` page with the flash, if any, tasks and labels. */
  function IndexPage(tasks: seq<Task>, labels: seq<LabelModel.Label>, tasksLoaded: bool, labelsLoaded: bool,
                     msg: Option<Msg>): (r: Response<View>)
    ensures r.Render? && r.template == "index" && r.context.Context? && r.context.msg == msg
    ensures Listed(r.context.tasks, tasks, tasksLoaded)
    ensures LabelModel.Listed(r.context.labels, labels, labelsLoaded)
  {
    Render("index", ContextRaw(tasks, labels, tasksLoaded, labelsLoaded, msg))
  }

  /** `tasks_by_label`: the `tasksbylabel` page of an existing label. */
  function TasksByLabelPage(tasks: seq<Task>, labels: seq<LabelModel.Label>, labelId: int): (r: Response<View>)
    requires Has(labels, LabelModel.Id, labelId)
    ensures r.Render? && r.template == "tasksbylabel" && r.context.TasksByLabelContext?
    ensures r.context.labelRow in labels && r.context.labelRow.id == Some(labelId)
    ensures forall i :: 0 <= i < |r.context.tasks| ==> r.context.tasks[i] in tasks && r.context.tasks[i].labelId == Some(labelId)
    ensures forall i :: 0 <= i < |tasks| && tasks[i].labelId == Some(labelId) ==> tasks[i] in r.context.tasks
    ensures multiset(r.context.tasks) <= multiset(tasks) && SortedBy(r.context.tasks, Name)
  {
    Render("tasksbylabel", TasksByLabelContextRaw(tasks, labels, labelId))
  }

  /** `task_detail`: the `detail` page of an existing task with the flash, if any. */
  function TaskDetailPage(tasks: seq<Task>, labels: seq<LabelModel.Label>, id: int, labelsLoaded: bool,
                          msg: Option<Msg>): (r: Response<View>)
    requires Has(tasks, TaskModel.Id, id)
    ensures r.Render? && r.template == "detail" && r.context.SingleTaskContext?
    ensures r.context.msg == msg && r.context.task in tasks && r.context.task.id == Some(id)
    ensures LabelModel.Listed(r.context.labels, labels, labelsLoaded)
  {
    Render("detail", SingleTaskContextRaw(tasks, labels, id, labelsLoaded, msg))
  }

  /** `confirm`: the `confirm` page of an existing task, with no message. */
  function ConfirmPage(tasks: seq<Task>, labels: seq<LabelModel.Label>, id: int, labelsLoaded: bool): (r: Response<View>)
    requires Has(tasks, TaskModel.Id, id)
    ensures r.Render? && r.template == "confirm" && r.context.SingleTaskContext?
    ensures r.context.msg == None && r.context.task in tasks && r.context.task.id == Some(id)
    ensures LabelModel.Listed(r.context.labels, labels, labelsLoaded)
  {
    Render("confirm", SingleTaskContextRaw(tasks, labels, id, labelsLoaded, None))
  }

  /** `new`: insert only a named task, at time `now`. */
  method New(table: TaskTable, form: TaskName, now: string, storeUp: bool) returns (r: Response<View>)
    requires table.Valid()
    modifies table
    ensures table.Valid()
    ensures r == NewResponse(form, storeUp)
    ensures table.rows ==
      if form.name != "" && storeUp then Inserted(old(table.rows), old(table.nextId), form.name, now)
      else old(table.rows)
    ensures table.nextId == if form.name != "" && storeUp then old(table.nextId) + 1 else old(table.nextId)
  {
    var ok := false;
    if form.name != "" {
      ok := table.Insert(form, now, storeUp);
    }
    r := NewResponse(form, ok);
  }

  /** `update`: update only with a named form. */
  method Update(table: TaskTable, id: int, form: TaskUpdate, storeUp: bool) returns (r: Response<View>)
    requires table.Valid()
    modifies table`rows
    ensures table.Valid()
    ensures r == UpdateResponse(id, form, storeUp)
    ensures table.rows ==
      if form.name != "" && storeUp then Updated(old(table.rows), id, form)
      else old(table.rows)
  {
    var ok := false;
    if form.name != "" {
      ok := table.Update(id, form, storeUp);
    }
    r := UpdateResponse(id, form, ok);
  }

  /** `update_date`: set the task's date to `now`. */
  method UpdateDate(table: TaskTable, id: int, now: string, storeUp: bool) returns (r: Response<View>)
    requires table.Valid()
    modifies table`rows
    ensures table.Valid()
    ensures r == UpdateDateResponse(storeUp)
    ensures table.rows == if storeUp then Touched(old(table.rows), id, now) else old(table.rows)
  {
    var ok := table.UpdateToToday(id, now, storeUp);
    r := UpdateDateResponse(ok);
  }

  /** `delete`: delete, and on failure list the (unchanged) tasks and labels. */
  method Delete(table: TaskTable, labels: LabelModel.LabelTable, id: int, storeUp: bool, tasksLoaded: bool,
                labelsLoaded: bool) returns (r: Response<View>)
    requires table.Valid()
    modifies table`rows
    ensures table.Valid()
    ensures table.rows == if storeUp then Deleted(old(table.rows), id) else old(table.rows)
    ensures r == DeleteResponse(storeUp, table.rows, labels.rows, tasksLoaded, labelsLoaded)
  {
    var ok := table.DeleteWithId(id, storeUp);
    r := DeleteResponse(ok, table.rows, labels.rows, tasksLoaded, labelsLoaded);
  }
}
