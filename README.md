# last-date: the task and label store and its request handlers

`last-date` is a small web tracker. For each task it records when it was last
done ("last updated"), and tasks can carry a colour label. This project
models its data-access layer and the handlers' decision logic:

- the `labels` and `tasks` tables;
- the queries and statements that `Label` and `Task` issue against those
  tables;
- the validation and outcome chains of the label and task routes;
- the contexts the pages are rendered with.

Layout:

- `query.dfy` (module `Query`): the table operations the repositories use.
  - `Filter` is `WHERE`.
  - `OrderBy` is `ORDER BY` on a text column, compared code point by code
    point, which is SQLite's default `BINARY` collation.
  - `SetWhere` is `UPDATE … SET … WHERE`.
  - `Keyed` and `Below` are the primary-key discipline: rows in rowid order,
    with every key below the next rowid.
- `label_model.dfy` (`LabelModel`) and `task_model.dfy` (`TaskModel`): the
  rows, the forms and the repository operations.
  - Reads are functions of the rows.
  - Writes are methods of `LabelTable` and `TaskTable`. Each class holds the
    rows (`rows`) and the next rowid (`nextId`).
  - Each write's `ensures` gives the new rows as a function of the old ones
    (`Inserted`, `Updated`, `Touched`, `Deleted`). The lemmas beside it prove
    what a read returns after the write.
- `web.dfy` (`Web`): flash messages, redirect targets and the `Response`
  value a handler returns.
- `label_routes.dfy` (`LabelRoutes`) and `task_routes.dfy` (`TaskRoutes`): the
  pieces of each handler.
  - The outcome chain is a function from the parsed form and the repository's
    boolean outcome to a `Response`.
  - The handler method makes the repository call only when validation passes.
    It returns that function's value and states the table after the call.
  - The context builders are functions of the rows.

Parameters stand in for everything outside the program:

- `storeUp` is whether the store call succeeded. When it is false the
  statement changes nothing and the call returns false.
- `loaded` is whether a load in `all` succeeded.
- `now` is the text of the local time.

## Model

| member | source | states |
|---|---|---|
| Query.OrderBy | src/models/label.rs:35 | `ORDER BY` yields a permutation of the rows sorted by the key column (code-point order) |
| Query.Filter | src/models/task.rs:69 | `WHERE p` keeps exactly the rows satisfying `p` (both directions), and nothing that was not in the table |
| Query.SetWhere | src/models/task.rs:128-134 | `UPDATE … SET f WHERE p` keeps the length and order; each matching row becomes `f` of itself and every other row is unchanged |
| Query.TextLeTotal | src/models/label.rs:35 | the text order used by `ORDER BY` is total |
| Query.TextLeTransitive | src/models/label.rs:35 | the text order used by `ORDER BY` is transitive |
| Query.FilterKeyed | src/models/label.rs:86 | a `DELETE … WHERE` keeps the table keyed, in rowid order, with its keys below the next rowid |
| Query.SetWhereKeyed | src/models/label.rs:73-77 | an `UPDATE` that sets non-key columns keeps the table keyed |
| Query.AppendKeyed | src/models/label.rs:63-65 | appending a row under the next rowid keeps the table keyed, and the next rowid advances |
| Query.UniqueKeyMatch | src/models/label.rs:45-47 | in a keyed table, filtering on the key of row `i` yields exactly `[row i]` |
| Query.UniqueKeyDelete | src/models/label.rs:86 | in a keyed table, deleting by the key of row `i` removes exactly row `i` and keeps the others in order |
| Query.NoKeyFilter | src/models/label.rs:73 | a key that no row holds matches nothing, and its negation keeps every row |
| LabelModel.All | src/models/label.rs:32-40 | `Label::all` is a permutation of the table sorted by `name`; a failed load gives `[]` |
| LabelModel.LabelById | src/models/label.rs:42-54 | the result is a row of the table with `id == Some(id)`; the id must exist, because the source unwraps |
| LabelModel.LabelByIdAt | src/models/label.rs:42-54 | in a keyed table the lookup by row `i`'s id returns row `i` |
| LabelModel.Inserted | src/models/label.rs:56-69 | the rows after an insert: the old rows unchanged, then one row with the new id, the form's name and its colour |
| LabelModel.Updated | src/models/label.rs:71-82 | the rows after an update: same length and ids; the matching row takes the form's name and colour; every other row is unchanged |
| LabelModel.Deleted | src/models/label.rs:84-91 | the rows after a delete: no row has the id, and every row with another id is kept |
| LabelModel.InsertThenGet | src/models/label.rs:56-69 | an inserted label reads back under its fresh id with the form's name and colour |
| LabelModel.InsertThenDelete | src/models/label.rs:84-91 | deleting the id just inserted restores the table |
| LabelModel.UpdateThenGet | src/models/label.rs:71-82 | after updating an existing id, the table stays keyed and the row reads back with the form's values |
| LabelModel.UpdateMissing | src/models/label.rs:71-82 | an update of an id that no row holds changes nothing |
| LabelModel.DeleteExisting | src/models/label.rs:84-91 | deleting an existing id removes exactly its row: one row fewer, the rest in order, and the id is gone |
| LabelModel.DeleteMissing | src/models/label.rs:84-91 | deleting an id that no row holds changes nothing |
| LabelModel.LabelTable.Insert | src/models/label.rs:56-69 | success equals the store outcome; on success the new row goes under a fresh id, the table stays keyed and the next id advances by one; on failure neither the rows nor the next id change |
| LabelModel.LabelTable.Update | src/models/label.rs:71-82 | success equals the store outcome whether or not a row matches; the new rows are `Updated` |
| LabelModel.LabelTable.DeleteWithId | src/models/label.rs:84-91 | success equals the store outcome whether or not a row matches; the new rows are `Deleted` |
| LabelModel.LabelTable.DeleteAll | src/models/label.rs:93-97 | on success the table is empty |
| TaskModel.All | src/models/task.rs:47-56 | `Task::all` is a permutation of the table sorted by `updated_at` ascending (oldest first); a failed load gives `[]` |
| TaskModel.AllById | src/models/task.rs:58-64 | every row, in strictly ascending id order |
| TaskModel.TaskById | src/models/task.rs:66-77 | the result is a row of the table with `id == Some(id)`; the id must exist |
| TaskModel.TaskByIdAt | src/models/task.rs:66-77 | in a keyed table the lookup by row `i`'s id returns row `i` |
| TaskModel.TasksByLabel | src/models/task.rs:79-88 | the label must exist; the result (the `belonging_to` filter, helper `LabelIs`, then `ORDER BY name`) is exactly the tasks whose `label_id` is that label's id (both directions), no task more often than in the table, sorted by `name` |
| TaskModel.Inserted | src/models/task.rs:90-106 | the rows after an insert: the old rows, then one row with the new id, the name, an empty description, the given date and no label |
| TaskModel.Updated | src/models/task.rs:126-139 | the matching row takes all four columns from the form (`updated_at` included) and keeps its id; every other row is unchanged |
| TaskModel.Touched | src/models/task.rs:141-150 | the matching row's `updated_at` becomes `now`; its other columns and every other row are unchanged |
| TaskModel.Deleted | src/models/task.rs:152-159 | no row has the id, and every row with another id is kept |
| TaskModel.InsertThenGet | src/models/task.rs:90-106 | an inserted task reads back with its name, date `now`, an empty description and no label |
| TaskModel.InsertThenDelete | src/models/task.rs:152-159 | deleting the id just inserted restores the table |
| TaskModel.InsertionOrder | src/models/task.rs:58-64 | inserting several names one after another and listing by id gives the old rows, then the new tasks in insertion order under consecutive ids |
| TaskModel.UpdateThenGet | src/models/task.rs:126-139 | after an update of an existing id, the task reads back with every column from the form |
| TaskModel.UpdateThenByLabel | src/models/task.rs:79-88 | an updated task is listed under label `l` if and only if the form set its label to `l` |
| TaskModel.EmptyLabelFieldClears | src/models/task.rs:133 | an empty `label_id` field in the edit form clears the task's label |
| TaskModel.TouchThenGet | src/models/task.rs:141-150 | after a touch, the task equals the old task with `updated_at = now` |
| TaskModel.WriteMissing | src/models/task.rs:126-150 | an update or touch of an id that no row holds changes nothing |
| TaskModel.DeleteExisting | src/models/task.rs:152-159 | deleting an existing id removes exactly its row: one row fewer, the rest in order, and the id is gone |
| TaskModel.DeleteMissing | src/models/task.rs:152-159 | deleting an id that no row holds changes nothing |
| TaskModel.ParseLabelId | src/models/task.rs:43 | the `i32` parse behind the `Option<i32>` field, for every input: an empty field gives `None`; digits, optionally after `+`, give their value when it fits in `i32` and `None` otherwise; `-` then digits gives the negated value when it fits; a lone sign, any other first character, or a non-digit after the first character, gives `None`; any result lies in the `i32` range |
| TaskModel.DecimalDigits | src/models/task.rs:43 | the decimal text of a non-negative number is a non-empty digit string whose value is that number |
| TaskModel.ParseDecimal | src/models/task.rs:43 | a non-negative `i32` id written in decimal parses back to itself |
| TaskModel.TaskTable.Insert | src/models/task.rs:90-106 | success equals the store outcome; on success one row is appended under a fresh id with date `now` and the next id advances by one; on failure neither the rows nor the next id change |
| TaskModel.TaskTable.InsertWithOldDate | src/models/task.rs:108-124 | the same insert, with date `2000-01-01`, and the same effect on the next id |
| TaskModel.TaskTable.Update | src/models/task.rs:126-139 | success equals the store outcome whether or not a row matches; the new rows are `Updated` |
| TaskModel.TaskTable.UpdateToToday | src/models/task.rs:141-150 | success equals the store outcome; the new rows are `Touched` with `now` |
| TaskModel.TaskTable.DeleteWithId | src/models/task.rs:152-159 | success equals the store outcome whether or not a row matches; the new rows are `Deleted` |
| TaskModel.TaskTable.DeleteAll | src/models/task.rs:161-165 | on success the table is empty |
| LabelRoutes.ContextErr | src/routes/label.rs:22-24 | the message is a warning with the given text; the labels are all labels sorted by name, or none when the load fails |
| LabelRoutes.ContextRaw | src/routes/label.rs:26-28 | the message is passed through unchanged; the labels are all labels sorted by name, or none when the load fails |
| LabelRoutes.SingleLabelContextRaw | src/routes/label.rs:32-34 | the context holds the table's row with that id |
| LabelRoutes.LabelEditContextRaw | src/routes/label.rs:38-40 | the context holds the message and the table's row with that id |
| LabelRoutes.PatternFound | src/routes/label.rs:46-49 | the unanchored regex search `#[[:xdigit:]]{6}$` succeeds exactly when the last seven characters are `#` and six hex digits |
| LabelRoutes.ColorExamples | src/routes/label.rs:46-49 | `red`, `#1234567`, `#12345` and the empty text are rejected; `#ababab`, `#5566ff`, `#eeeeee` and `red#aabbcc` are accepted |
| LabelRoutes.FormWarning | src/routes/label.rs:47-50 | the form passes exactly when the name is non-empty and the colour ends in a hex code; an empty name is reported first, even when the colour is also bad |
| LabelRoutes.NewLabelResponse | src/routes/label.rs:43-56 | every outcome redirects to `/label`; a failing check gives its warning (an empty name first); a valid form gives success "New label added." when the insert succeeds and warning "The server failed." when it fails |
| LabelRoutes.LabelUpdateResponse | src/routes/label.rs:66-80 | every outcome redirects to `/label/{id}/edit`; a failing check gives its warning; a valid form gives success "Label is updated." or warning "The server failed." |
| LabelRoutes.InvalidFormIgnoresStore | src/routes/label.rs:47-50 | for an invalid form the response does not depend on the store |
| LabelRoutes.LabelDeleteResponse | src/routes/label.rs:95-102 | success redirects to `/label` with "Your label was deleted."; failure renders `labeledit` with the warning "Couldn't delete label." and all labels sorted by name (none when the load fails) |
| LabelRoutes.LabelListPage | src/routes/label.rs:58-64 | renders `labellist` with the flash and all labels sorted by name, or none when the load fails |
| LabelRoutes.LabelEditPage | src/routes/label.rs:82-88 | renders `labeledit` with the flash and the label with that id |
| LabelRoutes.LabelConfirmPage | src/routes/label.rs:90-93 | renders `labelconfirm` with the label with that id |
| LabelRoutes.NewLabel | src/routes/label.rs:43-56 | returns `NewLabelResponse`; the table gains the form's row and the next id advances only when the form is valid and the store succeeds; otherwise rows and next id are unchanged |
| LabelRoutes.LabelUpdate | src/routes/label.rs:66-80 | returns `LabelUpdateResponse`; the rows are updated only when the form is valid and the store succeeds; the next id never changes |
| LabelRoutes.LabelDelete | src/routes/label.rs:95-102 | returns `LabelDeleteResponse` over the rows after the call; the rows are `Deleted` on success and unchanged on failure; the next id never changes |
| TaskRoutes.ContextErr | src/routes/task.rs:21-23 | a warning with the given text; all tasks oldest first and all labels sorted by name, each list empty when its load fails |
| TaskRoutes.ContextRaw | src/routes/task.rs:25-27 | the message passed through unchanged; all tasks oldest first and all labels sorted by name, each list empty when its load fails |
| TaskRoutes.SingleTaskContextRaw | src/routes/task.rs:32-34 | the message, the table's task with that id, and all labels sorted by name (none when the load fails) |
| TaskRoutes.TasksByLabelContextRaw | src/routes/task.rs:37-41 | the label must exist; the context holds that label and exactly the tasks that reference it (both directions), sorted by name |
| TaskRoutes.NewResponse | src/routes/task.rs:43-53 | every outcome redirects to `/`; an empty name gives warning "Please input task name."; otherwise success "New task added." or warning "The server failed." |
| TaskRoutes.UpdateResponse | src/routes/task.rs:85-96 | every outcome redirects to `/{id}`; an empty name gives the name warning; otherwise success "Your task was updated." or warning "The server failed." |
| TaskRoutes.UpdateDateResponse | src/routes/task.rs:68-75 | redirects to `/` with the "Last updated" success text, or with "The server failed." |
| TaskRoutes.DeleteResponse | src/routes/task.rs:103-110 | success redirects to `/` with "Your task was deleted."; failure renders `detail` with the warning "Couldn't delete task.", all tasks oldest first and all labels sorted by name |
| TaskRoutes.EmptyNameIgnoresStore | src/routes/task.rs:46-47 | with an empty name the `new` and `update` responses do not depend on the store |
| TaskRoutes.IndexPage | src/routes/task.rs:55-61 | renders `index` with the flash, all tasks oldest first and all labels sorted by name, each list empty when its load fails |
| TaskRoutes.TasksByLabelPage | src/routes/task.rs:63-66 | renders `tasksbylabel` with the label (a row of the table) and exactly the tasks that reference it, none listed more often than in the table, sorted by name |
| TaskRoutes.TaskDetailPage | src/routes/task.rs:77-83 | renders `detail` with the flash, the task with that id and all labels sorted by name |
| TaskRoutes.ConfirmPage | src/routes/task.rs:98-101 | renders `confirm` with no message, the task with that id and all labels sorted by name |
| TaskRoutes.New | src/routes/task.rs:43-53 | returns `NewResponse`; a named task is appended and the next id advances only when the store succeeds; otherwise rows and next id are unchanged |
| TaskRoutes.Update | src/routes/task.rs:85-96 | returns `UpdateResponse`; the rows are updated only for a named form with a successful store call; the next id never changes |
| TaskRoutes.UpdateDate | src/routes/task.rs:68-75 | returns `UpdateDateResponse`; the rows are `Touched` with `now` on success; the next id never changes |
| TaskRoutes.Delete | src/routes/task.rs:103-110 | returns `DeleteResponse` over the rows after the call; the rows are `Deleted` on success and unchanged on failure; the next id never changes |

## Left out

- SQL generation, Diesel, connection pooling and the async runtime are not modelled. Each statement is its effect on an in-memory sequence of rows. The store's success or failure is the `storeUp` parameter, because it depends on the database file.
- Foreign keys and cascades are not modelled, because they depend on migrations that are not part of this model. Deleting a label leaves its tasks' `label_id` as it was.
- Rowid assignment: a new row takes the table's `nextId` counter, which only grows. SQLite instead takes one more than the largest rowid. The two agree as long as the last row is never deleted.
- 32-bit overflow of ids is not modelled. Ids are unbounded integers.
- Forms arrive already parsed. A missing field is rejected with status 422 before any handler runs; that is framework code.
- The one field conversion the handlers depend on is modelled as `TaskModel.ParseLabelId`: text to `Option<i32>` for `label_id`.
- Time: `Local::now()` and its formatting are the text parameter `now`. `updated_at` is compared as text.
- `ORDER BY` is proved to give a sorted permutation. The order of rows with equal keys is not pinned down.
- LabelModel.LabelById, TaskModel.TaskById, TaskModel.TasksByLabel: these panic on a load error or a missing row, because they unwrap. The model makes the row's existence a precondition and does not model a failed load.
- TaskModel.AllById: `all_by_id` also unwraps its load (src/models/task.rs:62) and panics when it fails. The model always returns the rows and does not model that panic.
- Cookies, URL text and template output are not modelled. A response is a `Redirect` with a target and a flash, or a `Render` with a template name and its context value.
- `src/main.rs` is not part of this model: it is startup and route mounting.
- `src/task.rs` and `src/label.rs` are not part of this model: they are earlier versions of the repositories and are outside the module tree.
- `static/js/scripts.js` is not part of this model: it is browser theming.
- The route files call the repository without `.await`, while the repository functions are `async`. The model joins the two by what each call returns.

Where the code and its tests disagree, the model follows the code:

- TaskModel.Updated: `Task::update` overwrites `updated_at` with the form's value (src/models/task.rs:132). The update test (src/tests.rs:510, 528) expects the old date to be kept. The model does what the code does.
- TaskModel.InsertionOrder: `all_by_id` lists rows by ascending id (src/models/task.rs:62), so insertion order is listing order. The many-insertions test (src/tests.rs:290-298) compares against a reversed list.

Two handlers render a template with a context that template does not otherwise receive:

- LabelRoutes.LabelDeleteResponse: a failed label delete renders `labeledit` with the label-list context (`Context::err`). That template otherwise receives the single-label edit context.
- TaskRoutes.DeleteResponse: a failed task delete renders `detail` with the task-list context. That template otherwise receives the single-task context.
