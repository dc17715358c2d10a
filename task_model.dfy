/**
  The task repository: the `tasks` table and the queries and statements that
  `Task` issues against it. As for labels, reads are functions of the rows,
  writes are methods of `TaskTable` tied to functions that give the rows
  after the statement, and `storeUp = false` is a store call that errors.
  The clock is the parameter `now`: the text of the local time at the call.
*/
module TaskModel {
  import opened Query
  import LabelModel

  /** A row of `tasks`; `labelId` is the weak reference to a label. */
  datatype Task = Task(id: Option<int>, name: string, description: string, updatedAt: string, labelId: Option<int>)

  /** The new-task form: field `name`. */
  datatype TaskName = TaskName(name: string)

  /** The task edit form, with `label_id` already parsed (see `ParseLabelId`). */
  datatype TaskUpdate = TaskUpdate(name: string, description: string, updatedAt: string, labelId: Option<int>)

  function Id(t: Task): Option<int> { t.id }

  function Name(t: Task): string { t.name }

  function UpdatedAt(t: Task): string { t.updatedAt }

  /** `Task::all`: every row ordered by `updated_at` ascending, so the task
      left alone longest comes first; a failed load gives the empty list. */
  function All(rows: seq<Task>, loaded: bool): (r: seq<Task>)
    ensures loaded ==> multiset(r) == multiset(rows) && SortedBy(r, UpdatedAt)
    ensures !loaded ==> r == []
  {
    if loaded then OrderBy(rows, UpdatedAt) else []
  }

  /** `shown` is what `Task::all` gives for a table with `rows`: all of them,
      oldest date first, or nothing when the load failed. */
  predicate Listed(shown: seq<Task>, rows: seq<Task>, loaded: bool)
  {
    if loaded then multiset(shown) == multiset(rows) && SortedBy(shown, UpdatedAt) else shown == []
  }

  /** `Task::all_by_id`: every row in ascending id order. The table is kept
      in rowid order, so this is the table itself. */
  function AllById(rows: seq<Task>): (r: seq<Task>)
    requires Keyed(rows, Id)
    ensures multiset(r) == multiset(rows)
    ensures forall i, j :: 0 <= i < j < |r| ==> r[i].id.Some? && r[j].id.Some? && r[i].id.value < r[j].id.value
  {
    assert forall i :: 0 <= i < |rows| ==> Id(rows[i]) == rows[i].id;
    rows
  }

  /** `Task::task_by_id`: the first row with that id; the source unwraps, so
      a missing id is a precondition. */
  function TaskById(rows: seq<Task>, id: int): (r: Task)
    requires Has(rows, Id, id)
    ensures r in rows && r.id == Some(id)
  {
    var i :| 0 <= i < |rows| && rows[i].id == Some(id);
    assert IdIs(Id, id)(rows[i]);
    Filter(rows, IdIs(Id, id))[0]
  }

  /** In a keyed table the lookup returns the one row holding the id. */
  lemma TaskByIdAt(rows: seq<Task>, i: int)
    requires Keyed(rows, Id) && 0 <= i < |rows|
    ensures Has(rows, Id, rows[i].id.value)
    ensures TaskById(rows, rows[i].id.value) == rows[i]
  {
    UniqueKeyMatch(rows, Id, i);
  }

  /** The filter of `Task::belonging_to(label)`: `label_id = label.id`. The
      label's id is never null, so a task without a label never matches. */
  function LabelIs(labelId: int): Task -> bool
  {
    (t: Task) => t.labelId == Some(labelId)
  }

  /** `Task::tasks_by_label`: the label is looked up first (and unwrapped, so
      it must exist); then the tasks that reference it, ordered by `name`. */
  function TasksByLabel(rows: seq<Task>, labels: seq<LabelModel.Label>, labelId: int): (r: seq<Task>)
    requires Has(labels, LabelModel.Id, labelId)
    ensures forall i :: 0 <= i < |r| ==> r[i] in rows && r[i].labelId == Some(labelId)
    ensures forall i :: 0 <= i < |rows| && rows[i].labelId == Some(labelId) ==> rows[i] in r
    ensures multiset(r) <= multiset(rows)
    ensures SortedBy(r, Name)
  {
    var owner := LabelModel.LabelById(labels, labelId);
    var matching := Filter(rows, LabelIs(owner.id.value));
    var r := OrderBy(matching, Name);
    SameMembers(r, matching);
    assert forall t :: LabelIs(owner.id.value)(t) == (t.labelId == Some(labelId));
    r
  }

  /** The row that an insert writes, with the id the store assigns. */
  function RowOf(id: int, name: string, updatedAt: string): Task
  {
    Task(Some(id), name, "", updatedAt, None)
  }

  /** Rows after `INSERT INTO tasks` of a task with the given name and date:
      empty description, no label. */
  function Inserted(rows: seq<Task>, id: int, name: string, updatedAt: string): (r: seq<Task>)
    ensures |r| == |rows| + 1 && r[..|rows|] == rows
    ensures r[|rows|] == Task(Some(id), name, "", updatedAt, None)
  {
    rows + [RowOf(id, name, updatedAt)]
  }

  /** The fixed date that `insert_with_old_date` writes. */
  const OldDate: string := "2000-01-01"

  /** Rows after `UPDATE tasks SET name, description, updated_at, label_id
      WHERE id = id`: all four columns come from the form. */
  function Updated(rows: seq<Task>, id: int, form: TaskUpdate): (r: seq<Task>)
    ensures |r| == |rows|
    ensures forall i :: 0 <= i < |rows| && rows[i].id == Some(id) ==>
      r[i] == Task(rows[i].id, form.name, form.description, form.updatedAt, form.labelId)
    ensures forall i :: 0 <= i < |rows| && rows[i].id != Some(id) ==> r[i] == rows[i]
  {
    assert forall i :: 0 <= i < |rows| ==> Id(rows[i]) == rows[i].id;
    SetWhere(rows, IdIs(Id, id), (t: Task) =>
      t.(name := form.name, description := form.description, updatedAt := form.updatedAt, labelId := form.labelId))
  }

  /** Rows after `UPDATE tasks SET updated_at = now WHERE id = id`. */
  function Touched(rows: seq<Task>, id: int, now: string): (r: seq<Task>)
    ensures |r| == |rows|
    ensures forall i :: 0 <= i < |rows| && rows[i].id == Some(id) ==> r[i] == rows[i].(updatedAt := now)
    ensures forall i :: 0 <= i < |rows| && rows[i].id != Some(id) ==> r[i] == rows[i]
  {
    assert forall i :: 0 <= i < |rows| ==> Id(rows[i]) == rows[i].id;
    SetWhere(rows, IdIs(Id, id), (t: Task) => t.(updatedAt := now))
  }

  /** Rows after `DELETE FROM tasks WHERE id = id`. */
  function Deleted(rows: seq<Task>, id: int): (r: seq<Task>)
    ensures forall i :: 0 <= i < |r| ==> r[i].id != Some(id) && r[i] in rows
    ensures forall i :: 0 <= i < |rows| && rows[i].id != Some(id) ==> rows[i] in r
  {
    Filter(rows, IdIsNot(Id, id))
  }

  /** A task just inserted under a fresh id reads back with its name, the
      given date, an empty description and no label. */
  lemma {:induction false} InsertThenGet(rows: seq<Task>, id: int, name: string, now: string)
    requires Keyed(rows, Id) && Below(rows, Id, id)
    ensures Has(Inserted(rows, id, name, now), Id, id)
    ensures TaskById(Inserted(rows, id, name, now), id) == Task(Some(id), name, "", now, None)
  {
    var r := Inserted(rows, id, name, now);
    AppendKeyed(rows, Id, RowOf(id, name, now), id);
    TaskByIdAt(r, |rows|);
  }

  /** Deleting the id that was just inserted restores the table. */
  lemma {:induction false} InsertThenDelete(rows: seq<Task>, id: int, name: string, now: string)
    requires Keyed(rows, Id) && Below(rows, Id, id)
    ensures Deleted(Inserted(rows, id, name, now), id) == rows
  {
    var r := Inserted(rows, id, name, now);
    AppendKeyed(rows, Id, RowOf(id, name, now), id);
    UniqueKeyDelete(r, Id, |rows|);
    assert r[..|rows|] == rows && r[|rows| + 1..] == [];
  }

  /** The rows that inserting `names` one after another under consecutive
      fresh ids produces. */
  function InsertedAll(rows: seq<Task>, id: int, names: seq<string>, now: string): seq<Task>
    decreases |names|
  {
    if names == [] then rows
    else InsertedAll(Inserted(rows, id, names[0], now), id + 1, names[1..], now)
  }

  /** Inserting several tasks one after another and listing by id gives the
      old rows followed by the new tasks in insertion order. */
  lemma {:induction false} InsertionOrder(rows: seq<Task>, id: int, names: seq<string>, now: string)
    requires Keyed(rows, Id) && Below(rows, Id, id)
    ensures Keyed(InsertedAll(rows, id, names, now), Id)
    ensures |AllById(InsertedAll(rows, id, names, now))| == |rows| + |names|
    ensures AllById(InsertedAll(rows, id, names, now))[..|rows|] == rows
    ensures forall j :: 0 <= j < |names| ==>
      AllById(InsertedAll(rows, id, names, now))[|rows| + j] == Task(Some(id + j), names[j], "", now, None)
    decreases |names|
  {
    if names != [] {
      var next := Inserted(rows, id, names[0], now);
      AppendKeyed(rows, Id, RowOf(id, names[0], now), id);
      InsertionOrder(next, id + 1, names[1..], now);
      var all := InsertedAll(rows, id, names, now);
      assert all == InsertedAll(next, id + 1, names[1..], now);
      assert all[..|rows|] == all[..|next|][..|rows|];
      forall j | 0 <= j < |names|
        ensures all[|rows| + j] == Task(Some(id + j), names[j], "", now, None)
      {
        if j > 0 {
          assert all[|next| + (j - 1)] == Task(Some(id + 1 + (j - 1)), names[1..][j - 1], "", now, None);
        } else {
          assert all[|rows|] == all[..|next|][|rows|];
        }
      }
    }
  }

  /** After an update of an existing id, the row reads back with every
      column from the form, `updated_at` included. */
  lemma {:induction false} UpdateThenGet(rows: seq<Task>, id: int, form: TaskUpdate)
    requires Keyed(rows, Id) && Has(rows, Id, id)
    ensures Keyed(Updated(rows, id, form), Id) && Has(Updated(rows, id, form), Id, id)
    ensures TaskById(Updated(rows, id, form), id) ==
      Task(Some(id), form.name, form.description, form.updatedAt, form.labelId)
  {
    var r := Updated(rows, id, form);
    var i :| 0 <= i < |rows| && rows[i].id == Some(id);
    assert forall j :: 0 <= j < |rows| ==> r[j].id == rows[j].id;
    TaskByIdAt(r, i);
  }

  /** An updated task is listed under label `l` exactly when the form set its
      label to `l`; an empty label field (`None`) takes it out of every list. */
  lemma {:induction false} UpdateThenByLabel(rows: seq<Task>, labels: seq<LabelModel.Label>, id: int, form: TaskUpdate, l: int)
    requires Keyed(rows, Id) && Has(rows, Id, id) && Has(labels, LabelModel.Id, l)
    ensures Has(Updated(rows, id, form), Id, id)
    ensures TaskById(Updated(rows, id, form), id) in TasksByLabel(Updated(rows, id, form), labels, l)
      <==> form.labelId == Some(l)
  {
    UpdateThenGet(rows, id, form);
    var r := Updated(rows, id, form);
    var t := TaskById(r, id);
    var i :| 0 <= i < |r| && r[i] == t;
    if form.labelId == Some(l) {
      assert r[i].labelId == Some(l);
    }
  }

  /** Submitting the edit form with an empty `label_id` field clears the
      task's label. */
  lemma {:induction false} EmptyLabelFieldClears(rows: seq<Task>, id: int, form: TaskUpdate)
    requires Keyed(rows, Id) && Has(rows, Id, id) && form.labelId == ParseLabelId("")
    ensures Has(Updated(rows, id, form), Id, id)
    ensures TaskById(Updated(rows, id, form), id).labelId == None
  {
    UpdateThenGet(rows, id, form);
  }

  /** Touching an existing id sets its date to `now` and keeps its name,
      description and label. */
  lemma {:induction false} TouchThenGet(rows: seq<Task>, id: int, now: string)
    requires Keyed(rows, Id) && Has(rows, Id, id)
    ensures Keyed(Touched(rows, id, now), Id) && Has(Touched(rows, id, now), Id, id)
    ensures TaskById(Touched(rows, id, now), id) == TaskById(rows, id).(updatedAt := now)
  {
    var r := Touched(rows, id, now);
    var i :| 0 <= i < |rows| && rows[i].id == Some(id);
    assert forall j :: 0 <= j < |rows| ==> r[j].id == rows[j].id;
    TaskByIdAt(rows, i);
    TaskByIdAt(r, i);
  }

  /** An update or a touch whose id matches no row leaves the table as it was. */
  lemma WriteMissing(rows: seq<Task>, id: int, form: TaskUpdate, now: string)
    requires !Has(rows, Id, id)
    ensures Updated(rows, id, form) == rows
    ensures Touched(rows, id, now) == rows
  {
  }

  /** Deleting an existing id removes exactly its row. */
  lemma {:induction false} DeleteExisting(rows: seq<Task>, i: int)
    requires Keyed(rows, Id) && 0 <= i < |rows|
    ensures Deleted(rows, rows[i].id.value) == rows[..i] + rows[i + 1..]
    ensures |Deleted(rows, rows[i].id.value)| == |rows| - 1
    ensures !Has(Deleted(rows, rows[i].id.value), Id, rows[i].id.value)
  {
    UniqueKeyDelete(rows, Id, i);
  }

  /** Deleting an id that matches no row leaves the table as it was. */
  lemma {:induction false} DeleteMissing(rows: seq<Task>, id: int)
    requires !Has(rows, Id, id)
    ensures Deleted(rows, id) == rows
  {
    NoKeyFilter(rows, Id, id);
  }

  // The `label_id` form field. The form declares it `Option<i32>`: the text
  // is parsed as a Rust `i32` and any text that does not parse, the empty
  // text included, becomes `None`.

  const I32Max: int := 0x7FFF_FFFF
  const I32Min: int := -0x8000_0000

  predicate IsDigit(c: char) { '0' <= c <= '9' }

  predicate AllDigits(s: string) { forall k :: 0 <= k < |s| ==> IsDigit(s[k]) }

  /** The value of a string of decimal digits. */
  function DigitsValue(s: string): nat
    requires AllDigits(s)
  {
    if s == [] then 0 else DigitsValue(s[..|s| - 1]) * 10 + (s[|s| - 1] as int - '0' as int)
  }

  /** The `label_id` field as the form hands it to `update`, parsed by
      `i32::from_str`: an optional sign, then at least one decimal digit, with
      the value in the 32-bit range. */
  function ParseLabelId(field: string): (r: Option<int>)
    ensures field == "" ==> r == None
    ensures r.Some? ==> I32Min <= r.value <= I32Max
    ensures field != [] && AllDigits(field) ==>
      r == if DigitsValue(field) <= I32Max then Some(DigitsValue(field)) else None
    ensures |field| > 1 && field[0] == '-' && AllDigits(field[1..]) ==>
      r == if DigitsValue(field[1..]) <= -I32Min then Some(-(DigitsValue(field[1..]) as int)) else None
    ensures |field| > 1 && field[0] == '+' && AllDigits(field[1..]) ==>
      r == if DigitsValue(field[1..]) <= I32Max then Some(DigitsValue(field[1..])) else None
    ensures |field| > 0 && !IsDigit(field[0]) && field[0] != '-' && field[0] != '+' ==> r == None
    ensures (exists k :: 1 <= k < |field| && !IsDigit(field[k])) ==> r == None
    ensures |field| == 1 && !IsDigit(field[0]) ==> r == None
  {
    var neg := |field| > 0 && field[0] == '-';
    var digits := if |field| > 0 && (field[0] == '-' || field[0] == '+') then field[1..] else field;
    if digits == [] || !AllDigits(digits) then None
    else
      var magnitude: int := DigitsValue(digits);
      var v := if neg then -magnitude else magnitude;
      if I32Min <= v <= I32Max then Some(v) else None
  }

  /** Decimal text of a non-negative id, as the edit page writes it. */
  function Decimal(n: nat): string
  {
    if n < 10 then [('0' as int + n) as char]
    else Decimal(n / 10) + [('0' as int + n % 10) as char]
  }

  lemma {:induction false} DecimalDigits(n: nat)
    ensures Decimal(n) != [] && AllDigits(Decimal(n)) && DigitsValue(Decimal(n)) == n
  {
    if n >= 10 {
      DecimalDigits(n / 10);
      var s := Decimal(n);
      assert s[..|s| - 1] == Decimal(n / 10);
    }
  }

  /** A non-negative id written in decimal parses back to itself. */
  lemma ParseDecimal(n: nat)
    requires n <= I32Max
    ensures ParseLabelId(Decimal(n)) == Some(n)
  {
    DecimalDigits(n);
  }

  /** The `tasks` table: rows in rowid order and the next rowid to assign. */
  class TaskTable {
    var rows: seq<Task>
    var nextId: int

    ghost predicate Valid()
      reads this
    {
      Keyed(rows, Id) && Below(rows, Id, nextId)
    }

    constructor ()
      ensures Valid() && rows == []
    {
      rows := [];
      nextId := 1;
    }

    /** `Task::insert` at time `now`: on success one new row under a fresh
        id; nothing else changes. */
    method Insert(form: TaskName, now: string, storeUp: bool) returns (ok: bool)
      requires Valid()
      modifies this
      ensures Valid()
      ensures ok == storeUp
      ensures ok ==> !Has(old(rows), Id, old(nextId)) && rows == Inserted(old(rows), old(nextId), form.name, now)
      ensures !ok ==> rows == old(rows)
      ensures nextId == if ok then old(nextId) + 1 else old(nextId)
    {
      ok := InsertDated(form.name, now, storeUp);
    }

    /** `Task::insert_with_old_date`: an insert dated `2000-01-01`. */
    method InsertWithOldDate(name: string, storeUp: bool) returns (ok: bool)
      requires Valid()
      modifies this
      ensures Valid()
      ensures ok == storeUp
      ensures ok ==> !Has(old(rows), Id, old(nextId)) && rows == Inserted(old(rows), old(nextId), name, OldDate)
      ensures !ok ==> rows == old(rows)
      ensures nextId == if ok then old(nextId) + 1 else old(nextId)
    {
      ok := InsertDated(name, OldDate, storeUp);
    }

    /** The insert statement shared by both inserts. */
    method InsertDated(name: string, updatedAt: string, storeUp: bool) returns (ok: bool)
      requires Valid()
      modifies this
      ensures Valid()
      ensures ok == storeUp
      ensures ok ==> !Has(old(rows), Id, old(nextId)) && rows == Inserted(old(rows), old(nextId), name, updatedAt)
      ensures !ok ==> rows == old(rows)
      ensures nextId == if ok then old(nextId) + 1 else old(nextId)
    {
      ok := storeUp;
      if ok {
        BelowNotHas(rows, Id, nextId);
        AppendKeyed(rows, Id, RowOf(nextId, name, updatedAt), nextId);
        rows := Inserted(rows, nextId, name, updatedAt);
        nextId := nextId + 1;
      }
    }

    /** `Task::update`: success depends only on the store call. */
    method Update(id: int, form: TaskUpdate, storeUp: bool) returns (ok: bool)
      requires Valid()
      modifies this`rows
      ensures Valid()
      ensures ok == storeUp
      ensures rows == if ok then Updated(old(rows), id, form) else old(rows)
    {
      ok := storeUp;
      if ok {
        SetWhereKeyed(rows, Id, IdIs(Id, id), (t: Task) =>
          t.(name := form.name, description := form.description, updatedAt := form.updatedAt, labelId := form.labelId), nextId);
        rows := Updated(rows, id, form);
      }
    }

    /** `Task::update_to_today` at time `now`. */
    method UpdateToToday(id: int, now: string, storeUp: bool) returns (ok: bool)
      requires Valid()
      modifies this`rows
      ensures Valid()
      ensures ok == storeUp
      ensures rows == if ok then Touched(old(rows), id, now) else old(rows)
    {
      ok := storeUp;
      if ok {
        SetWhereKeyed(rows, Id, IdIs(Id, id), (t: Task) => t.(updatedAt := now), nextId);
        rows := Touched(rows, id, now);
      }
    }

    /** `Task::delete_with_id`: success depends only on the store call. */
    method DeleteWithId(id: int, storeUp: bool) returns (ok: bool)
      requires Valid()
      modifies this`rows
      ensures Valid()
      ensures ok == storeUp
      ensures rows == if ok then Deleted(old(rows), id) else old(rows)
    {
      ok := storeUp;
      if ok {
        FilterKeyed(rows, Id, IdIsNot(Id, id), nextId);
        rows := Deleted(rows, id);
      }
    }

    /** `Task::delete_all`: on success the table is empty. */
    method DeleteAll(storeUp: bool) returns (ok: bool)
      requires Valid()
      modifies this`rows
      ensures Valid()
      ensures ok == storeUp
      ensures rows == if ok then [] else old(rows)
    {
      ok := storeUp;
      if ok {
        rows := [];
      }
    }
  }
}
