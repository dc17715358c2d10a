/**
  The label repository: the `labels` table and the queries and statements
  that `Label` issues against it. Reads are functions of the table's rows;
  writes are methods of `LabelTable`, each tied to a function that gives the
  rows after the statement. A store call that errors is the `storeUp = false`
  case: the statement then changes nothing and the call returns false.
*/
module LabelModel {
  import opened Query

  /** A row of `labels`. `id` is `None` only on a value not yet inserted. */
  datatype Label = Label(id: Option<int>, name: string, colorHex: string)

  /** The submitted label form: fields `name` and `color`. */
  datatype LabelForm = LabelForm(name: string, color: string)

  function Id(l: Label): Option<int> { l.id }

  function Name(l: Label): string { l.name }

  /** `Label::all`: every row ordered by `name`; a failed load gives the
      empty list rather than an error. */
  function All(rows: seq<Label>, loaded: bool): (r: seq<Label>)
    ensures loaded ==> multiset(r) == multiset(rows) && SortedBy(r, Name)
    ensures !loaded ==> r == []
  {
    if loaded then OrderBy(rows, Name) else []
  }

  /** `shown` is what `Label::all` gives for a table with `rows`: all of
      them sorted by name, or nothing when the load failed. */
  predicate Listed(shown: seq<Label>, rows: seq<Label>, loaded: bool)
  {
    if loaded then multiset(shown) == multiset(rows) && SortedBy(shown, Name) else shown == []
  }

  /** `Label::label_by_id`: the first row with that id. The source unwraps
      the result, so a missing id is a precondition here. */
  function LabelById(rows: seq<Label>, id: int): (r: Label)
    requires Has(rows, Id, id)
    ensures r in rows && r.id == Some(id)
  {
    var i :| 0 <= i < |rows| && rows[i].id == Some(id);
    assert IdIs(Id, id)(rows[i]);
    Filter(rows, IdIs(Id, id))[0]
  }

  /** In a keyed table the lookup returns the one row holding the id. */
  lemma LabelByIdAt(rows: seq<Label>, i: int)
    requires Keyed(rows, Id) && 0 <= i < |rows|
    ensures Has(rows, Id, rows[i].id.value)
    ensures LabelById(rows, rows[i].id.value) == rows[i]
  {
    UniqueKeyMatch(rows, Id, i);
  }

  /** The row that `insert` writes, with the id the store assigns. */
  function RowOf(id: int, form: LabelForm): Label
  {
    Label(Some(id), form.name, form.color)
  }

  /** Rows after `INSERT INTO labels` of the form with store-assigned `id`. */
  function Inserted(rows: seq<Label>, id: int, form: LabelForm): (r: seq<Label>)
    ensures |r| == |rows| + 1 && r[..|rows|] == rows
    ensures r[|rows|] == Label(Some(id), form.name, form.color)
  {
    rows + [RowOf(id, form)]
  }

  /** Rows after `UPDATE labels SET name, color_hex WHERE id = id`. */
  function Updated(rows: seq<Label>, id: int, form: LabelForm): (r: seq<Label>)
    ensures |r| == |rows|
    ensures forall i :: 0 <= i < |rows| ==> r[i].id == rows[i].id
    ensures forall i :: 0 <= i < |rows| && rows[i].id == Some(id) ==>
      r[i].name == form.name && r[i].colorHex == form.color
    ensures forall i :: 0 <= i < |rows| && rows[i].id != Some(id) ==> r[i] == rows[i]
  {
    assert forall i :: 0 <= i < |rows| ==> Id(rows[i]) == rows[i].id;
    SetWhere(rows, IdIs(Id, id), (l: Label) => l.(name := form.name, colorHex := form.color))
  }

  /** Rows after `DELETE FROM labels WHERE id = id`. */
  function Deleted(rows: seq<Label>, id: int): (r: seq<Label>)
    ensures forall i :: 0 <= i < |r| ==> r[i].id != Some(id) && r[i] in rows
    ensures forall i :: 0 <= i < |rows| && rows[i].id != Some(id) ==> rows[i] in r
  {
    Filter(rows, IdIsNot(Id, id))
  }

  /** A label just inserted under a fresh id reads back with the form's name
      and colour. */
  lemma {:induction false} InsertThenGet(rows: seq<Label>, id: int, form: LabelForm)
    requires Keyed(rows, Id) && Below(rows, Id, id)
    ensures Has(Inserted(rows, id, form), Id, id)
    ensures LabelById(Inserted(rows, id, form), id) == Label(Some(id), form.name, form.color)
  {
    var r := Inserted(rows, id, form);
    AppendKeyed(rows, Id, RowOf(id, form), id);
    LabelByIdAt(r, |rows|);
  }

  /** Deleting the id that was just inserted restores the table. */
  lemma {:induction false} InsertThenDelete(rows: seq<Label>, id: int, form: LabelForm)
    requires Keyed(rows, Id) && Below(rows, Id, id)
    ensures Deleted(Inserted(rows, id, form), id) == rows
  {
    var r := Inserted(rows, id, form);
    AppendKeyed(rows, Id, RowOf(id, form), id);
    UniqueKeyDelete(r, Id, |rows|);
    assert r[..|rows|] == rows && r[|rows| + 1..] == [];
  }

  /** After an update of an existing id, the row reads back with the form's
      name and colour under the same id, and the table stays keyed. */
  lemma {:induction false} UpdateThenGet(rows: seq<Label>, id: int, form: LabelForm)
    requires Keyed(rows, Id) && Has(rows, Id, id)
    ensures Keyed(Updated(rows, id, form), Id) && Has(Updated(rows, id, form), Id, id)
    ensures LabelById(Updated(rows, id, form), id) == Label(Some(id), form.name, form.color)
  {
    var r := Updated(rows, id, form);
    var i :| 0 <= i < |rows| && rows[i].id == Some(id);
    assert forall j :: 0 <= j < |rows| ==> r[j].id == rows[j].id;
    LabelByIdAt(r, i);
  }

  /** An update whose id matches no row leaves the table as it was. */
  lemma UpdateMissing(rows: seq<Label>, id: int, form: LabelForm)
    requires !Has(rows, Id, id)
    ensures Updated(rows, id, form) == rows
  {
  }

  /** Deleting an existing id removes exactly its row: one row fewer, the
      others in their order. */
  lemma {:induction false} DeleteExisting(rows: seq<Label>, i: int)
    requires Keyed(rows, Id) && 0 <= i < |rows|
    ensures Deleted(rows, rows[i].id.value) == rows[..i] + rows[i + 1..]
    ensures |Deleted(rows, rows[i].id.value)| == |rows| - 1
    ensures !Has(Deleted(rows, rows[i].id.value), Id, rows[i].id.value)
  {
    UniqueKeyDelete(rows, Id, i);
  }

  /** Deleting an id that matches no row leaves the table as it was. */
  lemma {:induction false} DeleteMissing(rows: seq<Label>, id: int)
    requires !Has(rows, Id, id)
    ensures Deleted(rows, id) == rows
  {
    NoKeyFilter(rows, Id, id);
  }

  /** The `labels` table: rows in rowid order and the next rowid to assign. */
  class LabelTable {
    var rows: seq<Label>
    var nextId: int

    ghost predicate Valid()
      reads this
    {
      Keyed(rows, Id) && Below(rows, Id, nextId)
    }

    constructor ()
      ensures Valid() && rows == []
    {
      rows := [];
      nextId := 1;
    }

    /** `Label::insert`: on success the form becomes one new row under a
        fresh id; nothing else changes. */
    method Insert(form: LabelForm, storeUp: bool) returns (ok: bool)
      requires Valid()
      modifies this
      ensures Valid()
      ensures ok == storeUp
      ensures ok ==> !Has(old(rows), Id, old(nextId)) && rows == Inserted(old(rows), old(nextId), form)
      ensures !ok ==> rows == old(rows)
      ensures nextId == if ok then old(nextId) + 1 else old(nextId)
    {
      ok := storeUp;
      if ok {
        BelowNotHas(rows, Id, nextId);
        AppendKeyed(rows, Id, RowOf(nextId, form), nextId);
        rows := Inserted(rows, nextId, form);
        nextId := nextId + 1;
      }
    }

    /** `Label::update`: success depends only on the store call, not on
        whether a row has the id. */
    method Update(id: int, form: LabelForm, storeUp: bool) returns (ok: bool)
      requires Valid()
      modifies this`rows
      ensures Valid()
      ensures ok == storeUp
      ensures rows == if ok then Updated(old(rows), id, form) else old(rows)
    {
      ok := storeUp;
      if ok {
        SetWhereKeyed(rows, Id, IdIs(Id, id), (l: Label) => l.(name := form.name, colorHex := form.color), nextId);
        rows := Updated(rows, id, form);
      }
    }

    /** `Label::delete_with_id`: success depends only on the store call. */
    method DeleteWithId(id: int, storeUp: bool) returns (ok: bool)
      requires Valid()
      modifies this`rows
      ensures Valid()
      ensures ok == storeUp
      ensures rows == if ok then Deleted(old(rows), id) else old(rows)
    {
      ok := storeUp;
      if ok {
        FilterKeyed(rows, Id, IdIsNot(Id, id), nextId);
        rows := Deleted(rows, id);
      }
    }

    /** `Label::delete_all`: on success the table is empty. */
    method DeleteAll(storeUp: bool) returns (ok: bool)
      requires Valid()
      modifies this`rows
      ensures Valid()
      ensures ok == storeUp
      ensures rows == if ok then [] else old(rows)
    {
      ok := storeUp;
      if ok {
        rows := [];
      }
    }
  }
}
