/**
  The label routes: the colour check, the decision chains of the handlers
  that create, update and delete a label, and the contexts the label pages
  are rendered with. Each decision is a function of the parsed form and the
  repository's outcome; the handler methods make the repository call (only
  when validation passes) and return that function's response.
*/
module LabelRoutes {
  import opened Query
  import opened Web
  import opened LabelModel

  /** The contexts of the label templates. */
  datatype View =
    | Context(msg: Option<Msg>, labels: seq<Label>)
    | SingleLabelContext(labelRow: Label)
    | LabelEditContext(msg: Option<Msg>, labelRow: Label)

  /** `Context::err`: a warning with the given text, and all labels. */
  function ContextErr(rows: seq<Label>, loaded: bool, text: string): (c: View)
    ensures c.Context? && c.msg == Some(Msg("warning", text))
    ensures Listed(c.labels, rows, loaded)
  {
    Context(Some(Warning(text)), All(rows, loaded))
  }

  /** `Context::raw`: the given message, unchanged, and all labels. */
  function ContextRaw(rows: seq<Label>, loaded: bool, msg: Option<Msg>): (c: View)
    ensures c.Context? && c.msg == msg
    ensures Listed(c.labels, rows, loaded)
  {
    Context(msg, All(rows, loaded))
  }

  /** `SingleLabelContext::raw`: the label with that id, which must exist. */
  function SingleLabelContextRaw(rows: seq<Label>, id: int): (c: View)
    requires Has(rows, LabelModel.Id, id)
    ensures c.SingleLabelContext? && c.labelRow in rows && c.labelRow.id == Some(id)
  {
    SingleLabelContext(LabelById(rows, id))
  }

  /** `LabelEditContext::raw`: the given message and the label with that id. */
  function LabelEditContextRaw(rows: seq<Label>, id: int, msg: Option<Msg>): (c: View)
    requires Has(rows, LabelModel.Id, id)
    ensures c.LabelEditContext? && c.msg == msg && c.labelRow in rows && c.labelRow.id == Some(id)
  {
    LabelEditContext(msg, LabelById(rows, id))
  }

  // The colour check: the regex `#[[:xdigit:]]{6}$`, which `is_match` may
  // find anywhere in the text, with `$` meaning the end of the text.

  /** `[[:xdigit:]]`: an ASCII hexadecimal digit. */
  predicate IsXDigit(c: char)
  {
    '0' <= c <= '9' || 'a' <= c <= 'f' || 'A' <= c <= 'F'
  }

  /** The pattern matches starting at position `p`: `#`, six hex digits, and
      then the end of the text. */
  predicate MatchesAt(s: string, p: int)
  {
    0 <= p && p + 7 == |s| && s[p] == '#' && forall k :: p < k < |s| ==> IsXDigit(s[k])
  }

  /** The colour rule in plain terms: the last seven characters are `#` and
      six hex digits; whatever precedes them is not looked at. */
  predicate EndsWithHexColor(s: string)
  {
    |s| >= 7 && s[|s| - 7] == '#' && forall k :: |s| - 6 <= k < |s| ==> IsXDigit(s[k])
  }

  /** `Regex::is_match`: the pattern matches starting somewhere in the text,
      which happens exactly when the text ends in a colour code. */
  predicate PatternFound(s: string): (found: bool)
    ensures found <==> EndsWithHexColor(s)
  {
    assert EndsWithHexColor(s) ==> MatchesAt(s, |s| - 7);
    exists p | 0 <= p <= |s| :: MatchesAt(s, p)
  }

  /** The colour values the handlers' tests submit, and a text with a prefix. */
  lemma ColorExamples()
    ensures !PatternFound("red") && !PatternFound("#1234567") && !PatternFound("#12345") && !PatternFound("")
    ensures PatternFound("#ababab") && PatternFound("#5566ff") && PatternFound("#eeeeee")
    ensures PatternFound("red#aabbcc")
  {
    assert EndsWithHexColor("#ababab") && EndsWithHexColor("#5566ff") && EndsWithHexColor("#eeeeee");
    assert EndsWithHexColor("red#aabbcc");
  }

  const NoName: string := "Please input label name."
  const BadColor: string := "Please input label color with hex format."

  /** The validation shared by `new_label` and `label_update`: the first
      failing rule gives the warning; `None` lets the store call go ahead. */
  function FormWarning(form: LabelForm): (w: Option<string>)
    ensures w.None? <==> form.name != "" && EndsWithHexColor(form.color)
    ensures form.name == "" ==> w == Some(NoName)
    ensures form.name != "" && !EndsWithHexColor(form.color) ==> w == Some(BadColor)
  {
    if form.name == "" then Some(NoName)
    else if form.color == "" || !PatternFound(form.color) then Some(BadColor)
    else None
  }

  /** `new_label`'s decision: every outcome redirects to `/label`; success
      only when the form is valid and the insert succeeded. */
  function NewLabelResponse(form: LabelForm, inserted: bool): (r: Response<View>)
    ensures r.Redirect? && r.target == LabelList
    ensures r.flash.kind == "success" <==> FormWarning(form).None? && inserted
    ensures FormWarning(form).Some? ==> r.flash == Msg("warning", FormWarning(form).value)
    ensures FormWarning(form).None? ==>
      r.flash == if inserted then Msg("success", "New label added.") else Msg("warning", ServerFailed)
  {
    match FormWarning(form)
    case Some(w) => Redirect(LabelList, Warning(w))
    case None => Redirect(LabelList, if inserted then Success("New label added.") else Warning(ServerFailed))
  }

  /** `label_update`'s decision: the same checks, and every outcome
      redirects back to the label's edit page. */
  function LabelUpdateResponse(id: int, form: LabelForm, updated: bool): (r: Response<View>)
    ensures r.Redirect? && r.target == LabelEdit(id)
    ensures r.flash.kind == "success" <==> FormWarning(form).None? && updated
    ensures FormWarning(form).Some? ==> r.flash == Msg("warning", FormWarning(form).value)
    ensures FormWarning(form).None? ==>
      r.flash == if updated then Msg("success", "Label is updated.") else Msg("warning", ServerFailed)
  {
    match FormWarning(form)
    case Some(w) => Redirect(LabelEdit(id), Warning(w))
    case None => Redirect(LabelEdit(id), if updated then Success("Label is updated.") else Warning(ServerFailed))
  }

  /** When validation fails, the response does not depend on the store's
      outcome: the store is not consulted. */
  lemma InvalidFormIgnoresStore(id: int, form: LabelForm)
    requires form.name == "" || !EndsWithHexColor(form.color)
    ensures NewLabelResponse(form, true) == NewLabelResponse(form, false)
    ensures LabelUpdateResponse(id, form, true) == LabelUpdateResponse(id, form, false)
  {
  }

  /** `label_delete`'s decision: a deleted label redirects to `/label`; a
      failed delete re-renders `labeledit` with a warning and all labels. */
  function LabelDeleteResponse(deleted: bool, rows: seq<Label>, loaded: bool): (r: Response<View>)
    ensures deleted ==> r == Redirect(LabelList, Msg("success", "Your label was deleted."))
    ensures !deleted ==> r.Render? && r.template == "labeledit" && r.context.Context?
    ensures !deleted ==> r.context.msg == Some(Msg("warning", "Couldn't delete label."))
    ensures !deleted ==> Listed(r.context.labels, rows, loaded)
  {
    if deleted then Redirect(LabelList, Success("Your label was deleted."))
    else Render("labeledit", ContextErr(rows, loaded, "Couldn't delete label."))
  }

  /** `label_list`: the `labellist` page with the flash, if any, and all labels. */
  function LabelListPage(rows: seq<Label>, loaded: bool, msg: Option<Msg>): (r: Response<View>)
    ensures r.Render? && r.template == "labellist" && r.context.Context? && r.context.msg == msg
    ensures Listed(r.context.labels, rows, loaded)
  {
    Render("labellist", ContextRaw(rows, loaded, msg))
  }

  /** `label_edit`: the `labeledit` page for an existing label. */
  function LabelEditPage(rows: seq<Label>, id: int, msg: Option<Msg>): (r: Response<View>)
    requires Has(rows, LabelModel.Id, id)
    ensures r.Render? && r.template == "labeledit" && r.context.LabelEditContext?
    ensures r.context.msg == msg && r.context.labelRow in rows && r.context.labelRow.id == Some(id)
  {
    Render("labeledit", LabelEditContextRaw(rows, id, msg))
  }

  /** `label_confirm`: the `labelconfirm` page for an existing label. */
  function LabelConfirmPage(rows: seq<Label>, id: int): (r: Response<View>)
    requires Has(rows, LabelModel.Id, id)
    ensures r.Render? && r.template == "labelconfirm" && r.context.SingleLabelContext?
    ensures r.context.labelRow in rows && r.context.labelRow.id == Some(id)
  {
    Render("labelconfirm", SingleLabelContextRaw(rows, id))
  }

  /** `new_label`: validate, insert only a valid form, answer by the outcome. */
  method NewLabel(table: LabelTable, form: LabelForm, storeUp: bool) returns (r: Response<View>)
    requires table.Valid()
    modifies table
    ensures table.Valid()
    ensures r == NewLabelResponse(form, storeUp)
    ensures table.rows ==
      if FormWarning(form).None? && storeUp then Inserted(old(table.rows), old(table.nextId), form)
      else old(table.rows)
    ensures table.nextId == if FormWarning(form).None? && storeUp then old(table.nextId) + 1 else old(table.nextId)
  {
    var ok := false;
    if FormWarning(form).None? {
      ok := table.Insert(form, storeUp);
    }
    r := NewLabelResponse(form, ok);
  }

  /** `label_update`: validate, update only with a valid form. */
  method LabelUpdate(table: LabelTable, id: int, form: LabelForm, storeUp: bool) returns (r: Response<View>)
    requires table.Valid()
    modifies table`rows
    ensures table.Valid()
    ensures r == LabelUpdateResponse(id, form, storeUp)
    ensures table.rows ==
      if FormWarning(form).None? && storeUp then Updated(old(table.rows), id, form)
      else old(table.rows)
  {
    var ok := false;
    if FormWarning(form).None? {
      ok := table.Update(id, form, storeUp);
    }
    r := LabelUpdateResponse(id, form, ok);
  }

  /** `label_delete`: delete, and on failure list the (unchanged) labels. */
  method LabelDelete(table: LabelTable, id: int, storeUp: bool, loaded: bool) returns (r: Response<View>)
    requires table.Valid()
    modifies table`rows
    ensures table.Valid()
    ensures table.rows == if storeUp then Deleted(old(table.rows), id) else old(table.rows)
    ensures r == LabelDeleteResponse(storeUp, table.rows, loaded)
  {
    var ok := table.DeleteWithId(id, storeUp);
    r := LabelDeleteResponse(ok, table.rows, loaded);
  }
}
