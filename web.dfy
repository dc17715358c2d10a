/**
  What a handler hands back to the web framework: a redirect carrying a
  one-shot flash message, or a template rendered with a context value.
  Cookies, URL text and template output belong to the framework.
*/
module Web {

  /** A message as the pages receive it: its kind (`"success"` or
      `"warning"`) and its text. */
  datatype Msg = Msg(kind: string, text: string)

  /** `Flash::success` */
  function Success(text: string): Msg { Msg("success", text) }

  /** `Flash::warning` */
  function Warning(text: string): Msg { Msg("warning", text) }

  /** Redirect targets: `/`, `/{id}`, `/label` and `/label/{id}/edit`. */
  datatype Target = Index | TaskPage(id: int) | LabelList | LabelEdit(id: int)

  /** A redirect with a flash, or a template name with its context. */
  datatype Response<C> = Redirect(target: Target, flash: Msg) | Render(template: string, context: C)

  /** The text of every failed create, update or touch. */
  const ServerFailed: string := "The server failed."
}
