/** Markup cleaning of user-supplied text. The HTML cleaning itself is an
    opaque parameter; only the guard around it is modelled: text without any
    non-whitespace character, or no text at all, is passed through. */
module ContentSanitizer {
  import opened Wrappers
  import opened Text

  function Sanitize(raw: Option<string>, clean: string -> string): (r: Option<string>)
    ensures raw.None? ==> r.None?
    ensures raw.Some? && !HasText(raw.value) ==> r == raw
    ensures raw.Some? && HasText(raw.value) ==> r == Some(clean(raw.value))
  {
    match raw
    case None => None
    case Some(s) => if HasText(s) then Some(clean(s)) else raw
  }
}
