/**
 * What a component sees of a call to the remote model: the text it answered
 * with (possibly empty; `undefined` is treated as empty, since every caller
 * puts `|| fallback` behind it) or a thrown error.
 */
module Remote {
  datatype Reply = Answered(text: string) | Failed

  /** JavaScript's `s || fallback` on strings: only the empty string is
      falsy. */
  function OrElse(s: string, fallback: string): (r: string)
    ensures s != [] ==> r == s
    ensures s == [] ==> r == fallback
  {
    if s == [] then fallback else s
  }
}
