/** Values the highlighter works on: the tokens returned by the lexer service,
    the user's selection, and the two pieces of JavaScript semantics the
    engine relies on (truthiness of an optional string, String.prototype.slice). */
module Model {

  /** A JavaScript value that is either a string or null. */
  datatype Option<+T> = None | Some(value: T)

  /** JavaScript truthiness of a string-or-null field: null and "" are falsy. */
  predicate Truthy(o: Option<string>)
  {
    o.Some? && o.value != ""
  }

  /** One token as the lexer service reports it: its type (field `token`),
      its value, and its offsets into the code. Nothing about the offsets is
      checked when the list is received. */
  datatype Token = Token(token: string, value: string, start: int, end: int)

  /** The user's current choice of token type and token value. */
  datatype Selection = Selection(token: Option<string>, value: Option<string>)

  /** The selection the component starts with and returns to on every edit. */
  const NoSelection: Selection := Selection(None, None)

  /** Resolves one index argument of String.prototype.slice against a string
      of length n: a negative index counts back from the end, and the result
      is clamped into [0, n]. */
  function SliceIndex(i: int, n: nat): (k: nat)
    ensures k <= n
    ensures 0 <= i <= n ==> k == i
    ensures i > n ==> k == n
    ensures i < 0 && 0 <= n + i ==> k == n + i
    ensures n + i < 0 ==> k == 0
  {
    if i < 0 then (if n + i < 0 then 0 else n + i)
    else if i > n then n
    else i
  }

  /** `s.slice(from, to)`: the characters between the two resolved indices,
      or "" when the second does not lie after the first. */
  function Slice(s: string, from: int, to: int): (r: string)
    ensures |r| <= |s|
    ensures 0 <= from <= to <= |s| ==> r == s[from..to]
    ensures 0 <= to <= from ==> r == ""
    ensures 0 <= from <= |s| <= to ==> r == s[from..]
    ensures |s| <= from ==> r == ""
  {
    var a := SliceIndex(from, |s|);
    var b := SliceIndex(to, |s|);
    if a < b then s[a..b] else s[a..a]
  }
}
