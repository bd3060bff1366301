/** Small things the other modules share. */
module Basics {
  datatype Option<+T> = None | Some(value: T)

  type byte = bv8

  /** A string as C keeps it: no zero byte inside. */
  type CString = s: seq<byte> | forall i :: 0 <= i < |s| ==> s[i] != 0

  /** The same for text that is compared with literals. */
  type CText = s: string | '\0' !in s

  /** Back to front. */
  function Reversed<T>(s: seq<T>): (r: seq<T>)
    ensures |r| == |s| && forall i :: 0 <= i < |s| ==> r[i] == s[|s| - 1 - i]
  {
    if s == [] then [] else [s[|s| - 1]] + Reversed(s[..|s| - 1])
  }
}
