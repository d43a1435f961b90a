/** Stock results and searches. */
module Wrappers {
  datatype Option<+T> = None | Some(value: T)

  /** The first position that meets p, or the length. */
  function First<T>(s: seq<T>, p: T -> bool): (i: nat)
    ensures i <= |s|
    ensures i < |s| ==> p(s[i])
    ensures forall j :: 0 <= j < i ==> !p(s[j])
  {
    if s == [] || p(s[0]) then 0 else 1 + First(s[1..], p)
  }
}
