/** Small sequence helpers shared by the petition-page model. */
module Seqs {

  /** The conventional Some/None datatype, used where the page reads a value
      that may be absent (an element looked up by id, an optional record field). */
  datatype Option<+T> = None | Some(value: T)

  function Min(a: int, b: int): int {
    if a <= b then a else b
  }

  /** Index of the first element satisfying `matches`, or `|s|` when there is none
      (the shape of `indexOf`, `find` and `getElementById` scans). */
  function FirstIndex<T>(s: seq<T>, matches: T -> bool): (k: nat)
    ensures k <= |s|
    ensures forall j :: 0 <= j < k ==> !matches(s[j])
    ensures k < |s| ==> matches(s[k])
  {
    if s == [] then 0
    else if matches(s[0]) then 0
    else 1 + FirstIndex(s[1..], matches)
  }

  /** All elements of the inner sequences, in order. */
  function Flatten<T>(ss: seq<seq<T>>): seq<T> {
    if ss == [] then [] else ss[0] + Flatten(ss[1..])
  }

  /** `s` back to front. */
  function Reversed<T>(s: seq<T>): (r: seq<T>)
    ensures |r| == |s|
  {
    if s == [] then [] else Reversed(s[1..]) + [s[0]]
  }
}
