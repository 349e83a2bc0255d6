/** Small value-level helpers shared by the FP-Growth model. */
module Basics {

  /** A possibly absent value: Python's `None` versus a present value. */
  datatype Option<T> = None | Some(value: T)

  /** No element occurs twice. */
  ghost predicate Distinct<T>(s: seq<T>)
  {
    forall i, j :: 0 <= i < j < |s| ==> s[i] != s[j]
  }

  /** The transactions laid end to end, in order. */
  function Flatten<T>(ts: seq<seq<T>>): seq<T>
  {
    if ts == [] then [] else Flatten(ts[..|ts| - 1]) + ts[|ts| - 1]
  }

  /**
   * The distinct elements of `s` in order of first appearance: the key order
   * of a Python dict filled by walking `s` from left to right.
   */
  function Dedup<T(==,!new)>(s: seq<T>): (r: seq<T>)
    ensures forall x :: x in r <==> x in s
    ensures Distinct(r)
  {
    if s == [] then []
    else
      var d := Dedup(s[..|s| - 1]);
      assert s == s[..|s| - 1] + [s[|s| - 1]];
      if s[|s| - 1] in d then d else d + [s[|s| - 1]]
  }

  /** Appending an element extends the key order exactly when the element is new. */
  lemma {:induction false} DedupSnoc<T(!new)>(s: seq<T>, x: T)
    ensures Dedup(s + [x]) == if x in s then Dedup(s) else Dedup(s) + [x]
  {
    assert (s + [x])[..|s|] == s;
  }

  /** The length of the longest sequence in `ts` (0 when there is none). */
  function MaxLen<T>(ts: seq<seq<T>>): (m: nat)
    ensures forall i :: 0 <= i < |ts| ==> |ts[i]| <= m
    ensures m == 0 || exists i :: 0 <= i < |ts| && |ts[i]| == m
  {
    if ts == [] then 0
    else
      var m' := MaxLen(ts[..|ts| - 1]);
      if |ts[|ts| - 1]| <= m' then m' else |ts[|ts| - 1]|
  }
}
