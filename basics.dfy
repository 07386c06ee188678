/** Small shared vocabulary: an optional value and the count of `true` entries in a sequence of flags. */
module Basics {

  /** A value that may be absent (a missing attribute, an element that is not on the page, an invalid date). */
  datatype Option<+T> = None | Some(value: T)

  /** The number of `true` entries of `flags`. */
  function CountTrue(flags: seq<bool>): (n: nat)
    ensures n <= |flags|
  {
    if flags == [] then 0
    else CountTrue(flags[..|flags| - 1]) + (if flags[|flags| - 1] then 1 else 0)
  }

  /** The count is zero exactly when no entry is `true`. */
  lemma {:induction false} CountTrueZero(flags: seq<bool>)
    ensures CountTrue(flags) == 0 <==> forall i :: 0 <= i < |flags| ==> !flags[i]
  {
    if flags != [] {
      var prefix := flags[..|flags| - 1];
      CountTrueZero(prefix);
      assert forall i :: 0 <= i < |prefix| ==> prefix[i] == flags[i];
    }
  }
}
