/**
  Sequences that stand for linked lists.
 */
module Lists {

  /** Entry `i`, or NULL past either end. */
  ghost function At(l: seq<int>, i: int): int {
    if 0 <= i < |l| then l[i] else 0
  }

  function Without(l: seq<int>, k: int): seq<int>
    requires 0 <= k < |l|
  {
    l[..k] + l[k + 1..]
  }
}
