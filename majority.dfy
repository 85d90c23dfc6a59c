/** Boyer-Moore majority vote: one pass, one candidate, one counter. */
module Majority {

  /** Number of occurrences of `x` in `s`, counted from the back so that
      extending a prefix by one element adds at most one. */
  function Count(s: seq<int>, x: int): (c: nat)
    ensures c <= |s|
  {
    if |s| == 0 then 0
    else Count(s[..|s| - 1], x) + (if s[|s| - 1] == x then 1 else 0)
  }

  /** `x` occurs more than half of the time in `s`. */
  predicate IsMajority(s: seq<int>, x: int)
  {
    2 * Count(s, x) > |s|
  }

  /** Two different values never share more positions than there are. */
  lemma {:induction false} CountsDisjoint(s: seq<int>, x: int, y: int)
    requires x != y
    ensures Count(s, x) + Count(s, y) <= |s|
  {
    if |s| > 0 {
      CountsDisjoint(s[..|s| - 1], x, y);
    }
  }

  /** There is at most one majority element. */
  lemma MajorityUnique(s: seq<int>, x: int, y: int)
    requires IsMajority(s, x) && IsMajority(s, y)
    ensures x == y
  {
    if x != y {
      CountsDisjoint(s, x, y);
    }
  }

  /** Hand39: the vote. `itm` is the candidate, `cnt` its unmatched votes;
      `cnt` is a `nat`, so every decrement is proved to start from a
      positive counter. The input is a value and is never written. */
  method Hand39(nums: seq<int>) returns (itm: int)
    ensures forall x :: IsMajority(nums, x) ==> itm == x
    ensures |nums| > 0 ==> itm in nums
    ensures |nums| == 0 ==> itm == 0
  {
    itm := 0;
    var cnt: nat := 0;
    for i := 0 to |nums|
      invariant cnt <= Count(nums[..i], itm)
      invariant 2 * Count(nums[..i], itm) <= i + cnt
      invariant forall x :: x != itm ==> 2 * Count(nums[..i], x) <= i - cnt
      invariant i > 0 ==> itm in nums
      invariant i == 0 ==> itm == 0 && cnt == 0
    {
      var num := nums[i];
      assert nums[..i + 1][..i] == nums[..i];
      if cnt == 0 {
        itm := num;
      }
      if num == itm {
        cnt := cnt + 1;
      } else {
        cnt := cnt - 1;
      }
    }
    assert nums[..|nums|] == nums;
  }
}
