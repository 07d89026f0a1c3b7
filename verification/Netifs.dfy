/** The numbers that netif.c gives to interfaces. */
module Netifs {
  import opened Circular

  function Wrapped(num: nat): (r: nat)
    ensures num <= 255 ==> r < 255
  {
    if num == 255 then 0 else num
  }

  /** The k numbers from `first` on are taken, and cur is the one behind them. */
  ghost predicate Counted(nums: seq<int>, first: int, cur: int, k: nat) {
    && 0 <= first < 255 && 0 <= cur < 255 && Ahead(0, 255, first, cur) == k
    && forall x :: 0 <= x < 255 && Ahead(0, 255, first, x) < k ==> x in nums
  }

  lemma Unvisited(nums: seq<int>, first: int)
    requires 0 <= first < 255
    ensures Counted(nums, first, first, 0)
  {
  }

  /** A number that is taken is passed, and one that is free comes closer. */
  lemma Visited(nums: seq<int>, first: int, cur: nat, k: nat, free: int)
    requires Counted(nums, first, cur, k) && cur in nums && free !in nums && 0 <= free < 255
    ensures Counted(nums, first, Wrapped(cur + 1), k + 1)
    ensures Ahead(0, 255, Wrapped(cur + 1), free) < Ahead(0, 255, cur, free)
  {
    forall x | 0 <= x < 255 && Ahead(0, 255, first, x) == k ensures x == cur { }
    assert Ahead(0, 255, first, free) > k;
  }

  lemma AllBefore(nums: seq<int>, first: int, cur: int, k: nat)
    requires Counted(nums, first, cur, k)
    ensures forall x :: 0 <= x < 255 && Ahead(0, 255, first, x) < Ahead(0, 255, first, cur) ==> x in nums
  {
  }

  ghost predicate Numbered(nums: seq<int>) {
    && (forall i :: 0 <= i < |nums| ==> 0 <= nums[i] < 255)
    && (forall i, j :: 0 <= i < j < |nums| ==> nums[i] != nums[j])
  }

  lemma NumberedAdd(nums: seq<int>, num: int)
    requires Numbered(nums) && 0 <= num < 255 && num !in nums
    ensures Numbered([num] + nums)
  {
  }

  class NetifList {
    /** The numbers of the interfaces in netif_list. */
    var nums: seq<int>
    /** netif_num: where the search starts. */
    var next: nat

    /** No two interfaces have the same number, and each number fits into 0..254. */
    ghost predicate Valid()
      reads this
    {
      next < 255 && Numbered(nums)
    }

    constructor ()
      ensures Valid() && nums == []
    {
      nums, next := [], 0;
    }

    /** The scan of the list for an interface with that number. */
    method IsTaken(num: nat) returns (r: bool)
      ensures r <==> num in nums
    {
      for i := 0 to |nums|
        invariant num !in nums[..i]
      {
        if nums[i] == num {
          return true;
        }
      }
      return false;
    }

    /** The numbering in netif_add: the first number from netif_num on that is free. */
    method Add() returns (num: nat)
      requires Valid() && |nums| < 255
      modifies this
      ensures Valid() && num < 255 && num !in old(nums) && nums == [num] + old(nums)
      ensures next == if num == 254 then 0 else num + 1
      ensures forall x :: 0 <= x < 255 && Ahead(0, 255, old(next), x) < Ahead(0, 255, old(next), num) ==> x in old(nums)
    {
      hide Counted, Numbered;
      ghost var free := Pigeon(Members(nums), 0, 255);
      num := next;
      var clash := true;
      Unvisited(nums, next);
      ghost var k := 0;
      while clash
        invariant num <= 255 && nums == old(nums) && next == old(next) && free !in nums && 0 <= free < 255
        invariant Counted(nums, next, Wrapped(num), k)
        invariant !clash ==> num < 255 && num !in nums
        decreases clash, Ahead(0, 255, Wrapped(num), free)
      {
        num := Wrapped(num);
        clash := IsTaken(num);
        if clash {
          Visited(nums, next, num, k, free);
          num, k := num + 1, k + 1;
        }
      }
      AllBefore(nums, next, num, k);
      NumberedAdd(nums, num);
      next := if num == 254 then 0 else num + 1;
      nums := [num] + nums;
    }
  
    /** netif_remove */
    method Remove(num: nat)
      requires Valid()
      modifies `nums
      ensures Valid() && num !in nums && forall x :: x in nums <==> x in old(nums) && x != num
    {
      var i := 0;
      while i < |nums| && nums[i] != num
        invariant i <= |nums| && num !in nums[..i]
      {
        i := i + 1;
      }
      if i < |nums| {
        nums := nums[..i] + nums[i + 1..];
      }
    }
  }
}
