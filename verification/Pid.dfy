/** get_pid (kern/process/proc.c): the next free process id after the last one, found with
    the help of a cached interval. */
module Pid {

  const MAX_PROCESS := 4096
  const MAX_PID := MAX_PROCESS * 2

  /** The id after `pid` in the cyclic order 1 .. MAX_PID - 1. */
  function Succ(pid: int): int {
    if pid + 1 >= MAX_PID then 1 else pid + 1
  }

  /** The `k`th id after `prev`. */
  function After(prev: int, k: nat): int
    requires 0 <= prev <= MAX_PID && k < MAX_PID
  {
    var base := if prev >= MAX_PID - 1 then 0 else prev;
    if base + k < MAX_PID then base + k else base + k - (MAX_PID - 1)
  }

  /** After follows the cyclic order one id at a time. */
  lemma AfterIsIteratedSucc(prev: int, k: nat)
    requires 0 <= prev <= MAX_PID && k + 1 < MAX_PID
    ensures After(prev, 1) == Succ(prev)
    ensures k >= 1 ==> After(prev, k + 1) == Succ(After(prev, k))
  {
  }

  /** The ids After(prev, 1) .. After(prev, k). */
  ghost function Ids(prev: int, k: nat): set<int>
    requires 0 <= prev <= MAX_PID && k < MAX_PID
  {
    if k == 0 then {} else Ids(prev, k - 1) + {After(prev, k)}
  }

  lemma {:induction false} IdsMembers(prev: int, k: nat, x: int)
    requires 0 <= prev <= MAX_PID && k < MAX_PID
    ensures x in Ids(prev, k) <==> exists j: nat :: 1 <= j <= k && x == After(prev, j)
  {
    if k > 0 {
      IdsMembers(prev, k - 1, x);
      assert x == After(prev, k) ==> exists j: nat :: 1 <= j <= k && x == After(prev, j);
    }
  }

  lemma {:induction false} IdsDistinct(prev: int, k: nat)
    requires 0 <= prev <= MAX_PID && k < MAX_PID
    ensures |Ids(prev, k)| == k
  {
    if k > 0 {
      IdsDistinct(prev, k - 1);
      IdsMembers(prev, k - 1, After(prev, k));
    }
  }

  /** The naive search: the first id after `prev` no process has. */
  ghost predicate FirstFree(pids: seq<int>, prev: int, r: int)
    requires 0 <= prev <= MAX_PID
  {
    exists k: nat :: 1 <= k < MAX_PID && r == After(prev, k) && r !in pids && Ids(prev, k - 1) <= Elements(pids)
  }

  function Elements(s: seq<int>): set<int> {
    set x | x in s
  }

  lemma {:induction false} SubsetSize<T>(a: set<T>, b: set<T>)
    requires a <= b
    ensures |a| <= |b|
  {
    if |a| > 0 {
      var x :| x in a;
      SubsetSize(a - {x}, b - {x});
    }
  }

  lemma {:induction false} ElementsSize(s: seq<int>)
    ensures |Elements(s)| <= |s|
  {
    if s != [] {
      var n := |s| - 1;
      ElementsSize(s[..n]);
      assert s == s[..n] + [s[n]];
      assert Elements(s) == Elements(s[..n]) + {s[n]};
    }
  }

  /** Ids the search has passed are all taken, so it passes no more than there are
      processes. */
  lemma Pigeonhole(pids: seq<int>, prev: int, k: nat)
    requires 0 <= prev <= MAX_PID && k < MAX_PID && Ids(prev, k) <= Elements(pids)
    ensures k <= |pids|
  {
    IdsDistinct(prev, k);
    SubsetSize(Ids(prev, k), Elements(pids));
    ElementsSize(pids);
  }

  /** The search has exactly one answer. */
  lemma FirstFreeUnique(pids: seq<int>, prev: int, r: int, q: int)
    requires 0 <= prev <= MAX_PID && FirstFree(pids, prev, r) && FirstFree(pids, prev, q)
    ensures r == q
  {
    var k: nat :| 1 <= k < MAX_PID && r == After(prev, k) && r !in pids && Ids(prev, k - 1) <= Elements(pids);
    var l: nat :| 1 <= l < MAX_PID && q == After(prev, l) && q !in pids && Ids(prev, l - 1) <= Elements(pids);
    if k < l {
      IdsMembers(prev, l - 1, r);
    } else if l < k {
      IdsMembers(prev, k - 1, q);
    }
  }

  lemma OneMoreTaken(pids: seq<int>, prev: int, k: nat)
    requires 0 <= prev <= MAX_PID && 1 <= k < MAX_PID && After(prev, k) in pids
    requires Ids(prev, k - 1) <= Elements(pids) && |pids| < MAX_PROCESS
    ensures Ids(prev, k) <= Elements(pids) && k + 1 < MAX_PID
    ensures After(prev, k + 1) == if After(prev, k) + 1 >= MAX_PID then 1 else After(prev, k) + 1
  {
    Pigeonhole(pids, prev, k);
  }

  lemma IsFirstFree(pids: seq<int>, prev: int, k: nat)
    requires 0 <= prev <= MAX_PID && 1 <= k < MAX_PID && After(prev, k) !in pids && Ids(prev, k - 1) <= Elements(pids)
    ensures FirstFree(pids, prev, After(prev, k))
  {
  }

  class PidAllocator {
    var lastPid: int
    var nextSafe: int

    /** Between calls the ids strictly between `lastPid` and `nextSafe` are free. */
    ghost predicate Cached(pids: seq<int>)
      reads this
    {
      && (lastPid == nextSafe == MAX_PID || (1 <= lastPid < MAX_PID && lastPid < nextSafe <= MAX_PID))
      && (forall p :: p in pids ==> 1 <= p < MAX_PID && !(lastPid < p < nextSafe))
    }

    constructor ()
      ensures Cached([]) && lastPid == MAX_PID
    {
      nextSafe, lastPid := MAX_PID, MAX_PID;
    }

    /** get_pid: `pids` are the ids in proc_list, in list order. The inner loop's
        `goto repeat` is a return to index 0. */
    method GetPid(pids: seq<int>) returns (r: int)
      requires Cached(pids) && |pids| < MAX_PROCESS
      modifies this
      ensures FirstFree(pids, old(lastPid), r)
      ensures r == lastPid && 1 <= r < MAX_PID && r !in pids
      ensures Cached([r] + pids)
    {
      hide FirstFree;
      var prev := lastPid;
      lastPid := lastPid + 1;
      ghost var k := 1;
      assert Ids(prev, 0) == {};
      var search := false;
      if lastPid >= MAX_PID {
        lastPid := 1;
        search := true;
      } else if lastPid >= nextSafe {
        search := true;
      }
      if search {
        nextSafe := MAX_PID;
        var i := 0;
        while i < |pids|
          invariant 0 <= i <= |pids|
          invariant 1 <= k < MAX_PID && lastPid == After(prev, k)
          invariant Ids(prev, k - 1) <= Elements(pids)
          invariant 1 <= lastPid < nextSafe <= MAX_PID
          invariant forall j :: 0 <= j < i ==> pids[j] < lastPid || pids[j] >= nextSafe
          decreases MAX_PID - k, |pids| - i
        {
          if pids[i] == lastPid {
            OneMoreTaken(pids, prev, k);
            lastPid := lastPid + 1;
            k := k + 1;
            if lastPid >= nextSafe {
              if lastPid >= MAX_PID {
                lastPid := 1;
              }
              nextSafe := MAX_PID;
              i := 0;
              continue;
            }
          } else if pids[i] > lastPid && nextSafe > pids[i] {
            nextSafe := pids[i];
          }
          i := i + 1;
        }
      }
      r := lastPid;
      IsFirstFree(pids, prev, k);
    }
  }
}
