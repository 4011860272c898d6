/** The two indexes of processes: proc_list and the hash table by process id
    (kern/process/proc.c). */
module ProcIndex {
  import opened Sequences
  import opened ProcState
  import opened Family
  import opened Pid

  const HASH_LIST_SIZE := 1024

  /** hash32(pid, 10): the top ten bits of a 32-bit product. */
  function Hash(pid: int): nat {
    pid * 0x9E37_0001 % 0x1_0000_0000 / 0x40_0000
  }

  lemma HashInRange(pid: int)
    ensures Hash(pid) < HASH_LIST_SIZE
  {
  }

  ghost predicate Listed(procs: Procs, list: seq<nat>, idle: nat) {
    Distinct(list) && (forall p :: p in list <==> p in procs && p != idle)
  }

  ghost predicate UniquePids(procs: Procs, idle: nat) {
    && idle in procs && procs[idle].pid == 0
    && (forall p :: p in procs && p != idle ==> 1 <= procs[p].pid < MAX_PID)
    && (forall p, q :: p in procs && q in procs && p != q ==> procs[p].pid != procs[q].pid)
  }

  ghost predicate BucketOk(procs: Procs, bucket: seq<nat>, h: nat, idle: nat) {
    Distinct(bucket) && (forall p :: p in bucket <==> p in procs && p != idle && Hash(procs[p].pid) == h)
  }

  ghost predicate HashOk(procs: Procs, hash: seq<seq<nat>>, idle: nat) {
    |hash| == HASH_LIST_SIZE && forall h :: 0 <= h < |hash| ==> BucketOk(procs, hash[h], h, idle)
  }

  ghost predicate Indexed(procs: Procs, list: seq<nat>, hash: seq<seq<nat>>, idle: nat) {
    Listed(procs, list, idle) && UniquePids(procs, idle) && HashOk(procs, hash, idle)
  }

  function PidsOf(procs: Procs, list: seq<nat>): seq<int> {
    seq(|list|, i requires 0 <= i < |list| => if list[i] in procs then procs[list[i]].pid else 0)
  }

  /** The plain search of proc_list. */
  function LinearSearch(procs: Procs, list: seq<nat>, pid: int): nat {
    if list == [] then NULL
    else if list[0] in procs && procs[list[0]].pid == pid then list[0]
    else LinearSearch(procs, list[1..], pid)
  }

  lemma {:induction false} LinearFinds(procs: Procs, list: seq<nat>, pid: int)
    ensures var r := LinearSearch(procs, list, pid);
            if exists p :: p in list && p in procs && procs[p].pid == pid then r in list && r in procs && procs[r].pid == pid
            else r == NULL
  {
    if list != [] {
      LinearFinds(procs, list[1..], pid);
      assert list == [list[0]] + list[1..];
    }
  }

  /** At most one process has a given pid. */
  lemma SearchUnique(procs: Procs, list: seq<nat>, idle: nat, pid: int, p: nat)
    requires Listed(procs, list, idle) && UniquePids(procs, idle) && p in procs && p != idle && procs[p].pid == pid
    ensures LinearSearch(procs, list, pid) == p
  {
    LinearFinds(procs, list, pid);
    assert p in list;
  }

  /** Changes that leave every pid alone. */
  ghost predicate SamePids(procs: Procs, procs2: Procs) {
    procs.Keys == procs2.Keys && forall p :: p in procs ==> procs2[p].pid == procs[p].pid
  }

  lemma SamePidsKeepIndexed(procs: Procs, procs2: Procs, list: seq<nat>, hash: seq<seq<nat>>, idle: nat)
    requires Indexed(procs, list, hash, idle) && SamePids(procs, procs2)
    ensures Indexed(procs2, list, hash, idle) && PidsOf(procs2, list) == PidsOf(procs, list)
  {
    forall h | 0 <= h < |hash| ensures BucketOk(procs2, hash[h], h, idle) {
      assert BucketOk(procs, hash[h], h, idle);
    }
  }

  /** hash_proc */
  function AddTo(hash: seq<seq<nat>>, h: nat, c: nat): seq<seq<nat>> {
    if h < |hash| then hash[h := [c] + hash[h]] else hash
  }

  /** unhash_proc */
  function RemoveFrom(hash: seq<seq<nat>>, h: nat, c: nat): seq<seq<nat>> {
    if h < |hash| && c in hash[h] then hash[h := Without(hash[h], IndexOf(hash[h], c))] else hash
  }

  lemma AddKeepsIndexed(procs: Procs, list: seq<nat>, hash: seq<seq<nat>>, idle: nat, c: nat, r: Proc)
    requires Indexed(procs, list, hash, idle) && c !in procs && 1 <= r.pid < MAX_PID && r.pid !in PidsOf(procs, list)
    ensures Indexed(procs[c := r], [c] + list, AddTo(hash, Hash(r.pid), c), idle)
    ensures PidsOf(procs[c := r], [c] + list) == [r.pid] + PidsOf(procs, list)
  {
    HashInRange(r.pid);
    var procs2 := procs[c := r];
    forall p | p in procs ensures procs[p].pid != r.pid {
      if p != idle {
        assert p in list;
        var i :| 0 <= i < |list| && list[i] == p;
        assert PidsOf(procs, list)[i] == procs[p].pid;
      }
    }
    AddKeepsBuckets(procs, hash, idle, c, r);
  }

  lemma AddKeepsBuckets(procs: Procs, hash: seq<seq<nat>>, idle: nat, c: nat, r: Proc)
    requires HashOk(procs, hash, idle) && c !in procs && idle in procs && Hash(r.pid) < |hash|
    ensures HashOk(procs[c := r], AddTo(hash, Hash(r.pid), c), idle)
  {
    var hash2 := AddTo(hash, Hash(r.pid), c);
    forall h | 0 <= h < |hash2| ensures BucketOk(procs[c := r], hash2[h], h, idle) {
      assert BucketOk(procs, hash[h], h, idle);
    }
  }

  lemma DropKeepsIndexed(procs: Procs, list: seq<nat>, hash: seq<seq<nat>>, idle: nat, c: nat, i: nat)
    requires Indexed(procs, list, hash, idle) && c in procs && c != idle
    requires i < |list| && list[i] == c
    ensures Indexed(procs - {c}, Without(list, i), RemoveFrom(hash, Hash(procs[c].pid), c), idle)
    ensures forall x :: x in PidsOf(procs - {c}, Without(list, i)) ==> x in PidsOf(procs, list)
  {
    hide HashOk;
    var procs2 := procs - {c};
    DropKeepsListed(procs, list, idle, c, i);
    assert UniquePids(procs2, idle);
    hide Listed, UniquePids;
    DropKeepsBuckets(procs, hash, idle, c);
  }

  lemma DropKeepsListed(procs: Procs, list: seq<nat>, idle: nat, c: nat, i: nat)
    requires Listed(procs, list, idle) && c in procs && c != idle && i < |list| && list[i] == c
    ensures Listed(procs - {c}, Without(list, i), idle)
    ensures forall x :: x in PidsOf(procs - {c}, Without(list, i)) ==> x in PidsOf(procs, list)
  {
    var procs2 := procs - {c};
    forall p ensures p in Without(list, i) <==> p in procs2 && p != idle {
      WithoutMembers(list, i, p);
    }
    forall k | 0 <= k < |list| - 1 ensures PidsOf(procs2, Without(list, i))[k] in PidsOf(procs, list) {
      var m := if k < i then k else k + 1;
      assert Without(list, i)[k] == list[m] && list[m] in list && list[m] != c;
      assert PidsOf(procs2, Without(list, i))[k] == PidsOf(procs, list)[m];
    }
  }

  lemma DropKeepsBuckets(procs: Procs, hash: seq<seq<nat>>, idle: nat, c: nat)
    requires HashOk(procs, hash, idle) && c in procs && c != idle
    ensures HashOk(procs - {c}, RemoveFrom(hash, Hash(procs[c].pid), c), idle)
  {
    var h0 := Hash(procs[c].pid);
    HashInRange(procs[c].pid);
    var hash2 := RemoveFrom(hash, h0, c);
    assert BucketOk(procs, hash[h0], h0, idle);
    forall h | 0 <= h < |hash2| ensures BucketOk(procs - {c}, hash2[h], h, idle) {
      assert BucketOk(procs, hash[h], h, idle);
      if h == h0 {
        forall p ensures p in hash2[h] <==> p in hash[h] && p != c {
          WithoutMembers(hash[h], IndexOf(hash[h], c), p);
        }
      }
    }
  }
}
