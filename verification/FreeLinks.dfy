/** The insertion loop of the page allocator taken literally over the links of libs/list.h
    (kern/mm/default_pmm.c:82-104 and 156-180). After an insertion at the end nothing leaves
    the loop, which links the new page to itself as its own predecessor. */
module FreeLinks {
  import opened Runs
  import opened PageAllocator

  /** Node 0 is free_list; page `p` is node `p >= 1`. */
  const HEAD: nat := 0

  /** The `i`th page of the ring, the head on either side of the pages. */
  function Nth(l: seq<nat>, i: int): nat {
    if 0 <= i < |l| then l[i] else HEAD
  }

  ghost predicate Ring(l: seq<nat>, n: nat) {
    && n >= 1 && (forall p :: p in l ==> 1 <= p < n)
    && (forall i, j :: 0 <= i < j < |l| ==> l[i] < l[j])
  }

  /** Following `next` from the head gives `l`. */
  ghost predicate Forward(l: seq<nat>, next: seq<nat>) {
    forall i {:trigger Nth(l, i)} :: -1 <= i < |l| && Nth(l, i) < |next| ==> next[Nth(l, i)] == Nth(l, i + 1)
  }

  /** Following `prev` from the head gives `l` reversed. */
  ghost predicate Backward(l: seq<nat>, prev: seq<nat>) {
    forall i {:trigger Nth(l, i)} :: 0 <= i <= |l| && Nth(l, i) < |prev| ==> prev[Nth(l, i)] == Nth(l, i - 1)
  }

  function Put(l: seq<nat>, k: nat, p: nat): seq<nat>
    requires k <= |l|
  {
    l[..k] + [p] + l[k..]
  }

  lemma NthPut(l: seq<nat>, k: nat, p: nat, i: int)
    requires k <= |l| && -1 <= i <= |l| + 1
    ensures Nth(Put(l, k, p), i) == if i < k then Nth(l, i) else if i == k then p else Nth(l, i - 1)
  {
  }

  lemma NthDistinct(l: seq<nat>, n: nat, i: int, j: int)
    requires Ring(l, n) && -1 <= i < j <= |l| && (i >= 0 || j < |l|)
    ensures Nth(l, i) != Nth(l, j)
  {
    assert 0 <= i < |l| ==> l[i] in l;
    assert 0 <= j < |l| ==> l[j] in l;
  }

  lemma PutRing(l: seq<nat>, n: nat, k: nat, p: nat)
    requires Ring(l, n) && k <= |l| && 1 <= p < n
    requires (forall i :: 0 <= i < k ==> l[i] < p) && (forall i :: k <= i < |l| ==> p < l[i])
    ensures Ring(Put(l, k, p), n)
  {
    forall q | q in Put(l, k, p) ensures 1 <= q < n {
      assert q in l || q == p;
    }
  }

  lemma NthInRing(l: seq<nat>, n: nat, i: int)
    requires Ring(l, n)
    ensures Nth(l, i) < n && forall p :: 1 <= p && p !in l ==> Nth(l, i) != p
  {
    assert 0 <= i < |l| ==> l[i] in l;
  }

  lemma ForwardAt(l: seq<nat>, next: seq<nat>, i: int)
    requires Ring(l, |next|) && Forward(l, next) && -1 <= i < |l|
    ensures Nth(l, i) < |next| && next[Nth(l, i)] == Nth(l, i + 1)
  {
    NthInRing(l, |next|, i);
  }

  lemma BackwardAt(l: seq<nat>, prev: seq<nat>, i: int)
    requires Ring(l, |prev|) && Backward(l, prev) && 0 <= i <= |l|
    ensures Nth(l, i) < |prev| && prev[Nth(l, i)] == Nth(l, i - 1)
  {
    NthInRing(l, |prev|, i);
  }

  lemma PutForwardAt(l: seq<nat>, next: seq<nat>, k: nat, p: nat, i: int)
    requires Ring(l, |next|) && Forward(l, next) && k <= |l| && 1 <= p < |next| && p !in l && -1 <= i <= |l|
    ensures Nth(l, k - 1) < |next| && Nth(Put(l, k, p), i) < |next|
    ensures next[Nth(l, k - 1) := p][p := Nth(l, k)][Nth(Put(l, k, p), i)] == Nth(Put(l, k, p), i + 1)
  {
    hide Ring, Forward, Put, Nth;
    NthPut(l, k, p, i);
    NthPut(l, k, p, i + 1);
    NthInRing(l, |next|, k - 1);
    if i < k - 1 {
      ForwardAt(l, next, i);
      NthInRing(l, |next|, i);
      NthDistinct(l, |next|, i, k - 1);
    } else if i == k - 1 {
    } else if i > k {
      ForwardAt(l, next, i - 1);
      NthInRing(l, |next|, i - 1);
      NthDistinct(l, |next|, k - 1, i - 1);
    }
  }

  /** The next links __list_add leaves, between places `k - 1` and `k`. */
  lemma PutForward(l: seq<nat>, next: seq<nat>, k: nat, p: nat)
    requires Ring(l, |next|) && Forward(l, next) && k <= |l| && 1 <= p < |next| && p !in l
    ensures Nth(l, k - 1) < |next| && Forward(Put(l, k, p), next[Nth(l, k - 1) := p][p := Nth(l, k)])
  {
    hide Ring, Nth;
    var t := Put(l, k, p);
    NthInRing(l, |next|, k - 1);
    var next2 := next[Nth(l, k - 1) := p][p := Nth(l, k)];
    forall i | -1 <= i < |t| && Nth(t, i) < |next2| ensures next2[Nth(t, i)] == Nth(t, i + 1) {
      PutForwardAt(l, next, k, p, i);
    }
  }

  lemma PutBackwardAt(l: seq<nat>, prev: seq<nat>, k: nat, p: nat, i: int)
    requires Ring(l, |prev|) && Backward(l, prev) && k <= |l| && 1 <= p < |prev| && p !in l && 0 <= i <= |l| + 1
    ensures Nth(l, k) < |prev| && Nth(Put(l, k, p), i) < |prev|
    ensures prev[Nth(l, k) := p][p := Nth(l, k - 1)][Nth(Put(l, k, p), i)] == Nth(Put(l, k, p), i - 1)
  {
    hide Ring, Backward, Put, Nth;
    NthPut(l, k, p, i);
    NthPut(l, k, p, i - 1);
    NthInRing(l, |prev|, k);
    if i < k {
      BackwardAt(l, prev, i);
      NthInRing(l, |prev|, i);
      NthDistinct(l, |prev|, i, k);
    } else if i > k + 1 {
      BackwardAt(l, prev, i - 1);
      NthInRing(l, |prev|, i - 1);
      NthDistinct(l, |prev|, k, i - 1);
    }
  }

  lemma PutBackward(l: seq<nat>, prev: seq<nat>, k: nat, p: nat)
    requires Ring(l, |prev|) && Backward(l, prev) && k <= |l| && 1 <= p < |prev| && p !in l
    ensures Nth(l, k) < |prev| && Backward(Put(l, k, p), prev[Nth(l, k) := p][p := Nth(l, k - 1)])
  {
    hide Ring, Nth;
    var t := Put(l, k, p);
    NthInRing(l, |prev|, k);
    var prev2 := prev[Nth(l, k) := p][p := Nth(l, k - 1)];
    forall i | 0 <= i <= |t| && Nth(t, i) < |prev2| ensures prev2[Nth(t, i)] == Nth(t, i - 1) {
      PutBackwardAt(l, prev, k, p, i);
    }
  }

  lemma Follow(l: seq<nat>, next: seq<nat>, k: nat)
    requires Ring(l, |next|) && Forward(l, next) && k < |l|
    ensures l[k] < |next| && next[l[k]] == Nth(l, k + 1) < |next| && (Nth(l, k + 1) == HEAD <==> k + 1 == |l|)
  {
    assert Nth(l, k) == l[k] && l[k] in l;
    assert k + 1 < |l| ==> l[k + 1] in l;
  }

  lemma RingAbove(l: seq<nat>, n: nat, k: nat, base: nat)
    requires Ring(l, n) && k < |l| && base < l[k]
    ensures forall i :: k <= i < |l| ==> base < l[i]
  {
    forall i | k <= i < |l| ensures base < l[i] {
      assert k < i ==> l[k] < l[i];
    }
  }

  lemma First(l: seq<nat>, next: seq<nat>)
    requires Ring(l, |next|) && Forward(l, next)
    ensures if l == [] then next[HEAD] == HEAD else next[HEAD] == l[0] != HEAD
  {
    assert Nth(l, -1) == HEAD && next[Nth(l, -1)] == Nth(l, 0);
    assert l != [] ==> l[0] in l;
  }

  lemma Precedes(l: seq<nat>, prev: seq<nat>, k: nat)
    requires Ring(l, |prev|) && Backward(l, prev) && k < |l|
    ensures l[k] < |prev| && prev[l[k]] == Nth(l, k - 1) < |prev|
  {
    assert Nth(l, k) == l[k] && l[k] in l;
    assert k > 0 ==> l[k - 1] in l;
  }

  /** The append leaves the new last page as its own predecessor. */
  lemma SelfLinked(l: seq<nat>, prev: seq<nat>, p: nat)
    requires l != [] && p !in l && p < |prev| && prev[p] == p
    ensures !Backward(Put(l, |l|, p), prev)
  {
    var t := Put(l, |l|, p);
    assert Nth(t, |l|) == p && Nth(t, |l| - 1) == l[|l| - 1] && l[|l| - 1] in l;
  }

  /** The search finds the last page when no other has enough. */
  lemma AppendedFit(t: seq<nat>, l: seq<nat>, base: nat, prop: seq<nat>, n: nat, i: nat)
    requires t == Put(l, |l|, base) && i <= |t| && base < |prop| && prop[base] >= n
    requires forall p :: p in l ==> p < |prop| && prop[p] < n
    requires forall j :: 0 <= j < i ==> t[j] < |prop| && prop[t[j]] < n
    requires i < |t| ==> t[i] < |prop| && prop[t[i]] >= n
    ensures |t| == |l| + 1 && i == |l| && t[i] == base && t[..|l|] == l
  {
    assert t == l + [base];
    assert forall j :: 0 <= j < |l| ==> t[j] == l[j] && l[j] in l;
    assert t[|l|] == base;
  }

  /** A page after the last one. */
  lemma AppendMore(t: seq<nat>, next: seq<nat>, p: nat)
    requires t != [] && Ring(t, |next|) && Forward(t, next) && t[|t| - 1] < p < |next|
    ensures t[|t| - 1] < |next| && next[t[|t| - 1]] == HEAD && Ring(Put(t, |t|, p), |next|)
    ensures Forward(Put(t, |t|, p), next[t[|t| - 1] := p][p := HEAD])
    ensures Put(t, |t|, p) == t + [p]
  {
    var q := t[|t| - 1];
    NextIs(t, next, |t| - 1);
    assert forall i :: 0 <= i < |t| ==> t[i] <= q;
    assert p !in t;
    PutForward(t, next, |t|, p);
    PutRing(t, |next|, |t|, p);
    assert Nth(t, |t| - 1) == q && Nth(t, |t|) == HEAD;
  }

  /** Page 2 appended to a list of page 1 alone: the values AddLast leaves. */
  lemma AppendExample()
    ensures Ring([1], 3) && Forward([1], [1, 0, 0]) && Backward([1], [1, 0, 0]) && Put([1], 1, 2) == [1, 2]
    ensures Forward([1, 2], [1, 0, 0][1 := 2][2 := HEAD]) && !Backward([1, 2], [1, 0, 0][HEAD := 2][2 := 2])
  {
    var prev := [1, 0, 0][HEAD := 2][2 := 2];
    assert Nth([1, 2], 1) == 2 && prev[Nth([1, 2], 1)] == 2 && Nth([1, 2], 0) == 1;
  }

  /** Taking a page off again. */
  lemma Unput(l: seq<nat>, next: seq<nat>, k: nat, p: nat)
    requires Ring(l, |next|) && k <= |l| && 1 <= p < |next| && p !in l && Forward(Put(l, k, p), next)
    ensures Nth(l, k - 1) < |next| && next[p] == Nth(l, k) && Forward(l, next[Nth(l, k - 1) := next[p]])
  {
    hide Ring, Nth;
    var t := Put(l, k, p);
    NthInRing(l, |next|, k - 1);
    NthPut(l, k, p, k);
    NthPut(l, k, p, k + 1);
    assert Nth(t, k) == p;
    var next2 := next[Nth(l, k - 1) := next[p]];
    forall i | -1 <= i < |l| && Nth(l, i) < |next2| ensures next2[Nth(l, i)] == Nth(l, i + 1) {
      UnputAt(l, next, k, p, i);
    }
  }

  lemma UnputAt(l: seq<nat>, next: seq<nat>, k: nat, p: nat, i: int)
    requires Ring(l, |next|) && k <= |l| && 1 <= p < |next| && p !in l && Forward(Put(l, k, p), next)
    requires -1 <= i < |l| && next[p] == Nth(l, k) && |Put(l, k, p)| == |l| + 1
    ensures Nth(l, k - 1) < |next| && Nth(l, i) < |next|
    ensures next[Nth(l, k - 1) := next[p]][Nth(l, i)] == Nth(l, i + 1)
  {
    hide Ring, Nth, Forward, Put;
    NthInRing(l, |next|, k - 1);
    NthInRing(l, |next|, i);
    if i < k - 1 {
      NthDistinct(l, |next|, i, k - 1);
      NthPut(l, k, p, i);
      NthPut(l, k, p, i + 1);
      FollowOne(Put(l, k, p), next, i);
    } else if i >= k {
      NthDistinct(l, |next|, k - 1, i);
      NthPut(l, k, p, i + 1);
      NthPut(l, k, p, i + 2);
      FollowOne(Put(l, k, p), next, i + 1);
    }
  }

  lemma UnputBackward(l: seq<nat>, prev: seq<nat>, k: nat, p: nat)
    requires Ring(l, |prev|) && k <= |l| && 1 <= p < |prev| && p !in l && Backward(Put(l, k, p), prev)
    ensures Nth(l, k) < |prev| && prev[p] == Nth(l, k - 1) && Backward(l, prev[Nth(l, k) := prev[p]])
  {
    hide Ring, Nth;
    var t := Put(l, k, p);
    NthInRing(l, |prev|, k);
    NthPut(l, k, p, k);
    NthPut(l, k, p, k - 1);
    assert Nth(t, k) == p;
    var prev2 := prev[Nth(l, k) := prev[p]];
    forall i | 0 <= i <= |l| && Nth(l, i) < |prev2| ensures prev2[Nth(l, i)] == Nth(l, i - 1) {
      UnputBackwardAt(l, prev, k, p, i);
    }
  }

  lemma UnputBackwardAt(l: seq<nat>, prev: seq<nat>, k: nat, p: nat, i: int)
    requires Ring(l, |prev|) && k <= |l| && 1 <= p < |prev| && p !in l && Backward(Put(l, k, p), prev)
    requires 0 <= i <= |l| && prev[p] == Nth(l, k - 1) && |Put(l, k, p)| == |l| + 1
    ensures Nth(l, k) < |prev| && Nth(l, i) < |prev|
    ensures prev[Nth(l, k) := prev[p]][Nth(l, i)] == Nth(l, i - 1)
  {
    hide Ring, Nth, Backward, Put;
    NthInRing(l, |prev|, k);
    NthInRing(l, |prev|, i);
    if i < k {
      NthDistinct(l, |prev|, i, k);
      NthPut(l, k, p, i);
      NthPut(l, k, p, i - 1);
      PrecedeOne(Put(l, k, p), prev, i);
    } else if i > k {
      NthDistinct(l, |prev|, k, i);
      NthPut(l, k, p, i + 1);
      NthPut(l, k, p, i);
      PrecedeOne(Put(l, k, p), prev, i + 1);
    }
  }

  lemma PrecedeOne(l: seq<nat>, prev: seq<nat>, i: int)
    requires Backward(l, prev) && Nth(l, i) < |prev|
    ensures 0 <= i <= |l| ==> prev[Nth(l, i)] == Nth(l, i - 1)
  {
  }

  lemma FollowOne(l: seq<nat>, next: seq<nat>, i: int)
    requires Forward(l, next) && Nth(l, i) < |next|
    ensures -1 <= i < |l| ==> next[Nth(l, i)] == Nth(l, i + 1)
  {
  }

  lemma Fresh(l: seq<nat>, n: nat, k: nat, p: nat)
    requires Ring(l, n) && k <= |l| && p !in l
    requires (forall i :: 0 <= i < k ==> l[i] < p) && (forall i :: k <= i < |l| ==> p < l[i])
    ensures l == [] || p < l[|l| - 1] <==> k == 0 || k < |l|
    ensures forall i :: 0 <= i < |l| ==> 1 <= l[i] < n && l[i] != p
  {
    assert forall i :: 0 <= i < |l| ==> l[i] in l;
  }

  lemma PutPrev(l: seq<nat>, prev: seq<nat>, k: nat, p: nat)
    requires Ring(l, |prev|) && k <= |l| && p < |prev| && Backward(Put(l, k, p), prev)
    ensures prev[p] == Nth(l, k - 1)
  {
    NthPut(l, k, p, k);
    NthPut(l, k, p, k - 1);
    assert Nth(Put(l, k, p), k) == p;
  }

  lemma InList(l: seq<nat>, n: nat, k: nat)
    requires Ring(l, n) && k <= |l|
    ensures Nth(l, k - 1) == if k > 0 then l[k - 1] else HEAD
    ensures Nth(l, k - 1) < n && Nth(l, k) < n
  {
    NthInRing(l, n, k - 1);
    NthInRing(l, n, k);
  }

  // ---------------------------------------------------------------- blocks

  /** The list without its page number `k`. */
  function Cut(l: seq<nat>, k: nat): seq<nat>
    requires k < |l|
  {
    l[..k] + l[k + 1..]
  }

  lemma CutIsUnput(l: seq<nat>, n: nat, k: nat)
    requires Ring(l, n) && k < |l|
    ensures Ring(Cut(l, k), n) && Put(Cut(l, k), k, l[k]) == l && l[k] !in Cut(l, k) && 1 <= l[k] < n
  {
    assert l[k] in l;
    forall p | p in Cut(l, k) ensures p in l { }
  }

  /** The list once `base` has taken the place of block `k` of `fl`, with `below` and `above`
      blocks left. */
  ghost predicate Stands(t: seq<nat>, prop: seq<nat>, fl: seq<Block>, i: nat, m: Block, k: nat) {
    i <= k <= |fl| && BlocksOf(t, prop) == fl[..i] + [m] + fl[k..]
  }

  lemma StandsAt(t: seq<nat>, prop: seq<nat>, fl: seq<Block>, i: nat, m: Block, k: nat)
    requires Stands(t, prop, fl, i, m, k)
    ensures i <= k <= |fl| && |t| == i + 1 + |fl| - k && t[i] == m.addr && (t[i] < |prop| ==> prop[t[i]] == m.size)
    ensures i > 0 ==> t[i - 1] == fl[i - 1].addr && (t[i - 1] < |prop| ==> prop[t[i - 1]] == fl[i - 1].size)
    ensures k < |fl| ==> t[i + 1] == fl[k].addr && (t[i + 1] < |prop| ==> prop[t[i + 1]] == fl[k].size)
  {
    var bl := BlocksOf(t, prop);
    assert |bl| == |t| && bl[i] == m == Head(prop, t[i]);
    assert i > 0 ==> bl[i - 1] == fl[i - 1] == Head(prop, t[i - 1]);
    assert k < |fl| ==> bl[i + 1] == fl[k] == Head(prop, t[i + 1]);
  }

  lemma RingPages(t: seq<nat>, n: nat)
    requires Ring(t, n)
    ensures n >= 1 && forall i :: 0 <= i < |t| ==> 1 <= t[i] < n
  {
    assert forall i :: 0 <= i < |t| ==> t[i] in t;
  }

  lemma PrevIs(t: seq<nat>, prev: seq<nat>, k: nat)
    requires Ring(t, |prev|) && Backward(t, prev) && k < |t|
    ensures t[k] < |prev| && prev[t[k]] == if k > 0 then t[k - 1] else HEAD
  {
    BackwardAt(t, prev, k);
  }

  lemma NextIs(t: seq<nat>, next: seq<nat>, k: nat)
    requires Ring(t, |next|) && Forward(t, next) && k < |t|
    ensures t[k] < |next| && next[t[k]] == if k + 1 < |t| then t[k + 1] else HEAD
  {
    ForwardAt(t, next, k);
  }

  lemma CutSize(t: seq<nat>, k: nat)
    requires k < |t|
    ensures |Cut(t, k)| == |t| - 1 && forall j :: 0 <= j < k ==> Cut(t, k)[j] == t[j]
  {
  }

  lemma PutAtPlace(l: seq<nat>, k: nat, p: nat)
    requires k <= |l|
    ensures |Put(l, k, p)| == |l| + 1 && Put(l, k, p)[k] == p
  {
  }

  lemma StandsPut(l: seq<nat>, prop: seq<nat>, k: nat, base: nat, n: nat)
    requires k <= |l| && base < |prop| && base !in l
    ensures Stands(Put(l, k, base), prop[base := n], BlocksOf(l, prop), k, Block(base, n), k)
  {
    PutBlock(l, prop, k, base, n);
    assert |BlocksOf(l, prop)| == |l|;
  }

  lemma StandsLeft(t: seq<nat>, n: nat, prop: seq<nat>, fl: seq<Block>, i: nat, m: Block, k: nat)
    requires Stands(t, prop, fl, i, m, k) && 0 < i < |t| && Ring(t, n) && n == |prop| && t[i - 1] < |prop| && t[i] < |prop|
    ensures var p := t[i - 1]; var size := prop[p] + prop[t[i]]; Stands(Cut(t, i), prop[p := size], fl, i - 1, Block(p, size), k)
  {
    var size := prop[t[i - 1]] + prop[t[i]];
    MergeBlocks(t, prop, i - 1, size);
    MergedLeft(fl, i, m, k, Block(t[i - 1], size));
    assert Cut(t, i) == t[..i - 1 + 1] + t[i - 1 + 2..];
  }

  lemma StandsRight(t: seq<nat>, n: nat, prop: seq<nat>, fl: seq<Block>, i: nat, m: Block, k: nat)
    requires Stands(t, prop, fl, i, m, k) && i + 1 < |t| && k < |fl| && Ring(t, n) && n == |prop| && t[i] < |prop| && t[i + 1] < |prop|
    ensures var p := t[i]; var size := prop[p] + prop[t[i + 1]]; Stands(Cut(t, i + 1), prop[p := size], fl, i, Block(p, size), k + 1)
  {
    var size := prop[t[i]] + prop[t[i + 1]];
    MergeBlocks(t, prop, i, size);
    MergedRight(fl, i, m, k, Block(t[i], size));
    assert Cut(t, i + 1) == t[..i + 1] + t[i + 2..];
  }

  lemma StandsIsFreed(t: seq<nat>, prop: seq<nat>, fl: seq<Block>, k: nat, b: Block)
    requires k == Place(fl, b.addr) && Stands(t, prop, fl, Before(fl, k, b), Joined(fl, k, b), After(fl, k, b))
    ensures BlocksOf(t, prop) == Freed(fl, b)
  {
  }

  /** A block put after all others, without being joined, gives the freed list exactly when
      it does not begin where the last one ends. */
  lemma AppendedIsFreed(fl: seq<Block>, b: Block)
    requires |fl| > 0 && Place(fl, b.addr) == |fl|
    ensures fl + [b] == Freed(fl, b) <==> fl[|fl| - 1].End() != b.addr
  {
    hide Place;
    if JoinsLeft(fl, |fl|, b) {
      assert |Freed(fl, b)| == |fl|;
    } else {
      assert fl[..|fl|] == fl && fl[|fl|..] == [] && Joined(fl, |fl|, b) == b;
    }
  }

  lemma StandsLast(t: seq<nat>, prop: seq<nat>, fl: seq<Block>, b: Block)
    requires Stands(t, prop, fl, |fl|, b, |fl|)
    ensures BlocksOf(t, prop) == fl + [b]
  {
    assert fl[..|fl|] + [b] + fl[|fl|..] == fl + [b];
  }

  lemma PlaceInList(l: seq<nat>, prop: seq<nat>, k: nat, b: Block)
    requires var fl := BlocksOf(l, prop); Sorted(fl) && Apart(fl, b) && b.size >= 1
    requires k <= |l| && (forall i :: 0 <= i < k ==> l[i] < b.addr) && (forall i :: k <= i < |l| ==> b.addr < l[i])
    ensures |BlocksOf(l, prop)| == |l| && k == Place(BlocksOf(l, prop), b.addr)
  {
    var fl := BlocksOf(l, prop);
    assert forall i :: 0 <= i < |l| ==> fl[i].addr == l[i];
    PlacedAt(l, fl, k, b);
  }

  class Links {
    const next: array<nat>
    const prev: array<nat>
    const property: array<nat>

    ghost predicate Valid(l: seq<nat>)
      reads this, next, prev
    {
      && next != prev && next.Length == prev.Length && Ring(l, next.Length)
      && Forward(l, next[..])
    }

    /** __list_add: `p` goes between `before` and `after`. */
    method ListAdd(p: nat, before: nat, after: nat)
      requires next != prev && next.Length == prev.Length
      requires p < next.Length && before < next.Length && after < next.Length
      modifies next, prev
      ensures next[..] == old(next[..])[before := p][p := after]
      ensures prev[..] == old(prev[..])[after := p][p := before]
    {
      prev[after] := p;
      next[before] := p;
      next[p] := after;
      prev[p] := before;
    }

    /** __list_del */
    method ListDel(p: nat)
      requires next != prev && next.Length == prev.Length && p < next.Length
      requires next[p] < next.Length && prev[p] < next.Length
      modifies next, prev
      ensures next[..] == old(next[..])[old(prev[p]) := old(next[p])]
      ensures prev[..] == old(prev[..])[old(next[p]) := old(prev[p])]
    {
      var before, after := prev[p], next[p];
      next[before] := after;
      prev[after] := before;
    }

    /** list_add_before in front of page `l[k]`. */
    method AddBefore(base: nat, ghost l: seq<nat>, ghost k: nat, le: nat)
      requires Valid(l) && Backward(l, prev[..]) && 1 <= base < next.Length && base !in l
      requires k < |l| && le == l[k] && base < le && forall i :: 0 <= i < k ==> l[i] < base
      modifies next, prev
      ensures Valid(Put(l, k, base)) && Backward(Put(l, k, base), prev[..])
    {
      Follow(l, next[..], k);
      Precedes(l, prev[..], k);
      PutForward(l, next[..], k, base);
      PutBackward(l, prev[..], k, base);
      PutRing(l, next.Length, k, base);
      hide Forward, Backward, Put, Ring;
      ListAdd(base, prev[le], le);
    }

    method AddFirst(base: nat, ghost l: seq<nat>)
      requires Valid(l) && Backward(l, prev[..]) && 1 <= base < next.Length && l == [] && next[HEAD] == HEAD
      modifies next, prev
      ensures Valid(Put(l, 0, base)) && Backward(Put(l, 0, base), prev[..])
    {
      PutForward(l, next[..], 0, base);
      PutBackward(l, prev[..], 0, base);
      PutRing(l, next.Length, 0, base);
      hide Forward, Backward, Put, Ring;
      ListAdd(base, HEAD, next[HEAD]);
    }

    /** The last two rounds of the loop: `base` goes after the last page, and then after
        itself. */
    method AddLast(base: nat, ghost l: seq<nat>, last: nat)
      requires Valid(l) && 1 <= base < next.Length && base !in l
      requires l != [] && last == l[|l| - 1] && last < base
      modifies next, prev
      ensures Valid(Put(l, |l|, base)) && prev[base] == base && !Backward(Put(l, |l|, base), prev[..])
      ensures next[..] == old(next[..])[last := base][base := HEAD] && prev[..] == old(prev[..])[HEAD := base][base := base]
    {
      ghost var next0: seq<nat>, prev0: seq<nat> := next[..], prev[..];
      Follow(l, next0, |l| - 1);
      PutForward(l, next0, |l|, base);
      PutRing(l, next.Length, |l|, base);
      assert last in l && 1 <= last && Nth(l, |l| - 1) == last && Nth(l, |l|) == HEAD;
      hide Forward, Backward, Put, Ring, Nth;
      var le := last;
      while le != HEAD
        invariant (next[..] == next0 && le == last) || (next[..] == next0[last := base][base := HEAD] && (le == base || le == HEAD))
        invariant le == last ==> prev[..] == prev0
        invariant le == base ==> prev[..] == prev0[HEAD := base][base := last]
        invariant le == HEAD ==> prev[..] == prev0[HEAD := base][base := base]
        decreases if le == last then 2 else if le == base then 1 else 0
      {
        if next[le] == HEAD {
          ListAdd(base, le, next[le]);
        }
        le := next[le];
      }
      SelfLinked(l, prev[..], base);
    }

    /** The loop that puts `base` into the list `l`. The chain of successors is right in all
        cases, the chain of predecessors only when the list was empty or `base` is not the
        highest page. */
    method Insert(base: nat, ghost l: seq<nat>) returns (ghost k: nat)
      requires Valid(l) && Backward(l, prev[..]) && 1 <= base < next.Length && base !in l
      modifies next, prev
      ensures k <= |l| && (forall i :: 0 <= i < k ==> l[i] < base) && (forall i :: k <= i < |l| ==> base < l[i])
      ensures Valid(Put(l, k, base))
      ensures Backward(Put(l, k, base), prev[..]) <==> l == [] || base < l[|l| - 1]
      ensures l != [] && l[|l| - 1] < base ==> prev[base] == base
    {
      hide Forward, Backward, Put, Ring;
      k := 0;
      First(l, next[..]);
      if next[HEAD] == HEAD {
        AddFirst(base, l);
      } else {
        var le := next[HEAD];
        while true
          invariant k < |l| && le == l[k] && Valid(l) && Backward(l, prev[..])
          invariant forall i :: 0 <= i < k ==> l[i] < base
          decreases |l| - k
        {
          Follow(l, next[..], k);
          if base < le {
            RingAbove(l, next.Length, k, base);
            AddBefore(base, l, k, le);
            return;
          } else if next[le] == HEAD {
            assert k + 1 == |l| && le == l[|l| - 1];
            AddLast(base, l, le);
            k := |l|;
            return;
          }
          k := k + 1;
          le := next[le];
        }
      }
    }

    /** Takes page `p`, number `k` of `t`, off the list. */
    method TakeOff(p: nat, ghost t: seq<nat>, ghost k: nat)
      requires Valid(t) && Backward(t, prev[..]) && k < |t| && t[k] == p
      modifies next, prev
      ensures Valid(Cut(t, k)) && Backward(Cut(t, k), prev[..])
    {
      hide Forward, Backward, Put, Ring, Nth, Cut;
      CutIsUnput(t, next.Length, k);
      CutSize(t, k);
      Unput(Cut(t, k), next[..], k, p);
      UnputBackward(Cut(t, k), prev[..], k, p);
      NthInRing(Cut(t, k), next.Length, k);
      NthInRing(Cut(t, k), next.Length, k - 1);
      ListDel(p);
    }

    /** The merge with the block below, which is looked up as the predecessor of `base`. Unless
        the links are `good`, that is `base` itself. */
    method MergeBelow(base: nat, ghost good: bool, ghost t: seq<nat>, ghost k: nat, ghost fl: seq<Block>, ghost b: Block)
      returns (first: nat, ghost u: seq<nat>)
      requires property != next && property != prev && property.Length == next.Length
      requires Valid(t) && k < |t| && t[k] == base < property.Length && b == Block(base, property[base]) && property[base] > 0
      requires Stands(t, property[..], fl, k, b, k)
      requires if good then Backward(t, prev[..]) else prev[base] == base
      modifies next, prev, property
      ensures good ==> Valid(u) && Backward(u, prev[..]) && Before(fl, k, b) < |u| && u[Before(fl, k, b)] == first
      ensures good ==> Stands(u, property[..], fl, Before(fl, k, b), LeftJoined(fl, k, b), k)
      ensures !good ==> first == base && u == t && next[..] == old(next[..]) && prev[..] == old(prev[..]) && property[..] == old(property[..])
    {
      hide Forward, Backward, Ring, Nth, Cut, Stands;
      StandsAt(t, property[..], fl, k, b, k);
      RingPages(t, next.Length);
      if good { PrevIs(t, prev[..], k); }
      first, u := base, t;
      var le := prev[base];
      if le != HEAD {
        var p := le;
        if p + property[p] == base {
          StandsLeft(t, next.Length, property[..], fl, k, b, k);
          ghost var prop := property[..];
          property[p] := property[p] + property[base];
          assert property[..] == prop[p := prop[p] + prop[base]];
          TakeOff(base, t, k);
          CutSize(t, k);
          first, u := p, Cut(t, k);
        }
      }
    }

    /** The merge with the block above. */
    method MergeAbove(first: nat, ghost good: bool, ghost t: seq<nat>, ghost k: nat, ghost fl: seq<Block>, ghost b: Block)
      returns (ghost u: seq<nat>)
      requires property != next && property != prev && property.Length == next.Length && Valid(t)
      requires good ==> Backward(t, prev[..]) && k <= |fl| && Before(fl, k, b) < |t| && t[Before(fl, k, b)] == first
      requires good ==> Stands(t, property[..], fl, Before(fl, k, b), LeftJoined(fl, k, b), k)
      requires !good ==> |t| > 0 && t[|t| - 1] == first
      modifies next, prev, property
      ensures good ==> Valid(u) && Backward(u, prev[..])
      ensures good ==> Stands(u, property[..], fl, Before(fl, k, b), Joined(fl, k, b), After(fl, k, b))
      ensures !good ==> u == t && next[..] == old(next[..]) && prev[..] == old(prev[..]) && property[..] == old(property[..])
    {
      hide Forward, Backward, Ring, Nth, Cut, Stands;
      ghost var i, m := if good then Before(fl, k, b) else |t| - 1, LeftJoined(fl, k, b);
      if good { StandsAt(t, property[..], fl, i, m, k); }
      RingPages(t, next.Length);
      NextIs(t, next[..], i);
      u := t;
      var le := next[first];
      if le != HEAD {
        var p := le;
        if first + property[first] == p {
          StandsRight(t, next.Length, property[..], fl, i, m, k);
          ghost var prop := property[..];
          property[first] := property[first] + property[p];
          assert property[..] == prop[first := prop[first] + prop[p]];
          TakeOff(p, t, i + 1);
          u := Cut(t, i + 1);
        }
      }
    }

    /** default_free_pages over the links as they are written. The list is the one with the
        pages back and both neighbours joined exactly when `base` is not above all others, or
        at least not next to the last block; and only in the first case are the links right. */
    method FreePages(base: nat, n: nat, ghost l: seq<nat>) returns (ghost t: seq<nat>)
      requires Valid(l) && Backward(l, prev[..]) && 1 <= base < next.Length && base !in l && n > 0
      requires property != next && property != prev && property.Length == next.Length
      requires Sorted(BlocksOf(l, property[..])) && Apart(BlocksOf(l, property[..]), Block(base, n))
      modifies next, prev, property
      ensures Valid(t) && (Backward(t, prev[..]) <==> l == [] || base < l[|l| - 1])
      ensures l != [] && l[|l| - 1] < base ==> prev[base] == base && BlocksOf(t, property[..]) == old(BlocksOf(l, property[..])) + [Block(base, n)]
      ensures var fl, b := old(BlocksOf(l, property[..])), Block(base, n);
              |fl| == |l| &&
              (BlocksOf(t, property[..]) == Freed(fl, b) <==> l == [] || base < l[|l| - 1] || fl[|fl| - 1].End() != base)
    {
      hide Forward, Backward, Put, Ring, Nth, Sorted, Apart, Stands, Freed;
      ghost var fl, b, prop0 := BlocksOf(l, property[..]), Block(base, n), property[..];
      property[base] := n;
      assert property[..] == prop0[base := n];
      ghost var k := Insert(base, l);
      ghost var good := l == [] || base < l[|l| - 1];
      Fresh(l, next.Length, k, base);
      PlaceInList(l, prop0, k, b);
      StandsPut(l, prop0, k, base, n);
      PutAtPlace(l, k, base);
      t := Put(l, k, base);
      var first;
      first, t := MergeBelow(base, good, t, k, fl, b);
      t := MergeAbove(first, good, t, k, fl, b);
      if good {
        StandsIsFreed(t, property[..], fl, k, b);
      } else {
        StandsLast(t, property[..], fl, b);
        AppendedIsFreed(fl, b);
        SelfLinked(l, prev[..], base);
      }
    }

    /** Taking the page just appended off the list (the exact fit of default_alloc_pages):
        its successor links still lead to it. */
    method DeleteAppended(base: nat, ghost l: seq<nat>)
      requires l != [] && Valid(Put(l, |l|, base)) && base < next.Length && prev[base] == base
      modifies next, prev
      ensures Valid(Put(l, |l|, base)) && next[..] == old(next[..]) && next[base] == HEAD
    {
      ghost var t := Put(l, |l|, base);
      assert Nth(t, |l|) == base && next[..][Nth(t, |l|)] == Nth(t, |l| + 1);
      ListDel(base);
      assert next[..] == old(next[..]);
    }

    /** The search of default_alloc_pages. */
    method FindFit(n: nat, ghost t: seq<nat>) returns (page: nat, ghost i: nat)
      requires Valid(t) && property.Length == next.Length
      ensures i <= |t| && (forall j :: 0 <= j < i ==> t[j] < property.Length && property[t[j]] < n)
      ensures if i < |t| then page == t[i] < property.Length && property[page] >= n else page == HEAD
    {
      hide Forward, Ring;
      First(t, next[..]);
      RingPages(t, next.Length);
      i := 0;
      page := next[HEAD];
      while page != HEAD
        invariant i <= |t| && page == (if i < |t| then t[i] else HEAD)
        invariant forall j :: 0 <= j < i ==> property[t[j]] < n
        decreases |t| - i
      {
        if property[page] >= n {
          return;
        }
        NextIs(t, next[..], i);
        page := next[page];
        i := i + 1;
      }
    }

    /** default_alloc_pages when the block it finds is the one just appended: the page handed
        out stays on the list, with the number of pages it had. */
    method AllocAppended(n: nat, ghost base: nat, ghost l: seq<nat>) returns (page: nat, ghost t: seq<nat>)
      requires l != [] && Valid(Put(l, |l|, base)) && base < next.Length && prev[base] == base
      requires property != next && property != prev && property.Length == next.Length
      requires 0 < n <= property[base] && base + property[base] <= next.Length
      requires forall p :: p in l ==> p < base && p < property.Length && property[p] < n
      modifies next, prev, property
      ensures property[base] == old(property[base]) && forall p :: p in l ==> property[p] == old(property[p])
      ensures page == base && Valid(t) && t == l + [base] + if property[base] > n then [base + n] else []
      ensures property[base] > n ==> property[base + n] == property[base] - n
    {
      t := Put(l, |l|, base);
      ghost var i;
      page, i := FindFit(n, t);
      AppendedFit(t, l, base, property[..], n, i);
      var before := prev[page];
      DeleteAppended(page, l);
      if property[page] > n {
        var p := page + n;
        property[p] := property[page] - n;
        AppendMore(t, next[..], p);
        ListAdd(p, before, next[before]);
        t := Put(t, |t|, p);
      }
    }

    /** So the next call of no more pages gets the same page again. */
    method AllocTwice(n: nat, m: nat, ghost base: nat, ghost l: seq<nat>) returns (a: nat, b: nat)
      requires l != [] && Valid(Put(l, |l|, base)) && base < next.Length && prev[base] == base
      requires property != next && property != prev && property.Length == next.Length
      requires 0 < n <= property[base] && 0 < m <= property[base] && base + property[base] <= next.Length
      requires forall p :: p in l ==> p < base && p < property.Length && property[p] < n && property[p] < m
      modifies next, prev, property
      ensures a == b == base
    {
      ghost var t, i;
      a, t := AllocAppended(n, base, l);
      b, i := FindFit(m, t);
      assert t[|l|] == base && forall j :: 0 <= j < |l| ==> t[j] == l[j];
    }
  }
}
