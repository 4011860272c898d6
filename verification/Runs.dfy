/** Free lists as sequences of blocks in address order. Both allocators keep their free
    memory this way: SLOB (kern/mm/kmalloc.c) in units of sizeof(slob_t), the page allocator
    (kern/mm/default_pmm.c) in pages. */
module Runs {

  datatype Block = Block(addr: int, size: int) {
    function End(): int { addr + size }

    predicate Has(x: int) { addr <= x < addr + size }
  }

  /** Ascending, disjoint and never adjacent. */
  ghost predicate Sorted(fl: seq<Block>) {
    && (forall i :: 0 <= i < |fl| ==> fl[i].size >= 1)
    && (forall i, j :: 0 <= i < j < |fl| ==> fl[i].End() < fl[j].addr)
  }

  lemma SortedSizes(fl: seq<Block>)
    requires Sorted(fl)
    ensures forall i :: 0 <= i < |fl| ==> fl[i].size >= 1
  {
  }

  ghost predicate Covers(fl: seq<Block>, x: int) {
    exists b :: b in fl && b.Has(x)
  }

  /** Unit `x` is in no free block next to or inside [addr, addr + size). */
  ghost predicate Apart(fl: seq<Block>, b: Block) {
    forall i :: 0 <= i < |fl| ==> fl[i].End() <= b.addr || b.End() <= fl[i].addr
  }

  /** A block whose units are not free keeps clear of every free block. */
  lemma NotCoveredApart(fl: seq<Block>, b: Block)
    requires Sorted(fl) && b.size >= 1
    requires forall x :: b.Has(x) ==> !Covers(fl, x)
    ensures Apart(fl, b)
  {
    forall i | 0 <= i < |fl| ensures fl[i].End() <= b.addr || b.End() <= fl[i].addr {
      assert fl[i] in fl && fl[i].size >= 1;
      if fl[i].addr <= b.addr {
        assert b.Has(b.addr);
        assert !fl[i].Has(b.addr);
      } else {
        assert fl[i].Has(fl[i].addr);
        assert !b.Has(fl[i].addr);
      }
    }
  }

  /** `k` blocks lie below address `a`, the others above it. */
  ghost predicate IsPlace(fl: seq<Block>, k: nat, a: int) {
    && k <= |fl|
    && (forall i :: 0 <= i < k ==> fl[i].addr < a)
    && (forall i :: k <= i < |fl| ==> a < fl[i].addr)
  }

  /** How many blocks lie below address `a`. */
  function Place(fl: seq<Block>, a: int): (k: nat)
    ensures k <= |fl|
  {
    if fl == [] || fl[0].addr > a then 0 else 1 + Place(fl[1..], a)
  }

  lemma {:induction false} PlaceIsPlace(fl: seq<Block>, a: int)
    requires Sorted(fl) && forall i :: 0 <= i < |fl| ==> fl[i].addr != a
    ensures IsPlace(fl, Place(fl, a), a)
  {
    if fl != [] && fl[0].addr < a {
      PlaceIsPlace(fl[1..], a);
      assert forall i :: 1 <= i < |fl| ==> fl[i] == fl[1..][i - 1];
    } else if fl != [] {
      assert forall i :: 1 <= i < |fl| ==> fl[0].End() < fl[i].addr;
    }
  }

  predicate JoinsRight(fl: seq<Block>, k: nat, b: Block) {
    k < |fl| && b.End() == fl[k].addr
  }

  predicate JoinsLeft(fl: seq<Block>, k: nat, b: Block) {
    0 < k <= |fl| && fl[k - 1].End() == b.addr
  }

  /** The block `b` becomes once joined with its neighbours. */
  function Joined(fl: seq<Block>, k: nat, b: Block): Block {
    var addr := if JoinsLeft(fl, k, b) then fl[k - 1].addr else b.addr;
    var end := if JoinsRight(fl, k, b) then fl[k].End() else b.End();
    Block(addr, end - addr)
  }

  /** How many blocks stay as they are before and after it. */
  function Before(fl: seq<Block>, k: nat, b: Block): nat {
    if JoinsLeft(fl, k, b) then k - 1 else k
  }

  function After(fl: seq<Block>, k: nat, b: Block): nat {
    if JoinsRight(fl, k, b) then k + 1 else k
  }

  /** The list with `b` put in at place `k`. */
  function Release(fl: seq<Block>, k: nat, b: Block): seq<Block>
    requires k <= |fl|
  {
    fl[..Before(fl, k, b)] + [Joined(fl, k, b)] + fl[After(fl, k, b)..]
  }

  /** The list once the first `u` units of block `i` are taken. */
  function Take(fl: seq<Block>, i: nat, u: int): seq<Block>
    requires i < |fl|
  {
    fl[..i] + (if fl[i].size == u then [] else [Block(fl[i].addr + u, fl[i].size - u)]) + fl[i + 1..]
  }

  lemma SortedConcat(pre: seq<Block>, m: seq<Block>, post: seq<Block>)
    requires Sorted(pre) && Sorted(post) && |m| <= 1 && forall b :: b in m ==> b.size >= 1
    requires forall p, b :: p in pre && b in m ==> p.End() < b.addr
    requires forall b, q :: b in m && q in post ==> b.End() < q.addr
    requires forall p, q :: p in pre && q in post ==> p.End() < q.addr
    ensures Sorted(pre + m + post)
  {
    var t := pre + m + post;
    forall i, j | 0 <= i < j < |t| ensures t[i].End() < t[j].addr {
      assert i < |pre| ==> t[i] in pre;
      assert |pre| <= i < |pre| + |m| ==> t[i] in m;
      assert j >= |pre| + |m| ==> t[j] in post;
      assert |pre| <= j < |pre| + |m| ==> t[j] in m;
    }
  }

  lemma SortedSlices(fl: seq<Block>, i: nat, j: nat)
    requires Sorted(fl) && i <= j <= |fl|
    ensures Sorted(fl[..i]) && Sorted(fl[j..])
    ensures forall p, q :: p in fl[..i] && q in fl[j..] ==> p.End() < q.addr
    ensures forall p, b :: p in fl[..i] && b in fl[i..] ==> p.End() < b.addr
    ensures forall b, q :: b in fl[..j] && q in fl[j..] ==> b.End() < q.addr
  {
  }

  lemma JoinedSize(fl: seq<Block>, k: nat, b: Block)
    requires Sorted(fl) && IsPlace(fl, k, b.addr) && b.size >= 1
    ensures Joined(fl, k, b).size >= b.size
  {
  }

  lemma JoinedAfter(fl: seq<Block>, k: nat, b: Block, n: nat)
    requires Sorted(fl) && IsPlace(fl, k, b.addr) && Apart(fl, b) && b.size >= 1
    requires n < Before(fl, k, b)
    ensures fl[n].End() < Joined(fl, k, b).addr
  {
    assert fl[n].End() <= b.addr;
    if n < k - 1 {
      assert fl[n].End() < fl[k - 1].addr;
    }
  }

  lemma JoinedBefore(fl: seq<Block>, k: nat, b: Block, n: nat)
    requires Sorted(fl) && IsPlace(fl, k, b.addr) && Apart(fl, b) && b.size >= 1
    requires After(fl, k, b) <= n < |fl|
    ensures Joined(fl, k, b).End() < fl[n].addr
  {
    assert b.End() <= fl[n].addr;
    if n > k {
      assert fl[k].End() < fl[n].addr && b.End() <= fl[k].addr;
    }
  }

  lemma PlaceOrder(fl: seq<Block>, k: nat, b: Block)
    requires IsPlace(fl, k, b.addr)
    ensures Before(fl, k, b) <= After(fl, k, b) <= |fl|
  {
  }

  lemma ReleaseKeepsSorted(fl: seq<Block>, k: nat, b: Block)
    requires Sorted(fl) && IsPlace(fl, k, b.addr) && Apart(fl, b) && b.size >= 1
    ensures Sorted(Release(fl, k, b))
  {
    hide Sorted, Joined, Before, After, IsPlace, Apart;
    var i, j := Before(fl, k, b), After(fl, k, b);
    var m := Joined(fl, k, b);
    JoinedSize(fl, k, b);
    PlaceOrder(fl, k, b);
    SortedSlices(fl, i, j);
    forall p | p in fl[..i] ensures p.End() < m.addr {
      var n :| 0 <= n < i && fl[n] == p;
      JoinedAfter(fl, k, b, n);
    }
    forall q | q in fl[j..] ensures m.End() < q.addr {
      var n :| j <= n < |fl| && fl[n] == q;
      JoinedBefore(fl, k, b, n);
    }
    SortedConcat(fl[..i], [m], fl[j..]);
  }

  lemma CoversSplit(a: seq<Block>, b: seq<Block>, x: int)
    ensures Covers(a + b, x) <==> Covers(a, x) || Covers(b, x)
  {
  }

  lemma CoversOne(b: Block, x: int)
    ensures Covers([b], x) <==> b.Has(x)
  {
    assert b in [b];
  }

  lemma CoversThree(fl: seq<Block>, i: nat, j: nat, x: int)
    requires i <= j <= |fl|
    ensures Covers(fl, x) <==> Covers(fl[..i], x) || Covers(fl[i..j], x) || Covers(fl[j..], x)
  {
    assert fl == fl[..i] + fl[i..j] + fl[j..];
    CoversSplit(fl[..i] + fl[i..j], fl[j..], x);
    CoversSplit(fl[..i], fl[i..j], x);
  }

  /** Releasing a block frees its units and no others. */
  lemma ReleaseCovers(fl: seq<Block>, k: nat, b: Block, x: int)
    requires Sorted(fl) && k <= |fl| && b.size >= 1
    ensures Covers(Release(fl, k, b), x) <==> Covers(fl, x) || b.Has(x)
  {
    var i, j := Before(fl, k, b), After(fl, k, b);
    var m := Joined(fl, k, b);
    JoinedCovers(fl, k, b, x);
    hide Covers, Joined, Before, After, Sorted;
    CoversThree(fl, i, j, x);
    CoversSplit(fl[..i] + [m], fl[j..], x);
    CoversSplit(fl[..i], [m], x);
    CoversOne(m, x);
  }

  /** The blocks a release replaces. */
  lemma JoinedSlice(fl: seq<Block>, k: nat, b: Block)
    requires k <= |fl|
    ensures fl[Before(fl, k, b)..After(fl, k, b)] ==
            (if JoinsLeft(fl, k, b) then [fl[k - 1]] else []) + (if JoinsRight(fl, k, b) then [fl[k]] else [])
  {
    if JoinsLeft(fl, k, b) && JoinsRight(fl, k, b) {
      assert fl[k - 1..k + 1] == [fl[k - 1]] + [fl[k]];
    } else if JoinsLeft(fl, k, b) {
      assert fl[k - 1..k] == [fl[k - 1]] + [];
    } else if JoinsRight(fl, k, b) {
      assert fl[k..k + 1] == [] + [fl[k]];
    } else {
      assert fl[k..k] == [] + [];
    }
  }

  /** The block `b` becomes part of covers what it replaces, and itself. */
  lemma JoinedCovers(fl: seq<Block>, k: nat, b: Block, x: int)
    requires Sorted(fl) && k <= |fl| && b.size >= 1
    ensures Before(fl, k, b) <= After(fl, k, b) <= |fl|
    ensures Joined(fl, k, b).Has(x) <==> Covers(fl[Before(fl, k, b)..After(fl, k, b)], x) || b.Has(x)
  {
    var left := if JoinsLeft(fl, k, b) then [fl[k - 1]] else [];
    var right := if JoinsRight(fl, k, b) then [fl[k]] else [];
    JoinedSlice(fl, k, b);
    CoversSplit(left, right, x);
    if JoinsLeft(fl, k, b) { CoversOne(fl[k - 1], x); }
    if JoinsRight(fl, k, b) { CoversOne(fl[k], x); }
    hide Covers;
    CoversNone(x);
  }

  lemma CoversNone(x: int)
    ensures !Covers([], x)
  {
  }

  lemma TakeKeepsSorted(fl: seq<Block>, i: nat, u: int)
    requires Sorted(fl) && i < |fl| && 1 <= u <= fl[i].size
    ensures Sorted(Take(fl, i, u))
  {
    SortedSlices(fl, i, i + 1);
    assert fl[i] in fl[i..] && fl[i] in fl[..i + 1];
    SortedConcat(fl[..i], if fl[i].size == u then [] else [Block(fl[i].addr + u, fl[i].size - u)], fl[i + 1..]);
  }

  /** Taking units removes exactly those. */
  lemma TakeCovers(fl: seq<Block>, i: nat, u: int, x: int)
    requires Sorted(fl) && i < |fl| && 1 <= u <= fl[i].size
    ensures Covers(Take(fl, i, u), x) <==> Covers(fl, x) && !Block(fl[i].addr, u).Has(x)
  {
    var rest := if fl[i].size == u then [] else [Block(fl[i].addr + u, fl[i].size - u)];
    CoversThree(fl, i, i + 1, x);
    assert fl[i..i + 1] == [fl[i]];
    CoversOne(fl[i], x);
    CoversSplit(fl[..i] + rest, fl[i + 1..], x);
    CoversSplit(fl[..i], rest, x);
    if rest != [] { CoversOne(rest[0], x); }
    SortedSlices(fl, i, i + 1);
    assert fl[i] in fl[i..] && fl[i] in fl[..i + 1];
    assert Covers(fl[..i], x) ==> x < fl[i].addr;
    assert Covers(fl[i + 1..], x) ==> x >= fl[i].End();
  }

  // ---------------------------------------------------------------- uniqueness

  lemma HeadIsLowest(fl: seq<Block>)
    requires Sorted(fl) && fl != []
    ensures forall x :: Covers(fl, x) ==> fl[0].addr <= x
    ensures forall x :: fl[0].Has(x) ==> Covers(fl, x)
    ensures !Covers(fl, fl[0].End())
    ensures forall x :: Covers(fl[1..], x) <==> Covers(fl, x) && !fl[0].Has(x)
  {
    assert fl == [fl[0]] + fl[1..];
    forall x ensures Covers(fl, x) <==> fl[0].Has(x) || Covers(fl[1..], x) {
      CoversSplit([fl[0]], fl[1..], x);
      CoversOne(fl[0], x);
    }
    assert forall i :: 1 <= i < |fl| ==> fl[0].End() < fl[i].addr;
  }

  /** A sorted list without adjacent blocks is the list of maximal runs of what it covers:
      no other such list covers the same. */
  lemma {:induction false} Canonical(fl: seq<Block>, gl: seq<Block>)
    requires Sorted(fl) && Sorted(gl)
    requires forall x :: Covers(fl, x) <==> Covers(gl, x)
    ensures fl == gl
  {
    if fl != [] && gl != [] {
      HeadIsLowest(fl);
      HeadIsLowest(gl);
      assert fl[0].Has(fl[0].addr) && gl[0].Has(gl[0].addr);
      assert fl[0].addr == gl[0].addr;
      assert fl[0].End() <= gl[0].End() && gl[0].End() <= fl[0].End();
      Canonical(fl[1..], gl[1..]);
      assert fl == [fl[0]] + fl[1..] && gl == [gl[0]] + gl[1..];
    } else if fl != [] {
      assert fl[0].Has(fl[0].addr) && Covers(fl, fl[0].addr);
    } else if gl != [] {
      assert gl[0].Has(gl[0].addr) && Covers(gl, gl[0].addr);
    }
  }

  /** Giving back what was taken restores the list. */
  lemma TakeThenRelease(fl: seq<Block>, i: nat, u: int, k: nat)
    requires Sorted(fl) && i < |fl| && 1 <= u <= fl[i].size
    requires var b := Block(fl[i].addr, u);
             k <= |Take(fl, i, u)| && IsPlace(Take(fl, i, u), k, b.addr) && Apart(Take(fl, i, u), b)
    ensures Release(Take(fl, i, u), k, Block(fl[i].addr, u)) == fl
  {
    var b := Block(fl[i].addr, u);
    TakeKeepsSorted(fl, i, u);
    ReleaseKeepsSorted(Take(fl, i, u), k, b);
    forall x ensures Covers(Release(Take(fl, i, u), k, b), x) <==> Covers(fl, x) {
      TakeCovers(fl, i, u, x);
      ReleaseCovers(Take(fl, i, u), k, b, x);
      assert b.Has(x) ==> fl[i].Has(x) && fl[i] in fl;
    }
    Canonical(Release(Take(fl, i, u), k, b), fl);
  }
}
