/** What the SLOB heap consists of: the pages it has acquired, cut into free blocks and live
    blocks. */
module SlobHeap {
  import opened Collections
  import opened Runs

  const PAGE_UNITS := 256

  /** A block handed out; `small` when its header is still in place. */
  datatype Live = Live(size: int, small: bool)

  type Lives = map<int, Live>

  function PageOf(x: int): int {
    x / PAGE_UNITS * PAGE_UNITS
  }

  ghost predicate LiveCovers(live: Lives, x: int) {
    exists a :: a in live && Block(a, live[a].size).Has(x)
  }

  /** Every unit of an acquired page, and the arena, is in exactly one block, free or live. */
  ghost predicate Partition(fl: seq<Block>, live: Lives, pages: set<int>, arena: int) {
    && (forall x {:trigger PageOf(x)} {:trigger Covers(fl, x)} {:trigger LiveCovers(live, x)} ::
          Covers(fl, x) || LiveCovers(live, x) <==> PageOf(x) in pages || x == arena)
    && (forall x {:trigger Covers(fl, x)} {:trigger LiveCovers(live, x)} :: !(Covers(fl, x) && LiveCovers(live, x)))
    && LivesApart(live)
  }

  ghost predicate LivesApart(live: Lives) {
    && (forall a, b :: a in live && b in live && a != b ==> a + live[a].size <= b || b + live[b].size <= a)
    && (forall a :: a in live ==> live[a].size >= 2)
  }

  /** Pages are aligned, and none is next to the arena. */
  ghost predicate PagesOk(pages: set<int>, arena: int, n: int) {
    forall p :: p in pages ==>
      && p == PageOf(p) && 0 <= p && p + PAGE_UNITS <= n
      && p != PageOf(arena) && p != PageOf(arena - 1) && p != PageOf(arena + 1)
  }

  /** A live block is apart from all free blocks, not next to the arena, and inside pages
      the heap has acquired. */
  lemma LiveFacts(fl: seq<Block>, live: Lives, pages: set<int>, arena: int, n: int, a: int)
    requires Sorted(fl) && Partition(fl, live, pages, arena) && PagesOk(pages, arena, n)
    requires Block(arena, 1) in fl && a in live
    ensures var b := Block(a, live[a].size);
            && b.size >= 2 && Apart(fl, b) && b.End() != arena && arena + 1 != a
            && 0 <= a < n && PageOf(a) in pages && PageOf(a + 1) in pages
  {
    var b := Block(a, live[a].size);
    forall x | b.Has(x) ensures !Covers(fl, x) && PageOf(x) in pages {
      assert LiveCovers(live, x);
      assert x == arena ==> Covers(fl, x) by { assert Block(arena, 1).Has(arena); }
    }
    NotCoveredApart(fl, b);
    assert b.Has(a) && b.Has(a + 1) && b.Has(b.End() - 1);
  }

  /** Taking the first `u` units of free block `i` for a new live block. */
  lemma AllocKeepsPartition(fl: seq<Block>, live: Lives, pages: set<int>, arena: int, i: nat, u: int, small: bool)
    requires Sorted(fl) && Partition(fl, live, pages, arena) && i < |fl| && 2 <= u <= fl[i].size
    ensures fl[i].addr !in live
    ensures Partition(Take(fl, i, u), live[fl[i].addr := Live(u, small)], pages, arena)
  {
    var a := fl[i].addr;
    var b := Block(a, u);
    assert fl[i] in fl && fl[i].Has(a);
    assert Covers(fl, a);
    if a in live {
      LiveCoversOwn(live, a);
    }
    var live2 := live[a := Live(u, small)];
    forall x
      ensures Covers(Take(fl, i, u), x) <==> Covers(fl, x) && !b.Has(x)
      ensures LiveCovers(live2, x) <==> LiveCovers(live, x) || b.Has(x)
      ensures b.Has(x) ==> Covers(fl, x)
    {
      TakeCovers(fl, i, u, x);
      LiveCoversPut(live, a, Live(u, small), x);
      assert b.Has(x) ==> fl[i].Has(x);
    }
    forall c | c in live ensures c + live[c].size <= a || a + u <= c {
      LiveApart(fl, live, pages, arena, b, c);
    }
  }

  lemma LiveCoversOwn(live: Lives, a: int)
    requires a in live && live[a].size >= 1
    ensures LiveCovers(live, a)
  {
    assert Block(a, live[a].size).Has(a);
  }

  lemma LiveCoversPut(live: Lives, a: int, l: Live, x: int)
    requires a !in live
    ensures LiveCovers(live[a := l], x) <==> LiveCovers(live, x) || Block(a, l.size).Has(x)
  {
    var live2 := live[a := l];
    if LiveCovers(live, x) {
      var c :| c in live && Block(c, live[c].size).Has(x);
      assert c in live2 && live2[c] == live[c];
    }
    if Block(a, l.size).Has(x) {
      assert a in live2 && live2[a] == l;
    }
  }

  lemma LiveCoversDrop(live: Lives, a: int, x: int)
    requires a in live
    requires forall c, d :: c in live && d in live && c != d ==> c + live[c].size <= d || d + live[d].size <= c
    ensures LiveCovers(live - {a}, x) <==> LiveCovers(live, x) && !Block(a, live[a].size).Has(x)
  {
    var live2 := live - {a};
    if LiveCovers(live, x) && !Block(a, live[a].size).Has(x) {
      var c :| c in live && Block(c, live[c].size).Has(x);
      assert c in live2 && live2[c] == live[c];
    }
  }

  /** Free units and a live block do not meet. */
  lemma LiveApart(fl: seq<Block>, live: Lives, pages: set<int>, arena: int, b: Block, c: int)
    requires Partition(fl, live, pages, arena) && c in live && b.size >= 1
    requires forall x :: b.Has(x) ==> Covers(fl, x)
    ensures c + live[c].size <= b.addr || b.End() <= c
  {
    var l := Block(c, live[c].size);
    if c <= b.addr {
      assert b.Has(b.addr);
      if l.Has(b.addr) { assert LiveCovers(live, b.addr); }
    } else {
      assert l.Has(c);
      assert LiveCovers(live, c);
      assert !b.Has(c);
    }
  }

  /** Giving a live block back. */
  lemma FreeKeepsPartition(fl: seq<Block>, live: Lives, pages: set<int>, arena: int, a: int, k: nat)
    requires Sorted(fl) && Partition(fl, live, pages, arena) && a in live && k <= |fl|
    ensures Partition(Release(fl, k, Block(a, live[a].size)), live - {a}, pages, arena)
  {
    var b := Block(a, live[a].size);
    forall x
      ensures Covers(Release(fl, k, b), x) <==> Covers(fl, x) || b.Has(x)
      ensures LiveCovers(live - {a}, x) <==> LiveCovers(live, x) && !b.Has(x)
      ensures b.Has(x) ==> LiveCovers(live, x)
    {
      ReleaseCovers(fl, k, b, x);
      LiveCoversDrop(live, a, x);
    }
  }

  /** Growing by a page. */
  lemma GrowKeepsPartition(fl: seq<Block>, live: Lives, pages: set<int>, arena: int, p: int, k: nat)
    requires Sorted(fl) && Partition(fl, live, pages, arena) && k <= |fl|
    requires p == PageOf(p) && p !in pages && p != PageOf(arena)
    ensures Partition(Release(fl, k, Block(p, PAGE_UNITS)), live, pages + {p}, arena)
  {
    var b := Block(p, PAGE_UNITS);
    forall x
      ensures Covers(Release(fl, k, b), x) <==> Covers(fl, x) || b.Has(x)
      ensures b.Has(x) <==> PageOf(x) == p
    {
      ReleaseCovers(fl, k, b, x);
      InPage(x, p);
    }
  }

  lemma InPage(x: int, p: int)
    requires p == PageOf(p)
    ensures Block(p, PAGE_UNITS).Has(x) <==> PageOf(x) == p
  {
  }

  /** A page not acquired yet is clear of all free blocks and of the arena. */
  lemma PageFacts(fl: seq<Block>, live: Lives, pages: set<int>, arena: int, n: int, p: int)
    requires Sorted(fl) && Partition(fl, live, pages, arena)
    requires p !in pages && PagesOk({p}, arena, n)
    ensures var b := Block(p, PAGE_UNITS);
            Apart(fl, b) && b.End() != arena && arena + 1 != p && 0 <= p < n
  {
    assert p in {p};
    forall x | Block(p, PAGE_UNITS).Has(x) ensures !Covers(fl, x) {
      InPage(x, p);
    }
    NotCoveredApart(fl, Block(p, PAGE_UNITS));
    InPage(p, p);
    InPage(p + PAGE_UNITS - 1, p);
  }

  lemma PageBounds(pages: set<int>, arena: int, n: int, p: int)
    requires PagesOk(pages, arena, n) && p in pages
    ensures PagesOk({p}, arena, n) && PagesOk(pages - {p}, arena, n)
    ensures 0 <= p && p + PAGE_UNITS <= n && p == PageOf(p) && p != PageOf(arena)
  {
  }

  /** Free blocks lie inside memory. */
  lemma FreeBounds(fl: seq<Block>, live: Lives, pages: set<int>, arena: int, n: int, c: nat)
    requires Sorted(fl) && Partition(fl, live, pages, arena) && PagesOk(pages, arena, n) && 0 <= arena < n && c < |fl|
    ensures fl[c].End() <= n
  {
    var last := fl[c].End() - 1;
    assert fl[c] in fl && fl[c].Has(last);
    assert Covers(fl, last);
    assert PageOf(last) in pages || last == arena;
  }

  lemma PagesUnion(a: set<int>, b: set<int>, arena: int, n: int)
    requires PagesOk(a, arena, n) && PagesOk(b, arena, n)
    ensures PagesOk(a + b, arena, n)
  {
  }

  /** No free block covers the header of a live one. */
  lemma LiveHeads(fl: seq<Block>, live: Lives, pages: set<int>, arena: int)
    requires Partition(fl, live, pages, arena)
    ensures forall a :: a in live ==> !Covers(fl, a)
  {
    forall a | a in live ensures !Covers(fl, a) {
      LiveCoversOwn(live, a);
    }
  }

  /** Once a whole page has been released there is a block of at least that size. */
  lemma ReleasedIsThere(fl: seq<Block>, k: nat, b: Block)
    requires Sorted(fl) && k <= |fl| && b.size >= 0
    ensures exists i :: 0 <= i < |Release(fl, k, b)| && Release(fl, k, b)[i].size >= b.size
  {
    assert Release(fl, k, b)[Before(fl, k, b)] == Joined(fl, k, b);
  }

  // ---------------------------------------------------------------- searching

  /** The block `steps` on from number `r`, round the list. */
  function At(fl: seq<Block>, r: nat, steps: nat): Block
    requires r < |fl| && steps <= |fl|
  {
    if r + steps < |fl| then fl[r + steps] else fl[r + steps - |fl|]
  }

  /** The blocks the search has looked at, from the one after the rover on, are too small. */
  ghost predicate TooSmall(fl: seq<Block>, r: nat, steps: nat, u: int)
    requires r < |fl| && steps <= |fl|
  {
    forall j: nat :: 1 <= j <= steps ==> At(fl, r, j).size < u
  }

  /** After a whole lap every block has been looked at. */
  lemma WholeLap(fl: seq<Block>, r: nat, u: int)
    requires r < |fl| && TooSmall(fl, r, |fl|, u)
    ensures forall i :: 0 <= i < |fl| ==> fl[i].size < u
  {
    forall i | 0 <= i < |fl| ensures fl[i].size < u {
      var j: nat := if i > r then i - r else i + |fl| - r;
      assert 1 <= j <= |fl| && At(fl, r, j) == fl[i];
    }
  }

  // ------------------------------------------------------------ conservation

  ghost function SumFree(fl: seq<Block>): int {
    if fl == [] then 0 else SumFree(fl[..|fl| - 1]) + fl[|fl| - 1].size
  }

  lemma Empty(s: set<int>)
    requires forall x: int :: x !in s
    ensures s == {}
  {
    if s != {} {
      var x := Pick(s);
    }
  }

  ghost function SumLive(live: Lives): int
    decreases |live|
  {
    if live == map[] then 0 else
      var a := Pick(live.Keys);
      assert |live - {a}| < |live| by { assert live.Keys == (live - {a}).Keys + {a}; }
      live[a].size + SumLive(live - {a})
  }

  ghost function UnitSet(b: Block): set<int> {
    set x | b.addr <= x < b.End() && b.Has(x)
  }

  lemma {:induction false} UnitsSize(b: Block)
    requires b.size >= 0
    ensures |UnitSet(b)| == b.size
    decreases b.size
  {
    if b.size > 0 {
      UnitsSize(Block(b.addr, b.size - 1));
      var last := b.addr + b.size - 1;
      var front := Block(b.addr, b.size - 1);
      forall x ensures x in UnitSet(b) <==> x in UnitSet(front) + {last} {
        assert b.Has(x) <==> front.Has(x) || x == last;
      }
      assert UnitSet(b) == UnitSet(front) + {last};
    } else {
      assert UnitSet(b) == {};
    }
  }

  /** Removing the units of one block from a set that contains them. */
  lemma RemoveUnits(s: set<int>, b: Block)
    requires b.size >= 0 && forall x :: b.Has(x) ==> x in s
    ensures |s| == |s - UnitSet(b)| + b.size
  {
    UnitsSize(b);
    assert s == (s - UnitSet(b)) + UnitSet(b);
  }

  lemma LastBlock(fl: seq<Block>, x: int)
    requires Sorted(fl) && fl != []
    ensures var n := |fl| - 1;
            && (Covers(fl[..n], x) <==> Covers(fl, x) && !fl[n].Has(x))
            && (fl[n].Has(x) ==> Covers(fl, x))
  {
    var n := |fl| - 1;
    assert fl == fl[..n] + [fl[n]];
    CoversSplit(fl[..n], [fl[n]], x);
    CoversOne(fl[n], x);
    assert forall i :: 0 <= i < n ==> fl[i].End() < fl[n].addr;
  }

  /** The free units are as many as the free blocks' sizes add up to. */
  lemma {:induction false} FreeSize(fl: seq<Block>, s: set<int>)
    requires Sorted(fl) && forall x :: x in s <==> Covers(fl, x)
    ensures |s| == SumFree(fl)
  {
    if fl == [] {
      Empty(s);
    } else {
      var n := |fl| - 1;
      forall x
        ensures x in s - UnitSet(fl[n]) <==> Covers(fl[..n], x)
        ensures fl[n].Has(x) ==> x in s
      {
        LastBlock(fl, x);
      }
      SortedSizes(fl);
      SortedSlices(fl, n, n);
      FreeSize(fl[..n], s - UnitSet(fl[n]));
      RemoveUnits(s, fl[n]);
    }
  }

  lemma UnitsAre(b: Block, x: int)
    ensures x in UnitSet(b) <==> b.Has(x)
  {
  }

  lemma LivesFewer(live: Lives, a: int)
    requires a in live && LivesApart(live)
    ensures |live - {a}| < |live| && LivesApart(live - {a}) && live[a].size >= 0
  {
    assert live.Keys == (live - {a}).Keys + {a};
  }

  lemma {:induction false} LiveSize(live: Lives, s: set<int>)
    requires forall x :: x in s <==> LiveCovers(live, x)
    requires LivesApart(live)
    ensures |s| == SumLive(live)
    decreases |live|
  {
    if live == map[] {
      Empty(s);
    } else {
      hide LiveCovers, LivesApart, UnitSet;
      var a := Pick(live.Keys);
      var b := Block(a, live[a].size);
      LivesFewer(live, a);
      forall x
        ensures x in s - UnitSet(b) <==> LiveCovers(live - {a}, x)
        ensures b.Has(x) ==> x in s
      {
        UnitsAre(b, x);
        LiveCoversDrop(live, a, x);
      }
      LiveSize(live - {a}, s - UnitSet(b));
      RemoveUnits(s, b);
    }
  }

  lemma {:induction false} PagesSize(pages: set<int>, s: set<int>)
    requires forall p :: p in pages ==> p == PageOf(p)
    requires forall x :: x in s <==> PageOf(x) in pages
    ensures |s| == PAGE_UNITS * |pages|
    decreases |pages|
  {
    if pages == {} {
      assert forall x :: x in s ==> PageOf(x) in pages;
      Empty(s);
    } else {
      var p := Pick(pages);
      var b := Block(p, PAGE_UNITS);
      forall x
        ensures x in s - UnitSet(b) <==> PageOf(x) in pages - {p}
        ensures b.Has(x) ==> x in s
      {
        InPage(x, p);
      }
      PagesSize(pages - {p}, s - UnitSet(b));
      RemoveUnits(s, b);
    }
  }

  /** Conservation: free and live units together are 256 per page acquired, and one for the
      arena. */
  lemma Conservation(fl: seq<Block>, live: Lives, pages: set<int>, arena: int, n: int)
    requires Sorted(fl) && Partition(fl, live, pages, arena) && PagesOk(pages, arena, n)
    ensures SumFree(fl) + SumLive(live) == PAGE_UNITS * |pages| + 1
  {
    hide Covers, LiveCovers;
    var all := AllUnits(pages, arena, n);
    var free := set x | x in all && Covers(fl, x);
    var used := set x | x in all && LiveCovers(live, x);
    assert all == free + used && free !! used;
    FreeSize(fl, free);
    LiveSize(live, used);
  }

  ghost function AllUnits(pages: set<int>, arena: int, n: int): (all: set<int>)
    requires PagesOk(pages, arena, n)
    ensures |all| == PAGE_UNITS * |pages| + 1
    ensures forall x {:trigger x in all} {:trigger PageOf(x)} :: x in all <==> PageOf(x) in pages || x == arena
  {
    var owned := set x | 0 <= x < n && PageOf(x) in pages;
    PagesSize(pages, owned);
    assert arena !in owned by { assert PageOf(arena) !in pages; }
    owned + {arena}
  }
}
