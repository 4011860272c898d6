/** The SLOB allocator (kern/mm/kmalloc.c): a circular free list threaded through memory,
    with a roving start. Addresses are in units of sizeof(slob_t); a page is 256 units. */
module Slob {
  import opened Collections
  import opened Runs
  import opened SlobHeap

  const SLOB_UNIT := 16
  const PAGE_SIZE := 4096

  /** SLOB_UNITS. */
  function Units(size: nat): (u: nat)
    ensures (u - 1) * SLOB_UNIT < size <= u * SLOB_UNIT
  {
    (size + SLOB_UNIT - 1) / SLOB_UNIT
  }

  /** Address of the block after number `i` round the list. */
  function Succ(fl: seq<Block>, i: nat): int
    requires i < |fl|
  {
    if i + 1 < |fl| then fl[i + 1].addr else fl[0].addr
  }

  /** Memory holds the free list: every block's header gives its size and its successor. */
  ghost predicate Linked(fl: seq<Block>, units: seq<int>, next: seq<int>) {
    && |units| == |next|
    && forall i :: 0 <= i < |fl| ==> Header(units, next, fl[i].addr, fl[i].size, Succ(fl, i))
  }

  /** The block `b` goes after: the one below it, or the last one when it goes first. */
  function Prev(fl: seq<Block>, k: nat): nat
    requires k <= |fl| && |fl| > 0
  {
    if k > 0 then k - 1 else |fl| - 1
  }

  function Set(s: seq<int>, a: int, v: int): seq<int> {
    if 0 <= a < |s| then s[a := v] else s
  }

  /** The header writes of slob_free, as a function of what memory held. */
  function FreeUnits(fl: seq<Block>, k: nat, b: Block, units: seq<int>): seq<int>
    requires k <= |fl| && |fl| > 0
  {
    var size := if JoinsRight(fl, k, b) then b.size + fl[k].size else b.size;
    var u := Set(units, b.addr, size);
    if JoinsLeft(fl, k, b) then Set(u, fl[k - 1].addr, fl[k - 1].size + size) else u
  }

  function FreeNext(fl: seq<Block>, k: nat, b: Block, next: seq<int>): seq<int>
    requires k <= |fl| && |fl| > 0
  {
    var succ := if JoinsRight(fl, k, b) then Succ(fl, k) else Succ(fl, Prev(fl, k));
    Set(Set(next, b.addr, succ), fl[Prev(fl, k)].addr, if JoinsLeft(fl, k, b) then succ else b.addr)
  }

  /** The header at `addr`. */
  predicate Header(units: seq<int>, next: seq<int>, addr: int, size: int, succ: int) {
    0 <= addr < |units| && |units| == |next| && units[addr] == size && next[addr] == succ
  }

  /** What slob_free is called with. */
  ghost predicate CanFree(fl: seq<Block>, k: nat, b: Block, units: seq<int>, next: seq<int>) {
    && Sorted(fl) && |fl| > 0 && Linked(fl, units, next)
    && IsPlace(fl, k, b.addr) && Apart(fl, b) && b.size >= 1 && 0 <= b.addr < |units|
    && (|fl| == 1 ==> !JoinsRight(fl, k, b) && !JoinsLeft(fl, k, b))
  }

  lemma Distinct(fl: seq<Block>, i: nat, j: nat)
    requires Sorted(fl) && i < |fl| && j < |fl| && fl[i].addr == fl[j].addr
    ensures i == j
  {
    assert !(i < j) && !(j < i);
  }

  lemma ReleaseLength(fl: seq<Block>, k: nat, b: Block)
    requires k <= |fl|
    ensures |Release(fl, k, b)| == Before(fl, k, b) + 1 + |fl| - After(fl, k, b)
    ensures Before(fl, k, b) < |Release(fl, k, b)|
  {
  }

  lemma ReleaseIndex(fl: seq<Block>, k: nat, b: Block, n: nat)
    requires k <= |fl| && n < |Release(fl, k, b)|
    ensures var i, j := Before(fl, k, b), After(fl, k, b);
            && |Release(fl, k, b)| == i + 1 + |fl| - j
            && (n < i ==> Release(fl, k, b)[n] == fl[n])
            && (n == i ==> Release(fl, k, b)[n] == Joined(fl, k, b))
            && (n > i ==> Release(fl, k, b)[n] == fl[n - i - 1 + j])
  {
  }

  lemma FreeLinkedOther(fl: seq<Block>, k: nat, b: Block, units: seq<int>, next: seq<int>, m: nat)
    requires CanFree(fl, k, b, units, next) && m < |fl| && m != Prev(fl, k)
    requires m < Before(fl, k, b) || m >= After(fl, k, b)
    ensures Header(FreeUnits(fl, k, b, units), FreeNext(fl, k, b, next), fl[m].addr, fl[m].size, Succ(fl, m))
    ensures JoinsLeft(fl, k, b) ==> Joined(fl, k, b).addr == fl[k - 1].addr
  {
    hide CanFree, Succ;
    OtherHead(fl, k, b, units, next, m);
  }

  lemma OtherHead(fl: seq<Block>, k: nat, b: Block, units: seq<int>, next: seq<int>, m: nat)
    requires CanFree(fl, k, b, units, next) && m < |fl| && m != Prev(fl, k)
    ensures k <= |fl| && fl[m].addr != fl[Prev(fl, k)].addr && fl[m].addr != b.addr
    ensures Header(units, next, fl[m].addr, fl[m].size, Succ(fl, m))
  {
    if fl[m].addr == fl[Prev(fl, k)].addr { Distinct(fl, m, Prev(fl, k)); }
  }

  lemma FreeLinkedPrev(fl: seq<Block>, k: nat, b: Block, units: seq<int>, next: seq<int>)
    requires CanFree(fl, k, b, units, next) && !JoinsLeft(fl, k, b)
    ensures var m := fl[Prev(fl, k)];
            Header(FreeUnits(fl, k, b, units), FreeNext(fl, k, b, next), m.addr, m.size, b.addr)
    ensures Joined(fl, k, b).addr == b.addr
  {
    assert fl[Prev(fl, k)].addr != b.addr;
  }

  lemma FreeLinkedJoined(fl: seq<Block>, k: nat, b: Block, units: seq<int>, next: seq<int>)
    requires CanFree(fl, k, b, units, next)
    ensures var m := Joined(fl, k, b);
            Header(FreeUnits(fl, k, b, units), FreeNext(fl, k, b, next), m.addr, m.size,
                   if JoinsRight(fl, k, b) then Succ(fl, k) else Succ(fl, Prev(fl, k)))
    ensures JoinsLeft(fl, k, b) ==> Joined(fl, k, b).addr == fl[k - 1].addr
  {
    assert fl[Prev(fl, k)].addr != b.addr;
  }

  lemma FreeLinkedAt(fl: seq<Block>, k: nat, b: Block, units: seq<int>, next: seq<int>, n: nat)
    requires CanFree(fl, k, b, units, next) && n < |Release(fl, k, b)|
    ensures var t := Release(fl, k, b);
            Header(FreeUnits(fl, k, b, units), FreeNext(fl, k, b, next), t[n].addr, t[n].size, Succ(t, n))
  {
    hide FreeUnits, FreeNext, Release, Sorted, Linked, Joined;
    var i, j := Before(fl, k, b), After(fl, k, b);
    var t := Release(fl, k, b);
    ReleaseIndex(fl, k, b, n);
    ReleaseIndex(fl, k, b, 0);
    if n + 1 < |t| { ReleaseIndex(fl, k, b, n + 1); }
    if n == i {
      FreeLinkedJoined(fl, k, b, units, next);
    } else {
      var m := if n < i then n else n - i - 1 + j;
      if m == Prev(fl, k) {
        FreeLinkedPrev(fl, k, b, units, next);
      } else {
        FreeLinkedOther(fl, k, b, units, next, m);
      }
    }
  }

  lemma FreeKeepsLinked(fl: seq<Block>, k: nat, b: Block, units: seq<int>, next: seq<int>)
    requires CanFree(fl, k, b, units, next)
    ensures Linked(Release(fl, k, b), FreeUnits(fl, k, b, units), FreeNext(fl, k, b, next))
  {
    hide Release, Sorted, JoinsLeft, JoinsRight;
    forall n | 0 <= n < |Release(fl, k, b)|
      ensures var t := Release(fl, k, b);
              Header(FreeUnits(fl, k, b, units), FreeNext(fl, k, b, next), t[n].addr, t[n].size, Succ(t, n))
    {
      FreeLinkedAt(fl, k, b, units, next, n);
    }
  }

  // -------------------------------------------------------------- allocation

  /** The header writes of slob_alloc. */
  function TakeUnits(fl: seq<Block>, i: nat, u: int, units: seq<int>): seq<int>
    requires i < |fl|
  {
    if fl[i].size == u then units else Set(Set(units, fl[i].addr + u, fl[i].size - u), fl[i].addr, u)
  }

  function TakeNext(fl: seq<Block>, i: nat, u: int, next: seq<int>): seq<int>
    requires i < |fl|
  {
    if fl[i].size == u then Set(next, fl[Prev(fl, i)].addr, Succ(fl, i))
    else Set(Set(next, fl[Prev(fl, i)].addr, fl[i].addr + u), fl[i].addr + u, Succ(fl, i))
  }

  ghost predicate CanTake(fl: seq<Block>, i: nat, u: int, units: seq<int>, next: seq<int>) {
    && Sorted(fl) && |fl| > 1 && Linked(fl, units, next) && i < |fl| && 1 <= u <= fl[i].size
    && fl[i].End() <= |units|
  }

  lemma TakeIndex(fl: seq<Block>, i: nat, u: int, n: nat)
    requires i < |fl| && n < |Take(fl, i, u)|
    ensures |Take(fl, i, u)| == if fl[i].size == u then |fl| - 1 else |fl|
    ensures n < i ==> Take(fl, i, u)[n] == fl[n]
    ensures n == i && fl[i].size != u ==> Take(fl, i, u)[n] == Block(fl[i].addr + u, fl[i].size - u)
    ensures fl[i].size == u && n >= i ==> Take(fl, i, u)[n] == fl[n + 1]
    ensures fl[i].size != u && n > i ==> Take(fl, i, u)[n] == fl[n]
  {
  }

  lemma TakeOutside(fl: seq<Block>, i: nat, m: nat)
    requires Sorted(fl) && i < |fl| && m < |fl| && m != i
    ensures fl[m].End() < fl[i].addr || fl[i].End() < fl[m].addr
    ensures m != Prev(fl, i) ==> fl[m].addr != fl[Prev(fl, i)].addr
    ensures fl[m].size >= 1
  {
    if fl[m].addr == fl[Prev(fl, i)].addr { Distinct(fl, m, Prev(fl, i)); }
  }

  lemma TakeLinkedOther(fl: seq<Block>, i: nat, u: int, units: seq<int>, next: seq<int>, m: nat)
    requires CanTake(fl, i, u, units, next) && m < |fl| && m != i
    ensures Header(TakeUnits(fl, i, u, units), TakeNext(fl, i, u, next), fl[m].addr, fl[m].size,
                   if m != Prev(fl, i) then Succ(fl, m) else if fl[i].size == u then Succ(fl, i) else fl[i].addr + u)
  {
    hide Sorted;
    assert Header(units, next, fl[m].addr, fl[m].size, Succ(fl, m));
    TakeOutside(fl, i, m);
    hide Linked;
  }

  lemma TakeRestFacts(fl: seq<Block>, i: nat, u: int, units: seq<int>, next: seq<int>)
    requires CanTake(fl, i, u, units, next) && fl[i].size != u
    ensures |units| == |next| && 0 <= fl[i].addr < fl[i].addr + u < |units|
    ensures Prev(fl, i) < |fl| && fl[Prev(fl, i)].addr != fl[i].addr + u
  {
    assert Header(units, next, fl[i].addr, fl[i].size, Succ(fl, i));
    TakeOutside(fl, i, Prev(fl, i));
  }

  lemma TakeLinkedRest(fl: seq<Block>, i: nat, u: int, units: seq<int>, next: seq<int>)
    requires CanTake(fl, i, u, units, next) && fl[i].size != u
    ensures Header(TakeUnits(fl, i, u, units), TakeNext(fl, i, u, next), fl[i].addr + u, fl[i].size - u, Succ(fl, i))
  {
    hide CanTake, Sorted, Linked, Succ, Prev;
    TakeRestFacts(fl, i, u, units, next);
  }

  lemma TakeLinkedAt(fl: seq<Block>, i: nat, u: int, units: seq<int>, next: seq<int>, n: nat)
    requires CanTake(fl, i, u, units, next) && n < |Take(fl, i, u)|
    ensures var t := Take(fl, i, u);
            Header(TakeUnits(fl, i, u, units), TakeNext(fl, i, u, next), t[n].addr, t[n].size, Succ(t, n))
  {
    hide TakeUnits, TakeNext, Take, Sorted, Linked;
    TakeIndex(fl, i, u, n);
    TakeIndex(fl, i, u, 0);
    if n + 1 < |Take(fl, i, u)| { TakeIndex(fl, i, u, n + 1); }
    if n == i && fl[i].size != u {
      TakeLinkedRest(fl, i, u, units, next);
    } else {
      TakeLinkedOther(fl, i, u, units, next, if fl[i].size == u && n >= i then n + 1 else n);
    }
  }

  lemma TakeKeepsLinked(fl: seq<Block>, i: nat, u: int, units: seq<int>, next: seq<int>)
    requires CanTake(fl, i, u, units, next)
    ensures Linked(Take(fl, i, u), TakeUnits(fl, i, u, units), TakeNext(fl, i, u, next))
  {
    hide Take, Sorted;
    forall n | 0 <= n < |Take(fl, i, u)|
      ensures var t := Take(fl, i, u);
              Header(TakeUnits(fl, i, u, units), TakeNext(fl, i, u, next), t[n].addr, t[n].size, Succ(t, n))
    {
      TakeLinkedAt(fl, i, u, units, next, n);
    }
  }

  // -------------------------------------------------------------- searching

  /** Steps round the list from one block to another. */
  function Lap(n: nat, from: nat, to: nat): int {
    if from <= to then to - from else to - from + n
  }

  /** slob_free's search stops exactly at the block to insert after. */
  lemma StopsAtPrev(fl: seq<Block>, k: nat, a: int, c: nat)
    requires Sorted(fl) && |fl| > 0 && IsPlace(fl, k, a) && c < |fl|
    ensures var cur, next := fl[c].addr, Succ(fl, c);
            (a > cur && a < next) || (cur >= next && (a > cur || a < next)) <==> c == Prev(fl, k)
  {
  }

  // ------------------------------------------------------------ slob_free

  /** The arena is never next to a block that is freed. */
  ghost predicate CanRelease(fl: seq<Block>, arena: int, b: Block) {
    b.size >= 1 && Apart(fl, b) && b.End() != arena && arena + 1 != b.addr
  }

  lemma StartsApart(fl: seq<Block>, b: Block)
    requires Sorted(fl) && Apart(fl, b) && b.size >= 1
    ensures forall i :: 0 <= i < |fl| ==> fl[i].addr != b.addr
  {
  }

  lemma ReleaseIsFree(fl: seq<Block>, arena: int, b: Block, units: seq<int>, next: seq<int>)
    requires Sorted(fl) && Linked(fl, units, next) && Block(arena, 1) in fl
    requires CanRelease(fl, arena, b) && 0 <= b.addr < |units|
    ensures CanFree(fl, Place(fl, b.addr), b, units, next)
    ensures forall i :: 0 <= i < |fl| ==> fl[i].addr != b.addr
    ensures IsPlace(fl, Place(fl, b.addr), b.addr) && Apart(fl, b) && b.size >= 1
    ensures |fl| == 1 ==> !JoinsRight(fl, Place(fl, b.addr), b)
  {
    StartsApart(fl, b);
    PlaceIsPlace(fl, b.addr);
    if |fl| == 1 {
      assert fl[0] == Block(arena, 1);
    }
  }

  /** What slob_free reads from memory decides the two joins. */
  ghost predicate Reads(fl: seq<Block>, k: nat, b: Block, units: seq<int>, next: seq<int>)
    requires k <= |fl| && |fl| > 0
  {
    var p := Prev(fl, k);
    && Header(units, next, fl[p].addr, fl[p].size, Succ(fl, p)) && fl[p].addr != b.addr
    && (JoinsRight(fl, k, b) <==> b.End() == Succ(fl, p))
    && (JoinsLeft(fl, k, b) <==> fl[p].End() == b.addr)
    && (JoinsLeft(fl, k, b) ==> k > 0)
    && (JoinsRight(fl, k, b) ==> k < |fl| && fl[k].addr == Succ(fl, p) && fl[k].addr != b.addr)
    && (JoinsRight(fl, k, b) ==> Header(units, next, fl[k].addr, fl[k].size, Succ(fl, k)))
  }

  lemma FreeReads(fl: seq<Block>, k: nat, b: Block, units: seq<int>, next: seq<int>)
    requires CanFree(fl, k, b, units, next)
    ensures k <= |fl| && |fl| > 0 && Reads(fl, k, b, units, next)
  {
    hide Sorted, Apart;
    SortedSizes(fl);
  }

  /** Writing the freed block's own header first disturbs none of that. */
  lemma HeaderWritten(fl: seq<Block>, k: nat, b: Block, units: seq<int>, next: seq<int>)
    requires k <= |fl| && |fl| > 0 && 0 <= b.addr < |units| && Reads(fl, k, b, units, next)
    ensures Reads(fl, k, b, units[b.addr := b.size], next)
    ensures FreeUnits(fl, k, b, units[b.addr := b.size]) == FreeUnits(fl, k, b, units)
  {
  }

  /** A block slob_free does not join keeps its place. */
  lemma FreeKeepsBlock(fl: seq<Block>, k: nat, b: Block, n: nat)
    requires k <= |fl| && n < |fl| && (n < Before(fl, k, b) || n >= After(fl, k, b))
    ensures exists c :: 0 <= c < |Release(fl, k, b)| && Release(fl, k, b)[c] == fl[n]
  {
    var i, j := Before(fl, k, b), After(fl, k, b);
    var c := if n < i then n else n - j + i + 1;
    ReleaseIndex(fl, k, b, i);
    ReleaseIndex(fl, k, b, c);
    assert Release(fl, k, b)[c] == fl[n];
  }

  /** The arena stays in the list, being next to no other block. */
  lemma FreeKeepsArena(fl: seq<Block>, k: nat, b: Block, arena: int)
    requires k <= |fl| && CanRelease(fl, arena, b) && Block(arena, 1) in fl
    ensures Block(arena, 1) in Release(fl, k, b)
  {
    hide Apart, Release;
    var n :| 0 <= n < |fl| && fl[n] == Block(arena, 1);
    FreeKeepsBlock(fl, k, b, n);
  }

  /** The rover is left pointing at a block of the list. */
  lemma FreeKeepsPrev(fl: seq<Block>, k: nat, b: Block)
    requires k <= |fl| && |fl| > 0 && (|fl| == 1 ==> !JoinsRight(fl, k, b))
    ensures exists c :: 0 <= c < |Release(fl, k, b)| && Release(fl, k, b)[c].addr == fl[Prev(fl, k)].addr
  {
    hide Release;
    var p := Prev(fl, k);
    if JoinsLeft(fl, k, b) {
      ReleaseLength(fl, k, b);
      ReleaseIndex(fl, k, b, Before(fl, k, b));
      assert Release(fl, k, b)[Before(fl, k, b)].addr == fl[p].addr;
    } else {
      FreeKeepsBlock(fl, k, b, p);
    }
  }

  /** Only headers inside free blocks are written. */
  lemma FreeWritesFree(fl: seq<Block>, k: nat, b: Block, units: seq<int>, next: seq<int>, a: int)
    requires CanFree(fl, k, b, units, next) && 0 <= a < |units|
    requires !Covers(Release(fl, k, b), a)
    ensures |FreeUnits(fl, k, b, units)| == |units| && FreeUnits(fl, k, b, units)[a] == units[a]
  {
    SortedSizes(fl);
    ReleaseLength(fl, k, b);
    hide Apart, IsPlace, Linked, Sorted;
    ReleaseIndex(fl, k, b, Before(fl, k, b));
    var m := Release(fl, k, b)[Before(fl, k, b)];
    assert m == Joined(fl, k, b) && m in Release(fl, k, b);
    assert !m.Has(a);
    assert m.Has(b.addr) && (JoinsLeft(fl, k, b) ==> m.Has(fl[k - 1].addr));
  }

  lemma FreeNextFree(fl: seq<Block>, k: nat, b: Block, units: seq<int>, next: seq<int>, a: int)
    requires CanFree(fl, k, b, units, next) && 0 <= a < |next|
    requires !Covers(Release(fl, k, b), a)
    ensures |FreeNext(fl, k, b, next)| == |next| && FreeNext(fl, k, b, next)[a] == next[a]
  {
    FreeHeads(fl, k, b, units, next, a);
    hide CanFree, Release, Covers;
    assert k <= |fl| && |fl| > 0;
  }

  /** The headers slob_free writes are those of free blocks. */
  lemma FreeHeads(fl: seq<Block>, k: nat, b: Block, units: seq<int>, next: seq<int>, a: int)
    requires CanFree(fl, k, b, units, next) && !Covers(Release(fl, k, b), a)
    ensures k <= |fl| && |fl| > 0 && a != b.addr && a != fl[Prev(fl, k)].addr
  {
    FreeKeepsPrev(fl, k, b);
    ReleaseKeepsSorted(fl, k, b);
    SortedSizes(fl);
    SortedSizes(Release(fl, k, b));
    ReleaseLength(fl, k, b);
    ReleaseIndex(fl, k, b, Before(fl, k, b));
    hide Apart, IsPlace, Linked, Sorted, Release, Succ;
    var t := Release(fl, k, b);
    var c :| 0 <= c < |t| && t[c].addr == fl[Prev(fl, k)].addr;
    assert t[c] in t && !t[c].Has(a);
    var m := t[Before(fl, k, b)];
    assert m == Joined(fl, k, b) && m in t && !m.Has(a) && m.Has(b.addr);
  }

  /** slob_alloc and slob_free touch free blocks only: all other memory is as it was. */
  ghost predicate Same(us: seq<int>, ns: seq<int>, units: seq<int>, next: seq<int>, a: int) {
    0 <= a < |us| && a < |ns| && a < |units| && a < |next| ==> units[a] == us[a] && next[a] == ns[a]
  }

  /** Memory outside the blocks of `fl` and the pages of `free` is as it was. */
  ghost predicate KeepsOthers(fl: seq<Block>, free: set<int>, us: seq<int>, ns: seq<int>, units: seq<int>, next: seq<int>) {
    |units| == |us| == |next| == |ns| && forall a :: !Covers(fl, a) && PageOf(a) !in free ==> Same(us, ns, units, next, a)
  }

  lemma KeepsTwice(fl: seq<Block>, free: set<int>, fl1: seq<Block>, free1: set<int>, us: seq<int>, ns: seq<int>,
                   us1: seq<int>, ns1: seq<int>, us2: seq<int>, ns2: seq<int>)
    requires KeepsOthers(fl, free, us, ns, us1, ns1) && KeepsOthers(fl1, free1, us1, ns1, us2, ns2) && free1 <= free
    requires forall a :: Covers(fl1, a) ==> Covers(fl, a) || PageOf(a) in free
    ensures KeepsOthers(fl, free, us, ns, us2, ns2)
  {
    hide Covers;
    forall a | !Covers(fl, a) && PageOf(a) !in free ensures Same(us, ns, us2, ns2, a) {
      assert Same(us, ns, us1, ns1, a) && Same(us1, ns1, us2, ns2, a);
    }
  }

  lemma KeepsAll(fl: seq<Block>, free: set<int>, us: seq<int>, ns: seq<int>)
    requires |us| == |ns|
    ensures KeepsOthers(fl, free, us, ns, us, ns)
  {
  }

  /** The blocks after growing by page `p` lie where they were or in that page. */
  lemma GrownCovers(fl: seq<Block>, p: int, fl1: seq<Block>, start1: int, free: set<int>)
    requires GrownBy(fl, p, fl1, start1) && Sorted(fl) && p in free && p == PageOf(p)
    ensures forall a :: Covers(fl1, a) ==> Covers(fl, a) || PageOf(a) in free
  {
    forall a | Covers(fl1, a) ensures Covers(fl, a) || PageOf(a) in free {
      ReleaseCovers(fl, Place(fl, p), Block(p, PAGE_UNITS), a);
    }
  }

  lemma GrownInPage(fl: seq<Block>, p: int, fl1: seq<Block>, start1: int, free: set<int>, arena: int, n: int)
    requires GrownBy(fl, p, fl1, start1) && Sorted(fl) && p in free && PagesOk(free, arena, n)
    ensures forall a :: Covers(fl1, a) ==> Covers(fl, a) || PageOf(a) in free
  {
    GrownCovers(fl, p, fl1, start1, free);
  }

  /** What is free now was free before, or a free page. */
  lemma FreeBefore(fl: seq<Block>, live: Lives, pages: set<int>, free: set<int>, fl2: seq<Block>, live2: Lives, pages2: set<int>, arena: int)
    requires Partition(fl, live, pages, arena) && Partition(fl2, live2, pages2, arena) && pages2 <= pages + free
    requires forall a :: a in live ==> a in live2 && live2[a] == live[a]
    ensures forall x :: Covers(fl2, x) ==> Covers(fl, x) || PageOf(x) in free
  {
    hide Covers;
    forall x | Covers(fl2, x) ensures Covers(fl, x) || PageOf(x) in free {
      if LiveCovers(live, x) { StillLive(live, live2, x); }
    }
  }

  lemma StillLive(live: Lives, live2: Lives, x: int)
    requires LiveCovers(live, x) && forall a :: a in live ==> a in live2 && live2[a] == live[a]
    ensures LiveCovers(live2, x)
  {
    var a :| a in live && Block(a, live[a].size).Has(x);
    assert a in live2;
  }

  /** So is the block just handed out. */
  lemma HandedBefore(fl: seq<Block>, live: Lives, pages: set<int>, free: set<int>, fl2: seq<Block>, live2: Lives, pages2: set<int>, arena: int, bb: int)
    requires Partition(fl, live, pages, arena) && Partition(fl2, live2, pages2, arena) && pages2 <= pages + free
    requires bb !in live && bb in live2 && live2 == live[bb := live2[bb]]
    ensures Covers(fl, bb) || PageOf(bb) in free
  {
    hide Covers;
    assert Block(bb, live2[bb].size).Has(bb) && LiveCovers(live2, bb);
    forall a | a in live ensures !Block(a, live[a].size).Has(bb) {
      assert a in live2 && live2[a] == live[a];
    }
  }

  /** Writing the descriptor. */
  lemma KeepsDesc(fl: seq<Block>, free: set<int>, us: seq<int>, ns: seq<int>, units: seq<int>, next: seq<int>, bb: int, v: int)
    requires KeepsOthers(fl, free, us, ns, units, next) && (Covers(fl, bb) || PageOf(bb) in free) && 0 <= bb < |units|
    ensures KeepsOthers(fl, free, us, ns, units[bb := v], next)
  {
    hide Covers;
    forall a | !Covers(fl, a) && PageOf(a) !in free ensures Same(us, ns, units[bb := v], next, a) {
      assert Same(us, ns, units, next, a);
    }
  }

  lemma NotTheArena(fl: seq<Block>, arena: int, c: nat)
    requires Block(arena, 1) in fl && c < |fl| && fl[c].size >= 2
    ensures |fl| > 1
  {
    var i :| 0 <= i < |fl| && fl[i] == Block(arena, 1);
    assert i != c;
  }

  lemma TakeKeepsBlock(fl: seq<Block>, i: nat, u: int, m: nat)
    requires i < |fl| && m < |fl| && m != i
    ensures exists c :: 0 <= c < |Take(fl, i, u)| && Take(fl, i, u)[c] == fl[m]
  {
    var c := if m > i && fl[i].size == u then m - 1 else m;
    TakeIndex(fl, i, u, c);
    assert Take(fl, i, u)[c] == fl[m];
  }

  lemma TakeKeepsArena(fl: seq<Block>, i: nat, u: int, arena: int)
    requires i < |fl| && Block(arena, 1) in fl && fl[i].size >= 2
    ensures Block(arena, 1) in Take(fl, i, u)
  {
    hide Take;
    var n :| 0 <= n < |fl| && fl[n] == Block(arena, 1);
    TakeKeepsBlock(fl, i, u, n);
  }

  lemma TakeKeepsPrev(fl: seq<Block>, i: nat, u: int)
    requires i < |fl| && |fl| > 1
    ensures exists c :: 0 <= c < |Take(fl, i, u)| && Take(fl, i, u)[c].addr == fl[Prev(fl, i)].addr
  {
    hide Take;
    TakeKeepsBlock(fl, i, u, Prev(fl, i));
  }

  /** slob_alloc writes the new block's header, and otherwise only inside the block cut. */
  lemma TakeWrites(fl: seq<Block>, i: nat, u: int, units: seq<int>, next: seq<int>)
    requires CanTake(fl, i, u, units, next)
    ensures var us := TakeUnits(fl, i, u, units);
            && |us| == |units| && 0 <= fl[i].addr < |us| && us[fl[i].addr] == u
            && forall a :: 0 <= a < |units| && !Covers(fl, a) ==> us[a] == units[a]
    ensures KeepsOthers(fl, {}, units, next, TakeUnits(fl, i, u, units), TakeNext(fl, i, u, next))
  {
    hide Covers, Sorted, Linked;
    HeaderOfTaken(fl, i, u, units, next);
    TakeNextKeeps(fl, i, u, units, next);
    forall a | 0 <= a < |units| && !Covers(fl, a) ensures TakeUnits(fl, i, u, units)[a] == units[a] {
      OutsideBlock(fl, i, a);
    }
  }

  lemma TakeNextKeeps(fl: seq<Block>, i: nat, u: int, units: seq<int>, next: seq<int>)
    requires CanTake(fl, i, u, units, next)
    ensures |TakeNext(fl, i, u, next)| == |next| == |units|
    ensures forall a :: 0 <= a < |next| && !Covers(fl, a) ==> TakeNext(fl, i, u, next)[a] == next[a]
  {
    hide Covers, Sorted, Linked, Succ, TakeNext, TakeUnits;
    TakeSizes(fl, i, u, units, next);
    CarveReads(fl, i, u, units, next);
    forall a | 0 <= a < |next| && !Covers(fl, a) ensures TakeNext(fl, i, u, next)[a] == next[a] {
      OutsideBlock(fl, i, a);
      OutsideBlock(fl, Prev(fl, i), a);
    }
  }

  lemma TakeSizes(fl: seq<Block>, i: nat, u: int, units: seq<int>, next: seq<int>)
    requires CanTake(fl, i, u, units, next)
    ensures i < |fl| && fl[Prev(fl, i)].size >= 1 && |units| == |next|
  {
  }

  lemma HeaderOfTaken(fl: seq<Block>, i: nat, u: int, units: seq<int>, next: seq<int>)
    requires CanTake(fl, i, u, units, next)
    ensures Header(units, next, fl[i].addr, fl[i].size, Succ(fl, i))
  {
  }

  lemma OutsideBlock(fl: seq<Block>, i: nat, a: int)
    requires i < |fl| && !Covers(fl, a)
    ensures !fl[i].Has(a)
  {
    assert fl[i] in fl;
  }

  /** The search stands at the block `steps` on from the rover. */
  ghost predicate Stands(fl: seq<Block>, rover: nat, steps: nat, prev: int, cur: int, units: seq<int>, next: seq<int>)
    requires rover < |fl| && 1 <= steps <= |fl|
  {
    && prev == At(fl, rover, steps - 1).addr && cur == At(fl, rover, steps).addr
    && 0 <= cur < |units| == |next| && units[cur] == At(fl, rover, steps).size
  }

  lemma StandFirst(fl: seq<Block>, rover: nat, units: seq<int>, next: seq<int>)
    requires Linked(fl, units, next) && rover < |fl|
    ensures 0 <= fl[rover].addr < |next|
    ensures Stands(fl, rover, 1, fl[rover].addr, next[fl[rover].addr], units, next)
  {
    assert Header(units, next, fl[rover].addr, fl[rover].size, Succ(fl, rover));
    var c := if rover + 1 < |fl| then rover + 1 else 0;
    assert Header(units, next, fl[c].addr, fl[c].size, Succ(fl, c));
  }

  lemma StandNext(fl: seq<Block>, rover: nat, steps: nat, prev: int, cur: int, units: seq<int>, next: seq<int>)
    requires Linked(fl, units, next) && rover < |fl| && 1 <= steps < |fl|
    requires Stands(fl, rover, steps, prev, cur, units, next)
    ensures Stands(fl, rover, steps + 1, cur, next[cur], units, next)
  {
    var c := if rover + steps < |fl| then rover + steps else rover + steps - |fl|;
    assert Header(units, next, fl[c].addr, fl[c].size, Succ(fl, c));
    var d := if c + 1 < |fl| then c + 1 else 0;
    assert Header(units, next, fl[d].addr, fl[d].size, Succ(fl, d));
  }

  /** A block found stands right after the one before it. */
  lemma FoundBlock(fl: seq<Block>, rover: nat, steps: nat, prev: int, cur: int, units: seq<int>, next: seq<int>)
    returns (c: nat)
    requires rover < |fl| && 1 <= steps <= |fl| && Stands(fl, rover, steps, prev, cur, units, next)
    ensures 0 <= cur < |units| == |next|
    ensures c < |fl| && fl[c] == At(fl, rover, steps) && fl[c].addr == cur && fl[c].size == units[cur]
    ensures prev == fl[Prev(fl, c)].addr
  {
    c := if rover + steps < |fl| then rover + steps else rover + steps - |fl|;
  }

  /** Back at the rover without success: no block is large enough. */
  lemma FullLap(fl: seq<Block>, rover: nat, steps: nat, u: int)
    requires Sorted(fl) && rover < |fl| && 1 <= steps <= |fl|
    requires TooSmall(fl, rover, steps, u) && At(fl, rover, steps).addr == fl[rover].addr
    ensures TooFull(fl, u)
  {
    Distinct(fl, if rover + steps < |fl| then rover + steps else rover + steps - |fl|, rover);
    WholeLap(fl, rover, u);
  }

  /** After a page has been added the search cannot fail again: 255 units is the most that
      can be asked for. */
  lemma NotGrown(fl: seq<Block>, u: int, grown: bool)
    requires TooFull(fl, u) && u < PAGE_UNITS
    requires grown ==> exists i :: 0 <= i < |fl| && fl[i].size >= PAGE_UNITS
    ensures !grown
  {
  }

  lemma NoneYet(fl: seq<Block>, rover: nat, u: int)
    requires rover < |fl|
    ensures TooSmall(fl, rover, 0, u)
  {
  }

  /** Block `c` of `fl`, `steps` on from the rover at `start`, is the first with `u` units;
      `fl2` is what is left once they are taken. */
  ghost predicate FitsAt(fl: seq<Block>, start: int, u: int, r: int, fl2: seq<Block>, start2: int, rover: nat, steps: nat, c: nat) {
    && rover < |fl| && fl[rover].addr == start && 1 <= steps <= |fl| && TooSmall(fl, rover, steps - 1, u)
    && c < |fl| && fl[c] == At(fl, rover, steps) && fl[c].size >= u && fl[c].addr == r
    && fl2 == Take(fl, c, u) && start2 == fl[Prev(fl, c)].addr
  }

  /** Next fit from the rover at `start`: `u` units at `r` come from the first block large
      enough after it, and the rover stays at the block before that one. */
  ghost predicate NextFit(fl: seq<Block>, start: int, u: int, r: int, fl2: seq<Block>, start2: int) {
    exists rover: nat, steps: nat, c: nat :: FitsAt(fl, start, u, r, fl2, start2, rover, steps, c)
  }

  lemma FitsIsNextFit(fl: seq<Block>, start: int, u: int, r: int, fl2: seq<Block>, start2: int, rover: nat, steps: nat, c: nat)
    requires FitsAt(fl, start, u, r, fl2, start2, rover, steps, c)
    ensures NextFit(fl, start, u, r, fl2, start2)
  {
  }

  /** The list and the rover once block `b` has been freed into `fl`: the rover is at the block
      it went after. */
  ghost predicate PutBack(fl: seq<Block>, b: Block, fl1: seq<Block>, start1: int) {
    |fl| > 0 && fl1 == Release(fl, Place(fl, b.addr), b) && start1 == fl[Prev(fl, Place(fl, b.addr))].addr
  }

  ghost predicate GrownBy(fl: seq<Block>, p: int, fl1: seq<Block>, start1: int) {
    PutBack(fl, Block(p, PAGE_UNITS), fl1, start1)
  }

  /** Next fit after growing by page `p`. */
  ghost predicate GrownFit(fl: seq<Block>, p: int, u: int, r: int, fl2: seq<Block>, start2: int) {
    exists fl1, start1 :: GrownBy(fl, p, fl1, start1) && NextFit(fl1, start1, u, r, fl2, start2)
  }

  /** What slob_alloc does to the list, the rover and the set of pages to find `u` units at `r`:
      it grows exactly when no block is large enough. */
  ghost predicate Found(fl: seq<Block>, start: int, pages: set<int>, u: int, r: int, fl2: seq<Block>, start2: int, pages2: set<int>) {
    if TooFull(fl, u) then exists p :: p !in pages && pages2 == pages + {p} && GrownFit(fl, p, u, r, fl2, start2)
    else pages2 == pages && NextFit(fl, start, u, r, fl2, start2)
  }

  lemma NotBackYet(fl: seq<Block>, rover: nat, steps: nat)
    requires rover < |fl| && 1 <= steps <= |fl| && At(fl, rover, steps).addr != fl[rover].addr
    ensures steps < |fl|
  {
  }

  lemma LookedAt(fl: seq<Block>, rover: nat, steps: nat, u: int)
    requires rover < |fl| && 1 <= steps <= |fl|
    requires TooSmall(fl, rover, steps - 1, u) && At(fl, rover, steps).size < u
    ensures TooSmall(fl, rover, steps, u)
  {
    forall j: nat | 1 <= j <= steps ensures At(fl, rover, j).size < u {
    }
  }

  lemma Takable(fl: seq<Block>, live: Lives, pages: set<int>, arena: int, c: nat, u: int, units: seq<int>, next: seq<int>)
    requires Sorted(fl) && Linked(fl, units, next) && Partition(fl, live, pages, arena) && PagesOk(pages, arena, |units|)
    requires Block(arena, 1) in fl && c < |fl| && 2 <= u <= fl[c].size
    ensures CanTake(fl, c, u, units, next) && |fl| > 1
  {
    NotTheArena(fl, arena, c);
    var i :| 0 <= i < |fl| && fl[i] == Block(arena, 1);
    assert Header(units, next, fl[i].addr, fl[i].size, Succ(fl, i));
    FreeBounds(fl, live, pages, arena, |units|, c);
  }

  /** No free block has `u` units. */
  ghost predicate TooFull(fl: seq<Block>, u: int) {
    forall i :: 0 <= i < |fl| ==> fl[i].size < u
  }

  lemma CarveReads(fl: seq<Block>, i: nat, u: int, units: seq<int>, next: seq<int>)
    requires CanTake(fl, i, u, units, next)
    ensures i < |fl| && Header(units, next, fl[i].addr, fl[i].size, Succ(fl, i))
    ensures 0 <= fl[Prev(fl, i)].addr < |units| && fl[Prev(fl, i)].addr != fl[i].addr
    ensures fl[i].size > u ==> fl[i].addr + u < |units| && fl[Prev(fl, i)].addr != fl[i].addr + u
    ensures 1 <= u <= fl[i].size
    ensures var a, p := fl[i].addr, fl[Prev(fl, i)].addr;
            && TakeUnits(fl, i, u, units) == (if fl[i].size == u then units else units[a + u := fl[i].size - u][a := u])
            && TakeNext(fl, i, u, next) == (if fl[i].size == u then next[p := next[a]] else next[p := a + u][a + u := next[a]])
  {
    TakeOutside(fl, i, Prev(fl, i));
    assert Header(units, next, fl[i].addr, fl[i].size, Succ(fl, i));
    assert Header(units, next, fl[Prev(fl, i)].addr, fl[Prev(fl, i)].size, Succ(fl, Prev(fl, i)));
  }

  lemma HeadersOf(fl: seq<Block>, units: seq<int>, next: seq<int>)
    requires Linked(fl, units, next)
    ensures |units| == |next|
    ensures forall i :: 0 <= i < |fl| ==> Header(units, next, fl[i].addr, fl[i].size, Succ(fl, i))
  {
  }

  /** A block of whole pages, and the small block that describes it. */
  datatype BigBlock = BigBlock(desc: int, first: int, count: nat)

  function PagesOf(b: BigBlock): set<int> {
    set k | 0 <= k < b.count :: b.first + PAGE_UNITS * k
  }

  /** A big block's pages lie side by side from its first address, and are as many as it
      counts. */
  lemma PagesCover(b: BigBlock, x: int)
    ensures b.first <= x < b.first + PAGE_UNITS * b.count <==> exists p :: p in PagesOf(b) && InPage(p, x)
  {
    if b.first <= x < b.first + PAGE_UNITS * b.count {
      var k := (x - b.first) / PAGE_UNITS;
      assert 0 <= k < b.count;
      assert b.first + PAGE_UNITS * k in PagesOf(b) && InPage(b.first + PAGE_UNITS * k, x);
    }
  }

  predicate InPage(p: int, x: int) {
    p <= x < p + PAGE_UNITS
  }

  lemma {:induction false} PagesCount(b: BigBlock)
    ensures |PagesOf(b)| == b.count
    decreases b.count
  {
    if b.count == 0 {
      assert PagesOf(b) == {};
    } else {
      var fewer := b.(count := b.count - 1);
      PagesCount(fewer);
      PagesMore(b);
    }
  }

  lemma PagesMore(b: BigBlock)
    requires b.count >= 1
    ensures var fewer, last := b.(count := b.count - 1), b.first + PAGE_UNITS * (b.count - 1);
            PagesOf(b) == PagesOf(fewer) + {last} && last !in PagesOf(fewer)
  {
    var fewer, last := b.(count := b.count - 1), b.first + PAGE_UNITS * (b.count - 1);
    assert last in PagesOf(b) by { assert 0 <= b.count - 1 < b.count; }
    forall p | p in PagesOf(b) ensures p in PagesOf(fewer) || p == last {
      var k :| 0 <= k < b.count && p == b.first + PAGE_UNITS * k;
      if k < b.count - 1 { assert p in PagesOf(fewer); }
    }
  }

  /** Big blocks: their descriptors are live blocks, and their pages are neither free, nor the
      heap's, nor another big block's. */
  ghost predicate BigOk(bs: seq<BigBlock>, live: Lives, pages: set<int>, free: set<int>, arena: int, n: int) {
    && (forall i :: 0 <= i < |bs| ==> BigBlockOk(bs[i], live, pages, free, arena, n))
    && (forall i, j :: 0 <= i < j < |bs| ==> bs[i].desc != bs[j].desc && PagesOf(bs[i]) !! PagesOf(bs[j]))
  }

  ghost predicate BigBlockOk(b: BigBlock, live: Lives, pages: set<int>, free: set<int>, arena: int, n: int) {
    && b.desc in live && live[b.desc] == Live(2, false)
    && b.count >= 1 && PagesOk(PagesOf(b), arena, n)
    && PagesOf(b) !! pages && PagesOf(b) !! free
  }

  /** Allocating a small block keeps the big ones, whether or not it took a page. */
  lemma BigKept(bs: seq<BigBlock>, live: Lives, live2: Lives, pages: set<int>, pages2: set<int>,
                free: set<int>, free2: set<int>, arena: int, n: int)
    requires BigOk(bs, live, pages, free, arena, n)
    requires forall a :: a in live ==> a in live2 && live2[a] == live[a]
    requires free2 <= free && pages2 <= pages + free
    ensures BigOk(bs, live2, pages2, free2, arena, n)
  {
    forall i | 0 <= i < |bs| ensures BigBlockOk(bs[i], live2, pages2, free2, arena, n) {
      assert BigBlockOk(bs[i], live, pages, free, arena, n);
    }
  }

  lemma BigKeptWithout(bs: seq<BigBlock>, live: Lives, pages: set<int>, free: set<int>, arena: int, n: int, a: int)
    requires BigOk(bs, live, pages, free, arena, n) && (a in live ==> live[a].small)
    ensures BigOk(bs, live - {a}, pages, free, arena, n)
  {
    forall i | 0 <= i < |bs| ensures BigBlockOk(bs[i], live - {a}, pages, free, arena, n) {
      assert BigBlockOk(bs[i], live, pages, free, arena, n);
    }
  }

  lemma BigUndone(bs: seq<BigBlock>, live: Lives, bb: int, pages: set<int>, free: set<int>, arena: int, n: int)
    requires bb !in live && BigOk(bs, live, pages, free, arena, n)
    ensures live[bb := Live(2, false)] - {bb} == live
  {
  }

  lemma BigAdded(bs: seq<BigBlock>, live: Lives, b: BigBlock, pages: set<int>, free: set<int>, arena: int, n: int)
    requires BigOk(bs, live, pages, free, arena, n) && b.desc !in live && b.count >= 1
    requires PagesOf(b) <= free && pages !! free && PagesOk(free, arena, n)
    ensures BigOk([b] + bs, live[b.desc := Live(2, false)], pages, free - PagesOf(b), arena, n)
    ensures PagesOk(free - PagesOf(b), arena, n) && pages !! (free - PagesOf(b))
  {
    var live2 := live[b.desc := Live(2, false)];
    forall i | 0 <= i < |bs|
      ensures BigBlockOk(bs[i], live2, pages, free - PagesOf(b), arena, n)
      ensures PagesOf(b) !! PagesOf(bs[i]) && bs[i].desc != b.desc
    {
      assert BigBlockOk(bs[i], live, pages, free, arena, n);
    }
  }

  lemma BigRemoved(bs: seq<BigBlock>, live: Lives, pages: set<int>, free: set<int>, arena: int, n: int, i: nat)
    requires BigOk(bs, live, pages, free, arena, n) && i < |bs|
    requires pages !! free && PagesOk(free, arena, n)
    ensures bs[i].desc in live && live[bs[i].desc] == Live(2, false)
    ensures BigOk(bs[..i] + bs[i + 1..], live - {bs[i].desc}, pages, free + PagesOf(bs[i]), arena, n)
    ensures PagesOk(free + PagesOf(bs[i]), arena, n) && pages !! (free + PagesOf(bs[i]))
  {
    var rest := bs[..i] + bs[i + 1..];
    assert BigBlockOk(bs[i], live, pages, free, arena, n);
    forall j | 0 <= j < |rest|
      ensures BigBlockOk(rest[j], live - {bs[i].desc}, pages, free + PagesOf(bs[i]), arena, n)
    {
      var k := if j < i then j else j + 1;
      assert rest[j] == bs[k] && BigBlockOk(bs[k], live, pages, free, arena, n);
    }
  }

  /** A small block's address may be page-aligned, but its page is the heap's, so no big block
      starts there. */
  lemma SmallIsNotBig(fl: seq<Block>, live: Lives, pages: set<int>, arena: int, n: int,
                      bs: seq<BigBlock>, free: set<int>, block: int)
    requires Sorted(fl) && Partition(fl, live, pages, arena) && PagesOk(pages, arena, n) && Block(arena, 1) in fl
    requires BigOk(bs, live, pages, free, arena, n) && block - 1 in live
    ensures forall i :: 0 <= i < |bs| ==> bs[i].first != block
  {
    LiveFacts(fl, live, pages, arena, n, block - 1);
    forall i | 0 <= i < |bs| ensures bs[i].first != block {
      assert BigBlockOk(bs[i], live, pages, free, arena, n);
      FirstPage(bs[i]);
    }
  }

  lemma FirstPage(b: BigBlock)
    requires b.count >= 1
    ensures b.first in PagesOf(b)
  {
    assert b.first == b.first + PAGE_UNITS * 0;
  }

  lemma BigIsAligned(bs: seq<BigBlock>, live: Lives, pages: set<int>, free: set<int>, arena: int, n: int)
    requires BigOk(bs, live, pages, free, arena, n)
    ensures forall i :: 0 <= i < |bs| ==> bs[i].first % PAGE_UNITS == 0
  {
    forall i | 0 <= i < |bs| ensures bs[i].first % PAGE_UNITS == 0 {
      assert BigBlockOk(bs[i], live, pages, free, arena, n);
      FirstPage(bs[i]);
    }
  }

  /** Writing inside a live block disturbs no free block. */
  lemma WriteKeepsLinked(fl: seq<Block>, units: seq<int>, next: seq<int>, a: int, v: int)
    requires Sorted(fl) && Linked(fl, units, next) && 0 <= a < |units| && !Covers(fl, a)
    ensures Linked(fl, units[a := v], next)
  {
    forall i | 0 <= i < |fl| ensures Header(units[a := v], next, fl[i].addr, fl[i].size, Succ(fl, i)) {
      assert fl[i] in fl && fl[i].Has(fl[i].addr);
      assert Header(units, next, fl[i].addr, fl[i].size, Succ(fl, i));
    }
  }

  lemma NotTooFull(fl: seq<Block>, u: int, c: nat)
    requires c < |fl| && fl[c].size >= u
    ensures !TooFull(fl, u)
  {
  }

  // -------------------------------------------------------------- big blocks

  function Pow2(k: nat): (n: nat)
    ensures n >= 1
  {
    if k == 0 then 1 else 2 * Pow2(k - 1)
  }

  /** A size_t passed as an int. */
  function AsInt(size: nat): int { (size + 0x8000_0000) % 0x1_0000_0000 - 0x8000_0000 }

  function Order(size: int): nat
    decreases if size > 0 then size else 0
  {
    if size > PAGE_SIZE then 1 + Order(size / 2) else 0
  }

  /** find_order */
  method FindOrder(n: int) returns (order: nat)
    ensures order == Order(n)
  {
    var size := n;
    order := 0;
    while size > PAGE_SIZE
      invariant Order(n) == order + Order(size)
      decreases size
    {
      size := size / 2;
      order := order + 1;
    }
  }

  /** The order is the least with less than one unit too many, a shift that drops bits. */
  lemma {:induction false} OrderBounds(size: int)
    requires size >= 0
    ensures size < (PAGE_SIZE + 1) * Pow2(Order(size))
    ensures Order(size) > 0 ==> size >= (PAGE_SIZE + 1) * Pow2(Order(size) - 1)
  {
    if size > PAGE_SIZE {
      OrderBounds(size / 2);
    }
  }

  lemma {:induction false} PowUp(j: nat, k: nat)
    requires j < k
    ensures 2 * Pow2(j) <= Pow2(k)
  {
    if j + 1 < k { PowUp(j, k - 1); }
  }

  /** Less than one unit in 4096 above 2^k pages. */
  predicate JustAbove(size: int, k: nat) {
    PAGE_SIZE * Pow2(k) < size < (PAGE_SIZE + 1) * Pow2(k)
  }

  /** An int is given enough pages exactly when it is not just above a power of two of pages;
      what the shifts drop is lost. */
  lemma OrderFits(size: int)
    requires size >= 0
    ensures size <= PAGE_SIZE * Pow2(Order(size)) <==> !exists k: nat :: JustAbove(size, k)
  {
    OrderBounds(size);
    var o := Order(size);
    assert size > PAGE_SIZE * Pow2(o) ==> JustAbove(size, o);
    forall k: nat | JustAbove(size, k) ensures k == o {
      if k < o {
        if k < o - 1 { PowUp(k, o - 1); }
      } else if o < k {
        PowUp(o, k);
      }
    }
  }

  const TWO31 := 0x8000_0000

  lemma Pow19()
    ensures PAGE_SIZE * Pow2(19) == TWO31
  {
    assert Pow2(5) == 2 * Pow2(4) && Pow2(4) == 2 * Pow2(3) && Pow2(3) == 2 * Pow2(2) && Pow2(2) == 2 * Pow2(1) && Pow2(1) == 2;
    assert Pow2(10) == 2 * Pow2(9) && Pow2(9) == 2 * Pow2(8) && Pow2(8) == 2 * Pow2(7) && Pow2(7) == 2 * Pow2(6) && Pow2(6) == 2 * Pow2(5);
    assert Pow2(15) == 2 * Pow2(14) && Pow2(14) == 2 * Pow2(13) && Pow2(13) == 2 * Pow2(12) && Pow2(12) == 2 * Pow2(11) && Pow2(11) == 2 * Pow2(10);
    assert Pow2(19) == 2 * Pow2(18) && Pow2(18) == 2 * Pow2(17) && Pow2(17) == 2 * Pow2(16) && Pow2(16) == 2 * Pow2(15);
  }

  /** No int leads to more than 2^31 bytes. */
  lemma OrderAtMost(size: int)
    requires size < TWO31
    ensures PAGE_SIZE * Pow2(Order(size)) <= TWO31
  {
    Pow19();
    if size > PAGE_SIZE {
      OrderBounds(size);
      if Order(size) > 20 { PowUp(19, Order(size) - 1); }
      if Order(size) < 19 { PowUp(Order(size), 19); }
    }
  }

  /** The sizes find_order leads to enough pages for. */
  ghost predicate Fits(size: nat) {
    size < TWO31 && !exists k: nat :: JustAbove(size, k)
  }

  /** kmalloc hands its size_t to find_order as an int: the block is as large as asked for
      exactly when the size is below 2^31 and not just above a power of two of pages. */
  lemma OrderIsEnough(size: nat)
    ensures size <= PAGE_SIZE * Pow2(Order(AsInt(size))) <==> Fits(size)
  {
    if size < TWO31 {
      assert AsInt(size) == size;
      OrderFits(size);
    } else {
      OrderAtMost(AsInt(size));
      assert size == TWO31 ==> AsInt(size) < 0;
      assert AsInt(size) < 0 ==> Order(AsInt(size)) == 0 && Pow2(0) == 1;
    }
  }

  /** 8193 bytes get two pages, and 2^31 bytes, negative as an int, get one. */
  lemma TooFewPages()
    ensures PAGE_SIZE * Pow2(Order(AsInt(8193))) < 8193
    ensures PAGE_SIZE * Pow2(Order(AsInt(0x8000_0000))) < 0x8000_0000
  {
    assert AsInt(8193) == 8193 && AsInt(0x8000_0000) == -0x8000_0000;
    assert Order(8193) == 1 + Order(4096) && Order(4096) == 0;
    assert Pow2(1) == 2 * Pow2(0);
  }

  /** No run of `count` pages is free. */
  ghost predicate NoRun(free: set<int>, count: nat) {
    forall p :: p in free ==> !(PagesOf(BigBlock(0, p, count)) <= free)
  }

  lemma RunWasThere(free: set<int>, free2: set<int>, p: int, count: nat)
    requires free2 <= free && count >= 1 && PagesOf(BigBlock(0, p, count)) <= free2
    ensures !NoRun(free, count)
  {
    FirstPage(BigBlock(0, p, count));
  }

  /** What kmalloc returns; `Panic` is the assert at the head of slob_alloc. */
  datatype Result = Null | Addr(a: int) | Panic

  /** The small path of __kmalloc takes sizes slob_alloc's assert does not admit: it passes
      the check in __kmalloc but panics exactly from 4064 bytes on. */
  lemma SmallPathAssert(size: nat)
    requires size < PAGE_SIZE - SLOB_UNIT
    ensures (size + SLOB_UNIT) + SLOB_UNIT < PAGE_SIZE <==> size < 4064
    ensures 4064 < PAGE_SIZE - SLOB_UNIT && !((4064 + SLOB_UNIT) + SLOB_UNIT < PAGE_SIZE)
  {
  }

  class Heap {
    const units: array<int>
    const next: array<int>
    const arena: int
    var slobfree: int
    var freePages: set<int>          // what the page allocator has left
    var bigblocks: seq<BigBlock>
    ghost var fl: seq<Block>         // the free list, in address order
    ghost var live: Lives            // the blocks handed out
    ghost var pages: set<int>        // the pages acquired

    /** The free list is one cycle through the arena in address order, and the rover points
        into it. */
    ghost predicate ListOk()
      reads this, units, next
    {
      && units != next && units.Length == next.Length
      && |fl| > 0 && Sorted(fl) && Linked(fl, units[..], next[..])
      && Block(arena, 1) in fl
      && exists c :: 0 <= c < |fl| && fl[c].addr == slobfree
    }

    /** slob_free's search: the block to insert after, found from the rover. */
    method FindPrev(block: int) returns (cur: int)
      requires ListOk() && forall i :: 0 <= i < |fl| ==> fl[i].addr != block
      ensures cur == fl[Prev(fl, Place(fl, block))].addr
    {
      hide Sorted, Linked, IsPlace, Place;
      ghost var k := Place(fl, block);
      PlaceIsPlace(fl, block);
      cur := slobfree;
      ghost var c :| 0 <= c < |fl| && fl[c].addr == slobfree;
      HeadersOf(fl, units[..], next[..]);
      while !(block > cur && block < next[cur])
        invariant 0 <= c < |fl| && fl[c].addr == cur
        invariant Header(units[..], next[..], cur, fl[c].size, Succ(fl, c))
        decreases Lap(|fl|, c, Prev(fl, k))
      {
        StopsAtPrev(fl, k, block, c);
        if cur >= next[cur] && (block > cur || block < next[cur]) {
          return;
        }
        cur := next[cur];
        c := if c + 1 < |fl| then c + 1 else 0;
      }
      StopsAtPrev(fl, k, block, c);
    }

    /** slob_free's writes: `block`, whose header holds its size, goes after `cur`. */
    method Link(block: int, cur: int, ghost k: nat, ghost b: Block)
      requires k <= |fl| && |fl| > 0 && units != next && units.Length == next.Length
      requires b.addr == block && 0 <= block < units.Length && units[block] == b.size
      requires cur == fl[Prev(fl, k)].addr && Reads(fl, k, b, units[..], next[..])
      modifies units, next
      ensures units[..] == FreeUnits(fl, k, b, old(units[..]))
      ensures next[..] == FreeNext(fl, k, b, old(next[..]))
    {
      hide JoinsLeft, JoinsRight;
      if block + units[block] == next[cur] {
        units[block] := units[block] + units[next[cur]];
        next[block] := next[next[cur]];
      } else {
        next[block] := next[cur];
      }
      if cur + units[cur] == block {
        units[cur] := units[cur] + units[block];
        next[cur] := next[block];
      } else {
        next[cur] := block;
      }
    }

    /** slob_free: `size` in bytes, or 0 to use the header the block still has. */
    method SlobFree(block: int, size: nat)
      requires ListOk() && 0 <= block < units.Length
      requires CanRelease(fl, arena, Block(block, if size != 0 then Units(size) else units[block]))
      modifies this`slobfree, this`fl, units, next
      ensures ListOk()
      ensures fl == Release(old(fl), Place(old(fl), block), Block(block, if size != 0 then Units(size) else old(units[block])))
      ensures PutBack(old(fl), Block(block, if size != 0 then Units(size) else old(units[block])), fl, slobfree)
      ensures forall a :: 0 <= a < units.Length && !Covers(fl, a) ==> units[a] == old(units[a])
      ensures KeepsOthers(fl, {}, old(units[..]), old(next[..]), units[..], next[..])
    {
      hide Sorted, Place, Linked, IsPlace, Release, Covers, Apart, JoinsLeft, JoinsRight, CanRelease, CanFree, FreeUnits, FreeNext, Reads;
      ghost var us, ns := units[..], next[..];
      ghost var b := Block(block, if size != 0 then Units(size) else units[block]);
      ghost var k := Place(fl, block);
      ReleaseIsFree(fl, arena, b, us, ns);
      FreeKeepsArena(fl, k, b, arena);
      FreeKeepsPrev(fl, k, b);
      ReleaseKeepsSorted(fl, k, b);
      FreeKeepsLinked(fl, k, b, us, ns);
      var cur := FindPrev(block);
      if size != 0 {
        units[block] := Units(size);
      }
      FreeReads(fl, k, b, us, ns);
      HeaderWritten(fl, k, b, us, ns);
      assert units[..] == us[block := b.size];
      Link(block, cur, k, b);
      slobfree := cur;
      forall a | 0 <= a < units.Length && !Covers(Release(fl, k, b), a) ensures units[a] == us[a] && next[a] == ns[a] {
        FreeWritesFree(fl, k, b, us, ns, a);
        FreeNextFree(fl, k, b, us, ns, a);
      }
      fl := Release(fl, k, b);
    }

    // ------------------------------------------------------------ the heap

    /** Headers of live blocks are in place, except where the block holds a bigblock
        descriptor, which overwrites it. */
    ghost predicate Headers()
      reads this, units
    {
      forall a :: a in live && live[a].small ==> 0 <= a < units.Length && units[a] == live[a].size
    }

    ghost predicate HeapOk()
      reads this, units, next
    {
      && ListOk() && Headers()
      && Partition(fl, live, pages, arena)
      && PagesOk(pages, arena, units.Length) && PagesOk(freePages, arena, units.Length)
      && pages !! freePages
    }

    /** Exactly one page has been acquired since the given state. */
    ghost predicate OnePage(oldPages: set<int>, oldFree: set<int>)
      reads this
    {
      exists p :: p in oldFree && pages == oldPages + {p} && freePages == oldFree - {p}
    }

    lemma PageAdded(pages0: set<int>, free0: set<int>)
      requires OnePage(pages0, free0) && pages0 !! free0
      ensures pages != pages0
    {
      var p :| p in free0 && pages == pages0 + {p} && freePages == free0 - {p};
      assert p !in pages0;
    }

    /** __slob_get_free_page: a page of the page allocator's, if it has one. */
    method GetFreePage() returns (ok: bool, p: int)
      modifies this`freePages
      ensures ok <==> old(freePages) != {}
      ensures ok ==> p in old(freePages) && freePages == old(freePages) - {p}
      ensures !ok ==> freePages == old(freePages)
    {
      ok := freePages != {};
      p := 0;
      if ok {
        p := PickOne(freePages);
        freePages := freePages - {p};
      }
    }

    /** Acquire one page and put it on the free list. */
    method Grow() returns (ok: bool, ghost page: int)
      requires HeapOk()
      modifies this`slobfree, this`fl, this`freePages, this`pages, units, next
      ensures HeapOk()
      ensures !ok ==> old(freePages) == {} && fl == old(fl) && pages == old(pages) && freePages == old(freePages)
                      && slobfree == old(slobfree) && units[..] == old(units[..]) && next[..] == old(next[..])
      ensures ok ==> page in old(freePages) && pages == old(pages) + {page} && freePages == old(freePages) - {page}
      ensures ok ==> GrownBy(old(fl), page, fl, slobfree)
      ensures KeepsOthers(old(fl), old(freePages), old(units[..]), old(next[..]), units[..], next[..])
      ensures ok ==> exists i :: 0 <= i < |fl| && fl[i].size >= PAGE_UNITS
    {
      hide Sorted, Linked, Partition, Release, Place, Covers, Apart, PagesOk;
      var p;
      ok, p := GetFreePage();
      page := p;
      if !ok {
        return;
      }
      PageBounds(old(freePages), arena, units.Length, p);
      PageFacts(fl, live, pages, arena, units.Length, p);
      GrowKeepsPartition(fl, live, pages, arena, p, Place(fl, p));
      ReleasedIsThere(fl, Place(fl, p), Block(p, PAGE_UNITS));
      PagesUnion(pages, {p}, arena, units.Length);
      ghost var n := Release(fl, Place(fl, p), Block(p, PAGE_UNITS));
      assert Units(PAGE_SIZE) == PAGE_UNITS;
      SlobFree(p, PAGE_SIZE);
      GrownCovers(old(fl), p, fl, slobfree, old(freePages));
      KeepsAll(old(fl), old(freePages), old(units[..]), old(next[..]));
      KeepsTwice(old(fl), old(freePages), fl, {}, old(units[..]), old(next[..]), old(units[..]), old(next[..]), units[..], next[..]);
      pages := pages + {p};
      LiveHeads(fl, live, pages, arena);
    }

    /** slob_alloc's writes: the first `u` units of `cur`, which follows `prev`. */
    method Carve(prev: int, cur: int, u: int, ghost i: nat)
      requires units != next && CanTake(fl, i, u, units[..], next[..])
      requires cur == fl[i].addr && prev == fl[Prev(fl, i)].addr
      modifies units, next
      ensures units[..] == TakeUnits(fl, i, u, old(units[..]))
      ensures next[..] == TakeNext(fl, i, u, old(next[..]))
    {
      hide CanTake, TakeUnits, TakeNext, Sorted, Linked;
      CarveReads(fl, i, u, units[..], next[..]);
      if units[cur] == u {
        next[prev] := next[cur];
      } else {
        next[prev] := cur + u;
        units[cur + u] := units[cur] - u;
        next[cur + u] := next[cur];
        units[cur] := u;
      }
    }

    /** Take `u` units of block `c` and leave the rover at the block before it. */
    method HandOut(prev: int, cur: int, u: int, ghost c: nat, ghost small: bool)
      requires HeapOk() && c < |fl| && 2 <= u <= fl[c].size
      requires cur == fl[c].addr && prev == fl[Prev(fl, c)].addr
      modifies this`slobfree, this`fl, this`live, units, next
      ensures HeapOk()
      ensures cur !in old(live) && live == old(live)[cur := Live(u, small)]
      ensures fl == Take(old(fl), c, u) && slobfree == prev
      ensures KeepsOthers(old(fl), {}, old(units[..]), old(next[..]), units[..], next[..])
    {
      hide Sorted, Linked, Partition, PagesOk, Take, TakeUnits, TakeNext, Covers, CanTake;
      ghost var us, ns := units[..], next[..];
      Takable(fl, live, pages, arena, c, u, us, ns);
      TakeKeepsLinked(fl, c, u, us, ns);
      TakeKeepsSorted(fl, c, u);
      AllocKeepsPartition(fl, live, pages, arena, c, u, small);
      TakeKeepsArena(fl, c, u, arena);
      TakeKeepsPrev(fl, c, u);
      TakeWrites(fl, c, u, us, ns);
      LiveHeads(fl, live, pages, arena);
      Carve(prev, cur, u, c);
      slobfree := prev;
      fl := Take(fl, c, u);
      live := live[cur := Live(u, small)];
    }

    /** slob_alloc, without alignment: a block of SLOB_UNITS(size) units, from the first free
        block after the rover that is large enough, or from one new page if none is. */
    method SlobAlloc(size: nat, ghost small: bool) returns (ok: bool, r: int)
      requires HeapOk() && SLOB_UNIT < size && size + SLOB_UNIT < PAGE_SIZE
      modifies this`slobfree, this`fl, this`freePages, this`pages, this`live, units, next
      ensures HeapOk()
      ensures ok ==> r !in old(live) && live == old(live)[r := Live(Units(size), small)]
      ensures ok <==> !(TooFull(old(fl), Units(size)) && old(freePages) == {})
      ensures !ok ==> live == old(live) && fl == old(fl) && slobfree == old(slobfree)
      ensures !ok ==> pages == old(pages) && freePages == old(freePages) && units[..] == old(units[..]) && next[..] == old(next[..])
      ensures (pages == old(pages) && freePages == old(freePages))
           || (TooFull(old(fl), Units(size)) && OnePage(old(pages), old(freePages)))
      ensures ok ==> Found(old(fl), old(slobfree), old(pages), Units(size), r, fl, slobfree, pages)
      ensures KeepsOthers(old(fl), old(freePages), old(units[..]), old(next[..]), units[..], next[..])
    {
      hide Sorted, Linked, Partition, PagesOk, Headers, Stands, TooSmall, TooFull, At, Take, NextFit, GrownBy, Covers, KeepsOthers;
      var u := Units(size);
      var prev := slobfree;
      ghost var rover :| 0 <= rover < |fl| && fl[rover].addr == slobfree;
      ghost var steps, grown, page := 1, false, 0;
      StandFirst(fl, rover, units[..], next[..]);
      var cur := next[prev];
      NoneYet(fl, rover, u);
      KeepsAll(fl, freePages, units[..], next[..]);
      while true
        invariant HeapOk() && live == old(live)
        invariant 0 <= rover < |fl| && fl[rover].addr == slobfree && 1 <= steps <= |fl|
        invariant Stands(fl, rover, steps, prev, cur, units[..], next[..])
        invariant TooSmall(fl, rover, steps - 1, u)
        invariant !grown ==> fl == old(fl) && slobfree == old(slobfree) && pages == old(pages) && freePages == old(freePages)
        invariant !grown ==> units[..] == old(units[..]) && next[..] == old(next[..])
        invariant grown ==> TooFull(old(fl), u) && GrownBy(old(fl), page, fl, slobfree)
        invariant grown ==> page in old(freePages) && pages == old(pages) + {page} && freePages == old(freePages) - {page}
        invariant grown ==> exists i :: 0 <= i < |fl| && fl[i].size >= PAGE_UNITS
        invariant KeepsOthers(old(fl), old(freePages), old(units[..]), old(next[..]), units[..], next[..])
        invariant forall a :: Covers(fl, a) ==> Covers(old(fl), a) || PageOf(a) in old(freePages)
        decreases !grown, |fl| - steps
      {
        ghost var c := FoundBlock(fl, rover, steps, prev, cur, units[..], next[..]);
        if units[cur] >= u {
          ghost var fl1, start, us, ns := fl, slobfree, units[..], next[..];
          HandOut(prev, cur, u, c, small);
          KeepsTwice(old(fl), old(freePages), fl1, {}, old(units[..]), old(next[..]), us, ns, units[..], next[..]);
          FitsIsNextFit(fl1, start, u, cur, fl, slobfree, rover, steps, c);
          NotTooFull(fl1, u, c);
          if grown {
            assert OnePage(old(pages), old(freePages));
            PageAdded(old(pages), old(freePages));
            assert page !in old(pages) && GrownFit(old(fl), page, u, cur, fl, slobfree);
          }
          return true, cur;
        }
        LookedAt(fl, rover, steps, u);
        if cur == slobfree {
          FullLap(fl, rover, steps, u);
          NotGrown(fl, u, grown);
          var got;
          got, page := Grow();
          if !got {
            return false, 0;
          }
          GrownInPage(old(fl), page, fl, slobfree, old(freePages), arena, units.Length);
          rover :| 0 <= rover < |fl| && fl[rover].addr == slobfree;
          StandFirst(fl, rover, units[..], next[..]);
          NoneYet(fl, rover, u);
          cur := slobfree;
          steps, grown := 0, true;
        } else {
          NotBackYet(fl, rover, steps);
          StandNext(fl, rover, steps, prev, cur, units[..], next[..]);
        }
        prev := cur;
        cur := next[cur];
        steps := steps + 1;
      }
    }

    // -------------------------------------------------------- kmalloc and kfree

    ghost predicate Valid()
      reads this, units, next
    {
      HeapOk() && BigOk(bigblocks, live, pages, freePages, arena, units.Length)
    }

    constructor (size: nat, at: nat, available: set<int>)
      requires at < size && PagesOk(available, at, size)
      ensures Valid() && fresh(units) && fresh(next)
      ensures fl == [Block(at, 1)] && live == map[] && pages == {} && freePages == available && bigblocks == []
    {
      units := new int[size](_ => 0);
      next := new int[size](_ => 0);
      arena, slobfree := at, at;
      fl, live, pages := [Block(at, 1)], map[], {};
      freePages, bigblocks := available, [];
      new;
      units[at], next[at] := 1, at;
      assert fl[0].addr == slobfree;
      forall x ensures Covers(fl, x) <==> x == at {
        CoversOne(fl[0], x);
      }
    }

    /** slob_free of a block handed out. */
    method FreeLive(a: int, size: nat)
      requires HeapOk() && a in live
      requires if size == 0 then live[a].small else Units(size) == live[a].size
      modifies this`slobfree, this`fl, this`live, units, next
      ensures HeapOk() && live == old(live) - {a}
      ensures PutBack(old(fl), Block(a, old(live)[a].size), fl, slobfree)
      ensures KeepsOthers(fl, {}, old(units[..]), old(next[..]), units[..], next[..])
    {
      hide Sorted, Linked, Partition, PagesOk, Release, Place, Covers, Apart;
      LiveFacts(fl, live, pages, arena, units.Length, a);
      FreeKeepsPartition(fl, live, pages, arena, a, Place(fl, a));
      SlobFree(a, size);
      live := live - {a};
      LiveHeads(fl, live, pages, arena);
    }

    /** The descriptor's fields overwrite the header of the block they are stored in. */
    method WriteDesc(bb: int, order: int)
      requires HeapOk() && bb in live && !live[bb].small
      modifies units
      ensures HeapOk() && 0 <= bb < units.Length && units[..] == old(units[..])[bb := order]
    {
      hide Partition, PagesOk, Sorted, Covers, Linked, Apart;
      LiveFacts(fl, live, pages, arena, units.Length, bb);
      LiveHeads(fl, live, pages, arena);
      WriteKeepsLinked(fl, units[..], next[..], bb, order);
      ghost var us := units[..];
      units[bb] := order;
      assert units[..] == us[bb := order];
    }

    /** alloc_pages for a big block: some run of `count` pages, if there is one. */
    method FindPages(count: nat) returns (found: bool, p: int)
      ensures found ==> PagesOf(BigBlock(0, p, count)) <= freePages
      ensures !found ==> NoRun(freePages, count)
    {
      var candidates := set q | q in freePages && PagesOf(BigBlock(0, q, count)) <= freePages;
      found, p := candidates != {}, 0;
      if found {
        p := PickOne(candidates);
      } else {
        forall q | q in freePages ensures !(PagesOf(BigBlock(0, q, count)) <= freePages) {
          assert q !in candidates;
        }
      }
    }

    /** __kmalloc. It returns 0 exactly when there is no room for the block or its descriptor,
        nor a page to make some, or no run of pages for a big block. */
    method Kmalloc(size: nat) returns (r: Result)
      requires Valid() && size > 0
      modifies this`slobfree, this`fl, this`freePages, this`pages, this`live, this`bigblocks, units, next
      ensures Valid()
      ensures r == Panic <==> 4064 <= size < PAGE_SIZE - SLOB_UNIT
      ensures r.Addr? && size < PAGE_SIZE - SLOB_UNIT ==>
                r.a - 1 !in old(live) && live == old(live)[r.a - 1 := Live(Units(size + SLOB_UNIT), true)]
                && bigblocks == old(bigblocks)
      ensures r.Addr? && size < PAGE_SIZE - SLOB_UNIT ==>
                Found(old(fl), old(slobfree), old(pages), Units(size + SLOB_UNIT), r.a - 1, fl, slobfree, pages)
      ensures r.Addr? && size >= PAGE_SIZE - SLOB_UNIT ==>
                |bigblocks| > 0 && Found(old(fl), old(slobfree), old(pages), 2, bigblocks[0].desc, fl, slobfree, pages)
      ensures r.Addr? && size >= PAGE_SIZE - SLOB_UNIT ==>
                |bigblocks| > 0 && bigblocks[1..] == old(bigblocks)
                && bigblocks[0].first == r.a && bigblocks[0].count == Pow2(Order(AsInt(size))) && PagesOf(bigblocks[0]) <= old(freePages)
                && bigblocks[0].desc !in old(live) && live == old(live)[bigblocks[0].desc := Live(2, false)]
                && (size <= PAGE_SIZE * bigblocks[0].count <==> Fits(size))
                && 0 <= bigblocks[0].desc < units.Length && units[bigblocks[0].desc] == Order(AsInt(size))
      ensures !r.Addr? ==> live == old(live) && bigblocks == old(bigblocks)
      ensures r == Panic || (r == Null && size < 4064) ==>
                fl == old(fl) && slobfree == old(slobfree) && pages == old(pages) && freePages == old(freePages)
      ensures KeepsOthers(old(fl), old(freePages), old(units[..]), old(next[..]), units[..], next[..])
      ensures size < 4064 ==> (r == Null <==> TooFull(old(fl), Units(size + SLOB_UNIT)) && old(freePages) == {})
      ensures size >= PAGE_SIZE - SLOB_UNIT && r == Null ==>
                (TooFull(old(fl), 2) && old(freePages) == {}) || NoRun(freePages, Pow2(Order(AsInt(size))))
      ensures size >= PAGE_SIZE - SLOB_UNIT && TooFull(old(fl), 2) && old(freePages) == {} ==> r == Null
      ensures NoRun(old(freePages), Pow2(Order(AsInt(size)))) && size >= PAGE_SIZE - SLOB_UNIT ==> r == Null
    {
      hide Partition, PagesOk, Sorted, Linked, TooFull, BigOk, Fits, Pow2, Order, Found, NoRun, Units, KeepsOthers, Covers;
      if size < PAGE_SIZE - SLOB_UNIT {
        if !((size + SLOB_UNIT) + SLOB_UNIT < PAGE_SIZE) {
          KeepsAll(fl, freePages, units[..], next[..]);
          return Panic;
        }
        var ok, m := SlobAlloc(size + SLOB_UNIT, true);
        BigKept(bigblocks, old(live), live, old(pages), pages, old(freePages), freePages, arena, units.Length);
        return if ok then Addr(m + 1) else Null;
      }
      assert Units(24) == 2;
      var ok, bb := SlobAlloc(24, false);
      BigKept(bigblocks, old(live), live, old(pages), pages, old(freePages), freePages, arena, units.Length);
      if !ok {
        return Null;
      }
      BigKept(bigblocks, old(live), old(live), old(pages), pages, old(freePages), freePages, arena, units.Length);
      OrderIsEnough(size);
      var order := FindOrder(AsInt(size));
      var count := Pow2(order);
      var found, p := FindPages(count);
      ghost var us, ns := units[..], next[..];
      if !found {
        BigUndone(bigblocks, old(live), bb, pages, freePages, arena, units.Length);
        FreeLive(bb, 24);
        FreeBefore(old(fl), old(live), old(pages), old(freePages), fl, live, pages, arena);
        KeepsTwice(old(fl), old(freePages), fl, {}, old(units[..]), old(next[..]), us, ns, units[..], next[..]);
        return Null;
      }
      HandedBefore(old(fl), old(live), old(pages), old(freePages), fl, live, pages, arena, bb);
      var b := BigBlock(bb, p, count);
      RunWasThere(old(freePages), freePages, p, count);
      BigAdded(bigblocks, old(live), b, pages, freePages, arena, units.Length);
      WriteDesc(bb, order);
      KeepsDesc(old(fl), old(freePages), old(units[..]), old(next[..]), us, ns, bb, order);
      freePages := freePages - PagesOf(b);
      bigblocks := [b] + bigblocks;
      return Addr(p);
    }

    /** kfree of a block kmalloc returned and nobody freed since: a page-aligned address is
        looked up among the big blocks first; a small block, aligned or not, is never found
        there. */
    method Kfree(block: int)
      requires Valid()
      requires (block - 1 in live && live[block - 1].small) || exists i :: 0 <= i < |bigblocks| && bigblocks[i].first == block
      modifies this`slobfree, this`fl, this`freePages, this`live, this`bigblocks, units, next
      ensures Valid() && KeepsOthers(fl, {}, old(units[..]), old(next[..]), units[..], next[..])
      ensures old(block - 1 in live && live[block - 1].small) ==>
                live == old(live) - {block - 1} && bigblocks == old(bigblocks) && freePages == old(freePages)
                && PutBack(old(fl), Block(block - 1, old(live)[block - 1].size), fl, slobfree)
      ensures !old(block - 1 in live && live[block - 1].small) ==>
                exists i :: 0 <= i < |old(bigblocks)| && old(bigblocks)[i].first == block
                  && bigblocks == old(bigblocks)[..i] + old(bigblocks)[i + 1..]
                  && live == old(live) - {old(bigblocks)[i].desc} && freePages == old(freePages) + PagesOf(old(bigblocks)[i])
                  && PutBack(old(fl), Block(old(bigblocks)[i].desc, 2), fl, slobfree)
    {
      hide Partition, PagesOk, Sorted, Linked, BigOk;
      ghost var small := block - 1 in live && live[block - 1].small;
      if small {
        SmallIsNotBig(fl, live, pages, arena, units.Length, bigblocks, freePages, block);
      } else {
        BigIsAligned(bigblocks, live, pages, freePages, arena, units.Length);
      }
      if block % PAGE_UNITS == 0 {
        var i := 0;
        while i < |bigblocks|
          invariant 0 <= i <= |bigblocks|
          invariant forall j :: 0 <= j < i ==> bigblocks[j].first != block
        {
          if bigblocks[i].first == block {
            var b := bigblocks[i];
            BigRemoved(bigblocks, live, pages, freePages, arena, units.Length, i);
            bigblocks := bigblocks[..i] + bigblocks[i + 1..];
            freePages := freePages + PagesOf(b);
            FreeLive(b.desc, 24);
            return;
          }
          i := i + 1;
        }
      }
      BigKeptWithout(bigblocks, live, pages, freePages, arena, units.Length, block - 1);
      FreeLive(block - 1, 0);
    }
  }
}
