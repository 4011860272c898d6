/** The first-fit page allocator (kern/mm/default_pmm.c) over page numbers. */
module PageAllocator {
  import opened Collections
  import opened Runs

  // ---------------------------------------------------------------- what the calls mean

  /** The first block of at least `n` pages, |fl| when there is none. */
  function FirstFit(fl: seq<Block>, n: int): (i: nat)
    ensures i <= |fl|
    ensures forall j :: 0 <= j < i ==> fl[j].size < n
    ensures i < |fl| ==> fl[i].size >= n
  {
    if fl == [] || fl[0].size >= n then 0 else 1 + FirstFit(fl[1..], n)
  }

  function Freed(fl: seq<Block>, b: Block): seq<Block> {
    Release(fl, Place(fl, b.addr), b)
  }

  function Total(fl: seq<Block>): int {
    if fl == [] then 0 else fl[0].size + Total(fl[1..])
  }

  lemma {:induction false} TotalConcat(a: seq<Block>, b: seq<Block>)
    ensures Total(a + b) == Total(a) + Total(b)
  {
    if a == [] {
      assert a + b == b;
    } else {
      assert (a + b)[1..] == a[1..] + b;
      TotalConcat(a[1..], b);
    }
  }

  lemma TotalThree(a: seq<Block>, m: seq<Block>, c: seq<Block>)
    ensures Total(a + m + c) == Total(a) + Total(m) + Total(c)
  {
    TotalConcat(a + m, c);
    TotalConcat(a, m);
  }

  lemma TotalOne(b: Block)
    ensures Total([b]) == b.size
  {
    assert [b][1..] == [];
  }

  lemma TotalTake(fl: seq<Block>, i: nat, u: int)
    requires i < |fl|
    ensures Total(Take(fl, i, u)) == Total(fl) - u
  {
    var pre, post := fl[..i], fl[i + 1..];
    var rest := if fl[i].size == u then [] else [Block(fl[i].addr + u, fl[i].size - u)];
    assert Take(fl, i, u) == pre + rest + post;
    hide Total, Take;
    TotalRest(fl[i], u);
    TotalThree(pre, rest, post);
    TotalOne(fl[i]);
    TotalThree(pre, [fl[i]], post);
    SplitAt(fl, i);
  }

  lemma SplitAt(fl: seq<Block>, i: nat)
    requires i < |fl|
    ensures fl == fl[..i] + [fl[i]] + fl[i + 1..]
  {
  }

  lemma TotalRest(b: Block, u: int)
    ensures Total(if b.size == u then [] else [Block(b.addr + u, b.size - u)]) == b.size - u
  {
  }

  lemma TotalRelease(fl: seq<Block>, k: nat, b: Block)
    requires k <= |fl|
    ensures Total(Release(fl, k, b)) == Total(fl) + b.size
  {
    var i, j, m := Before(fl, k, b), After(fl, k, b), Joined(fl, k, b);
    TotalMiddle(fl, k, b);
    TotalSplice(fl, i, j, m);
  }

  lemma TotalSplice(fl: seq<Block>, i: nat, j: nat, m: Block)
    requires i <= j <= |fl|
    ensures Total(fl[..i] + [m] + fl[j..]) == Total(fl) - Total(fl[i..j]) + m.size
  {
    hide Total;
    TotalOne(m);
    TotalThree(fl[..i], fl[i..j], fl[j..]);
    TotalThree(fl[..i], [m], fl[j..]);
    assert fl == fl[..i] + fl[i..j] + fl[j..];
  }

  lemma TotalMiddle(fl: seq<Block>, k: nat, b: Block)
    requires k <= |fl|
    ensures Joined(fl, k, b).size == Total(fl[Before(fl, k, b)..After(fl, k, b)]) + b.size
  {
    var left := if JoinsLeft(fl, k, b) then [fl[k - 1]] else [];
    var right := if JoinsRight(fl, k, b) then [fl[k]] else [];
    JoinedSlice(fl, k, b);
    TotalConcat(left, right);
    if JoinsLeft(fl, k, b) { TotalOne(fl[k - 1]); }
    if JoinsRight(fl, k, b) { TotalOne(fl[k]); }
  }

  lemma {:induction false} TotalBounds(fl: seq<Block>, i: nat)
    requires Sorted(fl) && i < |fl|
    ensures fl[i].size <= Total(fl)
  {
    assert Sorted(fl[1..]);
    TotalPositive(fl[1..]);
    if i > 0 {
      TotalBounds(fl[1..], i - 1);
    }
  }

  lemma {:induction false} TotalPositive(fl: seq<Block>)
    requires Sorted(fl)
    ensures Total(fl) >= 0
  {
    if fl != [] {
      assert Sorted(fl[1..]);
      TotalPositive(fl[1..]);
    }
  }

  lemma PlaceOf(fl: seq<Block>, b: Block)
    requires Sorted(fl) && Apart(fl, b) && b.size >= 1
    ensures IsPlace(fl, Place(fl, b.addr), b.addr)
  {
    forall i | 0 <= i < |fl| ensures fl[i].addr != b.addr { }
    PlaceIsPlace(fl, b.addr);
  }

  // ---------------------------------------------------------------- properties of the list

  /** Every block is a maximal run of free pages. */
  lemma BlockIsMaximalRun(fl: seq<Block>, i: nat)
    requires Sorted(fl) && i < |fl|
    ensures forall x :: fl[i].Has(x) ==> Covers(fl, x)
    ensures !Covers(fl, fl[i].addr - 1) && !Covers(fl, fl[i].End())
  {
    forall j | 0 <= j < |fl|
      ensures !fl[j].Has(fl[i].addr - 1) && !fl[j].Has(fl[i].End())
    {
      if j < i {
        assert fl[j].End() < fl[i].addr;
      } else if j > i {
        assert fl[i].End() < fl[j].addr;
      }
    }
    assert fl[i] in fl;
  }

  /** Every maximal run of free pages is a block. */
  lemma MaximalRunIsBlock(fl: seq<Block>, lo: int, hi: int)
    requires Sorted(fl) && lo < hi
    requires forall x :: lo <= x < hi ==> Covers(fl, x)
    requires !Covers(fl, lo - 1) && !Covers(fl, hi)
    ensures Block(lo, hi - lo) in fl
  {
    assert Covers(fl, lo);
    var b :| b in fl && b.Has(lo);
    var i :| 0 <= i < |fl| && fl[i] == b;
    BlockIsMaximalRun(fl, i);
    assert b.addr < lo ==> b.Has(lo - 1);
    assert b.End() > hi ==> b.Has(hi);
    assert b.End() < hi ==> Covers(fl, b.End());
  }

  /** Freeing what an allocation returned restores the list. */
  lemma AllocThenFree(fl: seq<Block>, n: int)
    requires Sorted(fl) && n >= 1 && FirstFit(fl, n) < |fl|
    ensures var i := FirstFit(fl, n);
            Freed(Take(fl, i, n), Block(fl[i].addr, n)) == fl
  {
    var i := FirstFit(fl, n);
    var b := Block(fl[i].addr, n);
    TakenApart(fl, i, n);
    TakeKeepsSorted(fl, i, n);
    PlaceOf(Take(fl, i, n), b);
    TakeThenRelease(fl, i, n, Place(Take(fl, i, n), b.addr));
  }

  lemma TakenApart(fl: seq<Block>, i: nat, n: int)
    requires Sorted(fl) && i < |fl| && 1 <= n <= fl[i].size
    ensures Apart(Take(fl, i, n), Block(fl[i].addr, n))
  {
    var t := Take(fl, i, n);
    var b := Block(fl[i].addr, n);
    forall j | 0 <= j < |t| ensures t[j].End() <= b.addr || b.End() <= t[j].addr {
      if j < i {
        assert t[j] == fl[j] && fl[j].End() < fl[i].addr;
      } else if j > i || fl[i].size == n {
        var m := if fl[i].size == n then j + 1 else j;
        assert t[j] == fl[m] && fl[i].End() < fl[m].addr;
      }
    }
  }

  /** The list after a free depends only on which pages are free, so frees commute. */
  lemma FreesCommute(fl: seq<Block>, a: Block, b: Block)
    requires Sorted(fl) && a.size >= 1 && b.size >= 1
    requires forall x :: a.Has(x) ==> !Covers(fl, x) && !b.Has(x)
    requires forall x :: b.Has(x) ==> !Covers(fl, x)
    ensures Freed(Freed(fl, a), b) == Freed(Freed(fl, b), a)
  {
    FreeCovers(fl, a);
    FreeCovers(fl, b);
    hide Freed, Sorted, Covers;
    FreeCovers(Freed(fl, a), b);
    FreeCovers(Freed(fl, b), a);
    Canonical(Freed(Freed(fl, a), b), Freed(Freed(fl, b), a));
  }

  lemma FreeCovers(fl: seq<Block>, b: Block)
    requires Sorted(fl) && b.size >= 1
    requires forall x :: b.Has(x) ==> !Covers(fl, x)
    ensures Sorted(Freed(fl, b))
    ensures forall x :: Covers(Freed(fl, b), x) <==> Covers(fl, x) || b.Has(x)
  {
    NotCoveredApart(fl, b);
    PlaceOf(fl, b);
    ReleaseKeepsSorted(fl, Place(fl, b.addr), b);
    forall x ensures Covers(Freed(fl, b), x) <==> Covers(fl, x) || b.Has(x) {
      ReleaseCovers(fl, Place(fl, b.addr), b, x);
    }
  }

  /** For single pages first fit is one way to pick from the set of free pages: it fails
      exactly when the set is empty, and removes exactly the page it returns. */
  lemma OnePageIsAPick(fl: seq<Block>)
    requires Sorted(fl)
    ensures FirstFit(fl, 1) == |fl| <==> forall x :: !Covers(fl, x)
    ensures FirstFit(fl, 1) < |fl| ==>
      var i := FirstFit(fl, 1); var p := fl[i].addr;
      Covers(fl, p) && forall x :: Covers(Take(fl, i, 1), x) <==> Covers(fl, x) && x != p
  {
    SortedSizes(fl);
    if fl != [] {
      assert fl[0] in fl && fl[0].Has(fl[0].addr) && Covers(fl, fl[0].addr);
      var i := FirstFit(fl, 1);
      assert fl[i] in fl && fl[i].Has(fl[i].addr);
      forall x ensures Covers(Take(fl, i, 1), x) <==> Covers(fl, x) && x != fl[i].addr {
        TakeCovers(fl, i, 1, x);
      }
    }
  }

  /** The `n` pages from `a` on are free. */
  ghost predicate FreeRun(fl: seq<Block>, a: int, n: int) {
    forall x :: a <= x < a + n ==> Covers(fl, x)
  }

  /** Such pages lie in one block. */
  lemma RunInBlock(fl: seq<Block>, a: int, n: int) returns (i: nat)
    requires Sorted(fl) && n >= 1 && FreeRun(fl, a, n)
    ensures i < |fl| && fl[i].addr <= a && a + n <= fl[i].End()
  {
    assert Covers(fl, a);
    var b :| b in fl && b.Has(a);
    i :| 0 <= i < |fl| && fl[i] == b;
    BlockIsMaximalRun(fl, i);
    assert b.End() < a + n ==> Covers(fl, b.End());
  }

  /** First fit finds the lowest `n` free pages in a row, and nothing exactly when there are
      none. */
  lemma FirstFitIsLowest(fl: seq<Block>, n: int)
    requires Sorted(fl) && n >= 1
    ensures FirstFit(fl, n) == |fl| <==> forall a :: !FreeRun(fl, a, n)
    ensures FirstFit(fl, n) < |fl| ==> FreeRun(fl, fl[FirstFit(fl, n)].addr, n)
    ensures FirstFit(fl, n) < |fl| ==> forall a :: FreeRun(fl, a, n) ==> fl[FirstFit(fl, n)].addr <= a
  {
    var i := FirstFit(fl, n);
    if i < |fl| {
      BlockIsMaximalRun(fl, i);
      assert forall x :: fl[i].addr <= x < fl[i].addr + n ==> fl[i].Has(x);
      assert FreeRun(fl, fl[i].addr, n);
    }
    forall a | FreeRun(fl, a, n) ensures i != |fl| && fl[i].addr <= a {
      var j := RunInBlock(fl, a, n);
      assert fl[j].size >= n;
      assert i <= j;
      assert i < j ==> fl[i].End() < fl[j].addr;
    }
  }

  // ---------------------------------------------------------------- runs of calls

  datatype Call = Alloc(n: int) | Free(b: Block)

  /** The free list, and the pages handed out and not yet given back. */
  datatype State = State(fl: seq<Block>, used: set<int>)

  function Pages(b: Block): set<int> {
    set x | b.addr <= x < b.addr + b.size && b.Has(x)
  }

  /** Callers ask for at least one page and give back only pages they hold. */
  ghost predicate Legal(s: State, c: Call) {
    match c
    case Alloc(n) => n >= 1
    case Free(b) => b.size >= 1 && Pages(b) <= s.used
  }

  function Step(s: State, c: Call): State {
    match c
    case Alloc(n) =>
      var i := FirstFit(s.fl, n);
      if i == |s.fl| then s else State(Take(s.fl, i, n), s.used + Pages(Block(s.fl[i].addr, n)))
    case Free(b) => State(Freed(s.fl, b), s.used - Pages(b))
  }

  ghost predicate LegalRun(s: State, cs: seq<Call>)
    decreases |cs|
  {
    cs == [] || (Legal(s, cs[0]) && LegalRun(Step(s, cs[0]), cs[1..]))
  }

  function Run(s: State, cs: seq<Call>): State
    decreases |cs|
  {
    if cs == [] then s else Run(Step(s, cs[0]), cs[1..])
  }

  /** Each page of `all` is free or used, never both. */
  ghost predicate Split(s: State, all: seq<Block>) {
    && Sorted(s.fl)
    && (forall x {:trigger Covers(s.fl, x)} {:trigger x in s.used} :: Covers(s.fl, x) ==> x !in s.used)
    && (forall x {:trigger Covers(all, x)} {:trigger Covers(s.fl, x)} {:trigger x in s.used} :: Covers(all, x) <==> Covers(s.fl, x) || x in s.used)
  }

  lemma StepKeepsSplit(s: State, c: Call, all: seq<Block>)
    requires Split(s, all) && Legal(s, c)
    ensures Split(Step(s, c), all)
  {
    match c
    case Alloc(n) =>
      var i := FirstFit(s.fl, n);
      if i < |s.fl| {
        TakeKeepsSorted(s.fl, i, n);
        BlockIsMaximalRun(s.fl, i);
        forall x ensures Covers(Take(s.fl, i, n), x) <==> Covers(s.fl, x) && !Block(s.fl[i].addr, n).Has(x) {
          TakeCovers(s.fl, i, n, x);
        }
        assert forall x :: Block(s.fl[i].addr, n).Has(x) ==> s.fl[i].Has(x);
      }
    case Free(b) =>
      assert forall x :: b.Has(x) ==> x in Pages(b);
      FreeCovers(s.fl, b);
  }

  /** What a call does, page by page: an allocation hands out the lowest `n` free pages in a
      row, and fails without a change exactly when there are none. */
  lemma StepIsExact(s: State, c: Call, all: seq<Block>)
    requires Split(s, all) && Legal(s, c)
    ensures c.Alloc? && (forall a :: !FreeRun(s.fl, a, c.n)) ==> Step(s, c) == s
    ensures c.Alloc? && (exists a :: FreeRun(s.fl, a, c.n)) ==>
      exists p :: FreeRun(s.fl, p, c.n) && (forall a :: FreeRun(s.fl, a, c.n) ==> p <= a) && HandsOut(s, Step(s, c), p, c.n)
    ensures c.Free? ==> HandsOut(Step(s, c), s, c.b.addr, c.b.size)
  {
    match c
    case Alloc(n) =>
      FirstFitIsLowest(s.fl, n);
      var i := FirstFit(s.fl, n);
      if i < |s.fl| {
        forall x ensures Covers(Take(s.fl, i, n), x) <==> Covers(s.fl, x) && !Block(s.fl[i].addr, n).Has(x) {
          TakeCovers(s.fl, i, n, x);
        }
        assert HandsOut(s, Step(s, c), s.fl[i].addr, n);
      }
    case Free(b) =>
      assert forall x :: b.Has(x) ==> x in Pages(b);
      FreeCovers(s.fl, b);
  }

  /** In `t` the `n` pages from `p` on are in use, in `s` they are free; otherwise the two
      agree. */
  ghost predicate HandsOut(s: State, t: State, p: int, n: int) {
    forall x {:trigger Covers(t.fl, x)} {:trigger x in t.used} :: if p <= x < p + n then Covers(s.fl, x) && !Covers(t.fl, x) && x !in s.used && x in t.used
                else (Covers(t.fl, x) <==> Covers(s.fl, x)) && (x in t.used <==> x in s.used)
  }

  /** After any run of calls the free list is the list of maximal runs of the pages not
      handed out; once everything is back it is the list the run began with. */
  lemma {:induction false} RunsAreCanonical(s: State, cs: seq<Call>, all: seq<Block>)
    requires Split(s, all) && LegalRun(s, cs)
    ensures Split(Run(s, cs), all)
    ensures Sorted(all) && Run(s, cs).used == {} ==> Run(s, cs).fl == all
    decreases |cs|
  {
    if cs == [] {
      if Sorted(all) && s.used == {} {
        Canonical(s.fl, all);
      }
    } else {
      StepKeepsSplit(s, cs[0], all);
      RunsAreCanonical(Step(s, cs[0]), cs[1..], all);
    }
  }

  // ---------------------------------------------------------------- the allocator

  function Head(prop: seq<nat>, p: nat): Block {
    Block(p, if p < |prop| then prop[p] else 0)
  }

  /** The blocks a list of head pages stands for. */
  ghost function BlocksOf(list: seq<nat>, prop: seq<nat>): seq<Block> {
    seq(|list|, i requires 0 <= i < |list| => Head(prop, list[i]))
  }

  /** PG_property marks exactly the block heads. */
  ghost predicate HeadsMarked(list: seq<nat>, flag: seq<bool>) {
    forall p :: 0 <= p < |flag| ==> (flag[p] <==> p in list)
  }

  ghost predicate InMemory(fl: seq<Block>, reserved: seq<bool>) {
    forall i :: 0 <= i < |fl| ==> 0 <= fl[i].addr && fl[i].End() <= |reserved| && NotReserved(fl[i], reserved)
  }

  ghost predicate NotReserved(b: Block, reserved: seq<bool>) {
    forall x :: b.Has(x) && 0 <= x < |reserved| ==> !reserved[x]
  }

  lemma BlocksAscend(list: seq<nat>, prop: seq<nat>)
    requires Sorted(BlocksOf(list, prop))
    ensures Ascending(list)
  {
    var fl := BlocksOf(list, prop);
    forall i, j | 0 <= i < j < |list| ensures list[i] < list[j] {
      assert fl[i].End() < fl[j].addr && fl[i].size >= 1;
    }
  }

  /** Putting head `p` with `n` pages at place `k`. */
  lemma PutBlock(list: seq<nat>, prop: seq<nat>, k: nat, p: nat, n: nat)
    requires k <= |list| && p < |prop| && p !in list
    ensures var fl := BlocksOf(list, prop);
            BlocksOf(list[..k] + [p] + list[k..], prop[p := n]) == fl[..k] + [Block(p, n)] + fl[k..]
  {
  }

  /** Replacing block `k` by what is left of it, `p` onwards. */
  lemma CutBlock(list: seq<nat>, prop: seq<nat>, k: nat, p: nat, n: nat)
    requires k < |list| && p < |prop| && p !in list
    ensures var fl := BlocksOf(list, prop);
            BlocksOf(list[..k] + [p] + list[k + 1..], prop[p := n]) == fl[..k] + [Block(p, n)] + fl[k + 1..]
  {
  }

  lemma DropBlock(list: seq<nat>, prop: seq<nat>, k: nat)
    requires k < |list|
    ensures var fl := BlocksOf(list, prop);
            BlocksOf(list[..k] + list[k + 1..], prop) == fl[..k] + fl[k + 1..]
  {
  }

  /** Block `k` takes in the block after it. */
  lemma MergeBlocks(list: seq<nat>, prop: seq<nat>, k: nat, n: nat)
    requires k + 1 < |list| && list[k] < |prop|
    requires Ascending(list)
    ensures var fl := BlocksOf(list, prop);
            BlocksOf(list[..k + 1] + list[k + 2..], prop[list[k] := n]) == fl[..k] + [Block(list[k], n)] + fl[k + 2..]
  {
  }

  ghost predicate Ascending(list: seq<nat>) {
    forall i, j :: 0 <= i < j < |list| ==> list[i] < list[j]
  }

  lemma CutMarks(list: seq<nat>, flag: seq<bool>, i: nat, p: nat)
    requires HeadsMarked(list, flag) && Ascending(list) && i < |list| && list[i] < |flag|
    requires p < |flag| && p !in list
    ensures HeadsMarked(list[..i] + [p] + list[i + 1..], flag[p := true][list[i] := false])
  {
    var t := list[..i] + [p] + list[i + 1..];
    assert p == t[i];
    forall q: nat | q in list && q != list[i] ensures q in t {
      var j :| 0 <= j < |list| && list[j] == q;
      assert t[j] == q;
    }
  }

  lemma DropMarks(list: seq<nat>, flag: seq<bool>, i: nat)
    requires HeadsMarked(list, flag) && Ascending(list) && i < |list| && list[i] < |flag|
    ensures HeadsMarked(list[..i] + list[i + 1..], flag[list[i] := false])
  {
    var t := list[..i] + list[i + 1..];
    forall q: nat | q in list && q != list[i] ensures q in t {
      var j :| 0 <= j < |list| && list[j] == q;
      assert t[if j < i then j else j - 1] == q;
    }
  }

  lemma PutMarks(list: seq<nat>, flag: seq<bool>, k: nat, p: nat)
    requires HeadsMarked(list, flag) && k <= |list| && p < |flag|
    ensures HeadsMarked(list[..k] + [p] + list[k..], flag[p := true])
  {
    var t := list[..k] + [p] + list[k..];
    assert t[k] == p;
    forall q: nat | q in list ensures q in t {
      var j :| 0 <= j < |list| && list[j] == q;
      assert t[if j < k then j else j + 1] == q;
    }
  }

  lemma HeadsInMemory(list: seq<nat>, prop: seq<nat>, reserved: seq<bool>)
    requires Sorted(BlocksOf(list, prop)) && InMemory(BlocksOf(list, prop), reserved) && |prop| == |reserved|
    ensures forall i :: 0 <= i < |list| ==> list[i] < |prop| && prop[list[i]] >= 1 && list[i] + prop[list[i]] <= |prop|
  {
    var fl := BlocksOf(list, prop);
    forall i | 0 <= i < |list| ensures list[i] < |prop| && prop[list[i]] >= 1 && list[i] + prop[list[i]] <= |prop| {
      assert fl[i].size >= 1 && fl[i].End() <= |prop|;
    }
  }

  lemma InsideIsNoHead(list: seq<nat>, prop: seq<nat>, i: nat, p: nat)
    requires Sorted(BlocksOf(list, prop)) && i < |list| && p != list[i] && Head(prop, list[i]).Has(p)
    ensures p !in list
  {
    var fl := BlocksOf(list, prop);
    forall j | 0 <= j < |list| ensures list[j] != p {
      assert fl[i].Has(p) && fl[i].size >= 1 && fl[j].size >= 1;
      assert i < j ==> fl[i].End() < fl[j].addr;
      assert j < i ==> fl[j].End() < fl[i].addr;
    }
  }

  lemma TakeInMemory(fl: seq<Block>, i: nat, u: int, reserved: seq<bool>)
    requires InMemory(fl, reserved) && i < |fl| && 1 <= u <= fl[i].size
    ensures InMemory(Take(fl, i, u), reserved)
  {
    var t := Take(fl, i, u);
    forall j | 0 <= j < |t|
      ensures 0 <= t[j].addr && t[j].End() <= |reserved| && NotReserved(t[j], reserved)
    {
      var m := if j < i || (j == i && fl[i].size != u) then j else if fl[i].size == u then j + 1 else j;
      assert fl[m].addr <= t[j].addr && t[j].End() == fl[m].End();
      assert forall x :: t[j].Has(x) ==> fl[m].Has(x);
    }
  }

  lemma ReleaseInMemory(fl: seq<Block>, k: nat, b: Block, reserved: seq<bool>)
    requires InMemory(fl, reserved) && Sorted(fl) && k <= |fl| && b.size >= 1
    requires 0 <= b.addr && b.End() <= |reserved| && NotReserved(b, reserved)
    ensures InMemory(Release(fl, k, b), reserved)
  {
    var t := Release(fl, k, b);
    var m := Joined(fl, k, b);
    forall x | m.Has(x) && 0 <= x < |reserved| ensures !reserved[x] {
      assert b.Has(x) || (JoinsLeft(fl, k, b) && fl[k - 1].Has(x)) || (JoinsRight(fl, k, b) && fl[k].Has(x));
    }
    forall j | 0 <= j < |t|
      ensures 0 <= t[j].addr && t[j].End() <= |reserved| && NotReserved(t[j], reserved)
    {
      var i := Before(fl, k, b);
      if j < i {
        assert t[j] == fl[j];
      } else if j > i {
        assert t[j] == fl[After(fl, k, b) + j - i - 1];
      }
    }
  }

  ghost predicate Good(list: seq<nat>, nr: nat, prop: seq<nat>, flag: seq<bool>, reserved: seq<bool>) {
    && |prop| == |flag| == |reserved|
    && Sorted(BlocksOf(list, prop)) && InMemory(BlocksOf(list, prop), reserved)
    && HeadsMarked(list, flag)
    && nr == Total(BlocksOf(list, prop))
  }

  lemma GoodSizes(list: seq<nat>, nr: nat, prop: seq<nat>, flag: seq<bool>, reserved: seq<bool>)
    requires Good(list, nr, prop, flag, reserved)
    ensures |prop| == |flag| == |reserved|
  {
  }

  /** Unlinking a block that has just the pages asked for. */
  lemma TakeWhole(list: seq<nat>, nr: nat, prop: seq<nat>, flag: seq<bool>, reserved: seq<bool>, i: nat)
    requires Good(list, nr, prop, flag, reserved) && i < |list| && list[i] < |prop|
    ensures var n := prop[list[i]]; var t := list[..i] + list[i + 1..];
            && n <= nr && Good(t, nr - n, prop, flag[list[i] := false], reserved)
            && BlocksOf(t, prop) == Take(BlocksOf(list, prop), i, n)
  {
    hide Sorted, InMemory, Total, HeadsMarked, Ascending, BlocksOf;
    var fl := BlocksOf(list, prop);
    var n := prop[list[i]];
    BlockAt(list, prop, i);
    SizeAtLeast(fl, i);
    BlocksAscend(list, prop);
    TotalTake(fl, i, n);
    TakeKeepsSorted(fl, i, n);
    TotalPositive(Take(fl, i, n));
    TakeInMemory(fl, i, n, reserved);
    DropBlock(list, prop, i);
    DropMarks(list, flag, i);
    assert fl[..i] + [] + fl[i + 1..] == fl[..i] + fl[i + 1..];
  }

  lemma SizeAtLeast(fl: seq<Block>, i: nat)
    requires Sorted(fl) && i < |fl|
    ensures fl[i].size >= 1
  {
  }

  /** Replacing a block by its pages after the first `n`. */
  lemma TakeFront(list: seq<nat>, nr: nat, prop: seq<nat>, flag: seq<bool>, reserved: seq<bool>, i: nat, n: nat)
    requires Good(list, nr, prop, flag, reserved) && i < |list| && list[i] < |prop| && 1 <= n < prop[list[i]]
    ensures var p := list[i] + n; var t := list[..i] + [p] + list[i + 1..];
            && p < |prop| && n <= nr
            && Good(t, nr - n, prop[p := prop[list[i]] - n], flag[p := true][list[i] := false], reserved)
            && BlocksOf(t, prop[p := prop[list[i]] - n]) == Take(BlocksOf(list, prop), i, n)
  {
    var fl := BlocksOf(list, prop);
    var p := list[i] + n;
    TakeFrontBlocks(list, prop, reserved, i, n);
    assert Ascending(list) by { BlocksAscend(list, prop); }
    CutMarks(list, flag, i, p);
    hide Sorted, InMemory, Total, HeadsMarked, Ascending, BlocksOf, Take;
    TotalTake(fl, i, n);
    TakeKeepsSorted(fl, i, n);
    TotalPositive(Take(fl, i, n));
    TakeInMemory(fl, i, n, reserved);
  }

  lemma TakeFrontBlocks(list: seq<nat>, prop: seq<nat>, reserved: seq<bool>, i: nat, n: nat)
    requires Sorted(BlocksOf(list, prop)) && InMemory(BlocksOf(list, prop), reserved) && |prop| == |reserved|
    requires i < |list| && list[i] < |prop| && 1 <= n < prop[list[i]]
    ensures var p := list[i] + n; var t := list[..i] + [p] + list[i + 1..];
            && p < |prop| && p !in list
            && |BlocksOf(list, prop)| == |list| && BlocksOf(list, prop)[i] == Block(list[i], prop[list[i]])
            && BlocksOf(t, prop[p := prop[list[i]] - n]) == Take(BlocksOf(list, prop), i, n)
  {
    HeadsInMemory(list, prop, reserved);
    BlockAt(list, prop, i);
    InsideIsNoHead(list, prop, i, list[i] + n);
    hide Sorted, InMemory, BlocksOf;
    CutBlock(list, prop, i, list[i] + n, prop[list[i]] - n);
  }

  lemma BlockAt(list: seq<nat>, prop: seq<nat>, i: nat)
    requires i < |list| && list[i] < |prop|
    ensures |BlocksOf(list, prop)| == |list| && BlocksOf(list, prop)[i] == Block(list[i], prop[list[i]])
  {
  }

  /** The list while a block is being put in: `m` stands between the blocks of `fl` below
      `i` and those from `k` on. */
  ghost predicate Between(list: seq<nat>, prop: seq<nat>, flag: seq<bool>, fl: seq<Block>, i: nat, m: Block, k: nat) {
    && i <= k <= |fl| && |prop| == |flag|
    && Ascending(list) && HeadsMarked(list, flag) && (forall p :: p in list ==> p < |prop|)
    && BlocksOf(list, prop) == fl[..i] + [m] + fl[k..]
  }

  lemma BetweenAt(list: seq<nat>, prop: seq<nat>, flag: seq<bool>, fl: seq<Block>, i: nat, m: Block, k: nat)
    requires Between(list, prop, flag, fl, i, m, k)
    ensures |list| == i + 1 + |fl| - k
    ensures list[i] < |prop| && Block(list[i], prop[list[i]]) == m
    ensures i > 0 ==> list[i - 1] < |prop| && Block(list[i - 1], prop[list[i - 1]]) == fl[i - 1]
    ensures k < |fl| ==> i + 1 < |list| && list[i + 1] < |prop| && Block(list[i + 1], prop[list[i + 1]]) == fl[k]
  {
    var bl := BlocksOf(list, prop);
    assert |bl| == |list| && bl[i] == m == Head(prop, list[i]) && list[i] in list;
    assert i > 0 ==> bl[i - 1] == fl[i - 1] == Head(prop, list[i - 1]) && list[i - 1] in list;
    assert k < |fl| ==> bl[i + 1] == fl[k] == Head(prop, list[i + 1]) && list[i + 1] in list;
  }

  /** Head `list[j]` takes in the pages of the next head. */
  lemma MergeHeads(list: seq<nat>, prop: seq<nat>, flag: seq<bool>, j: nat)
    requires Ascending(list) && HeadsMarked(list, flag) && |prop| == |flag| && (forall p :: p in list ==> p < |prop|)
    requires j + 1 < |list| && list[j + 1] < |flag|
    ensures var t := list[..j + 1] + list[j + 2..];
            && Ascending(t) && HeadsMarked(t, flag[list[j + 1] := false]) && (forall p :: p in t ==> p < |prop|)
  {
    var t := list[..j + 1] + list[j + 2..];
    DropMarks(list, flag, j + 1);
    forall p | p in t ensures p in list { }
  }

  lemma MergedLeft(fl: seq<Block>, i: nat, m: Block, k: nat, w: Block)
    requires 0 < i <= k <= |fl|
    ensures var bl := fl[..i] + [m] + fl[k..]; bl[..i - 1] + [w] + bl[i + 1..] == fl[..i - 1] + [w] + fl[k..]
  {
  }

  lemma MergedRight(fl: seq<Block>, i: nat, m: Block, k: nat, w: Block)
    requires i <= k < |fl|
    ensures var bl := fl[..i] + [m] + fl[k..]; bl[..i] + [w] + bl[i + 2..] == fl[..i] + [w] + fl[k + 1..]
  {
  }

  lemma MergeLeft(list: seq<nat>, prop: seq<nat>, flag: seq<bool>, fl: seq<Block>, i: nat, m: Block, k: nat)
    requires Between(list, prop, flag, fl, i, m, k) && 0 < i < |list| && list[i] < |prop| && list[i - 1] < |prop|
    ensures var p := list[i - 1]; var n := prop[p] + prop[list[i]];
            Between(list[..i] + list[i + 1..], prop[p := n], flag[list[i] := false], fl, i - 1, Block(p, n), k)
  {
    BetweenAt(list, prop, flag, fl, i, m, k);
    var n := prop[list[i - 1]] + prop[list[i]];
    MergeHeads(list, prop, flag, i - 1);
    MergeBlocks(list, prop, i - 1, n);
    MergedLeft(fl, i, m, k, Block(list[i - 1], n));
    hide BlocksOf, Ascending, HeadsMarked;
  }

  lemma MergeRight(list: seq<nat>, prop: seq<nat>, flag: seq<bool>, fl: seq<Block>, i: nat, m: Block, k: nat)
    requires Between(list, prop, flag, fl, i, m, k) && k < |fl| && i + 1 < |list|
    requires list[i] < |prop| && list[i + 1] < |prop|
    ensures var q := list[i + 1]; var n := prop[list[i]] + prop[q];
            Between(list[..i + 1] + list[i + 2..], prop[list[i] := n], flag[q := false], fl, i, Block(list[i], n), k + 1)
  {
    BetweenAt(list, prop, flag, fl, i, m, k);
    var n := prop[list[i]] + prop[list[i + 1]];
    MergeHeads(list, prop, flag, i);
    MergeBlocks(list, prop, i, n);
    MergedRight(fl, i, m, k, Block(list[i], n));
    hide BlocksOf, Ascending, HeadsMarked;
  }

  /** The new head in its place, before any merging. */
  lemma PutHead(list: seq<nat>, prop: seq<nat>, flag: seq<bool>, k: nat, base: nat, n: nat)
    requires Ascending(list) && HeadsMarked(list, flag) && |prop| == |flag| && (forall p :: p in list ==> p < |prop|)
    requires k <= |list| && base < |prop| && base !in list
    requires forall i :: 0 <= i < k ==> list[i] < base
    requires forall i :: k <= i < |list| ==> base < list[i]
    ensures Between(list[..k] + [base] + list[k..], prop[base := n], flag[base := true],
                    BlocksOf(list, prop), k, Block(base, n), k)
  {
    PutBlock(list, prop, k, base, n);
    PutMarks(list, flag, k, base);
    var t := list[..k] + [base] + list[k..];
    forall p | p in t ensures p < |prop| {
      assert p in list || p == base;
    }
    assert |BlocksOf(list, prop)| == |list|;
    hide BlocksOf, HeadsMarked;
  }

  function LeftJoined(fl: seq<Block>, k: nat, b: Block): Block {
    var addr := if JoinsLeft(fl, k, b) then fl[k - 1].addr else b.addr;
    Block(addr, b.End() - addr)
  }

  /** Both merges done, the list is the released one. */
  lemma BetweenIsRelease(list: seq<nat>, prop: seq<nat>, flag: seq<bool>, fl: seq<Block>, k: nat, b: Block)
    requires k <= |fl|
    requires Between(list, prop, flag, fl, Before(fl, k, b), Joined(fl, k, b), After(fl, k, b))
    ensures BlocksOf(list, prop) == Release(fl, k, b) && HeadsMarked(list, flag)
  {
  }

  lemma FreeFacts(list: seq<nat>, nr: nat, prop: seq<nat>, flag: seq<bool>, reserved: seq<bool>, base: nat, n: nat)
    requires Good(list, nr, prop, flag, reserved) && n > 0 && base + n <= |prop|
    requires forall x :: base <= x < base + n ==> !Covers(BlocksOf(list, prop), x)
    ensures Ascending(list) && HeadsMarked(list, flag) && |prop| == |flag| == |reserved|
    ensures forall p :: p in list ==> p < |prop|
    ensures forall x :: base <= x < base + n ==> x !in list && !flag[x]
    ensures Apart(BlocksOf(list, prop), Block(base, n)) && |BlocksOf(list, prop)| == |list|
    ensures forall i :: 0 <= i < |list| ==> BlocksOf(list, prop)[i].addr == list[i]
  {
    HeadsInMemory(list, prop, reserved);
    BlocksAscend(list, prop);
    NotCoveredApart(BlocksOf(list, prop), Block(base, n));
    forall i | 0 <= i < |list| ensures !(base <= list[i] < base + n) {
      var b := BlocksOf(list, prop)[i];
      assert b in BlocksOf(list, prop) && b.Has(list[i]);
    }
  }

  /** What the allocator keeps when a block is released. */
  lemma ReleasedGood(list: seq<nat>, nr: nat, prop: seq<nat>, flag: seq<bool>, reserved: seq<bool>, fl: seq<Block>, k: nat, b: Block)
    requires Sorted(fl) && InMemory(fl, reserved) && nr == Total(fl) + b.size && |prop| == |flag| == |reserved|
    requires IsPlace(fl, k, b.addr) && Apart(fl, b) && b.size >= 1
    requires 0 <= b.addr && b.End() <= |reserved| && NotReserved(b, reserved)
    requires BlocksOf(list, prop) == Release(fl, k, b) && HeadsMarked(list, flag)
    ensures Good(list, nr, prop, flag, reserved)
  {
    ReleaseKeepsSorted(fl, k, b);
    ReleaseInMemory(fl, k, b, reserved);
    TotalRelease(fl, k, b);
    hide Release, Sorted, InMemory, Total, HeadsMarked, BlocksOf;
  }

  lemma Released(list: seq<nat>, nr: nat, prop: seq<nat>, flag: seq<bool>, reserved: seq<bool>, fl: seq<Block>, k: nat, b: Block)
    requires k == Place(fl, b.addr)
    requires Sorted(fl) && InMemory(fl, reserved) && nr == Total(fl) + b.size && |prop| == |flag| == |reserved|
    requires IsPlace(fl, k, b.addr) && Apart(fl, b) && b.size >= 1
    requires 0 <= b.addr && b.End() <= |reserved| && NotReserved(b, reserved)
    requires Between(list, prop, flag, fl, Before(fl, k, b), Joined(fl, k, b), After(fl, k, b))
    ensures Good(list, nr, prop, flag, reserved) && BlocksOf(list, prop) == Freed(fl, b)
  {
    BetweenIsRelease(list, prop, flag, fl, k, b);
    ReleasedGood(list, nr, prop, flag, reserved, fl, k, b);
  }

  lemma PlaceUnique(fl: seq<Block>, k: nat, q: nat, a: int)
    requires IsPlace(fl, k, a) && IsPlace(fl, q, a)
    ensures k == q
  {
    var m := if k < q then k else q;
    if m < |fl| {
      assert fl[m].addr < a <==> m < k;
      assert fl[m].addr < a <==> m < q;
    }
  }

  lemma PlacedAt(list: seq<nat>, fl: seq<Block>, k: nat, b: Block)
    requires Sorted(fl) && Apart(fl, b) && b.size >= 1 && |fl| == |list|
    requires forall i :: 0 <= i < |list| ==> fl[i].addr == list[i]
    requires k <= |list| && (forall i :: 0 <= i < k ==> list[i] < b.addr) && (forall i :: k <= i < |list| ==> b.addr < list[i])
    ensures IsPlace(fl, k, b.addr) && k == Place(fl, b.addr)
  {
    var q := Place(fl, b.addr);
    PlaceOf(fl, b);
    PlaceUnique(fl, k, q, b.addr);
  }

  lemma SameBlocks(list: seq<nat>, prop: seq<nat>, prop2: seq<nat>)
    requires |prop| == |prop2| && forall p :: p in list && p < |prop| ==> prop2[p] == prop[p]
    ensures BlocksOf(list, prop2) == BlocksOf(list, prop)
  {
  }

  lemma ReservedIsNotFree(fl: seq<Block>, b: Block, reserved: seq<bool>)
    requires InMemory(fl, reserved) && 0 <= b.addr && b.End() <= |reserved|
    requires forall x :: b.Has(x) ==> reserved[x]
    ensures forall x :: b.Has(x) ==> !Covers(fl, x)
  {
    forall x | b.Has(x) ensures !Covers(fl, x) {
      assert forall i :: 0 <= i < |fl| ==> NotReserved(fl[i], reserved);
    }
  }

  lemma Unreserved(fl: seq<Block>, reserved: seq<bool>, reserved2: seq<bool>)
    requires InMemory(fl, reserved) && |reserved| == |reserved2|
    requires forall x :: 0 <= x < |reserved| && !reserved[x] ==> !reserved2[x]
    ensures InMemory(fl, reserved2)
  {
    forall i | 0 <= i < |fl| ensures NotReserved(fl[i], reserved2) {
      assert NotReserved(fl[i], reserved);
    }
  }

  /** Some block of `fl` ends where `b` begins, or begins where it ends. */
  ghost predicate NextTo(fl: seq<Block>, b: Block) {
    exists i :: 0 <= i < |fl| && (fl[i].End() == b.addr || b.End() == fl[i].addr)
  }

  function PutAt(fl: seq<Block>, k: nat, b: Block): seq<Block> {
    if k <= |fl| then fl[..k] + [b] + fl[k..] else fl
  }

  lemma BetweenIsPut(list: seq<nat>, prop: seq<nat>, flag: seq<bool>, fl: seq<Block>, k: nat, b: Block)
    requires Between(list, prop, flag, fl, k, b, k)
    ensures BlocksOf(list, prop) == PutAt(fl, k, b)
  {
  }

  /** The list is not one of maximal runs any more. */
  lemma PutNextTo(fl: seq<Block>, k: nat, b: Block)
    requires Sorted(fl) && IsPlace(fl, k, b.addr) && b.size >= 1 && NextTo(fl, b)
    ensures !Sorted(PutAt(fl, k, b))
  {
    var t := PutAt(fl, k, b);
    var i :| 0 <= i < |fl| && (fl[i].End() == b.addr || b.End() == fl[i].addr);
    assert t[k] == b;
    if i < k {
      assert t[i] == fl[i];
    } else {
      assert t[i + 1] == fl[i];
    }
  }

  /** Pages 3 and 4 free, and page 5 made a region of its own: two blocks that touch. */
  lemma TouchingRegions()
    ensures Sorted([Block(3, 2)]) && NextTo([Block(3, 2)], Block(5, 1))
    ensures PutAt([Block(3, 2)], Place([Block(3, 2)], 5), Block(5, 1)) == [Block(3, 2), Block(5, 1)] && !Sorted([Block(3, 2), Block(5, 1)])
  {
    assert [Block(3, 2)][0].End() == 5;
    assert Place([Block(3, 2)], 5) == 1 + Place([], 5);
    var t := [Block(3, 2), Block(5, 1)];
    assert t[0].End() == t[1].addr;
  }

  lemma NotGood(list: seq<nat>, nr: nat, prop: seq<nat>, flag: seq<bool>, reserved: seq<bool>)
    requires !Sorted(BlocksOf(list, prop))
    ensures !Good(list, nr, prop, flag, reserved)
  {
  }

  lemma NoNeighbour(fl: seq<Block>, k: nat, b: Block)
    requires k <= |fl| && !NextTo(fl, b)
    ensures Before(fl, k, b) == After(fl, k, b) == k && Joined(fl, k, b) == b
  {
  }

  class PageArea {
    const property: array<nat>
    const flag: array<bool>
    const reserved: array<bool>
    var list: seq<nat>
    var nrFree: nat

    ghost function Blocks(): seq<Block>
      reads this, property
    {
      BlocksOf(list, property[..])
    }

    ghost predicate Valid()
      reads this, property, flag, reserved
    {
      && flag != reserved
      && Good(list, nrFree, property[..], flag[..], reserved[..])
    }

    constructor (pages: nat)
      ensures Valid() && fresh(property) && fresh(flag) && fresh(reserved)
      ensures Blocks() == [] && property.Length == pages && forall p :: 0 <= p < pages ==> reserved[p]
    {
      property := new nat[pages];
      flag := new bool[pages](_ => false);
      reserved := new bool[pages](_ => true);
      list, nrFree := [], 0;
    }

    /** The insertion loop shared by default_init_memmap and default_free_pages. */
    method Insert(base: nat) returns (k: nat)
      requires base !in list && Ascending(list)
      modifies `list
      ensures k <= |old(list)| && list == old(list)[..k] + [base] + old(list)[k..]
      ensures forall i :: 0 <= i < k ==> old(list)[i] < base
      ensures forall i :: k <= i < |old(list)| ==> base < old(list)[i]
    {
      k := 0;
      if list == [] {
        list := [base];
      } else {
        while k < |list|
          invariant 0 <= k < |list| && list == old(list)
          invariant forall i :: 0 <= i < k ==> list[i] < base
        {
          if base < list[k] {
            list := list[..k] + [base] + list[k..];
            return;
          } else if k + 1 == |list| {
            list := list + [base];
            k := k + 1;
            return;
          }
          k := k + 1;
        }
      }
    }

    /** The search loop of default_alloc_pages. */
    method FindFit(n: nat) returns (le: nat)
      requires Valid()
      ensures le == FirstFit(Blocks(), n)
    {
      le := 0;
      HeadsInMemory(list, property[..], reserved[..]);
      while le < |list| && property[list[le]] < n
        invariant 0 <= le <= |list|
        invariant forall j :: 0 <= j < le ==> Blocks()[j].size < n
      {
        le := le + 1;
      }
      assert le < |list| ==> Blocks()[le].size >= n;
    }

    /** Unlinks the first `n` pages of the block at `le`. */
    method Unlink(le: nat, n: nat)
      requires Valid() && n > 0 && le < |list| && list[le] < property.Length && n <= property[list[le]]
      modifies `list, `nrFree, property, flag
      ensures Valid() && Blocks() == Take(old(Blocks()), le, n)
    {
      var head := list[le];
      ghost var list0, prop0, flag0 := list, property[..], flag[..];
      HeadsInMemory(list, prop0, reserved[..]);
      GoodSizes(list, nrFree, prop0, flag0, reserved[..]);
      hide Good, Take, BlocksOf, Sorted, InMemory;
      if property[head] > n {
        TakeFront(list, nrFree, prop0, flag0, reserved[..], le, n);
        var p := head + n;
        property[p] := property[head] - n;
        flag[p] := true;
        list := list[..le] + [p] + list[le + 1..];
        assert property[..] == prop0[p := prop0[head] - n];
        assert flag[..] == flag0[p := true];
      } else {
        TakeWhole(list, nrFree, prop0, flag0, reserved[..], le);
        list := list[..le] + list[le + 1..];
      }
      nrFree := nrFree - n;
      label Clear:
      flag[head] := false;
      assert flag[..] == old@Clear(flag[..])[head := false];
    }

    /** default_alloc_pages */
    method AllocPages(n: nat) returns (page: Option<nat>)
      requires Valid() && n > 0
      modifies `list, `nrFree, property, flag
      ensures Valid()
      ensures var fl := old(Blocks()); var i := FirstFit(fl, n);
              if i == |fl| then page == None && Blocks() == fl
              else page == Some(fl[i].addr) && Blocks() == Take(fl, i, n)
    {
      ghost var fl := Blocks();
      if n > nrFree {
        if FirstFit(fl, n) < |fl| { TotalBounds(fl, FirstFit(fl, n)); }
        return None;
      }
      page := None;
      var le := FindFit(n);
      if le < |list| {
        HeadsInMemory(list, property[..], reserved[..]);
        assert fl[le].size >= n;
        page := Some(list[le]);
        Unlink(le, n);
      }
    }

    /** default_init_memmap: reserved pages become a free block of their own. Nothing is
        merged, so the list stays one of maximal runs exactly when no free block is next to
        the pages. */
    method InitMemmap(base: nat, n: nat)
      requires Valid() && n > 0 && base + n <= property.Length
      requires forall x :: base <= x < base + n ==> reserved[x]
      modifies `list, `nrFree, property, flag, reserved
      ensures Valid() <==> !NextTo(old(Blocks()), Block(base, n))
      ensures Blocks() == PutAt(old(Blocks()), Place(old(Blocks()), base), Block(base, n)) && nrFree == old(nrFree) + n
      ensures Valid() ==> Blocks() == Freed(old(Blocks()), Block(base, n))
      ensures forall x :: 0 <= x < reserved.Length ==> reserved[x] == (old(reserved[x]) && !(base <= x < base + n))
      ensures forall x :: base <= x < base + n ==> property[x] == if x == base then n else 0
    {
      ghost var fl := Blocks();
      ghost var b := Block(base, n);
      ghost var list0, prop0, flag0, res0 := list, property[..], flag[..], reserved[..];
      ReservedIsNotFree(fl, b, res0);
      FreeFacts(list, nrFree, prop0, flag0, res0, base, n);
      assert forall x :: base <= x < base + n ==> !flag0[x];
      hide Good, Release, BlocksOf, HeadsMarked, Joined, Covers, Sorted;
      ZeroPages(base, n, list0);
      Unreserved(fl, res0, reserved[..]);
      ghost var prop1 := property[..];
      property[base] := n;
      flag[base] := true;
      nrFree := nrFree + n;
      var k := Insert(base);
      assert property[..] == prop1[base := n] && flag[..] == flag0[base := true];
      PutHead(list0, prop1, flag0, k, base, n);
      hide Between, Apart, IsPlace, InMemory, Ascending, NextTo, Place, PutAt;
      PlacedAt(list0, fl, k, b);
      BetweenIsPut(list, property[..], flag[..], fl, k, b);
      if NextTo(fl, b) {
        PutNextTo(fl, k, b);
        NotGood(list, nrFree, property[..], flag[..], reserved[..]);
      } else {
        NoNeighbour(fl, k, b);
        Released(list, nrFree, property[..], flag[..], reserved[..], fl, k, b);
      }
    }

    /** The page loop of default_init_memmap. */
    method ZeroPages(base: nat, n: nat, ghost list0: seq<nat>)
      requires base + n <= property.Length == flag.Length == reserved.Length && flag != reserved
      requires forall p :: p in list0 ==> !(base <= p < base + n)
      requires forall x :: base <= x < base + n ==> !flag[x]
      modifies property, flag, reserved
      ensures flag[..] == old(flag[..]) && BlocksOf(list0, property[..]) == BlocksOf(list0, old(property[..]))
      ensures forall x :: base <= x < base + n ==> !reserved[x] && property[x] == 0
      ensures forall x :: 0 <= x < reserved.Length && !(base <= x < base + n) ==> reserved[x] == old(reserved[x])
    {
      var p := base;
      while p != base + n
        invariant base <= p <= base + n
        invariant flag[..] == old(flag[..])
        invariant forall x :: 0 <= x < property.Length && !(base <= x < p) ==> property[x] == old(property[x])
        invariant forall x :: base <= x < p ==> !reserved[x] && property[x] == 0
        invariant forall x :: 0 <= x < reserved.Length && !(base <= x < p) ==> reserved[x] == old(reserved[x])
      {
        assert !flag[..][p];
        property[p], flag[p], reserved[p] := 0, false, false;
        p := p + 1;
      }
      SameBlocks(list0, old(property[..]), property[..]);
    }

    /** The page loop of default_free_pages. */
    method ClearFlags(base: nat, n: nat)
      requires base + n <= flag.Length == reserved.Length && flag != reserved
      requires forall x :: base <= x < base + n ==> !flag[x] && !reserved[x]
      modifies flag, reserved
      ensures flag[..] == old(flag[..]) && reserved[..] == old(reserved[..])
    {
      var p := base;
      while p != base + n
        invariant base <= p <= base + n
        invariant flag[..] == old(flag[..]) && reserved[..] == old(reserved[..])
      {
        assert !flag[..][p] && !reserved[..][p];
        flag[p], reserved[p] := false, false;
        p := p + 1;
      }
    }

    /** The merge with the block below. `k` is the place of the new head. */
    method JoinLeft(k: nat, ghost fl: seq<Block>, ghost b: Block) returns (i: nat)
      requires Between(list, property[..], flag[..], fl, k, b, k)
      modifies `list, property, flag
      ensures i == Before(fl, k, b)
      ensures Between(list, property[..], flag[..], fl, i, LeftJoined(fl, k, b), k)
    {
      BetweenAt(list, property[..], flag[..], fl, k, b, k);
      i := k;
      if k > 0 {
        var base, p := list[k], list[k - 1];
        if p + property[p] == base {
          MergeLeft(list, property[..], flag[..], fl, k, b, k);
          hide Between;
          ghost var prop0, flag0 := property[..], flag[..];
          property[p] := property[p] + property[base];
          flag[base] := false;
          list := list[..k] + list[k + 1..];
          i := k - 1;
          assert property[..] == prop0[p := prop0[p] + prop0[base]] && flag[..] == flag0[base := false];
        }
      }
    }

    /** The merge with the block above. */
    method JoinRight(i: nat, ghost fl: seq<Block>, ghost k: nat, ghost b: Block)
      requires k <= |fl| && i == Before(fl, k, b)
      requires Between(list, property[..], flag[..], fl, i, LeftJoined(fl, k, b), k)
      modifies `list, property, flag
      ensures Between(list, property[..], flag[..], fl, i, Joined(fl, k, b), After(fl, k, b))
    {
      ghost var m := LeftJoined(fl, k, b);
      BetweenAt(list, property[..], flag[..], fl, i, m, k);
      if i + 1 < |list| {
        var base, p := list[i], list[i + 1];
        if base + property[base] == p {
          MergeRight(list, property[..], flag[..], fl, i, m, k);
          hide Between;
          ghost var prop0, flag0 := property[..], flag[..];
          property[base] := property[base] + property[p];
          flag[p] := false;
          list := list[..i + 1] + list[i + 2..];
          assert property[..] == prop0[base := prop0[base] + prop0[p]] && flag[..] == flag0[p := false];
        }
      }
    }

    /** default_free_pages. The pages must be allocated: the source asserts only that none of
        them is reserved or a free head. */
    method FreePages(base: nat, n: nat)
      requires Valid() && n > 0 && base + n <= property.Length
      requires forall x :: base <= x < base + n ==> !Covers(Blocks(), x) && !reserved[x]
      modifies `list, `nrFree, property, flag, reserved
      ensures Valid() && reserved[..] == old(reserved[..])
      ensures Blocks() == Freed(old(Blocks()), Block(base, n))
    {
      ghost var fl := Blocks();
      ghost var b := Block(base, n);
      ghost var list0, prop0, flag0, res0 := list, property[..], flag[..], reserved[..];
      FreeFacts(list, nrFree, prop0, flag0, res0, base, n);
      assert forall x :: base <= x < base + n ==> !flag0[x] && !res0[x];
      hide Good, Release, BlocksOf, HeadsMarked, Joined, Covers;
      ClearFlags(base, n);
      property[base] := n;
      flag[base] := true;
      nrFree := nrFree + n;
      var k := Insert(base);
      assert property[..] == prop0[base := n] && flag[..] == flag0[base := true];
      PutHead(list0, prop0, flag0, k, base, n);
      assert Between(list, property[..], flag[..], fl, k, b, k);
      hide Between, Apart, IsPlace, Before, After;
      var i := JoinLeft(k, fl, b);
      JoinRight(i, fl, k, b);
      PlacedAt(list0, fl, k, b);
      assert flag.Length == property.Length == reserved.Length;
      Released(list, nrFree, property[..], flag[..], reserved[..], fl, k, b);
    }
  }
}
