/** load_icode (kern/process/proc.c): all segments of an ELF file, and the user stack. */
module LoadIcode {
  import opened Collections
  import opened Vma
  import opened Segments

  /** Every page lies in an area of the address space that has its rights. */
  ghost predicate InAreas(image: Image, areas: seq<Area>) {
    forall p :: p in image ==> exists a :: a in areas && a.Has(p) && Agrees(image[p].perm, a)
  }

  predicate Agrees(perm: Perm, a: Area) {
    (perm.write <==> a.write) && (perm.read <==> a.read || a.write)
  }

  /** The pages asked for are those mapped, each asked for once. */
  ghost predicate EachOnce(image: Image, allocs: seq<int>) {
    && (forall p :: p in allocs <==> p in image)
    && (forall i, j :: 0 <= i < j < |allocs| ==> allocs[i] != allocs[j])
  }

  lemma {:induction false} AscendingPages(base: int, n: int, x: int)
    requires base % PGSIZE == 0 && n >= 0
    ensures x in Ascending(base, n) <==> x % PGSIZE == 0 && base <= x < base + n * PGSIZE
    ensures |Ascending(base, n)| == n && forall i :: 0 <= i < n ==> Ascending(base, n)[i] == base + i * PGSIZE
  {
    if n > 0 {
      AscendingPages(base, n - 1, x);
    }
  }

  lemma OnceMore(image0: Image, image: Image, allocs0: seq<int>, allocs: seq<int>, base: int, top: int)
    requires EachOnce(image0, allocs0) && PagesAre(image.Keys, image0.Keys, base, top) && base % PGSIZE == 0 && top % PGSIZE == 0 && base <= top
    requires allocs == allocs0 + Ascending(base, (top - base) / PGSIZE)
    requires forall p :: p in image0 ==> !(base <= p < top)
    ensures EachOnce(image, allocs)
  {
    var n := (top - base) / PGSIZE;
    assert base + n * PGSIZE == top;
    forall x ensures x in Ascending(base, n) <==> x % PGSIZE == 0 && base <= x < top {
      AscendingPages(base, n, x);
    }
    AscendingPages(base, n, base);
    forall i, j | 0 <= i < j < |allocs| ensures allocs[i] != allocs[j] {
      if i < |allocs0| {
        assert allocs[i] in allocs0;
        if j >= |allocs0| { assert allocs[j] in Ascending(base, n); }
      }
    }
  }

  /** A new area overlaps none of the old ones, so none of its pages is mapped. */
  lemma NewAreaUnmapped(image: Image, areas: seq<Area>, h: Header, a: Area)
    requires InAreas(image, areas) && Sorted(areas) && UserAccess(a.start, a.end) && Search(areas, a.start) == None
    requires !Crosses(areas, a.start, a.end)
    requires a.start == RoundDown(h.va) && h.va + h.memsz <= a.end
    ensures Unmapped(image, h)
  {
    OnlyLaterAreas(areas, a);
    forall p | p in image ensures !(RoundDown(h.va) <= p < h.va + h.memsz) {
      var b :| b in areas && b.Has(p);
      assert !Overlap(a, b);
    }
  }


  /** The segment's area, with the rights its header asks for. */
  ghost predicate HasArea(areas: seq<Area>, h: Header) {
    exists a :: a in areas && a.start == RoundDown(h.va) && a.end == RoundUp(Add(h.va, h.memsz))
             && (a.read <==> h.read) && (a.write <==> h.write) && !a.stack
  }

  /** `RunAway` is the memset of `LoadSegment`. */
  datatype LoadResult = Done | InvalElf | MapFailed(why: MapResult) | OutOfMemory | RunAway(size: int) | StackPanic

  const USTACKSIZE := 256 * PGSIZE

  // ---------------------------------------------------------------- what was asked for

  /** The area of a segment, and of the stack. */
  function Wanted(h: Header): Area {
    Area(RoundDown(h.va), RoundUp(Add(h.va, h.memsz)), h.read, h.write, false)
  }

  const STACK := Area(USERTOP - USTACKSIZE, USERTOP, true, true, true)

  /** The areas of the first `n` headers. */
  ghost function Claimed(headers: seq<Header>, n: nat): set<Area> {
    set j | 0 <= j < n && j < |headers| && headers[j].load :: Wanted(headers[j])
  }

  /** mm_map's answer, `memory` being kmalloc's. */
  ghost function Said(claimed: set<Area>, a: Area, memory: bool): MapResult {
    if !UserAccess(a.start, a.end) || (exists b :: b in claimed && b.Has(a.start)) then Inval
    else if !memory then NoMem
    else if exists b :: b in claimed && a.start < b.start < a.end then Panic
    else Ok(a)
  }

  ghost predicate SameAreas(areas: seq<Area>, claimed: set<Area>) {
    forall a :: a in areas <==> a in claimed
  }

  lemma SaidIs(areas: seq<Area>, claimed: set<Area>, a: Area, memory: bool)
    requires SameAreas(areas, claimed)
    ensures Said(claimed, a, memory) ==
            if !UserAccess(a.start, a.end) || Search(areas, a.start).Some? then Inval
            else if !memory then NoMem else if Crosses(areas, a.start, a.end) then Panic else Ok(a)
  {
    SearchFinds(areas, a.start);
    if Crosses(areas, a.start, a.end) {
      var b :| b in areas && a.start < b.start < a.end;
      assert b in claimed;
    }
  }

  lemma ClaimOne(areas: seq<Area>, areas2: seq<Area>, headers: seq<Header>, i: nat)
    requires SameAreas(areas, Claimed(headers, i)) && i < |headers|
    requires headers[i].load ==> multiset(areas2) == multiset(areas) + multiset{Wanted(headers[i])}
    requires !headers[i].load ==> areas2 == areas
    ensures SameAreas(areas2, Claimed(headers, i + 1))
  {
    hide Wanted;
    if headers[i].load {
      assert Claimed(headers, i + 1) == Claimed(headers, i) + {Wanted(headers[i])};
      forall a ensures a in areas2 <==> a in areas || a == Wanted(headers[i]) {
        assert a in areas2 <==> a in multiset(areas2);
        assert a in areas <==> a in multiset(areas);
      }
    } else {
      assert Claimed(headers, i + 1) == Claimed(headers, i);
    }
  }

  /** The first `n` segments passed all checks, and mm_map made their areas. */
  ghost predicate Granted(headers: seq<Header>, n: nat, kmalloc: nat -> bool) {
    forall j :: 0 <= j < n && j < |headers| && headers[j].load ==>
      headers[j].filesz <= headers[j].memsz && Said(Claimed(headers, j), Wanted(headers[j]), kmalloc(j)).Ok? && !RunsAway(headers[j])
  }

  /** None of the first `n` segments wraps. */
  ghost predicate NoWraps(headers: seq<Header>, n: nat) {
    forall j :: 0 <= j < n && j < |headers| && headers[j].load ==> HeaderOk(headers[j])
  }

  /** The loaded segments of the first `n` headers are in memory. */
  ghost predicate AllLoaded(image: Image, headers: seq<Header>, binary: File, n: nat) {
    forall j :: 0 <= j < n && j < |headers| && headers[j].load ==> SegmentLoaded(image, headers[j], binary)
  }

  lemma SegmentStays(image: Image, image2: Image, h: Header, binary: File)
    requires SegmentLoaded(image, h, binary) && SamePages(image, image2)
    ensures SegmentLoaded(image2, h, binary)
  {
    forall i | 0 <= i < h.memsz ensures WordLoaded(image2, h, binary, i) {
      assert WordLoaded(image, h, binary, i);
    }
  }

  lemma AllStillLoaded(image: Image, image2: Image, headers: seq<Header>, binary: File, n: nat)
    requires AllLoaded(image, headers, binary, n) && SamePages(image, image2)
    ensures AllLoaded(image2, headers, binary, n)
  {
    forall j | 0 <= j < n && j < |headers| && headers[j].load ensures SegmentLoaded(image2, headers[j], binary) {
      SegmentStays(image, image2, headers[j], binary);
    }
  }

  lemma OneMoreLoaded(image: Image, headers: seq<Header>, binary: File, n: nat)
    requires n < |headers| && AllLoaded(image, headers, binary, n)
    requires headers[n].load ==> SegmentLoaded(image, headers[n], binary)
    ensures AllLoaded(image, headers, binary, n + 1)
  {
    hide SegmentLoaded;
  }

  // ---------------------------------------------------------------- what was read

  /** The offsets the first `n` segments are read from. */
  ghost function ReadBy(headers: seq<Header>, n: nat): set<int>
    requires n <= |headers|
  {
    if n == 0 then {} else ReadBy(headers, n - 1) + if headers[n - 1].load then Span(headers[n - 1].offset, Ran(headers[n - 1])) else {}
  }

  /** ... and `part` bytes of the next one. */
  ghost function ReadSoFar(headers: seq<Header>, n: nat, part: nat): set<int>
    requires n <= |headers|
  {
    ReadBy(headers, n) + if n < |headers| then Span(headers[n].offset, part) else {}
  }

  /** The file is as long as the headers say, as far as they are read. */
  ghost predicate InsideFile(headers: seq<Header>, n: nat, part: nat, size: nat)
    requires n <= |headers|
  {
    && (forall j :: 0 <= j < n && headers[j].load && Ran(headers[j]) > 0 ==> headers[j].offset + Ran(headers[j]) <= size)
    && (n < |headers| && part > 0 ==> headers[n].offset + part <= size)
  }

  ghost predicate Within(s: set<int>, size: nat) {
    forall k :: k in s ==> 0 <= k < size
  }

  lemma SpanWithin(offset: nat, n: nat, size: nat)
    ensures Within(Span(offset, n), size) <==> (n > 0 ==> offset + n <= size)
  {
    if n > 0 { assert offset + n - 1 in Span(offset, n); }
  }

  lemma WithinBoth(s: set<int>, t: set<int>, size: nat)
    ensures Within(s + t, size) <==> Within(s, size) && Within(t, size)
  {
    forall k | k in s ensures k in s + t { }
    forall k | k in t ensures k in s + t { }
  }

  lemma {:induction false} HeadersWithin(headers: seq<Header>, n: nat, size: nat)
    requires n <= |headers|
    ensures Within(ReadBy(headers, n), size) <==>
            forall j :: 0 <= j < n && headers[j].load && Ran(headers[j]) > 0 ==> headers[j].offset + Ran(headers[j]) <= size
  {
    hide Within, Ran, Span;
    if n == 0 {
      NoneWithin(size);
    } else {
      var h := headers[n - 1];
      HeadersWithin(headers, n - 1, size);
      NoneWithin(size);
      SpanWithin(h.offset, Ran(h), size);
      WithinBoth(ReadBy(headers, n - 1), if h.load then Span(h.offset, Ran(h)) else {}, size);
    }
  }

  lemma NoneWithin(size: nat)
    ensures Within({}, size)
  {
  }

  /** load_icode reads inside the file exactly when the headers stay inside it. */
  lemma ReadsInside(headers: seq<Header>, n: nat, part: nat, size: nat)
    requires n <= |headers|
    ensures Within(ReadSoFar(headers, n, part), size) <==> InsideFile(headers, n, part, size)
  {
    hide Within, Span;
    HeadersWithin(headers, n, size);
    NoneWithin(size);
    if n < |headers| {
      SpanWithin(headers[n].offset, part, size);
      WithinBoth(ReadBy(headers, n), Span(headers[n].offset, part), size);
    } else {
      WithinBoth(ReadBy(headers, n), {}, size);
    }
  }

  const LONG := Header(true, 0x0080_0000, 4096, 8, 8, true, false, false)

  /** A header whose 8 bytes begin at offset 4096 of a file of 4100: mm_map takes the area,
      and byte 4100 is read. */
  lemma OverRead(kmalloc: nat -> bool)
    requires kmalloc(0)
    ensures Granted([LONG], 1, kmalloc) && 4100 in ReadSoFar([LONG], 1, 0) && !InsideFile([LONG], 1, 0, 4100)
  {
    assert Claimed([LONG], 0) == {};
    assert Add(LONG.va, 8) == 0x0080_0008 && RoundUp(0x0080_0008) == 0x0080_1000 && RoundDown(LONG.va) == LONG.va;
    assert ReadBy([LONG], 1) == ReadBy([LONG], 0) + Span(4096, 8);
    assert [LONG][0].offset + Ran([LONG][0]) > 4100;
  }

  const LOOPED := Header(true, 0x0020_0010, 0, 4, TWO64 - 8, true, true, false)

  /** A segment of 2^64 - 8 bytes at 0x200010 ends, in machine words, at 0x200008: mm_map takes
      it for one page, and after its four bytes of file the memset gets the length 2^64 - 12. */
  lemma WrappedMemset(kmalloc: nat -> bool)
    requires kmalloc(0)
    ensures HeaderWords(LOOPED) && Accepted(LOOPED) && !HeaderOk(LOOPED) && RunsAway(LOOPED)
    ensures Said(Claimed([LOOPED], 0), Wanted(LOOPED), kmalloc(0)).Ok?
    ensures FirstSize(LOOPED, 0x0020_1000) == LOOPED.memsz - LOOPED.filesz == TWO64 - 12
  {
    assert Add(LOOPED.va, LOOPED.memsz) == 0x0020_0008 && RoundUp(0x0020_0008) == 0x0020_1000;
    assert RoundDown(LOOPED.va) == 0x0020_0000;
    assert Claimed([LOOPED], 0) == {};
    assert (LOOPED.va + Ran(LOOPED)) % PGSIZE == 0x14;
  }

  // ---------------------------------------------------------------- load_icode

  /** What holds once the first `i` headers have been dealt with. The pages of wrapped segments
      may lie anywhere above their areas, and over other segments' pages. */
  ghost predicate Loading(l: Loader, mm: MmStruct, headers: seq<Header>, i: nat, kmalloc: nat -> bool)
    reads l, mm
  {
    && i <= |headers| && mm.Valid() && l.Charge() <= MAXPAGES && l.Served() && Whole(l.image) && Above(l.image)
    && SameAreas(mm.areas, Claimed(headers, i)) && l.offsets == ReadBy(headers, i) && Granted(headers, i, kmalloc)
    && (NoWraps(headers, i) ==> Placed(l.image, l.allocs, mm.areas, headers, l.binary, i))
  }

  ghost predicate Placed(image: Image, allocs: seq<int>, areas: seq<Area>, headers: seq<Header>, binary: File, i: nat) {
    InAreas(image, areas) && EachOnce(image, allocs) && AllLoaded(image, headers, binary, i)
  }

  /** One segment more, in the pages of its own area. */
  lemma OneMorePlaced(h: Header, headers: seq<Header>, i: nat, binary: File, image0: Image, allocs0: seq<int>, areas0: seq<Area>,
                      image: Image, allocs: seq<int>, areas: seq<Area>, top: int)
    requires i < |headers| && headers[i] == h && h.load && HeaderWords(h) && HeaderOk(h)
    requires Placed(image0, allocs0, areas0, headers, binary, i) && Whole(image0) && Sorted(areas0)
    requires var a := Wanted(h); UserAccess(a.start, a.end) && Search(areas0, a.start) == None && !Crosses(areas0, a.start, a.end)
    requires multiset(areas) == multiset(areas0) + multiset{Wanted(h)}
    requires InSegment(h, binary, image0, allocs0, image, allocs, h.va + Extent(h), top)
    requires if Extent(h) == 0 then top == RoundDown(h.va) else top - PGSIZE < h.va + Extent(h) <= top
    requires SegmentLoaded(image, h, binary)
    ensures Placed(image, allocs, areas, headers, binary, i + 1)
  {
    hide AllLoaded, Loaded, SegmentLoaded, InSegment, Unmapped, InAreas, EachOnce, Search, Crosses, SamePages, SameOutside, PagesAre, Whole, RightsIn;
    var a := Wanted(h);
    AreaOfSegment(h, a.end);
    NewAreaUnmapped(image0, areas0, h, a);
    SegmentMeans(h, binary, image0, allocs0, image, allocs, h.va + Extent(h), top);
    RoundedDown(h.va);
    BelowTop(h, image0, top);
    OnceMore(image0, image, allocs0, allocs, RoundDown(h.va), top);
    SegmentRights(h, binary, image0, allocs0, image, allocs, h.va + Extent(h), top);
    NewPagesInArea(h, image0, image, a, top);
    NothingReplaced(image0, image, RoundDown(h.va), top);
    SamePerms(image0, image);
    NowInAreas(image0, image, areas0, areas, a);
    AllStillLoaded(image0, image, headers, binary, i);
    OneMoreLoaded(image, headers, binary, i);
  }

  lemma SegmentMeans(h: Header, binary: File, image0: Image, allocs0: seq<int>, image: Image, allocs: seq<int>, start: int, top: int)
    requires InSegment(h, binary, image0, allocs0, image, allocs, start, top)
    ensures Whole(image) && top % PGSIZE == 0 && RoundDown(h.va) <= top
    ensures SameOutside(image0, image, RoundDown(h.va), top)
    ensures PagesAre(image.Keys, image0.Keys, RoundDown(h.va), top)
    ensures Asked(allocs0, allocs, RoundDown(h.va), top)
  {
  }

  lemma SamePerms(image0: Image, image: Image)
    requires SamePages(image0, image)
    ensures forall p :: p in image0 ==> p in image && image[p].perm == image0[p].perm
  {
  }

  lemma NothingReplaced(image0: Image, image: Image, lo: int, hi: int)
    requires SameOutside(image0, image, lo, hi) && forall p :: p in image0 ==> !(lo <= p < hi)
    ensures SamePages(image0, image)
  {
  }

  lemma BelowTop(h: Header, image0: Image, top: int)
    requires Unmapped(image0, h) && Whole(image0) && top % PGSIZE == 0
    requires if h.memsz == 0 then top == RoundDown(h.va) else top - PGSIZE < h.va + h.memsz <= top
    ensures forall p :: p in image0 ==> !(RoundDown(h.va) <= p < top)
    ensures forall p :: p % PGSIZE == 0 && p < top ==> p < h.va + h.memsz
  {
    hide Unmapped, RoundDown;
    RoundedDown(h.va);
    forall p | p % PGSIZE == 0 && p < top ensures p < h.va + h.memsz {
      if h.memsz != 0 { PageBelow(p, top); }
    }
    forall p | p in image0 ensures !(RoundDown(h.va) <= p < top) {
      NotInSegment(image0, h, p);
    }
  }

  lemma PageBelow(p: int, top: int)
    requires p % PGSIZE == 0 && top % PGSIZE == 0 && p < top
    ensures p + PGSIZE <= top
  {
    assert p == PGSIZE * (p / PGSIZE) && top == PGSIZE * (top / PGSIZE);
  }

  lemma NotInSegment(image0: Image, h: Header, p: int)
    requires Unmapped(image0, h) && Whole(image0) && p in image0
    ensures p % PGSIZE == 0 && !(RoundDown(h.va) <= p < h.va + h.memsz)
  {
  }

  lemma NewPagesInArea(h: Header, image0: Image, image: Image, a: Area, top: int)
    requires PagesAre(image.Keys, image0.Keys, RoundDown(h.va), top)
    requires forall p :: p % PGSIZE == 0 && p < top ==> p < h.va + h.memsz
    requires a.start == RoundDown(h.va) && h.va + h.memsz <= a.end
    requires RightsIn(image, h, RoundDown(h.va), top) && a.read == h.read && a.write == h.write
    ensures forall p :: p in image ==> p in image0 || (a.Has(p) && Agrees(image[p].perm, a))
  {
    forall p | p in image && p !in image0 ensures a.Has(p) && Agrees(image[p].perm, a) {
      assert p in image.Keys && p !in image0.Keys;
    }
  }

  lemma AreaOfSegment(h: Header, end: int)
    requires 0 <= h.va && h.va + h.memsz < TWO64 && end == RoundUp(Add(h.va, h.memsz)) && UserAccess(RoundDown(h.va), end)
    ensures h.va + h.memsz <= end
  {
    assert Add(h.va, h.memsz) == h.va + h.memsz;
    RoundUpIsAbove(h.va + h.memsz);
  }

  lemma OnceMorePage(image: Image, allocs: seq<int>, la: int, page: Page)
    requires EachOnce(image, allocs) && la !in image
    ensures EachOnce(image[la := page], allocs + [la])
  {
    forall i, j | 0 <= i < j < |allocs + [la]| ensures (allocs + [la])[i] != (allocs + [la])[j] {
      assert allocs[i] in allocs;
    }
  }

  predicate StackPage(image: Image, p: int) {
    p in image && image[p].perm == Perm(true, true, true)
  }

  lemma NothingInArea(image: Image, areas: seq<Area>, a: Area)
    requires InAreas(image, areas) && Sorted(areas) && UserAccess(a.start, a.end) && Search(areas, a.start) == None
    requires !Crosses(areas, a.start, a.end)
    ensures forall p :: p in image ==> !a.Has(p)
  {
    OnlyLaterAreas(areas, a);
    forall p | p in image ensures !a.Has(p) {
      var b :| b in areas && b.Has(p);
      assert !Overlap(a, b);
    }
  }

  lemma NowInAreas(image0: Image, image: Image, areas0: seq<Area>, areas: seq<Area>, a: Area)
    requires InAreas(image0, areas0) && multiset(areas) == multiset(areas0) + multiset{a}
    requires forall p :: p in image ==> (p in image0 && image[p].perm == image0[p].perm) || (a.Has(p) && Agrees(image[p].perm, a))
    ensures InAreas(image, areas)
  {
    assert a in multiset(areas);
    forall p | p in image ensures exists b :: b in areas && b.Has(p) && Agrees(image[p].perm, b) {
      if a.Has(p) && Agrees(image[p].perm, a) {
        assert a in areas;
      } else {
        var b :| b in areas0 && b.Has(p) && Agrees(image0[p].perm, b);
        assert b in multiset(areas0) && b in multiset(areas);
      }
    }
  }

  lemma LoadingNext(l: Loader, mm: MmStruct, headers: seq<Header>, i: nat, kmalloc: nat -> bool)
    requires i < |headers| && mm.Valid() && l.Charge() <= MAXPAGES && l.Served() && Whole(l.image) && Above(l.image)
    requires SameAreas(mm.areas, Claimed(headers, i + 1)) && Granted(headers, i, kmalloc)
    requires l.offsets == ReadBy(headers, i) + if headers[i].load then Span(headers[i].offset, Ran(headers[i])) else {}
    requires headers[i].load ==> headers[i].filesz <= headers[i].memsz && !RunsAway(headers[i])
    requires headers[i].load ==> Said(Claimed(headers, i), Wanted(headers[i]), kmalloc(i)).Ok?
    requires NoWraps(headers, i + 1) ==> Placed(l.image, l.allocs, mm.areas, headers, l.binary, i + 1)
    ensures Loading(l, mm, headers, i + 1, kmalloc)
  {
    hide Placed, SameAreas, Claimed, Said, Wanted, RunsAway, NoWraps, Whole, Above, Span, Ran;
  }

  lemma NoWrapsOne(headers: seq<Header>, i: nat)
    requires i < |headers|
    ensures NoWraps(headers, i + 1) <==> NoWraps(headers, i) && (headers[i].load ==> HeaderOk(headers[i]))
  {
    hide HeaderOk;
  }

  /** There are not the frames for the next page of a segment, which is not mapped yet unless
      some segment wraps. */
  ghost predicate Short(l: Loader, h: Header, first: bool)
    reads l
  {
    exists la :: Next(h, la) && l.freePages <= l.Missing(la) && (first ==> la !in l.image)
  }

  lemma NextIsFree(h: Header, headers: seq<Header>, i: nat, binary: File, image0: Image, allocs0: seq<int>, areas0: seq<Area>,
                   image: Image, allocs: seq<int>, la: int)
    requires i < |headers| && headers[i] == h && h.load && HeaderWords(h) && HeaderOk(h)
    requires Placed(image0, allocs0, areas0, headers, binary, i) && Whole(image0) && Sorted(areas0)
    requires var a := Wanted(h); UserAccess(a.start, a.end) && Search(areas0, a.start) == None && !Crosses(areas0, a.start, a.end)
    requires Reached(h, binary, image0, allocs0, image, allocs, la) && Next(h, la)
    ensures la !in image
  {
    AreaOfSegment(h, Wanted(h).end);
    NewAreaUnmapped(image0, areas0, h, Wanted(h));
    var start :| InSegment(h, binary, image0, allocs0, image, allocs, start, la);
    SegmentMeans(h, binary, image0, allocs0, image, allocs, start, la);
    assert la !in image0 && la !in image.Keys;
  }

  /** One header of type PT_LOAD, number `i`; `kmalloc` answers for its area. */
  method LoadOne(l: Loader, mm: MmStruct, headers: seq<Header>, i: nat, kmalloc: nat -> bool) returns (r: LoadResult, ghost part: nat)
    requires i < |headers| && Loading(l, mm, headers, i, kmalloc) && headers[i].load && HeaderWords(headers[i])
    modifies l, mm
    ensures l.Charge() == old(l.Charge())
    ensures r == Done ==> Loading(l, mm, headers, i + 1, kmalloc)
    ensures r != Done ==> l.offsets == ReadSoFar(headers, i, part)
    ensures var said := Said(Claimed(headers, i), Wanted(headers[i]), kmalloc(i));
            r == if !said.Ok? then MapFailed(said) else if r == OutOfMemory then OutOfMemory
                 else if RunsAway(headers[i]) then RunAway(headers[i].memsz - headers[i].filesz) else Done
    ensures r == OutOfMemory ==> l.freePages <= 1 && Short(l, headers[i], NoWraps(headers, i + 1))
  {
    hide InSegment, Placed, Granted, Claimed, SegmentLoaded, Whole, Above, SameAreas, Unmapped, WholeArea, Search, Crosses,
         RunsAway, NoWraps, HeaderOk, Ran, ReadBy, Extent, Next, Reached;
    var h := headers[i];
    ghost var image0, allocs0, areas0 := l.image, l.allocs, mm.areas;
    SaidIs(areas0, Claimed(headers, i), Wanted(h), kmalloc(i));
    part := 0;
    SpanNone(h.offset);
    var m := MmMap(mm, h.va, h.memsz, h.read, h.write, false, kmalloc(i));
    if !m.Ok? {
      return MapFailed(m), part;
    }
    ClaimOne(areas0, mm.areas, headers, i);
    var s;
    ghost var top;
    s, top, part := l.LoadSegment(h);
    match s
    case NoPage =>
      NoWrapsOne(headers, i);
      if NoWraps(headers, i + 1) {
        NextIsFree(h, headers, i, l.binary, image0, allocs0, areas0, l.image, l.allocs, top);
      }
      r := OutOfMemory;
    case Runaway(size) => r := RunAway(size);
    case Loads =>
      NoWrapsOne(headers, i);
      if NoWraps(headers, i + 1) {
        OneMorePlaced(h, headers, i, l.binary, image0, allocs0, areas0, l.image, l.allocs, mm.areas, top);
      }
      LoadingNext(l, mm, headers, i, kmalloc);
      r := Done;
  }

  /** The top `n` pages of the stack are mapped, and nothing has changed below it. */
  ghost predicate Stacked(image0: Image, image: Image, n: int) {
    && Whole(image) && Above(image)
    && (forall p :: p in image ==> p in image0 || (STACK.Has(p) && Agrees(image[p].perm, STACK)))
    && (forall p :: p in image0 && !STACK.Has(p) ==> p in image && image[p] == image0[p])
    && (forall k :: 1 <= k <= n ==> StackPage(image, USERTOP - k * PGSIZE))
  }

  lemma StackOne(image0: Image, image: Image, allocs: seq<int>, n: int, page: Page)
    requires Stacked(image0, image, n - 1) && 1 <= n <= 4 && |page.data| == PGSIZE && page.perm == Perm(true, true, true)
    ensures var la := USERTOP - n * PGSIZE; Stacked(image0, image[la := page], n)
    ensures var la := USERTOP - n * PGSIZE; EachOnce(image, allocs) && la !in image ==> EachOnce(image[la := page], allocs + [la])
  {
    var la := USERTOP - n * PGSIZE;
    if EachOnce(image, allocs) && la !in image { OnceMorePage(image, allocs, la, page); }
  }

  /** There are not the frames for page `k` from the top of the stack. */
  ghost predicate ShortAt(l: Loader, k: int)
    reads l
  {
    USERTOP - k * PGSIZE !in l.image && l.freePages <= l.Missing(USERTOP - k * PGSIZE)
  }

  /** The top four pages of the stack. */
  method StackPages(l: Loader) returns (ok: bool)
    requires Whole(l.image) && Above(l.image)
    modifies l
    ensures l.Charge() == old(l.Charge()) && l.offsets == old(l.offsets) && (old(l.Served()) && ok ==> l.Served())
    ensures ok ==> Stacked(old(l.image), l.image, 4)
    ensures ok && EachOnce(old(l.image), old(l.allocs)) && (forall p :: p in old(l.image) ==> !STACK.Has(p)) ==> EachOnce(l.image, l.allocs)
    ensures !ok ==> l.freePages <= 1
    ensures !ok && (forall p :: p in old(l.image) ==> !STACK.Has(p)) ==> exists k :: 1 <= k <= 4 && ShortAt(l, k)
  {
    hide EachOnce, Stacked, UpTo, Whole, Above;
    ghost var none := forall p :: p in l.image ==> !STACK.Has(p);
    ghost var image0, fit := l.image, EachOnce(l.image, l.allocs) && none;
    StackNone(image0);
    var k := 1;
    while k <= 4
      invariant 1 <= k <= 5 && Stacked(image0, l.image, k - 1) && UpTo(image0, l.image, k - 1) && l.offsets == old(l.offsets)
      invariant fit ==> EachOnce(l.image, l.allocs)
      invariant l.Charge() == old(l.Charge()) && (old(l.Served()) ==> l.Served())
    {
      var la := USERTOP - k * PGSIZE;
      ghost var image1, allocs1, page := l.image, l.allocs, Page([], Perm(true, true, true));
      StackedIs(image0, image1, k - 1);
      StackNext(image0, image1, k);
      ok, page := l.AllocPage(la, Perm(true, true, true));
      if !ok {
        assert none ==> ShortAt(l, k);
        return;
      }
      StackOne(image0, image1, allocs1, k, page);
      k := k + 1;
    }
    ok := true;
  }

  /** Every page of `image` was in `image0` or is one of the top `n`. */
  ghost predicate UpTo(image0: Image, image: Image, n: int) {
    forall p :: p in image ==> p in image0 || USERTOP - n * PGSIZE <= p
  }

  lemma StackNext(image0: Image, image: Image, k: int)
    requires UpTo(image0, image, k - 1) && 1 <= k <= 4
    ensures (USERTOP - k * PGSIZE) % PGSIZE == 0
    ensures (forall p :: p in image0 ==> !STACK.Has(p)) ==> USERTOP - k * PGSIZE !in image
    ensures forall page {:trigger image[USERTOP - k * PGSIZE := page]} :: UpTo(image0, image[USERTOP - k * PGSIZE := page], k)
  {
  }

  lemma StackNone(image: Image)
    requires Whole(image) && Above(image)
    ensures Stacked(image, image, 0) && UpTo(image, image, 0)
  {
  }

  lemma StackedIs(image0: Image, image: Image, n: int)
    requires Stacked(image0, image, n)
    ensures Whole(image) && Above(image)
  {
  }

  /** The stack in a space whose segments are all placed. */
  lemma StackPlaced(headers: seq<Header>, binary: File, image0: Image, allocs0: seq<int>, areas0: seq<Area>, image: Image, allocs: seq<int>, areas: seq<Area>)
    requires Placed(image0, allocs0, areas0, headers, binary, |headers|) && Sorted(areas0) && Stacked(image0, image, 4)
    requires Search(areas0, STACK.start) == None && !Crosses(areas0, STACK.start, STACK.end)
    requires multiset(areas) == multiset(areas0) + multiset{STACK}
    requires (forall p :: p in image0 ==> !STACK.Has(p)) ==> EachOnce(image, allocs)
    ensures Placed(image, allocs, areas, headers, binary, |headers|)
  {
    hide AllLoaded, EachOnce, Search, Crosses;
    NothingInArea(image0, areas0, STACK);
    NowInAreas(image0, image, areas0, areas, STACK);
    AllStillLoaded(image0, image, headers, binary, |headers|);
  }

  /** Step (4): the stack area and its top four pages; without them the kernel panics. */
  method MakeStack(l: Loader, mm: MmStruct, headers: seq<Header>, kmalloc: nat -> bool) returns (r: LoadResult)
    requires Loading(l, mm, headers, |headers|, kmalloc)
    modifies l, mm
    ensures l.Charge() == old(l.Charge()) && l.offsets == old(l.offsets) && mm.Valid()
    ensures var said := Said(Claimed(headers, |headers|), STACK, kmalloc(|headers|));
            r == if !said.Ok? then MapFailed(said) else if r == StackPanic then StackPanic else Done
    ensures r == StackPanic ==> l.freePages <= 1
    ensures r == StackPanic && NoWraps(headers, |headers|) ==> exists k :: 1 <= k <= 4 && ShortAt(l, k)
    ensures r == Done ==> l.Served() && Stacked(old(l.image), l.image, 4)
    ensures r == Done && NoWraps(headers, |headers|) ==> Placed(l.image, l.allocs, mm.areas, headers, l.binary, |headers|)
    ensures r == Done ==> forall a :: a in old(mm.areas) ==> a in mm.areas
  {
    hide Placed, Stacked, Claimed, NoWraps, SameAreas, Search, Crosses, Whole, Above, EachOnce, Loading, RoundDown, RoundUp, Add,
         Sorted, Said;
    ghost var image0, allocs0, areas0 := l.image, l.allocs, mm.areas;
    LoadingParts(l, mm, headers, kmalloc);
    StackWords(areas0, Claimed(headers, |headers|), kmalloc(|headers|));
    var m := MmMap(mm, USERTOP - USTACKSIZE, USTACKSIZE, true, true, true, kmalloc(|headers|));
    if !m.Ok? {
      return MapFailed(m);
    }
    StillThere(areas0, mm.areas, STACK);
    if NoWraps(headers, |headers|) { NoStackYet(image0, allocs0, areas0, headers, l.binary); }
    var ok := StackPages(l);
    if !ok {
      return StackPanic;
    }
    if NoWraps(headers, |headers|) {
      PlacedOnce(image0, allocs0, areas0, headers, l.binary);
      StackPlaced(headers, l.binary, image0, allocs0, areas0, l.image, l.allocs, mm.areas);
    }
    r := Done;
  }

  lemma LoadingParts(l: Loader, mm: MmStruct, headers: seq<Header>, kmalloc: nat -> bool)
    requires Loading(l, mm, headers, |headers|, kmalloc)
    ensures mm.Valid() && l.Served() && Whole(l.image) && Above(l.image) && SameAreas(mm.areas, Claimed(headers, |headers|)) && Sorted(mm.areas)
    ensures NoWraps(headers, |headers|) ==> Placed(l.image, l.allocs, mm.areas, headers, l.binary, |headers|)
  {
  }

  /** mm_map's answer for the stack. */
  lemma StackWords(areas: seq<Area>, claimed: set<Area>, memory: bool)
    requires SameAreas(areas, claimed)
    ensures RoundDown(USERTOP - USTACKSIZE) == STACK.start && RoundUp(Add(USERTOP - USTACKSIZE, USTACKSIZE)) == STACK.end
    ensures UserAccess(STACK.start, STACK.end)
    ensures Said(claimed, STACK, memory) ==
            if Search(areas, STACK.start).Some? then Inval else if !memory then NoMem
            else if Crosses(areas, STACK.start, STACK.end) then Panic else Ok(STACK)
  {
    SaidIs(areas, claimed, STACK, memory);
  }

  lemma StillThere(areas0: seq<Area>, areas: seq<Area>, a: Area)
    requires multiset(areas) == multiset(areas0) + multiset{a}
    ensures forall b :: b in areas0 ==> b in areas
  {
    forall b | b in areas0 ensures b in areas { assert b in multiset(areas0) && b in multiset(areas); }
  }

  /** Every segment dealt with has its area. */
  lemma AreasThere(areas0: seq<Area>, areas: seq<Area>, headers: seq<Header>)
    requires SameAreas(areas0, Claimed(headers, |headers|)) && forall b :: b in areas0 ==> b in areas
    ensures forall j :: 0 <= j < |headers| && headers[j].load ==> HasArea(areas, headers[j])
  {
    forall j | 0 <= j < |headers| && headers[j].load ensures HasArea(areas, headers[j]) {
      assert Wanted(headers[j]) in Claimed(headers, |headers|);
      assert Wanted(headers[j]) in areas;
    }
  }

  lemma NoStackYet(image: Image, allocs: seq<int>, areas: seq<Area>, headers: seq<Header>, binary: File)
    requires Placed(image, allocs, areas, headers, binary, |headers|) && Sorted(areas)
    requires Search(areas, STACK.start) == None && !Crosses(areas, STACK.start, STACK.end)
    ensures forall p :: p in image ==> !STACK.Has(p)
  {
    NothingInArea(image, areas, STACK);
  }

  lemma PlacedOnce(image: Image, allocs: seq<int>, areas: seq<Area>, headers: seq<Header>, binary: File)
    requires Placed(image, allocs, areas, headers, binary, |headers|)
    ensures EachOnce(image, allocs)
  {
  }

  lemma NothingYet(l: Loader, mm: MmStruct, headers: seq<Header>, kmalloc: nat -> bool)
    requires mm.Valid() && mm.areas == [] && l.image == map[] && l.allocs == [] && l.mids == {} && l.leafs == {} && l.offsets == {}
    requires l.freePages <= MAXPAGES
    ensures Loading(l, mm, headers, 0, kmalloc)
  {
    assert Claimed(headers, 0) == {};
  }

  lemma NotALoad(l: Loader, mm: MmStruct, headers: seq<Header>, i: nat, kmalloc: nat -> bool)
    requires i < |headers| && Loading(l, mm, headers, i, kmalloc) && !headers[i].load
    ensures Loading(l, mm, headers, i + 1, kmalloc)
  {
    ClaimOne(mm.areas, mm.areas, headers, i);
    NoWrapsOne(headers, i);
    if NoWraps(headers, i + 1) { OneMoreLoaded(l.image, headers, l.binary, i); }
    hide AllLoaded, InAreas, EachOnce, SegmentLoaded, Claimed, Granted;
    LoadingNext(l, mm, headers, i, kmalloc);
  }

  /** A segment that wraps is not in memory at the end. */
  lemma WrapsSpoil(image: Image, headers: seq<Header>, binary: File, kmalloc: nat -> bool)
    requires Granted(headers, |headers|, kmalloc) && Above(image) && AllLoaded(image, headers, binary, |headers|)
    requires forall h :: h in headers ==> IsWord(h.va) && h.memsz < TWO64
    ensures NoWraps(headers, |headers|)
  {
    forall j | 0 <= j < |headers| && headers[j].load ensures HeaderOk(headers[j]) {
      assert headers[j] in headers && Said(Claimed(headers, j), Wanted(headers[j]), kmalloc(j)).Ok?;
      if !HeaderOk(headers[j]) { WrappedIsNotLoaded(image, headers[j], binary); }
    }
  }

  /** load_icode up to the user stack. `kmalloc(j)` answers for the area of header `j`, and of
      the stack after the last. `n` headers were dealt with, and `part` bytes of the next
      segment's file part. */
  method Load(l: Loader, mm: MmStruct, headers: seq<Header>, magic: bool, kmalloc: nat -> bool)
    returns (r: LoadResult, ghost n: nat, ghost part: nat)
    requires mm.Valid() && mm.areas == [] && l.image == map[] && l.allocs == [] && l.mids == {} && l.leafs == {} && l.offsets == {}
    requires l.freePages <= MAXPAGES && forall h :: h in headers ==> IsWord(h.va) && h.filesz < TWO64 && h.memsz < TWO64
    modifies l, mm
    ensures n <= |headers| && Granted(headers, n, kmalloc) && l.Charge() == old(l.Charge())
    ensures Within(l.offsets, l.size) <==> InsideFile(headers, n, part, l.size)
    ensures r == InvalElf <==> !magic || (n < |headers| && headers[n].load && headers[n].filesz > headers[n].memsz)
    ensures r.MapFailed? ==> n == |headers| || headers[n].load
    ensures r.MapFailed? ==> !r.why.Ok? && r.why == Said(Claimed(headers, n), if n < |headers| then Wanted(headers[n]) else STACK, kmalloc(n))
    ensures r == OutOfMemory ==> n < |headers| && headers[n].load && l.freePages <= 1 && Short(l, headers[n], NoWraps(headers, n + 1))
    ensures r.RunAway? ==> n < |headers| && headers[n].load && RunsAway(headers[n]) && r.size == headers[n].memsz - headers[n].filesz
    ensures r == StackPanic ==> n == |headers| && l.freePages <= 1
    ensures r == StackPanic && NoWraps(headers, n) ==> exists k :: 1 <= k <= 4 && ShortAt(l, k)
    ensures r == Done ==> n == |headers| && Said(Claimed(headers, n), STACK, kmalloc(n)).Ok?
    ensures r == Done ==> (AllLoaded(l.image, headers, l.binary, n) <==> NoWraps(headers, n))
    ensures r == Done && NoWraps(headers, n) ==> EachOnce(l.image, l.allocs) && InAreas(l.image, mm.areas) && Sorted(mm.areas)
    ensures r == Done && NoWraps(headers, n) ==> forall j :: 0 <= j < n && headers[j].load && headers[j].memsz > 0 ==>
              RightsIn(l.image, headers[j], RoundDown(headers[j].va), headers[j].va + headers[j].memsz)
    ensures r == Done ==> forall j :: 0 <= j < n && headers[j].load ==> HasArea(mm.areas, headers[j])
    ensures r == Done ==> forall k :: 1 <= k <= 4 ==> StackPage(l.image, USERTOP - k * PGSIZE)
    ensures r == Done ==> old(l.freePages) == l.freePages + |l.image| + |Regions(l.allocs)| + |Directories(l.allocs)|
  {
    hide Placed, Claimed, AllLoaded, Granted, NoWraps, Stacked, RunsAway, Within, InsideFile, ReadSoFar, ReadBy, Said, Loading, RightsIn, HasArea, SameAreas, RoundDown;
    NothingYet(l, mm, headers, kmalloc);
    n, part := 0, 0;
    ReadsInside(headers, 0, 0, l.size);
    NoReads(headers, 0);
    if !magic {
      GrantedNone(headers, kmalloc);
      return InvalElf, 0, 0;
    }
    var i := 0;
    while i < |headers|
      invariant 0 <= i <= |headers| && Loading(l, mm, headers, i, kmalloc)
      invariant l.Charge() == old(l.Charge())
    {
      var h := headers[i];
      LoadingMeans(l, mm, headers, i, kmalloc);
      n := i;
      if h.load {
        assert h in headers;
        if h.filesz > h.memsz {
          NoReads(headers, i);
          ReadsInside(headers, i, 0, l.size);
          return InvalElf, i, 0;
        }
        r, part := LoadOne(l, mm, headers, i, kmalloc);
        if r != Done {
          ReadsInside(headers, i, part, l.size);
          return;
        }
      } else {
        NotALoad(l, mm, headers, i, kmalloc);
      }
      i := i + 1;
    }
    n, part := |headers|, 0;
    LoadingMeans(l, mm, headers, n, kmalloc);
    NoReads(headers, n);
    ReadsInside(headers, n, 0, l.size);
    ghost var image0, areas0 := l.image, mm.areas;
    LoadingParts(l, mm, headers, kmalloc);
    r := MakeStack(l, mm, headers, kmalloc);
    if r == Done {
      Finished(l, mm, headers, image0, kmalloc);
      AreasThere(areas0, mm.areas, headers);
    }
  }

  lemma GrantedNone(headers: seq<Header>, kmalloc: nat -> bool)
    ensures Granted(headers, 0, kmalloc)
  {
  }

  lemma NoReads(headers: seq<Header>, n: nat)
    requires n <= |headers|
    ensures ReadSoFar(headers, n, 0) == ReadBy(headers, n) && ReadBy(headers, 0) == {}
  {
  }

  lemma LoadingMeans(l: Loader, mm: MmStruct, headers: seq<Header>, i: nat, kmalloc: nat -> bool)
    requires Loading(l, mm, headers, i, kmalloc)
    ensures i <= |headers| && Granted(headers, i, kmalloc) && l.offsets == ReadBy(headers, i)
  {
  }

  lemma AllRights(image: Image, headers: seq<Header>, binary: File)
    requires AllLoaded(image, headers, binary, |headers|) && NoWraps(headers, |headers|) && Whole(image)
    ensures forall j :: 0 <= j < |headers| && headers[j].load && headers[j].memsz > 0 ==>
              RightsIn(image, headers[j], RoundDown(headers[j].va), headers[j].va + headers[j].memsz)
  {
    hide SegmentLoaded, RightsIn, RoundDown, Whole;
    forall j | 0 <= j < |headers| && headers[j].load && headers[j].memsz > 0
      ensures RightsIn(image, headers[j], RoundDown(headers[j].va), headers[j].va + headers[j].memsz)
    {
      LoadedRights(image, headers[j], binary);
    }
  }

  lemma Finished(l: Loader, mm: MmStruct, headers: seq<Header>, image0: Image, kmalloc: nat -> bool)
    requires Granted(headers, |headers|, kmalloc) && l.Served() && Stacked(image0, l.image, 4) && mm.Valid()
    requires NoWraps(headers, |headers|) ==> Placed(l.image, l.allocs, mm.areas, headers, l.binary, |headers|)
    requires forall h :: h in headers ==> IsWord(h.va) && h.filesz < TWO64 && h.memsz < TWO64
    ensures AllLoaded(l.image, headers, l.binary, |headers|) <==> NoWraps(headers, |headers|)
    ensures NoWraps(headers, |headers|) ==> EachOnce(l.image, l.allocs) && InAreas(l.image, mm.areas) && Sorted(mm.areas)
    ensures NoWraps(headers, |headers|) ==> forall j :: 0 <= j < |headers| && headers[j].load && headers[j].memsz > 0 ==>
              RightsIn(l.image, headers[j], RoundDown(headers[j].va), headers[j].va + headers[j].memsz)
    ensures forall k :: 1 <= k <= 4 ==> StackPage(l.image, USERTOP - k * PGSIZE)
    ensures l.Charge() == l.freePages + |l.image| + |Regions(l.allocs)| + |Directories(l.allocs)|
  {
    hide AllLoaded, Granted, NoWraps, InAreas, EachOnce, Regions, Directories, RightsIn, RoundDown;
    if AllLoaded(l.image, headers, l.binary, |headers|) { WrapsSpoil(l.image, headers, l.binary, kmalloc); }
    if NoWraps(headers, |headers|) { AllRights(l.image, headers, l.binary); }
  }
}
