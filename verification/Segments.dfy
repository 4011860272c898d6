/** The page loops of load_icode (kern/process/proc.c): one segment of an ELF file becomes pages
    of a new address space, in 64-bit addresses that may wrap. */
module Segments {
  import opened Vma

  type Byte = bv8

  /** What the kernel reads at an offset from the start of the file: the file, and beyond its
      end, which load_icode does not check for, whatever memory holds there. */
  type File = int -> Byte

  /** A program header; `load` is p_type == ELF_PT_LOAD. */
  datatype Header = Header(load: bool, va: int, offset: nat, filesz: nat, memsz: nat, read: bool, write: bool, exec: bool)

  datatype Perm = Perm(read: bool, write: bool, exec: bool)

  /** A mapped page: its frame's contents and permission bits besides V and U. */
  datatype Page = Page(data: seq<Byte>, perm: Perm)

  /** The pages of the new address space, by the address they begin at. */
  type Image = map<int, Page>

  predicate Whole(image: Image) {
    forall p :: p in image ==> p % PGSIZE == 0 && |image[p].data| == PGSIZE
  }

  predicate ByteIs(image: Image, a: int, b: Byte) {
    RoundDown(a) in image && a % PGSIZE < |image[RoundDown(a)].data| && image[RoundDown(a)].data[a % PGSIZE] == b
  }

  /** What the file says byte `a` of the segment is. */
  function Expected(h: Header, binary: File, a: int): Byte {
    if 0 <= a - h.va < h.filesz then binary(h.offset + a - h.va) else 0
  }

  /** The segment's bytes below `hi` are in place, with its rights. */
  ghost predicate Loaded(image: Image, h: Header, binary: File, hi: int) {
    forall a :: h.va <= a < hi ==> ByteIs(image, a, Expected(h, binary, a)) && image[RoundDown(a)].perm == SegmentPerm(h)
  }

  /** The segment's addresses do not wrap. */
  predicate HeaderOk(h: Header) {
    0 <= h.va && h.va + h.memsz < TWO64
  }

  /** The fields are machine words, and the file part is no longer than the segment. */
  predicate HeaderWords(h: Header) {
    IsWord(h.va) && h.filesz <= h.memsz < TWO64
  }

  /** The bytes of the file the page loop goes through: none when their end wraps. */
  function Ran(h: Header): nat {
    if h.va + h.filesz < TWO64 then h.filesz else 0
  }

  /** The bytes of the segment there are pages for in the end. */
  function Extent(h: Header): nat {
    if HeaderOk(h) then h.memsz else Ran(h)
  }

  /** The range mm_map has accepted. */
  predicate Accepted(h: Header) {
    UserAccess(RoundDown(h.va), RoundUp(Add(h.va, h.memsz)))
  }

  /** Subtraction of machine words. */
  function Sub(a: int, b: int): int { (a - b) % TWO64 }

  /** `n` offsets into the file. */
  ghost function Span(offset: int, n: nat): (s: set<int>)
    ensures forall k :: k in s <==> offset <= k < offset + n
  {
    if n == 0 then {} else Span(offset, n - 1) + {offset + n - 1}
  }

  lemma SpanMore(offset: int, n: nat, m: nat)
    ensures Span(offset, n) + Span(offset + n, m) == Span(offset, n + m)
  {
  }

  function SegmentPerm(h: Header): Perm {
    Perm(h.read || h.write, h.write, h.exec)
  }

  /** Pages from `lo` to below `hi`. */
  ghost predicate PagesAre(keys: set<int>, old0: set<int>, lo: int, hi: int) {
    forall p :: p in keys <==> p in old0 || (p % PGSIZE == 0 && lo <= p < hi)
  }

  lemma PageIs(a: int, p: int)
    requires p % PGSIZE == 0 && p <= a < p + PGSIZE
    ensures RoundDown(a) == p && a % PGSIZE == a - p
  {
  }

  function Put(page: Page, off: nat, data: seq<Byte>): Page
    requires off + |data| <= |page.data|
  {
    page.(data := page.data[..off] + data + page.data[off + |data|..])
  }

  ghost predicate DataIs(data: seq<Byte>, h: Header, binary: File, start: int) {
    forall i :: 0 <= i < |data| ==> data[i] == Expected(h, binary, start + i)
  }

  /** Writing the next bytes of the segment into page `p`. */
  lemma PutLoads(image: Image, h: Header, binary: File, p: int, start: int, data: seq<Byte>)
    requires Whole(image) && p in image && h.va <= start && p <= start && start + |data| <= p + PGSIZE
    requires Loaded(image, h, binary, start) && image[p].perm == SegmentPerm(h)
    requires DataIs(data, h, binary, start)
    ensures var image2 := image[p := Put(image[p], start - p, data)];
            Whole(image2) && Loaded(image2, h, binary, start + |data|)
  {
    var image2 := image[p := Put(image[p], start - p, data)];
    forall a | h.va <= a < start + |data|
      ensures ByteIs(image2, a, Expected(h, binary, a)) && image2[RoundDown(a)].perm == SegmentPerm(h)
    {
      if a < start {
        assert ByteIs(image, a, Expected(h, binary, a));
        if RoundDown(a) == p { PageIs(a, p); }
      } else {
        PageIs(a, p);
        assert data[a - start] == Expected(h, binary, start + (a - start));
      }
    }
  }

  /** A page added above what is loaded, in place of whatever was mapped there. */
  lemma NewPage(image: Image, h: Header, binary: File, p: int, page: Page, start: int)
    requires Whole(image) && p % PGSIZE == 0 && |page.data| == PGSIZE && Loaded(image, h, binary, start)
    requires start <= p || start == h.va
    ensures Whole(image[p := page]) && Loaded(image[p := page], h, binary, start)
  {
    forall a | h.va <= a < start
      ensures ByteIs(image[p := page], a, Expected(h, binary, a)) && image[p := page][RoundDown(a)].perm == SegmentPerm(h)
    {
      assert ByteIs(image, a, Expected(h, binary, a));
      assert RoundDown(a) <= a < p;
    }
  }

  function Ascending(la: int, n: int): seq<int> {
    if n <= 0 then [] else Ascending(la, n - 1) + [la + (n - 1) * PGSIZE]
  }

  /** The segment is loaded below `start`, its pages below `la` are mapped, and nothing else
      has changed since `image0` and `allocs0`. */
  ghost predicate InSegment(h: Header, binary: File, image0: Image, allocs0: seq<int>, image: Image, allocs: seq<int>,
                            start: int, la: int) {
    && Whole(image) && la % PGSIZE == 0 && RoundDown(h.va) <= la
    && Loaded(image, h, binary, start)
    && PagesAre(image.Keys, image0.Keys, RoundDown(h.va), la)
    && SameOutside(image0, image, RoundDown(h.va), la)
    && PermIs(image, RoundDown(h.va), la, SegmentPerm(h))
    && Asked(allocs0, allocs, RoundDown(h.va), la)
  }

  ghost predicate PermIs(image: Image, lo: int, hi: int, perm: Perm) {
    forall p :: p in image && lo <= p < hi ==> image[p].perm == perm
  }

  /** The pages from `lo` to below `hi` have been asked for, in ascending order. */
  ghost predicate Asked(allocs0: seq<int>, allocs: seq<int>, lo: int, hi: int) {
    allocs == allocs0 + Ascending(lo, (hi - lo) / PGSIZE)
  }

  ghost predicate SameOutside(image0: Image, image: Image, lo: int, hi: int) {
    forall p :: p in image0 && !(lo <= p < hi) ==> p in image && image[p] == image0[p]
  }

  ghost predicate SamePages(image0: Image, image: Image) {
    forall p :: p in image0 ==> p in image && image[p] == image0[p]
  }

  /** `start` is in the last page mapped, or at the segment's beginning. */
  predicate At(h: Header, start: int, la: int) {
    if la == RoundDown(h.va) then start == h.va else la - PGSIZE < start <= la && h.va < start
  }

  /** No page of the segment is mapped yet. */
  ghost predicate Unmapped(image: Image, h: Header) {
    forall p :: p in image ==> !(RoundDown(h.va) <= p < h.va + h.memsz)
  }

  lemma RoundedDown(a: int)
    ensures RoundDown(a) % PGSIZE == 0 && RoundDown(a) <= a < RoundDown(a) + PGSIZE
  {
  }

  lemma OneMoreAsked(allocs0: seq<int>, allocs: seq<int>, lo: int, la: int)
    requires Asked(allocs0, allocs, lo, la) && lo % PGSIZE == 0 && la % PGSIZE == 0 && lo <= la
    ensures Asked(allocs0, allocs + [la], lo, la + PGSIZE) && (la + PGSIZE) % PGSIZE == 0
  {
    assert (la - lo) % PGSIZE == 0;
    assert (la - lo) / PGSIZE * PGSIZE == la - lo;
    assert (la + PGSIZE - lo) / PGSIZE == (la - lo) / PGSIZE + 1;
  }

  lemma PageMapped(h: Header, binary: File, image0: Image, allocs0: seq<int>, image: Image, allocs: seq<int>, start: int, la: int,
                   page: Page)
    requires InSegment(h, binary, image0, allocs0, image, allocs, start, la) && (start <= la || start == h.va)
    requires |page.data| == PGSIZE && page.perm == SegmentPerm(h)
    ensures InSegment(h, binary, image0, allocs0, image[la := page], allocs + [la], start, la + PGSIZE)
  {
    hide Asked, PermIs, RoundDown, Loaded, PagesAre, SameOutside, Whole, SegmentPerm;
    RoundedDown(h.va);
    OneMoreAsked(allocs0, allocs, RoundDown(h.va), la);
    NewPage(image, h, binary, la, page, start);
    PageAdded(image0, image, RoundDown(h.va), la, page);
  }

  lemma PageAdded(image0: Image, image: Image, base: int, la: int, page: Page)
    requires PagesAre(image.Keys, image0.Keys, base, la) && SameOutside(image0, image, base, la) && PermIs(image, base, la, page.perm)
    requires Whole(image) && base % PGSIZE == 0 && la % PGSIZE == 0 && base <= la
    ensures PagesAre(image[la := page].Keys, image0.Keys, base, la + PGSIZE)
    ensures SameOutside(image0, image[la := page], base, la + PGSIZE)
    ensures PermIs(image[la := page], base, la + PGSIZE, page.perm)
  {
    forall p ensures p in image[la := page].Keys <==> p in image0.Keys || (p % PGSIZE == 0 && base <= p < la + PGSIZE) {
      if p % PGSIZE == 0 && la <= p < la + PGSIZE { PageIs(p, la); }
    }
    forall p | p in image && la <= p < la + PGSIZE ensures p == la { PageIs(p, la); }
  }

  lemma PageWritten(h: Header, binary: File, image0: Image, allocs0: seq<int>, image: Image, allocs: seq<int>, start: int, la: int,
                    p: int, data: seq<Byte>)
    requires InSegment(h, binary, image0, allocs0, image, allocs, start, la)
    requires p in image && RoundDown(h.va) <= p < la && h.va <= start && p <= start && start + |data| <= p + PGSIZE
    requires DataIs(data, h, binary, start)
    ensures |image[p].data| == PGSIZE
    ensures InSegment(h, binary, image0, allocs0, image[p := Put(image[p], start - p, data)], allocs, start + |data|, la)
  {
    hide Asked, RoundDown, Loaded, Expected;
    PutLoads(image, h, binary, p, start, data);
    assert image[p := Put(image[p], start - p, data)].Keys == image.Keys;
  }

  lemma Nothing(h: Header, binary: File, image: Image, allocs: seq<int>)
    requires Whole(image)
    ensures InSegment(h, binary, image, allocs, image, allocs, h.va, RoundDown(h.va))
  {
    RoundedDown(h.va);
    assert allocs + [] == allocs;
  }

  /** The `size` bytes from `from` on. */
  function Bytes(binary: File, from: int, size: nat): (data: seq<Byte>)
    ensures |data| == size
  {
    seq(size, i requires 0 <= i < size => binary(from + i))
  }

  lemma FileBytes(h: Header, binary: File, start: int, from: int, size: nat)
    requires h.va <= start && start + size <= h.va + h.filesz && from == h.offset + (start - h.va)
    ensures DataIs(Bytes(binary, from, size), h, binary, start)
  {
  }

  lemma ZeroBytes(h: Header, binary: File, start: int, size: int)
    requires h.va + h.filesz <= start && 0 <= size
    ensures DataIs(seq(size, _ => 0), h, binary, start)
  {
  }

  /** The 2 MiB and the 1 GiB region of an address: the tables that serve it. */
  function Region(a: int): int { a / (512 * PGSIZE) }

  function Directory(a: int): int { a / (512 * 512 * PGSIZE) }

  /** A third-level table serves 2 MiB, a second-level table 1 GiB. */
  lemma TablesServe(a: int)
    ensures Region(a) * 0x20_0000 <= a < (Region(a) + 1) * 0x20_0000
    ensures Directory(a) * 0x4000_0000 <= a < (Directory(a) + 1) * 0x4000_0000
  {
  }

  ghost function Regions(pages: seq<int>): set<int> { set p | p in pages :: Region(p) }

  ghost function Directories(pages: seq<int>): set<int> { set p | p in pages :: Directory(p) }

  lemma OneMoreServed(pages: seq<int>, la: int)
    ensures Regions(pages + [la]) == Regions(pages) + {Region(la)}
    ensures Directories(pages + [la]) == Directories(pages) + {Directory(la)}
  {
  }

  /** Every page of the segment's area is mapped. */
  predicate WholeArea(h: Header, image: Image) {
    forall p :: RoundDown(h.va) <= p < RoundUp(h.va + h.memsz) && p % PGSIZE == 0 ==> p in image
  }

  lemma RoundedUp(a: int, top: int)
    requires 0 <= a <= USERTOP && top % PGSIZE == 0 && top - PGSIZE < a <= top
    ensures RoundUp(a) == top
  {
  }

  /** The pages come out right except that a segment of no bytes gets none, although its
      area is a page long when it begins inside a page. */
  lemma AreaMapped(h: Header, binary: File, image0: Image, allocs0: seq<int>, image: Image, allocs: seq<int>, top: int)
    requires HeaderOk(h) && h.va + h.memsz <= USERTOP && Unmapped(image0, h)
    requires InSegment(h, binary, image0, allocs0, image, allocs, h.va + h.memsz, top)
    requires if h.memsz == 0 then top == RoundDown(h.va) else top - PGSIZE < h.va + h.memsz <= top
    ensures WholeArea(h, image) <==> h.memsz > 0 || h.va % PGSIZE == 0
  {
    hide Loaded, Asked, SamePages, RoundUp;
    RoundedDown(h.va);
    if h.memsz == 0 {
      RoundedUp(h.va, if h.va % PGSIZE == 0 then h.va else RoundDown(h.va) + PGSIZE);
      assert h.va % PGSIZE != 0 ==> RoundDown(h.va) !in image.Keys;
    } else {
      RoundedUp(h.va + h.memsz, top);
      forall p | RoundDown(h.va) <= p < top && p % PGSIZE == 0 ensures p in image {
        assert p in image.Keys;
      }
    }
  }

  const EMPTY := Header(true, 0x0080_0004, 0, 0, 0, true, true, false)

  /** A segment of no bytes at 0x800004: its area holds 0x800004, and no page is mapped
      there. */
  lemma EmptySegment(binary: File, image: Image, allocs: seq<int>)
    requires InSegment(EMPTY, binary, map[], [], image, allocs, EMPTY.va, RoundDown(EMPTY.va))
    ensures UserAccess(RoundDown(EMPTY.va), RoundUp(Add(EMPTY.va, EMPTY.memsz))) && image == map[]
  {
    forall p ensures p !in image.Keys { }
  }

  // ---------------------------------------------------------------- wrapping ends

  lemma SpanNone(offset: int)
    ensures Span(offset, 0) == {}
  {
  }

  /** Where the file part ends, as a machine word. */
  lemma FileEnd(h: Header)
    requires HeaderWords(h)
    ensures Add(h.va, h.filesz) == if h.va + h.filesz < TWO64 then h.va + h.filesz else h.va + h.filesz - TWO64
    ensures h.va < Add(h.va, h.filesz) <==> Ran(h) > 0
    ensures Ran(h) > 0 ==> Add(h.va, h.filesz) == h.va + Ran(h)
  {
  }

  /** Where the segment ends: in the area, or, wrapped, in its first page before its beginning. */
  lemma SegmentEnd(h: Header)
    requires HeaderWords(h) && Accepted(h)
    ensures HeaderOk(h) ==> Add(h.va, h.memsz) == h.va + h.memsz <= USERTOP && Ran(h) == h.filesz && Extent(h) == h.memsz
    ensures !HeaderOk(h) ==> RoundDown(h.va) < Add(h.va, h.memsz) == h.va + h.memsz - TWO64 < h.va
    ensures USERBASE <= RoundDown(h.va) <= h.va <= USERTOP
  {
    AddEnd(h.va, h.memsz);
    var end := Add(h.va, h.memsz);
    if HeaderOk(h) {
      RoundUpIsAbove(end);
    } else {
      RoundUpIsPage(h.va, end);
    }
  }

  lemma AddEnd(a: int, b: int)
    requires IsWord(a) && 0 <= b < TWO64
    ensures Add(a, b) == if a + b < TWO64 then a + b else a + b - TWO64
  {
  }

  lemma RoundUpIsPage(a: int, end: int)
    requires IsWord(a) && 0 <= end < a && RoundDown(a) < RoundUp(end)
    ensures RoundDown(a) < end
  {
  }

  /** The length of the memset, from `start` in the page below `la`. */
  lemma SizeLeft(h: Header, start: int, la: int)
    requires HeaderWords(h) && Accepted(h) && start == h.va + Ran(h) < la && la - PGSIZE < start && la <= TOP
    requires HeaderOk(h) || Ran(h) > 0
    ensures var end := Add(h.va, h.memsz); var size := Sub(la - start, la - end);
            if HeaderOk(h) then size == end - start else size == h.memsz - h.filesz > PGSIZE
  {
    SegmentEnd(h);
  }

  const TOP := USERTOP + PGSIZE * MAXPAGES

  /** The loop over the file part: `part` of its bytes are behind `start`. */
  predicate InFile(h: Header, start: int, end: int, la: int, part: nat) {
    && start == h.va + part && part <= Ran(h) && la % PGSIZE == 0 && RoundDown(h.va) <= la && At(h, start, la)
    && (start < end ==> (la == RoundDown(h.va) || start == la) && part < Ran(h) && end == h.va + Ran(h))
    && (start >= end ==> part == Ran(h))
  }

  lemma FileStart(h: Header)
    requires HeaderWords(h)
    ensures InFile(h, h.va, Add(h.va, h.filesz), RoundDown(h.va), 0)
  {
    RoundedDown(h.va);
    FileEnd(h);
  }

  /** The bytes of one page. */
  function ChunkSize(start: int, end: int, la: int): int {
    PGSIZE - (start - la) - if end < la + PGSIZE then la + PGSIZE - end else 0
  }

  lemma FileStep(h: Header, start: int, end: int, la: int, part: nat)
    requires HeaderWords(h) && Accepted(h) && InFile(h, start, end, la, part) && start < end && la <= TOP
    ensures start <= la || start == h.va
    ensures Add(la, PGSIZE) == la + PGSIZE && RoundDown(h.va) <= la < la + PGSIZE && la <= start
    ensures var size := ChunkSize(start, end, la);
            && 0 < size && start + size <= la + PGSIZE && start + size <= h.va + h.filesz && Add(start, size) == start + size
            && InFile(h, start + size, end, la + PGSIZE, part + size)
  {
    hide RoundDown, Add, Accepted;
    RoundedDown(h.va);
    SegmentEnd(h);
    AddSmall(la, PGSIZE);
    NextPage(la);
    AddSmall(start, ChunkSize(start, end, la));
  }

  lemma NextPage(la: int)
    requires la % PGSIZE == 0
    ensures (la + PGSIZE) % PGSIZE == 0
  {
  }

  lemma FileDone(h: Header, start: int, end: int, la: int, part: nat)
    requires InFile(h, start, end, la, part)
    ensures start == h.va + part && la % PGSIZE == 0 && RoundDown(h.va) <= la && part <= Ran(h)
    ensures start >= end ==> part == Ran(h) && At(h, h.va + part, la)
    ensures start < end ==> part < Ran(h)
  {
  }

  /** The loop over the zeros. */
  predicate InZeros(h: Header, start: int, end: int, la: int) {
    && la % PGSIZE == 0 && RoundDown(h.va) <= la && At(h, start, la)
    && if HeaderOk(h) then h.va + h.filesz <= start <= end && (start < end ==> la == RoundDown(h.va) || start == la)
       else start == h.va + Ran(h) >= end
  }

  lemma ZeroStep(h: Header, start: int, end: int, la: int)
    requires HeaderWords(h) && Accepted(h) && InZeros(h, start, end, la) && start < end == Add(h.va, h.memsz)
    ensures HeaderOk(h) && (start <= la || start == h.va)
    ensures Add(la, PGSIZE) == la + PGSIZE && RoundDown(h.va) <= la < la + PGSIZE && la <= start
    ensures var size := ChunkSize(start, end, la);
            && 0 < size && start + size <= la + PGSIZE && Add(start, size) == start + size && h.va + h.filesz <= start
            && InZeros(h, start + size, end, la + PGSIZE)
  {
    hide RoundDown, Add, Accepted;
    RoundedDown(h.va);
    SegmentEnd(h);
    AddSmall(la, PGSIZE);
    NextPage(la);
    AddSmall(start, ChunkSize(start, end, la));
  }

  lemma ZerosDone(h: Header, start: int, end: int, la: int)
    requires HeaderWords(h) && Accepted(h) && InZeros(h, start, end, la) && start >= end == Add(h.va, h.memsz)
    ensures start == h.va + Extent(h) && At(h, start, la)
  {
    SegmentEnd(h);
  }

  /** The length of the first memset: what is left of the page the file part ended in, up to
      the end of the segment if that comes first. */
  function FirstSize(h: Header, la: int): int {
    var start, end := h.va + Ran(h), Add(h.va, h.memsz);
    if end < la then Sub(la - start, la - end) else la - start
  }

  lemma FirstZeros(h: Header, la: int)
    requires HeaderWords(h) && Accepted(h) && HeaderOk(h)
    requires la <= TOP && la % PGSIZE == 0 && RoundDown(h.va) <= la && At(h, h.va + Ran(h), la)
    ensures var start, end := h.va + Ran(h), Add(h.va, h.memsz); var size := FirstSize(h, la);
            && !RunsAway(h) && Ran(h) == h.filesz
            && (start >= la ==> InZeros(h, start, end, la))
            && (start < la ==> la - PGSIZE >= RoundDown(h.va) && la - PGSIZE < start)
            && (start < la && start != end ==>
                  0 < size <= la - start && Add(start, size) == start + size && InZeros(h, start + size, end, la)
                  && ((end < la && start + size == end) || (end >= la && start + size == la)))
  {
    hide RoundDown, Add, Accepted, Sub, At, InZeros, FirstSize;
    SegmentEnd(h);
    if h.va + Ran(h) < la {
      if h.va + Ran(h) != Add(h.va, h.memsz) { FirstInPage(h, la); }
      InLastPage(h, la);
    } else {
      FirstAtPage(h, la);
    }
  }

  lemma InLastPage(h: Header, la: int)
    requires la % PGSIZE == 0 && RoundDown(h.va) <= la && At(h, h.va + Ran(h), la) && h.va + Ran(h) < la
    ensures RoundDown(h.va) <= la - PGSIZE < h.va + Ran(h)
  {
    RoundedDown(h.va);
    PageBelowIs(RoundDown(h.va), la);
  }

  lemma PageBelowIs(p: int, la: int)
    requires p % PGSIZE == 0 && la % PGSIZE == 0
    ensures p < la ==> p <= la - PGSIZE
  {
    assert p == PGSIZE * (p / PGSIZE) && la == PGSIZE * (la / PGSIZE);
  }

  lemma FirstAtPage(h: Header, la: int)
    requires HeaderWords(h) && Accepted(h) && HeaderOk(h) && h.va + Ran(h) >= la
    requires la % PGSIZE == 0 && RoundDown(h.va) <= la && At(h, h.va + Ran(h), la)
    ensures InZeros(h, h.va + Ran(h), Add(h.va, h.memsz), la)
  {
    hide RoundDown, Add, Accepted;
    SegmentEnd(h);
  }

  lemma FirstInPage(h: Header, la: int)
    requires HeaderWords(h) && Accepted(h) && HeaderOk(h) && la <= TOP && h.va + Ran(h) < la && h.va + Ran(h) != Add(h.va, h.memsz)
    requires la % PGSIZE == 0 && RoundDown(h.va) <= la && At(h, h.va + Ran(h), la)
    ensures var start, end := h.va + Ran(h), Add(h.va, h.memsz); var size := FirstSize(h, la);
            && 0 < size <= la - start && Add(start, size) == start + size && InZeros(h, start + size, end, la)
            && ((end < la && start + size == end) || (end >= la && start + size == la))
  {
    hide RoundDown, Add, Accepted, Sub;
    SegmentEnd(h);
    InLastPage(h, la);
    SizeLeft(h, h.va + Ran(h), la);
    AddSmall(h.va + Ran(h), FirstSize(h, la));
  }

  /** The same with the end of the segment wrapped to before the page. */
  lemma FirstWrapped(h: Header, la: int)
    requires HeaderWords(h) && Accepted(h) && !HeaderOk(h)
    requires la <= TOP && la % PGSIZE == 0 && RoundDown(h.va) <= la && At(h, h.va + Ran(h), la)
    ensures var start, end := h.va + Ran(h), Add(h.va, h.memsz);
            && start > end
            && (start < la ==> FirstSize(h, la) == h.memsz - h.filesz > PGSIZE && RunsAway(h) && Ran(h) == h.filesz)
            && (start < la ==> la - PGSIZE >= RoundDown(h.va) && la - PGSIZE < start)
            && (start >= la ==> InZeros(h, start, end, la) && !RunsAway(h))
  {
    SegmentEnd(h);
    var start, end := h.va + Ran(h), Add(h.va, h.memsz);
    if start < la {
      LaIsEnd(h, la);
      SizeLeft(h, start, la);
    } else {
      LaIsStart(h, la);
    }
  }

  /** Whether the page loop ended at the end of a page. */
  lemma LaIsEnd(h: Header, la: int)
    requires la % PGSIZE == 0 && RoundDown(h.va) <= la && At(h, h.va + Ran(h), la) && h.va + Ran(h) < la
    ensures Ran(h) > 0 && (h.va + Ran(h)) % PGSIZE != 0 && la > RoundDown(h.va)
  {
    RoundedDown(h.va);
  }

  lemma LaIsStart(h: Header, la: int)
    requires la % PGSIZE == 0 && RoundDown(h.va) <= la && At(h, h.va + Ran(h), la) && h.va + Ran(h) >= la
    ensures (h.va + Ran(h)) % PGSIZE == 0 || Ran(h) == 0
  {
  }

  // ---------------------------------------------------------------- what was loaded

  /** All pages lie in user space, above the first addresses. */
  ghost predicate Above(image: Image) {
    forall p :: p in image ==> USERBASE <= p
  }

  /** The segment byte by byte, at the addresses machine words give. */
  ghost predicate SegmentLoaded(image: Image, h: Header, binary: File) {
    forall i :: 0 <= i < h.memsz ==> WordLoaded(image, h, binary, i)
  }

  ghost predicate WordLoaded(image: Image, h: Header, binary: File, i: int) {
    var a := Add(h.va, i);
    ByteIs(image, a, Expected(h, binary, h.va + i)) && image[RoundDown(a)].perm == SegmentPerm(h)
  }

  lemma LoadedIsAll(image: Image, h: Header, binary: File)
    requires HeaderOk(h)
    ensures Loaded(image, h, binary, h.va + h.memsz) <==> SegmentLoaded(image, h, binary)
  {
    hide Expected, RoundDown, Add;
    forall i | 0 <= i < h.memsz ensures Add(h.va, i) == h.va + i { AddSmall(h.va, i); }
    if SegmentLoaded(image, h, binary) {
      forall a | h.va <= a < h.va + h.memsz
        ensures ByteIs(image, a, Expected(h, binary, a)) && image[RoundDown(a)].perm == SegmentPerm(h)
      {
        assert WordLoaded(image, h, binary, a - h.va);
      }
    }
    if Loaded(image, h, binary, h.va + h.memsz) {
      forall i | 0 <= i < h.memsz ensures WordLoaded(image, h, binary, i) {
        assert h.va <= h.va + i < h.va + h.memsz;
      }
    }
  }

  /** A segment that wraps has a byte at address 0, where no page is. */
  lemma WrappedIsNotLoaded(image: Image, h: Header, binary: File)
    requires HeaderWords(h) && Accepted(h) && !HeaderOk(h) && Above(image)
    ensures !SegmentLoaded(image, h, binary)
  {
    SegmentEnd(h);
    var i := TWO64 - h.va;
    assert Add(h.va, i) == 0;
    assert !WordLoaded(image, h, binary, i);
  }

  /** The pages from `lo` to below `hi` are writable and executable as the header says, and
      readable when it says readable or writable. */
  ghost predicate RightsIn(image: Image, h: Header, lo: int, hi: int) {
    forall p :: p in image && lo <= p < hi ==>
      && (image[p].perm.write <==> h.write)
      && (image[p].perm.exec <==> h.exec)
      && (image[p].perm.read <==> h.read || h.write)
  }

  lemma SegmentRights(h: Header, binary: File, image0: Image, allocs0: seq<int>, image: Image, allocs: seq<int>, start: int, top: int)
    requires InSegment(h, binary, image0, allocs0, image, allocs, start, top)
    ensures RightsIn(image, h, RoundDown(h.va), top)
  {
  }

  /** A segment that is in memory has its rights on all its pages. */
  lemma LoadedRights(image: Image, h: Header, binary: File)
    requires HeaderOk(h) && h.memsz > 0 && SegmentLoaded(image, h, binary) && Whole(image)
    ensures RightsIn(image, h, RoundDown(h.va), h.va + h.memsz)
  {
    forall p | p in image && RoundDown(h.va) <= p < h.va + h.memsz ensures image[p].perm == SegmentPerm(h) {
      var a := if p < h.va then h.va else p;
      PageOfByte(h.va, p);
      AddSmall(h.va, a - h.va);
      assert WordLoaded(image, h, binary, a - h.va);
    }
  }

  lemma PageOfByte(va: int, p: int)
    requires p % PGSIZE == 0 && RoundDown(va) <= p
    ensures RoundDown(if p < va then va else p) == p
  {
  }

  lemma SegmentIs(h: Header, binary: File, image0: Image, allocs0: seq<int>, image: Image, allocs: seq<int>, top: int)
    requires HeaderWords(h) && Accepted(h) && Above(image0)
    requires InSegment(h, binary, image0, allocs0, image, allocs, h.va + Extent(h), top) && At(h, h.va + Extent(h), top)
    ensures Whole(image) && Above(image) && (SegmentLoaded(image, h, binary) <==> HeaderOk(h))
    ensures if Extent(h) == 0 then top == RoundDown(h.va) else top - PGSIZE < h.va + Extent(h) <= top
    ensures Extent(h) == 0 ==> image == image0
    ensures HeaderOk(h) && Unmapped(image0, h) ==> (WholeArea(h, image) <==> h.memsz > 0 || h.va % PGSIZE == 0)
  {
    hide Loaded, SegmentLoaded, Asked, Unmapped, WholeArea, Accepted, Above;
    SegmentEnd(h);
    AboveStays(h, binary, image0, allocs0, image, allocs, h.va + Extent(h), top);
    TopIs(h, top);
    if HeaderOk(h) {
      LoadedIsAll(image, h, binary);
      if Unmapped(image0, h) { AreaMapped(h, binary, image0, allocs0, image, allocs, top); }
    } else {
      WrappedIsNotLoaded(image, h, binary);
    }
    if Extent(h) == 0 { NothingMapped(h, binary, image0, allocs0, image, allocs, h.va + Extent(h)); }
  }

  lemma TopIs(h: Header, top: int)
    requires top % PGSIZE == 0 && RoundDown(h.va) <= top && At(h, h.va + Extent(h), top)
    ensures if Extent(h) == 0 then top == RoundDown(h.va) else top - PGSIZE < h.va + Extent(h) <= top
  {
    RoundedDown(h.va);
  }

  lemma AboveStays(h: Header, binary: File, image0: Image, allocs0: seq<int>, image: Image, allocs: seq<int>, start: int, top: int)
    requires Above(image0) && RoundDown(h.va) >= USERBASE
    requires InSegment(h, binary, image0, allocs0, image, allocs, start, top)
    ensures Above(image)
  {
    forall p | p in image ensures USERBASE <= p {
      assert p in image.Keys;
    }
  }

  lemma NothingMapped(h: Header, binary: File, image0: Image, allocs0: seq<int>, image: Image, allocs: seq<int>, start: int)
    requires InSegment(h, binary, image0, allocs0, image, allocs, start, RoundDown(h.va))
    ensures image == image0
  {
    forall p ensures p in image.Keys <==> p in image0.Keys { }
    forall p | p in image0 ensures image[p] == image0[p] { }
  }

  // ---------------------------------------------------------------- the machine

  /** KMEMSIZE, the most physical memory there is, in pages. */
  const MAXPAGES := 0x7E0_0000 / PGSIZE

  lemma {:induction false} RunSize(keys: set<int>, base: int, n: nat)
    requires forall i :: 0 <= i < n ==> base + i * PGSIZE in keys
    ensures n <= |keys|
  {
    if n > 0 {
      var last := base + (n - 1) * PGSIZE;
      forall i | 0 <= i < n - 1 ensures base + i * PGSIZE in keys - {last} { }
      RunSize(keys - {last}, base, n - 1);
    }
  }

  /** The pages of a segment lie close together: there are no more than the machine has. */
  lemma PagesClose(h: Header, binary: File, image0: Image, allocs0: seq<int>, image: Image, allocs: seq<int>, start: int, la: int)
    requires InSegment(h, binary, image0, allocs0, image, allocs, start, la)
    ensures la <= RoundDown(h.va) + PGSIZE * |image|
  {
    hide Loaded, Asked, SameOutside;
    RoundedDown(h.va);
    var base := RoundDown(h.va);
    var n := (la - base) / PGSIZE;
    PageCount(base, la);
    forall i | 0 <= i < n ensures base + i * PGSIZE in image.Keys {
      PageOfRun(base, la, i);
    }
    RunSize(image.Keys, base, n);
    assert |image.Keys| == |image| by { KeysSize(image); }
  }

  lemma KeysSize(image: Image)
    ensures |image.Keys| == |image|
  {
  }

  lemma PageCount(base: int, la: int)
    requires base % PGSIZE == 0 && la % PGSIZE == 0 && base <= la
    ensures (la - base) / PGSIZE * PGSIZE == la - base && (la - base) / PGSIZE >= 0
  {
    assert (la - base) % PGSIZE == 0;
  }

  lemma PageOfRun(base: int, la: int, i: int)
    requires base % PGSIZE == 0 && la % PGSIZE == 0 && base <= la && 0 <= i < (la - base) / PGSIZE
    ensures (base + i * PGSIZE) % PGSIZE == 0 && base <= base + i * PGSIZE < la
  {
    PageCount(base, la);
  }

  lemma AddSmall(a: int, b: int)
    requires 0 <= a + b < TWO64
    ensures Add(a, b) == a + b
  {
  }

  lemma PutSize(image: Image, la: int, page: Page)
    ensures |image[la := page]| == |image| + if la in image then 0 else 1
  {
    if la in image {
      assert image[la := page].Keys == image.Keys;
      KeysSize(image);
      KeysSize(image[la := page]);
    } else {
      assert image[la := page].Keys == image.Keys + {la};
      KeysSize(image);
      KeysSize(image[la := page]);
    }
  }

  /** What becomes of one segment. `Runaway` is a memset whose length is a wrapped negative
      number; what it destroys is not followed. */
  datatype SegResult = Loads | NoPage | Runaway(size: int)

  /** The page loops end in the middle of a page of the file's while the end of the segment
      has wrapped to before it. */
  predicate RunsAway(h: Header) {
    !HeaderOk(h) && Ran(h) > 0 && (h.va + Ran(h)) % PGSIZE != 0
  }

  /** The address of a page of the segment. */
  predicate Next(h: Header, la: int) {
    la % PGSIZE == 0 && RoundDown(h.va) <= la < h.va + Extent(h)
  }

  /** The pages of the segment below `la` are mapped, and that one is next. */
  ghost predicate Reached(h: Header, binary: File, image0: Image, allocs0: seq<int>, image: Image, allocs: seq<int>, la: int) {
    exists start :: InSegment(h, binary, image0, allocs0, image, allocs, start, la)
  }

  lemma FileNext(h: Header, start: int, end: int, la: int, part: nat)
    requires HeaderWords(h) && InFile(h, start, end, la, part) && start < end && la <= start
    ensures Next(h, la)
  {
  }

  lemma ZeroNext(h: Header, start: int, end: int, la: int)
    requires HeaderWords(h) && Accepted(h) && InZeros(h, start, end, la) && start < end == Add(h.va, h.memsz) && la <= start
    ensures Next(h, la)
  {
    SegmentEnd(h);
  }

  class Loader {
    const binary: File
    const size: nat                 // the length of the file
    var image: Image
    var freePages: nat
    var mids: set<int>              // the directories that have a second-level table
    var leafs: set<int>             // the regions that have a third-level table
    ghost var allocs: seq<int>      // the pages asked for, in order
    ghost var offsets: set<int>     // the offsets of the file's bytes read

    constructor (file: File, length: nat, pages: nat)
      requires pages <= MAXPAGES
      ensures binary == file && size == length && image == map[] && freePages == pages && allocs == [] && offsets == {}
      ensures mids == {} && leafs == {}
    {
      binary, size, image, freePages, mids, leafs, allocs, offsets := file, length, map[], pages, {}, {}, [], {};
    }

    /** Frames are free, pages or page tables. */
    ghost function Charge(): nat
      reads `freePages, `image, `mids, `leafs
    {
      freePages + |image| + |mids| + |leafs|
    }

    /** There are the tables the pages need and no others. */
    ghost predicate Served()
      reads `leafs, `mids, `allocs
    {
      leafs == Regions(allocs) && mids == Directories(allocs)
    }

    /** Tables still to be built for a page at `la`. */
    function Missing(la: int): int
      reads this
    {
      (if Directory(la) in mids then 0 else 1) + (if Region(la) in leafs then 0 else 1)
    }

    lemma MissingAtLeast(la: int)
      ensures Missing(la) >= 0
    {
    }

    /** What a frame holds when it is handed out. */
    method AnyPage() returns (data: seq<Byte>)
      ensures |data| == PGSIZE
    {
      assert |seq(PGSIZE, _ => 0 as Byte)| == PGSIZE;
      data :| |data| == PGSIZE;
    }

    /** get_pte: the missing tables for a page at `la`. */
    method GetTables(la: int) returns (ok: bool)
      modifies `freePages, `mids, `leafs
      ensures Charge() == old(Charge())
      ensures ok <==> old(freePages) >= old(Missing(la))
      ensures ok ==> freePages == old(freePages) - old(Missing(la))
      ensures ok ==> mids == old(mids) + {Directory(la)} && leafs == old(leafs) + {Region(la)}
      ensures !ok ==> freePages == 0 && Missing(la) >= 1
    {
      if Directory(la) !in mids {
        if freePages == 0 {
          return false;
        }
        freePages, mids := freePages - 1, mids + {Directory(la)};
      }
      if Region(la) !in leafs {
        if freePages == 0 {
          return false;
        }
        freePages, leafs := freePages - 1, leafs + {Region(la)};
      }
      ok := true;
    }

    /** pgdir_alloc_page: any frame, with whatever it held, and one for each missing table;
        the frame is given back when a table cannot be had, and so is that of a page mapped
        there before. */
    method AllocPage(la: int, perm: Perm) returns (ok: bool, ghost page: Page)
      requires Whole(image) && la % PGSIZE == 0
      modifies `image, `freePages, `mids, `leafs, `allocs
      ensures Charge() == old(Charge()) && (old(Served()) && ok ==> Served())
      ensures ok <==> old(freePages) > old(Missing(la))
      ensures ok ==> freePages == old(freePages) - old(Missing(la)) - if la in old(image) then 0 else 1
      ensures ok ==> |page.data| == PGSIZE && page.perm == perm && image == old(image)[la := page]
      ensures ok ==> allocs == old(allocs) + [la]
      ensures !ok ==> image == old(image) && allocs == old(allocs) && freePages <= 1 && freePages <= Missing(la)
    {
      hide Regions, Directories, Region, Directory, Whole;
      MissingAtLeast(la);
      page := Page([], perm);
      if freePages == 0 {
        return false, page;
      }
      freePages := freePages - 1;
      ok := GetTables(la);
      if !ok {
        freePages := freePages + 1;
        return;
      }
      var data := AnyPage();
      page := Page(data, perm);
      Install(la, Page(data, perm));
    }

    /** The end of page_insert, with the frame of `page` in hand. */
    method Install(la: int, page: Page)
      modifies `image, `freePages, `allocs
      ensures Charge() == old(Charge()) + 1 && image == old(image)[la := page] && allocs == old(allocs) + [la]
      ensures freePages == old(freePages) + if la in old(image) then 1 else 0
      ensures old(leafs == Regions(allocs) + {Region(la)} && mids == Directories(allocs) + {Directory(la)}) ==> Served()
    {
      hide Regions, Directories, Region, Directory;
      OneMoreServed(allocs, la);
      PutSize(image, la, page);
      if la in image {
        freePages := freePages + 1;
      }
      image, allocs := image[la := page], allocs + [la];
    }

    /** A page for the segment at `la`. */
    method MapNext(h: Header, start: int, la: int, ghost image0: Image, ghost allocs0: seq<int>) returns (ok: bool)
      requires InSegment(h, binary, image0, allocs0, image, allocs, start, la) && (start <= la || start == h.va)
      modifies `image, `freePages, `mids, `leafs, `allocs
      ensures ok ==> InSegment(h, binary, image0, allocs0, image, allocs, start, la + PGSIZE) && la in image
      ensures !ok ==> InSegment(h, binary, image0, allocs0, image, allocs, start, la) && freePages <= 1 && freePages <= Missing(la)
      ensures Charge() == old(Charge()) && (old(Served()) && ok ==> Served())
    {
      ghost var image1, allocs1 := image, allocs;
      ghost var page;
      ok, page := AllocPage(la, SegmentPerm(h));
      if ok {
        PageMapped(h, binary, image0, allocs0, image1, allocs1, start, la, page);
      }
    }

    /** memcpy or memset into the page at `p`, from `start` on. */
    method Write(h: Header, start: int, la: int, p: int, data: seq<Byte>, ghost image0: Image, ghost allocs0: seq<int>)
      requires InSegment(h, binary, image0, allocs0, image, allocs, start, la)
      requires p in image && RoundDown(h.va) <= p < la && h.va <= start && p <= start && start + |data| <= p + PGSIZE
      requires DataIs(data, h, binary, start)
      modifies `image
      ensures InSegment(h, binary, image0, allocs0, image, allocs, start + |data|, la) && image.Keys == old(image.Keys)
      ensures Charge() == old(Charge())
    {
      PageWritten(h, binary, image0, allocs0, image, allocs, start, la, p, data);
      hide InSegment;
      PutSize(image, p, Put(image[p], start - p, data));
      image := image[p := Put(image[p], start - p, data)];
    }

    /** Nothing of the segment is mapped yet. */
    ghost predicate Ready(h: Header, image0: Image, allocs0: seq<int>)
      reads this
    {
      && HeaderWords(h) && Accepted(h) && Charge() <= MAXPAGES
      && InSegment(h, binary, image0, allocs0, image, allocs, h.va, RoundDown(h.va))
    }

    /** Step (3.6.1): the bytes of the file, none when their end wraps. `page` is the last page
        mapped; `part` bytes are in place. */
    method LoadFile(h: Header, ghost image0: Image, ghost allocs0: seq<int>) returns (ok: bool, la: int, page: int, ghost part: nat)
      requires Ready(h, image0, allocs0)
      modifies `image, `freePages, `mids, `leafs, `allocs, `offsets
      ensures Charge() == old(Charge()) && (old(Served()) && ok ==> Served())
      ensures InSegment(h, binary, image0, allocs0, image, allocs, h.va + part, la)
      ensures offsets == old(offsets) + Span(h.offset, part)
      ensures if ok then part == Ran(h) else part < Ran(h) && freePages <= 1
      ensures !ok ==> freePages <= Missing(la) && Next(h, la)
      ensures ok ==> At(h, h.va + part, la) && la <= TOP
      ensures ok ==> RoundDown(h.va) <= la && la % PGSIZE == 0 && (la > RoundDown(h.va) ==> page == la - PGSIZE && page in image)
    {
      hide InSegment, RoundDown, Add, Span, At, InFile, Accepted, Charge, Served, Ran, HeaderWords, Next;
      FileStart(h);
      SegmentEnd(h);
      SpanNone(h.offset);
      var start, end, from := h.va, Add(h.va, h.filesz), h.offset;
      la := RoundDown(h.va);
      page := la;
      part := 0;
      while start < end
        invariant InSegment(h, binary, image0, allocs0, image, allocs, start, la) && InFile(h, start, end, la, part)
        invariant start == h.va + part && from == h.offset + part
        invariant Charge() == old(Charge()) && (old(Served()) ==> Served())
        invariant offsets == old(offsets) + Span(h.offset, part)
        invariant la > RoundDown(h.va) ==> page == la - PGSIZE && page in image
        decreases end - start
      {
        SmallEnough(h, start, la, image0, allocs0);
        FileStep(h, start, end, la, part);
        FileDone(h, start, end, la, part);
        FileNext(h, start, end, la, part);
        ok := MapNext(h, start, la, image0, allocs0);
        if !ok {
          return;
        }
        page := la;
        var off := start - la;
        var size := PGSIZE - off;
        la := Add(la, PGSIZE);
        if end < la {
          size := size - (la - end);
        }
        CopyFile(h, start, la, page, from, size, part, image0, allocs0);
        start, from, part := Add(start, size), from + size, part + size;
      }
      SmallEnough(h, start, la, image0, allocs0);
      FileDone(h, start, end, la, part);
      ok := true;
    }

    /** memcpy of the next `size` bytes of the file. */
    method CopyFile(h: Header, start: int, la: int, p: int, from: int, size: nat, ghost part: nat, ghost image0: Image, ghost allocs0: seq<int>)
      requires InSegment(h, binary, image0, allocs0, image, allocs, start, la)
      requires p in image && RoundDown(h.va) <= p < la && h.va <= start && p <= start && start + size <= p + PGSIZE
      requires start == h.va + part && start + size <= h.va + h.filesz && from == h.offset + part
      modifies `image, `offsets
      ensures InSegment(h, binary, image0, allocs0, image, allocs, start + size, la) && image.Keys == old(image.Keys)
      ensures Charge() == old(Charge())
      ensures offsets == old(offsets) + Span(from, size) && Span(h.offset, part) + Span(from, size) == Span(h.offset, part + size)
    {
      hide InSegment, DataIs, RoundDown, Span;
      FileBytes(h, binary, start, from, size);
      Write(h, start, la, p, Bytes(binary, from, size), image0, allocs0);
      SpanMore(h.offset, part, size);
      offsets := offsets + Span(from, size);
    }

    lemma SmallEnough(h: Header, start: int, la: int, image0: Image, allocs0: seq<int>)
      requires InSegment(h, binary, image0, allocs0, image, allocs, start, la) && Charge() <= MAXPAGES && RoundDown(h.va) <= USERTOP
      ensures la <= TOP
    {
      PagesClose(h, binary, image0, allocs0, image, allocs, start, la);
    }

    /** Step (3.6.2): zeros up to p_memsz, first in the page the file ended in. */
    method LoadZeros(h: Header, la0: int, page0: int, ghost image0: Image, ghost allocs0: seq<int>) returns (r: SegResult, ghost top: int)
      requires HeaderWords(h) && Accepted(h) && la0 <= TOP
      requires InSegment(h, binary, image0, allocs0, image, allocs, h.va + Ran(h), la0) && At(h, h.va + Ran(h), la0)
      requires RoundDown(h.va) <= la0 && la0 % PGSIZE == 0 && (la0 > RoundDown(h.va) ==> page0 == la0 - PGSIZE && page0 in image)
      modifies `image, `freePages, `mids, `leafs, `allocs
      ensures Charge() == old(Charge()) && (old(Served()) && r != NoPage ==> Served())
      ensures r == NoPage ==> freePages <= 1 && freePages <= Missing(top) && Next(h, top)
      ensures r == NoPage ==> Reached(h, binary, image0, allocs0, image, allocs, top)
      ensures r.Runaway? <==> RunsAway(h)
      ensures r.Runaway? ==> r.size == h.memsz - h.filesz > PGSIZE
      ensures r == Loads ==> InSegment(h, binary, image0, allocs0, image, allocs, h.va + Extent(h), top) && At(h, h.va + Extent(h), top)
      ensures !HeaderOk(h) ==> image == old(image) && top == la0
    {
      hide InSegment, DataIs, RoundDown, Add, Sub, At, InZeros, Accepted, RunsAway, Extent, Charge, Served, Ran, HeaderWords, FirstSize, Next;
      if HeaderOk(h) { FirstZeros(h, la0); } else { FirstWrapped(h, la0); }
      var start, end, la, page := h.va + Ran(h), Add(h.va, h.memsz), la0, page0;
      if start < la {
        if start == end {
          AtEnd(h);
          return Loads, la;
        }
        var runaway, size := ClearRest(h, start, end, la, page, image0, allocs0);
        if runaway {
          return Runaway(size), la;
        }
        start := Add(start, size);
        assert (end < la && start == end) || (end >= la && start == la);
      }
      while start < end
        invariant InSegment(h, binary, image0, allocs0, image, allocs, start, la) && InZeros(h, start, end, la)
        invariant !HeaderOk(h) ==> image == old(image) && la == la0
        invariant Charge() == old(Charge()) && (old(Served()) ==> Served()) && !RunsAway(h)
        decreases end - start
      {
        ZeroStep(h, start, end, la);
        ZeroNext(h, start, end, la);
        var ok := MapNext(h, start, la, image0, allocs0);
        if !ok {
          return NoPage, la;
        }
        page := la;
        var off := start - la;
        var size := PGSIZE - off;
        la := Add(la, PGSIZE);
        if end < la {
          size := size - (la - end);
        }
        ZeroBytes(h, binary, start, size);
        Write(h, start, la, page, seq(size, _ => 0), image0, allocs0);
        start := Add(start, size);
      }
      ZerosDone(h, start, end, la);
      r, top := Loads, la;
    }

    /** The first memset, which clears the rest of the page the file part ended in. One that
        would leave the page is not carried out here. */
    method ClearRest(h: Header, start: int, end: int, la: int, page: int, ghost image0: Image, ghost allocs0: seq<int>)
      returns (runaway: bool, size: int)
      requires start == h.va + Ran(h) < la && end == Add(h.va, h.memsz) && page == la - PGSIZE && page in image
      requires RoundDown(h.va) <= page < start && h.filesz == Ran(h)
      requires InSegment(h, binary, image0, allocs0, image, allocs, start, la) && (HeaderOk(h) ==> 0 < FirstSize(h, la) <= la - start)
      requires !HeaderOk(h) ==> FirstSize(h, la) > PGSIZE
      modifies `image
      ensures size == FirstSize(h, la) && (runaway <==> !HeaderOk(h)) && Charge() == old(Charge())
      ensures runaway ==> image == old(image)
      ensures !runaway ==> InSegment(h, binary, image0, allocs0, image, allocs, start + size, la)
    {
      hide InSegment, DataIs, RoundDown, Add, Sub;
      var off := start + PGSIZE - la;
      size := PGSIZE - off;
      if end < la {
        size := Sub(size, la - end);
      }
      runaway := off + size > PGSIZE;
      if !runaway {
        ZeroBytes(h, binary, start, size);
        Write(h, start, la, page, seq(size, _ => 0), image0, allocs0);
      }
    }

    lemma AtEnd(h: Header)
      requires HeaderWords(h) && Accepted(h) && HeaderOk(h)
      ensures h.va + Ran(h) == Add(h.va, h.memsz) ==> h.va + Ran(h) == h.va + Extent(h)
    {
      SegmentEnd(h);
    }

    /** One segment, as mm_map has accepted it. Its bytes are those of the file followed by
        zeros exactly when its end does not wrap. When it does, the file part is still loaded
        if its own end does not wrap too, past the end of the area; then either the end of the
        file part ends a page and the rest of the segment is left out, or the memset for the
        rest gets its whole length. */
    method LoadSegment(h: Header) returns (r: SegResult, ghost top: int, ghost part: nat)
      requires HeaderWords(h) && Accepted(h) && Charge() <= MAXPAGES && Whole(image) && Above(image)
      modifies `image, `freePages, `mids, `leafs, `allocs, `offsets
      ensures Charge() == old(Charge()) && (old(Served()) && r == Loads ==> Served())
      ensures r == NoPage ==> freePages <= 1 && freePages <= Missing(top) && Next(h, top)
      ensures r == NoPage ==> Reached(h, binary, old(image), old(allocs), image, allocs, top)
      ensures r.Runaway? <==> r != NoPage && RunsAway(h)
      ensures r.Runaway? ==> r.size == h.memsz - h.filesz > PGSIZE
      ensures offsets == old(offsets) + Span(h.offset, part) && part <= Ran(h) && (r != NoPage ==> part == Ran(h))
      ensures r == Loads ==> InSegment(h, binary, old(image), old(allocs), image, allocs, h.va + Extent(h), top)
      ensures r == Loads ==> if Extent(h) == 0 then top == RoundDown(h.va) else top - PGSIZE < h.va + Extent(h) <= top
      ensures r == Loads ==> Whole(image) && Above(image) && (SegmentLoaded(image, h, binary) <==> HeaderOk(h))
      ensures r == Loads ==> RightsIn(image, h, RoundDown(h.va), top)
      ensures r == Loads && !HeaderOk(h) && Ran(h) == 0 ==> image == old(image)
      ensures r == Loads && HeaderOk(h) && Unmapped(old(image), h) ==> (WholeArea(h, image) <==> h.memsz > 0 || h.va % PGSIZE == 0)
    {
      hide InSegment, Unmapped, WholeArea, Above, Whole, SegmentLoaded, RightsIn, Accepted, Charge, Served, HeaderWords, RunsAway, At, Next;
      ghost var image0, allocs0 := image, allocs;
      Nothing(h, binary, image, allocs);
      var ok, la, page;
      ok, la, page, part := LoadFile(h, image0, allocs0);
      if !ok {
        return NoPage, la, part;
      }
      r, top := LoadZeros(h, la, page, image0, allocs0);
      if r == Loads {
        SegmentIs(h, binary, image0, allocs0, image, allocs, top);
        SegmentRights(h, binary, image0, allocs0, image, allocs, h.va + Extent(h), top);
      }
    }

  }
}
