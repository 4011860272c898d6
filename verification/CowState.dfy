/** The memory state behind copy-on-write: reference counts of page frames and the leaf
    entries that map them, and one address space per process (mm_struct with its page
    table). Virtual addresses are held as page numbers. */
module CowState {
  import opened Mmu

  const PGSIZE := 4096
  const NPTEENTRY := 512
  const USERBASE := 0x200       // 0x00200000 / PGSIZE
  const USERTOP := 0x80000      // 0x80000000 / PGSIZE

  type Byte = bv8
  type PageData = s: seq<Byte> | |s| == PGSIZE witness seq(PGSIZE, _ => 0)

  /** A leaf slot: the entry for one page of one address space. */
  datatype Slot = Slot(mm: nat, page: nat)

  /** A valid leaf entry: the frame it maps and its flag bits. */
  datatype Pte = Pte(frame: nat, flags: Flags)

  /** The valid leaf entries of all page tables. */
  type Ptes = map<Slot, Pte>

  /** A virtual memory area [start, end), with its VM_WRITE flag. */
  datatype Area = Area(start: nat, end: nat, write: bool)

  /** One mm_struct, without its leaf entries. `d1` and `d0` are the frames of the present
      second- and third-level tables, by 1 GiB and by 2 MiB region. */
  datatype Space = Space(root: nat, d1: map<nat, nat>, d0: map<nat, nat>, areas: seq<Area>)

  type Spaces = map<nat, Space>

  // ------------------------------------------------------ reference counting

  /** Every slot whose valid entry maps frame `f`. */
  ghost function Mappers(ptes: Ptes, f: nat): set<Slot> {
    set x | x in ptes && ptes[x].frame == f
  }

  lemma MappersPut(ptes: Ptes, x: Slot, pte: Pte, f: nat)
    ensures |Mappers(ptes[x := pte], f)|
         == |Mappers(ptes, f)| - (if x in Mappers(ptes, f) then 1 else 0) + (if pte.frame == f then 1 else 0)
  {
    MappersDrop(ptes, x, f);
    var rest := Mappers(ptes - {x}, f);
    if pte.frame == f {
      assert Mappers(ptes[x := pte], f) == rest + {x};
    } else {
      assert Mappers(ptes[x := pte], f) == rest;
    }
  }

  lemma MappersDrop(ptes: Ptes, x: Slot, f: nat)
    ensures Mappers(ptes - {x}, f) == Mappers(ptes, f) - {x}
    ensures |Mappers(ptes - {x}, f)| == |Mappers(ptes, f)| - (if x in Mappers(ptes, f) then 1 else 0)
  {
    assert Mappers(ptes - {x}, f) == Mappers(ptes, f) - {x};
    assert Mappers(ptes, f) == Mappers(ptes, f) - {x} + (if x in Mappers(ptes, f) then {x} else {});
  }

  lemma OneMapper(ptes: Ptes, f: nat, x: Slot, y: Slot)
    requires |Mappers(ptes, f)| == 1
    requires x in Mappers(ptes, f) && y in Mappers(ptes, f)
    ensures x == y
  {
    assert |Mappers(ptes, f) - {x}| == 0;
    assert y !in Mappers(ptes, f) - {x};
  }

  /** Reference counts are exact and the frames are partitioned. `kernel` are the frames
      the kernel keeps for itself (page tables and anything else no leaf entry maps),
      `held` those just taken from the allocator and not mapped yet; of the others a frame
      is free exactly when nothing maps it. */
  ghost predicate Frames(ptes: Ptes, ref: seq<int>, free: set<nat>, kernel: set<nat>, held: set<nat>) {
    && free !! kernel && held !! free && held !! kernel
    && (forall f :: f in free || f in kernel || f in held ==> f < |ref|)
    && (forall x :: x in ptes ==> ptes[x].frame < |ref| && ptes[x].frame !in kernel)
    && (forall f :: 0 <= f < |ref| && f !in kernel ==> Counted(ptes, ref[f], f, f in free || f in held))
  }

  ghost predicate Counted(ptes: Ptes, count: int, f: nat, idle: bool) {
    count == |Mappers(ptes, f)| && (count == 0 <==> idle)
  }

  /** A writable entry maps a frame nobody else maps. */
  predicate WritersAlone(ptes: Ptes, ref: seq<int>) {
    forall x :: x in ptes && ptes[x].flags.w ==> ptes[x].frame < |ref| && ref[ptes[x].frame] == 1
  }

  // --------------------------------------------------------- address spaces

  predicate In(a: Area, v: nat) {
    a.start <= v < a.end
  }

  predicate AreaAt(areas: seq<Area>, v: nat) {
    exists a :: a in areas && In(a, v)
  }

  predicate WritableAt(areas: seq<Area>, v: nat) {
    exists a :: a in areas && In(a, v) && a.write
  }

  /** The area list is sorted, disjoint and inside user space. */
  predicate AreasOk(areas: seq<Area>) {
    && (forall i :: 0 <= i < |areas| ==> USERBASE <= areas[i].start < areas[i].end <= USERTOP)
    && (forall i, j :: 0 <= i < j < |areas| ==> areas[i].end <= areas[j].start)
  }

  /** A new area lies in user space and overlaps none of the others. */
  predicate AreaFits(areas: seq<Area>, a: Area) {
    && USERBASE <= a.start < a.end <= USERTOP
    && (forall b :: b in areas ==> a.end <= b.start || b.end <= a.start)
  }

  predicate SpaceOk(sp: Space) {
    && AreasOk(sp.areas)
    && (forall k :: k in sp.d0 ==> k / NPTEENTRY in sp.d1)
  }

  ghost predicate SpacesOk(spaces: Spaces, kernel: set<nat>) {
    && (forall m :: m in spaces ==> SpaceOk(spaces[m]) && spaces[m].root in kernel)
    && (forall m, n :: m in spaces && n in spaces && m != n ==> spaces[m].root != spaces[n].root)
  }

  /** A leaf entry lies below present tables and in an area; COW excludes W, and either of
      them lies in a VM_WRITE area. */
  predicate PteOk(sp: Space, v: nat, f: Flags) {
    && v / NPTEENTRY in sp.d0
    && !(f.w && f.cow)
    && AreaAt(sp.areas, v)
    && (f.w || f.cow ==> WritableAt(sp.areas, v))
  }

  predicate EntriesOk(spaces: Spaces, ptes: Ptes) {
    forall x :: x in ptes ==> x.mm in spaces && PteOk(spaces[x.mm], x.page, ptes[x].flags)
  }

  // -------------------------------------------------------- table growth

  /** Page tables may have grown; outside `changed` the areas are as before. */
  ghost predicate TablesGrown(s: Spaces, t: Spaces, changed: set<nat>) {
    && t.Keys == s.Keys
    && (forall m :: m in s ==> SpaceGrown(s[m], t[m]))
    && (forall m :: m in s && m !in changed ==> t[m].areas == s[m].areas)
  }

  ghost predicate SpaceGrown(a: Space, b: Space) {
    && b.root == a.root
    && a.d1.Keys <= b.d1.Keys && a.d0.Keys <= b.d0.Keys
  }

  // ------------------------------------------------------------- primitives

  /** Taking a frame from the allocator. */
  lemma AllocKeepsFrames(ptes: Ptes, ref: seq<int>, free: set<nat>, kernel: set<nat>, held: set<nat>, f: nat)
    requires Frames(ptes, ref, free, kernel, held) && f in free
    ensures Frames(ptes, ref, free - {f}, kernel, held + {f})
    ensures f < |ref| && ref[f] == 0 && f !in kernel && f !in held
  {
  }

  lemma FreeIsFrame(ptes: Ptes, ref: seq<int>, free: set<nat>, kernel: set<nat>, held: set<nat>, f: nat)
    requires Frames(ptes, ref, free, kernel, held) && f in free
    ensures f < |ref| && ref[f] == 0 && f !in kernel && f !in held
  {
  }

  lemma KernelIsNotFree(ptes: Ptes, ref: seq<int>, free: set<nat>, kernel: set<nat>, f: nat)
    requires Frames(ptes, ref, free, kernel, {}) && f in kernel
    ensures f !in free
  {
  }

  /** Taking one for the kernel itself; its reference count no longer matters. */
  lemma TakeKeepsFrames(ptes: Ptes, ref: seq<int>, free: set<nat>, kernel: set<nat>, held: set<nat>, f: nat, r: int)
    requires Frames(ptes, ref, free, kernel, held) && f in free
    ensures f < |ref| && f !in kernel
    ensures Frames(ptes, ref[f := r], free - {f}, kernel + {f}, held)
    ensures WritersAlone(ptes, ref) ==> WritersAlone(ptes, ref[f := r])
  {
    assert Counted(ptes, ref[f], f, true);
    forall x | x in ptes ensures ptes[x].frame != f {
      assert ptes[x].frame == f ==> x in Mappers(ptes, f);
    }
  }

  /** free_page on a frame the kernel kept. */
  lemma ReleaseKeepsFrames(ptes: Ptes, ref: seq<int>, free: set<nat>, kernel: set<nat>, held: set<nat>, f: nat)
    requires Frames(ptes, ref, free, kernel, held) && f in kernel
    ensures f < |ref| && Frames(ptes, ref[f := 0], free + {f}, kernel - {f}, held)
    ensures WritersAlone(ptes, ref) ==> WritersAlone(ptes, ref[f := 0])
  {
    assert Mappers(ptes, f) == {};
  }

  /** Giving one back unused. */
  lemma FreeKeepsFrames(ptes: Ptes, ref: seq<int>, free: set<nat>, kernel: set<nat>, held: set<nat>, f: nat)
    requires Frames(ptes, ref, free, kernel, held) && f in held
    ensures Frames(ptes, ref, free + {f}, kernel, held - {f})
  {
  }

  /** Dropping a mapping: one reference less, and the frame is free when it was the last. */
  lemma DropKeepsFrames(ptes: Ptes, ref: seq<int>, free: set<nat>, kernel: set<nat>, held: set<nat>, x: Slot)
    requires Frames(ptes, ref, free, kernel, held) && x in ptes
    ensures var f := ptes[x].frame;
            && ref[f] >= 1 && f !in free && f !in held
            && Frames(ptes - {x}, ref[f := ref[f] - 1], if ref[f] == 1 then free + {f} else free, kernel, held)
  {
    var f := ptes[x].frame;
    assert Counted(ptes, ref[f], f, f in free || f in held) && x in Mappers(ptes, f);
    forall g | 0 <= g < |ref| && g !in kernel
      ensures |Mappers(ptes - {x}, g)| == |Mappers(ptes, g)| - (if g == f then 1 else 0)
    {
      MappersDrop(ptes, x, g);
    }
  }

  /** Mapping a frame at an unused slot. */
  lemma MapKeepsFrames(ptes: Ptes, ref: seq<int>, free: set<nat>, kernel: set<nat>, held: set<nat>, x: Slot, pte: Pte)
    requires Frames(ptes, ref, free, kernel, held) && x !in ptes
    requires pte.frame < |ref| && pte.frame !in kernel && pte.frame !in free
    ensures var f := pte.frame;
            Frames(ptes[x := pte], ref[f := ref[f] + 1], free, kernel, held - {f})
  {
    forall g | 0 <= g < |ref| && g !in kernel
      ensures |Mappers(ptes[x := pte], g)| == |Mappers(ptes, g)| + (if g == pte.frame then 1 else 0)
    {
      MappersPut(ptes, x, pte, g);
    }
  }

  /** Changing the flags of an entry. */
  lemma ReflagKeepsFrames(ptes: Ptes, ref: seq<int>, free: set<nat>, kernel: set<nat>, held: set<nat>, x: Slot, flags: Flags)
    requires Frames(ptes, ref, free, kernel, held) && x in ptes
    ensures Frames(ptes[x := ptes[x].(flags := flags)], ref, free, kernel, held)
    ensures ptes[x].frame !in held
  {
    var pte := ptes[x].(flags := flags);
    forall g | 0 <= g < |ref| && g !in kernel
      ensures |Mappers(ptes[x := pte], g)| == |Mappers(ptes, g)|
    {
      MappersPut(ptes, x, pte, g);
    }
    assert Counted(ptes, ref[pte.frame], pte.frame, pte.frame in free || pte.frame in held);
    assert x in Mappers(ptes, pte.frame);
  }

  /** Hanging a table into a page table disturbs no entry. */
  lemma AddTable(s: Spaces, ptes: Ptes, kernel: set<nat>, m: nat, sp: Space)
    requires SpacesOk(s, kernel) && EntriesOk(s, ptes) && m in s
    requires SpaceGrown(s[m], sp) && SpaceOk(sp) && sp.areas == s[m].areas
    ensures SpacesOk(s[m := sp], kernel) && EntriesOk(s[m := sp], ptes)
    ensures TablesGrown(s, s[m := sp], {})
  {
    forall x | x in ptes ensures PteOk(s[m := sp][x.mm], x.page, ptes[x].flags) {
      assert PteOk(s[x.mm], x.page, ptes[x].flags);
    }
  }

  lemma TablesGrownTwice(s: Spaces, t: Spaces, u: Spaces, c: set<nat>, d: set<nat>)
    requires TablesGrown(s, t, c) && TablesGrown(t, u, d) && d <= c
    ensures TablesGrown(s, u, c)
  {
    forall m | m in s ensures SpaceGrown(s[m], u[m]) {
      assert SpaceGrown(s[m], t[m]) && SpaceGrown(t[m], u[m]);
    }
  }

  lemma TablesSame(s: Spaces, changed: set<nat>)
    ensures TablesGrown(s, s, changed)
  {
  }

  lemma GrownKeepsAreas(s: Spaces, t: Spaces, changed: set<nat>, m: nat)
    requires TablesGrown(s, t, changed) && m in s && m !in changed
    ensures m in t && t[m].areas == s[m].areas && t[m].root == s[m].root
    ensures s[m].d0.Keys <= t[m].d0.Keys
  {
    assert SpaceGrown(s[m], t[m]);
  }

  lemma SpacesKernel(s: Spaces, k: set<nat>, l: set<nat>)
    requires SpacesOk(s, k) && k <= l
    ensures SpacesOk(s, l)
  {
  }

  lemma SpaceIsOk(s: Spaces, kernel: set<nat>, m: nat)
    requires SpacesOk(s, kernel) && m in s
    ensures SpaceOk(s[m]) && s[m].root in kernel
  {
  }

  lemma EntryFacts(s: Spaces, ptes: Ptes, ref: seq<int>, free: set<nat>, kernel: set<nat>, held: set<nat>, x: Slot)
    requires Frames(ptes, ref, free, kernel, held) && EntriesOk(s, ptes) && x in ptes
    ensures var f := ptes[x].frame;
            f < |ref| && ref[f] >= 1 && f !in kernel && f !in free && f !in held
    ensures x.mm in s && PteOk(s[x.mm], x.page, ptes[x].flags)
  {
    var f := ptes[x].frame;
    assert Counted(ptes, ref[f], f, f in free || f in held) && x in Mappers(ptes, f);
  }

  /** Setting an entry of a space that has room for it. */
  lemma PutKeepsEntries(s: Spaces, ptes: Ptes, x: Slot, pte: Pte)
    requires EntriesOk(s, ptes) && x.mm in s && PteOk(s[x.mm], x.page, pte.flags)
    ensures EntriesOk(s, ptes[x := pte])
  {
  }

  /** A frame mapped by a writable entry is mapped by nothing else. */
  lemma WriterIsSoleMapper(ptes: Ptes, ref: seq<int>, free: set<nat>, kernel: set<nat>, held: set<nat>, x: Slot, y: Slot)
    requires Frames(ptes, ref, free, kernel, held) && WritersAlone(ptes, ref)
    requires x in ptes && y in ptes && ptes[x].frame == ptes[y].frame && ptes[x].flags.w
    ensures x == y
  {
    var f := ptes[x].frame;
    assert Counted(ptes, ref[f], f, f in free || f in held);
    OneMapper(ptes, f, x, y);
  }

  lemma WriterIsAlone(ptes: Ptes, ref: seq<int>, free: set<nat>, kernel: set<nat>, x: Slot)
    requires Frames(ptes, ref, free, kernel, {}) && WritersAlone(ptes, ref)
    requires x in ptes && ptes[x].flags.w
    ensures forall y :: y in ptes && ptes[y].frame == ptes[x].frame ==> y == x
  {
    forall y | y in ptes && ptes[y].frame == ptes[x].frame ensures y == x {
      WriterIsSoleMapper(ptes, ref, free, kernel, {}, x, y);
    }
  }

  /** Once every process has exited, the allocator has back every frame the kernel does not
      keep: no user frame leaks, whatever was forked, split and unmapped before. */
  lemma NothingLeaks(s: Spaces, ptes: Ptes, ref: seq<int>, free: set<nat>, kernel: set<nat>)
    requires Frames(ptes, ref, free, kernel, {}) && EntriesOk(s, ptes) && s == map[]
    ensures free == set f | 0 <= f < |ref| && f !in kernel
  {
    assert ptes == map[];
    forall f: nat | f < |ref| && f !in kernel ensures f in free {
      FreeIffUnmapped(ptes, ref, free, kernel, f);
    }
  }

  lemma FreeIsUnmapped(ptes: Ptes, ref: seq<int>, free: set<nat>, kernel: set<nat>, f: nat)
    requires Frames(ptes, ref, free, kernel, {}) && f in free
    ensures f < |ref| && forall x :: x in ptes ==> ptes[x].frame != f
  {
    FreeIffUnmapped(ptes, ref, free, kernel, f);
  }

  /** A frame belongs to the allocator exactly when the kernel does not keep it and no
      entry of any page table maps it. */
  lemma FreeIffUnmapped(ptes: Ptes, ref: seq<int>, free: set<nat>, kernel: set<nat>, f: nat)
    requires Frames(ptes, ref, free, kernel, {}) && f < |ref|
    ensures f in free <==> f !in kernel && forall x :: x in ptes ==> ptes[x].frame != f
  {
    if f !in kernel {
      assert Counted(ptes, ref[f], f, f in free);
      if x :| x in ptes && ptes[x].frame == f {
        assert x in Mappers(ptes, f);
      } else {
        assert Mappers(ptes, f) == {};
      }
    }
  }

  /** Removing a mapping cannot disturb a writer. */
  lemma DropKeepsWriters(ptes: Ptes, ref: seq<int>, free: set<nat>, kernel: set<nat>, held: set<nat>, x: Slot)
    requires Frames(ptes, ref, free, kernel, held) && WritersAlone(ptes, ref) && x in ptes
    ensures WritersAlone(ptes - {x}, ref[ptes[x].frame := ref[ptes[x].frame] - 1])
  {
    forall y | y in ptes - {x} && ptes[y].flags.w ensures ptes[y].frame != ptes[x].frame {
      if ptes[y].frame == ptes[x].frame {
        WriterIsSoleMapper(ptes, ref, free, kernel, held, y, x);
      }
    }
  }
}
