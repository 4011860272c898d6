/** Copy-on-write memory management: the page-table and reference-count code of
    kern/mm/pmm.c, the address-space code of kern/mm/vmm.c and copy_mm of
    kern/process/proc.c, as methods over one memory. */
module CowKernel {
  import opened Mmu
  import opened CowState
  import opened CowRanges
  import opened CowTables
  import opened CowExit

  datatype FaultResult = Fixed | Invalid | NoMem

  class Memory {
    var spaces: Spaces
    var ptes: Ptes
    const ref: array<int>
    const data: array<PageData>
    var free: set<nat>
    ghost var kernel: set<nat>
    ghost var owner: Owners            // what the frames of the kernel's serve as
    ghost const reserved: set<nat>     // those the kernel itself occupies

    /** Everything that holds of the memory, save that a page may be half shared. */
    ghost predicate Sound(held: set<nat>)
      reads this, ref
    {
      && data.Length == ref.Length
      && Frames(ptes, ref[..], free, kernel, held)
      && SpacesOk(spaces, kernel)
      && EntriesOk(spaces, ptes)
      && Ledger(spaces, owner, kernel, reserved)
    }

    /** The sharing invariant between kernel entries. */
    ghost predicate Inv()
      reads this, ref
    {
      Sound({}) && WritersAlone(ptes, ref[..])
    }

    /** Some free frames may have become page tables since the state with the given sets. */
    ghost predicate KernelGrown(oldKernel: set<nat>, oldFree: set<nat>)
      reads this
    {
      oldKernel <= kernel && kernel - oldKernel <= oldFree
    }

    /** All memory free, apart from the frames the kernel itself occupies. */
    constructor (nframes: nat, ghost occupied: set<nat>, freeFrames: set<nat>)
      requires forall f :: f in occupied ==> f < nframes
      requires freeFrames == set f | 0 <= f < nframes && f !in occupied
      ensures fresh(ref) && fresh(data) && reserved == occupied
      ensures Inv() && spaces == map[] && ptes == map[] && free == freeFrames
    {
      spaces, ptes := map[], map[];
      ref := new int[nframes](_ => 0);
      data := new PageData[nframes](_ => seq(PGSIZE, _ => 0));
      free := freeFrames;
      kernel, owner, reserved := occupied, map[], occupied;
      new;
      forall f | 0 <= f < nframes ensures Mappers(ptes, f) == {} {
      }
    }

    /** alloc_page: some free frame, or none exactly when no frame is free. */
    method AllocPage() returns (ok: bool, f: nat)
      modifies this`free
      ensures ok <==> old(free) != {}
      ensures ok ==> f in old(free) && free == old(free) - {f}
      ensures !ok ==> free == old(free)
    {
      if free == {} {
        return false, 0;
      }
      ok := true;
      f :| f in free;
      free := free - {f};
    }

    /** A new page table: alloc_page, then set_page_ref to 1. */
    method AllocTable(ghost held: set<nat>) returns (ok: bool, f: nat)
      requires Sound(held)
      modifies this`free, this`kernel, this`owner, ref
      ensures Sound(held)
      ensures ok ==> f in old(free) && free == old(free) - {f} && kernel == old(kernel) + {f}
      ensures ok ==> f !in old(kernel) && owner == old(owner)[f := Lost]
      ensures !ok ==> kernel == old(kernel) && free == old(free) == {} && owner == old(owner)
      ensures old(WritersAlone(ptes, ref[..])) ==> WritersAlone(ptes, ref[..])
    {
      hide Ledger, Frames, SpacesOk, EntriesOk, WritersAlone;
      ok, f := AllocPage();
      if ok {
        TakeKeepsFrames(ptes, ref[..], old(free), kernel, held, f, 1);
        TakeKeepsLedger(spaces, owner, kernel, reserved, f);
        ref[f] := 1;
        kernel, owner := kernel + {f}, owner[f := Lost];
        assert ref[..] == old(ref[..])[f := 1];
        SpacesKernel(spaces, old(kernel), kernel);
      }
    }

    /** A second-level table for directory `i`. */
    method NewMid(m: nat, i: nat, ghost held: set<nat>) returns (ok: bool)
      requires Sound(held) && m in spaces && i !in spaces[m].d1
      modifies this`spaces, this`free, this`kernel, this`owner, ref
      ensures Sound(held) && TablesGrown(old(spaces), spaces, {}) && KernelGrown(old(kernel), old(free)) && free <= old(free)
      ensures old(WritersAlone(ptes, ref[..])) ==> WritersAlone(ptes, ref[..])
      ensures m in spaces && Budget(free, spaces[m]) == old(Budget(free, spaces[m]))
      ensures ok ==> i in spaces[m].d1
      ensures ok ==> spaces == old(spaces)[m := old(spaces[m]).(d1 := old(spaces[m]).d1[i := spaces[m].d1[i]])]
      ensures !ok ==> spaces == old(spaces) && free == {}
    {
      hide Ledger, Frames, EntriesOk, WritersAlone, TablesGrown, SpacesOk, Budget;
      TablesSame(spaces, {});
      SpaceIsOk(spaces, kernel, m);
      var f;
      ok, f := AllocTable(held);
      if ok {
        var sp := spaces[m].(d1 := spaces[m].d1[i := f]);
        AddTable(spaces, ptes, kernel, m, sp);
        HangMid(spaces, owner, kernel, reserved, m, i, f);
        MidBudget(old(free), spaces[m], i, f);
        spaces, owner := spaces[m := sp], owner[f := Mid(m, i)];
      }
    }

    /** A third-level table for region `k`. */
    method NewLeaf(m: nat, k: nat, ghost held: set<nat>) returns (ok: bool)
      requires Sound(held) && m in spaces && k !in spaces[m].d0 && k / NPTEENTRY in spaces[m].d1
      modifies this`spaces, this`free, this`kernel, this`owner, ref
      ensures Sound(held) && TablesGrown(old(spaces), spaces, {}) && KernelGrown(old(kernel), old(free)) && free <= old(free)
      ensures old(WritersAlone(ptes, ref[..])) ==> WritersAlone(ptes, ref[..])
      ensures m in spaces && Budget(free, spaces[m]) == old(Budget(free, spaces[m]))
      ensures ok ==> k in spaces[m].d0
      ensures ok ==> spaces == old(spaces)[m := old(spaces[m]).(d0 := old(spaces[m]).d0[k := spaces[m].d0[k]])]
      ensures !ok ==> spaces == old(spaces) && free == {}
    {
      hide Ledger, Frames, EntriesOk, WritersAlone, TablesGrown, SpacesOk, Budget;
      TablesSame(spaces, {});
      SpaceIsOk(spaces, kernel, m);
      var f;
      ok, f := AllocTable(held);
      if ok {
        var sp := spaces[m].(d0 := spaces[m].d0[k := f]);
        AddTable(spaces, ptes, kernel, m, sp);
        HangLeaf(spaces, owner, kernel, reserved, m, k, f);
        LeafBudget(old(free), spaces[m], k, f);
        spaces, owner := spaces[m := sp], owner[f := Leaf(m, k)];
      }
    }

    /** get_pte: whether page `v` has a leaf slot, building the missing tables if asked to.
        No leaf entry changes, also when the second allocation fails after the first. */
    method GetPte(m: nat, v: nat, create: bool, ghost held: set<nat>) returns (ok: bool)
      requires Sound(held) && m in spaces
      modifies this`spaces, this`free, this`kernel, this`owner, ref
      ensures Sound(held)
      ensures TablesGrown(old(spaces), spaces, {})
      ensures KernelGrown(old(kernel), old(free)) && free <= old(free)
      ensures old(WritersAlone(ptes, ref[..])) ==> WritersAlone(ptes, ref[..])
      ensures ok <==> Region(v) in spaces[m].d0
      ensures !ok && create ==> free == {}
      ensures !create || Region(v) in old(spaces[m].d0) ==>
                spaces == old(spaces) && free == old(free) && kernel == old(kernel) && owner == old(owner) && ref[..] == old(ref[..])
      ensures spaces == old(spaces)[m := spaces[m]] && Budget(free, spaces[m]) == old(Budget(free, spaces[m]))
      ensures spaces[m].areas == old(spaces[m].areas) && spaces[m].root == old(spaces[m].root)
      ensures if ok then Grew(old(spaces[m]), spaces[m], {v}) else Stuck(old(spaces[m]), spaces[m], v)
    {
      hide Ledger, Frames, EntriesOk, WritersAlone, TablesGrown, SpacesOk, Budget, Grew, Stuck;
      TablesSame(spaces, {});
      SpaceIsOk(spaces, kernel, m);
      ghost var sp0 := spaces[m];
      var i := Directory(v);
      if i !in spaces[m].d1 {
        TablesFor(sp0, sp0, v);
        if !create {
          return false;
        }
        var got := NewMid(m, i, held);
        if !got {
          return false;
        }
      }
      TablesFor(sp0, spaces[m], v);
      if Region(v) !in spaces[m].d0 {
        if !create {
          return false;
        }
        ghost var s := spaces;
        var got := NewLeaf(m, Region(v), held);
        TablesGrownTwice(old(spaces), s, spaces, {}, {});
        TablesFor(sp0, spaces[m], v);
        if !got {
          return false;
        }
      }
      return true;
    }

    /** page_remove_pte on a valid entry: one reference less, and the frame goes back to
        the allocator when that was the last one. */
    method PageRemovePte(x: Slot)
      requires x in ptes && ptes[x].frame < ref.Length
      modifies this`ptes, this`free, ref
      ensures ptes == old(ptes) - {x}
      ensures var f := old(ptes[x].frame);
              && ref[..] == old(ref[..])[f := old(ref[f]) - 1]
              && free == if old(ref[f]) == 1 then old(free) + {f} else old(free)
    {
      var f := ptes[x].frame;
      ref[f] := ref[f] - 1;
      if ref[f] == 0 {
        free := free + {f};
      }
      ptes := ptes - {x};
    }

    /** page_insert: map frame `f` at `x`, replacing what was mapped there. */
    method PageInsert(x: Slot, f: nat, perm: Flags, ghost held: set<nat>) returns (ok: bool)
      requires Sound(held) && x.mm in spaces
      requires f < ref.Length && f !in kernel && f !in free
      requires !(perm.w && perm.cow) && AreaAt(spaces[x.mm].areas, x.page)
      requires perm.w || perm.cow ==> WritableAt(spaces[x.mm].areas, x.page)
      modifies this`spaces, this`ptes, this`free, this`kernel, this`owner, ref
      ensures TablesGrown(old(spaces), spaces, {}) && KernelGrown(old(kernel), old(free))
      ensures x in old(ptes) ==> ok
      ensures x in old(ptes) ==> spaces == old(spaces) && kernel == old(kernel)
      ensures ok <==> Region(x.page) in spaces[x.mm].d0
      ensures spaces == old(spaces)[x.mm := spaces[x.mm]]
      ensures x !in old(ptes) ==> Budget(free, spaces[x.mm]) == old(Budget(free, spaces[x.mm]))
      ensures if ok then Grew(old(spaces[x.mm]), spaces[x.mm], {x.page}) else Stuck(old(spaces[x.mm]), spaces[x.mm], x.page)
      ensures x !in old(ptes) ==> free <= old(free)
      ensures x in old(ptes) ==> old(ptes[x]).frame < ref.Length
      ensures ok && x in old(ptes) && old(ptes[x]).frame != f && old(ref[ptes[x].frame]) == 1 ==>
                free == old(free) + {old(ptes[x]).frame}
      ensures ok && x in old(ptes) && (old(ptes[x]).frame == f || old(ref[ptes[x].frame]) > 1) ==>
                free == old(free)
      ensures ok ==> Sound(held - {f}) && ptes == old(ptes)[x := Pte(f, perm)]
      ensures ok && f !in held ==> Sound(held)
      ensures !ok ==> Sound(held) && ptes == old(ptes) && free == {}
      ensures !ok && old(WritersAlone(ptes, ref[..])) ==> WritersAlone(ptes, ref[..])
    {
      hide Ledger, Frames, EntriesOk, WritersAlone, SpacesOk, TablesGrown, AreaAt, WritableAt, Grew, Stuck, Budget;
      TablesSame(spaces, {});
      if x in ptes {
        EntryFacts(spaces, ptes, ref[..], free, kernel, held, x);
        assert Region(x.page) in spaces[x.mm].d0;
      }
      ok := GetPte(x.mm, x.page, true, held);
      if !ok {
        return;
      }
      GrownKeepsAreas(old(spaces), spaces, {}, x.mm);
      ghost var p, r, fr := ptes, ref[..], free;
      ref[f] := ref[f] + 1;
      if x in ptes {
        if ptes[x].frame == f {
          ref[f] := ref[f] - 1;
        } else {
          PageRemovePte(x);
        }
      }
      ptes := ptes[x := Pte(f, perm)];
      PutKeepsEntries(spaces, p, x, Pte(f, perm));
      if x !in p {
        MapKeepsFrames(p, r, fr, kernel, held, x, Pte(f, perm));
        assert ref[..] == r[f := r[f] + 1];
        assert Frames(ptes, ref[..], free, kernel, held - {f});
      } else if p[x].frame == f {
        ReflagKeepsFrames(p, r, fr, kernel, held, x, perm);
        assert ref[..] == r && held - {f} == held;
        assert ptes == p[x := p[x].(flags := perm)];
        assert Frames(ptes, ref[..], free, kernel, held - {f});
      } else {
        DropKeepsFrames(p, r, fr, kernel, held, x);
        var g := p[x].frame;
        MapKeepsFrames(p - {x}, r[g := r[g] - 1], free, kernel, held, x, Pte(f, perm));
        assert (p - {x})[x := Pte(f, perm)] == ptes;
        assert ref[..] == r[g := r[g] - 1][f := r[f] + 1];
        assert Frames(ptes, ref[..], free, kernel, held - {f});
      }
      assert ptes == p[x := Pte(f, perm)];
      assert f !in held ==> held - {f} == held;
    }

    // ------------------------------------------------------- range walkers

    /** unmap_range: drop every entry of `m` in [start, end), one reference each. */
    method UnmapRange(m: nat, start: nat, end: nat)
      requires Inv() && m in spaces
      requires USERBASE <= start < end <= USERTOP
      modifies this`spaces, this`ptes, this`free, this`kernel, this`owner, ref
      ensures Inv() && spaces == old(spaces) && kernel == old(kernel) && old(free) <= free
      ensures ptes == WithoutRange(old(ptes), m, start, end)
    {
      hide Ledger, Frames, EntriesOk, WritersAlone, SpacesOk, WithoutRange, NextRegion;
      var v := start;
      WithoutEmptyRange(ptes, m, start);
      while v < end
        invariant start <= v
        invariant Inv() && spaces == old(spaces) && kernel == old(kernel) && old(free) <= free
        invariant ptes == WithoutRange(old(ptes), m, start, Min(v, end))
        decreases end - v
      {
        var present := GetPte(m, v, false, {});
        if !present {
          SkipPassesNothing(spaces, ptes, m, v);
          WithoutRangeSkip(old(ptes), m, start, v, Min(NextRegion(v), end));
          v := NextRegion(v);
          continue;
        }
        WithoutRangeStep(old(ptes), m, start, v);
        var x := Slot(m, v);
        if x in ptes {
          EntryFacts(spaces, ptes, ref[..], free, kernel, {}, x);
          DropKeepsFrames(ptes, ref[..], free, kernel, {}, x);
          DropKeepsWriters(ptes, ref[..], free, kernel, {}, x);
          SubsetKeepsEntries(spaces, ptes, ptes - {x});
          PageRemovePte(x);
        } else {
          assert ptes - {x} == ptes;
        }
        v := v + 1;
      }
    }

    /** One valid page of copy_range. */
    method SharePage(to: nat, from: nat, v: nat, ghost area: Area) returns (ok: bool)
      requires Inv() && from in spaces && to in spaces && from != to
      requires Slot(from, v) in ptes && Slot(to, v) !in ptes
      requires area in spaces[from].areas && area in spaces[to].areas && In(area, v)
      modifies this`spaces, this`ptes, this`free, this`kernel, this`owner, ref
      ensures Inv()
      ensures TablesGrown(old(spaces), spaces, {})
      ensures KernelGrown(old(kernel), old(free)) && free <= old(free)
      ensures !ok ==> ptes == old(ptes) && free == {}
      ensures spaces == old(spaces)[to := spaces[to]] && Budget(free, spaces[to]) == old(Budget(free, spaces[to]))
      ensures if ok then Grew(old(spaces[to]), spaces[to], {v}) else Stuck(old(spaces[to]), spaces[to], v)
      ensures ok ==> var pte := DemotePte(old(ptes[Slot(from, v)]));
                     ptes == old(ptes)[Slot(to, v) := pte][Slot(from, v) := pte]
    {
      hide Ledger, Frames, EntriesOk, WritersAlone, SpacesOk, TablesGrown, Grew, Stuck, Budget;
      var x, c := Slot(from, v), Slot(to, v);
      ok := GetPte(to, v, true, {});
      if !ok {
        return;
      }
      var pte := ptes[x];
      ghost var s := spaces;
      ghost var r, fr, k := ref[..], free, kernel;
      EntryFacts(s, ptes, r, fr, k, {}, x);
      GrownKeepsAreas(old(spaces), s, {}, from);
      GrownKeepsAreas(old(spaces), s, {}, to);
      SpaceIsOk(s, k, from);
      SameAreaSameRights(area, s[from], s[to], v, pte.flags);
      if pte.flags.w {
        ok := PageInsert(c, pte.frame, pte.flags.(w := false, cow := true), {});
        TablesStay(s, spaces, to, v, ok);
        if !ok {
          assert false;
        }
        ReflagKeepsFrames(ptes, ref[..], free, kernel, {}, x, Demote(pte.flags));
        PutKeepsEntries(spaces, ptes, x, DemotePte(pte));
        ptes := ptes[x := Pte(pte.frame, pte.flags.(w := false, cow := true))];
      } else {
        ok := PageInsert(c, pte.frame, pte.flags, {});
        TablesStay(s, spaces, to, v, ok);
        if !ok {
          assert false;
        }
      }
      TablesGrownTwice(old(spaces), s, spaces, {}, {});
      GrewTwice(old(spaces[to]), s[to], spaces[to], {v}, {v});
      assert {v} + {v} == {v};
      assert ptes == old(ptes)[c := DemotePte(pte)][x := DemotePte(pte)];
      ShareKeepsWriters(old(ptes), r, fr, k, ptes, ref[..], free, kernel, x, c);
    }

    /** copy_range: share every page of `from` in [start, end) with `to`, demoting writable
        pages on both sides. `area` is the area the range lies in, which both spaces have. */
    method CopyRange(to: nat, from: nat, start: nat, end: nat, ghost area: Area)
      returns (ok: bool, ghost done: set<nat>, ghost reached: nat)
      requires Inv() && from in spaces && to in spaces && from != to
      requires USERBASE <= start < end <= USERTOP
      requires area in spaces[from].areas && area in spaces[to].areas
      requires area.start <= start && end <= area.end
      requires forall w :: start <= w < end ==> Slot(to, w) !in ptes
      modifies this`spaces, this`ptes, this`free, this`kernel, this`owner, ref
      ensures Inv()
      ensures TablesGrown(old(spaces), spaces, {})
      ensures KernelGrown(old(kernel), old(free)) && free <= old(free)
      ensures Copied(old(ptes), ptes, from, to, done)
      ensures start <= reached <= end && Visited(old(ptes), from, done, start, reached)
      ensures ok ==> reached == end
      ensures spaces == old(spaces)[to := spaces[to]] && Budget(free, spaces[to]) == old(Budget(free, spaces[to]))
      ensures ok ==> Grew(old(spaces[to]), spaces[to], done)
      ensures !ok ==> free == {} && Slot(from, reached) in old(ptes) && StuckAfter(old(spaces[to]), spaces[to], done, reached)
    {
      hide Ledger, Frames, EntriesOk, WritersAlone, SpacesOk, NextRegion, Copied, TablesGrown, Visited, Grew, Stuck, Budget, StuckAfter;
      ok, done := true, {};
      var v := start;
      CopiedNothing(ptes, from, to);
      VisitedNothing(ptes, from, start);
      TablesSame(spaces, {});
      GrewNothing(spaces[to]);
      while v < end
        invariant start <= v
        invariant Inv() && from in spaces && to in spaces
        invariant TablesGrown(old(spaces), spaces, {})
        invariant KernelGrown(old(kernel), old(free)) && free <= old(free)
        invariant Copied(old(ptes), ptes, from, to, done)
        invariant Visited(old(ptes), from, done, start, Min(v, end))
        invariant spaces == old(spaces)[to := spaces[to]] && Budget(free, spaces[to]) == old(Budget(free, spaces[to]))
        invariant Grew(old(spaces[to]), spaces[to], done)
        decreases end - v
      {
        var present := GetPte(from, v, false, {});
        if !present {
          SkipPassesNothing(spaces, ptes, from, v);
          VisitedSkip(old(ptes), ptes, from, to, done, start, v, Min(NextRegion(v), end));
          v := NextRegion(v);
          continue;
        }
        var x := Slot(from, v);
        VisitedStep(old(ptes), ptes, from, to, done, start, v);
        if x in ptes {
          CopiedDomain(old(ptes), ptes, from, to, done, v);
          ghost var s, q := spaces, ptes;
          GrownKeepsAreas(old(spaces), s, {}, from);
          GrownKeepsAreas(old(spaces), s, {}, to);
          var shared := SharePage(to, from, v, area);
          TablesGrownTwice(old(spaces), s, spaces, {}, {});
          GrownKeepsAreas(s, spaces, {}, from);
          GrownKeepsAreas(s, spaces, {}, to);
          if !shared {
            StuckNow(old(spaces[to]), s[to], spaces[to], done, v);
            return false, done, v;
          }
          GrewTwice(old(spaces[to]), s[to], spaces[to], done, {v});
          CopiedStep(old(ptes), q, ptes, from, to, done, v);
          done := done + {v};
        }
        v := v + 1;
      }
      reached := end;
    }

    /** One round of dup_mmap: the next area for `to`, with the pages of `from` in it. */
    method DupArea(to: nat, from: nat, ghost i: nat, a: Area, ghost before: Ptes, ghost done: set<nat>)
      returns (ok: bool, ghost d: set<nat>, ghost reached: nat)
      requires Inv() && from in spaces && to in spaces && from != to
      requires i < |spaces[from].areas| && spaces[from].areas[i] == a && spaces[to].areas == spaces[from].areas[i + 1..]
      requires Copied(before, ptes, from, to, done) && CopiedAreas(before, from, spaces[from].areas, i + 1, done)
      requires forall x :: x in before ==> x.mm != to
      modifies this`spaces, this`ptes, this`free, this`kernel, this`owner, ref
      ensures Inv() && TablesGrown(old(spaces), spaces, {to}) && KernelGrown(old(kernel), old(free)) && free <= old(free)
      ensures to in spaces && spaces[to].areas == old(spaces[from].areas[i..])
      ensures spaces == old(spaces)[to := spaces[to]] && Budget(free, spaces[to]) == old(Budget(free, spaces[to]))
      ensures Copied(before, ptes, from, to, done + d)
      ensures ok ==> CopiedAreas(before, from, old(spaces[from].areas), i, done + d) && Grew(old(spaces[to]), spaces[to], d)
      ensures !ok ==> free == {} && reached in Mapped(before, from) && StuckAfter(old(spaces[to]), spaces[to], d, reached)
    {
      hide Ledger, Frames, EntriesOk, WritersAlone, SpacesOk, Copied, TablesGrown, AreasOk, CopiedAreas, Visited, InsertArea,
           Grew, StuckAfter, Budget, Mapped;
      ghost var areas, s, q, sp0 := spaces[from].areas, spaces, ptes, spaces[to];
      SpaceIsOk(spaces, kernel, from);
      InsertAtFront(areas, i);
      AddAreaInFront(s, q, kernel, to, areas, i);
      NextAreaUnused(before, q, from, to, areas, i, done);
      AreasKeepLedger(spaces, owner, kernel, reserved, to, areas[i..]);
      spaces := spaces[to := spaces[to].(areas := InsertArea(spaces[to].areas, a))];
      ghost var t := spaces;
      AreaBounds(areas, i);
      AreasFirst(free, sp0, areas[i..]);
      ok, d, reached := CopyRange(to, from, a.start, a.end, a);
      TablesGrownTwice(s, t, spaces, {to}, {});
      GrownKeepsAreas(t, spaces, {}, to);
      VisitedBounds(q, from, d, a.start, reached);
      CopiedTwice(before, q, ptes, from, to, done, d);
      if ok {
        NextAreaCopied(before, q, from, to, areas, i, done, d);
        GrewFromAreas(sp0, areas[i..], spaces[to], d);
      } else {
        CopiedKeys(before, q, from, to, done, reached);
        StuckFromAreas(sp0, areas[i..], spaces[to], d, reached);
      }
    }

    /** dup_mmap: give `to` a copy of every area of `from`, last one first, and share the
        pages in it. `kmalloc` answers vma_create from call 1 on. It fails only when an area
        cannot be had or no frame is left for a table. */
    method DupMmap(to: nat, from: nat, kmalloc: Answers) returns (ok: bool, ghost done: set<nat>)
      requires Inv() && from in spaces && to in spaces && from != to
      requires spaces[to].areas == [] && NoTables(spaces[to])
      modifies this`spaces, this`ptes, this`free, this`kernel, this`owner, ref
      ensures Inv()
      ensures TablesGrown(old(spaces), spaces, {to})
      ensures KernelGrown(old(kernel), old(free)) && free <= old(free)
      ensures Copied(old(ptes), ptes, from, to, done)
      ensures to in spaces
      ensures ok ==> spaces[to].areas == old(spaces[from].areas)
      ensures ok ==> forall v :: v in done <==> Slot(from, v) in old(ptes)
      ensures spaces == old(spaces)[to := spaces[to]] && Budget(free, spaces[to]) == old(Budget(free, spaces[to]))
      ensures ok ==> Granted(kmalloc, 1, |old(spaces[from].areas)| + 1) && Grew(old(spaces[to]), spaces[to], done)
      ensures ok || !Granted(kmalloc, 1, |old(spaces[from].areas)| + 1)
           || OutOfFrames(free, old(spaces[to]), spaces[to], Mapped(old(ptes), from))
      ensures spaces[to].d1.Keys <= Directories(Mapped(old(ptes), from)) && spaces[to].d0.Keys <= Regions(Mapped(old(ptes), from))
    {
      hide Ledger, Frames, EntriesOk, WritersAlone, SpacesOk, Copied, TablesGrown, AreasOk, CopiedAreas, Visited,
           Grew, StuckAfter, Budget, NoTables, OutOfFrames, Mapped, Regions, Directories;
      var areas := spaces[from].areas;
      var i := |areas|;
      ok, done := true, {};
      NoAreasNoPages(spaces, ptes, to);
      CopiedNothing(ptes, from, to);
      NoAreasCopied(ptes, from, areas);
      TablesSame(spaces, {to});
      ghost var sp0, all := spaces[to], Mapped(ptes, from);
      GrewNothing(sp0);
      while i > 0
        invariant 0 <= i <= |areas| && Granted(kmalloc, 1, |areas| - i + 1)
        invariant to in spaces && Grew(sp0, spaces[to], done)
        invariant spaces == old(spaces)[to := spaces[to]] && Budget(free, spaces[to]) == old(Budget(free, spaces[to]))
        invariant Inv() && spaces[from].areas == areas && spaces[to].areas == areas[i..]
        invariant TablesGrown(old(spaces), spaces, {to})
        invariant KernelGrown(old(kernel), old(free)) && free <= old(free)
        invariant Copied(old(ptes), ptes, from, to, done)
        invariant CopiedAreas(old(ptes), from, areas, i, done)
      {
        CopiedMapped(old(ptes), ptes, from, to, done);
        var created := kmalloc(|areas| - i + 1);
        if !created {
          GrewWithin(sp0, spaces[to], all, done);
          return false, done;
        }
        i := i - 1;
        ghost var s := spaces;
        var shared, d, reached := DupArea(to, from, i, areas[i], old(ptes), done);
        TablesGrownTwice(old(spaces), s, spaces, {to}, {to});
        CopiedMapped(old(ptes), ptes, from, to, done + d);
        if !shared {
          OutOfFramesNow(sp0, s[to], spaces[to], all, done, d, reached);
          return false, done + d;
        }
        GrewTwice(sp0, s[to], spaces[to], done, d);
        done := done + d;
      }
      AllAreasCopied(old(spaces), old(ptes), from, done);
      CopiedMapped(old(ptes), ptes, from, to, done);
      GrewWithin(sp0, spaces[to], all, done);
      assert areas[0..] == areas;
    }

    /** free_page of the third-level table for region `k`. */
    method FreeLeaf(m: nat, k: nat)
      requires Inv() && m in spaces && k in spaces[m].d0 && forall x :: x in ptes ==> x.mm != m
      modifies this`spaces, this`free, this`kernel, this`owner, ref
      ensures Inv() && spaces == old(spaces)[m := WithoutLeaf(old(spaces[m]), k)]
      ensures kernel == old(kernel) - {old(spaces[m].d0[k])} && free == old(free) + {old(spaces[m].d0[k])}
      ensures old(spaces[m].d0[k]) in old(kernel)
    {
      hide Ledger, Frames, EntriesOk, WritersAlone, SpacesOk;
      var f := spaces[m].d0[k];
      FreeLeafKeepsLedger(spaces, owner, kernel, reserved, m, k);
      SpacesAreOk(spaces, kernel);
      WithoutTablesOk(spaces[m], k, 0);
      LessTablesOk(spaces, ptes, owner - {f}, kernel - {f}, reserved, m, WithoutLeaf(spaces[m], k));
      ReleaseKeepsFrames(ptes, ref[..], free, kernel, {}, f);
      ref[f] := 0;
      assert ref[..] == old(ref[..])[f := 0];
      free, kernel, owner := free + {f}, kernel - {f}, owner - {f};
      spaces := spaces[m := WithoutLeaf(spaces[m], k)];
    }

    /** free_page of the second-level table `i`; the third-level tables still under it are
        lost. */
    method FreeMid(m: nat, i: nat)
      requires Inv() && m in spaces && i in spaces[m].d1 && forall x :: x in ptes ==> x.mm != m
      modifies this`spaces, this`free, this`kernel, this`owner, ref
      ensures Inv() && spaces == old(spaces)[m := WithoutMid(old(spaces[m]), i)]
      ensures kernel == old(kernel) - {old(spaces[m].d1[i])} && free == old(free) + {old(spaces[m].d1[i])}
      ensures old(spaces[m].d1[i]) in old(kernel)
    {
      hide Ledger, Frames, EntriesOk, WritersAlone, SpacesOk;
      var f := spaces[m].d1[i];
      FreeMidKeepsLedger(spaces, owner, kernel, reserved, m, i);
      SpacesAreOk(spaces, kernel);
      WithoutTablesOk(spaces[m], 0, i);
      LessTablesOk(spaces, ptes, Orphaned(owner - {f}, m, i), kernel - {f}, reserved, m, WithoutMid(spaces[m], i));
      ReleaseKeepsFrames(ptes, ref[..], free, kernel, {}, f);
      ref[f] := 0;
      assert ref[..] == old(ref[..])[f := 0];
      free, kernel, owner := free + {f}, kernel - {f}, Orphaned(owner - {f}, m, i);
      spaces := spaces[m := WithoutMid(spaces[m], i)];
    }

    /** The inner loop of exit_range: the third-level tables for regions `lo` to below `hi`.
        `all` is whether every entry looked at was valid. */
    method FreeLeafs(m: nat, lo: nat, hi: nat) returns (all: bool)
      requires Inv() && m in spaces && lo < hi && forall x :: x in ptes ==> x.mm != m
      modifies this`spaces, this`free, this`kernel, this`owner, ref
      ensures Inv() && spaces == old(spaces)[m := WithoutLeafs(old(spaces[m]), lo, hi)]
      ensures kernel == old(kernel) - LeafsIn(old(spaces[m]), lo, hi) && free == old(free) + LeafsIn(old(spaces[m]), lo, hi)
      ensures LeafsIn(old(spaces[m]), lo, hi) <= old(kernel)
      ensures all <==> AllIn(old(spaces[m].d0.Keys), lo, hi)
    {
      hide Ledger, Frames, EntriesOk, WritersAlone, SpacesOk, WithoutLeafs, LeafsIn, WithoutLeaf;
      ghost var sp := spaces[m];
      all := true;
      var k := lo;
      LeafsNone(sp, lo);
      while k < hi
        invariant lo <= k <= hi && Inv() && (all <==> AllIn(sp.d0.Keys, lo, k))
        invariant spaces == old(spaces)[m := WithoutLeafs(sp, lo, k)]
        invariant kernel == old(kernel) - LeafsIn(sp, lo, k) && free == old(free) + LeafsIn(sp, lo, k)
        invariant LeafsIn(sp, lo, k) <= old(kernel)
      {
        LeafsStep(sp, lo, k);
        if k in spaces[m].d0 {
          var empty := forall v :: k * NPTEENTRY <= v < (k + 1) * NPTEENTRY ==> Slot(m, v) !in ptes;
          if empty {
            FreeLeaf(m, k);
          }
        } else {
          all := false;
        }
        k := k + 1;
      }
    }

    /** exit_range on a space nothing is mapped in: gives back the third-level tables of the
        range, and a second-level table when every entry it looked at was valid. */
    method ExitRange(m: nat, start: nat, end: nat)
      requires Inv() && m in spaces && start < end && forall x :: x in ptes ==> x.mm != m
      modifies this`spaces, this`free, this`kernel, this`owner, ref
      ensures Inv() && spaces == old(spaces)[m := Reclaim(old(spaces[m]), start, end)]
      ensures kernel == old(kernel) - FreedBy(old(spaces[m]), start, end)
      ensures free == old(free) + FreedBy(old(spaces[m]), start, end) && FreedBy(old(spaces[m]), start, end) <= old(kernel)
    {
      hide Ledger, Frames, EntriesOk, WritersAlone, SpacesOk, WithoutLeafs, LeafsIn, WithoutMid, ReclaimTo, FreedTo, Directory,
           FirstIn, LastIn, PastDirectory, AllIn;
      ghost var sp := spaces[m];
      SpaceIsOk(spaces, kernel, m);
      var i, k := Directory(start), Region(start);
      ReclaimNone(sp, start, end);
      DirectoryBounds(start, end, i);
      FirstRegion(start);
      while i * NPTEENTRY * NPTEENTRY < end
        invariant Directory(start) <= i <= PastDirectory(end) && k == FirstIn(start, i)
        invariant Inv() && spaces == old(spaces)[m := ReclaimTo(sp, start, end, i)]
        invariant kernel == old(kernel) - FreedTo(sp, start, end, i) && free == old(free) + FreedTo(sp, start, end, i)
        invariant FreedTo(sp, start, end, i) <= old(kernel)
        decreases PastDirectory(end) - i
      {
        DirectoryBounds(start, end, i);
        DirectoryBounds(start, end, i + 1);
        SweptIn(start, end, i, k);
        SameMid(sp, start, end, i);
        if i in spaces[m].d1 {
          ghost var a := spaces[m];
          var all := FreeLeafs(m, k, LastIn(end, i));
          ReclaimPresent(sp, start, end, i, all);
          MidStays(a, k, LastIn(end, i), i);
          if all {
            FreeMid(m, i);
          }
        } else {
          ReclaimAbsent(sp, start, end, i);
        }
        i := i + 1;
        k := i * NPTEENTRY;
        NextRegionIn(start, i);
      }
      DirectoryBounds(start, end, i);
    }

    /** exit_mmap: unmap area by area, which unmaps everything, then give back tables area by
        area. */
    method ExitMmap(m: nat)
      requires Inv() && m in spaces
      modifies this`spaces, this`ptes, this`free, this`kernel, this`owner, ref
      ensures Inv() && spaces == old(spaces)[m := ReclaimAreas(old(spaces[m]), old(spaces[m].areas))]
      ensures ptes == WithoutMm(old(ptes), m)
      ensures kernel == old(kernel) - FreedAreas(old(spaces[m]), old(spaces[m].areas))
      ensures old(free) <= free && FreedAreas(old(spaces[m]), old(spaces[m].areas)) <= old(kernel)
    {
      hide Ledger, Frames, EntriesOk, WritersAlone, SpacesOk, AreasOk, WithoutAreas, WithoutRange, WithoutMm, Reclaim, FreedBy;
      var areas := spaces[m].areas;
      ghost var sp := spaces[m];
      SpaceIsOk(spaces, kernel, m);
      WithoutNoAreas(ptes, m, areas);
      var i := 0;
      while i < |areas|
        invariant 0 <= i <= |areas|
        invariant Inv() && spaces == old(spaces) && kernel == old(kernel) && old(free) <= free
        invariant ptes == WithoutAreas(old(ptes), m, areas[..i])
      {
        AreaBounds(areas, i);
        WithoutAreasStep(old(ptes), m, areas, i);
        UnmapRange(m, areas[i].start, areas[i].end);
        i := i + 1;
      }
      assert areas[..i] == areas;
      WithoutAllAreas(spaces, old(ptes), m);
      NothingLeft(old(ptes), m);
      i := 0;
      while i < |areas|
        invariant 0 <= i <= |areas| && forall x :: x in ptes ==> x.mm != m
        invariant Inv() && spaces == old(spaces)[m := ReclaimAreas(sp, areas[..i])] && old(free) <= free
        invariant kernel == old(kernel) - FreedAreas(sp, areas[..i]) && FreedAreas(sp, areas[..i]) <= old(kernel)
        invariant ptes == WithoutMm(old(ptes), m)
      {
        AreaBounds(areas, i);
        ReclaimAreasStep(sp, areas, i);
        ExitRange(m, areas[i].start, areas[i].end);
        i := i + 1;
      }
      assert areas[..i] == areas;
    }

    /** put_pgdir and mm_destroy, on an address space with nothing mapped any more; what
        tables it still has are lost. */
    method DropSpace(m: nat)
      requires Inv() && m in spaces && forall x :: x in ptes ==> x.mm != m
      modifies this`spaces, this`free, this`kernel, this`owner, ref
      ensures Inv() && spaces == old(spaces) - {m}
      ensures old(spaces[m].root) in old(kernel) && old(spaces[m].root) !in old(free)
      ensures kernel == old(kernel) - {old(spaces[m].root)}
      ensures free == old(free) + {old(spaces[m].root)}
    {
      hide Ledger, Frames, EntriesOk, WritersAlone, SpacesOk, Abandoned;
      var root := spaces[m].root;
      SpaceIsOk(spaces, kernel, m);
      KernelIsNotFree(ptes, ref[..], free, kernel, root);
      FreeRootKeepsLedger(spaces, owner, kernel, reserved, m);
      ReleaseKeepsFrames(ptes, ref[..], free, kernel, {}, root);
      RemoveSpace(spaces, ptes, kernel, m);
      ref[root] := 0;
      assert ref[..] == old(ref[..])[root := 0];
      free, kernel, owner := free + {root}, kernel - {root}, Abandoned(owner, m);
      spaces := spaces - {m};
    }

    /** mm_create, which is kmalloc call 0, and setup_pgdir. */
    method CreateSpace(m: nat, kmalloc: Answers) returns (ok: bool)
      requires Inv() && m !in spaces
      modifies this`spaces, this`free, this`kernel, this`owner, ref
      ensures Inv()
      ensures ok <==> kmalloc(0) && old(free) != {}
      ensures !ok ==> spaces == old(spaces) && free == old(free) && kernel == old(kernel) && ref[..] == old(ref[..])
      ensures ok ==> m in spaces && spaces == old(spaces)[m := Space(spaces[m].root, map[], map[], [])]
      ensures ok ==> spaces[m].root in old(free) && free == old(free) - {spaces[m].root}
      ensures ok ==> spaces[m].root !in old(kernel) && kernel == old(kernel) + {spaces[m].root}
      ensures forall x :: x in ptes ==> x.mm != m
    {
      hide Ledger, Frames, WritersAlone, SpacesOk;
      ok := kmalloc(0);
      if !ok {
        return;
      }
      var f;
      ok, f := AllocPage();
      if ok {
        FreeIsFrame(ptes, ref[..], old(free), kernel, {}, f);
        TakeKeepsFrames(ptes, ref[..], old(free), kernel, {}, f, ref[f]);
        assert ref[..] == ref[..][f := ref[f]];
        NewSpace(spaces, ptes, kernel, m, f);
        TakeKeepsLedger(spaces, owner, kernel, reserved, f);
        HangRoot(spaces, owner[f := Lost], kernel + {f}, reserved, m, f);
        kernel, owner := kernel + {f}, owner[f := Lost][f := Root(m)];
        spaces := spaces[m := Space(f, map[], map[], [])];
      }
    }

    /** do_exit's memory part, and copy_mm's when it gives up: exit_mmap, put_pgdir and
        mm_destroy. The allocator gets back the root, the tables exit_range finds, and the
        frames nobody else maps; the tables exit_range does not find are lost, none exactly
        when AllFound. */
    method Exit(m: nat)
      requires Inv() && m in spaces
      modifies this`spaces, this`ptes, this`free, this`kernel, this`owner, ref
      ensures Inv() && spaces == old(spaces) - {m} && ptes == WithoutMm(old(ptes), m)
      ensures kernel == old(kernel) - FreedAreas(old(spaces[m]), old(spaces[m].areas)) - {old(spaces[m].root)}
      ensures old(free) + {old(spaces[m].root)} <= free && old(spaces[m].root) !in old(free)
      ensures var sp := old(spaces[m]);
              forall f :: Has(owner, f, Lost) <==>
                Has(old(owner), f, Lost) || (f in sp.d1.Values + sp.d0.Values && f !in FreedAreas(sp, sp.areas))
      ensures (forall f :: Has(owner, f, Lost) <==> Has(old(owner), f, Lost)) <==> AllFound(old(spaces[m]))
    {
      hide Ledger, Frames, EntriesOk, WritersAlone, SpacesOk, ReclaimAreas, FreedAreas, WithoutMm, Has, AllFound;
      NothingLeft(ptes, m);
      SpaceIsOk(spaces, kernel, m);
      RootStays(spaces[m], spaces[m].areas);
      ExitMmap(m);
      DropSpace(m);
      assert spaces == old(spaces) - {m};
      LostAfterExit(old(spaces), old(owner), old(kernel), owner, kernel, reserved, m);
      ExitLosesNothing(old(spaces), old(owner), old(kernel), owner, kernel, reserved, m);
    }

    /** copy_mm's bad_dup_cleanup_mmap: the half-made child is given up, and the parent, from
        the values `s0` to `k` the memory had before the fork, keeps its pages. */
    method DropChild(parent: nat, child: nat, ghost s0: Spaces, ghost p: Ptes, ghost r: seq<int>, ghost fr: set<nat>,
                     ghost k: set<nat>, ghost s: Spaces, ghost done: set<nat>)
      requires Inv() && child in spaces && parent in s0 && child !in s0 && child in s && s == s0[child := s[child]]
      requires TablesGrown(s, spaces, {child}) && spaces == s[child := spaces[child]]
      requires Copied(p, ptes, parent, child, done) && forall x :: x in p ==> x.mm != child
      requires Frames(p, r, fr, k, {}) && |r| == ref.Length
      modifies this`spaces, this`ptes, this`free, this`kernel, this`owner, ref
      ensures Inv() && RolledBack(s0, p, spaces, ptes, parent) && spaces == s0
      ensures forall f :: 0 <= f < ref.Length && f !in k && f !in kernel ==> ref[f] == r[f]
      ensures |free| >= |old(free)| + 1
    {
      hide Ledger, Frames, EntriesOk, WritersAlone, SpacesOk, Copied, TablesGrown, RolledBack, WithoutMm, FreedAreas, Has;
      UndoneFork(s0, p, s, spaces, ptes, parent, child, done);
      UndoneSpaces(s0, s, spaces, child);
      ghost var g, root := free, spaces[child].root;
      Exit(child);
      TakenSize(g + {root}, g, root);
      SubsetSize(g + {root}, free);
      SameFramesSameRefs(p, r, fr, k, ptes, ref[..], free, kernel);
    }

    /** copy_mm on the way to a fork: a new address space for `child` that shares every
        page of `parent`, exactly when kmalloc has its structures and the allocator a frame
        for the root and for each table the pages need; otherwise, wherever memory runs out,
        nothing. */
    method CopyMm(parent: nat, child: nat, kmalloc: Answers) returns (ok: bool)
      requires Inv() && parent in spaces && child !in spaces
      modifies this`spaces, this`ptes, this`free, this`kernel, this`owner, ref
      ensures Inv()
      ensures ok <==> Granted(kmalloc, 0, |old(spaces[parent].areas)| + 1) && |old(free)| > ForkTables(old(ptes), parent)
      ensures ok ==> Forked(old(spaces), old(ptes), spaces, ptes, parent, child)
      ensures ok ==> |free| == |old(free)| - 1 - ForkTables(old(ptes), parent)
      ensures ok ==> child in spaces && spaces == old(spaces)[child := spaces[child]]
      ensures ok ==> spaces[child].d0.Keys == Regions(Mapped(old(ptes), parent))
      ensures ok ==> spaces[child].d1.Keys == Directories(Mapped(old(ptes), parent))
      ensures !ok ==> RolledBack(old(spaces), old(ptes), spaces, ptes, parent) && spaces == old(spaces)
      ensures !ok ==> forall f :: 0 <= f < ref.Length && f !in old(kernel) && f !in kernel ==> ref[f] == old(ref[f])
      ensures !ok ==> |free| + ForkTables(old(ptes), parent) >= |old(free)|
    {
      hide Ledger, Frames, EntriesOk, WritersAlone, SpacesOk, Copied, TablesGrown, Forked, RolledBack, WithoutMm,
           Grew, OutOfFrames, Budget, Granted, ForkTables, Mapped, Regions, Directories, NoTables, FreedAreas;
      ok := CreateSpace(child, kmalloc);
      CallZero(kmalloc, |spaces[parent].areas| + 1);
      if !ok {
        NothingForked(spaces, ptes, parent);
        NothingCosts(free, old(ptes), parent);
        return;
      }
      ghost var s, f := spaces, free;
      ghost var done;
      NewHasNoTables(s[child]);
      TakenSize(old(free), free, s[child].root);
      ok, done := DupMmap(child, parent, kmalloc);
      ForkCost(old(ptes), parent, f, s[child], free, spaces[child], done, ok);
      if ok {
        ForkedAll(old(spaces), old(ptes), s, spaces, ptes, parent, child, done);
      } else {
        DropChild(parent, child, old(spaces), old(ptes), old(ref[..]), old(free), old(kernel), s, done);
      }
    }

    // ------------------------------------------------------------- loading

    /** The part of mm_map that changes the memory: a new area, not overlapping others, when
        kmalloc has the structure. */
    method AddArea(m: nat, a: Area, kmalloc: Answers) returns (ok: bool)
      requires Inv() && m in spaces
      requires AreaFits(spaces[m].areas, a)
      modifies this`spaces
      ensures Inv() && (ok <==> kmalloc(0))
      ensures spaces == if ok then old(spaces)[m := old(spaces[m]).(areas := InsertArea(old(spaces[m].areas), a))] else old(spaces)
      ensures ok ==> AreasOk(spaces[m].areas) && multiset(spaces[m].areas) == multiset(old(spaces[m].areas)) + multiset{a}
    {
      hide Ledger;
      SpaceIsOk(spaces, kernel, m);
      InsertAreaFits(spaces[m].areas, a);
      ok := kmalloc(0);
      if ok {
        AreasKeepLedger(spaces, owner, kernel, reserved, m, InsertArea(spaces[m].areas, a));
        InsertAreaKeepsSpaces(spaces, ptes, kernel, m, a);
        spaces := spaces[m := spaces[m].(areas := InsertArea(spaces[m].areas, a))];
      }
    }

    /** pgdir_alloc_page and the loader's writes to the new page, which leave it with the
        contents `fill`. The flags a loader asks for never include COW, and W only in a
        VM_WRITE area. */
    method MapPage(x: Slot, flags: Flags, fill: PageData) returns (ok: bool)
      requires Inv() && x.mm in spaces && AreaAt(spaces[x.mm].areas, x.page)
      requires !flags.cow && (flags.w ==> WritableAt(spaces[x.mm].areas, x.page))
      modifies this`spaces, this`ptes, this`free, this`kernel, this`owner, ref, data
      ensures Inv() && TablesGrown(old(spaces), spaces, {})
      ensures spaces == old(spaces)[x.mm := spaces[x.mm]]
      ensures ok <==> |old(free)| > Missing(old(spaces[x.mm]), x.page)
      ensures ok ==> Grew(old(spaces[x.mm]), spaces[x.mm], {x.page})
      ensures ok && x !in old(ptes) ==> |free| == |old(free)| - 1 - Missing(old(spaces[x.mm]), x.page)
      ensures ok && x in old(ptes) ==> |free| >= |old(free)| - 1
      ensures !ok ==> |old(free)| - 1 <= |free| <= 1
      ensures !ok ==> ptes == old(ptes) && data[..] == old(data[..])
      ensures ok ==> x in ptes && ptes[x].frame in old(free) && ptes[x].frame < data.Length
      ensures ok ==> ptes == old(ptes)[x := Pte(ptes[x].frame, flags)]
      ensures ok ==> data[..] == old(data[..])[ptes[x].frame := fill]
    {
      hide Ledger, Frames, EntriesOk, WritersAlone, SpacesOk, AreaAt, WritableAt, TablesGrown, Grew, Stuck, Budget, Missing;
      var f;
      ok, f := AllocPage();
      TablesSame(spaces, {});
      MissingAtMost(spaces[x.mm], x.page);
      if !ok {
        return;
      }
      ghost var sp0, g := spaces[x.mm], free;
      TakenSize(old(free), g, f);
      FreeIsFrame(ptes, ref[..], old(free), kernel, {}, f);
      AllocKeepsFrames(ptes, ref[..], old(free), kernel, {}, f);
      if x in ptes {
        EntryFacts(spaces, ptes, ref[..], free, kernel, {} + {f}, x);
        SpaceIsOk(spaces, kernel, x.mm);
        NothingMissing(sp0, x.page);
      }
      ok := PageInsert(x, f, flags, {} + {f});
      assert {} + {f} - {f} == {};
      if x !in old(ptes) {
        TablesCost(g, sp0, free, spaces[x.mm], x.page);
      } else {
        SubsetSize(g, free);
      }
      if !ok {
        FreeKeepsFrames(ptes, ref[..], free, kernel, {} + {f}, f);
        free := free + {f};
        return;
      }
      data[f] := fill;
      FreshKeepsWriters(old(ptes), old(ref[..]), old(free), old(kernel), ptes, ref[..], free, kernel, x, Pte(f, flags));
    }

    // --------------------------------------------------------------- faults

    /** find_vma. */
    method FindVma(m: nat, v: nat) returns (found: bool, a: Area)
      requires m in spaces
      ensures found ==> a in spaces[m].areas && In(a, v)
      ensures !found ==> !AreaAt(spaces[m].areas, v)
    {
      var areas := spaces[m].areas;
      var i := 0;
      while i < |areas|
        invariant 0 <= i <= |areas|
        invariant forall j :: 0 <= j < i ==> !In(areas[j], v)
      {
        if In(areas[i], v) {
          return true, areas[i];
        }
        i := i + 1;
      }
      return false, Area(0, 0, false);
    }

    /** do_pgfault, run without interruption. The reference count is read once here; the
        repeated reads matter only under interleaving. */
    method DoPgfault(m: nat, v: nat, isWrite: bool) returns (res: FaultResult)
      requires Inv() && m in spaces
      modifies this`spaces, this`ptes, this`free, this`kernel, this`owner, ref, data
      ensures Inv() && spaces == old(spaces) && kernel == old(kernel)
      ensures res == Invalid <==> !(isWrite && Slot(m, v) in old(ptes) && old(ptes[Slot(m, v)]).flags.cow)
      ensures res != Invalid ==> old(ptes[Slot(m, v)]).frame < ref.Length
      ensures res == NoMem ==> old(ref[ptes[Slot(m, v)].frame]) > 1 && old(free) == {}
      ensures res == Fixed ==> old(ref[ptes[Slot(m, v)].frame]) == 1 || old(free) != {}
      ensures res != Fixed ==> ptes == old(ptes) && free == old(free) && data[..] == old(data[..]) && ref[..] == old(ref[..])
      ensures res == Fixed ==> Slot(m, v) in ptes
      ensures res == Fixed ==>
                ptes == old(ptes)[Slot(m, v) := Pte(ptes[Slot(m, v)].frame, Upgrade(old(ptes[Slot(m, v)].flags)))]
      ensures res == Fixed && old(ref[ptes[Slot(m, v)].frame]) == 1 ==>
                ptes[Slot(m, v)].frame == old(ptes[Slot(m, v)].frame) && free == old(free) && data[..] == old(data[..])
      ensures res == Fixed && old(ref[ptes[Slot(m, v)].frame]) > 1 ==>
                var n := ptes[Slot(m, v)].frame;
                n in old(free) && free == old(free) - {n} && n < data.Length
                && data[..] == old(data[..])[n := old(data[ptes[Slot(m, v)].frame])]
    {
      hide Ledger, Frames, EntriesOk, WritersAlone, SpacesOk, AreaAt, WritableAt, AreasOk;
      var x := Slot(m, v);
      if x in ptes {
        EntryFacts(spaces, ptes, ref[..], free, kernel, {}, x);
        SpaceIsOk(spaces, kernel, m);
      }
      var found, vma := FindVma(m, v);
      if !found {
        return Invalid;
      }
      var present := GetPte(m, v, false, {});
      if !present || x !in ptes || !ptes[x].flags.cow || !isWrite {
        return Invalid;
      }
      CowIsWritable(spaces[m], v, ptes[x].flags, vma);
      if !vma.write {
        return Invalid;
      }
      var pte := ptes[x];
      var page := pte.frame;
      ghost var r := ref[..];
      if ref[page] > 1 {
        var got, npage := AllocPage();
        if !got {
          return NoMem;
        }
        FreeIsFrame(ptes, r, old(free), kernel, {}, npage);
        AllocKeepsFrames(ptes, r, old(free), kernel, {}, npage);
        data[npage] := data[page];
        var inserted := PageInsert(x, npage, Upgrade(pte.flags), {} + {npage});
        assert {} + {npage} - {npage} == {};
        FreshKeepsWriters(old(ptes), r, old(free), old(kernel), ptes, ref[..], free, kernel, x, Pte(npage, Upgrade(pte.flags)));
      } else {
        ReflagKeepsFrames(ptes, r, free, kernel, {}, x, Upgrade(pte.flags));
        PutKeepsEntries(spaces, ptes, x, Pte(page, Upgrade(pte.flags)));
        UpgradeKeepsWriters(ptes, r, x, Upgrade(pte.flags));
        ptes := ptes[x := Pte(page, Upgrade(pte.flags))];
      }
      return Fixed;
    }

    /** The store itself, once the page table permits it. */
    method StoreByte(f: nat, off: nat, b: Byte)
      requires f < data.Length && off < PGSIZE
      modifies data
      ensures data[..] == old(data[..])[f := old(data[f])[off := b]]
    {
      data[f] := data[f][off := b];
    }
  }
}
