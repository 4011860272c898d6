/** What the range walkers copy_range, unmap_range, dup_mmap and exit_mmap do to the leaf
    entries, stated on the maps before and after. */
module CowRanges {
  import opened Mmu
  import opened CowState
  import opened CowTables

  // ---------------------------------------------------------------- the skip

  function Min(a: nat, b: nat): nat {
    if a < b then a else b
  }

  /** First page of the next 2 MiB region. */
  function NextRegion(v: nat): nat {
    (v + NPTEENTRY) / NPTEENTRY * NPTEENTRY
  }

  /** Where the page table of a region is absent, the walkers skip to the next region; they
      pass only pages that are not mapped, and make progress. */
  lemma SkipPassesNothing(s: Spaces, ptes: Ptes, m: nat, v: nat)
    requires EntriesOk(s, ptes) && m in s && v / NPTEENTRY !in s[m].d0
    ensures v < NextRegion(v)
    ensures forall w :: v <= w < NextRegion(v) ==> Slot(m, w) !in ptes
  {
    forall w | v <= w < NextRegion(v) ensures Slot(m, w) !in ptes {
      assert w / NPTEENTRY == v / NPTEENTRY;
      assert Slot(m, w) in ptes ==> PteOk(s[m], w, ptes[Slot(m, w)].flags);
    }
  }

  // ---------------------------------------------------------------- sharing

  function DemotePte(pte: Pte): Pte {
    pte.(flags := Demote(pte.flags))
  }

  /** `q` is `p` with the pages in `done` of `from` demoted and given to `to` as well. */
  ghost predicate Copied(p: Ptes, q: Ptes, from: nat, to: nat, done: set<nat>) {
    && (forall v :: v in done ==> Slot(from, v) in p)
    && (forall x :: x in q <==> x in p || (x.mm == to && x.page in done))
    && (forall x :: x in p ==>
          q[x] == if x.mm == from && x.page in done then DemotePte(p[x]) else p[x])
    && (forall v :: v in done ==> q[Slot(to, v)] == DemotePte(p[Slot(from, v)]))
  }

  lemma CopiedNothing(p: Ptes, from: nat, to: nat)
    ensures Copied(p, p, from, to, {})
  {
  }

  lemma CopiedStep(p: Ptes, q: Ptes, r: Ptes, from: nat, to: nat, done: set<nat>, v: nat)
    requires from != to && v !in done && Slot(to, v) !in p
    requires Copied(p, q, from, to, done) && Slot(from, v) in q
    requires r == q[Slot(to, v) := DemotePte(q[Slot(from, v)])][Slot(from, v) := DemotePte(q[Slot(from, v)])]
    ensures Copied(p, r, from, to, done + {v})
    ensures Slot(to, v) !in q
  {
    assert Slot(from, v) in p && q[Slot(from, v)] == p[Slot(from, v)];
  }

  lemma CopiedDomain(p: Ptes, q: Ptes, from: nat, to: nat, done: set<nat>, v: nat)
    requires from != to && Copied(p, q, from, to, done)
    ensures Slot(from, v) in q <==> Slot(from, v) in p
    ensures Slot(to, v) in q <==> Slot(to, v) in p || v in done
  {
  }

  /** `done` are exactly the mapped pages of `from` in [lo, hi). */
  lemma CopiedMapped(p: Ptes, q: Ptes, from: nat, to: nat, done: set<nat>)
    requires Copied(p, q, from, to, done)
    ensures done <= Mapped(p, from)
  {
    forall v | v in done ensures v in Mapped(p, from) {
      assert Slot(from, v) in p && Slot(from, v).page == v;
    }
  }

  lemma CopiedKeys(p: Ptes, q: Ptes, from: nat, to: nat, done: set<nat>, v: nat)
    requires Copied(p, q, from, to, done) && from != to && Slot(from, v) in q
    ensures v in Mapped(p, from)
  {
    assert Slot(from, v) in p && Slot(from, v).page == v;
  }

  ghost predicate Visited(p: Ptes, from: nat, done: set<nat>, lo: nat, hi: nat) {
    forall w :: w in done <==> lo <= w < hi && Slot(from, w) in p
  }

  lemma VisitedNothing(p: Ptes, from: nat, lo: nat)
    ensures Visited(p, from, {}, lo, lo)
  {
  }

  lemma VisitedStep(p: Ptes, q: Ptes, from: nat, to: nat, done: set<nat>, lo: nat, v: nat)
    requires from != to && Copied(p, q, from, to, done) && Visited(p, from, done, lo, v) && lo <= v
    ensures v !in done
    ensures Visited(p, from, if Slot(from, v) in q then done + {v} else done, lo, v + 1)
  {
    CopiedDomain(p, q, from, to, done, v);
  }

  lemma VisitedSkip(p: Ptes, q: Ptes, from: nat, to: nat, done: set<nat>, lo: nat, v: nat, u: nat)
    requires from != to && Copied(p, q, from, to, done) && Visited(p, from, done, lo, v) && lo <= v <= u
    requires forall w :: v <= w < u ==> Slot(from, w) !in q
    ensures Visited(p, from, done, lo, u)
  {
    forall w | v <= w < u ensures Slot(from, w) !in p {
      CopiedDomain(p, q, from, to, done, w);
    }
  }

  lemma CopiedTwice(p: Ptes, q: Ptes, r: Ptes, from: nat, to: nat, d: set<nat>, e: set<nat>)
    requires from != to && d !! e
    requires Copied(p, q, from, to, d) && Copied(q, r, from, to, e)
    requires forall v :: v in e ==> Slot(to, v) !in q
    ensures Copied(p, r, from, to, d + e)
  {
    forall v | v in d + e
      ensures Slot(from, v) in p && r[Slot(to, v)] == DemotePte(p[Slot(from, v)])
    {
      if v in d {
        assert Slot(to, v) in q;
      } else {
        assert Slot(from, v) in q;
      }
    }
  }

  /** Sharing one page with a fresh slot, both entries demoted, leaves every remaining
      writer alone on its frame. */
  lemma ShareKeepsWriters(p: Ptes, ref: seq<int>, free: set<nat>, kernel: set<nat>,
                          q: Ptes, ref2: seq<int>, free2: set<nat>, kernel2: set<nat>, x: Slot, c: Slot)
    requires Frames(p, ref, free, kernel, {}) && WritersAlone(p, ref)
    requires x in p && c !in p
    requires Frames(q, ref2, free2, kernel2, {})
    requires q == p[c := DemotePte(p[x])][x := DemotePte(p[x])]
    ensures WritersAlone(q, ref2)
  {
    hide Frames;
    forall y | y in q && q[y].flags.w ensures q[y].frame < |ref2| && ref2[q[y].frame] == 1 {
      assert y in p && q[y] == p[y];
      if p[x].frame == p[y].frame {
        WriterIsSoleMapper(p, ref, free, kernel, {}, y, x);
      }
      SameMappers(p, q, p[y].frame);
      CountOf(p, ref, free, kernel, y);
      CountOf(q, ref2, free2, kernel2, y);
    }
  }

  lemma CountOf(p: Ptes, ref: seq<int>, free: set<nat>, kernel: set<nat>, y: Slot)
    requires Frames(p, ref, free, kernel, {}) && y in p
    ensures var g := p[y].frame; g < |ref| && ref[g] == |Mappers(p, g)|
  {
    var g := p[y].frame;
    assert Counted(p, ref[g], g, g in free);
  }

  lemma SameMappers(p: Ptes, q: Ptes, g: nat)
    requires forall x :: x in p && p[x].frame == g ==> x in q && q[x].frame == g
    requires forall x :: x in q && q[x].frame == g ==> x in p && p[x].frame == g
    ensures Mappers(q, g) == Mappers(p, g)
  {
  }

  /** A fault that finds the frame unshared upgrades the entry in place. */
  lemma UpgradeKeepsWriters(p: Ptes, ref: seq<int>, x: Slot, flags: Flags)
    requires WritersAlone(p, ref) && x in p && p[x].frame < |ref| && ref[p[x].frame] == 1
    ensures WritersAlone(p[x := p[x].(flags := flags)], ref)
  {
  }

  /** Where no frame changed hands, no reference count changed. */
  lemma SameFramesSameRefs(p: Ptes, ref: seq<int>, free: set<nat>, kernel: set<nat>,
                           q: Ptes, ref2: seq<int>, free2: set<nat>, kernel2: set<nat>)
    requires Frames(p, ref, free, kernel, {}) && Frames(q, ref2, free2, kernel2, {})
    requires |ref| == |ref2|
    requires q.Keys == p.Keys && forall x :: x in p ==> q[x].frame == p[x].frame
    ensures forall f :: 0 <= f < |ref| && f !in kernel && f !in kernel2 ==> ref2[f] == ref[f]
  {
    forall f | 0 <= f < |ref| && f !in kernel && f !in kernel2 ensures ref2[f] == ref[f] {
      assert Mappers(q, f) == Mappers(p, f);
      assert Counted(p, ref[f], f, f in free) && Counted(q, ref2[f], f, f in free2);
    }
  }

  /** Dropping a whole set of entries leaves the others' bookkeeping intact. */
  lemma SubsetKeepsEntries(s: Spaces, p: Ptes, q: Ptes)
    requires EntriesOk(s, p)
    requires forall x :: x in q ==> x in p && q[x] == p[x]
    ensures EntriesOk(s, q)
  {
  }

  // --------------------------------------------------------------- unmapping

  /** The entries left once the pages [lo, hi) of `m` are unmapped. */
  function WithoutRange(p: Ptes, m: nat, lo: nat, hi: nat): Ptes {
    map x | x in p && !(x.mm == m && lo <= x.page < hi) :: p[x]
  }

  /** ... once all pages of `m` in some areas are. */
  function WithoutAreas(p: Ptes, m: nat, areas: seq<Area>): Ptes {
    map x | x in p && !(x.mm == m && AreaAt(areas, x.page)) :: p[x]
  }

  /** ... once all pages of `m` are. */
  function WithoutMm(p: Ptes, m: nat): Ptes {
    map x | x in p && x.mm != m :: p[x]
  }

  lemma NothingLeft(p: Ptes, m: nat)
    ensures forall x :: x in WithoutMm(p, m) ==> x.mm != m
  {
  }

  lemma WithoutNoAreas(p: Ptes, m: nat, areas: seq<Area>)
    ensures WithoutAreas(p, m, areas[..0]) == p
  {
  }

  lemma WithoutEmptyRange(p: Ptes, m: nat, lo: nat)
    ensures WithoutRange(p, m, lo, lo) == p
  {
  }

  lemma WithoutRangeStep(p: Ptes, m: nat, lo: nat, v: nat)
    requires lo <= v
    ensures WithoutRange(p, m, lo, v + 1) == WithoutRange(p, m, lo, v) - {Slot(m, v)}
  {
  }

  lemma WithoutRangeSkip(p: Ptes, m: nat, lo: nat, v: nat, w: nat)
    requires lo <= v <= w
    requires forall u :: v <= u < w ==> Slot(m, u) !in WithoutRange(p, m, lo, v)
    ensures WithoutRange(p, m, lo, w) == WithoutRange(p, m, lo, v)
  {
    forall x | x in p && x.mm == m && v <= x.page < w
      ensures x !in WithoutRange(p, m, lo, v)
    {
      assert x == Slot(m, x.page);
    }
  }

  lemma WithoutAreasStep(p: Ptes, m: nat, areas: seq<Area>, i: nat)
    requires i < |areas|
    ensures WithoutRange(WithoutAreas(p, m, areas[..i]), m, areas[i].start, areas[i].end)
         == WithoutAreas(p, m, areas[..i + 1])
  {
    assert areas[..i + 1] == areas[..i] + [areas[i]];
    forall v: nat ensures AreaAt(areas[..i + 1], v) <==> AreaAt(areas[..i], v) || In(areas[i], v) {
      assert In(areas[i], v) ==> areas[i] in areas[..i + 1];
    }
  }

  /** Unmapping area by area unmaps the whole address space. */
  lemma WithoutAllAreas(s: Spaces, p: Ptes, m: nat)
    requires EntriesOk(s, p) && m in s
    ensures WithoutAreas(p, m, s[m].areas) == WithoutMm(p, m)
  {
    forall x | x in p && x.mm == m ensures AreaAt(s[m].areas, x.page) {
      assert PteOk(s[m], x.page, p[x].flags);
    }
  }

  // -------------------------------------------------------------------- areas

  /** The place insert_vma_struct gives a new area: before the first one starting later. */
  function InsertArea(areas: seq<Area>, a: Area): seq<Area> {
    if areas == [] || areas[0].start > a.start then [a] + areas
    else [areas[0]] + InsertArea(areas[1..], a)
  }

  /** dup_mmap walks the areas backwards, so each goes to the front. */
  lemma InsertAtFront(areas: seq<Area>, i: nat)
    requires AreasOk(areas) && i < |areas|
    ensures InsertArea(areas[i + 1..], areas[i]) == areas[i..]
  {
    assert areas[i..] == [areas[i]] + areas[i + 1..];
    if i + 1 < |areas| {
      assert areas[i].end <= areas[i + 1].start;
    }
  }

  lemma AreaAtSuffix(areas: seq<Area>, i: nat, v: nat)
    requires i < |areas|
    ensures AreaAt(areas[i..], v) <==> In(areas[i], v) || AreaAt(areas[i + 1..], v)
    ensures WritableAt(areas[i + 1..], v) ==> WritableAt(areas[i..], v)
  {
    assert areas[i..] == [areas[i]] + areas[i + 1..];
    assert In(areas[i], v) ==> areas[i] in areas[i..];
  }

  /** Two address spaces sharing an area agree on what its pages allow. */
  lemma SameAreaSameRights(a: Area, s: Space, t: Space, v: nat, f: Flags)
    requires AreasOk(s.areas) && a in s.areas && a in t.areas && In(a, v)
    requires PteOk(s, v, f) && v / NPTEENTRY in t.d0
    ensures PteOk(t, v, f) && PteOk(t, v, Demote(f)) && PteOk(s, v, Demote(f))
  {
    assert In(a, v) && a in t.areas;
    if f.w || f.cow {
      var b :| b in s.areas && In(b, v) && b.write;
      AreaUnique(s.areas, a, b, v);
    }
  }

  lemma AreaUnique(areas: seq<Area>, a: Area, b: Area, v: nat)
    requires AreasOk(areas) && a in areas && b in areas && In(a, v) && In(b, v)
    ensures a == b
  {
    var i :| 0 <= i < |areas| && areas[i] == a;
    var j :| 0 <= j < |areas| && areas[j] == b;
    assert !(i < j) && !(j < i);
  }

  lemma NoAreasNoPages(s: Spaces, ptes: Ptes, m: nat)
    requires EntriesOk(s, ptes) && m in s && s[m].areas == []
    ensures forall x :: x in ptes ==> x.mm != m
  {
    forall x | x in ptes ensures x.mm != m {
      assert PteOk(s[x.mm], x.page, ptes[x].flags);
    }
  }

  /** dup_mmap's next area fits in front of those already copied. */
  lemma AddAreaInFront(s: Spaces, ptes: Ptes, kernel: set<nat>, m: nat, areas: seq<Area>, i: nat)
    requires SpacesOk(s, kernel) && EntriesOk(s, ptes) && m in s
    requires AreasOk(areas) && i < |areas| && s[m].areas == areas[i + 1..]
    ensures var t := s[m := s[m].(areas := areas[i..])];
            SpacesOk(t, kernel) && EntriesOk(t, ptes) && TablesGrown(s, t, {m})
  {
    var t := s[m := s[m].(areas := areas[i..])];
    assert SpaceOk(s[m]);
    forall x | x in ptes ensures PteOk(t[x.mm], x.page, ptes[x].flags) {
      assert PteOk(s[x.mm], x.page, ptes[x].flags);
      AreaAtSuffix(areas, i, x.page);
    }
  }

  /** Exactly the pages of `from` in the areas from number `i` on have been copied. */
  ghost predicate CopiedAreas(p: Ptes, from: nat, areas: seq<Area>, i: nat, done: set<nat>)
    requires i <= |areas|
  {
    forall v :: v in done <==> Slot(from, v) in p && AreaAt(areas[i..], v)
  }

  lemma NoAreasCopied(p: Ptes, from: nat, areas: seq<Area>)
    ensures CopiedAreas(p, from, areas, |areas|, {}) && areas[|areas|..] == []
  {
  }

  lemma AreaBounds(areas: seq<Area>, i: nat)
    requires AreasOk(areas) && i < |areas|
    ensures USERBASE <= areas[i].start < areas[i].end <= USERTOP
    ensures areas[i] in areas && areas[i] in areas[i..]
  {
    assert areas[i..][0] == areas[i];
  }

  lemma VisitedBounds(p: Ptes, from: nat, done: set<nat>, lo: nat, hi: nat)
    requires Visited(p, from, done, lo, hi)
    ensures forall w :: w in done ==> lo <= w < hi
  {
  }

  /** The pages of the area dup_mmap comes to next are still unused in the child. */
  lemma NextAreaUnused(p: Ptes, q: Ptes, from: nat, to: nat, areas: seq<Area>, i: nat, done: set<nat>)
    requires AreasOk(areas) && i < |areas| && from != to
    requires forall x :: x in p ==> x.mm != to
    requires Copied(p, q, from, to, done) && CopiedAreas(p, from, areas, i + 1, done)
    ensures forall v :: areas[i].start <= v < areas[i].end ==> v !in done && Slot(to, v) !in q
  {
    forall v | areas[i].start <= v < areas[i].end ensures v !in done && Slot(to, v) !in q {
      forall a | a in areas[i + 1..] ensures !In(a, v) {
        var j :| i + 1 <= j < |areas| && areas[j] == a;
        assert areas[i].end <= areas[j].start;
      }
      CopiedDomain(p, q, from, to, done, v);
    }
  }

  lemma NextAreaCopied(p: Ptes, q: Ptes, from: nat, to: nat, areas: seq<Area>, i: nat, done: set<nat>, d: set<nat>)
    requires i < |areas| && from != to
    requires Copied(p, q, from, to, done) && CopiedAreas(p, from, areas, i + 1, done)
    requires Visited(q, from, d, areas[i].start, areas[i].end)
    ensures CopiedAreas(p, from, areas, i, done + d)
  {
    forall v: nat ensures v in done + d <==> Slot(from, v) in p && AreaAt(areas[i..], v) {
      AreaAtSuffix(areas, i, v);
      CopiedDomain(p, q, from, to, done, v);
      assert v in d <==> In(areas[i], v) && Slot(from, v) in q;
    }
  }

  lemma AllAreasCopied(s: Spaces, p: Ptes, from: nat, done: set<nat>)
    requires EntriesOk(s, p) && from in s && CopiedAreas(p, from, s[from].areas, 0, done)
    ensures forall v :: v in done <==> Slot(from, v) in p
  {
    assert s[from].areas[0..] == s[from].areas;
    forall v | Slot(from, v) in p ensures v in done {
      assert PteOk(s[from], v, p[Slot(from, v)].flags);
    }
  }

  /** Leaving out an address space that has no entries any more. */
  lemma RemoveSpace(s: Spaces, p: Ptes, kernel: set<nat>, m: nat)
    requires SpacesOk(s, kernel) && EntriesOk(s, p) && m in s
    requires forall x :: x in p ==> x.mm != m
    ensures SpacesOk(s - {m}, kernel - {s[m].root}) && EntriesOk(s - {m}, p)
  {
    RemoveOneSpace(s, kernel, m);
    hide SpacesOk, PteOk;
    forall x | x in p ensures x.mm in s - {m} && PteOk((s - {m})[x.mm], x.page, p[x].flags) {
      assert PteOk(s[x.mm], x.page, p[x].flags);
    }
  }

  lemma RemoveOneSpace(s: Spaces, kernel: set<nat>, m: nat)
    requires SpacesOk(s, kernel) && m in s
    ensures SpacesOk(s - {m}, kernel - {s[m].root})
  {
    hide SpaceOk;
  }

  /** A new address space: an empty page table and no areas. */
  lemma NewSpace(s: Spaces, p: Ptes, kernel: set<nat>, m: nat, root: nat)
    requires SpacesOk(s, kernel) && EntriesOk(s, p) && m !in s && root !in kernel
    ensures SpacesOk(s[m := Space(root, map[], map[], [])], kernel + {root})
    ensures EntriesOk(s[m := Space(root, map[], map[], [])], p)
    ensures forall x :: x in p ==> x.mm != m
  {
    assert forall x :: x in p ==> x.mm in s;
  }

  // ----------------------------------------------------------------- forking

  /** A completed fork: the child has the parent's areas and shares all its pages. */
  ghost predicate Forked(s: Spaces, p: Ptes, t: Spaces, q: Ptes, parent: nat, child: nat) {
    && parent in s && child !in s
    && t.Keys == s.Keys + {child}
    && (forall m :: m in s ==> t[m].areas == s[m].areas)
    && t[child].areas == s[parent].areas
    && (forall x :: x in q <==> x in p || (x.mm == child && Slot(parent, x.page) in p))
    && (forall x :: x in p ==> q[x] == if x.mm == parent then DemotePte(p[x]) else p[x])
    && (forall x :: x in q && x !in p ==> q[x] == DemotePte(p[Slot(parent, x.page)]))
  }

  /** A fork that failed: the parent may have been left with demoted pages, and nothing
      else happened. */
  ghost predicate RolledBack(s: Spaces, p: Ptes, t: Spaces, q: Ptes, parent: nat) {
    && t.Keys == s.Keys
    && (forall m :: m in s ==> t[m].areas == s[m].areas)
    && q.Keys == p.Keys
    && (forall x :: x in p ==> q[x] == p[x] || (x.mm == parent && q[x] == DemotePte(p[x])))
  }

  lemma NothingForked(s: Spaces, p: Ptes, parent: nat)
    ensures RolledBack(s, p, s, p, parent)
  {
  }

  lemma ForkedAll(s0: Spaces, p: Ptes, s: Spaces, t: Spaces, q: Ptes, parent: nat, child: nat, done: set<nat>)
    requires parent in s0 && child !in s0 && child in s && s == s0[child := s[child]]
    requires forall x :: x in p ==> x.mm != child
    requires TablesGrown(s, t, {child}) && child in t && t[child].areas == s0[parent].areas
    requires Copied(p, q, parent, child, done) && forall v :: v in done <==> Slot(parent, v) in p
    ensures Forked(s0, p, t, q, parent, child)
  {
    forall m | m in s0 ensures t[m].areas == s0[m].areas {
      assert m in s && m !in {child};
    }
    forall x | x in p && x.mm == parent ensures x.page in done {
      assert x == Slot(parent, x.page);
    }
    forall x | x in q && x !in p ensures q[x] == DemotePte(p[Slot(parent, x.page)]) {
      assert x == Slot(child, x.page);
    }
  }

  lemma UndoneFork(s0: Spaces, p: Ptes, s: Spaces, t: Spaces, q: Ptes, parent: nat, child: nat, done: set<nat>)
    requires parent in s0 && child !in s0 && child in s && s == s0[child := s[child]]
    requires forall x :: x in p ==> x.mm != child
    requires TablesGrown(s, t, {child}) && Copied(p, q, parent, child, done)
    ensures RolledBack(s0, p, t - {child}, WithoutMm(q, child), parent)
    ensures WithoutMm(q, child).Keys == p.Keys
    ensures forall x :: x in p ==> WithoutMm(q, child)[x].frame == p[x].frame
    ensures forall x :: x in WithoutMm(q, child) ==> x.mm != child
    ensures child in t && t[child].root == s[child].root
  {
    assert SpaceGrown(s[child], t[child]);
    forall m | m in s0 ensures m in t - {child} && t[m].areas == s0[m].areas {
      assert m in s && m !in {child};
    }
    assert WithoutMm(q, child).Keys == p.Keys;
  }

  // ----------------------------------------------------------------- loading

  lemma InsertAreaMembers(areas: seq<Area>, a: Area)
    ensures forall b :: b in InsertArea(areas, a) <==> b == a || b in areas
  {
    if areas != [] && areas[0].start <= a.start {
      InsertAreaMembers(areas[1..], a);
      assert areas == [areas[0]] + areas[1..];
    }
  }

  /** The list is in order with the new area in it exactly when the area fits. */
  lemma {:induction false} InsertAreaFits(areas: seq<Area>, a: Area)
    requires AreasOk(areas)
    ensures AreasOk(InsertArea(areas, a)) <==> AreaFits(areas, a)
    ensures multiset(InsertArea(areas, a)) == multiset(areas) + multiset{a}
  {
    hide AreasOk, AreaFits;
    if areas == [] || areas[0].start > a.start {
      FirstArea(a, areas);
      FitsBelow(areas, a);
    } else {
      var rest := areas[1..];
      assert areas == [areas[0]] + rest;
      FirstArea(areas[0], rest);
      InsertAreaFits(rest, a);
      InsertAreaMembers(rest, a);
      FirstArea(areas[0], InsertArea(rest, a));
      FitsAbove(areas[0], rest, a);
    }
  }

  lemma FitsBelow(areas: seq<Area>, a: Area)
    requires AreasOk(areas) && (areas == [] || areas[0].start > a.start)
    ensures AreaFits(areas, a) <==> USERBASE <= a.start < a.end <= USERTOP && forall b :: b in areas ==> a.end <= b.start
  {
    forall b | b in areas ensures b.start > a.start && b.start < b.end {
      var i :| 0 <= i < |areas| && areas[i] == b;
      assert i > 0 ==> areas[0].end <= areas[i].start;
    }
  }

  lemma FitsAbove(first: Area, rest: seq<Area>, a: Area)
    requires first.start <= a.start && first.start < first.end && forall b :: b in rest ==> first.end <= b.start
    ensures AreaFits([first] + rest, a) <==> AreaFits(rest, a) && first.end <= a.start
  {
    assert forall b :: b in [first] + rest <==> b == first || b in rest;
  }

  /** A list in order, taken apart. */
  lemma FirstArea(b: Area, rest: seq<Area>)
    ensures AreasOk([b] + rest) <==>
            AreasOk(rest) && USERBASE <= b.start < b.end <= USERTOP && forall c :: c in rest ==> b.end <= c.start
  {
    var t := [b] + rest;
    assert t[0] == b && t[1..] == rest;
    forall i | 0 <= i < |rest| ensures t[i + 1] == rest[i] && rest[i] in rest { }
    if AreasOk(t) {
      assert forall i :: 0 <= i < |rest| ==> rest[i] == t[i + 1];
    }
  }

  lemma InsertAreaKeepsSpaces(s: Spaces, ptes: Ptes, kernel: set<nat>, m: nat, a: Area)
    requires SpacesOk(s, kernel) && EntriesOk(s, ptes) && m in s
    requires AreaFits(s[m].areas, a)
    ensures var t := s[m := s[m].(areas := InsertArea(s[m].areas, a))];
            SpacesOk(t, kernel) && EntriesOk(t, ptes)
  {
    var t := s[m := s[m].(areas := InsertArea(s[m].areas, a))];
    InsertAreaMembers(s[m].areas, a);
    assert SpaceOk(s[m]);
    InsertAreaFits(s[m].areas, a);
    forall x | x in ptes ensures PteOk(t[x.mm], x.page, ptes[x].flags) {
      assert PteOk(s[x.mm], x.page, ptes[x].flags);
    }
  }

  /** A page mapped to a fresh frame leaves every writer alone. */
  lemma FreshKeepsWriters(p: Ptes, ref: seq<int>, free: set<nat>, kernel: set<nat>,
                          q: Ptes, ref2: seq<int>, free2: set<nat>, kernel2: set<nat>, x: Slot, pte: Pte)
    requires Frames(p, ref, free, kernel, {}) && WritersAlone(p, ref)
    requires pte.frame in free && Frames(q, ref2, free2, kernel2, {}) && q == p[x := pte]
    ensures WritersAlone(q, ref2)
  {
    assert Counted(p, ref[pte.frame], pte.frame, true);
    forall y | y in q && q[y].flags.w ensures q[y].frame < |ref2| && ref2[q[y].frame] == 1 {
      var g := q[y].frame;
      assert Counted(q, ref2[g], g, g in free2);
      if y == x {
        assert Mappers(q, g) == Mappers(p, g) + {x};
      } else {
        assert Counted(p, ref[g], g, g in free);
        assert g == pte.frame ==> y in Mappers(p, g);
        assert x in Mappers(p, g) ==> x == y by {
          if x in Mappers(p, g) { WriterIsSoleMapper(p, ref, free, kernel, {}, y, x); }
        }
        assert Mappers(q, g) == Mappers(p, g);
      }
    }
  }

  /** The area do_pgfault finds for a COW page permits writing. */
  lemma CowIsWritable(sp: Space, v: nat, f: Flags, a: Area)
    requires SpaceOk(sp) && PteOk(sp, v, f) && f.cow
    requires a in sp.areas && In(a, v)
    ensures a.write && WritableAt(sp.areas, v)
  {
    var b :| b in sp.areas && In(b, v) && b.write;
    AreaUnique(sp.areas, a, b, v);
  }
}
