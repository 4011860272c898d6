/** Which page tables exit_mmap gives back (exit_range, kern/mm/pmm.c): the run over the
    areas in closed form, the condition under which no table is lost, and a space that
    loses one. */
module CowExit {
  import opened CowState
  import opened CowTables

  // ---------------------------------------------------------- the closed form

  /** Some area before number `n` covers part of region `k`. */
  ghost predicate SweptBefore(areas: seq<Area>, n: nat, k: nat)
    requires n <= |areas|
  {
    exists j :: 0 <= j < n && Swept(areas[j].start, areas[j].end, k)
  }

  /** Area `n` has the second-level table `i` given back: every region of that directory it
      covers had a table when the process exits, and no earlier area covers it too. */
  ghost predicate ClearedBy(sp: Space, areas: seq<Area>, n: nat, i: nat)
    requires n < |areas|
  {
    var a := areas[n];
    && Directory(a.start) <= i && i * NPTEENTRY * NPTEENTRY < a.end
    && (forall k: nat :: Swept(a.start, a.end, k) && k / NPTEENTRY == i ==> k in sp.d0 && !SweptBefore(areas, n, k))
  }

  ghost predicate ClearedBefore(sp: Space, areas: seq<Area>, n: nat, i: nat)
    requires n <= |areas|
  {
    exists j :: 0 <= j < n && ClearedBy(sp, areas, j, i)
  }

  /** Area `n` has the third-level table `k` given back. */
  ghost predicate FreedBefore(sp: Space, areas: seq<Area>, n: nat, k: nat)
    requires n <= |areas|
  {
    exists j :: 0 <= j < n && Swept(areas[j].start, areas[j].end, k) && !ClearedBefore(sp, areas, j, k / NPTEENTRY)
  }

  ghost predicate Ordered(areas: seq<Area>) {
    forall i :: 0 <= i < |areas| ==> areas[i].start < areas[i].end
  }

  /** The tables left after the first `n` areas, and the frames given back. */
  ghost function LeftMids(sp: Space, areas: seq<Area>, n: nat): map<nat, nat>
    requires n <= |areas|
  {
    map i | i in sp.d1 && !ClearedBefore(sp, areas, n, i) :: sp.d1[i]
  }

  ghost function LeftLeafs(sp: Space, areas: seq<Area>, n: nat): map<nat, nat>
    requires n <= |areas|
  {
    map k | k in sp.d0 && !ClearedBefore(sp, areas, n, k / NPTEENTRY) && !SweptBefore(areas, n, k) :: sp.d0[k]
  }

  ghost function FreedMids(sp: Space, areas: seq<Area>, n: nat): set<nat>
    requires n <= |areas|
  {
    set i | i in sp.d1 && ClearedBefore(sp, areas, n, i) :: sp.d1[i]
  }

  ghost function FreedLeafs(sp: Space, areas: seq<Area>, n: nat): set<nat>
    requires n <= |areas|
  {
    set k | k in sp.d0 && FreedBefore(sp, areas, n, k) :: sp.d0[k]
  }

  lemma SweptMore(areas: seq<Area>, n: nat, k: nat)
    requires n < |areas|
    ensures SweptBefore(areas, n + 1, k) <==> SweptBefore(areas, n, k) || Swept(areas[n].start, areas[n].end, k)
  {
  }

  lemma ClearedMore(sp: Space, areas: seq<Area>, n: nat, i: nat)
    requires n < |areas|
    ensures ClearedBefore(sp, areas, n + 1, i) <==> ClearedBefore(sp, areas, n, i) || ClearedBy(sp, areas, n, i)
  {
    hide ClearedBy;
  }

  lemma FreedMore(sp: Space, areas: seq<Area>, n: nat, k: nat)
    requires n < |areas|
    ensures FreedBefore(sp, areas, n + 1, k) <==>
            FreedBefore(sp, areas, n, k)
            || (Swept(areas[n].start, areas[n].end, k) && !SweptBefore(areas, n, k) && !ClearedBefore(sp, areas, n, k / NPTEENTRY))
  {
    hide ClearedBy, Swept;
    if Swept(areas[n].start, areas[n].end, k) && SweptBefore(areas, n, k) && !ClearedBefore(sp, areas, n, k / NPTEENTRY) {
      var j :| 0 <= j < n && Swept(areas[j].start, areas[j].end, k);
      assert !ClearedBefore(sp, areas, j, k / NPTEENTRY);
    }
  }

  /** A range touches some region of each directory it reaches. */
  lemma SomeRegion(start: nat, end: nat, i: nat) returns (k: nat)
    requires start < end && Directory(start) <= i && i * NPTEENTRY * NPTEENTRY < end
    ensures Swept(start, end, k) && k / NPTEENTRY == i
  {
    k := FirstIn(start, i);
    SweptIn(start, end, i, k);
  }

  /** exit_range at area `n` clears a directory just when the pre-state says so. */
  lemma ClearsNow(sp: Space, areas: seq<Area>, n: nat, i: nat)
    requires n < |areas| && Ordered(areas)
    ensures Clears(LeftLeafs(sp, areas, n).Keys, areas[n].start, areas[n].end, i)
       <==> ClearedBy(sp, areas, n, i) && !ClearedBefore(sp, areas, n, i)
  {
    hide ClearedBefore, SweptBefore, Swept;
    var a, left := areas[n], LeftLeafs(sp, areas, n);
    if Directory(a.start) <= i && i * NPTEENTRY * NPTEENTRY < a.end {
      var r := SomeRegion(a.start, a.end, i);
    }
  }

  lemma {:induction false} ReclaimedSoFar(sp: Space, areas: seq<Area>, n: nat)
    requires SpaceOk(sp) && n <= |areas| && Ordered(areas)
    ensures ReclaimAreas(sp, areas[..n]) == sp.(d1 := LeftMids(sp, areas, n), d0 := LeftLeafs(sp, areas, n))
    ensures FreedAreas(sp, areas[..n]) == FreedMids(sp, areas, n) + FreedLeafs(sp, areas, n)
  {
    hide ReclaimAreas, FreedAreas, Reclaim, FreedBy, LeftMids, LeftLeafs, FreedMids, FreedLeafs, SpaceOk, Ordered;
    if n == 0 {
      NothingReclaimed(sp, areas);
    } else {
      ReclaimedSoFar(sp, areas, n - 1);
      ReclaimAreasStep(sp, areas, n - 1);
      LeftStep(sp, areas, n - 1);
      FreedStep(sp, areas, n - 1);
    }
  }

  lemma NothingReclaimed(sp: Space, areas: seq<Area>)
    ensures ReclaimAreas(sp, areas[..0]) == sp.(d1 := LeftMids(sp, areas, 0), d0 := LeftLeafs(sp, areas, 0))
    ensures FreedAreas(sp, areas[..0]) == FreedMids(sp, areas, 0) + FreedLeafs(sp, areas, 0)
  {
    assert LeftMids(sp, areas, 0) == sp.d1 && LeftLeafs(sp, areas, 0) == sp.d0;
  }

  lemma InRange(start: nat, end: nat, i: nat, k: nat, d0: set<nat>)
    requires start < end
    ensures Clears(d0, start, end, i) ==> i < PastDirectory(end)
    ensures Swept(start, end, k) ==> k / NPTEENTRY < PastDirectory(end)
  {
  }

  lemma LeftStep(sp: Space, areas: seq<Area>, n: nat)
    requires n < |areas| && Ordered(areas)
    ensures var s := sp.(d1 := LeftMids(sp, areas, n), d0 := LeftLeafs(sp, areas, n));
            Reclaim(s, areas[n].start, areas[n].end) == sp.(d1 := LeftMids(sp, areas, n + 1), d0 := LeftLeafs(sp, areas, n + 1))
  {
    hide Clears, Swept, ClearedBy, ClearedBefore, SweptBefore, PastDirectory;
    var s := sp.(d1 := LeftMids(sp, areas, n), d0 := LeftLeafs(sp, areas, n));
    var a := areas[n];
    var t := Reclaim(s, a.start, a.end);
    forall i | i in sp.d1 ensures i in t.d1 <==> i in LeftMids(sp, areas, n + 1) {
      ClearsNow(sp, areas, n, i);
      ClearedMore(sp, areas, n, i);
      InRange(a.start, a.end, i, 0, s.d0.Keys);
    }
    forall k | k in sp.d0 ensures k in t.d0 <==> k in LeftLeafs(sp, areas, n + 1) {
      ClearsNow(sp, areas, n, k / NPTEENTRY);
      ClearedMore(sp, areas, n, k / NPTEENTRY);
      SweptMore(areas, n, k);
      InRange(a.start, a.end, k / NPTEENTRY, k, s.d0.Keys);
    }
    assert t.d1 == LeftMids(sp, areas, n + 1);
    assert t.d0 == LeftLeafs(sp, areas, n + 1);
  }

  lemma FreedStep(sp: Space, areas: seq<Area>, n: nat)
    requires n < |areas| && Ordered(areas)
    ensures var s := sp.(d1 := LeftMids(sp, areas, n), d0 := LeftLeafs(sp, areas, n));
            FreedMids(sp, areas, n) + FreedLeafs(sp, areas, n) + FreedBy(s, areas[n].start, areas[n].end)
            == FreedMids(sp, areas, n + 1) + FreedLeafs(sp, areas, n + 1)
  {
    hide Clears, Swept, ClearedBy, ClearedBefore, SweptBefore, FreedBefore, PastDirectory;
    var s := sp.(d1 := LeftMids(sp, areas, n), d0 := LeftLeafs(sp, areas, n));
    var a := areas[n];
    forall i | i in sp.d1
      ensures ClearedBefore(sp, areas, n + 1, i) <==>
              ClearedBefore(sp, areas, n, i) || (i in s.d1 && i < PastDirectory(a.end) && Clears(s.d0.Keys, a.start, a.end, i))
    {
      ClearsNow(sp, areas, n, i);
      ClearedMore(sp, areas, n, i);
      InRange(a.start, a.end, i, 0, s.d0.Keys);
    }
    forall k | k in sp.d0
      ensures FreedBefore(sp, areas, n + 1, k) <==>
              FreedBefore(sp, areas, n, k) || (k in s.d0 && k / NPTEENTRY < PastDirectory(a.end) && Swept(a.start, a.end, k))
    {
      FreedMore(sp, areas, n, k);
      InRange(a.start, a.end, 0, k, s.d0.Keys);
    }
    FreedSets(sp, s, areas, n);
  }

  lemma FreedSets(sp: Space, s: Space, areas: seq<Area>, n: nat)
    requires n < |areas| && s == sp.(d1 := LeftMids(sp, areas, n), d0 := LeftLeafs(sp, areas, n))
    requires var a := areas[n]; forall i :: i in sp.d1 ==>
               (ClearedBefore(sp, areas, n + 1, i) <==>
                ClearedBefore(sp, areas, n, i) || (i in s.d1 && i < PastDirectory(a.end) && Clears(s.d0.Keys, a.start, a.end, i)))
    requires var a := areas[n]; forall k :: k in sp.d0 ==>
               (FreedBefore(sp, areas, n + 1, k) <==>
                FreedBefore(sp, areas, n, k) || (k in s.d0 && k / NPTEENTRY < PastDirectory(a.end) && Swept(a.start, a.end, k)))
    ensures FreedMids(sp, areas, n) + FreedLeafs(sp, areas, n) + FreedBy(s, areas[n].start, areas[n].end)
            == FreedMids(sp, areas, n + 1) + FreedLeafs(sp, areas, n + 1)
  {
    hide Clears, Swept, ClearedBefore, SweptBefore, FreedBefore, PastDirectory;
  }

  // ------------------------------------------------------------ nothing lost

  /** Different tables lie in different frames, as the ledger has it. */
  ghost predicate Apart(sp: Space) {
    && (forall i, j :: i in sp.d1 && j in sp.d1 && sp.d1[i] == sp.d1[j] ==> i == j)
    && (forall k, l :: k in sp.d0 && l in sp.d0 && sp.d0[k] == sp.d0[l] ==> k == l)
    && (forall i, k :: i in sp.d1 && k in sp.d0 ==> sp.d1[i] != sp.d0[k])
  }

  lemma LedgerApart(s: Spaces, owner: Owners, m: nat)
    requires Owned(s, owner) && m in s
    ensures Apart(s[m])
  {
    forall i | i in s[m].d1 ensures Has(owner, s[m].d1[i], Mid(m, i)) { }
    forall k | k in s[m].d0 ensures Has(owner, s[m].d0[k], Leaf(m, k)) { }
  }

  /** Each directory is cleared by some area, and no third-level table of it is first covered
      by a later area than that. */
  ghost predicate AllFound(sp: Space) {
    && (forall i :: i in sp.d1 ==> ClearedBefore(sp, sp.areas, |sp.areas|, i))
    && (forall k :: k in sp.d0 ==> FreedBefore(sp, sp.areas, |sp.areas|, k))
  }

  lemma AllGivenBack(sp: Space)
    requires SpaceOk(sp) && Apart(sp)
    ensures FreedAreas(sp, sp.areas) == sp.d1.Values + sp.d0.Values <==> AllFound(sp)
  {
    hide ClearedBefore, FreedBefore, ClearedBy, Apart, SpaceOk, FreedMids, FreedLeafs;
    var n := |sp.areas|;
    FreedWhole(sp);
    var freed := FreedAreas(sp, sp.areas);
    forall i | i in sp.d1 ensures sp.d1[i] in freed <==> ClearedBefore(sp, sp.areas, n, i) {
      MidGivenBack(sp, i);
    }
    forall k | k in sp.d0 ensures sp.d0[k] in freed <==> FreedBefore(sp, sp.areas, n, k) {
      LeafGivenBack(sp, k);
    }
    FreedAreTables(sp);
    if AllFound(sp) {
      forall f | f in sp.d1.Values + sp.d0.Values ensures f in freed {
        if f in sp.d1.Values {
          var i :| i in sp.d1 && sp.d1[i] == f;
        } else {
          var k :| k in sp.d0 && sp.d0[k] == f;
        }
      }
    }
  }

  lemma FreedWhole(sp: Space)
    requires SpaceOk(sp)
    ensures var n := |sp.areas|; FreedAreas(sp, sp.areas) == FreedMids(sp, sp.areas, n) + FreedLeafs(sp, sp.areas, n)
  {
    ReclaimedSoFar(sp, sp.areas, |sp.areas|);
    assert sp.areas[..|sp.areas|] == sp.areas;
  }

  lemma FreedAreTables(sp: Space)
    requires SpaceOk(sp)
    ensures FreedAreas(sp, sp.areas) <= sp.d1.Values + sp.d0.Values
  {
    FreedWhole(sp);
    hide ClearedBefore, FreedBefore;
  }

  lemma MidGivenBack(sp: Space, i: nat)
    requires Apart(sp) && i in sp.d1
    ensures var n := |sp.areas|; sp.d1[i] in FreedMids(sp, sp.areas, n) + FreedLeafs(sp, sp.areas, n) <==> ClearedBefore(sp, sp.areas, n, i)
  {
    hide ClearedBefore, FreedBefore;
  }

  lemma LeafGivenBack(sp: Space, k: nat)
    requires Apart(sp) && k in sp.d0
    ensures var n := |sp.areas|; sp.d0[k] in FreedMids(sp, sp.areas, n) + FreedLeafs(sp, sp.areas, n) <==> FreedBefore(sp, sp.areas, n, k)
  {
    hide ClearedBefore, FreedBefore;
  }

  /** In a state of the kernel, exit_mmap gives every table of a space back exactly when
      AllFound, on the areas and tables the space has then. */
  lemma ExitGivesAllBack(s: Spaces, owner: Owners, m: nat)
    requires Owned(s, owner) && m in s && SpaceOk(s[m])
    ensures FreedAreas(s[m], s[m].areas) == s[m].d1.Values + s[m].d0.Values <==> AllFound(s[m])
  {
    LedgerApart(s, owner, m);
    AllGivenBack(s[m]);
  }

  /** Two areas 4 MiB apart, with a page mapped in each. */
  const APART := Space(10, map[0 := 11], map[4 := 12, 8 := 13], [Area(2048, 2049, true), Area(4096, 4097, true)])

  lemma ApartIsCleared()
    ensures ClearedBy(APART, APART.areas, 0, 0)
  {
    forall k ensures Swept(2048, 2049, k) <==> k == 4 { }
  }

  lemma ApartIsNotSwept()
    ensures !Swept(2048, 2049, 8)
  {
  }

  lemma ApartIsASpace()
    ensures SpaceOk(APART) && Apart(APART) && Ordered(APART.areas)
  {
  }

  lemma ApartKeepsOne()
    ensures 13 !in FreedMids(APART, APART.areas, 2) + FreedLeafs(APART, APART.areas, 2)
  {
    hide ClearedBy, Swept;
    ApartIsCleared();
    ApartIsNotSwept();
    assert ClearedBefore(APART, APART.areas, 1, 8 / NPTEENTRY);
    assert !FreedBefore(APART, APART.areas, 2, 8);
  }

  /** exit_range gives the directory back with the first one's table and never comes to the
      second one's: frame 13 is neither free nor in any page table afterwards. */
  lemma LostTable()
    ensures SpaceOk(APART) && Apart(APART) && 13 !in FreedAreas(APART, APART.areas)
  {
    hide SpaceOk, Apart, Ordered, FreedMids, FreedLeafs, FreedAreas, ReclaimAreas;
    ApartIsASpace();
    ApartKeepsOne();
    ReclaimedSoFar(APART, APART.areas, 2);
    assert APART.areas[..2] == APART.areas;
  }

  // --------------------------------------------------------------- the ledger

  /** What an exit loses are the tables exit_range did not give back. */
  lemma LostAfterExit(s: Spaces, owner: Owners, kernel: set<nat>, owner2: Owners, kernel2: set<nat>, reserved: set<nat>, m: nat)
    requires Ledger(s, owner, kernel, reserved) && m in s && SpaceOk(s[m])
    requires Ledger(s - {m}, owner2, kernel2, reserved)
    requires kernel2 == kernel - FreedAreas(s[m], s[m].areas) - {s[m].root}
    ensures forall f :: Has(owner2, f, Lost) <==>
              Has(owner, f, Lost) || (f in s[m].d1.Values + s[m].d0.Values && f !in FreedAreas(s[m], s[m].areas))
  {
    FreedAreTables(s[m]);
    var tables, freed := s[m].d1.Values + s[m].d0.Values, FreedAreas(s[m], s[m].areas);
    hide FreedAreas, SpaceOk;
    forall f ensures Has(owner2, f, Lost) <==> Has(owner, f, Lost) || (f in tables && f !in freed) {
      OwnerOf(s, owner, f, m);
      if f in owner && owner[f] != Lost { OwnerElsewhere(s, owner, owner2, m, f, owner[f]); }
      if f in owner2 && owner2[f] != Lost { OwnerElsewhere(s, owner, owner2, m, f, owner2[f]); }
      if f in owner && owner[f].Root? && owner[f].m == m { assert ServesAs(s, f, owner[f]); }
    }
  }

  /** The tables of other processes stay what they are. */
  lemma OwnerElsewhere(s: Spaces, owner: Owners, owner2: Owners, m: nat, f: nat, p: Place)
    requires Owned(s, owner) && Owned(s - {m}, owner2) && p != Lost
    ensures p.m != m ==> (Has(owner, f, p) <==> Has(owner2, f, p))
    ensures p.m == m ==> !Has(owner2, f, p)
  {
    if Has(owner, f, p) { assert ServesAs(s, f, p); }
    if Has(owner2, f, p) { assert ServesAs(s - {m}, f, p); }
  }

  lemma OwnerOf(s: Spaces, owner: Owners, f: nat, m: nat)
    requires Owned(s, owner) && m in s
    ensures f in s[m].d1.Values + s[m].d0.Values <==> f in owner && !owner[f].Lost? && !owner[f].Root? && owner[f].m == m
    ensures f == s[m].root <==> Has(owner, f, Root(m))
  {
    assert Has(owner, s[m].root, Root(m));
    if i :| i in s[m].d1 && s[m].d1[i] == f { assert Has(owner, s[m].d1[i], Mid(m, i)); }
    if k :| k in s[m].d0 && s[m].d0[k] == f { assert Has(owner, s[m].d0[k], Leaf(m, k)); }
    if f in owner { assert ServesAs(s, f, owner[f]); }
  }

  /** Once every process has exited, the allocator has back every frame but those the kernel
      occupies itself and the tables exit_range lost: no user frame leaks, whatever was
      forked, split and unmapped before. */
  lemma OnlyTablesAreLost(s: Spaces, ptes: Ptes, ref: seq<int>, free: set<nat>, owner: Owners, kernel: set<nat>, reserved: set<nat>)
    requires Frames(ptes, ref, free, kernel, {}) && EntriesOk(s, ptes) && Ledger(s, owner, kernel, reserved) && s == map[]
    ensures free == set f | 0 <= f < |ref| && f !in reserved && f !in owner
    ensures forall f :: f in owner ==> owner[f] == Lost
  {
    NothingLeaks(s, ptes, ref, free, kernel);
    forall f | f in owner ensures owner[f] == Lost {
      assert ServesAs(s, f, owner[f]);
    }
  }

  /** An exit loses no frame exactly when AllFound. */
  lemma ExitLosesNothing(s: Spaces, owner: Owners, kernel: set<nat>, owner2: Owners, kernel2: set<nat>, reserved: set<nat>, m: nat)
    requires Ledger(s, owner, kernel, reserved) && m in s && SpaceOk(s[m])
    requires Ledger(s - {m}, owner2, kernel2, reserved)
    requires kernel2 == kernel - FreedAreas(s[m], s[m].areas) - {s[m].root}
    ensures (forall f :: Has(owner2, f, Lost) <==> Has(owner, f, Lost)) <==> AllFound(s[m])
  {
    LostAfterExit(s, owner, kernel, owner2, kernel2, reserved, m);
    ExitGivesAllBack(s, owner, m);
    FreedAreTables(s[m]);
    var tables, freed := s[m].d1.Values + s[m].d0.Values, FreedAreas(s[m], s[m].areas);
    hide FreedAreas, SpaceOk, AllFound;
    forall f | f in tables ensures !Has(owner, f, Lost) { OwnerOf(s, owner, f, m); }
    if f :| f in tables && f !in freed {
      assert Has(owner2, f, Lost) && !Has(owner, f, Lost);
    }
  }
}
