/** The frames page tables take and give back: which frame serves which table, how many a
    fork needs, and what exit_range (kern/mm/pmm.c) reclaims. */
module CowTables {
  import opened CowState

  // ------------------------------------------------------------ what is needed

  /** The 2 MiB and the 1 GiB region a page lies in: the tables that serve it. */
  function Region(v: nat): nat { v / NPTEENTRY }

  function Directory(v: nat): nat { v / NPTEENTRY / NPTEENTRY }

  function Regions(pages: set<nat>): set<nat> { set v | v in pages :: Region(v) }

  function Directories(pages: set<nat>): set<nat> { set v | v in pages :: Directory(v) }

  /** Tables get_pte still has to build for page `v`. */
  function Missing(sp: Space, v: nat): nat {
    (if Directory(v) in sp.d1 then 0 else 1) + (if Region(v) in sp.d0 then 0 else 1)
  }

  /** The pages with a valid entry in `m`. */
  function Mapped(ptes: Ptes, m: nat): set<nat> { set x | x in ptes && x.mm == m :: x.page }

  /** Tables a copy of `m` needs. */
  function ForkTables(ptes: Ptes, m: nat): nat {
    |Directories(Mapped(ptes, m))| + |Regions(Mapped(ptes, m))|
  }

  /** Free frames and the tables of one space: building tables moves frames from one to the
      other. */
  function Budget(free: set<nat>, sp: Space): nat { |free| + |sp.d1| + |sp.d0| }

  /** The tables of `b` are those of `a` and those that serve `pages`. */
  ghost predicate Grew(a: Space, b: Space, pages: set<nat>) {
    && b.d0.Keys == a.d0.Keys + Regions(pages)
    && b.d1.Keys == a.d1.Keys + Directories(pages)
  }

  /** Building the tables for `v` stopped for want of a frame. */
  ghost predicate Stuck(a: Space, b: Space, v: nat) {
    && b.d0.Keys == a.d0.Keys && Region(v) !in b.d0
    && a.d1.Keys <= b.d1.Keys <= a.d1.Keys + {Directory(v)}
  }

  lemma OneRegion(v: nat)
    ensures Regions({v}) == {Region(v)} && Directories({v}) == {Directory(v)}
  {
  }

  lemma RegionsUnion(a: set<nat>, b: set<nat>)
    ensures Regions(a + b) == Regions(a) + Regions(b) && Directories(a + b) == Directories(a) + Directories(b)
  {
  }

  lemma RegionsSubset(a: set<nat>, b: set<nat>)
    requires a <= b
    ensures Regions(a) <= Regions(b) && Directories(a) <= Directories(b)
  {
  }

  /** From the keys of the tables. */
  lemma TablesFor(a: Space, b: Space, v: nat)
    requires SpaceOk(a) && a.d1.Keys <= b.d1.Keys <= a.d1.Keys + {Directory(v)}
    requires a.d0.Keys <= b.d0.Keys <= a.d0.Keys + {Region(v)}
    requires Region(v) in b.d0 ==> Directory(v) in b.d1
    ensures if Region(v) in b.d0 then Grew(a, b, {v}) else Stuck(a, b, v)
  {
    OneRegion(v);
  }

  /** Tables once built need no more frames. */
  lemma TablesStay(s: Spaces, t: Spaces, m: nat, v: nat, ok: bool)
    requires m in s && m in t && Region(v) in s[m].d0 && (ok <==> Region(v) in t[m].d0)
    requires if ok then Grew(s[m], t[m], {v}) else Stuck(s[m], t[m], v)
    ensures ok
  {
  }

  /** Building the tables for `pages` was done, those for `v` could not be. */
  ghost predicate StuckAfter(a: Space, b: Space, pages: set<nat>, v: nat) {
    && b.d0.Keys == a.d0.Keys + Regions(pages) && Region(v) !in b.d0
    && b.d1.Keys <= a.d1.Keys + Directories(pages + {v})
  }

  lemma StuckNow(a: Space, b: Space, c: Space, pages: set<nat>, v: nat)
    requires Grew(a, b, pages) && Stuck(b, c, v)
    ensures StuckAfter(a, c, pages, v)
  {
    RegionsUnion(pages, {v});
    OneRegion(v);
  }

  lemma GrewTwice(a: Space, b: Space, c: Space, p: set<nat>, q: set<nat>)
    requires Grew(a, b, p) && Grew(b, c, q)
    ensures Grew(a, c, p + q)
  {
    RegionsUnion(p, q);
  }

  lemma GrewNothing(a: Space)
    ensures Grew(a, a, {})
  {
  }

  // ------------------------------------------------------------ who holds what

  /** What a frame of the kernel's serves as. `Lost` is a table no page table leads to. */
  datatype Place = Root(m: nat) | Mid(m: nat, i: nat) | Leaf(m: nat, k: nat) | Lost

  type Owners = map<nat, Place>

  ghost predicate ServesAs(s: Spaces, f: nat, p: Place) {
    match p
    case Root(m) => m in s && s[m].root == f
    case Mid(m, i) => m in s && i in s[m].d1 && s[m].d1[i] == f
    case Leaf(m, k) => m in s && k in s[m].d0 && s[m].d0[k] == f
    case Lost => true
  }

  ghost predicate Has(owner: Owners, f: nat, p: Place) {
    f in owner && owner[f] == p
  }

  /** Page tables share no frame: each frame serves one table, each table has its frame. */
  ghost predicate Owned(s: Spaces, owner: Owners) {
    && (forall f :: f in owner ==> ServesAs(s, f, owner[f]))
    && (forall m :: m in s ==> Has(owner, s[m].root, Root(m)))
    && (forall m, i :: m in s && i in s[m].d1 ==> Has(owner, s[m].d1[i], Mid(m, i)))
    && (forall m, k :: m in s && k in s[m].d0 ==> Has(owner, s[m].d0[k], Leaf(m, k)))
  }

  /** The kernel's frames are the reserved ones and the tables. */
  ghost predicate Ledger(s: Spaces, owner: Owners, kernel: set<nat>, reserved: set<nat>) {
    Owned(s, owner) && reserved !! owner.Keys && kernel == reserved + owner.Keys
  }

  lemma TakeKeepsLedger(s: Spaces, owner: Owners, kernel: set<nat>, reserved: set<nat>, f: nat)
    requires Ledger(s, owner, kernel, reserved) && f !in kernel
    ensures Ledger(s, owner[f := Lost], kernel + {f}, reserved)
  {
    var owner2 := owner[f := Lost];
    forall g | g in owner2 ensures ServesAs(s, g, owner2[g]) {
      assert g != f ==> ServesAs(s, g, owner[g]);
    }
    forall m | m in s ensures Has(owner2, s[m].root, Root(m)) {
      assert Has(owner, s[m].root, Root(m));
    }
    forall m, i | m in s && i in s[m].d1 ensures Has(owner2, s[m].d1[i], Mid(m, i)) {
      assert Has(owner, s[m].d1[i], Mid(m, i));
    }
    forall m, k | m in s && k in s[m].d0 ensures Has(owner2, s[m].d0[k], Leaf(m, k)) {
      assert Has(owner, s[m].d0[k], Leaf(m, k));
    }
  }

  lemma HangMid(s: Spaces, owner: Owners, kernel: set<nat>, reserved: set<nat>, m: nat, i: nat, f: nat)
    requires Ledger(s, owner, kernel, reserved) && Has(owner, f, Lost) && m in s && i !in s[m].d1
    ensures Ledger(s[m := s[m].(d1 := s[m].d1[i := f])], owner[f := Mid(m, i)], kernel, reserved)
  {
    var s2, owner2 := s[m := s[m].(d1 := s[m].d1[i := f])], owner[f := Mid(m, i)];
    forall g | g in owner2 ensures ServesAs(s2, g, owner2[g]) {
      assert g != f ==> ServesAs(s, g, owner[g]);
    }
    forall n | n in s2 ensures Has(owner2, s2[n].root, Root(n)) {
      assert Has(owner, s[n].root, Root(n));
    }
    forall n, j | n in s2 && j in s2[n].d1 ensures Has(owner2, s2[n].d1[j], Mid(n, j)) {
      assert !(n == m && j == i) ==> Has(owner, s[n].d1[j], Mid(n, j));
    }
    forall n, k | n in s2 && k in s2[n].d0 ensures Has(owner2, s2[n].d0[k], Leaf(n, k)) {
      assert Has(owner, s[n].d0[k], Leaf(n, k));
    }
    assert owner2.Keys == owner.Keys;
  }

  lemma HangLeaf(s: Spaces, owner: Owners, kernel: set<nat>, reserved: set<nat>, m: nat, k: nat, f: nat)
    requires Ledger(s, owner, kernel, reserved) && Has(owner, f, Lost) && m in s && k !in s[m].d0
    ensures Ledger(s[m := s[m].(d0 := s[m].d0[k := f])], owner[f := Leaf(m, k)], kernel, reserved)
  {
    var s2, owner2 := s[m := s[m].(d0 := s[m].d0[k := f])], owner[f := Leaf(m, k)];
    forall g | g in owner2 ensures ServesAs(s2, g, owner2[g]) {
      assert g != f ==> ServesAs(s, g, owner[g]);
    }
    forall n | n in s2 ensures Has(owner2, s2[n].root, Root(n)) {
      assert Has(owner, s[n].root, Root(n));
    }
    forall n, j | n in s2 && j in s2[n].d1 ensures Has(owner2, s2[n].d1[j], Mid(n, j)) {
      assert Has(owner, s[n].d1[j], Mid(n, j));
    }
    forall n, l | n in s2 && l in s2[n].d0 ensures Has(owner2, s2[n].d0[l], Leaf(n, l)) {
      assert !(n == m && l == k) ==> Has(owner, s[n].d0[l], Leaf(n, l));
    }
    assert owner2.Keys == owner.Keys;
  }

  lemma HangRoot(s: Spaces, owner: Owners, kernel: set<nat>, reserved: set<nat>, m: nat, f: nat)
    requires Ledger(s, owner, kernel, reserved) && Has(owner, f, Lost) && m !in s
    ensures Ledger(s[m := Space(f, map[], map[], [])], owner[f := Root(m)], kernel, reserved)
  {
    var s2, owner2 := s[m := Space(f, map[], map[], [])], owner[f := Root(m)];
    forall g | g in owner2 ensures ServesAs(s2, g, owner2[g]) {
      assert g != f ==> ServesAs(s, g, owner[g]);
    }
    forall n | n in s2 ensures Has(owner2, s2[n].root, Root(n)) {
      assert n != m ==> Has(owner, s[n].root, Root(n));
    }
    forall n, j | n in s2 && j in s2[n].d1 ensures Has(owner2, s2[n].d1[j], Mid(n, j)) {
      assert Has(owner, s[n].d1[j], Mid(n, j));
    }
    forall n, k | n in s2 && k in s2[n].d0 ensures Has(owner2, s2[n].d0[k], Leaf(n, k)) {
      assert Has(owner, s[n].d0[k], Leaf(n, k));
    }
    assert owner2.Keys == owner.Keys;
  }

  /** Areas are no concern of the ledger. */
  lemma AreasKeepLedger(s: Spaces, owner: Owners, kernel: set<nat>, reserved: set<nat>, m: nat, areas: seq<Area>)
    requires Ledger(s, owner, kernel, reserved) && m in s
    ensures Ledger(s[m := s[m].(areas := areas)], owner, kernel, reserved)
  {
    var s2 := s[m := s[m].(areas := areas)];
    forall g | g in owner ensures ServesAs(s2, g, owner[g]) {
      assert ServesAs(s, g, owner[g]);
    }
  }

  // ------------------------------------------------------------ giving tables back

  /** The space without the third-level table for region `k`. */
  function WithoutLeaf(sp: Space, k: nat): Space { sp.(d0 := sp.d0 - {k}) }

  /** The space without the second-level table `i` and what only it led to. */
  function WithoutMid(sp: Space, i: nat): Space {
    sp.(d1 := sp.d1 - {i}, d0 := map k | k in sp.d0 && k / NPTEENTRY != i :: sp.d0[k])
  }

  function Orphaned(owner: Owners, m: nat, i: nat): Owners {
    map f | f in owner :: if owner[f].Leaf? && owner[f].m == m && owner[f].k / NPTEENTRY == i then Lost else owner[f]
  }

  lemma FreeLeafKeepsLedger(s: Spaces, owner: Owners, kernel: set<nat>, reserved: set<nat>, m: nat, k: nat)
    requires Ledger(s, owner, kernel, reserved) && m in s && k in s[m].d0
    ensures var f := s[m].d0[k]; f in kernel && Ledger(s[m := WithoutLeaf(s[m], k)], owner - {f}, kernel - {f}, reserved)
  {
    var f := s[m].d0[k];
    var s2, owner2 := s[m := WithoutLeaf(s[m], k)], owner - {f};
    assert Has(owner, f, Leaf(m, k));
    forall g | g in owner2 ensures ServesAs(s2, g, owner2[g]) {
      assert ServesAs(s, g, owner[g]);
    }
    forall n | n in s2 ensures Has(owner2, s2[n].root, Root(n)) {
      assert Has(owner, s[n].root, Root(n));
    }
    forall n, j | n in s2 && j in s2[n].d1 ensures Has(owner2, s2[n].d1[j], Mid(n, j)) {
      assert Has(owner, s[n].d1[j], Mid(n, j));
    }
    forall n, l | n in s2 && l in s2[n].d0 ensures Has(owner2, s2[n].d0[l], Leaf(n, l)) {
      assert Has(owner, s[n].d0[l], Leaf(n, l));
    }
  }

  lemma FreeMidKeepsLedger(s: Spaces, owner: Owners, kernel: set<nat>, reserved: set<nat>, m: nat, i: nat)
    requires Ledger(s, owner, kernel, reserved) && m in s && i in s[m].d1
    ensures var f := s[m].d1[i];
            f in kernel && Ledger(s[m := WithoutMid(s[m], i)], Orphaned(owner - {f}, m, i), kernel - {f}, reserved)
  {
    var f := s[m].d1[i];
    var s2, owner2 := s[m := WithoutMid(s[m], i)], Orphaned(owner - {f}, m, i);
    OwnersStay(s, owner);
    assert Has(owner, f, Mid(m, i));
    assert owner2.Keys == owner.Keys - {f};
    WithoutMidServes(s, owner, m, i);
    hide ServesAs, WithoutMid, Orphaned;
    WithoutMidTables(s, owner, m, i);
  }

  lemma OwnersStay(s: Spaces, owner: Owners)
    requires Owned(s, owner)
    ensures forall m, i :: m in s && i in s[m].d1 ==> Has(owner, s[m].d1[i], Mid(m, i))
  {
  }

  lemma WithoutMidServes(s: Spaces, owner: Owners, m: nat, i: nat)
    requires Owned(s, owner) && m in s && i in s[m].d1
    ensures var owner2 := Orphaned(owner - {s[m].d1[i]}, m, i);
            forall g :: g in owner2 ==> ServesAs(s[m := WithoutMid(s[m], i)], g, owner2[g])
  {
    var owner2 := Orphaned(owner - {s[m].d1[i]}, m, i);
    forall g | g in owner2 ensures ServesAs(s[m := WithoutMid(s[m], i)], g, owner2[g]) {
      assert ServesAs(s, g, owner[g]);
    }
  }

  lemma WithoutMidTables(s: Spaces, owner: Owners, m: nat, i: nat)
    requires Owned(s, owner) && m in s && i in s[m].d1
    ensures var s2, owner2 := s[m := WithoutMid(s[m], i)], Orphaned(owner - {s[m].d1[i]}, m, i);
            && (forall n :: n in s2 ==> Has(owner2, s2[n].root, Root(n)))
            && (forall n, j :: n in s2 && j in s2[n].d1 ==> Has(owner2, s2[n].d1[j], Mid(n, j)))
            && (forall n, l :: n in s2 && l in s2[n].d0 ==> Has(owner2, s2[n].d0[l], Leaf(n, l)))
  {
    var f := s[m].d1[i];
    var s2, owner2 := s[m := WithoutMid(s[m], i)], Orphaned(owner - {f}, m, i);
    assert Has(owner, f, Mid(m, i));
    forall n | n in s2 ensures Has(owner2, s2[n].root, Root(n)) {
      assert Has(owner, s[n].root, Root(n));
    }
    forall n, j | n in s2 && j in s2[n].d1 ensures Has(owner2, s2[n].d1[j], Mid(n, j)) {
      assert Has(owner, s[n].d1[j], Mid(n, j));
    }
    forall n, l | n in s2 && l in s2[n].d0 ensures Has(owner2, s2[n].d0[l], Leaf(n, l)) {
      assert Has(owner, s[n].d0[l], Leaf(n, l));
    }
  }

  /** put_pgdir: the root is free, whatever tables are still under it are lost. */
  function Abandoned(owner: Owners, m: nat): Owners {
    map f | f in owner && owner[f] != Root(m) :: if !owner[f].Lost? && owner[f].m == m then Lost else owner[f]
  }

  lemma FreeRootKeepsLedger(s: Spaces, owner: Owners, kernel: set<nat>, reserved: set<nat>, m: nat)
    requires Ledger(s, owner, kernel, reserved) && m in s
    ensures var f := s[m].root; f in kernel && Ledger(s - {m}, Abandoned(owner, m), kernel - {f}, reserved)
  {
    var f := s[m].root;
    var s2, owner2 := s - {m}, Abandoned(owner, m);
    assert Has(owner, f, Root(m));
    forall g | g in owner && owner[g] == Root(m) ensures g == f {
      assert ServesAs(s, g, owner[g]);
    }
    assert owner2.Keys == owner.Keys - {f};
    forall g | g in owner2 ensures ServesAs(s2, g, owner2[g]) {
      assert ServesAs(s, g, owner[g]);
    }
    forall n | n in s2 ensures Has(owner2, s2[n].root, Root(n)) {
      assert Has(owner, s[n].root, Root(n));
    }
    forall n, j | n in s2 && j in s2[n].d1 ensures Has(owner2, s2[n].d1[j], Mid(n, j)) {
      assert Has(owner, s[n].d1[j], Mid(n, j));
    }
    forall n, l | n in s2 && l in s2[n].d0 ensures Has(owner2, s2[n].d0[l], Leaf(n, l)) {
      assert Has(owner, s[n].d0[l], Leaf(n, l));
    }
  }

  // ------------------------------------------------------------ exit_range

  /** Regions exit_range looks at. */
  predicate Swept(start: nat, end: nat, k: nat) { Region(start) <= k && k * NPTEENTRY < end }

  /** exit_range gives a second-level table back when every entry it looks at was valid,
      whatever the other entries hold. */
  ghost predicate Clears(d0: set<nat>, start: nat, end: nat, i: nat) {
    && Directory(start) <= i && i * NPTEENTRY * NPTEENTRY < end
    && (forall k: nat :: Swept(start, end, k) && k / NPTEENTRY == i ==> k in d0)
  }

  /** What is left of a space once exit_range has gone through the directories below `hi`. */
  ghost function ReclaimTo(sp: Space, start: nat, end: nat, hi: nat): Space {
    sp.(d1 := map i | i in sp.d1 && !(i < hi && Clears(sp.d0.Keys, start, end, i)) :: sp.d1[i],
        d0 := map k | k in sp.d0 && !Gone(sp, start, end, hi, k) :: sp.d0[k])
  }

  ghost predicate Gone(sp: Space, start: nat, end: nat, hi: nat, k: nat) {
    k / NPTEENTRY < hi && (Swept(start, end, k) || Clears(sp.d0.Keys, start, end, k / NPTEENTRY))
  }

  /** The frames it has given back by then. */
  ghost function FreedTo(sp: Space, start: nat, end: nat, hi: nat): set<nat> {
    (set i | i in sp.d1 && i < hi && Clears(sp.d0.Keys, start, end, i) :: sp.d1[i])
    + (set k | k in sp.d0 && k / NPTEENTRY < hi && Swept(start, end, k) :: sp.d0[k])
  }

  /** The third-level tables for regions `lo` to below `hi`, and the rest. */
  ghost function LeafsIn(sp: Space, lo: nat, hi: nat): set<nat> {
    set k | k in sp.d0 && lo <= k < hi :: sp.d0[k]
  }

  function WithoutLeafs(sp: Space, lo: nat, hi: nat): Space {
    sp.(d0 := map k | k in sp.d0 && !(lo <= k < hi) :: sp.d0[k])
  }

  lemma LeafsStep(sp: Space, lo: nat, k: nat)
    requires lo <= k
    ensures k in sp.d0 ==> k in WithoutLeafs(sp, lo, k).d0 && WithoutLeafs(sp, lo, k).d0[k] == sp.d0[k]
    ensures k in sp.d0 ==> WithoutLeafs(sp, lo, k + 1) == WithoutLeaf(WithoutLeafs(sp, lo, k), k)
    ensures k in sp.d0 ==> LeafsIn(sp, lo, k + 1) == LeafsIn(sp, lo, k) + {sp.d0[k]}
    ensures k !in sp.d0 ==> WithoutLeafs(sp, lo, k + 1) == WithoutLeafs(sp, lo, k) && LeafsIn(sp, lo, k + 1) == LeafsIn(sp, lo, k)
    ensures k !in sp.d0 ==> k !in WithoutLeafs(sp, lo, k).d0
  {
  }

  lemma LeafsNone(sp: Space, lo: nat)
    ensures WithoutLeafs(sp, lo, lo) == sp && LeafsIn(sp, lo, lo) == {}
  {
  }

  /** First and last region exit_range looks at in directory `i`. */
  function FirstIn(start: nat, i: nat): nat { if i == Directory(start) then Region(start) else i * NPTEENTRY }

  function LastIn(end: nat, i: nat): nat {
    var cap := (end + NPTEENTRY - 1) / NPTEENTRY;
    if cap < (i + 1) * NPTEENTRY then cap else (i + 1) * NPTEENTRY
  }

  lemma SweptIn(start: nat, end: nat, i: nat, k: nat)
    requires Directory(start) <= i && i * NPTEENTRY * NPTEENTRY < end && start < end
    ensures FirstIn(start, i) < LastIn(end, i) && i * NPTEENTRY <= FirstIn(start, i)
    ensures FirstIn(start, i) <= k < LastIn(end, i) <==> Swept(start, end, k) && k / NPTEENTRY == i
    ensures k / NPTEENTRY < i && Swept(start, end, k) ==> Directory(start) <= k / NPTEENTRY
  {
  }

  function PastDirectory(end: nat): nat { (end + NPTEENTRY * NPTEENTRY - 1) / (NPTEENTRY * NPTEENTRY) }

  lemma DirectoryBounds(start: nat, end: nat, i: nat)
    requires start < end
    ensures Directory(start) < PastDirectory(end)
    ensures i * NPTEENTRY * NPTEENTRY < end <==> i < PastDirectory(end)
  {
  }

  /** Nothing happens below the range's first directory. */
  lemma ReclaimNone(sp: Space, start: nat, end: nat)
    ensures ReclaimTo(sp, start, end, Directory(start)) == sp && FreedTo(sp, start, end, Directory(start)) == {}
  {
    assert forall k: nat :: k / NPTEENTRY < Directory(start) ==> !Swept(start, end, k);
  }

  /** Whether exit_range finds every entry of directory `i` valid that it looks at. */
  ghost predicate AllIn(d0: set<nat>, lo: nat, hi: nat) {
    forall k: nat :: lo <= k < hi ==> k in d0
  }

  lemma ClearsIsAllIn(sp: Space, start: nat, end: nat, i: nat)
    requires start < end && Directory(start) <= i && i * NPTEENTRY * NPTEENTRY < end
    ensures Clears(sp.d0.Keys, start, end, i) <==> AllIn(sp.d0.Keys, FirstIn(start, i), LastIn(end, i))
    ensures AllIn(sp.d0.Keys, FirstIn(start, i), LastIn(end, i)) <==>
            AllIn(ReclaimTo(sp, start, end, i).d0.Keys, FirstIn(start, i), LastIn(end, i))
  {
    var a := ReclaimTo(sp, start, end, i);
    forall k: nat
      ensures FirstIn(start, i) <= k < LastIn(end, i) <==> Swept(start, end, k) && k / NPTEENTRY == i
      ensures k / NPTEENTRY == i ==> (k in sp.d0.Keys <==> k in a.d0.Keys)
    {
      SweptIn(start, end, i, k);
    }
  }

  /** A directory without a table has nothing to give back. */
  lemma ReclaimAbsent(sp: Space, start: nat, end: nat, i: nat)
    requires SpaceOk(sp) && i !in sp.d1
    ensures ReclaimTo(sp, start, end, i + 1) == ReclaimTo(sp, start, end, i)
    ensures FreedTo(sp, start, end, i + 1) == FreedTo(sp, start, end, i)
  {
    forall k | k in sp.d0 ensures k / NPTEENTRY != i { }
  }

  /** One directory of exit_range. */
  lemma ReclaimPresent(sp: Space, start: nat, end: nat, i: nat, all: bool)
    requires start < end && Directory(start) <= i && i * NPTEENTRY * NPTEENTRY < end && i in sp.d1
    requires all <==> AllIn(ReclaimTo(sp, start, end, i).d0.Keys, FirstIn(start, i), LastIn(end, i))
    ensures var a := ReclaimTo(sp, start, end, i); var lo, hi := FirstIn(start, i), LastIn(end, i);
            && i in a.d1 && a.d1[i] == sp.d1[i]
            && ReclaimTo(sp, start, end, i + 1) == (if all then WithoutMid(WithoutLeafs(a, lo, hi), i) else WithoutLeafs(a, lo, hi))
            && FreedTo(sp, start, end, i + 1) ==
               FreedTo(sp, start, end, i) + LeafsIn(a, lo, hi) + (if all then {sp.d1[i]} else {})
  {
    var a := ReclaimTo(sp, start, end, i);
    var lo, hi := FirstIn(start, i), LastIn(end, i);
    ClearsIsAllIn(sp, start, end, i);
    hide Clears, AllIn;
    forall k | k in sp.d0 ensures lo <= k < hi <==> Swept(start, end, k) && k / NPTEENTRY == i {
      SweptIn(start, end, i, k);
    }
    hide ReclaimTo, FreedTo, LeafsIn, WithoutMid, WithoutLeafs, Swept, FirstIn, LastIn, Directory;
    LeftPresent(sp, start, end, i, all, a, lo, hi);
    FreedPresent(sp, start, end, i, all, a, lo, hi);
  }

  lemma LeftPresent(sp: Space, start: nat, end: nat, i: nat, all: bool, a: Space, lo: nat, hi: nat)
    requires i in sp.d1 && a == ReclaimTo(sp, start, end, i) && (all <==> Clears(sp.d0.Keys, start, end, i))
    requires forall k :: k in sp.d0 ==> (lo <= k < hi <==> Swept(start, end, k) && k / NPTEENTRY == i)
    ensures i in a.d1 && a.d1[i] == sp.d1[i]
    ensures ReclaimTo(sp, start, end, i + 1) == if all then WithoutMid(WithoutLeafs(a, lo, hi), i) else WithoutLeafs(a, lo, hi)
  {
    hide Clears, Swept;
    var c, b := ReclaimTo(sp, start, end, i + 1), WithoutLeafs(a, lo, hi);
    var want := if all then WithoutMid(b, i) else b;
    assert c.d1 == want.d1;
    assert c.d0 == want.d0;
  }

  lemma FreedPresent(sp: Space, start: nat, end: nat, i: nat, all: bool, a: Space, lo: nat, hi: nat)
    requires i in sp.d1 && a == ReclaimTo(sp, start, end, i) && (all <==> Clears(sp.d0.Keys, start, end, i))
    requires forall k :: k in sp.d0 ==> (lo <= k < hi <==> Swept(start, end, k) && k / NPTEENTRY == i)
    ensures FreedTo(sp, start, end, i + 1) == FreedTo(sp, start, end, i) + LeafsIn(a, lo, hi) + (if all then {sp.d1[i]} else {})
  {
    hide Clears, Swept;
    var before, after := FreedTo(sp, start, end, i), FreedTo(sp, start, end, i + 1);
    var want := before + LeafsIn(a, lo, hi) + (if all then {sp.d1[i]} else {});
    forall f | f in after ensures f in want {
      if k :| k in sp.d0 && k / NPTEENTRY < i + 1 && Swept(start, end, k) && sp.d0[k] == f {
        assert k / NPTEENTRY == i ==> k in a.d0;
      } else {
        var j :| j in sp.d1 && j < i + 1 && Clears(sp.d0.Keys, start, end, j) && sp.d1[j] == f;
      }
    }
    forall f | f in want ensures f in after {
      if f in LeafsIn(a, lo, hi) {
        var k :| k in a.d0 && lo <= k < hi && a.d0[k] == f;
        assert k in sp.d0 && sp.d0[k] == f;
      }
    }
  }

  /** What exit_range leaves of a space, and the frames it gives back. */
  ghost function Reclaim(sp: Space, start: nat, end: nat): Space { ReclaimTo(sp, start, end, PastDirectory(end)) }

  ghost function FreedBy(sp: Space, start: nat, end: nat): set<nat> { FreedTo(sp, start, end, PastDirectory(end)) }

  /** The second loop of exit_mmap, over the areas in list order. */
  ghost function ReclaimAreas(sp: Space, areas: seq<Area>): Space {
    if areas == [] then sp
    else var n := |areas| - 1; Reclaim(ReclaimAreas(sp, areas[..n]), areas[n].start, areas[n].end)
  }

  ghost function FreedAreas(sp: Space, areas: seq<Area>): set<nat> {
    if areas == [] then {}
    else var n := |areas| - 1;
         FreedAreas(sp, areas[..n]) + FreedBy(ReclaimAreas(sp, areas[..n]), areas[n].start, areas[n].end)
  }

  lemma ReclaimAreasStep(sp: Space, areas: seq<Area>, i: nat)
    requires i < |areas|
    ensures ReclaimAreas(sp, areas[..i + 1]) == Reclaim(ReclaimAreas(sp, areas[..i]), areas[i].start, areas[i].end)
    ensures FreedAreas(sp, areas[..i + 1]) ==
            FreedAreas(sp, areas[..i]) + FreedBy(ReclaimAreas(sp, areas[..i]), areas[i].start, areas[i].end)
  {
    assert areas[..i + 1][..i] == areas[..i];
  }

  // ------------------------------------------------------------ budgets

  lemma MidBudget(free: set<nat>, sp: Space, i: nat, f: nat)
    requires f in free && i !in sp.d1
    ensures Budget(free - {f}, sp.(d1 := sp.d1[i := f])) == Budget(free, sp)
  {
  }

  lemma LeafBudget(free: set<nat>, sp: Space, k: nat, f: nat)
    requires f in free && k !in sp.d0
    ensures Budget(free - {f}, sp.(d0 := sp.d0[k := f])) == Budget(free, sp)
  {
  }

  lemma KeysSize(m: map<nat, nat>)
    ensures |m| == |m.Keys|
  {
  }

  lemma SubsetSize(a: set<nat>, b: set<nat>)
    requires a <= b
    ensures |a| <= |b|
    ensures a != b ==> |a| < |b|
  {
    assert b == a + (b - a);
    if a != b { assert b - a != {}; }
  }

  // ------------------------------------------------------------ what a fork costs

  /** Answers of kmalloc to the calls of one kernel entry, in order. */
  type Answers = nat -> bool

  ghost predicate Granted(kmalloc: Answers, lo: nat, hi: nat) {
    forall j: nat :: lo <= j < hi ==> kmalloc(j)
  }

  /** A copy of the pages `all` stopped for want of a frame. */
  ghost predicate OutOfFrames(free: set<nat>, a: Space, b: Space, all: set<nat>) {
    free == {} && exists pages, v :: StuckIn(a, b, all, pages, v)
  }

  ghost predicate StuckIn(a: Space, b: Space, all: set<nat>, pages: set<nat>, v: nat) {
    pages <= all && v in all && StuckAfter(a, b, pages, v)
  }

  lemma OutOfFramesNow(a: Space, b: Space, c: Space, all: set<nat>, done: set<nat>, d: set<nat>, v: nat)
    requires Grew(a, b, done) && StuckAfter(b, c, d, v) && done + d <= all && v in all
    ensures OutOfFrames({}, a, c, all)
    ensures NoTables(a) ==> c.d1.Keys <= Directories(all) && c.d0.Keys <= Regions(all)
  {
    RegionsUnion(done, d);
    RegionsUnion(done + d, {v});
    RegionsUnion(d, {v});
    assert StuckIn(a, c, all, done + d, v);
    if NoTables(a) { StuckWithin(a, c, all, done + d, v); }
  }

  ghost predicate NoTables(sp: Space) { sp.d1 == map[] && sp.d0 == map[] }

  /** Building the tables for one page takes a frame for each missing one. */
  lemma TablesCost(free: set<nat>, a: Space, free2: set<nat>, b: Space, v: nat)
    requires Budget(free2, b) == Budget(free, a)
    ensures Grew(a, b, {v}) ==> |free| == |free2| + Missing(a, v)
    ensures Stuck(a, b, v) && free2 == {} ==> |free| < Missing(a, v)
    ensures Stuck(a, b, v) ==> |free| <= |free2| + 1
  {
    OneRegion(v);
    KeysSize(a.d1);
    KeysSize(a.d0);
    KeysSize(b.d1);
    KeysSize(b.d0);
    if Grew(a, b, {v}) {
      AddedSize(a.d0.Keys, Region(v));
      AddedSize(a.d1.Keys, Directory(v));
    } else if Stuck(a, b, v) {
      AddedSize(a.d1.Keys, Directory(v));
      SubsetSize(b.d1.Keys, a.d1.Keys + {Directory(v)});
      if Directory(v) in a.d1 { assert b.d1.Keys == a.d1.Keys; }
    }
  }

  lemma AddedSize(a: set<nat>, k: nat)
    ensures |a + {k}| == |a| + (if k in a then 0 else 1)
  {
    assert k in a ==> a + {k} == a;
  }

  /** A complete copy takes exactly one frame for each table the pages need. */
  lemma CopyCost(free: set<nat>, a: Space, free2: set<nat>, b: Space, pages: set<nat>)
    requires NoTables(a) && Grew(a, b, pages) && Budget(free2, b) == Budget(free, a)
    ensures |free| == |free2| + |Directories(pages)| + |Regions(pages)|
  {
    KeysSize(b.d1);
    KeysSize(b.d0);
    assert b.d1.Keys == Directories(pages) && b.d0.Keys == Regions(pages);
  }

  /** A copy that stops had fewer frames than that. */
  lemma CopyTooDear(free: set<nat>, a: Space, free2: set<nat>, b: Space, all: set<nat>)
    requires NoTables(a) && OutOfFrames(free2, a, b, all) && Budget(free2, b) == Budget(free, a)
    ensures |free| < |Directories(all)| + |Regions(all)|
  {
    var pages, v :| StuckIn(a, b, all, pages, v);
    RegionsSubset(pages, all);
    RegionsSubset(pages + {v}, all);
    KeysSize(b.d1);
    KeysSize(b.d0);
    SubsetSize(b.d1.Keys, Directories(all));
    assert Region(v) in Regions(all);
    SubsetSize(b.d0.Keys, Regions(all));
  }

  /** However a copy ends, it has taken no more frames than a complete one needs. */
  lemma CopyCostAtMost(free: set<nat>, a: Space, free2: set<nat>, b: Space, all: set<nat>)
    requires NoTables(a) && Budget(free2, b) == Budget(free, a)
    requires b.d1.Keys <= Directories(all) && b.d0.Keys <= Regions(all)
    ensures |free| <= |free2| + |Directories(all)| + |Regions(all)|
  {
    KeysSize(b.d1);
    KeysSize(b.d0);
    SubsetSize(b.d1.Keys, Directories(all));
    SubsetSize(b.d0.Keys, Regions(all));
  }

  lemma AreasFirst(free: set<nat>, a: Space, areas: seq<Area>)
    ensures Budget(free, a.(areas := areas)) == Budget(free, a)
  {
  }

  lemma GrewFromAreas(a: Space, areas: seq<Area>, b: Space, pages: set<nat>)
    requires Grew(a.(areas := areas), b, pages)
    ensures Grew(a, b, pages)
  {
  }

  lemma StuckFromAreas(a: Space, areas: seq<Area>, b: Space, pages: set<nat>, v: nat)
    requires StuckAfter(a.(areas := areas), b, pages, v)
    ensures StuckAfter(a, b, pages, v)
  {
  }

  lemma TakenSize(free: set<nat>, free2: set<nat>, f: nat)
    requires f in free && free2 == free - {f}
    ensures |free| == |free2| + 1
  {
  }

  lemma UndoneSpaces(s0: Spaces, s: Spaces, t: Spaces, m: nat)
    requires m !in s0 && m in s && m in t && s == s0[m := s[m]] && t == s[m := t[m]]
    ensures t - {m} == s0
  {
  }

  lemma MissingAtMost(sp: Space, v: nat)
    ensures 0 <= Missing(sp, v) <= 2
  {
  }

  lemma NothingMissing(sp: Space, v: nat)
    requires SpaceOk(sp) && Region(v) in sp.d0
    ensures Missing(sp, v) == 0
  {
  }

  lemma NothingCosts(free: set<nat>, ptes: Ptes, m: nat)
    ensures |free| + ForkTables(ptes, m) >= |free|
  {
  }

  /** The tables of a copy stopped on the way are among those of a complete one. */
  lemma StuckWithin(a: Space, b: Space, all: set<nat>, pages: set<nat>, v: nat)
    requires NoTables(a) && StuckIn(a, b, all, pages, v)
    ensures b.d1.Keys <= Directories(all) && b.d0.Keys <= Regions(all)
  {
    RegionsSubset(pages, all);
    RegionsSubset(pages + {v}, all);
  }

  lemma GrewWithin(a: Space, b: Space, all: set<nat>, pages: set<nat>)
    requires NoTables(a) && Grew(a, b, pages) && pages <= all
    ensures b.d1.Keys <= Directories(all) && b.d0.Keys <= Regions(all)
  {
    RegionsSubset(pages, all);
  }

  /** Giving up a table of a space nothing is mapped in disturbs no one. */
  lemma LessTablesOk(s: Spaces, ptes: Ptes, owner: Owners, kernel: set<nat>, reserved: set<nat>, m: nat, sp: Space)
    requires m in s && forall n :: n in s ==> SpaceOk(s[n])
    requires EntriesOk(s, ptes) && forall x :: x in ptes ==> x.mm != m
    requires SpaceOk(sp) && Ledger(s[m := sp], owner, kernel, reserved)
    ensures SpacesOk(s[m := sp], kernel) && EntriesOk(s[m := sp], ptes)
  {
    var t := s[m := sp];
    forall n | n in t ensures SpaceOk(t[n]) && t[n].root in kernel {
      assert Has(owner, t[n].root, Root(n));
    }
    forall n, o | n in t && o in t && n != o ensures t[n].root != t[o].root {
      assert Has(owner, t[n].root, Root(n)) && Has(owner, t[o].root, Root(o));
    }
    forall x | x in ptes ensures x.mm in t && PteOk(t[x.mm], x.page, ptes[x].flags) {
      assert PteOk(s[x.mm], x.page, ptes[x].flags);
    }
  }

  lemma SpacesAreOk(s: Spaces, kernel: set<nat>)
    requires SpacesOk(s, kernel)
    ensures forall n :: n in s ==> SpaceOk(s[n])
  {
  }

  lemma WithoutTablesOk(sp: Space, k: nat, i: nat)
    requires SpaceOk(sp)
    ensures SpaceOk(WithoutLeaf(sp, k)) && SpaceOk(WithoutMid(sp, i))
  {
  }

  lemma FirstRegion(start: nat)
    ensures FirstIn(start, Directory(start)) == Region(start)
  {
  }

  lemma NextRegionIn(start: nat, i: nat)
    requires i > Directory(start)
    ensures FirstIn(start, i) == i * NPTEENTRY
  {
  }

  lemma SameMid(sp: Space, start: nat, end: nat, i: nat)
    ensures i in ReclaimTo(sp, start, end, i).d1 <==> i in sp.d1
  {
  }

  lemma MidStays(sp: Space, lo: nat, hi: nat, i: nat)
    ensures WithoutLeafs(sp, lo, hi).d1 == sp.d1
  {
  }

  lemma CallZero(kmalloc: Answers, n: nat)
    requires n >= 1
    ensures Granted(kmalloc, 0, n) <==> kmalloc(0) && Granted(kmalloc, 1, n)
  {
  }

  lemma NewHasNoTables(sp: Space)
    requires sp.d1 == map[] && sp.d0 == map[]
    ensures NoTables(sp)
  {
  }

  lemma DoneIsMapped(ptes: Ptes, m: nat, done: set<nat>)
    requires forall v :: v in done <==> Slot(m, v) in ptes
    ensures done == Mapped(ptes, m)
  {
    forall v | v in done ensures v in Mapped(ptes, m) {
      assert Slot(m, v).page == v && Slot(m, v) in ptes;
    }
    forall v | v in Mapped(ptes, m) ensures v in done {
      var x :| x in ptes && x.mm == m && x.page == v;
      assert x == Slot(m, v);
    }
  }

  /** A copy is complete or stops according to what it costs; what it has taken is bounded by
      that either way. */
  lemma ForkCost(ptes: Ptes, m: nat, free: set<nat>, a: Space, free2: set<nat>, b: Space, done: set<nat>, ok: bool)
    requires NoTables(a) && Budget(free2, b) == Budget(free, a)
    requires ok ==> Grew(a, b, done) && forall v :: v in done <==> Slot(m, v) in ptes
    requires b.d1.Keys <= Directories(Mapped(ptes, m)) && b.d0.Keys <= Regions(Mapped(ptes, m))
    ensures ok ==> |free| == |free2| + ForkTables(ptes, m)
    ensures ok ==> b.d0.Keys == Regions(Mapped(ptes, m)) && b.d1.Keys == Directories(Mapped(ptes, m))
    ensures OutOfFrames(free2, a, b, Mapped(ptes, m)) ==> |free| < ForkTables(ptes, m)
    ensures |free| <= |free2| + ForkTables(ptes, m)
  {
    if ok {
      DoneIsMapped(ptes, m, done);
      CopyCost(free, a, free2, b, done);
    }
    if OutOfFrames(free2, a, b, Mapped(ptes, m)) {
      CopyTooDear(free, a, free2, b, Mapped(ptes, m));
    }
    CopyCostAtMost(free, a, free2, b, Mapped(ptes, m));
  }

  lemma {:induction false} RootStays(sp: Space, areas: seq<Area>)
    ensures ReclaimAreas(sp, areas).root == sp.root
  {
    if areas != [] { RootStays(sp, areas[..|areas| - 1]); }
  }
}
