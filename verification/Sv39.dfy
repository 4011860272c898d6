/** Three-level page tables (kern/mm/pmm.c, kern/mm/mmu.h, kern/mm/pmm.h), bit for bit. The
    format is Sv39 of the RISC-V Privileged Architecture, section 4.4. */
module Sv39 {
  import opened Collections

  type Word = bv64

  const PTE_V: Word := 0x001
  const PTE_U: Word := 0x010
  const USERTOP: Word := 0x8000_0000

  // ---------------------------------------------------------------- mmu.h

  function Pdx1(la: Word): bv9 { ((la >> 30) & 0x1FF) as bv9 }

  function Pdx0(la: Word): bv9 { ((la >> 21) & 0x1FF) as bv9 }

  function Ptx(la: Word): bv9 { ((la >> 12) & 0x1FF) as bv9 }

  function Pgoff(la: Word): bv12 { (la & 0xFFF) as bv12 }

  function Ppn(la: Word): Word { la >> 12 }

  function PgAddr(d1: bv9, d0: bv9, t: bv9, o: bv12): Word {
    ((d1 as Word) << 30) | ((d0 as Word) << 21) | ((t as Word) << 12) | (o as Word)
  }

  function PteAddr(pte: Word): Word { (pte & !0x3FF) << 2 }

  function PteCreate(ppn: Word, flags: Word): Word { (ppn << 10) | PTE_V | flags }

  predicate IsValid(pte: Word) { pte & PTE_V != 0 }

  /** Taking an address apart undoes putting it together. */
  lemma FieldsOfPgAddr(d1: bv9, d0: bv9, t: bv9, o: bv12)
    ensures Pdx1(PgAddr(d1, d0, t, o)) == d1 && Pdx0(PgAddr(d1, d0, t, o)) == d0
    ensures Ptx(PgAddr(d1, d0, t, o)) == t && Pgoff(PgAddr(d1, d0, t, o)) == o
  {
  }

  /** Putting an address together undoes taking it apart, for the 39 bits translated. */
  lemma PgAddrOfFields(la: Word)
    ensures PgAddr(Pdx1(la), Pdx0(la), Ptx(la), Pgoff(la)) == la & 0x7F_FFFF_FFFF
  {
  }

  /** An entry gives back the frame and the flag bits it was made of. */
  lemma EntryRoundTrip(ppn: Word, flags: Word)
    requires ppn < 0x1000_0000_0000 && flags < 0x400
    ensures PteAddr(PteCreate(ppn, flags)) == ppn << 12 && Ppn(PteAddr(PteCreate(ppn, flags))) == ppn
    ensures PteCreate(ppn, flags) & 0x3FF == flags | PTE_V && IsValid(PteCreate(ppn, flags))
  {
  }

  lemma PpnOfFields(la: Word)
    requires la < USERTOP
    ensures Ppn(la) == Ppn(PgAddr(Pdx1(la), Pdx0(la), Ptx(la), 0)) && Pdx1(la) < 2
  {
  }

  lemma FieldsOfPpn(la: Word)
    ensures Pdx1(la) == Pdx1(Ppn(la) << 12) && Pdx0(la) == Pdx0(Ppn(la) << 12) && Ptx(la) == Ptx(Ppn(la) << 12)
  {
  }

  /** User pages that agree in all three indexes are the same page. */
  lemma IndexesTellPages(a: Word, b: Word)
    requires a < USERTOP && b < USERTOP
    ensures Pdx1(a) < 2
    ensures Pdx1(a) == Pdx1(b) && Pdx0(a) == Pdx0(b) && Ptx(a) == Ptx(b) <==> Ppn(a) == Ppn(b)
  {
    PpnOfFields(a);
    PpnOfFields(b);
    FieldsOfPpn(a);
    FieldsOfPpn(b);
    hide Pdx1, Pdx0, Ptx, Ppn, PgAddr;
  }

  // ---------------------------------------------------------------- the table walk

  /** An entry of the table at a physical address. */
  datatype Slot = Slot(table: Word, index: bv9)

  /** The way from the root to a second-level table, and to a third-level one. */
  datatype Path1 = Path1(i: bv9)

  datatype Path2 = Path2(i: bv9, j: bv9)

  type Mids = map<Path1, Word>

  type Leafs = map<Path2, Word>

  /** The memory of page tables; what is not in it reads as zero. */
  type Memory = map<Slot, Word>

  function Read(mem: Memory, s: Slot): Word {
    if s in mem then mem[s] else 0
  }

  /** The slot of the third-level table for `la`, if the two tables above it are there. */
  function Walk(mem: Memory, root: Word, la: Word): Option<Slot> {
    var pde1 := Read(mem, Slot(root, Pdx1(la)));
    if !IsValid(pde1) then None
    else
      var pde0 := Read(mem, Slot(PteAddr(pde1), Pdx0(la)));
      if !IsValid(pde0) then None else Some(Slot(PteAddr(pde0), Ptx(la)))
  }

  /** The page table as a flat map from addresses to entries. */
  function Flat(mem: Memory, root: Word, la: Word): Word {
    match Walk(mem, root, la)
    case None => 0
    case Some(s) => Read(mem, s)
  }

  /** Where the table below an entry of the root, and below one of a second-level table, is. */
  function Mid(mem: Memory, root: Word, i: bv9): Option<Word> {
    var e := Read(mem, Slot(root, i));
    if IsValid(e) then Some(PteAddr(e)) else None
  }

  function Get<K(==), V>(m: map<K, V>, k: K): Option<V> {
    if k in m then Some(m[k]) else None
  }

  ghost predicate MidsOk(mem: Memory, root: Word, mids: Mids) {
    forall i: bv9 :: (i < 2 ==> Mid(mem, root, i) == Get(mids, Path1(i))) && (Path1(i) in mids ==> i < 2)
  }

  ghost predicate LeafsOk(mem: Memory, mids: Mids, leafs: Leafs) {
    && (forall i, j: bv9 :: Path1(i) in mids ==> Mid(mem, mids[Path1(i)], j) == Get(leafs, Path2(i, j)))
    && (forall x :: x in leafs ==> Path1(x.i) in mids)
  }

  /** The user half of the page table is a tree in which no table is shared: `mids` and
      `leafs` are the second- and third-level tables, by the indexes that lead to them. */
  ghost predicate Tree(mem: Memory, root: Word, mids: Mids, leafs: Leafs) {
    MidsOk(mem, root, mids) && LeafsOk(mem, mids, leafs) && Unshared(root, mids, leafs)
  }

  ghost predicate Unshared(root: Word, mids: Mids, leafs: Leafs) {
    && (forall i :: i in mids ==> mids[i] != root)
    && (forall x :: x in leafs ==> leafs[x] != root)
    && (forall i, j :: i in mids && j in mids && i != j ==> mids[i] != mids[j])
    && (forall x, y :: x in leafs && y in leafs && x != y ==> leafs[x] != leafs[y])
    && (forall i, x :: i in mids && x in leafs ==> mids[i] != leafs[x])
  }

  /** In a tree the walk is determined by the two tables' places. */
  lemma WalkInTree(mem: Memory, root: Word, mids: Mids, leafs: Leafs, la: Word)
    requires Tree(mem, root, mids, leafs) && la < USERTOP
    ensures var x := Path2(Pdx1(la), Pdx0(la));
            Walk(mem, root, la) == if x in leafs then Some(Slot(leafs[x], Ptx(la))) else None
  {
    IndexesTellPages(la, la);
    hide Pdx1, Pdx0, Ptx, PteAddr, IsValid;
    assert Mid(mem, root, Pdx1(la)) == Get(mids, Path1(Pdx1(la)));
    var x := Path2(Pdx1(la), Pdx0(la));
    assert x in leafs ==> Path1(x.i) in mids;
    if Path1(Pdx1(la)) in mids {
      assert Mid(mem, mids[Path1(Pdx1(la))], Pdx0(la)) == Get(leafs, x);
    }
  }

  /** Distinct user pages have distinct slots. */
  lemma SlotsTellPages(mem: Memory, root: Word, mids: Mids, leafs: Leafs, a: Word, b: Word)
    requires Tree(mem, root, mids, leafs) && a < USERTOP && b < USERTOP
    requires Walk(mem, root, a).Some? && Walk(mem, root, a) == Walk(mem, root, b)
    ensures Ppn(a) == Ppn(b)
  {
    hide Pdx1, Pdx0, Ptx, Ppn, Walk;
    WalkInTree(mem, root, mids, leafs, a);
    WalkInTree(mem, root, mids, leafs, b);
    IndexesTellPages(a, b);
  }

  /** Writing an entry through its slot changes that page's entry in the flat map and no
      other, and leaves the tree as it is. */
  lemma StoreIsFlat(mem: Memory, root: Word, mids: Mids, leafs: Leafs, la: Word, pte: Word)
    requires Tree(mem, root, mids, leafs) && la < USERTOP && Walk(mem, root, la).Some?
    ensures var mem2 := mem[Walk(mem, root, la).value := pte];
            && Tree(mem2, root, mids, leafs)
            && (forall b :: b < USERTOP ==> Flat(mem2, root, b) == if Ppn(b) == Ppn(la) then pte else Flat(mem, root, b))
  {
    hide Pdx1, Pdx0, Ptx, Ppn, Walk, PteAddr, IsValid;
    WalkInTree(mem, root, mids, leafs, la);
    var s := Walk(mem, root, la).value;
    var mem2 := mem[s := pte];
    LeafIsNotUpper(root, mids, leafs, Path2(Pdx1(la), Pdx0(la)));
    hide Upper;
    TreeFrame(mem, mem2, root, mids, leafs);
    hide Tree;
    forall b | b < USERTOP ensures Flat(mem2, root, b) == if Ppn(b) == Ppn(la) then pte else Flat(mem, root, b) {
      StoreAt(mem, root, mids, leafs, la, pte, b);
    }
  }

  lemma StoreAt(mem: Memory, root: Word, mids: Mids, leafs: Leafs, la: Word, pte: Word, b: Word)
    requires Tree(mem, root, mids, leafs) && la < USERTOP && b < USERTOP && Walk(mem, root, la).Some?
    requires Tree(mem[Walk(mem, root, la).value := pte], root, mids, leafs) && Unshared(root, mids, leafs)
    ensures var mem2 := mem[Walk(mem, root, la).value := pte];
            Flat(mem2, root, b) == if Ppn(b) == Ppn(la) then pte else Flat(mem, root, b)
  {
    hide Tree, Pdx1, Pdx0, Ptx, Ppn, Walk, PteAddr, IsValid;
    WalkInTree(mem, root, mids, leafs, la);
    WalkInTree(mem, root, mids, leafs, b);
    WalkInTree(mem[Walk(mem, root, la).value := pte], root, mids, leafs, b);
    IndexesTellPages(la, b);
  }

  /** The root or a second-level table. */
  ghost predicate Upper(root: Word, mids: Mids, t: Word) {
    t == root || exists i :: i in mids && mids[i] == t
  }

  lemma LeafIsNotUpper(root: Word, mids: Mids, leafs: Leafs, x: Path2)
    requires Unshared(root, mids, leafs) && x in leafs
    ensures !Upper(root, mids, leafs[x])
  {
  }

  /** Stores outside the upper tables keep the tree. */
  lemma TreeFrame(mem: Memory, mem2: Memory, root: Word, mids: Mids, leafs: Leafs)
    requires Tree(mem, root, mids, leafs)
    requires forall s: Slot :: Upper(root, mids, s.table) ==> Read(mem2, s) == Read(mem, s)
    ensures Tree(mem2, root, mids, leafs)
  {
    hide IsValid, PteAddr;
    forall i: bv9 ensures Mid(mem2, root, i) == Mid(mem, root, i) {
      assert Upper(root, mids, Slot(root, i).table);
    }
    forall i, j: bv9 | Path1(i) in mids ensures Mid(mem2, mids[Path1(i)], j) == Mid(mem, mids[Path1(i)], j) {
      assert Upper(root, mids, Slot(mids[Path1(i)], j).table);
    }
  }

  // ---------------------------------------------------------------- building tables

  /** page2pa */
  function PageAddr(ppn: Word): Word { ppn << 12 }

  /** memset of a page to zero. */
  function Zeroed(mem: Memory, pa: Word): Memory {
    map s | s in mem && s.table != pa :: mem[s]
  }

  ghost predicate Fresh(root: Word, mids: Mids, leafs: Leafs, pa: Word) {
    !Upper(root, mids, pa) && forall x :: x in leafs ==> leafs[x] != pa
  }

  /** Reads outside the new table and the entry that leads to it are as before. */
  lemma ReadZeroed(mem: Memory, pa: Word, at: Slot, pde: Word, s: Slot)
    requires at.table != pa
    ensures Read(Zeroed(mem, pa)[at := pde], s) == if s == at then pde else if s.table == pa then 0 else Read(mem, s)
  {
  }

  /** A zeroed table under entry `i` of the root. */
  lemma AddMid(mem: Memory, root: Word, mids: Mids, leafs: Leafs, i: bv9, pa: Word, pde: Word)
    requires Tree(mem, root, mids, leafs) && Fresh(root, mids, leafs, pa) && i < 2 && Path1(i) !in mids
    requires IsValid(pde) && PteAddr(pde) == pa
    ensures Tree(Zeroed(mem, pa)[Slot(root, i) := pde], root, mids[Path1(i) := pa], leafs)
  {
    var mem2, mids2 := Zeroed(mem, pa)[Slot(root, i) := pde], mids[Path1(i) := pa];
    hide PteAddr, Zeroed, Unshared;
    MidOfNew(mem, pa, Slot(root, i), pde);
    hide Mid;
    forall k: bv9 | k < 2 ensures Mid(mem2, root, k) == Get(mids2, Path1(k)) {
      assert Mid(mem, root, k) == Get(mids, Path1(k));
    }
    forall k, j: bv9 | Path1(k) in mids2 ensures Mid(mem2, mids2[Path1(k)], j) == Get(leafs, Path2(k, j)) {
      var x := Path2(k, j);
      assert x in leafs ==> Path1(x.i) in mids;
      if k != i {
        assert Upper(root, mids, mids[Path1(k)]) && Mid(mem, mids[Path1(k)], j) == Get(leafs, x);
        UpperApart(root, mids, leafs, Path1(k));
      }
    }
    UnsharedMid(root, mids, leafs, Path1(i), pa);
  }

  /** What the entries of upper tables lead to once a zeroed table is hung below `at`. */
  lemma MidOfNew(mem: Memory, pa: Word, at: Slot, pde: Word)
    requires at.table != pa && IsValid(pde) && PteAddr(pde) == pa
    ensures var mem2 := Zeroed(mem, pa)[at := pde];
            && (forall j: bv9 :: Mid(mem2, pa, j) == None)
            && (forall t, j: bv9 :: t != pa ==> Mid(mem2, t, j) == if Slot(t, j) == at then Some(pa) else Mid(mem, t, j))
  {
    var mem2 := Zeroed(mem, pa)[at := pde];
    hide Zeroed, PteAddr;
    ZeroIsInvalid();
    hide IsValid;
    forall t, j: bv9
      ensures Mid(mem2, t, j) == if t == pa then None else if Slot(t, j) == at then Some(pa) else Mid(mem, t, j)
    {
      ReadZeroed(mem, pa, at, pde, Slot(t, j));
    }
  }

  lemma UpperApart(root: Word, mids: Mids, leafs: Leafs, k: Path1)
    requires Unshared(root, mids, leafs) && k in mids
    ensures mids[k] != root
  {
  }

  lemma UnsharedMid(root: Word, mids: Mids, leafs: Leafs, i: Path1, pa: Word)
    requires Unshared(root, mids, leafs) && Fresh(root, mids, leafs, pa) && i !in mids
    ensures Unshared(root, mids[i := pa], leafs)
  {
    var mids2 := mids[i := pa];
    forall k, l | k in mids2 && l in mids2 && k != l ensures mids2[k] != mids2[l] {
      assert k != i ==> Upper(root, mids, mids[k]);
      assert l != i ==> Upper(root, mids, mids[l]);
    }
    forall k, x | k in mids2 && x in leafs ensures mids2[k] != leafs[x] { }
  }

  lemma UnsharedLeaf(root: Word, mids: Mids, leafs: Leafs, x: Path2, pa: Word)
    requires Unshared(root, mids, leafs) && Fresh(root, mids, leafs, pa) && x !in leafs
    ensures Unshared(root, mids, leafs[x := pa])
  {
    assert forall k :: k in mids ==> Upper(root, mids, mids[k]);
  }

  lemma ZeroIsInvalid()
    ensures !IsValid(0)
  {
  }

  /** A zeroed table under entry `j` of the second-level table `i`. */
  lemma AddLeaf(mem: Memory, root: Word, mids: Mids, leafs: Leafs, i: bv9, j: bv9, pa: Word, pde: Word)
    requires Tree(mem, root, mids, leafs) && Fresh(root, mids, leafs, pa) && Path1(i) in mids && Path2(i, j) !in leafs
    requires IsValid(pde) && PteAddr(pde) == pa
    ensures Tree(Zeroed(mem, pa)[Slot(mids[Path1(i)], j) := pde], root, mids, leafs[Path2(i, j) := pa])
  {
    hide PteAddr, Zeroed, Mid, IsValid;
    var m := mids[Path1(i)];
    var mem2, leafs2 := Zeroed(mem, pa)[Slot(m, j) := pde], leafs[Path2(i, j) := pa];
    assert Upper(root, mids, m) && m != root;
    MidOfNew(mem, pa, Slot(m, j), pde);
    UnsharedLeaf(root, mids, leafs, Path2(i, j), pa);
    forall k: bv9 | k < 2 ensures Mid(mem2, root, k) == Get(mids, Path1(k)) {
      assert Mid(mem, root, k) == Get(mids, Path1(k));
    }
    forall k, l: bv9 | Path1(k) in mids ensures Mid(mem2, mids[Path1(k)], l) == Get(leafs2, Path2(k, l)) {
      assert Upper(root, mids, mids[Path1(k)]) && Mid(mem, mids[Path1(k)], l) == Get(leafs, Path2(k, l));
    }
  }

  /** In a tree the flat map is read off the third-level tables. */
  lemma FlatInTree(mem: Memory, root: Word, mids: Mids, leafs: Leafs, la: Word)
    requires Tree(mem, root, mids, leafs) && la < USERTOP
    ensures var x := Path2(Pdx1(la), Pdx0(la));
            Flat(mem, root, la) == if x in leafs then Read(mem, Slot(leafs[x], Ptx(la))) else 0
  {
    hide Tree, Pdx1, Pdx0, Ptx, Walk;
    WalkInTree(mem, root, mids, leafs, la);
  }

  /** A zeroed table under an upper entry that led nowhere adds no translation and changes
      none. */
  lemma FlatOfNew(mem: Memory, root: Word, mids: Mids, leafs: Leafs, mids2: Mids, leafs2: Leafs, pa: Word, at: Slot, pde: Word, la: Word)
    requires Tree(mem, root, mids, leafs) && Fresh(root, mids, leafs, pa) && Upper(root, mids, at.table) && la < USERTOP
    requires Tree(Zeroed(mem, pa)[at := pde], root, mids2, leafs2)
    requires forall x :: x in leafs2 ==> (if x in leafs then leafs2[x] == leafs[x] else leafs2[x] == pa)
    requires forall x :: x in leafs ==> x in leafs2
    ensures Flat(Zeroed(mem, pa)[at := pde], root, la) == Flat(mem, root, la)
  {
    hide Pdx1, Pdx0, Ptx, Zeroed, MidsOk, LeafsOk, Flat;
    var x := Path2(Pdx1(la), Pdx0(la));
    FlatInTree(mem, root, mids, leafs, la);
    FlatInTree(Zeroed(mem, pa)[at := pde], root, mids2, leafs2, la);
    if x in leafs2 {
      LeafIsNotUpper2(root, mids, leafs, pa, at, x);
      ReadZeroed(mem, pa, at, pde, Slot(leafs2[x], Ptx(la)));
    }
  }

  lemma LeafIsNotUpper2(root: Word, mids: Mids, leafs: Leafs, pa: Word, at: Slot, x: Path2)
    requires Unshared(root, mids, leafs) && Fresh(root, mids, leafs, pa) && Upper(root, mids, at.table)
    ensures at.table != pa && (x in leafs ==> leafs[x] != at.table && leafs[x] != pa)
  {
    if x in leafs { LeafIsNotUpper(root, mids, leafs, x); }
  }

  ghost predicate SameFlat(mem: Memory, mem2: Memory, root: Word) {
    forall la :: la < USERTOP ==> Flat(mem2, root, la) == Flat(mem, root, la)
  }

  /** The allocator's pages, by page number, hold no table. */
  ghost predicate FreeOk(free: set<Word>, root: Word, mids: Mids, leafs: Leafs) {
    forall f :: f in free ==> f < 0x1000_0000_0000 && Fresh(root, mids, leafs, PageAddr(f))
  }

  /** Everything a new second-level table changes. */
  lemma NewMid(mem: Memory, root: Word, mids: Mids, leafs: Leafs, free: set<Word>, i: bv9, f: Word)
    requires Tree(mem, root, mids, leafs) && FreeOk(free, root, mids, leafs) && f in free && i < 2 && Path1(i) !in mids
    ensures var pa := PageAddr(f); var mem2 := Zeroed(mem, pa)[Slot(root, i) := PteCreate(f, PTE_U | PTE_V)];
            && Tree(mem2, root, mids[Path1(i) := pa], leafs) && FreeOk(free - {f}, root, mids[Path1(i) := pa], leafs)
            && SameFlat(mem, mem2, root)
    ensures IsValid(PteCreate(f, PTE_U | PTE_V)) && PteAddr(PteCreate(f, PTE_U | PTE_V)) == PageAddr(f)
  {
    var pa, pde := PageAddr(f), PteCreate(f, PTE_U | PTE_V);
    EntryRoundTrip(f, PTE_U | PTE_V);
    hide PteCreate, PteAddr, IsValid, Zeroed, Flat, PageAddr;
    AddMid(mem, root, mids, leafs, i, pa, pde);
    hide Tree;
    assert Upper(root, mids, root);
    forall la | la < USERTOP ensures Flat(Zeroed(mem, pa)[Slot(root, i) := pde], root, la) == Flat(mem, root, la) {
      FlatOfNew(mem, root, mids, leafs, mids[Path1(i) := pa], leafs, pa, Slot(root, i), pde, la);
    }
    FreeAfterMid(free, root, mids, leafs, i, f);
  }

  lemma PageAddressesDiffer(f: Word, g: Word)
    requires f < 0x1000_0000_0000 && g < 0x1000_0000_0000 && f != g
    ensures PageAddr(f) != PageAddr(g)
  {
  }

  lemma FreeAfterMid(free: set<Word>, root: Word, mids: Mids, leafs: Leafs, i: bv9, f: Word)
    requires FreeOk(free, root, mids, leafs) && f in free
    ensures FreeOk(free - {f}, root, mids[Path1(i) := PageAddr(f)], leafs)
  {
    forall g | g in free - {f} ensures Fresh(root, mids[Path1(i) := PageAddr(f)], leafs, PageAddr(g)) {
      assert Fresh(root, mids, leafs, PageAddr(g));
      PageAddressesDiffer(f, g);
    }
  }

  lemma FreeAfterLeaf(free: set<Word>, root: Word, mids: Mids, leafs: Leafs, x: Path2, f: Word)
    requires FreeOk(free, root, mids, leafs) && f in free
    ensures FreeOk(free - {f}, root, mids, leafs[x := PageAddr(f)])
  {
    forall g | g in free - {f} ensures Fresh(root, mids, leafs[x := PageAddr(f)], PageAddr(g)) {
      assert Fresh(root, mids, leafs, PageAddr(g));
      PageAddressesDiffer(f, g);
    }
  }

  /** Everything a new third-level table changes. */
  lemma NewLeaf(mem: Memory, root: Word, mids: Mids, leafs: Leafs, free: set<Word>, i: bv9, j: bv9, f: Word)
    requires Tree(mem, root, mids, leafs) && FreeOk(free, root, mids, leafs) && f in free
    requires Path1(i) in mids && Path2(i, j) !in leafs
    ensures var pa := PageAddr(f); var mem2 := Zeroed(mem, pa)[Slot(mids[Path1(i)], j) := PteCreate(f, PTE_U | PTE_V)];
            && Tree(mem2, root, mids, leafs[Path2(i, j) := pa]) && FreeOk(free - {f}, root, mids, leafs[Path2(i, j) := pa])
            && SameFlat(mem, mem2, root)
    ensures IsValid(PteCreate(f, PTE_U | PTE_V)) && PteAddr(PteCreate(f, PTE_U | PTE_V)) == PageAddr(f)
  {
    var pa, pde := PageAddr(f), PteCreate(f, PTE_U | PTE_V);
    EntryRoundTrip(f, PTE_U | PTE_V);
    hide PteCreate, PteAddr, IsValid, Zeroed, Flat, PageAddr;
    AddLeaf(mem, root, mids, leafs, i, j, pa, pde);
    hide Tree;
    var at := Slot(mids[Path1(i)], j);
    assert Upper(root, mids, at.table);
    forall la | la < USERTOP ensures Flat(Zeroed(mem, pa)[at := pde], root, la) == Flat(mem, root, la) {
      FlatOfNew(mem, root, mids, leafs, mids, leafs[Path2(i, j) := pa], pa, at, pde, la);
    }
    FreeAfterLeaf(free, root, mids, leafs, Path2(i, j), f);
  }

  lemma SameFlatSteps(mem: Memory, mem1: Memory, mem2: Memory, root: Word)
    ensures SameFlat(mem, mem, root)
    ensures SameFlat(mem, mem1, root) && SameFlat(mem1, mem2, root) ==> SameFlat(mem, mem2, root)
  {
  }

  /** What the two upper entries for an address say in a tree. */
  lemma UpperEntries(mem: Memory, root: Word, mids: Mids, leafs: Leafs, i: bv9, j: bv9)
    requires Tree(mem, root, mids, leafs) && i < 2
    ensures var e := Read(mem, Slot(root, i));
            if IsValid(e) then Path1(i) in mids && PteAddr(e) == mids[Path1(i)] else Path1(i) !in mids && Path2(i, j) !in leafs
    ensures Path1(i) in mids ==>
      var e := Read(mem, Slot(mids[Path1(i)], j));
      if IsValid(e) then Path2(i, j) in leafs && PteAddr(e) == leafs[Path2(i, j)] else Path2(i, j) !in leafs
  {
    assert Mid(mem, root, i) == Get(mids, Path1(i));
    var x := Path2(i, j);
    assert x in leafs ==> Path1(x.i) in mids;
    if Path1(i) in mids {
      assert Mid(mem, mids[Path1(i)], j) == Get(leafs, x);
    }
  }

  /** Memory other than the tables on the way, and the pages that were free, is untouched. */
  ghost predicate ElsewhereSame(mem: Memory, mem2: Memory, root: Word, mids: Mids, free: set<Word>, i: bv9) {
    && (forall s: Slot :: !Upper(root, mids, s.table) && !IsFreePage(free, s.table) ==> Read(mem2, s) == Read(mem, s))
    && (forall k: bv9 :: k != i && !IsFreePage(free, root) ==> Read(mem2, Slot(root, k)) == Read(mem, Slot(root, k)))
  }

  ghost predicate IsFreePage(free: set<Word>, pa: Word) {
    exists f :: f in free && PageAddr(f) == pa
  }

  lemma ElsewhereNothing(mem: Memory, root: Word, mids: Mids, free: set<Word>, i: bv9)
    ensures ElsewhereSame(mem, mem, root, mids, free, i)
  {
  }

  /** A table hung under an upper entry, or under a page that was free. */
  lemma ElsewhereStep(mem: Memory, mem1: Memory, root: Word, mids: Mids, free: set<Word>, i: bv9, f: Word, at: Slot, pde: Word)
    requires ElsewhereSame(mem, mem1, root, mids, free, i) && f in free && at.table != PageAddr(f)
    requires at == Slot(root, i) || (at.table != root && (Upper(root, mids, at.table) || IsFreePage(free, at.table)))
    ensures ElsewhereSame(mem, Zeroed(mem1, PageAddr(f))[at := pde], root, mids, free, i)
  {
    hide Zeroed, PageAddr;
    assert IsFreePage(free, PageAddr(f));
    forall s: Slot | !IsFreePage(free, s.table) && s != at ensures Read(Zeroed(mem1, PageAddr(f))[at := pde], s) == Read(mem1, s) {
      ReadZeroed(mem1, PageAddr(f), at, pde, s);
    }
    assert Upper(root, mids, root);
  }

  lemma FreeApart(free: set<Word>, root: Word, mids: Mids, leafs: Leafs, f: Word, t: Word)
    requires FreeOk(free, root, mids, leafs) && f in free && (t == root || exists k :: k in mids && mids[k] == t)
    ensures PageAddr(f) != t && IsFreePage(free, PageAddr(f)) && Upper(root, mids, root)
  {
    assert Fresh(root, mids, leafs, PageAddr(f));
  }

  lemma MidIsUpper(mem: Memory, root: Word, mids: Mids, leafs: Leafs, k: Path1)
    requires Tree(mem, root, mids, leafs) && k in mids
    ensures Upper(root, mids, mids[k]) && mids[k] != root
  {
  }

  lemma LeafsBelow(mem: Memory, root: Word, mids: Mids, leafs: Leafs, i: bv9, j: bv9)
    requires Tree(mem, root, mids, leafs)
    ensures Path2(i, j) in leafs ==> Path1(i) in mids
  {
    var x := Path2(i, j);
    assert x in leafs ==> Path1(x.i) in mids;
  }

  lemma ElsewhereTwice(mem: Memory, mem1: Memory, mem2: Memory, root: Word, mids: Mids, mids1: Mids, free: set<Word>, free1: set<Word>, i: bv9)
    requires ElsewhereSame(mem, mem1, root, mids, free, i) && ElsewhereSame(mem1, mem2, root, mids1, free1, i) && free1 <= free
    requires mids1 == mids || (Path1(i) in mids1 && mids1 == mids[Path1(i) := mids1[Path1(i)]] && IsFreePage(free, mids1[Path1(i)]))
    ensures ElsewhereSame(mem, mem2, root, mids, free, i)
  {
    forall t | IsFreePage(free1, t) ensures IsFreePage(free, t) { }
    forall t | Upper(root, mids1, t) ensures Upper(root, mids, t) || IsFreePage(free, t) { }
  }

  /** A free page has become the table at `table`, and the entry that leads to it, at `at`,
      says so and has the U flag. */
  ghost predicate NewTable(free: set<Word>, free2: set<Word>, mem2: Memory, at: Slot, table: Word) {
    exists f :: MadeOf(free, free2, mem2, at, table, f)
  }

  ghost predicate MadeOf(free: set<Word>, free2: set<Word>, mem2: Memory, at: Slot, table: Word, f: Word) {
    f in free && free2 == free - {f} && table == PageAddr(f) && Read(mem2, at) == PteCreate(f, PTE_U | PTE_V)
  }

  lemma SameEntry(free: set<Word>, free2: set<Word>, mem2: Memory, mem3: Memory, at: Slot, table: Word)
    requires NewTable(free, free2, mem2, at, table) && Read(mem3, at) == Read(mem2, at)
    ensures NewTable(free, free2, mem3, at, table)
  {
    var f :| MadeOf(free, free2, mem2, at, table, f);
    assert MadeOf(free, free2, mem3, at, table, f);
  }

  /** The entry above a table has none of the R, W and X bits, which would make it a leaf. */
  lemma NotALeaf(f: Word)
    requires f < 0x1000_0000_0000
    ensures PteCreate(f, PTE_U | PTE_V) & 0x3FF == PTE_U | PTE_V && (PTE_U | PTE_V) & (0x002 | 0x004 | 0x008) == 0
  {
    EntryRoundTrip(f, PTE_U | PTE_V);
  }

  class PageTable {
    const root: Word
    var mem: Memory
    var free: set<Word>
    ghost var mids: Mids
    ghost var leafs: Leafs

    ghost predicate Valid()
      reads this
    {
      Tree(mem, root, mids, leafs) && FreeOk(free, root, mids, leafs)
    }

    /** setup_pgdir's user half: a root without user entries. */
    constructor (rootAt: Word, mem0: Memory, pages: set<Word>)
      requires forall i: bv9 :: i < 2 ==> !IsValid(Read(mem0, Slot(rootAt, i)))
      requires forall f :: f in pages ==> f < 0x1000_0000_0000 && PageAddr(f) != rootAt
      ensures Valid() && root == rootAt && mem == mem0 && free == pages
      ensures forall la :: la < USERTOP ==> Flat(mem, root, la) == 0
    {
      root, mem, free, mids, leafs := rootAt, mem0, pages, map[], map[];
      new;
      assert Tree(mem, root, mids, leafs);
      forall la | la < USERTOP ensures Flat(mem, root, la) == 0 {
        FlatInTree(mem, root, mids, leafs, la);
      }
    }

    /** alloc_page for a table, zeroed: any free page. */
    method AllocTable() returns (f: Option<Word>)
      modifies `free, `mem
      ensures f == None <==> old(free) == {}
      ensures f == None ==> free == old(free) && mem == old(mem)
      ensures f.Some? ==> f.value in old(free) && free == old(free) - {f.value} && mem == Zeroed(old(mem), PageAddr(f.value))
    {
      hide Zeroed, Tree, FreeOk, PageAddr;
      if free == {} {
        return None;
      }
      var ppn := PickOne(free);
      free := free - {ppn};
      mem := Zeroed(mem, PageAddr(ppn));
      f := Some(ppn);
    }

    /** The first half of get_pte: the second-level table for index `i`. */
    method MidTable(i: bv9, create: bool) returns (ok: bool)
      requires Valid() && i < 2
      modifies this
      ensures Valid() && leafs == old(leafs)
      ensures ok <==> Path1(i) in mids
      ensures ok ==> IsValid(Read(mem, Slot(root, i))) && PteAddr(Read(mem, Slot(root, i))) == mids[Path1(i)]
      ensures ok && Path1(i) !in old(mids) ==>
                mids == old(mids)[Path1(i) := mids[Path1(i)]] && IsFreePage(old(free), mids[Path1(i)])
      ensures ok && Path1(i) in old(mids) ==> mids == old(mids)
      ensures ok && Path1(i) !in old(mids) ==> NewTable(old(free), free, mem, Slot(root, i), mids[Path1(i)])
      ensures !ok || !create || Path1(i) in old(mids) ==> mem == old(mem) && free == old(free)
      ensures !ok ==> !IsValid(Read(mem, Slot(root, i))) && (create ==> free == {})
      ensures SameFlat(old(mem), mem, root) && free <= old(free)
      ensures ElsewhereSame(old(mem), mem, root, old(mids), old(free), i)
    {
      hide ElsewhereSame, IsFreePage, Upper, Tree, PteCreate, PteAddr, IsValid, Zeroed, Flat, FreeOk, SameFlat, PageAddr;
      SameFlatSteps(mem, mem, mem, root);
      ElsewhereNothing(mem, root, mids, free, i);
      UpperEntries(mem, root, mids, leafs, i, 0);
      if !IsValid(Read(mem, Slot(root, i))) {
        if !create {
          return false;
        }
        ghost var mem0, free0 := mem, free;
        var f := AllocTable();
        if f == None {
          return false;
        }
        FreeApart(free0, root, mids, leafs, f.value, root);
        NewMid(mem0, root, mids, leafs, free0, i, f.value);
        ElsewhereStep(mem0, mem0, root, mids, free0, i, f.value, Slot(root, i), PteCreate(f.value, PTE_U | PTE_V));
        mem := mem[Slot(root, i) := PteCreate(f.value, PTE_U | PTE_V)];
        mids := mids[Path1(i) := PageAddr(f.value)];
        assert MadeOf(free0, free, mem, Slot(root, i), mids[Path1(i)], f.value);
      }
      ok := true;
    }

    /** The second half: the third-level table for indexes `i` and `j`. */
    method LeafTable(i: bv9, j: bv9, create: bool) returns (ok: bool)
      requires Valid() && Path1(i) in mids && i < 2
      modifies `mem, `free, `leafs
      ensures Valid() && (ok && Path2(i, j) in old(leafs) ==> leafs == old(leafs))
      ensures ok <==> Path2(i, j) in leafs
      ensures ok ==> PteAddr(Read(mem, Slot(mids[Path1(i)], j))) == leafs[Path2(i, j)]
      ensures !ok || !create || Path2(i, j) in old(leafs) ==> mem == old(mem) && free == old(free)
      ensures !ok && create ==> free == {}
      ensures SameFlat(old(mem), mem, root) && free <= old(free)
      ensures ElsewhereSame(old(mem), mem, root, mids, old(free), i)
      ensures Read(mem, Slot(root, i)) == old(Read(mem, Slot(root, i)))
      ensures ok && Path2(i, j) !in old(leafs) ==> NewTable(old(free), free, mem, Slot(mids[Path1(i)], j), leafs[Path2(i, j)])
    {
      hide ElsewhereSame, IsFreePage, Upper, Tree, PteCreate, PteAddr, IsValid, Zeroed, Flat, FreeOk, SameFlat, PageAddr;
      SameFlatSteps(mem, mem, mem, root);
      ElsewhereNothing(mem, root, mids, free, i);
      UpperEntries(mem, root, mids, leafs, i, j);
      var m := mids[Path1(i)];
      var at := Slot(PteAddr(Read(mem, Slot(root, i))), j);
      if !IsValid(Read(mem, at)) {
        if !create {
          return false;
        }
        ghost var mem0, free0 := mem, free;
        var f := AllocTable();
        if f == None {
          return false;
        }
        MidIsUpper(mem0, root, mids, leafs, Path1(i));
        FreeApart(free0, root, mids, leafs, f.value, m);
        FreeApart(free0, root, mids, leafs, f.value, root);
        NewLeaf(mem0, root, mids, leafs, free0, i, j, f.value);
        ElsewhereStep(mem0, mem0, root, mids, free0, i, f.value, at, PteCreate(f.value, PTE_U | PTE_V));
        ReadZeroed(mem0, PageAddr(f.value), at, PteCreate(f.value, PTE_U | PTE_V), Slot(root, i));
        mem := mem[at := PteCreate(f.value, PTE_U | PTE_V)];
        leafs := leafs[Path2(i, j) := PageAddr(f.value)];
        UpperEntries(mem, root, mids, leafs, i, j);
        assert MadeOf(free0, free, mem, at, leafs[Path2(i, j)], f.value);
      }
      ok := true;
    }

    /** What a call that finds or makes both tables for indexes `i` and `j` takes: nothing, a
        page for the third-level table, or one for each. */
    ghost predicate Taken(mids0: Mids, leafs0: Leafs, free0: set<Word>, i: bv9, j: bv9)
      reads this
    {
      && Path1(i) in mids && Path2(i, j) in leafs
      && if Path1(i) in mids0 && Path2(i, j) in leafs0 then free == free0
         else if Path1(i) in mids0 then NewTable(free0, free, mem, Slot(mids[Path1(i)], j), leafs[Path2(i, j)])
         else exists free1 :: NewTable(free0, free1, mem, Slot(root, i), mids[Path1(i)])
                           && NewTable(free1, free, mem, Slot(mids[Path1(i)], j), leafs[Path2(i, j)])
    }

    /** The only free page became a second-level table, and there was none for the other. */
    ghost predicate Wasted(mids0: Mids, free0: set<Word>, i: bv9)
      reads this
    {
      Path1(i) !in mids0 && Path1(i) in mids && NewTable(free0, {}, mem, Slot(root, i), mids[Path1(i)])
    }

    /** get_pte */
    method GetPte(la: Word, create: bool) returns (ptep: Option<Slot>)
      requires Valid() && la < USERTOP
      modifies this
      ensures Valid() && ptep == Walk(mem, root, la)
      ensures SameFlat(old(mem), mem, root)
      ensures !create || old(Walk(mem, root, la)).Some? ==> mem == old(mem) && free == old(free)
      ensures create && ptep == None ==> free == {}
      ensures free <= old(free)
      ensures ElsewhereSame(old(mem), mem, root, old(mids), old(free), Pdx1(la))
      ensures create && ptep == None ==> old(free) == {} || Wasted(old(mids), old(free), Pdx1(la))
      ensures ptep.Some? ==> Taken(old(mids), old(leafs), old(free), Pdx1(la), Pdx0(la))
    {
      hide NewTable, MadeOf, ElsewhereSame, IsFreePage, Upper, Tree, Pdx1, Pdx0, Ptx, PteCreate, PteAddr, IsValid, Zeroed, Flat, FreeOk, SameFlat, PageAddr;
      IndexesTellPages(la, la);
      var i, j := Pdx1(la), Pdx0(la);
      WalkInTree(mem, root, mids, leafs, la);
      LeafsBelow(mem, root, mids, leafs, i, j);
      var ok := MidTable(i, create);
      if !ok {
        return None;
      }
      ghost var mem1, free1, mids1 := mem, free, mids;
      LeafsBelow(mem, root, mids, leafs, i, j);
      ok := LeafTable(i, j, create);
      SameFlatSteps(old(mem), mem1, mem, root);
      ElsewhereTwice(old(mem), mem1, mem, root, old(mids), mids1, old(free), free1, i);
      if Path1(i) !in old(mids) { SameEntry(old(free), free1, mem1, mem, Slot(root, i), mids[Path1(i)]); }
      WalkInTree(mem, root, mids, leafs, la);
      if !ok {
        return None;
      }
      ptep := Some(Slot(PteAddr(Read(mem, Slot(PteAddr(Read(mem, Slot(root, i))), j))), Ptx(la)));
    }
  }
}
