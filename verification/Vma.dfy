/** The list of virtual memory areas of an address space, with its lookup cache
    (kern/mm/vmm.c), in 64-bit byte addresses. */
module Vma {
  import opened Collections

  const PGSIZE := 4096
  const USERBASE := 0x0020_0000
  const USERTOP := 0x8000_0000
  const KERNBASE := 0xFFFF_FFFF_C020_0000
  const KERNTOP := 0xFFFF_FFFF_C800_0000
  const TWO64 := 0x1_0000_0000_0000_0000

  datatype Area = Area(start: int, end: int, read: bool, write: bool, stack: bool) {
    predicate Has(addr: int) { start <= addr < end }
  }

  /** Addition of machine words. */
  function Add(a: int, b: int): int { (a + b) % TWO64 }

  function RoundDown(a: int): int { a / PGSIZE * PGSIZE }

  function RoundUp(a: int): int { RoundDown(Add(a, PGSIZE - 1)) }

  predicate IsWord(a: int) { 0 <= a < TWO64 }

  predicate UserAccess(start: int, end: int) { USERBASE <= start < end <= USERTOP }

  predicate KernAccess(start: int, end: int) { KERNBASE <= start < end <= KERNTOP }

  /** Ascending, disjoint, not empty, in user space. */
  ghost predicate Sorted(areas: seq<Area>) {
    && (forall i :: 0 <= i < |areas| ==> UserAccess(areas[i].start, areas[i].end))
    && (forall i, j :: 0 <= i < j < |areas| ==> areas[i].end <= areas[j].start)
  }

  predicate Overlap(a: Area, b: Area) { a.start < b.end && b.start < a.end }

  /** The area that holds `addr`. */
  function Search(areas: seq<Area>, addr: int): Option<Area> {
    if areas == [] then None else if areas[0].Has(addr) then Some(areas[0]) else Search(areas[1..], addr)
  }

  lemma {:induction false} SearchFinds(areas: seq<Area>, addr: int)
    ensures Search(areas, addr) == None <==> forall a :: a in areas ==> !a.Has(addr)
    ensures Search(areas, addr).Some? ==> Search(areas, addr).value in areas && Search(areas, addr).value.Has(addr)
  {
    if areas != [] {
      assert areas == [areas[0]] + areas[1..];
      SearchFinds(areas[1..], addr);
    }
  }

  /** No other area holds the address. */
  lemma SearchUnique(areas: seq<Area>, addr: int, a: Area)
    requires Sorted(areas) && a in areas && a.Has(addr)
    ensures Search(areas, addr) == Some(a)
  {
    SearchFinds(areas, addr);
    var b := Search(areas, addr).value;
    var i :| 0 <= i < |areas| && areas[i] == a;
    var j :| 0 <= j < |areas| && areas[j] == b;
    forall k | 0 <= k < |areas| && k != i ensures !areas[k].Has(addr) {
      assert k < i ==> areas[k].end <= areas[i].start;
      assert i < k ==> areas[i].end <= areas[k].start;
    }
  }

  // ---------------------------------------------------------------- user_mem_check

  /** A user access may touch this byte. The first page of a stack area is a guard against
      writes. */
  ghost predicate ByteOk(areas: seq<Area>, write: bool, b: int) {
    exists a :: a in areas && a.Has(b) && AreaOk(a, write, b)
  }

  predicate AreaOk(a: Area, write: bool, b: int) {
    (if write then a.write else a.read) && (write && a.stack ==> b >= a.start + PGSIZE)
  }

  /** Within one area, access at a byte decides access at the bytes after it. */
  lemma RestOfArea(areas: seq<Area>, write: bool, a: Area, b: int)
    requires Sorted(areas) && a in areas && a.Has(b)
    ensures ByteOk(areas, write, b) <==> AreaOk(a, write, b)
    ensures AreaOk(a, write, b) ==> forall c :: b <= c < a.end ==> ByteOk(areas, write, c)
  {
    SearchUnique(areas, b, a);
    forall x | x in areas && x.Has(b) ensures x == a {
      SearchUnique(areas, b, x);
    }
    if AreaOk(a, write, b) {
      forall c | b <= c < a.end ensures ByteOk(areas, write, c) {
        assert a.Has(c) && AreaOk(a, write, c);
      }
    }
  }

  /** An area between its neighbours is between all others. */
  lemma BetweenAll(areas: seq<Area>, k: nat, a: Area, i: nat)
    requires Sorted(areas) && k <= |areas| && i < |areas| && a.start < a.end
    requires (k > 0 ==> areas[k - 1].end <= a.start) && (k < |areas| ==> a.end <= areas[k].start)
    ensures if i < k then areas[i].end <= a.start else a.end <= areas[i].start
    ensures !Overlap(a, areas[i])
  {
    assert i < k - 1 ==> areas[i].end <= areas[k - 1].start;
    assert i > k ==> areas[k].end <= areas[i].start;
  }

  lemma FitsAt(areas: seq<Area>, k: nat, a: Area)
    requires Sorted(areas) && k <= |areas| && UserAccess(a.start, a.end)
    requires (k > 0 ==> areas[k - 1].end <= a.start) && (k < |areas| ==> a.end <= areas[k].start)
    ensures Sorted(areas[..k] + [a] + areas[k..])
    ensures forall b :: b in areas ==> !Overlap(a, b)
  {
    forall i | 0 <= i < |areas| ensures (if i < k then areas[i].end <= a.start else a.end <= areas[i].start) && !Overlap(a, areas[i]) {
      BetweenAll(areas, k, a, i);
    }
    hide Overlap;
  }

  class MmStruct {
    var areas: seq<Area>
    var cache: Option<Area>
    var mapCount: nat

    ghost predicate Valid()
      reads this
    {
      Sorted(areas) && (cache.Some? ==> cache.value in areas) && mapCount == |areas|
    }

    /** mm_create */
    constructor ()
      ensures Valid() && areas == []
    {
      areas, cache, mapCount := [], None, 0;
    }

    /** find_vma. The answer does not depend on what was looked up before. */
    method FindVma(addr: int) returns (r: Option<Area>)
      requires Valid()
      modifies `cache
      ensures Valid() && r == Search(areas, addr)
      ensures cache == if r.Some? then r else old(cache)
    {
      r := cache;
      if !(r.Some? && r.value.start <= addr && r.value.end > addr) {
        var found := false;
        var le := 0;
        while le < |areas|
          invariant 0 <= le <= |areas|
          invariant forall i :: 0 <= i < le ==> !areas[i].Has(addr)
        {
          r := Some(areas[le]);
          if areas[le].start <= addr < areas[le].end {
            found := true;
            break;
          }
          le := le + 1;
        }
        if !found {
          r := None;
        }
        SearchFinds(areas, addr);
      }
      if r.Some? {
        SearchUnique(areas, addr, r.value);
        cache := r;
      }
    }

    /** insert_vma_struct. `panics` is the failure of an assert: it compares the new area with
        its neighbours only, which finds an overlap with any area. */
    method InsertVma(a: Area) returns (panics: bool)
      requires Valid() && UserAccess(a.start, a.end)
      modifies `areas, `mapCount
      ensures Valid()
      ensures panics <==> exists b :: b in old(areas) && Overlap(a, b)
      ensures panics ==> areas == old(areas)
      ensures !panics ==> exists k :: 0 <= k <= |old(areas)| && areas == old(areas)[..k] + [a] + old(areas)[k..]
    {
      var k := 0;
      while k < |areas| && areas[k].start <= a.start
        invariant 0 <= k <= |areas|
        invariant forall i :: 0 <= i < k ==> areas[i].start <= a.start
      {
        k := k + 1;
      }
      if (k > 0 && areas[k - 1].end > a.start) || (k < |areas| && a.end > areas[k].start) {
        assert k > 0 && areas[k - 1].end > a.start ==> areas[k - 1] in areas && Overlap(a, areas[k - 1]);
        assert k < |areas| && a.end > areas[k].start ==> areas[k] in areas && Overlap(a, areas[k]);
        return true;
      }
      FitsAt(areas, k, a);
      areas := areas[..k] + [a] + areas[k..];
      mapCount := mapCount + 1;
      panics := false;
    }
  }

  datatype MapResult = Ok(area: Area) | Inval | NoMem | Panic

  /** mm_map; `memory` is whether kmalloc succeeds. */
  method MmMap(mm: MmStruct, addr: int, len: int, read: bool, write: bool, stack: bool, memory: bool) returns (r: MapResult)
    requires mm.Valid() && IsWord(addr) && IsWord(len)
    modifies mm
    ensures mm.Valid()
    ensures var start, end := RoundDown(addr), RoundUp(Add(addr, len)); var a := Area(start, end, read, write, stack);
            r == if !UserAccess(start, end) || Search(old(mm.areas), start).Some? then Inval
                 else if !memory then NoMem
                 else if Crosses(old(mm.areas), start, end) then Panic else Ok(a)
    ensures !r.Ok? ==> mm.areas == old(mm.areas)
    ensures r.Ok? ==> multiset(mm.areas) == multiset(old(mm.areas)) + multiset{r.area}
  {
    var start, end := RoundDown(addr), RoundUp(Add(addr, len));
    if !UserAccess(start, end) {
      return Inval;
    }
    var vma := mm.FindVma(start);
    if vma.Some? && end > vma.value.start {
      return Inval;
    }
    SearchFinds(mm.areas, start);
    if !memory {
      return NoMem;
    }
    var a := Area(start, end, read, write, stack);
    var panics := mm.InsertVma(a);
    OnlyLaterAreas(old(mm.areas), a);
    if panics {
      return Panic;
    }
    ghost var k :| 0 <= k <= |old(mm.areas)| && mm.areas == old(mm.areas)[..k] + [a] + old(mm.areas)[k..];
    assert old(mm.areas) == old(mm.areas)[..k] + old(mm.areas)[k..];
    r := Ok(a);
  }

  /** Some area begins inside (start, end). */
  ghost predicate Crosses(areas: seq<Area>, start: int, end: int) {
    exists a :: a in areas && start < a.start < end
  }

  /** When no area holds its first byte, an area overlaps just those that begin later inside
      it: the case the lookup of mm_map does not see. */
  lemma OnlyLaterAreas(areas: seq<Area>, a: Area)
    requires Sorted(areas) && a.start < a.end && Search(areas, a.start) == None
    ensures (exists b :: b in areas && Overlap(a, b)) <==> Crosses(areas, a.start, a.end)
  {
    SearchFinds(areas, a.start);
    assert forall b :: b in areas ==> b.start < b.end;
    forall b | b in areas ensures Overlap(a, b) <==> a.start < b.start < a.end {
      assert !b.Has(a.start);
    }
  }

  /** One area at 4 MiB, and 8 KiB asked for a page below it: mm_map's lookup finds nothing at
      the first byte, and insert_vma_struct's assert fails. */
  lemma LaterArea()
    ensures var areas := [Area(0x40_0000, 0x40_1000, true, true, false)];
            var start, end := RoundDown(0x3F_F000), RoundUp(Add(0x3F_F000, 0x2000));
            Sorted(areas) && UserAccess(start, end) && Search(areas, start) == None && Crosses(areas, start, end)
  {
    var areas := [Area(0x40_0000, 0x40_1000, true, true, false)];
    assert Add(0x3F_F000, 0x2000) == 0x40_1000 && RoundUp(0x40_1000) == 0x40_1000;
    assert areas[0] in areas;
    SearchFinds(areas, 0x3F_F000);
  }

  /** The new area covers the bytes asked for exactly when their addresses do not wrap. */
  lemma MappedCovers(addr: int, len: int, asked: Area, got: Area)
    requires IsWord(addr) && IsWord(len) && UserAccess(got.start, got.end)
    requires asked.start == addr && asked.end == addr + len
    requires got.start == RoundDown(addr) && got.end == RoundUp(Add(addr, len))
    ensures (forall b :: asked.Has(b) ==> got.Has(b)) <==> addr + len < TWO64
    ensures got.start % PGSIZE == 0 && got.end % PGSIZE == 0 && got.start <= addr < got.start + PGSIZE
    ensures addr + len < TWO64 ==> got.end - PGSIZE < addr + len <= got.end
  {
    if addr + len < TWO64 {
      assert Add(addr, len) == addr + len;
      RoundUpIsAbove(addr + len);
    } else {
      assert asked.Has(addr + len - 1) && !got.Has(addr + len - 1);
    }
  }

  lemma RoundUpIsAbove(a: int)
    requires IsWord(a)
    ensures a <= RoundUp(a) < a + PGSIZE || RoundUp(a) < PGSIZE
  {
  }

  /** A length just short of 2^64 wraps and passes the check of mm_map. */
  lemma WrappedLength()
    ensures var addr, len := 0x20_0010, TWO64 - 1; UserAccess(RoundDown(addr), RoundUp(Add(addr, len))) && addr + len >= TWO64
  {
    assert Add(0x20_0010, TWO64 - 1) == 0x20_000F;
  }

  /** user_mem_check */
  method UserMemCheck(mm: MmStruct?, addr: int, len: int, write: bool) returns (ok: bool)
    requires IsWord(addr) && IsWord(len) && (mm != null ==> mm.Valid())
    modifies if mm != null then {mm} else {}
    ensures mm != null ==> mm.Valid() && mm.areas == old(mm.areas)
    ensures mm != null ==>
      (ok <==> 0 < len && USERBASE <= addr && addr + len <= USERTOP && forall b :: addr <= b < addr + len ==> ByteOk(mm.areas, write, b))
    ensures mm == null ==> (ok <==> 0 < len && KERNBASE <= addr && addr + len <= KERNTOP)
  {
    if mm != null {
      if !UserAccess(addr, Add(addr, len)) {
        return false;
      }
      var start, end := addr, Add(addr, len);
      while start < end
        invariant mm.Valid() && addr <= start && mm.areas == old(mm.areas)
        invariant forall b :: addr <= b < start && b < end ==> ByteOk(mm.areas, write, b)
        decreases end - start
      {
        var vma := mm.FindVma(start);
        SearchFinds(mm.areas, start);
        if vma == None || start < vma.value.start {
          assert !ByteOk(mm.areas, write, start);
          return false;
        }
        var a := vma.value;
        RestOfArea(mm.areas, write, a, start);
        if !(if write then a.write else a.read) {
          return false;
        }
        if write && a.stack {
          if start < a.start + PGSIZE {
            return false;
          }
        }
        start := a.end;
      }
      return true;
    }
    return KernAccess(addr, Add(addr, len));
  }
}
