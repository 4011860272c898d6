/** Page-table entry bits (kern/mm/mmu.h) and the permission words the copy-on-write code
    builds from them. `Flags` is the decoded form of the bits of a valid entry other than
    PTE_V; `Word` gives the bits back, and the lemmas tie each operation on flags to the
    bit expression in the C code. */
module Mmu {

  type Bits = bv10

  const PTE_V: Bits := 0x001
  const PTE_R: Bits := 0x002
  const PTE_W: Bits := 0x004
  const PTE_X: Bits := 0x008
  const PTE_U: Bits := 0x010
  const PTE_G: Bits := 0x020
  const PTE_A: Bits := 0x040
  const PTE_D: Bits := 0x080
  const PTE_SOFT: Bits := 0x300
  const PTE_COW: Bits := 0x100
  const PERM: Bits := PTE_R | PTE_W | PTE_X | PTE_U | PTE_G | PTE_A | PTE_D | PTE_SOFT

  /** `soft` is the software bit 0x200, the one of PTE_SOFT that is not PTE_COW. */
  datatype Flags = Flags(r: bool, w: bool, x: bool, u: bool, g: bool, a: bool, d: bool, soft: bool, cow: bool)

  function Bit(b: bool, bit: Bits): Bits {
    if b then bit else 0
  }

  function Word(f: Flags): Bits {
    PTE_V | Bit(f.r, PTE_R) | Bit(f.w, PTE_W) | Bit(f.x, PTE_X) | Bit(f.u, PTE_U) | Bit(f.g, PTE_G)
    | Bit(f.a, PTE_A) | Bit(f.d, PTE_D) | Bit(f.cow, PTE_COW) | Bit(f.soft, 0x200)
  }

  function Decode(w: Bits): Flags {
    Flags(w & PTE_R != 0, w & PTE_W != 0, w & PTE_X != 0, w & PTE_U != 0, w & PTE_G != 0,
          w & PTE_A != 0, w & PTE_D != 0, w & 0x200 != 0, w & PTE_COW != 0)
  }

  /** The flags copy_range gives to both parties of a shared page. */
  function Demote(f: Flags): Flags {
    if f.w then f.(w := false, cow := true) else f
  }

  /** The flags do_pgfault restores. */
  function Upgrade(f: Flags): Flags {
    f.(w := true, cow := false)
  }

  /** What a user program may do with a page, whether or not it is currently shared. */
  function Effective(f: Flags): Flags {
    if f.cow then Upgrade(f) else f
  }

  /** The bit arithmetic of copy_range: `perm & PTE_W` chooses between
      `(perm & ~PTE_W) | PTE_COW` and `perm`, each stored with PTE_V. */
  lemma DemoteBits(f: Flags)
    ensures Decode(Word(f)) == f && Word(Decode(Word(f))) == Word(f)
    ensures var perm := Word(f) & PERM;
            Word(Demote(f)) == PTE_V | (if perm & PTE_W != 0 then (perm & !PTE_W) | PTE_COW else perm)
  {
  }

  /** The bit arithmetic of do_pgfault: a fresh copy is inserted with
      `((pte & PERM) | PTE_W) & ~PTE_COW`, an upgrade in place stores
      `(pte & ~PTE_COW) | PTE_W`; both leave the same entry flags. */
  lemma UpgradeBits(f: Flags)
    ensures Word(Upgrade(f)) == PTE_V | (((Word(f) & PERM) | PTE_W) & !PTE_COW)
    ensures Word(Upgrade(f)) == (Word(f) & !PTE_COW) | PTE_W
  {
  }

  /** A fault after a fork restores exactly the entry bits held before the fork. */
  lemma FaultUndoesFork(f: Flags)
    requires f.w && !f.cow
    ensures var perm := Word(f) & PERM;
            var shared := PTE_V | ((perm & !PTE_W) | PTE_COW);
            && PTE_V | (((shared & PERM) | PTE_W) & !PTE_COW) == Word(f)
            && (shared & !PTE_COW) | PTE_W == Word(f)
  {
    DemoteBits(f);
    UpgradeBits(Demote(f));
  }
}
