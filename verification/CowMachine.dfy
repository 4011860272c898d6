/** The machine user programs run on: every access goes through the page table, a page
    fault traps into do_pgfault and is retried or kills the process, system calls run the
    kernel's memory code. Whatever the programs do, they cannot tell this machine from the
    eager one. */
module CowMachine {
  import opened Collections
  import opened Mmu
  import opened CowState
  import opened CowTables
  import opened CowRanges
  import opened CowEager
  import opened CowTrace
  import opened CowKernel

  /** The values a memory holds now, and what user programs see of them. */
  ghost function Now(mem: Memory): (t: State)
    reads mem, mem.ref, mem.data
    requires mem.Inv()
    ensures Good(t)
  {
    State(mem.spaces, mem.ptes, mem.ref[..], mem.free, mem.kernel, mem.data[..])
  }

  ghost function View(mem: Memory): UserState
    reads mem, mem.ref, mem.data
    requires mem.Inv()
  {
    ViewOf(Now(mem))
  }

  /** A page fault changes nothing a program can see. */
  method Fault(mem: Memory, x: Slot, isWrite: bool) returns (res: FaultResult)
    requires mem.Inv() && x.mm in mem.spaces
    modifies mem, mem.ref, mem.data
    ensures mem.Inv() && View(mem) == old(View(mem))
    ensures res == Invalid <==> !(isWrite && x in old(mem.ptes) && old(mem.ptes[x]).flags.cow)
    ensures res == Fixed ==> Stored(old(Now(mem)), Now(mem), x) && !old(NoFrameFor(Now(mem), x))
    ensures res != Fixed ==> Now(mem) == old(Now(mem))
    ensures res == NoMem ==> NoFrameFor(Now(mem), x)
  {
    hide Ledger, Frames, SpacesOk, EntriesOk, WritersAlone, PagesOf, InRange;
    ghost var t := Now(mem);
    FramesInRange(t.ptes, t.ref, t.free, t.kernel, t.data);
    if x in t.ptes {
      EntryFacts(t.spaces, t.ptes, t.ref, t.free, t.kernel, {}, x);
    }
    res := mem.DoPgfault(x.mm, x.page, isWrite);
    assert x == Slot(x.mm, x.page);
    if res == Fixed {
      ghost var n := mem.ptes[x].frame;
      if Shared(t, x) {
        FreeIsUnmapped(t.ptes, t.ref, t.free, t.kernel, n);
      }
      FaultRefines(t.ptes, t.data, mem.ptes, mem.data[..], x, n);
    }
  }

  /** do_exit of a process whose access could not be granted. */
  method Kill(mem: Memory, m: nat)
    requires mem.Inv() && m in mem.spaces
    modifies mem, mem.ref, mem.data
    ensures mem.Inv() && View(mem) == Exit(old(View(mem)), m)
    ensures Exited(old(Now(mem)), Now(mem), m)
  {
    hide Ledger, Frames, SpacesOk, EntriesOk, WritersAlone, PagesOf, InRange, AreasOf, WithoutMm, Exit, FreedAreas;
    FramesInRange(mem.ptes, mem.ref[..], mem.free, mem.kernel, mem.data[..]);
    ExitRefines(mem.spaces, mem.ptes, mem.data[..], m);
    mem.Exit(m);
  }

  /** A user-mode store: a trap when the entry does not permit it, and the instruction
      again once do_pgfault has succeeded. It takes effect exactly where the eager machine's
      store does, unless the page is shared and no frame is free. */
  method UserStore(mem: Memory, x: Slot, off: nat, b: Byte) returns (alive: bool)
    requires mem.Inv() && x.mm in mem.spaces && off < PGSIZE
    modifies mem, mem.ref, mem.data
    ensures mem.Inv()
    ensures alive <==> Writable(old(View(mem)), x) && !old(NoFrameFor(Now(mem), x))
    ensures alive ==> View(mem) == Write(old(View(mem)), x, off, b) && Stored(old(Now(mem)), Now(mem), x)
    ensures !alive ==> View(mem) == Exit(old(View(mem)), x.mm) && Exited(old(Now(mem)), Now(mem), x.mm)
  {
    hide Ledger, Frames, SpacesOk, EntriesOk, WritersAlone, AreasOf, WithoutMm, Exit, Write, FreedAreas;
    ghost var t := Now(mem);
    while !(x in mem.ptes && mem.ptes[x].flags.u && mem.ptes[x].flags.w)
      invariant mem.Inv() && View(mem) == old(View(mem))
      invariant Now(mem) == t || (Stored(t, Now(mem), x) && !NoFrameFor(t, x) && !mem.ptes[x].flags.cow)
      decreases x in mem.ptes && mem.ptes[x].flags.cow
    {
      var res := Fault(mem, x, true);
      if res != Fixed {
        ghost var u := Now(mem);
        Kill(mem, x.mm);
        if u != t { ExitedToo(t, u, Now(mem), x); }
        return false;
      }
    }
    alive := true;
    ghost var p, d := mem.ptes, mem.data[..];
    EntryFacts(mem.spaces, p, mem.ref[..], mem.free, mem.kernel, {}, x);
    FramesInRange(p, mem.ref[..], mem.free, mem.kernel, d);
    WriterIsAlone(p, mem.ref[..], mem.free, mem.kernel, x);
    StoreRefines(p, d, x, off, b, mem.spaces);
    assert !p[x].flags.cow by { assert PteOk(mem.spaces[x.mm], x.page, p[x].flags); }
    WriterIsNotShared(t, x);
    mem.StoreByte(mem.ptes[x].frame, off, b);
  }

  /** A user-mode load. */
  method UserLoad(mem: Memory, x: Slot, off: nat) returns (r: Option<Byte>)
    requires mem.Inv() && x.mm in mem.spaces && off < PGSIZE
    modifies mem, mem.ref, mem.data
    ensures mem.Inv()
    ensures r == if Readable(old(View(mem)), x) then Some(old(View(mem)).pages[x].data[off]) else None
    ensures r.Some? ==> Now(mem) == old(Now(mem))
    ensures r.None? ==> View(mem) == Exit(old(View(mem)), x.mm) && Exited(old(Now(mem)), Now(mem), x.mm)
  {
    hide Ledger, Frames, SpacesOk, EntriesOk, WritersAlone, AreasOf, WithoutMm, Exit, Exited;
    FramesInRange(mem.ptes, mem.ref[..], mem.free, mem.kernel, mem.data[..]);
    if x in mem.ptes && mem.ptes[x].flags.u && mem.ptes[x].flags.r {
      return Some(mem.data[mem.ptes[x].frame][off]);
    }
    var res := Fault(mem, x, false);
    Kill(mem, x.mm);
    return None;
  }

  /** A new address space, empty. */
  method Create(mem: Memory, m: nat, kmalloc: Answers) returns (ok: bool)
    requires mem.Inv() && m !in mem.spaces
    modifies mem, mem.ref, mem.data
    ensures mem.Inv()
    ensures ok <==> kmalloc(0) && old(mem.free) != {}
    ensures View(mem) == if ok then CowEager.Create(old(View(mem)), m) else old(View(mem))
    ensures if ok then Created(old(Now(mem)), Now(mem), m) else Now(mem) == old(Now(mem))
  {
    hide Ledger, Frames, SpacesOk, EntriesOk, WritersAlone, PagesOf;
    ok := mem.CreateSpace(m, kmalloc);
  }

  /** A new area of an address space. */
  method NewArea(mem: Memory, m: nat, a: Area, kmalloc: Answers) returns (ok: bool)
    requires mem.Inv() && m in mem.spaces && AreaFits(mem.spaces[m].areas, a)
    modifies mem, mem.ref, mem.data
    ensures mem.Inv() && (ok <==> kmalloc(0)) && m in old(View(mem)).areas
    ensures View(mem) == if ok then MapArea(old(View(mem)), m, a) else old(View(mem))
    ensures if ok then AreaAdded(old(Now(mem)), Now(mem), m, a) else Now(mem) == old(Now(mem))
  {
    hide Ledger, Frames, SpacesOk, EntriesOk, WritersAlone, PagesOf, InsertArea;
    ok := mem.AddArea(m, a, kmalloc);
  }

  /** fork: afterwards the child has all the parent had, or, when memory ran out on the
      way, nothing a program could see has happened. */
  method Fork(mem: Memory, parent: nat, child: nat, kmalloc: Answers) returns (ok: bool)
    requires mem.Inv() && parent in mem.spaces && child !in mem.spaces
    modifies mem, mem.ref, mem.data
    ensures mem.Inv() && parent in old(View(mem)).areas
    ensures ok <==> old(Granted(kmalloc, 0, |mem.spaces[parent].areas| + 1) && |mem.free| > ForkTables(mem.ptes, parent))
    ensures View(mem) == if ok then CowEager.Fork(old(View(mem)), parent, child) else old(View(mem))
    ensures if ok then ForkDone(old(Now(mem)), Now(mem), parent, child) else ForkUndone(old(Now(mem)), Now(mem), parent)
  {
    hide Ledger, Frames, SpacesOk, WritersAlone, PagesOf, Forked, RolledBack, CowEager.Fork, ForkTables, Granted;
    ghost var s, p, d := mem.spaces, mem.ptes, mem.data[..];
    FramesInRange(p, mem.ref[..], mem.free, mem.kernel, d);
    ok := mem.CopyMm(parent, child, kmalloc);
    FramesInRange(mem.ptes, mem.ref[..], mem.free, mem.kernel, d);
    if ok {
      ForkRefines(s, p, mem.spaces, mem.ptes, parent, child, d);
    } else {
      RollbackRefines(s, p, mem.spaces, mem.ptes, parent, d);
    }
  }

  /** Mapping a page while a program is loaded. */
  method Load(mem: Memory, x: Slot, flags: Flags, fill: PageData) returns (ok: bool)
    requires mem.Inv() && x.mm in mem.spaces && AreaAt(mem.spaces[x.mm].areas, x.page)
    requires !flags.cow && (flags.w ==> WritableAt(mem.spaces[x.mm].areas, x.page))
    modifies mem, mem.ref, mem.data
    ensures mem.Inv()
    ensures ok <==> |old(mem.free)| > Missing(old(mem.spaces[x.mm]), x.page)
    ensures View(mem) == if ok then Map(old(View(mem)), x, UserPage(fill, flags)) else old(View(mem))
    ensures if ok then PageMapped(old(Now(mem)), Now(mem), x, flags) else NotMapped(old(Now(mem)), Now(mem), x)
  {
    hide Ledger, Frames, SpacesOk, EntriesOk, WritersAlone, PagesOf, TablesGrown, AreaAt, WritableAt, AreasOf, Missing, Grew;
    ghost var t := Now(mem);
    FramesInRange(t.ptes, t.ref, t.free, t.kernel, t.data);
    ok := mem.MapPage(x, flags, fill);
    GrowthInvisible(t.spaces, mem.spaces);
    if ok {
      FreeIsUnmapped(t.ptes, t.ref, t.free, t.kernel, mem.ptes[x].frame);
      MapRefines(t.ptes, t.data, x, mem.ptes[x].frame, flags, fill);
    }
  }

  /** One operation, whoever asks for it, with kmalloc's answers to it. An operation of a
      process that is no longer there does not take place. */
  method Execute(mem: Memory, op: Op, kmalloc: Answers) returns (done: bool, r: Option<Byte>)
    requires mem.Inv()
    modifies mem, mem.ref, mem.data
    ensures mem.Inv()
    ensures Happened(old(Now(mem)), Now(mem), op, kmalloc, done)
    ensures r == Result(old(View(mem)), op)
  {
    hide Ledger, Frames, SpacesOk, EntriesOk, WritersAlone, PagesOf, TablesGrown, AreaAt, WritableAt, CowEager.Fork, Exit, Write,
         Missing, ForkTables, Granted, CowEager.Create, MapArea, Created, AreaAdded, ForkDone, ForkUndone, PageMapped, NotMapped, Stored, Exited;
    done, r := true, None;
    AppliesIsLegal(Now(mem), op);
    if !Legal(AreasOf(mem.spaces), op) {
      return;
    }
    match op
    case OpCreate(m) => done := Create(mem, m, kmalloc);
    case OpArea(m, a) => done := NewArea(mem, m, a, kmalloc);
    case OpMap(x, flags, fill) => done := Load(mem, x, flags, fill);
    case OpFork(parent, child) => done := Fork(mem, parent, child, kmalloc);
    case OpStore(x, off, b) => done := UserStore(mem, x, off, b);
    case OpLoad(x, off) => r := UserLoad(mem, x, off);
    case OpExit(m) => Kill(mem, m);
  }

  /** Copy-on-write refines eager copy: over any sequence of operations the programs see
      what the eager machine would show them, in every byte they read and in every page
      they are left with. `trace` holds the values of the memory before each operation and
      after the last: at each of them an operation failed exactly when kmalloc or the
      allocator had not what it takes. */
  method RunAll(mem: Memory, ops: seq<Op>, answers: seq<Answers>)
    returns (done: seq<bool>, results: seq<Option<Byte>>, ghost trace: seq<State>)
    requires mem.Inv() && |answers| == |ops|
    modifies mem, mem.ref, mem.data
    ensures mem.Inv() && Traced(trace, ops, answers, done)
    ensures trace[0] == old(Now(mem)) && trace[|ops|] == Now(mem)
    ensures View(mem) == Run(old(View(mem)), ops, done)
    ensures results == Results(old(View(mem)), ops, done)
  {
    hide Ledger, Frames, SpacesOk, EntriesOk, WritersAlone, PagesOf, Step, Result, Legal, AreasOf, Next, Succeeds;
    done, results := [], [];
    ghost var e := View(mem);
    trace := [Now(mem)];
    var i := 0;
    while i < |ops|
      invariant 0 <= i <= |ops| && |done| == i
      invariant mem.Inv() && Traced(trace, ops[..i], answers[..i], done)
      invariant trace[0] == old(Now(mem)) && trace[i] == Now(mem)
      invariant View(mem) == Run(e, ops[..i], done)
      invariant results == Results(e, ops[..i], done)
    {
      var d, r := Execute(mem, ops[i], answers[i]);
      assert ops[..i + 1][..i] == ops[..i] && (done + [d])[..i] == done;
      assert ops[..i + 1] == ops[..i] + [ops[i]] && answers[..i + 1] == answers[..i] + [answers[i]];
      TracedOnce(trace, ops[..i], answers[..i], done, Now(mem), ops[i], answers[i], d);
      done, results, trace := done + [d], results + [r], trace + [Now(mem)];
      i := i + 1;
    }
    assert ops[..i] == ops && answers[..i] == answers;
  }

  /** A fork and whatever comes after it: parent and child each go on as if the other were
      not there, although they share frames. What each has in the end, and every byte it has
      read, are what its own operations make of what the parent had; the child's pages are
      the parent's at the fork as long as the child does nothing, and the other way round. */
  method ForkIsolates(mem: Memory, parent: nat, child: nat, kmalloc: Answers, ops: seq<Op>, answers: seq<Answers>)
    returns (ok: bool, done: seq<bool>, results: seq<Option<Byte>>)
    requires mem.Inv() && parent in mem.spaces && child !in mem.spaces && |answers| == |ops|
    modifies mem, mem.ref, mem.data
    ensures mem.Inv() && |done| == |ops| == |results|
    ensures ok <==> old(Granted(kmalloc, 0, |mem.spaces[parent].areas| + 1) && |mem.free| > ForkTables(mem.ptes, parent))
    ensures ok && NotForked(ops, child) ==> Mine(View(mem), child) == RunOwn(Renamed(old(View(mem)), parent, child), ops, done, child)
    ensures ok && NotForked(ops, child) ==> Own(ops, results, child) == ReadOwn(Renamed(old(View(mem)), parent, child), ops, done, child)
    ensures NotForked(ops, parent) ==> Mine(View(mem), parent) == RunOwn(Mine(old(View(mem)), parent), ops, done, parent)
    ensures NotForked(ops, parent) ==> Own(ops, results, parent) == ReadOwn(Mine(old(View(mem)), parent), ops, done, parent)
    ensures ok && Idle(ops, child) ==> Mine(View(mem), child).pages == Renamed(old(View(mem)), parent, child).pages
    ensures Idle(ops, parent) ==> Mine(View(mem), parent).pages == Mine(old(View(mem)), parent).pages
  {
    hide Ledger, Frames, SpacesOk, EntriesOk, WritersAlone, PagesOf, AreasOf, CowEager.Fork, Happened, ForkDone, ForkUndone,
         ForkTables, Granted, Mine, Renamed, RunOwn, ReadOwn, NotForked, Idle;
    ghost var e := View(mem);
    ViewPages(Now(mem), child);
    ok := Fork(mem, parent, child, kmalloc);
    ghost var f := View(mem);
    if ok {
      ChildOfFork(e, parent, child);
      ParentOfFork(e, parent, child);
    }
    ghost var trace;
    done, results, trace := RunAll(mem, ops, answers);
    ResultsSize(f, ops, done);
    if NotForked(ops, child) { RunAlone(f, ops, done, child); }
    if NotForked(ops, parent) { RunAlone(f, ops, done, parent); }
    if Idle(ops, child) { IdleKeeps(f, ops, done, child); }
    if Idle(ops, parent) { IdleKeeps(f, ops, done, parent); }
  }
}
