/** do_pgfault run by several processes at once. Each step of the fault handler is atomic,
    the steps of different processes interleave freely, and user stores happen in between.
    The processes have distinct address spaces and start out sharing one frame
    copy-on-write. */
module FaultInterleaving {
  import opened CowState

  /** Where a process is: in user code, or at a step of do_pgfault. `Failed` is an error
      return, which kills the process. */
  datatype Pc =
    | User
    | Locking         // lock(&page->page_lock)
    | Recheck         // the entry is read again under the lock
    | ReadRef         // ref_count = page_ref(page), first time
    | Reread          // ... second time
    | Alloc           // alloc_page
    | Copying         // memcpy
    | RereadCopied    // ... third time
    | Insert          // page_insert
    | Verify          // the entry is read back
    | FreeUnused      // free_page(npage)
    | Upgrade         // W set and COW cleared in place
    | Unlock          // unlock(&page->page_lock)
    | Failed

  /** A process: its entry for the faulting address, and do_pgfault's local variables. */
  datatype Proc = Proc(pc: Pc, frame: nat, w: bool, cow: bool, page: nat, npage: nat, count: int)

  /** `view` is what each process's page would hold had fork copied it: only the process's
      own stores change it. `taken` counts frames handed out; `panicked` is set when an
      unlock finds the lock clear. */
  datatype Sys = Sys(procs: seq<Proc>, ref: seq<int>, data: seq<PageData>, locked: set<nat>, free: set<nat>,
                     view: seq<PageData>, taken: nat, panicked: bool)

  /** One step: which process moves, the frame an allocation yields, the byte a store writes. */
  datatype Label = Label(who: nat, frame: nat, off: nat, b: Byte)

  function With(s: Sys, i: nat, p: Proc): Sys
    requires i < |s.procs|
  {
    s.(procs := s.procs[i := p])
  }

  predicate InBounds(s: Sys) {
    && |s.ref| == |s.data| && |s.view| == |s.procs|
    && (forall i :: 0 <= i < |s.procs| ==>
          s.procs[i].frame < |s.ref| && s.procs[i].page < |s.ref| && s.procs[i].npage < |s.ref|)
  }

  /** One atomic step of process `l.who`. A step that has to wait leaves the state as it is. */
  function Step(s: Sys, l: Label): Sys
    requires InBounds(s)
  {
    if l.who >= |s.procs| then s else
    var i := l.who;
    var p := s.procs[i];
    match p.pc
    case User =>
      if p.w then
        if l.off >= PGSIZE then s else
        s.(data := s.data[p.frame := s.data[p.frame][l.off := l.b]], view := s.view[i := s.view[i][l.off := l.b]])
      else if p.cow then With(s, i, p.(pc := Locking, page := p.frame))
      else With(s, i, p.(pc := Failed))
    case Locking =>
      if p.page in s.locked then s
      else With(s, i, p.(pc := Recheck)).(locked := s.locked + {p.page})
    case Recheck =>
      if !p.cow then With(s, i, p.(pc := Failed)).(locked := s.locked - {p.page})
      else if p.frame != p.page then With(s, i, p.(pc := Locking, page := p.frame)).(locked := s.locked - {p.page})
      else With(s, i, p.(pc := ReadRef))
    case ReadRef =>
      With(s, i, p.(count := s.ref[p.page], pc := if s.ref[p.page] > 1 then Reread else Upgrade))
    case Reread =>
      With(s, i, p.(count := s.ref[p.page], pc := if s.ref[p.page] > 1 then Alloc else Upgrade))
    case Alloc =>
      if l.frame !in s.free || l.frame >= |s.ref| then s
      else With(s, i, p.(npage := l.frame, pc := Copying)).(free := s.free - {l.frame}, taken := s.taken + 1)
    case Copying =>
      With(s, i, p.(pc := RereadCopied)).(data := s.data[p.npage := s.data[p.page]])
    case RereadCopied =>
      With(s, i, p.(count := s.ref[p.page], pc := if s.ref[p.page] > 1 then Insert else FreeUnused))
    case Insert =>
      var ref := s.ref[p.npage := s.ref[p.npage] + 1];
      With(s, i, p.(frame := p.npage, w := true, cow := false, pc := Verify)).(
        ref := ref[p.frame := ref[p.frame] - 1],
        free := if ref[p.frame] == 1 then s.free + {p.frame} else s.free)
    case Verify =>
      if p.w && !p.cow && p.frame == p.npage then With(s, i, p.(pc := Unlock))
      else With(s, i, p.(pc := Failed)).(locked := s.locked - {p.page})
    case FreeUnused =>
      With(s, i, p.(pc := Upgrade)).(free := s.free + {p.npage})
    case Upgrade =>
      With(s, i, p.(w := true, cow := false, pc := Unlock))
    case Unlock =>
      if p.page in s.locked then With(s, i, p.(pc := User)).(locked := s.locked - {p.page})
      else s.(panicked := true)
    case Failed => s
  }

  /** All processes share frame `f` copy-on-write and run user code. */
  ghost predicate Init(s: Sys, f: nat) {
    && InBounds(s) && |s.procs| > 0 && f < |s.ref| && s.ref[f] == |s.procs|
    && s.locked == {} && !s.panicked && s.taken == 0
    && f !in s.free && (forall g :: g in s.free ==> g < |s.ref| && s.ref[g] == 0)
    && (forall i :: 0 <= i < |s.procs| ==>
          var p := s.procs[i]; p.pc == User && p.frame == f && p.cow && !p.w && s.view[i] == s.data[f])
  }

  // -------------------------------------------------------------- invariant

  /** Between taking the lock and giving it back. */
  predicate Critical(pc: Pc) {
    pc.Recheck? || pc.ReadRef? || pc.Reread? || pc.Alloc? || pc.Copying? || pc.RereadCopied?
    || pc.Insert? || pc.Verify? || pc.Upgrade? || pc.Unlock?
  }

  /** Holding a frame that no entry maps yet. */
  predicate HoldsCopy(pc: Pc) {
    pc.Copying? || pc.RereadCopied? || pc.Insert?
  }

  ghost function Sharers(procs: seq<Proc>, f: nat): set<nat> {
    set i: nat | i < |procs| && procs[i].frame == f
  }

  /** What holds of one process. In particular the count read under the lock is still the
      reference count, and the page of a process reads as if it had been copied at fork. */
  ghost predicate ProcOk(s: Sys, f: nat, i: nat)
    requires InBounds(s) && f < |s.ref| && i < |s.procs|
  {
    var p := s.procs[i];
    && !p.pc.Failed? && !p.pc.FreeUnused?
    && p.w != p.cow
    && (p.cow ==> p.frame == f)
    && (p.w && p.frame == f ==> s.ref[f] == 1)
    && p.frame !in s.free
    && (p.frame != f ==> s.ref[p.frame] == 1)
    && s.data[p.frame] == s.view[i]
    && (!p.pc.User? ==> p.page == f)
    && (p.pc.Verify? ==> p.frame == p.npage)
    && (p.pc.Verify? || p.pc.Unlock? ==> p.w)
    && (p.w ==> p.pc.Verify? || p.pc.Unlock? || p.pc.User?)
    && (Critical(p.pc) ==> f in s.locked)
    && (p.pc.Reread? || p.pc.Alloc? || HoldsCopy(p.pc) || p.pc.Upgrade? ==> p.count == s.ref[f])
    && (p.pc.Reread? || p.pc.Alloc? || HoldsCopy(p.pc) ==> s.ref[f] > 1)
    && (p.pc.Upgrade? ==> s.ref[f] == 1)
    && (HoldsCopy(p.pc) ==> p.npage != f && p.npage !in s.free && s.ref[p.npage] == 0)
    && (p.pc.RereadCopied? || p.pc.Insert? ==> s.data[p.npage] == s.data[f])
  }

  ghost predicate Mutex(procs: seq<Proc>) {
    forall i, j :: 0 <= i < j < |procs| ==> !(Critical(procs[i].pc) && Critical(procs[j].pc))
  }

  /** No frame other than `f` is mapped twice. */
  ghost predicate OnlyShared(procs: seq<Proc>, f: nat) {
    forall i, j :: 0 <= i < j < |procs| && procs[i].frame == procs[j].frame ==> procs[i].frame == f
  }

  ghost predicate InFlight(procs: seq<Proc>) {
    exists i :: 0 <= i < |procs| && HoldsCopy(procs[i].pc)
  }

  ghost predicate Inv(s: Sys, f: nat) {
    && InBounds(s) && f < |s.ref| && f !in s.free && s.locked <= {f} && !s.panicked
    && (forall g :: g in s.free ==> g < |s.ref| && s.ref[g] == 0)
    && (forall i :: 0 <= i < |s.procs| ==> ProcOk(s, f, i))
    && Mutex(s.procs) && OnlyShared(s.procs, f)
    && s.ref[f] == |Sharers(s.procs, f)| >= 1
    && s.taken == |s.procs| - s.ref[f] + (if InFlight(s.procs) then 1 else 0)
  }

  lemma InitHolds(s: Sys, f: nat)
    requires Init(s, f)
    ensures Inv(s, f)
  {
    AllShare(s.procs, f);
  }

  lemma {:induction false} AllShare(procs: seq<Proc>, f: nat)
    requires forall i :: 0 <= i < |procs| ==> procs[i].frame == f
    ensures |Sharers(procs, f)| == |procs|
  {
    if procs == [] {
      assert Sharers(procs, f) == {};
    } else {
      var n := |procs| - 1;
      AllShare(procs[..n], f);
      assert Sharers(procs, f) == Sharers(procs[..n], f) + {n};
    }
  }

  /** A step that moves one process on without touching any entry, count or frame. */
  lemma MoveKeepsInv(s: Sys, f: nat, i: nat, p: Proc, locked: set<nat>)
    requires Inv(s, f) && i < |s.procs|
    requires var q := s.procs[i];
             && p.frame == q.frame && p.w == q.w && p.cow == q.cow && p.npage == q.npage && p.page < |s.ref|
             && HoldsCopy(p.pc) == HoldsCopy(q.pc)
             && (Critical(p.pc) ==> Critical(q.pc) || f !in s.locked)
             && locked <= {f} && (locked != s.locked ==> f in locked || Critical(q.pc))
    requires ProcOk(With(s, i, p).(locked := locked), f, i)
    ensures Inv(With(s, i, p).(locked := locked), f)
  {
    var t := With(s, i, p).(locked := locked);
    assert Sharers(t.procs, f) == Sharers(s.procs, f);
    assert InFlight(t.procs) == InFlight(s.procs) by {
      assert HoldsCopy(t.procs[i].pc) == HoldsCopy(s.procs[i].pc);
      if j :| 0 <= j < |s.procs| && HoldsCopy(s.procs[j].pc) {
        assert HoldsCopy(t.procs[j].pc);
      }
    }
    forall j | 0 <= j < |t.procs|
      ensures ProcOk(t, f, j)
      ensures Critical(s.procs[j].pc) ==> f in s.locked
    {
      assert ProcOk(s, f, j);
    }
  }

  lemma StepKeepsInv(s: Sys, f: nat, l: Label)
    requires Inv(s, f)
    ensures Inv(Step(s, l), f)
  {
    if l.who < |s.procs| {
      var pc := s.procs[l.who].pc;
      assert ProcOk(s, f, l.who);
      if pc.User? && s.procs[l.who].w { StoreStep(s, f, l); }
      else if pc.Alloc? { AllocStep(s, f, l); }
      else if pc.Copying? { CopyStep(s, f, l); }
      else if pc.Insert? { InsertStep(s, f, l); }
      else if pc.Upgrade? { UpgradeStep(s, f, l); }
      else { QuietStep(s, f, l); }
    }
  }

  lemma QuietStep(s: Sys, f: nat, l: Label)
    requires Inv(s, f) && l.who < |s.procs|
    requires var p := s.procs[l.who]; !(p.pc.User? && p.w)
    requires var pc := s.procs[l.who].pc; !pc.Alloc? && !pc.Copying? && !pc.Insert? && !pc.Upgrade?
    ensures Inv(Step(s, l), f)
  {
    var i := l.who;
    var t := Step(s, l);
    assert ProcOk(s, f, i);
    if t != s {
      assert t == With(s, i, t.procs[i]).(locked := t.locked);
      MoveKeepsInv(s, f, i, t.procs[i], t.locked);
    }
  }

  lemma StoreStep(s: Sys, f: nat, l: Label)
    requires Inv(s, f) && l.who < |s.procs|
    requires var p := s.procs[l.who]; p.pc.User? && p.w
    ensures Inv(Step(s, l), f)
  {
    var t := Step(s, l);
    var i := l.who;
    assert ProcOk(s, f, i);
    if s.procs[i].frame == f {
      OneSharer(s.procs, f, i);
    }
    forall j | 0 <= j < |t.procs| ensures ProcOk(t, f, j) {
      assert ProcOk(s, f, j);
    }
  }

  lemma OneSharer(procs: seq<Proc>, f: nat, i: nat)
    requires i < |procs| && procs[i].frame == f && |Sharers(procs, f)| == 1
    ensures forall j :: 0 <= j < |procs| && procs[j].frame == f ==> j == i
  {
    forall j | 0 <= j < |procs| && procs[j].frame == f ensures j == i {
      assert i in Sharers(procs, f) && j in Sharers(procs, f);
      assert |Sharers(procs, f) - {i}| == 0;
      assert j !in Sharers(procs, f) - {i};
    }
  }

  /** Only the process that holds the lock can be in flight. */
  lemma NotInFlight(s: Sys, f: nat, i: nat)
    requires Inv(s, f) && i < |s.procs| && Critical(s.procs[i].pc) && !HoldsCopy(s.procs[i].pc)
    ensures !InFlight(s.procs)
  {
    forall j | 0 <= j < |s.procs| && Critical(s.procs[j].pc) ensures j == i {
    }
  }

  lemma AllocStep(s: Sys, f: nat, l: Label)
    requires Inv(s, f) && l.who < |s.procs| && s.procs[l.who].pc.Alloc?
    ensures Inv(Step(s, l), f)
  {
    var t := Step(s, l);
    var i := l.who;
    if t != s {
      assert ProcOk(s, f, i);
      NotInFlight(s, f, i);
      assert HoldsCopy(t.procs[i].pc);
      assert Sharers(t.procs, f) == Sharers(s.procs, f);
      forall j | 0 <= j < |t.procs| ensures ProcOk(t, f, j) {
        assert ProcOk(s, f, j);
      }
    }
  }

  lemma CopyStep(s: Sys, f: nat, l: Label)
    requires Inv(s, f) && l.who < |s.procs| && s.procs[l.who].pc.Copying?
    ensures Inv(Step(s, l), f)
  {
    var t := Step(s, l);
    var i := l.who;
    assert ProcOk(s, f, i);
    assert HoldsCopy(t.procs[i].pc) && HoldsCopy(s.procs[i].pc);
    assert Sharers(t.procs, f) == Sharers(s.procs, f);
    forall j | 0 <= j < |t.procs| ensures ProcOk(t, f, j) {
      assert ProcOk(s, f, j);
    }
  }

  lemma InsertStep(s: Sys, f: nat, l: Label)
    requires Inv(s, f) && l.who < |s.procs| && s.procs[l.who].pc.Insert?
    ensures Inv(Step(s, l), f)
  {
    var t := Step(s, l);
    var i := l.who;
    var n := s.procs[i].npage;
    assert ProcOk(s, f, i) && HoldsCopy(s.procs[i].pc);
    assert t.ref == s.ref[n := 1][f := s.ref[f] - 1] && t.free == s.free;
    InsertLeaves(s, f, i, t.procs);
    forall j | 0 <= j < |t.procs| ensures ProcOk(t, f, j) {
      assert ProcOk(s, f, j);
    }
  }

  /** Moving one process to a frame nobody maps: one sharer less, nothing else shared. */
  lemma InsertLeaves(s: Sys, f: nat, i: nat, procs: seq<Proc>)
    requires Inv(s, f) && i < |s.procs| && s.procs[i].pc.Insert?
    requires |procs| == |s.procs| && procs == s.procs[i := procs[i]] && procs[i].frame == s.procs[i].npage && procs[i].pc.Verify?
    ensures |Sharers(procs, f)| == |Sharers(s.procs, f)| - 1
    ensures OnlyShared(procs, f) && Mutex(procs) && InFlight(s.procs) && !InFlight(procs)
    ensures forall j :: 0 <= j < |s.procs| ==> s.procs[j].frame != procs[i].frame
  {
    assert ProcOk(s, f, i) && HoldsCopy(s.procs[i].pc);
    assert i in Sharers(s.procs, f) && Sharers(procs, f) == Sharers(s.procs, f) - {i};
    forall j | 0 <= j < |s.procs| ensures s.procs[j].frame != procs[i].frame {
      assert ProcOk(s, f, j);
    }
    forall j | 0 <= j < |procs| && j != i ensures !HoldsCopy(procs[j].pc) {
      assert Critical(s.procs[i].pc);
    }
  }

  lemma UpgradeStep(s: Sys, f: nat, l: Label)
    requires Inv(s, f) && l.who < |s.procs| && s.procs[l.who].pc.Upgrade?
    ensures Inv(Step(s, l), f)
  {
    var t := Step(s, l);
    var i := l.who;
    assert ProcOk(s, f, i);
    assert Sharers(t.procs, f) == Sharers(s.procs, f);
    NotInFlight(s, f, i);
    forall j | 0 <= j < |t.procs| ensures ProcOk(t, f, j) {
      assert ProcOk(s, f, j);
    }
  }

  // ------------------------------------------------------------- over all runs

  function Exec(s: Sys, run: seq<Label>): Sys
    requires InBounds(s)
    ensures InBounds(Exec(s, run))
  {
    if run == [] then s else
      var t := Exec(s, run[..|run| - 1]);
      StepInBounds(t, run[|run| - 1]);
      Step(t, run[|run| - 1])
  }

  lemma StepInBounds(s: Sys, l: Label)
    requires InBounds(s)
    ensures InBounds(Step(s, l)) && |Step(s, l).procs| == |s.procs|
  {
    if l.who < |s.procs| {
      hide Step;
      var t := Step(s, l);
      StepLocal(s, l);
      forall i | 0 <= i < |t.procs|
        ensures t.procs[i].frame < |s.ref| && t.procs[i].page < |s.ref| && t.procs[i].npage < |s.ref|
      {
        assert i != l.who ==> t.procs[i] == s.procs[i];
      }
    }
  }

  /** A step changes one process. */
  ghost predicate ChangesOne(s: Sys, t: Sys, i: nat)
    requires i < |s.procs|
  {
    && |t.ref| == |s.ref| && |t.data| == |s.data| && |t.view| == |s.view| && |t.procs| == |s.procs|
    && t.procs == s.procs[i := t.procs[i]]
    && var p := t.procs[i]; p.frame < |s.ref| && p.page < |s.ref| && p.npage < |s.ref|
  }

  lemma StepLocal(s: Sys, l: Label)
    requires InBounds(s) && l.who < |s.procs|
    ensures ChangesOne(s, Step(s, l), l.who)
  {
    hide Step, ChangesOne;
    var pc := s.procs[l.who].pc;
    if pc.User? || pc.Locking? || pc.Recheck? || pc.ReadRef? || pc.Reread? {
      EarlyStepLocal(s, l);
    } else if pc.Alloc? || pc.Copying? || pc.RereadCopied? || pc.Insert? {
      CopyStepLocal(s, l);
    } else {
      LateStepLocal(s, l);
    }
  }

  lemma EarlyStepLocal(s: Sys, l: Label)
    requires InBounds(s) && l.who < |s.procs|
    requires var pc := s.procs[l.who].pc; pc.User? || pc.Locking? || pc.Recheck? || pc.ReadRef? || pc.Reread?
    ensures ChangesOne(s, Step(s, l), l.who)
  {
  }

  lemma CopyStepLocal(s: Sys, l: Label)
    requires InBounds(s) && l.who < |s.procs|
    requires var pc := s.procs[l.who].pc; pc.Alloc? || pc.Copying? || pc.RereadCopied? || pc.Insert?
    ensures ChangesOne(s, Step(s, l), l.who)
  {
  }

  lemma LateStepLocal(s: Sys, l: Label)
    requires InBounds(s) && l.who < |s.procs|
    requires var pc := s.procs[l.who].pc; pc.Verify? || pc.FreeUnused? || pc.Upgrade? || pc.Unlock? || pc.Failed?
    ensures ChangesOne(s, Step(s, l), l.who)
  {
  }

  lemma {:induction false} RunKeepsInv(s: Sys, f: nat, run: seq<Label>)
    requires Init(s, f)
    ensures Inv(Exec(s, run), f) && |Exec(s, run).procs| == |s.procs|
  {
    hide Step;
    if run == [] {
      InitHolds(s, f);
    } else {
      var n := |run| - 1;
      RunKeepsInv(s, f, run[..n]);
      StepKeepsInv(Exec(s, run[..n]), f, run[n]);
      StepInBounds(Exec(s, run[..n]), run[n]);
    }
  }

  /** What a reader of the code wants to know of one process. */
  ghost predicate Safe(s: Sys, f: nat, i: nat)
    requires InBounds(s) && f < |s.ref| && i < |s.procs|
  {
    var p := s.procs[i];
    && !p.pc.Failed? && !p.pc.FreeUnused? && p.w != p.cow
    && p.frame !in s.free && s.ref[p.frame] == |Sharers(s.procs, p.frame)|
    && (p.pc.Alloc? || HoldsCopy(p.pc) || p.pc.Upgrade? ==> p.page == f && p.count == s.ref[f])
    && s.data[p.frame] == s.view[i]
  }

  // ---------------------------------------------------------- what is read

  /** What a process reads at the address. */
  function Reads(s: Sys, i: nat): PageData
    requires InBounds(s) && i < |s.procs|
  {
    s.data[s.procs[i].frame]
  }

  /** A label that stores a byte: its process is in user code and its entry permits it. */
  predicate StoresNow(s: Sys, l: Label) {
    l.who < |s.procs| && s.procs[l.who].pc == User && s.procs[l.who].w && l.off < PGSIZE
  }

  /** The page process `i` would have had it been copied at the fork: what was in the frame
      then, with the process's own stores in the order of the run. */
  function Own(s: Sys, f: nat, run: seq<Label>, i: nat): PageData
    requires InBounds(s) && f < |s.ref|
  {
    if run == [] then s.data[f]
    else
      var n := |run| - 1; var before := Own(s, f, run[..n], i);
      if run[n].who == i && StoresNow(Exec(s, run[..n]), run[n]) then before[run[n].off := run[n].b] else before
  }

  /** A store puts its byte into the page of its process, and no other step of any process
      changes a byte anyone reads. */
  lemma StepReads(s: Sys, f: nat, l: Label, i: nat)
    requires Inv(s, f) && i < |s.procs|
    ensures InBounds(Step(s, l)) && i < |Step(s, l).procs|
    ensures Reads(Step(s, l), i) == if l.who == i && StoresNow(s, l) then Reads(s, i)[l.off := l.b] else Reads(s, i)
  {
    StepInBounds(s, l);
    hide Mutex, Sharers, InFlight;
    assert ProcOk(s, f, i);
    if l.who < |s.procs| {
      var p := s.procs[l.who];
      assert ProcOk(s, f, l.who);
      if p.pc.User? {
        if p.w { StoreReads(s, f, l, i); } else { hide ProcOk, OnlyShared; }
      } else if p.pc.Copying? || p.pc.Insert? || p.pc.Alloc? {
        hide OnlyShared;
        CopyReads(s, f, l, i);
      } else {
        hide ProcOk, OnlyShared, Inv;
        QuietReads(s, l, i);
      }
    }
  }

  lemma StoreReads(s: Sys, f: nat, l: Label, i: nat)
    requires Inv(s, f) && i < |s.procs| && l.who < |s.procs| && s.procs[l.who].pc.User? && s.procs[l.who].w
    ensures InBounds(Step(s, l)) && i < |Step(s, l).procs|
    ensures Reads(Step(s, l), i) == if l.who == i && l.off < PGSIZE then Reads(s, i)[l.off := l.b] else Reads(s, i)
  {
    StepInBounds(s, l);
    assert ProcOk(s, f, l.who) && ProcOk(s, f, i);
    if s.procs[l.who].frame == f { OneSharer(s.procs, f, l.who); }
  }

  lemma CopyReads(s: Sys, f: nat, l: Label, i: nat)
    requires InBounds(s) && f < |s.ref| && i < |s.procs| && l.who < |s.procs|
    requires var pc := s.procs[l.who].pc; pc.Copying? || pc.Insert? || pc.Alloc?
    requires ProcOk(s, f, l.who) && ProcOk(s, f, i)
    ensures InBounds(Step(s, l)) && i < |Step(s, l).procs|
    ensures Reads(Step(s, l), i) == Reads(s, i)
  {
    StepInBounds(s, l);
  }

  lemma QuietReads(s: Sys, l: Label, i: nat)
    requires InBounds(s) && i < |s.procs| && l.who < |s.procs|
    requires var pc := s.procs[l.who].pc; !pc.User? && !pc.Copying? && !pc.Insert? && !pc.Alloc?
    ensures InBounds(Step(s, l)) && i < |Step(s, l).procs|
    ensures Reads(Step(s, l), i) == Reads(s, i)
  {
    StepInBounds(s, l);
  }

  /** Over any interleaving each process reads the page it had at the fork with just its own
      stores in it. */
  lemma {:induction false} ReadsOwn(s: Sys, f: nat, run: seq<Label>, i: nat)
    requires Init(s, f) && i < |s.procs|
    ensures i < |Exec(s, run).procs| && Reads(Exec(s, run), i) == Own(s, f, run, i)
  {
    hide Step, Inv, StoresNow;
    RunKeepsInv(s, f, run);
    if run != [] {
      var n := |run| - 1;
      ReadsOwn(s, f, run[..n], i);
      RunKeepsInv(s, f, run[..n]);
      StepReads(Exec(s, run[..n]), f, run[n], i);
    }
  }

  lemma SharersOf(s: Sys, f: nat, i: nat)
    requires Inv(s, f) && i < |s.procs|
    ensures s.ref[s.procs[i].frame] == |Sharers(s.procs, s.procs[i].frame)|
  {
    assert ProcOk(s, f, i);
    if s.procs[i].frame != f {
      assert Sharers(s.procs, s.procs[i].frame) == {i};
    }
  }

  /** In every state any interleaving reaches: no unlock has found the lock clear, no fault
      has failed, at most one process is inside the critical section, a count read there is
      still the reference count, no frame is allocated in vain, the counts of the frames in use
      are those of their users, and every process reads what it would have read had fork copied
      the page. */
  lemma InterleavingIsSafe(s: Sys, f: nat, run: seq<Label>)
    requires Init(s, f)
    ensures var t := Exec(s, run);
            && |t.procs| == |s.procs| && !t.panicked && Mutex(t.procs) && f < |t.ref| && |t.free| + t.taken == |s.free|
            && (forall i :: 0 <= i < |t.procs| ==> Safe(t, f, i) && Reads(t, i) == Own(s, f, run, i))
  {
    hide Step;
    RunKeepsInv(s, f, run);
    var t := Exec(s, run);
    forall i | 0 <= i < |t.procs| ensures Safe(t, f, i) && Reads(t, i) == Own(s, f, run, i) {
      assert ProcOk(t, f, i);
      SharersOf(t, f, i);
      ReadsOwn(s, f, run, i);
    }
    RunKeepsFrames(s, f, run);
  }

  /** A process that has its page back writable in the original frame is the last: everyone
      else already has a frame of its own. */
  lemma LastFaulterReusesTheFrame(s: Sys, f: nat, run: seq<Label>, i: nat)
    requires Init(s, f)
    requires var t := Exec(s, run); i < |t.procs| && t.procs[i].w && t.procs[i].frame == f
    ensures var t := Exec(s, run);
            forall j :: 0 <= j < |t.procs| && j != i ==> t.procs[j].w && t.procs[j].frame != f
  {
    hide Step;
    RunKeepsInv(s, f, run);
    var t := Exec(s, run);
    assert ProcOk(t, f, i);
    OneSharer(t.procs, f, i);
    forall j | 0 <= j < |t.procs| && j != i ensures t.procs[j].w && t.procs[j].frame != f {
      assert ProcOk(t, f, j);
    }
  }

  /** Once all k processes have faulted, exactly k - 1 frames have been taken, exactly one
      process still has the original, and no two share a frame. */
  lemma AllDone(s: Sys, f: nat, run: seq<Label>) returns (last: nat)
    requires Init(s, f)
    requires var t := Exec(s, run); forall i :: 0 <= i < |t.procs| ==> t.procs[i].w
    ensures var t := Exec(s, run);
            && t.taken == |s.procs| - 1
            && last < |t.procs| && t.procs[last].frame == f
            && (forall i, j :: 0 <= i < j < |t.procs| ==> t.procs[i].frame != t.procs[j].frame)
  {
    hide Step;
    RunKeepsInv(s, f, run);
    var t := Exec(s, run);
    last :| last in Sharers(t.procs, f);
    assert ProcOk(t, f, last);
    OneSharer(t.procs, f, last);
    forall i | 0 <= i < |t.procs| ensures !HoldsCopy(t.procs[i].pc) {
      assert ProcOk(t, f, i);
    }
  }

  // --------------------------------------------------------------- progress

  /** Whoever has the lock is between its steps. */
  ghost predicate LockHeld(s: Sys, f: nat) {
    f in s.locked ==> exists i :: 0 <= i < |s.procs| && Critical(s.procs[i].pc)
  }

  /** Steps a process is from user code with its page writable, if nothing holds it up. */
  function Rank(p: Proc): nat {
    match p.pc
    case User => if p.w then 0 else 11
    case Locking => 10
    case Recheck => 9
    case ReadRef => 8
    case Reread => 7
    case Alloc => 6
    case Copying => 5
    case RereadCopied => 4
    case Insert => 3
    case Verify => 2
    case Upgrade => 2
    case Unlock => 1
    case FreeUnused => 3
    case Failed => 0
  }

  function Ranks(procs: seq<Proc>): nat {
    if procs == [] then 0 else Rank(procs[0]) + Ranks(procs[1..])
  }

  lemma {:induction false} RankOfOne(procs: seq<Proc>, i: nat, p: Proc)
    requires i < |procs|
    ensures Ranks(procs[i := p]) == Ranks(procs) - Rank(procs[i]) + Rank(p)
  {
    if i == 0 {
      assert procs[i := p][1..] == procs[1..];
    } else {
      RankOfOne(procs[1..], i - 1, p);
      assert procs[i := p][1..] == procs[1..][i - 1 := p];
    }
  }

  /** What a step does to the lock and to the frames: those handed out are no longer free. */
  ghost predicate Onward(s: Sys, t: Sys, f: nat, i: nat)
    requires i < |s.procs|
  {
    && ChangesOne(s, t, i) && |t.free| + t.taken == |s.free| + s.taken
    && (f in t.locked ==> f in s.locked || Critical(t.procs[i].pc))
    && (Critical(s.procs[i].pc) && !Critical(t.procs[i].pc) ==> f !in t.locked)
  }

  lemma StepIsOnward(s: Sys, f: nat, l: Label)
    requires Inv(s, f) && l.who < |s.procs|
    ensures Onward(s, Step(s, l), f, l.who)
  {
    StepLocal(s, l);
    hide ChangesOne, Mutex, OnlyShared, InFlight, Sharers;
    assert ProcOk(s, f, l.who);
    var pc := s.procs[l.who].pc;
    if pc.Alloc? {
      AllocOnward(s, f, l);
    } else if pc.Insert? {
      InsertOnward(s, f, l);
    } else {
      QuietOnward(s, f, l);
    }
  }

  lemma AllocOnward(s: Sys, f: nat, l: Label)
    requires InBounds(s) && l.who < |s.procs| && s.procs[l.who].pc.Alloc? && ChangesOne(s, Step(s, l), l.who)
    ensures Onward(s, Step(s, l), f, l.who)
  {
    hide ChangesOne;
  }

  lemma InsertOnward(s: Sys, f: nat, l: Label)
    requires InBounds(s) && f < |s.ref| && l.who < |s.procs| && s.procs[l.who].pc.Insert? && ProcOk(s, f, l.who)
    requires ChangesOne(s, Step(s, l), l.who)
    ensures Onward(s, Step(s, l), f, l.who)
  {
    hide ChangesOne;
  }

  lemma QuietOnward(s: Sys, f: nat, l: Label)
    requires InBounds(s) && f < |s.ref| && l.who < |s.procs| && ProcOk(s, f, l.who)
    requires var pc := s.procs[l.who].pc; !pc.Alloc? && !pc.Insert?
    requires ChangesOne(s, Step(s, l), l.who)
    ensures Onward(s, Step(s, l), f, l.who)
  {
    hide ChangesOne;
  }

  lemma StepKeepsLock(s: Sys, f: nat, l: Label)
    requires Inv(s, f) && LockHeld(s, f)
    ensures LockHeld(Step(s, l), f) && |Step(s, l).free| + Step(s, l).taken == |s.free| + s.taken
  {
    if l.who < |s.procs| {
      StepIsOnward(s, f, l);
      hide Step, Inv;
      var t := Step(s, l);
      if f in t.locked {
        if f in s.locked {
          var j :| 0 <= j < |s.procs| && Critical(s.procs[j].pc);
          assert j != l.who ==> t.procs[j] == s.procs[j];
          assert Critical(t.procs[j].pc);
        } else {
          assert Critical(t.procs[l.who].pc);
        }
      }
    }
  }

  /** Some frame is free when a process in `Alloc` needs one. */
  lemma FrameThere(s: Sys, f: nat, i: nat) returns (g: nat)
    requires Inv(s, f) && |s.free| + s.taken >= |s.procs| - 1
    requires i < |s.procs| && s.procs[i].pc.Alloc?
    ensures g in s.free && g < |s.ref|
  {
    assert ProcOk(s, f, i);
    NotInFlight(s, f, i);
    assert s.free != {};
    g :| g in s.free;
  }

  /** The one to move next: whoever is inside, else anyone without a writable page. */
  lemma Mover(s: Sys, f: nat) returns (l: Label)
    requires Inv(s, f) && LockHeld(s, f) && |s.free| + s.taken >= |s.procs| - 1
    requires exists i :: 0 <= i < |s.procs| && !s.procs[i].w
    ensures l.who < |s.procs| && ProcOk(s, f, l.who) && !(s.procs[l.who].pc.User? && s.procs[l.who].w)
    ensures s.procs[l.who].pc.Locking? ==> s.locked == {}
    ensures s.procs[l.who].pc.Alloc? ==> l.frame in s.free && l.frame < |s.ref|
  {
    hide Mutex, OnlyShared, InFlight, Sharers;
    var i;
    if j :| 0 <= j < |s.procs| && Critical(s.procs[j].pc) {
      i := j;
    } else {
      i :| 0 <= i < |s.procs| && !s.procs[i].w;
    }
    assert ProcOk(s, f, i);
    var g := 0;
    if s.procs[i].pc.Alloc? { g := FrameThere(s, f, i); }
    l := Label(i, g, 0, 0);
  }

  lemma MoverMoves(s: Sys, f: nat, l: Label)
    requires Inv(s, f) && l.who < |s.procs| && ProcOk(s, f, l.who) && !(s.procs[l.who].pc.User? && s.procs[l.who].w)
    requires s.procs[l.who].pc.Locking? ==> s.locked == {}
    requires s.procs[l.who].pc.Alloc? ==> l.frame in s.free && l.frame < |s.ref|
    ensures Rank(Step(s, l).procs[l.who]) < Rank(s.procs[l.who])
  {
    hide Inv;
    InvBounds(s, f);
    StepLocal(s, l);
    hide ChangesOne;
  }

  lemma InvBounds(s: Sys, f: nat)
    requires Inv(s, f)
    ensures InBounds(s) && f < |s.ref|
    ensures forall i :: 0 <= i < |s.procs| && Critical(s.procs[i].pc) ==> f in s.locked
  {
    forall i | 0 <= i < |s.procs| ensures Critical(s.procs[i].pc) ==> f in s.locked {
      assert ProcOk(s, f, i);
    }
  }

  ghost predicate AllWritable(s: Sys) {
    forall i :: 0 <= i < |s.procs| ==> s.procs[i].w
  }

  /** From any state of the invariant with enough frames, some run makes every page writable. */
  lemma {:induction false} CanFinish(s: Sys, f: nat) returns (run: seq<Label>)
    requires Inv(s, f) && LockHeld(s, f) && |s.free| + s.taken >= |s.procs| - 1
    ensures AllWritable(Exec(s, run))
    decreases Ranks(s.procs)
  {
    hide Step, Inv, LockHeld, Rank;
    InvBounds(s, f);
    run := [];
    if !AllWritable(s) {
      var l := Mover(s, f);
      var t := Step(s, l);
      MoverMoves(s, f, l);
      StepIsOnward(s, f, l);
      RankOfOne(s.procs, l.who, t.procs[l.who]);
      StepKeepsInv(s, f, l);
      StepKeepsLock(s, f, l);
      var rest := CanFinish(t, f);
      ExecFrom(s, [l], rest);
      run := [l] + rest;
      assert Exec(s, [l]) == t by { assert [l][..0] == []; }
    }
  }

  lemma {:induction false} ExecFrom(s: Sys, a: seq<Label>, b: seq<Label>)
    requires InBounds(s)
    ensures Exec(s, a + b) == Exec(Exec(s, a), b)
  {
    hide Step;
    if b == [] {
      assert a + b == a;
    } else {
      var n := |b| - 1;
      ExecFrom(s, a, b[..n]);
      assert (a + b)[..|a + b| - 1] == a + b[..n];
    }
  }

  lemma {:induction false} RunKeepsFrames(s: Sys, f: nat, run: seq<Label>)
    requires Init(s, f)
    ensures var t := Exec(s, run); Inv(t, f) && LockHeld(t, f) && |t.free| + t.taken == |s.free| && |t.procs| == |s.procs|
  {
    hide Step;
    RunKeepsInv(s, f, run);
    if run != [] {
      var n := |run| - 1;
      RunKeepsFrames(s, f, run[..n]);
      StepKeepsLock(Exec(s, run[..n]), f, run[n]);
    }
  }

  /** No deadlock, and no frame too many: from every state the processes can reach they can
      all get their page writable, exactly when the allocator started out with a frame for
      each but one. */
  lemma AllCanFinish(s: Sys, f: nat, run: seq<Label>)
    requires Init(s, f)
    ensures (exists more: seq<Label> :: AllWritable(Exec(s, run + more))) <==> |s.free| >= |s.procs| - 1
  {
    hide Step, Inv, LockHeld;
    RunKeepsFrames(s, f, run);
    if |s.free| >= |s.procs| - 1 {
      var more := CanFinish(Exec(s, run), f);
      ExecFrom(s, run, more);
      assert AllWritable(Exec(s, run + more));
    }
    if more: seq<Label> :| AllWritable(Exec(s, run + more)) {
      var last := AllDone(s, f, run + more);
      RunKeepsFrames(s, f, run + more);
    }
  }
}
