/** What one operation needs from a memory and what it leaves of it, on the values a memory
    holds between kernel entries; and what that means for whole runs. */
module CowTrace {
  import opened Collections
  import opened Mmu
  import opened CowState
  import opened CowTables
  import opened CowRanges
  import opened CowEager

  /** The values a memory holds. */
  datatype State = State(spaces: Spaces, ptes: Ptes, ref: seq<int>, free: set<nat>, kernel: set<nat>, data: seq<PageData>)

  ghost predicate Good(t: State) {
    && |t.data| == |t.ref| && Frames(t.ptes, t.ref, t.free, t.kernel, {})
    && SpacesOk(t.spaces, t.kernel) && EntriesOk(t.spaces, t.ptes) && WritersAlone(t.ptes, t.ref)
  }

  /** What user programs see of it. */
  ghost function ViewOf(t: State): UserState
    requires Good(t)
  {
    FramesInRange(t.ptes, t.ref, t.free, t.kernel, t.data);
    UserState(AreasOf(t.spaces), PagesOf(t.ptes, t.data))
  }

  lemma FramesInRange(p: Ptes, ref: seq<int>, free: set<nat>, kernel: set<nat>, data: seq<PageData>)
    requires Frames(p, ref, free, kernel, {}) && |ref| == |data|
    ensures InRange(p, data)
  {
  }

  lemma ViewPages(t: State, m: nat)
    requires Good(t) && m !in t.spaces
    ensures m !in ViewOf(t).areas && forall x :: x in ViewOf(t).pages ==> x.mm != m
  {
  }

  // ------------------------------------------------------ what succeeds when

  /** More than one entry maps the page's frame. */
  ghost predicate Shared(t: State, x: Slot) {
    x in t.ptes && t.ptes[x].frame < |t.ref| && t.ref[t.ptes[x].frame] > 1
  }

  /** The page is shared and the allocator has nothing left to copy it to. */
  ghost predicate NoFrameFor(t: State, x: Slot) {
    t.free == {} && Shared(t, x)
  }

  /** The operations the kernel takes up: the processes exist, a new area overlaps no other, a
      new page lies in an area that permits its flags. */
  ghost predicate Applies(t: State, op: Op) {
    match op
    case OpCreate(m) => m !in t.spaces
    case OpArea(m, a) =>
      && m in t.spaces && USERBASE <= a.start < a.end <= USERTOP
      && forall b :: b in t.spaces[m].areas ==> a.end <= b.start || b.end <= a.start
    case OpMap(x, flags, _) =>
      && x.mm in t.spaces && !flags.cow
      && exists a :: a in t.spaces[x.mm].areas && a.start <= x.page < a.end && (flags.w ==> a.write)
    case OpFork(parent, child) => parent in t.spaces && child !in t.spaces
    case OpStore(x, off, _) => x.mm in t.spaces && off < PGSIZE
    case OpLoad(x, off) => x.mm in t.spaces && off < PGSIZE
    case OpExit(m) => m in t.spaces
  }

  /** They are those the eager machine knows as legal. */
  lemma AppliesIsLegal(t: State, op: Op)
    ensures Applies(t, op) <==> Legal(AreasOf(t.spaces), op)
  {
    if op.OpMap? && op.x.mm in t.spaces {
      var areas := t.spaces[op.x.mm].areas;
      if a :| a in areas && In(a, op.x.page) && (op.flags.w ==> a.write) { }
    }
  }

  /** Whether an operation takes place: what it needs of kmalloc, of the allocator, and for
      a store of the page's permissions. */
  ghost predicate Succeeds(t: State, op: Op, kmalloc: Answers)
    requires Good(t)
  {
    Applies(t, op) ==>
      match op
      case OpCreate(_) => kmalloc(0) && t.free != {}
      case OpArea(_, _) => kmalloc(0)
      case OpMap(x, _, _) => |t.free| > Missing(t.spaces[x.mm], x.page)
      case OpFork(parent, _) => Granted(kmalloc, 0, |t.spaces[parent].areas| + 1) && |t.free| > ForkTables(t.ptes, parent)
      case OpStore(x, _, _) => Writable(ViewOf(t), x) && !NoFrameFor(t, x)
      case OpLoad(_, _) => true
      case OpExit(_) => true
  }

  // ------------------------------------------------------ what is left when

  ghost predicate Created(t: State, u: State, m: nat) {
    && m in u.spaces && u.spaces == t.spaces[m := Space(u.spaces[m].root, map[], map[], [])]
    && u.spaces[m].root in t.free && u.free == t.free - {u.spaces[m].root}
    && u.kernel == t.kernel + {u.spaces[m].root} && u.ptes == t.ptes
  }

  ghost predicate AreaAdded(t: State, u: State, m: nat, a: Area)
    requires m in t.spaces
  {
    && m in u.spaces && u == t.(spaces := t.spaces[m := t.spaces[m].(areas := u.spaces[m].areas)])
    && AreasOk(u.spaces[m].areas) && multiset(u.spaces[m].areas) == multiset(t.spaces[m].areas) + multiset{a}
  }

  ghost predicate PageMapped(t: State, u: State, x: Slot, flags: Flags)
    requires x.mm in t.spaces
  {
    && x.mm in u.spaces && u.spaces == t.spaces[x.mm := u.spaces[x.mm]] && Grew(t.spaces[x.mm], u.spaces[x.mm], {x.page})
    && x in u.ptes && u.ptes[x].frame in t.free && u.ptes == t.ptes[x := Pte(u.ptes[x].frame, flags)]
    && (x in t.ptes ==> |u.free| >= |t.free| - 1)
    && (x !in t.ptes ==> |u.free| == |t.free| - 1 - Missing(t.spaces[x.mm], x.page))
  }

  ghost predicate NotMapped(t: State, u: State, x: Slot) {
    && TablesGrown(t.spaces, u.spaces, {}) && u.ptes == t.ptes && |t.free| - 1 <= |u.free| <= 1
  }

  ghost predicate ForkDone(t: State, u: State, parent: nat, child: nat) {
    && Forked(t.spaces, t.ptes, u.spaces, u.ptes, parent, child)
    && child in u.spaces && u.spaces == t.spaces[child := u.spaces[child]]
    && u.spaces[child].d0.Keys == Regions(Mapped(t.ptes, parent))
    && u.spaces[child].d1.Keys == Directories(Mapped(t.ptes, parent))
    && |u.free| == |t.free| - 1 - ForkTables(t.ptes, parent)
  }

  ghost predicate ForkUndone(t: State, u: State, parent: nat) {
    && RolledBack(t.spaces, t.ptes, u.spaces, u.ptes, parent) && u.spaces == t.spaces
    && |u.free| + ForkTables(t.ptes, parent) >= |t.free|
  }

  /** After a store the process is alone on the frame, a new one exactly when it was not
      before. */
  ghost predicate Stored(t: State, u: State, x: Slot) {
    && u.spaces == t.spaces && u.kernel == t.kernel
    && x in t.ptes && x in u.ptes && u.ptes == t.ptes[x := Pte(u.ptes[x].frame, Effective(t.ptes[x].flags))]
    && (Shared(t, x) ==> u.ptes[x].frame in t.free && u.free == t.free - {u.ptes[x].frame})
    && (!Shared(t, x) ==> u.ptes[x].frame == t.ptes[x].frame && u.free == t.free)
  }

  /** The kernel gives back the root and what exit_range finds, the user pages follow from
      the entries that are left. */
  ghost predicate Exited(t: State, u: State, m: nat)
    requires m in t.spaces
  {
    && u.spaces == t.spaces - {m} && u.ptes == WithoutMm(t.ptes, m)
    && u.kernel == t.kernel - FreedAreas(t.spaces[m], t.spaces[m].areas) - {t.spaces[m].root}
  }

  /** One operation, done or not. */
  ghost predicate Next(t: State, u: State, op: Op, done: bool)
    requires Good(t)
  {
    if !Applies(t, op) then u == t else
    match op
    case OpCreate(m) => if done then Created(t, u, m) else u == t
    case OpArea(m, a) => if done then AreaAdded(t, u, m, a) else u == t
    case OpMap(x, flags, _) => if done then PageMapped(t, u, x, flags) else NotMapped(t, u, x)
    case OpFork(parent, child) => if done then ForkDone(t, u, parent, child) else ForkUndone(t, u, parent)
    case OpStore(x, _, _) => if done then Stored(t, u, x) else Exited(t, u, x.mm)
    case OpLoad(x, _) => if Readable(ViewOf(t), x) then u == t else Exited(t, u, x.mm)
    case OpExit(m) => Exited(t, u, m)
  }

  /** One operation of a run: it is done exactly when it can be, programs see the eager
      machine's step, and the kernel's books follow. */
  ghost predicate Happened(t: State, u: State, op: Op, kmalloc: Answers, done: bool)
    requires Good(t) && Good(u)
  {
    && (done <==> Succeeds(t, op, kmalloc))
    && ViewOf(u) == Step(ViewOf(t), op, done)
    && |u.ref| == |t.ref| && Next(t, u, op, done)
  }

  ghost predicate Traced(trace: seq<State>, ops: seq<Op>, answers: seq<Answers>, done: seq<bool>) {
    && |trace| == |ops| + 1 && |done| == |answers| == |ops|
    && (forall i :: 0 <= i < |trace| ==> Good(trace[i]))
    && (forall i :: 0 <= i < |ops| ==> Happened(trace[i], trace[i + 1], ops[i], answers[i], done[i]))
  }

  lemma TracedOnce(trace: seq<State>, ops: seq<Op>, answers: seq<Answers>, done: seq<bool>, u: State, op: Op, kmalloc: Answers, d: bool)
    requires Traced(trace, ops, answers, done) && Good(u) && Happened(trace[|ops|], u, op, kmalloc, d)
    ensures Traced(trace + [u], ops + [op], answers + [kmalloc], done + [d])
  {
    hide Good, Happened;
    var tr, ops2 := trace + [u], ops + [op];
    forall j | 0 <= j < |ops2| ensures Happened(tr[j], tr[j + 1], ops2[j], (answers + [kmalloc])[j], (done + [d])[j]) {
      if j < |ops| {
        assert Happened(trace[j], trace[j + 1], ops[j], answers[j], done[j]);
      }
    }
  }

  /** A page fault first makes no difference to what an exit leaves. */
  lemma ExitedToo(t: State, u: State, v: State, x: Slot)
    requires x.mm in t.spaces && Stored(t, u, x) && Exited(u, v, x.mm)
    ensures Exited(t, v, x.mm)
  {
  }

  lemma WriterIsNotShared(t: State, x: Slot)
    requires Good(t)
    ensures x in t.ptes && t.ptes[x].flags.w ==> !Shared(t, x)
  {
  }

  /** What programs see at any time is what the eager machine shows them. */
  lemma {:induction false} TraceIsRun(trace: seq<State>, ops: seq<Op>, answers: seq<Answers>, done: seq<bool>, i: nat)
    requires Traced(trace, ops, answers, done) && i <= |ops|
    ensures ViewOf(trace[i]) == Run(ViewOf(trace[0]), ops[..i], done[..i])
  {
    hide Good, Step, Next, Succeeds;
    if i > 0 {
      TraceIsRun(trace, ops, answers, done, i - 1);
      assert ops[..i][..i - 1] == ops[..i - 1] && done[..i][..i - 1] == done[..i - 1];
      assert Happened(trace[i - 1], trace[i - 1 + 1], ops[i - 1], answers[i - 1], done[i - 1]);
    }
  }

  // ------------------------------------------------------------ enough memory

  /** No operation takes more frames than this: a root, and the tables of user space. */
  const DEAREST := 1 + USERTOP / NPTEENTRY + USERTOP / NPTEENTRY / NPTEENTRY

  ghost function UpTo(n: nat): (s: set<nat>)
    ensures |s| == n && forall k: nat :: k in s <==> k < n
  {
    if n == 0 then {} else UpTo(n - 1) + {n - 1}
  }

  lemma ForkTablesAtMost(s: Spaces, ptes: Ptes, kernel: set<nat>, m: nat)
    requires SpacesOk(s, kernel) && EntriesOk(s, ptes)
    ensures ForkTables(ptes, m) < DEAREST
  {
    forall v | v in Mapped(ptes, m) ensures v < USERTOP {
      var x :| x in ptes && x.mm == m && x.page == v;
      assert SpaceOk(s[m]) && PteOk(s[m], v, ptes[x].flags);
    }
    TablesAtMost(Mapped(ptes, m));
  }

  lemma TablesAtMost(pages: set<nat>)
    requires forall v :: v in pages ==> v < USERTOP
    ensures |Regions(pages)| <= USERTOP / NPTEENTRY && |Directories(pages)| <= USERTOP / NPTEENTRY / NPTEENTRY
  {
    SubsetSize(Regions(pages), UpTo(USERTOP / NPTEENTRY));
    SubsetSize(Directories(pages), UpTo(USERTOP / NPTEENTRY / NPTEENTRY));
  }

  /** Giving an address space up costs the allocator nothing. */
  lemma ExitGivesBack(t: State, u: State, m: nat)
    requires Good(t) && Good(u) && |u.ref| == |t.ref| && m in t.spaces && Exited(t, u, m)
    ensures t.free <= u.free
  {
    forall f | f in t.free ensures f in u.free {
      FreeIsUnmapped(t.ptes, t.ref, t.free, t.kernel, f);
      FreeIffUnmapped(t.ptes, t.ref, t.free, t.kernel, f);
      FreeIffUnmapped(u.ptes, u.ref, u.free, u.kernel, f);
    }
  }

  /** A kernel that has its structures and enough frames refuses nothing, and takes no more
      than the dearest operation needs. */
  lemma AmpleStep(t: State, u: State, op: Op, kmalloc: Answers, done: bool)
    requires Good(t) && Good(u) && Happened(t, u, op, kmalloc, done)
    requires |t.free| >= DEAREST && forall j: nat :: kmalloc(j)
    ensures !done ==> op.OpStore? && Legal(AreasOf(t.spaces), op) && !Writable(ViewOf(t), op.x)
    ensures |u.free| >= |t.free| - DEAREST
  {
    hide Forked, RolledBack, Frames, SpacesOk, EntriesOk, WritersAlone, PagesOf, Step, ForkTables, FreedAreas, TablesGrown, Grew;
    AppliesIsLegal(t, op);
    if Applies(t, op) {
      match op
      case OpFork(parent, _) => ForkTablesAtMost(t.spaces, t.ptes, t.kernel, parent);
      case OpMap(x, _, _) =>
      case OpStore(x, _, _) => if !done { ExitGivesBack(t, u, x.mm); SubsetSize(t.free, u.free); }
      case OpLoad(x, _) => if !Readable(ViewOf(t), x) { ExitGivesBack(t, u, x.mm); SubsetSize(t.free, u.free); }
      case OpExit(m) => ExitGivesBack(t, u, m); SubsetSize(t.free, u.free);
      case _ =>
    }
  }

  lemma StepWithMemory(e: UserState, op: Op, done: bool)
    requires !done ==> op.OpStore? && Legal(e.areas, op) && !Writable(e, op.x)
    ensures Step(e, op, done) == Step(e, op, true)
  {
  }

  lemma AmpleOnce(trace: seq<State>, ops: seq<Op>, answers: seq<Answers>, done: seq<bool>, i: nat)
    requires Traced(trace, ops, answers, done) && i < |ops|
    requires |trace[i].free| >= DEAREST && forall a, j: nat :: a in answers ==> a(j)
    ensures |trace[i + 1].free| >= |trace[i].free| - DEAREST
    ensures Good(trace[i]) && Good(trace[i + 1])
    ensures ViewOf(trace[i + 1]) == Step(ViewOf(trace[i]), ops[i], true)
  {
    hide Good, Step, Next, Succeeds;
    assert Happened(trace[i], trace[i + 1], ops[i], answers[i], done[i]);
    assert answers[i] in answers;
    AmpleStep(trace[i], trace[i + 1], ops[i], answers[i], done[i]);
    StepWithMemory(ViewOf(trace[i]), ops[i], done[i]);
  }

  function Always(n: nat): (s: seq<bool>)
    ensures |s| == n
  {
    seq(n, _ => true)
  }

  lemma RunAlways(e: UserState, ops: seq<Op>, i: nat)
    requires i < |ops|
    ensures Run(e, ops[..i + 1], Always(i + 1)) == Step(Run(e, ops[..i], Always(i)), ops[i], true)
  {
    assert ops[..i + 1][..i] == ops[..i] && Always(i + 1)[..i] == Always(i);
  }

  lemma DearSteps(i: nat, n: nat)
    requires i < n
    ensures DEAREST * (i + 1) == DEAREST * i + DEAREST <= DEAREST * n
  {
  }

  /** What is left of enough frames for `n` operations after `i` of them. */
  ghost predicate Left(free: nat, i: nat, n: nat, now: nat) {
    free >= DEAREST * n && now >= free - DEAREST * i
  }

  lemma LeftStep(free: nat, i: nat, n: nat, now: nat, next: nat)
    requires Left(free, i, n, now) && i < n
    ensures now >= DEAREST && (next >= now - DEAREST ==> Left(free, i + 1, n, next))
  {
    DearSteps(i, n);
  }

  /** With enough memory the machine is the eager one that never fails: every fork copies,
      and no process dies but by an access its page does not permit. */
  lemma {:induction false} AmpleMemory(trace: seq<State>, ops: seq<Op>, answers: seq<Answers>, done: seq<bool>, i: nat)
    requires Traced(trace, ops, answers, done) && i <= |ops|
    requires |trace[0].free| >= DEAREST * |ops| && forall a, j: nat :: a in answers ==> a(j)
    ensures Left(|trace[0].free|, i, |ops|, |trace[i].free|)
    ensures ViewOf(trace[i]) == Run(ViewOf(trace[0]), ops[..i], Always(i))
  {
    if i > 0 {
      hide Good, Step, Happened, ViewOf, Always, Run, Left;
      AmpleMemory(trace, ops, answers, done, i - 1);
      LeftStep(|trace[0].free|, i - 1, |ops|, |trace[i - 1].free|, |trace[i].free|);
      AmpleOnce(trace, ops, answers, done, i - 1);
      RunAlways(ViewOf(trace[0]), ops, i - 1);
    }
  }
}
