/** The specification copy-on-write is an optimisation of: a machine in which fork copies
    every page. Its state is what user programs can observe. */
module CowEager {
  import opened Collections
  import opened Mmu
  import opened CowState
  import opened CowRanges

  datatype UserPage = UserPage(data: PageData, flags: Flags)

  datatype UserState = UserState(areas: map<nat, seq<Area>>, pages: map<Slot, UserPage>)

  // ----------------------------------------------------- the eager machine

  predicate Readable(e: UserState, x: Slot) {
    x in e.pages && e.pages[x].flags.u && e.pages[x].flags.r
  }

  predicate Writable(e: UserState, x: Slot) {
    x in e.pages && e.pages[x].flags.u && e.pages[x].flags.w
  }

  function Create(e: UserState, m: nat): UserState {
    e.(areas := e.areas[m := []])
  }

  function MapArea(e: UserState, m: nat, a: Area): UserState
    requires m in e.areas
  {
    e.(areas := e.areas[m := InsertArea(e.areas[m], a)])
  }

  function Map(e: UserState, x: Slot, page: UserPage): UserState {
    e.(pages := e.pages[x := page])
  }

  /** fork: the child gets its own copy of everything the parent has. */
  function Fork(e: UserState, parent: nat, child: nat): UserState
    requires parent in e.areas
  {
    UserState(e.areas[child := e.areas[parent]],
              e.pages + map x | x in e.pages && x.mm == parent :: Slot(child, x.page) := e.pages[x])
  }

  function Write(e: UserState, x: Slot, off: nat, b: Byte): UserState
    requires x in e.pages && off < PGSIZE
  {
    e.(pages := e.pages[x := e.pages[x].(data := e.pages[x].data[off := b])])
  }

  function Exit(e: UserState, m: nat): UserState {
    UserState(e.areas - {m}, map x | x in e.pages && x.mm != m :: e.pages[x])
  }

  /** What user programs and the kernel on their behalf do to memory. */
  datatype Op =
    | OpCreate(m: nat)
    | OpArea(m: nat, a: Area)
    | OpMap(x: Slot, flags: Flags, fill: PageData)
    | OpFork(parent: nat, child: nat)
    | OpStore(x: Slot, off: nat, b: Byte)
    | OpLoad(x: Slot, off: nat)
    | OpExit(m: nat)

  /** What the kernel guarantees about an operation: the processes exist, a new area does
      not overlap others, a new page lies in an area that permits its flags. */
  predicate Legal(areas: map<nat, seq<Area>>, op: Op) {
    match op
    case OpCreate(m) => m !in areas
    case OpArea(m, a) => m in areas && AreaFits(areas[m], a)
    case OpMap(x, flags, _) =>
      && x.mm in areas && AreaAt(areas[x.mm], x.page) && !flags.cow
      && (flags.w ==> WritableAt(areas[x.mm], x.page))
    case OpFork(parent, child) => parent in areas && child !in areas
    case OpStore(x, off, _) => x.mm in areas && off < PGSIZE
    case OpLoad(x, off) => x.mm in areas && off < PGSIZE
    case OpExit(m) => m in areas
  }

  /** One step of the eager machine. `done` says whether the operation got the memory it
      needed; a store that did not get it kills the process, as does any access the page
      does not permit. */
  function Step(e: UserState, op: Op, done: bool): UserState {
    if !Legal(e.areas, op) then e else
    match op
    case OpCreate(m) => if done then Create(e, m) else e
    case OpArea(m, a) => if done then MapArea(e, m, a) else e
    case OpMap(x, flags, fill) => if done then Map(e, x, UserPage(fill, flags)) else e
    case OpFork(parent, child) => if done then Fork(e, parent, child) else e
    case OpStore(x, off, b) => if done && Writable(e, x) then Write(e, x, off, b) else Exit(e, x.mm)
    case OpLoad(x, off) => if Readable(e, x) then e else Exit(e, x.mm)
    case OpExit(m) => Exit(e, m)
  }

  /** The byte a load returns. */
  function Result(e: UserState, op: Op): Option<Byte> {
    if op.OpLoad? && Legal(e.areas, op) && Readable(e, op.x) then Some(e.pages[op.x].data[op.off]) else None
  }

  function Run(e: UserState, ops: seq<Op>, done: seq<bool>): UserState
    requires |ops| == |done|
  {
    if ops == [] then e
    else var n := |ops| - 1; Step(Run(e, ops[..n], done[..n]), ops[n], done[n])
  }

  function Results(e: UserState, ops: seq<Op>, done: seq<bool>): seq<Option<Byte>>
    requires |ops| == |done|
  {
    if ops == [] then []
    else var n := |ops| - 1;
         Results(e, ops[..n], done[..n]) + [Result(Run(e, ops[..n], done[..n]), ops[n])]
  }

  /** The processes an operation acts for. */
  predicate ActsFor(op: Op, m: nat) {
    match op
    case OpCreate(n) => n == m
    case OpArea(n, _) => n == m
    case OpMap(x, _, _) => x.mm == m
    case OpFork(_, child) => child == m
    case OpStore(x, _, _) => x.mm == m
    case OpLoad(x, _) => x.mm == m
    case OpExit(n) => n == m
  }

  /** Isolation: whatever others do, in any number and order, forks of this process
      included, a process's pages keep their contents and permissions. */
  lemma {:induction false} OthersChangeNothing(e: UserState, ops: seq<Op>, done: seq<bool>, x: Slot)
    requires |ops| == |done|
    requires forall i :: 0 <= i < |ops| ==> !ActsFor(ops[i], x.mm)
    ensures x in Run(e, ops, done).pages <==> x in e.pages
    ensures x in e.pages ==> Run(e, ops, done).pages[x] == e.pages[x]
  {
    if ops != [] {
      var n := |ops| - 1;
      OthersChangeNothing(e, ops[..n], done[..n], x);
    }
  }

  /** What one process has. */
  ghost function Mine(e: UserState, m: nat): UserState {
    UserState(map n | n in e.areas && n == m :: e.areas[n], map x | x in e.pages && x.mm == m :: e.pages[x])
  }

  /** The entries of `xs` that belong to operations of one process. */
  ghost function Own<T>(ops: seq<Op>, xs: seq<T>, m: nat): (own: seq<T>)
    requires |ops| == |xs|
  {
    if ops == [] then []
    else var n := |ops| - 1; Own(ops[..n], xs[..n], m) + if ActsFor(ops[n], m) then [xs[n]] else []
  }

  lemma {:induction false} OwnSize<T, U>(ops: seq<Op>, xs: seq<T>, ys: seq<U>, m: nat)
    requires |ops| == |xs| == |ys|
    ensures |Own(ops, xs, m)| == |Own(ops, ys, m)|
  {
    if ops != [] { OwnSize(ops[..|ops| - 1], xs[..|ops| - 1], ys[..|ops| - 1], m); }
  }

  lemma SameRights(e: UserState, op: Op, m: nat)
    requires ActsFor(op, m) && !op.OpFork?
    ensures Legal(Mine(e, m).areas, op) <==> Legal(e.areas, op)
    ensures op.OpStore? || op.OpLoad? ==> (Writable(Mine(e, m), op.x) <==> Writable(e, op.x))
    ensures op.OpStore? || op.OpLoad? ==> (Readable(Mine(e, m), op.x) <==> Readable(e, op.x))
  {
    hide AreaFits, InsertArea, AreaAt, WritableAt;
  }

  /** What an operation of `m` does to what it has. */
  lemma OwnStep(e: UserState, op: Op, done: bool, m: nat)
    requires ActsFor(op, m) && !op.OpFork?
    ensures Mine(Step(e, op, done), m) == Step(Mine(e, m), op, done)
  {
    hide Legal, AreaFits, InsertArea, Readable, Writable;
    SameRights(e, op, m);
    assert Mine(Step(e, op, done), m).areas == Step(Mine(e, m), op, done).areas;
    OwnStepPages(e, op, done, m);
  }

  lemma OwnStepPages(e: UserState, op: Op, done: bool, m: nat)
    requires ActsFor(op, m) && !op.OpFork?
    ensures Mine(Step(e, op, done), m).pages == Step(Mine(e, m), op, done).pages
  {
    hide Legal, AreaFits, InsertArea, Readable, Writable;
    SameRights(e, op, m);
    assert Mine(Step(e, op, done), m).pages == Step(Mine(e, m), op, done).pages;
  }

  /** What one of another process does to it. */
  lemma OtherStep(e: UserState, op: Op, done: bool, m: nat)
    requires !ActsFor(op, m)
    ensures Mine(Step(e, op, done), m) == Mine(e, m)
  {
    hide AreaFits, InsertArea, AreaAt, WritableAt;
    var f := Mine(Step(e, op, done), m);
    assert f.areas == Mine(e, m).areas;
    assert f.pages == Mine(e, m).pages;
  }

  lemma StepAlone(e: UserState, op: Op, done: bool, m: nat)
    requires !(op.OpFork? && op.child == m)
    ensures Mine(Step(e, op, done), m) == if ActsFor(op, m) then Step(Mine(e, m), op, done) else Mine(e, m)
    ensures ActsFor(op, m) ==> Result(e, op) == Result(Mine(e, m), op)
  {
    hide Step, Legal;
    if ActsFor(op, m) {
      OwnStep(e, op, done, m);
      SameRights(e, op, m);
    } else {
      OtherStep(e, op, done, m);
    }
  }

  lemma RunMore(e: UserState, ops: seq<Op>, done: seq<bool>, op: Op, d: bool)
    requires |ops| == |done|
    ensures Run(e, ops + [op], done + [d]) == Step(Run(e, ops, done), op, d)
    ensures Results(e, ops + [op], done + [d]) == Results(e, ops, done) + [Result(Run(e, ops, done), op)]
  {
    assert (ops + [op])[..|ops|] == ops && (done + [d])[..|ops|] == done;
  }

  lemma {:induction false} ResultsSize(e: UserState, ops: seq<Op>, done: seq<bool>)
    requires |ops| == |done|
    ensures |Results(e, ops, done)| == |ops|
  {
    if ops != [] { ResultsSize(e, ops[..|ops| - 1], done[..|ops| - 1]); }
  }

  lemma OwnMore<T>(ops: seq<Op>, xs: seq<T>, m: nat, op: Op, x: T)
    requires |ops| == |xs|
    ensures Own(ops + [op], xs + [x], m) == Own(ops, xs, m) + if ActsFor(op, m) then [x] else []
  {
    assert (ops + [op])[..|ops|] == ops && (xs + [x])[..|ops|] == xs;
  }

  /** What a process's own operations make of `e`, and what they read. */
  ghost function RunOwn(e: UserState, ops: seq<Op>, done: seq<bool>, m: nat): UserState
    requires |ops| == |done|
  {
    OwnSize(ops, ops, done, m);
    Run(e, Own(ops, ops, m), Own(ops, done, m))
  }

  ghost function ReadOwn(e: UserState, ops: seq<Op>, done: seq<bool>, m: nat): seq<Option<Byte>>
    requires |ops| == |done|
  {
    OwnSize(ops, ops, done, m);
    Results(e, Own(ops, ops, m), Own(ops, done, m))
  }

  /** No new process gets the number `m`. */
  predicate NotForked(ops: seq<Op>, m: nat) {
    forall i :: 0 <= i < |ops| ==> !(ops[i].OpFork? && ops[i].child == m)
  }

  /** Each process runs as if it were alone: what it has after a run in which others load,
      store, fork and exit as they like, and every byte it has read on the way, are what its
      own operations make of what it had. */
  lemma {:induction false} RunAlone(e: UserState, ops: seq<Op>, done: seq<bool>, m: nat)
    requires |ops| == |done| && NotForked(ops, m)
    ensures |Results(e, ops, done)| == |ops|
    ensures Mine(Run(e, ops, done), m) == RunOwn(Mine(e, m), ops, done, m)
    ensures Own(ops, Results(e, ops, done), m) == ReadOwn(Mine(e, m), ops, done, m)
  {
    hide Step, Result, ActsFor, Mine;
    OwnSize(ops, ops, done, m);
    ResultsSize(e, ops, done);
    if ops != [] {
      var n := |ops| - 1;
      var ops1, done1, op, d := ops[..n], done[..n], ops[n], done[n];
      RunAlone(e, ops1, done1, m);
      assert ops == ops1 + [op] && done == done1 + [d];
      RunAloneMore(e, ops1, done1, op, d, m);
    }
  }

  lemma RunAloneMore(e: UserState, ops: seq<Op>, done: seq<bool>, op: Op, d: bool, m: nat)
    requires |ops| == |done| == |Results(e, ops, done)| && |Own(ops, ops, m)| == |Own(ops, done, m)| && !(op.OpFork? && op.child == m)
    requires Mine(Run(e, ops, done), m) == Run(Mine(e, m), Own(ops, ops, m), Own(ops, done, m))
    requires Own(ops, Results(e, ops, done), m) == Results(Mine(e, m), Own(ops, ops, m), Own(ops, done, m))
    ensures var all, did := ops + [op], done + [d]; var own, got := Own(all, all, m), Own(all, did, m);
            && |own| == |got| && |Results(e, all, did)| == |all|
            && Mine(Run(e, all, did), m) == Run(Mine(e, m), own, got)
            && Own(all, Results(e, all, did), m) == Results(Mine(e, m), own, got)
  {
    hide Step, Result, ActsFor, Mine, Run, Results, Own;
    RunMore(e, ops, done, op, d);
    StepAlone(Run(e, ops, done), op, d, m);
    OwnMore(ops, ops, m, op, op);
    OwnMore(ops, done, m, op, d);
    OwnMore(ops, Results(e, ops, done), m, op, Result(Run(e, ops, done), op));
    RunMore(Mine(e, m), Own(ops, ops, m), Own(ops, done, m), op, d);
    assert Own(ops, ops, m) + [] == Own(ops, ops, m) && Own(ops, done, m) + [] == Own(ops, done, m);
  }

  /** A process under another name. */
  ghost function Renamed(e: UserState, m: nat, n: nat): UserState {
    UserState(map k | k in e.areas && k == m :: n := e.areas[m],
              map x | x in e.pages && x.mm == m :: Slot(n, x.page) := e.pages[x])
  }

  lemma ParentOfFork(e: UserState, parent: nat, child: nat)
    requires parent in e.areas && child !in e.areas && forall y :: y in e.pages ==> y.mm != child
    ensures Mine(Fork(e, parent, child), parent) == Mine(e, parent)
  {
    hide Fork;
    ForkAreas(e, parent, child);
    var f := Fork(e, parent, child);
    assert Mine(f, parent).areas == Mine(e, parent).areas;
    forall x ensures x in Mine(f, parent).pages <==> x in Mine(e, parent).pages
             ensures x in Mine(e, parent).pages ==> f.pages[x] == e.pages[x]
    {
      ForkPages(e, parent, child, x);
    }
    assert Mine(f, parent).pages == Mine(e, parent).pages;
  }

  lemma ChildOfFork(e: UserState, parent: nat, child: nat)
    requires parent in e.areas && child !in e.areas && forall y :: y in e.pages ==> y.mm != child
    ensures Mine(Fork(e, parent, child), child) == Renamed(e, parent, child)
  {
    hide Fork;
    ForkAreas(e, parent, child);
    var f, g := Mine(Fork(e, parent, child), child), Renamed(e, parent, child);
    assert f.areas == g.areas;
    hide Renamed;
    forall x ensures x in f.pages <==> x in g.pages
             ensures x in f.pages ==> f.pages[x] == g.pages[x]
    {
      ForkPages(e, parent, child, x);
      RenamedPage(e, parent, child, x);
    }
    assert f.pages == g.pages;
  }

  lemma RenamedPage(e: UserState, m: nat, n: nat, x: Slot)
    ensures x in Renamed(e, m, n).pages <==> x.mm == n && Slot(m, x.page) in e.pages
    ensures x in Renamed(e, m, n).pages ==> Renamed(e, m, n).pages[x] == e.pages[Slot(m, x.page)]
  {
    if x.mm == n && Slot(m, x.page) in e.pages {
      var y := Slot(m, x.page);
      assert y in e.pages && y.mm == m && Slot(n, y.page) == x;
    }
  }

  lemma ForkAreas(e: UserState, parent: nat, child: nat)
    requires parent in e.areas
    ensures Fork(e, parent, child).areas == e.areas[child := e.areas[parent]]
  {
  }

  predicate Idle(ops: seq<Op>, m: nat) {
    forall i :: 0 <= i < |ops| ==> !ActsFor(ops[i], m)
  }

  lemma IdleKeeps(e: UserState, ops: seq<Op>, done: seq<bool>, m: nat)
    requires |ops| == |done| && Idle(ops, m)
    ensures Mine(Run(e, ops, done), m).pages == Mine(e, m).pages
  {
    var f := Run(e, ops, done);
    forall x: Slot | x.mm == m ensures x in f.pages <==> x in e.pages
                         ensures x in e.pages ==> f.pages[x] == e.pages[x]
    {
      OthersChangeNothing(e, ops, done, x);
    }
  }

  /** The child keeps what the parent had at the fork for as long as it does nothing itself,
      whatever the parent and all others store, map, fork or give up meanwhile. */
  lemma ChildKeepsFork(e: UserState, parent: nat, child: nat, ops: seq<Op>, done: seq<bool>, page: nat)
    requires |ops| == |done| && parent in e.areas && child !in e.areas && forall y :: y in e.pages ==> y.mm != child
    requires Idle(ops, child)
    ensures var f := Run(Fork(e, parent, child), ops, done);
            && (Slot(child, page) in f.pages <==> Slot(parent, page) in e.pages)
            && (Slot(parent, page) in e.pages ==> f.pages[Slot(child, page)] == e.pages[Slot(parent, page)])
  {
    OthersChangeNothing(Fork(e, parent, child), ops, done, Slot(child, page));
    ForkPages(e, parent, child, Slot(child, page));
  }

  /** And the parent keeps it, whatever the child does. */
  lemma ParentKeepsFork(e: UserState, parent: nat, child: nat, ops: seq<Op>, done: seq<bool>, page: nat)
    requires |ops| == |done| && parent in e.areas && child !in e.areas && forall y :: y in e.pages ==> y.mm != child
    requires Idle(ops, parent)
    ensures var f := Run(Fork(e, parent, child), ops, done);
            && (Slot(parent, page) in f.pages <==> Slot(parent, page) in e.pages)
            && (Slot(parent, page) in e.pages ==> f.pages[Slot(parent, page)] == e.pages[Slot(parent, page)])
  {
    OthersChangeNothing(Fork(e, parent, child), ops, done, Slot(parent, page));
    ForkPages(e, parent, child, Slot(parent, page));
  }

  // ------------------------------------------- the copy-on-write machine seen so

  ghost predicate InRange(p: Ptes, data: seq<PageData>) {
    forall x :: x in p ==> p[x].frame < |data|
  }

  function AreasOf(s: Spaces): map<nat, seq<Area>> {
    map m | m in s :: s[m].areas
  }

  /** The pages user programs see: the contents of the mapped frames, with the permissions
      the programs are entitled to. */
  ghost function PagesOf(p: Ptes, data: seq<PageData>): map<Slot, UserPage>
    requires InRange(p, data)
  {
    map x | x in p :: UserPage(data[p[x].frame], Effective(p[x].flags))
  }

  lemma ForkPages(e: UserState, parent: nat, child: nat, x: Slot)
    requires parent in e.areas && forall y :: y in e.pages ==> y.mm != child
    ensures var f := Fork(e, parent, child).pages;
            && (x in f <==> x in e.pages || (x.mm == child && Slot(parent, x.page) in e.pages))
            && (x in e.pages ==> f[x] == e.pages[x])
            && (x in f && x !in e.pages ==> f[x] == e.pages[Slot(parent, x.page)])
  {
    var parents := map y | y in e.pages && y.mm == parent :: Slot(child, y.page) := e.pages[y];
    assert x in parents ==> x.mm == child;
    if x.mm == child && Slot(parent, x.page) in e.pages {
      assert x == Slot(child, Slot(parent, x.page).page);
      assert x in parents && parents[x] == e.pages[Slot(parent, x.page)];
    }
  }

  /** Sharing all pages of the parent is, for the programs, copying them. */
  lemma ForkRefines(s: Spaces, p: Ptes, t: Spaces, q: Ptes, parent: nat, child: nat, data: seq<PageData>)
    requires Forked(s, p, t, q, parent, child)
    requires forall x :: x in p ==> x.mm in s && !(p[x].flags.w && p[x].flags.cow)
    requires InRange(p, data) && InRange(q, data)
    ensures AreasOf(t) == Fork(UserState(AreasOf(s), PagesOf(p, data)), parent, child).areas
    ensures PagesOf(q, data) == Fork(UserState(AreasOf(s), PagesOf(p, data)), parent, child).pages
  {
    ForkRefinesAreas(s, p, t, q, parent, child, PagesOf(p, data));
    ForkRefinesPages(s, p, t, q, parent, child, data);
  }

  lemma ForkRefinesAreas(s: Spaces, p: Ptes, t: Spaces, q: Ptes, parent: nat, child: nat, pages: map<Slot, UserPage>)
    requires Forked(s, p, t, q, parent, child)
    ensures AreasOf(t) == Fork(UserState(AreasOf(s), pages), parent, child).areas
  {
  }

  lemma ForkRefinesPages(s: Spaces, p: Ptes, t: Spaces, q: Ptes, parent: nat, child: nat, data: seq<PageData>)
    requires Forked(s, p, t, q, parent, child) && parent in s
    requires forall x :: x in p ==> x.mm in s && !(p[x].flags.w && p[x].flags.cow)
    requires InRange(p, data) && InRange(q, data)
    ensures PagesOf(q, data) == Fork(UserState(AreasOf(s), PagesOf(p, data)), parent, child).pages
  {
    hide Fork, Forked;
    var e := UserState(AreasOf(s), PagesOf(p, data));
    var f := Fork(e, parent, child).pages;
    forall x
      ensures x in q <==> x in f
      ensures x in q ==> PagesOf(q, data)[x] == f[x]
    {
      ForkRefinesPage(s, p, t, q, parent, child, data, x);
    }
  }

  lemma ForkRefinesPage(s: Spaces, p: Ptes, t: Spaces, q: Ptes, parent: nat, child: nat, data: seq<PageData>, x: Slot)
    requires Forked(s, p, t, q, parent, child)
    requires forall x :: x in p ==> x.mm in s && !(p[x].flags.w && p[x].flags.cow)
    requires InRange(p, data) && InRange(q, data)
    ensures parent in AreasOf(s)
    ensures var f := Fork(UserState(AreasOf(s), PagesOf(p, data)), parent, child).pages;
            (x in q <==> x in f) && (x in q ==> PagesOf(q, data)[x] == f[x])
  {
    hide Fork;
    ForkPages(UserState(AreasOf(s), PagesOf(p, data)), parent, child, x);
  }

  /** A fork that failed is invisible. */
  lemma RollbackRefines(s: Spaces, p: Ptes, t: Spaces, q: Ptes, parent: nat, data: seq<PageData>)
    requires RolledBack(s, p, t, q, parent)
    requires forall x :: x in p ==> !(p[x].flags.w && p[x].flags.cow)
    requires InRange(p, data) && InRange(q, data)
    ensures AreasOf(t) == AreasOf(s) && PagesOf(q, data) == PagesOf(p, data)
  {
  }

  /** Resolving a fault is invisible. */
  lemma FaultRefines(p: Ptes, data: seq<PageData>, q: Ptes, data2: seq<PageData>, x: Slot, n: nat)
    requires InRange(p, data) && n < |data| && x in p && p[x].flags.cow
    requires q == p[x := Pte(n, Upgrade(p[x].flags))]
    requires n == p[x].frame ==> data2 == data
    requires n != p[x].frame ==> data2 == data[n := data[p[x].frame]] && forall y :: y in p ==> p[y].frame != n
    ensures InRange(q, data2) && PagesOf(q, data2) == PagesOf(p, data)
  {
  }

  /** A store to a frame nobody else maps is a store to that page only. */
  lemma StoreRefines(p: Ptes, data: seq<PageData>, x: Slot, off: nat, b: Byte, s: Spaces)
    requires InRange(p, data) && x in p && p[x].flags.w && !p[x].flags.cow && off < PGSIZE
    requires forall y :: y in p && p[y].frame == p[x].frame ==> y == x
    ensures var data2 := data[p[x].frame := data[p[x].frame][off := b]];
            && InRange(p, data2)
            && UserState(AreasOf(s), PagesOf(p, data2)) == Write(UserState(AreasOf(s), PagesOf(p, data)), x, off, b)
  {
  }

  lemma ExitRefines(s: Spaces, p: Ptes, data: seq<PageData>, m: nat)
    requires InRange(p, data)
    ensures InRange(WithoutMm(p, m), data)
    ensures UserState(AreasOf(s - {m}), PagesOf(WithoutMm(p, m), data)) == Exit(UserState(AreasOf(s), PagesOf(p, data)), m)
  {
  }

  lemma MapRefines(p: Ptes, data: seq<PageData>, x: Slot, f: nat, flags: Flags, fill: PageData)
    requires InRange(p, data) && f < |data| && !flags.cow
    requires forall y :: y in p ==> p[y].frame != f
    ensures InRange(p[x := Pte(f, flags)], data[f := fill])
    ensures PagesOf(p[x := Pte(f, flags)], data[f := fill]) == PagesOf(p, data)[x := UserPage(fill, flags)]
  {
  }

  lemma GrowthInvisible(s: Spaces, t: Spaces)
    requires TablesGrown(s, t, {})
    ensures AreasOf(t) == AreasOf(s)
  {
  }
}
