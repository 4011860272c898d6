/** Processes from fork to reaping (kern/process/proc.c). Each kernel entry is one step; a
    process inside do_wait resumes where it gave up the processor. */
module Process {
  import opened Collections
  import opened Sequences
  import opened Family
  import opened ProcState
  import opened ProcIndex
  import opened Pid
  import Scheduler

  datatype WaitResult = Reaped(exitCode: int) | BadProc | Inval | Blocked | Panicked

  datatype KillResult = Killed | AlreadyKilled | NoSuchProc

  /** What holds of the processes between any two kernel entries. */
  ghost predicate Good(tree: Tree, kids: Kids, birth: map<nat, nat>, procs: Procs, list: seq<nat>, hash: seq<seq<nat>>,
                       idle: nat, init: nat) {
    && tree.Keys == procs.Keys
    && InOrder(tree, kids, {idle})
    && Born(tree, birth, idle, init)
    && States(procs, kids, idle, init)
    && ZombiesChildless(procs, kids, NULL)
    && Indexed(procs, list, hash, idle)
  }

  /** A new process made by alloc_proc. */
  function NewProc(): Proc {
    Proc(-1, UNINIT, 0, false, 0, None, false, 0)
  }

  lemma NotKidYet(tree: Tree, kids: Kids, idle: nat, c: nat)
    requires InOrder(tree, kids, {idle}) && c !in tree
    ensures forall q :: q in kids ==> c !in kids[q]
  {
    forall q | q in kids ensures c !in kids[q] {
      assert KidList(tree, q, kids[q]);
      if c in kids[q] {
        var i :| 0 <= i < |kids[q]| && kids[q][i] == c;
        Kid(tree, q, kids[q], i);
      }
    }
  }

  lemma BornGrows(tree: Tree, tree2: Tree, birth: map<nat, nat>, idle: nat, init: nat, p: nat, c: nat)
    requires Born(tree, birth, idle, init) && p in tree && p != idle && c !in tree
    requires tree2.Keys == tree.Keys + {c} && tree2[c].parent == p
    requires forall x :: x in tree ==> tree2[x].parent == tree[x].parent
    ensures Born(tree2, birth[c := birth[p] + 1], idle, init)
  {
    assert p != init ==> Younger(tree, birth, idle, p);
    forall d | d in tree2 && d != idle && d != init ensures Younger(tree2, birth[c := birth[p] + 1], idle, d) {
      if d != c { assert Younger(tree, birth, idle, d); }
    }
  }

  /** set_links for the new process `c`. */
  function Linked(tree: Tree, p: nat, c: nat): Tree {
    if p in tree && p != c then Set(tree[c := Links(p, NULL, NULL, NULL)], c) else tree
  }

  lemma LinkedIs(tree: Tree, p: nat, c: nat)
    requires p in tree && p != c
    ensures Linked(tree, p, c) == Set(tree[c := Links(p, NULL, NULL, NULL)], c)
  {
  }

  function AddKid(kids: Kids, p: nat, c: nat): Kids {
    if p in kids then kids[c := []][p := [c] + kids[p]] else kids
  }

  function Aged(birth: map<nat, nat>, p: nat, c: nat): map<nat, nat> {
    if p in birth then birth[c := birth[p] + 1] else birth
  }

  /** A child for the awake process `p`. */
  lemma ForkKeepsGood(tree: Tree, kids: Kids, birth: map<nat, nat>, procs: Procs, list: seq<nat>, hash: seq<seq<nat>>,
                      idle: nat, init: nat, p: nat, c: nat, r: Proc)
    requires p in procs && procs[p].state == RUNNABLE && p != idle && c !in procs && c != NULL
    requires r.state == RUNNABLE && r.wait == 0 && 1 <= r.pid < MAX_PID && r.pid !in PidsOf(procs, list)
    requires Good(tree, kids, birth, procs, list, hash, idle, init)
    ensures Good(Linked(tree, p, c), AddKid(kids, p, c), Aged(birth, p, c),
                 procs[c := r], [c] + list, AddTo(hash, Hash(r.pid), c), idle, init)
    ensures PidsOf(procs[c := r], [c] + list) == [r.pid] + PidsOf(procs, list)
  {
    hide InOrder, Born, Linked, Hash, PidsOf;
    ForkTree(tree, kids, birth, idle, init, p, c);
    AddKeepsIndexed(procs, list, hash, idle, c, r);
    NotKidYet(tree, kids, idle, c);
    ForkKeepsStates(procs, kids, idle, init, p, c, r);
    hide States, Indexed, AddTo;
  }

  lemma ForkTree(tree: Tree, kids: Kids, birth: map<nat, nat>, idle: nat, init: nat, p: nat, c: nat)
    requires InOrder(tree, kids, {idle}) && Born(tree, birth, idle, init)
    requires p in tree && p != idle && c !in tree && c != NULL
    ensures var tree2 := Linked(tree, p, c);
            && tree2.Keys == tree.Keys + {c}
            && InOrder(tree2, AddKid(kids, p, c), {idle}) && Born(tree2, Aged(birth, p, c), idle, init)
  {
    hide InOrder, Set, Born;
    var tree1, kids1 := tree[c := Links(p, NULL, NULL, NULL)], kids[c := []];
    BirthKeys(tree, birth, idle, init);
    KidKeys(tree, kids, {idle});
    FreshKeepsFamily(tree, kids, {idle}, c, p);
    ForkFirstKid(tree1, kids1, {idle} + {c}, c, p);
    SetKeepsFamily(tree1, kids1, {idle} + {c}, c, p);
    assert idle in {idle} && idle != c;
    assert {idle} + {c} - {c} == {idle};
    SetEffect(tree1, c, p);
    BornGrows(tree, Set(tree1, c), birth, idle, init, p, c);
  }

  lemma BirthKeys(tree: Tree, birth: map<nat, nat>, idle: nat, init: nat)
    requires Born(tree, birth, idle, init)
    ensures birth.Keys == tree.Keys
  {
  }

  lemma KidKeys(tree: Tree, kids: Kids, roots: set<nat>)
    requires InOrder(tree, kids, roots)
    ensures kids.Keys == tree.Keys && NULL !in tree && roots <= tree.Keys
  {
  }

  lemma ForkFirstKid(tree: Tree, kids: Kids, roots: set<nat>, c: nat, p: nat)
    requires InOrder(tree, kids, roots) && c in roots && p in tree
    ensures NULL !in tree && kids.Keys == tree.Keys && (tree[p].cptr == NULL || (tree[p].cptr in tree && tree[p].cptr != c))
  {
    assert KidList(tree, p, kids[p]);
    FirstKid(tree, p, kids[p]);
    assert !IsKid(kids, p, c);
  }

  // ---------------------------------------------------------------- leaving

  /** What holds while `p` exits and its children go to init. */
  ghost predicate Leaving(tree: Tree, kids: Kids, birth: map<nat, nat>, procs: Procs, list: seq<nat>, hash: seq<seq<nat>>,
                          idle: nat, init: nat, p: nat) {
    && tree.Keys == procs.Keys && p in procs && p != idle && p != init && procs[p].state == ZOMBIE
    && InOrder(Cleared(tree, p), kids, {idle})
    && Born(tree, birth, idle, init)
    && States(procs, kids, idle, init)
    && ZombiesChildless(procs, kids, p)
    && Indexed(procs, list, hash, idle)
  }

  lemma ClearedAlready(tree: Tree, kids: Kids, roots: set<nat>, p: nat)
    requires InOrder(tree, kids, roots) && p in tree
    ensures Cleared(tree, p) == tree
  {
    assert KidList(tree, p, kids[p]);
    if kids[p] != [] { Kid(tree, p, kids[p], 0); }
  }

  /** The processes once `p` is a zombie and its parent `q` woken. */
  function Exited(procs: Procs, p: nat, q: nat, code: int): Procs {
    if p !in procs || q !in procs then procs
    else
      var procs1 := procs[p := procs[p].(state := ZOMBIE, exitCode := code)];
      if procs1[q].wait == WT_CHILD then procs1[q := Woken(procs1[q])] else procs1
  }

  lemma OneParent(tree: Tree, kids: Kids, roots: set<nat>, c: nat)
    requires InOrder(tree, kids, roots) && c in tree
    ensures forall x :: x in kids && c in kids[x] ==> x == tree[c].parent
  {
    forall x | x in kids && c in kids[x] ensures x == tree[c].parent {
      assert KidList(tree, x, kids[x]);
      var i :| 0 <= i < |kids[x]| && kids[x][i] == c;
      Kid(tree, x, kids[x], i);
    }
  }

  lemma ParentOf(tree: Tree, birth: map<nat, nat>, idle: nat, init: nat, p: nat)
    requires Born(tree, birth, idle, init) && p in tree && p != idle
    ensures tree[p].parent in tree && tree[p].parent != p && (p != init ==> tree[p].parent != idle)
  {
    assert p != init ==> Younger(tree, birth, idle, p);
  }

  lemma StartLeaving(tree: Tree, kids: Kids, birth: map<nat, nat>, procs: Procs, list: seq<nat>, hash: seq<seq<nat>>,
                     idle: nat, init: nat, p: nat, code: int)
    requires p in procs && procs[p].state == RUNNABLE && p != idle && p != init && p in tree
    requires Good(tree, kids, birth, procs, list, hash, idle, init)
    ensures Leaving(tree, kids, birth, Exited(procs, p, tree[p].parent, code), list, hash, idle, init, p)
    ensures tree[p].parent in procs && procs[tree[p].parent].state != ZOMBIE && tree[p].parent != p
  {
    var q := tree[p].parent;
    StartLeavingTree(tree, kids, birth, idle, init, p);
    hide InOrder, Born, Cleared;
    StartLeavingProcs(kids, procs, list, hash, idle, init, p, q, code);
    hide States, ZombiesChildless, Indexed, Exited;
  }

  lemma StartLeavingTree(tree: Tree, kids: Kids, birth: map<nat, nat>, idle: nat, init: nat, p: nat)
    requires p != idle && p != init && p in tree && InOrder(tree, kids, {idle}) && Born(tree, birth, idle, init)
    ensures InOrder(Cleared(tree, p), kids, {idle}) && NULL !in tree
    ensures tree[p].parent in tree && tree[p].parent != p && IsKid(kids, tree[p].parent, p)
    ensures forall x :: x in kids && p in kids[x] ==> x == tree[p].parent
  {
    ParentOf(tree, birth, idle, init, p);
    OneParent(tree, kids, {idle}, p);
    ClearedAlready(tree, kids, {idle}, p);
  }

  lemma StartLeavingProcs(kids: Kids, procs: Procs, list: seq<nat>, hash: seq<seq<nat>>, idle: nat, init: nat, p: nat, q: nat, code: int)
    requires p in procs && procs[p].state == RUNNABLE && p != idle && p != init && q in procs && q != p && IsKid(kids, q, p)
    requires forall x :: x in kids && p in kids[x] ==> x == q
    requires States(procs, kids, idle, init) && ZombiesChildless(procs, kids, NULL) && NULL !in procs && Indexed(procs, list, hash, idle)
    ensures var procs2 := Exited(procs, p, q, code);
            && States(procs2, kids, idle, init) && ZombiesChildless(procs2, kids, p) && Indexed(procs2, list, hash, idle)
            && procs2.Keys == procs.Keys && procs2[p].state == ZOMBIE
    ensures procs[q].state != ZOMBIE
  {
    ExitKeepsStates(procs, kids, idle, init, p, q, code);
    ExitKeepsZombies(kids, procs, p, q, code);
    hide States, Indexed, ZombiesChildless;
    SamePidsKeepIndexed(procs, Exited(procs, p, q, code), list, hash, idle);
  }

  lemma ExitKeepsZombies(kids: Kids, procs: Procs, p: nat, q: nat, code: int)
    requires p in procs && q in procs && p != q && IsKid(kids, q, p) && ZombiesChildless(procs, kids, NULL) && NULL !in procs
    ensures ZombiesChildless(Exited(procs, p, q, code), kids, p) && procs[q].state != ZOMBIE
  {
    var procs2 := Exited(procs, p, q, code);
    assert procs2.Keys == procs.Keys;
    forall x | x in procs2 && x != p && procs2[x].state == ZOMBIE ensures kids[x] == [] {
      assert procs[x].state == ZOMBIE;
      assert x != NULL ==> kids[x] == [];
    }
  }

  function Moved(kids: Kids, p: nat, n: nat): Kids {
    if p in kids && n in kids && kids[p] != [] then kids[p := kids[p][1..]][n := [kids[p][0]] + kids[n]] else kids
  }

  /** The processes once init is woken for the child `c` it got, if that has exited. */
  function InitWoken(procs: Procs, init: nat, c: nat): Procs {
    if c in procs && init in procs && procs[c].state == ZOMBIE && procs[init].wait == WT_CHILD then procs[init := Woken(procs[init])]
    else procs
  }

  lemma BornAdopted(tree: Tree, birth: map<nat, nat>, idle: nat, init: nat, p: nat)
    requires Born(tree, birth, idle, init) && CanAdopt(tree, p, init) && p != idle && tree[p].cptr != idle
    ensures Born(Adopt(tree, p, init), birth, idle, init)
  {
    AdoptEffect(tree, p, init);
    var tree2 := Adopt(tree, p, init);
    hide Adopt;
    assert tree[p].cptr != init ==> Younger(tree, birth, idle, tree[p].cptr);
    forall d | d in tree2 && d != idle && d != init ensures Younger(tree2, birth, idle, d) {
      assert Younger(tree, birth, idle, d);
    }
  }

  lemma LeavingRound(tree: Tree, kids: Kids, birth: map<nat, nat>, procs: Procs, list: seq<nat>, hash: seq<seq<nat>>,
                     idle: nat, init: nat, p: nat)
    requires p in kids && kids[p] != []
    requires Leaving(tree, kids, birth, procs, list, hash, idle, init, p)
    ensures CanAdopt(tree, p, init) && tree[p].cptr == kids[p][0] && tree[p].cptr in procs && procs[init].state != ZOMBIE
    ensures kids[p][0] != init
    ensures Leaving(Adopt(tree, p, init), Moved(kids, p, init), birth, InitWoken(procs, init, kids[p][0]), list, hash, idle, init, p)
  {
    LeavingRoundTree(tree, kids, birth, idle, init, p);
    hide InOrder, Born, Cleared, Adopt, CanAdopt;
    LeavingRoundProcs(kids, procs, list, hash, idle, init, p);
    hide States, ZombiesChildless, Indexed, InitWoken, Moved;
  }

  lemma LeavingRoundTree(tree: Tree, kids: Kids, birth: map<nat, nat>, idle: nat, init: nat, p: nat)
    requires p != idle && p != init && p in tree && p in kids && kids[p] != []
    requires InOrder(Cleared(tree, p), kids, {idle}) && Born(tree, birth, idle, init)
    ensures CanAdopt(tree, p, init) && tree[p].cptr == kids[p][0] && tree.Keys == kids.Keys
    ensures kids[p][0] in tree && kids[p][0] != idle && kids[p][0] != init && init in tree
    ensures Adopt(tree, p, init).Keys == tree.Keys
    ensures InOrder(Cleared(Adopt(tree, p, init), p), Moved(kids, p, init), {idle}) && Born(Adopt(tree, p, init), birth, idle, init)
  {
    LeavingChild(tree, kids, birth, idle, init, p);
    AdoptFacts(tree, kids, {idle}, p, init);
    AdoptKeepsFamily(tree, kids, {idle}, p, init);
    AdoptEffect(tree, p, init);
    BornAdopted(tree, birth, idle, init, p);
    hide Born, Adopt, Lists, Parents;
  }

  lemma LeavingRoundProcs(kids: Kids, procs: Procs, list: seq<nat>, hash: seq<seq<nat>>, idle: nat, init: nat, p: nat)
    requires p in procs && procs[p].state == ZOMBIE && p != idle && p != init
    requires p in kids && kids[p] != [] && kids[p][0] in procs && kids[p][0] != init
    requires States(procs, kids, idle, init) && ZombiesChildless(procs, kids, p) && Indexed(procs, list, hash, idle)
    ensures var procs2 := InitWoken(procs, init, kids[p][0]);
            && procs2.Keys == procs.Keys && procs2[p].state == ZOMBIE && procs[init].state != ZOMBIE
            && States(procs2, Moved(kids, p, init), idle, init) && ZombiesChildless(procs2, Moved(kids, p, init), p)
            && Indexed(procs2, list, hash, idle)
  {
    AdoptKeepsStates(procs, kids, idle, init, p, kids[p][0]);
    hide Indexed;
    SamePidsKeepIndexed(procs, InitWoken(procs, init, kids[p][0]), list, hash, idle);
  }

  lemma LeavingChild(tree: Tree, kids: Kids, birth: map<nat, nat>, idle: nat, init: nat, p: nat)
    requires p in tree && p != idle && p != init
    requires InOrder(Cleared(tree, p), kids, {idle}) && Born(tree, birth, idle, init) && kids[p] != []
    ensures var c := kids[p][0]; c in tree && c != idle && c != init && c != p
  {
    var F := Cleared(tree, p);
    var c := kids[p][0];
    assert KidList(F, p, kids[p]);
    Kid(F, p, kids[p], 0);
    assert IsKid(kids, p, c);
    assert tree[c].parent == p;
    ParentOf(tree, birth, idle, init, c);
  }

  lemma LeavingDone(tree: Tree, kids: Kids, birth: map<nat, nat>, procs: Procs, list: seq<nat>, hash: seq<seq<nat>>,
                    idle: nat, init: nat, p: nat)
    requires Leaving(tree, kids, birth, procs, list, hash, idle, init, p) && p in tree && tree[p].cptr == NULL
    ensures p in kids && kids[p] == [] && p in procs && procs[p].state == ZOMBIE
    ensures Good(tree, kids, birth, procs, list, hash, idle, init)
  {
    assert KidList(Cleared(tree, p), p, kids[p]);
    if kids[p] != [] { Kid(Cleared(tree, p), p, kids[p], 0); }
  }

  // ---------------------------------------------------------------- reaping

  /** remove_links, and the structure freed. */
  function Unlinked(tree: Tree, z: nat): Tree {
    if z in tree && tree[z].parent in tree then Remove(tree, z) - {z} else tree
  }

  function DropKid(kids: Kids, p: nat, z: nat): Kids {
    if p in kids && z in kids[p] then kids[p := Without(kids[p], IndexOf(kids[p], z))] - {z} else kids
  }

  function Unlisted(list: seq<nat>, z: nat): seq<nat> {
    if z in list then Without(list, IndexOf(list, z)) else list
  }

  lemma ReapTree(tree: Tree, kids: Kids, birth: map<nat, nat>, idle: nat, init: nat, p: nat, z: nat)
    requires InOrder(tree, kids, {idle}) && Born(tree, birth, idle, init)
    requires p in tree && IsKid(kids, p, z) && z != init && z in kids && kids[z] == []
    ensures z in tree && tree[z].parent == p != z && z != idle
    ensures Unlinked(tree, z).Keys == tree.Keys - {z}
    ensures InOrder(Unlinked(tree, z), DropKid(kids, p, z), {idle}) && Born(Unlinked(tree, z), birth - {z}, idle, init)
    ensures forall x :: x in kids && z in kids[x] ==> x == p
  {
    OneParent(tree, kids, {idle}, z);
    ReapLinks(tree, kids, idle, p, z);
    hide Unlinked, Lists;
    BornReaped(tree, Unlinked(tree, z), kids, birth, idle, init, z);
  }

  lemma ReapLinks(tree: Tree, kids: Kids, idle: nat, p: nat, z: nat)
    requires InOrder(tree, kids, {idle}) && p in tree && IsKid(kids, p, z) && z in kids && kids[z] == []
    ensures z in tree && tree[z].parent == p != z && z != idle
    ensures var tree2 := Unlinked(tree, z);
            && tree2.Keys == tree.Keys - {z} && (forall x :: x in tree2 ==> tree2[x].parent == tree[x].parent)
            && InOrder(tree2, DropKid(kids, p, z), {idle})
  {
    ReapEffect(tree, kids, idle, p, z);
    var i := IndexOf(kids[p], z);
    hide KidList, Remove, Lists, Parents;
    RemoveKeepsFamily(tree, kids, {idle}, z, p, i);
    var kids1 := kids[p := Without(kids[p], i)];
    assert kids1[z] == [];
    FreeKeepsFamily(Remove(tree, z), kids1, {idle} + {z}, z);
    assert {idle} + {z} - {z} == {idle};
  }

  lemma ReapEffect(tree: Tree, kids: Kids, idle: nat, p: nat, z: nat)
    requires InOrder(tree, kids, {idle}) && p in tree && IsKid(kids, p, z) && kids.Keys == tree.Keys && z in kids && kids[z] == []
    ensures z in tree && tree[z].parent == p != z && z != idle
    ensures Remove(tree, z).Keys == tree.Keys && forall x :: x in tree ==> Remove(tree, z)[x].parent == tree[x].parent
  {
    var i := IndexOf(kids[p], z);
    assert KidList(tree, p, kids[p]) && !IsKid(kids, p, idle);
    RemoveFacts(tree, kids[p], i, p);
    RemoveEffect(tree, z, p);
  }

  lemma BornReaped(tree: Tree, tree2: Tree, kids: Kids, birth: map<nat, nat>, idle: nat, init: nat, z: nat)
    requires Parents(tree, kids, {idle}) && Born(tree, birth, idle, init) && z in kids && kids[z] == [] && z != idle && z != init
    requires tree2.Keys == tree.Keys - {z} && forall x :: x in tree2 ==> tree2[x].parent == tree[x].parent
    ensures Born(tree2, birth - {z}, idle, init)
  {
    forall d | d in tree2 && d != idle && d != init ensures Younger(tree2, birth - {z}, idle, d) {
      assert Younger(tree, birth, idle, d) && IsKid(kids, tree[d].parent, d);
    }
  }

  lemma ReapProcs(kids: Kids, procs: Procs, list: seq<nat>, hash: seq<seq<nat>>, idle: nat, init: nat, p: nat, z: nat)
    requires p in procs && procs[p].state == RUNNABLE && z in procs && procs[z].state == ZOMBIE && IsKid(kids, p, z) && z != idle
    requires forall x :: x in kids && z in kids[x] ==> x == p
    requires States(procs, kids, idle, init) && ZombiesChildless(procs, kids, NULL) && Indexed(procs, list, hash, idle)
    ensures var procs2 := procs - {z}; var kids2 := DropKid(kids, p, z);
            && States(procs2, kids2, idle, init) && ZombiesChildless(procs2, kids2, NULL)
            && Indexed(procs2, Unlisted(list, z), RemoveFrom(hash, Hash(procs[z].pid), z), idle)
    ensures z in list
    ensures forall x :: x in PidsOf(procs - {z}, Unlisted(list, z)) ==> x in PidsOf(procs, list)
  {
    ReapKeepsStates(procs, kids, idle, init, p, z, IndexOf(kids[p], z));
    assert z in list;
    hide States;
    DropKeepsIndexed(procs, list, hash, idle, z, IndexOf(list, z));
  }

  /** The awake `p` reaps its child `z`, which has exited. */
  lemma ReapKeepsGood(tree: Tree, kids: Kids, birth: map<nat, nat>, procs: Procs, list: seq<nat>, hash: seq<seq<nat>>,
                      idle: nat, init: nat, p: nat, z: nat)
    requires p in procs && procs[p].state == RUNNABLE && z in procs && procs[z].state == ZOMBIE && IsKid(kids, p, z) && z != NULL
    requires Good(tree, kids, birth, procs, list, hash, idle, init)
    ensures z in list && z in tree && tree[z].parent == p != z && p in tree && z != idle && z != init
    ensures Good(Unlinked(tree, z), DropKid(kids, p, z), birth - {z}, procs - {z}, Unlisted(list, z),
                 RemoveFrom(hash, Hash(procs[z].pid), z), idle, init)
    ensures forall x :: x in PidsOf(procs - {z}, Unlisted(list, z)) ==> x in PidsOf(procs, list)
  {
    assert kids[z] == [];
    ReapTree(tree, kids, birth, idle, init, p, z);
    hide InOrder, Born, Unlinked;
    ReapProcs(kids, procs, list, hash, idle, init, p, z);
    hide States, ZombiesChildless, Indexed, Unlisted, DropKid, RemoveFrom, PidsOf;
  }

  // ---------------------------------------------------------------- the running process

  /** schedule's stores, on the way from `cur` to `next`. */
  function Scheduled(procs: Procs, cur: nat, next: nat): Procs {
    if cur !in procs || next !in procs then procs
    else
      var procs1 := procs[cur := procs[cur].(needResched := false)];
      procs1[next := procs1[next].(runs := procs1[next].runs + 1)]
  }

  /** `cur` gave up the processor to `next`, the first process after it on the list, idle being
      the list head, that can run. */
  ghost predicate Switched(procs: Procs, cur: nat, procs2: Procs, next: nat, list: seq<nat>, idle: nat) {
    && procs2 == Scheduled(procs, cur, next) && cur in Scheduler.Ring(list, idle)
    && Scheduler.IsNext(list, idle, cur, (set p | p in procs && procs[p].state == RUNNABLE), next)
  }

  function Runnable(procs: Procs): set<nat> {
    set p | p in procs && procs[p].state == RUNNABLE
  }

  lemma SwitchedTo(procs: Procs, list: seq<nat>, idle: nat, cur: nat, next: nat)
    requires cur in Scheduler.Ring(list, idle) && Scheduler.IsNext(list, idle, cur, Runnable(procs), next)
    ensures Switched(procs, cur, Scheduled(procs, cur, next), next, list, idle)
  {
    assert Runnable(procs) == (set p | p in procs && procs[p].state == RUNNABLE);
  }

  /** Only the counters of the scheduler differ. */
  predicate RunsApart(q: Proc, r: Proc) {
    && r.pid == q.pid && r.state == q.state && r.wait == q.wait && r.exiting == q.exiting
    && r.exitCode == q.exitCode && r.request == q.request
  }

  ghost predicate SameButRuns(procs: Procs, procs2: Procs) {
    procs.Keys == procs2.Keys && forall p :: p in procs ==> RunsApart(procs[p], procs2[p])
  }

  lemma RunsKeepStates(procs: Procs, procs2: Procs, kids: Kids, idle: nat, init: nat)
    requires States(procs, kids, idle, init) && SameButRuns(procs, procs2)
    ensures States(procs2, kids, idle, init)
  {
    forall p | p in procs2 ensures StateOk(procs2, kids[p], p) {
      assert StateOk(procs, kids[p], p) && RunsApart(procs[p], procs2[p]);
      if procs2[p].state == SLEEPING {
        WaitsFrame(procs, procs2, kids[p], procs[p].request.value);
      }
    }
  }

  lemma RunsKeepGood(tree: Tree, kids: Kids, birth: map<nat, nat>, procs: Procs, procs2: Procs, list: seq<nat>,
                     hash: seq<seq<nat>>, idle: nat, init: nat)
    requires Good(tree, kids, birth, procs, list, hash, idle, init) && SameButRuns(procs, procs2)
    ensures Good(tree, kids, birth, procs2, list, hash, idle, init) && PidsOf(procs2, list) == PidsOf(procs, list)
  {
    RunsKeepStates(procs, procs2, kids, idle, init);
    hide InOrder, Born, Indexed, States;
    SamePidsKeepIndexed(procs, procs2, list, hash, idle);
  }

  /** What a kernel entry may use about the running process. */
  lemma CurrentFacts(tree: Tree, kids: Kids, birth: map<nat, nat>, procs: Procs, list: seq<nat>, hash: seq<seq<nat>>,
                     idle: nat, init: nat, p: nat)
    requires Good(tree, kids, birth, procs, list, hash, idle, init) && p in procs
    ensures procs.Keys == tree.Keys == kids.Keys && idle in procs && procs[idle].state == RUNNABLE && NULL !in procs
    ensures Listed(procs, list, idle) && Indexed(procs, list, hash, idle)
    ensures procs[p].state == RUNNABLE ==> procs[p].wait == 0
    ensures |PidsOf(procs, list)| == |list|
  {
    assert StateOk(procs, kids[p], p);
  }

  /** Processes that have exited stay as they are until they are gone. */
  ghost predicate DeadStay(procs: Procs, procs2: Procs) {
    forall p :: p in procs && procs[p].state == ZOMBIE && p in procs2 ==>
      procs2[p].state == ZOMBIE && procs2[p].exitCode == procs[p].exitCode && procs2[p].pid == procs[p].pid
  }

  lemma SameDead(procs: Procs)
    ensures DeadStay(procs, procs)
  {
  }

  lemma DeadTwice(procs: Procs, procs1: Procs, procs2: Procs)
    requires DeadStay(procs, procs1) && DeadStay(procs1, procs2) && procs1.Keys == procs.Keys
    ensures DeadStay(procs, procs2)
  {
  }

  lemma InitLives(tree: Tree, kids: Kids, birth: map<nat, nat>, procs: Procs, list: seq<nat>, hash: seq<seq<nat>>,
                  idle: nat, init: nat)
    requires Good(tree, kids, birth, procs, list, hash, idle, init)
    ensures init in procs && procs[init].state != ZOMBIE
  {
  }

  /** Nothing but run counters and flags has changed. */
  lemma RunsDead(procs: Procs, procs2: Procs)
    requires SameButRuns(procs, procs2)
    ensures DeadStay(procs, procs2)
  {
    forall p | p in procs ensures RunsApart(procs[p], procs2[p]) { }
  }

  lemma StayDead(procs: Procs, p: nat, code: int, procs2: Procs, q: nat, init: nat)
    requires p in procs && procs[p].state == RUNNABLE && OnlyWoken(procs[p := procs[p].(state := ZOMBIE, exitCode := code)], procs2, q, init)
    requires q in procs && procs[q].state != ZOMBIE && init in procs && procs[init].state != ZOMBIE
    ensures DeadStay(procs, procs2)
  {
  }

  /** do_wait changes its caller, which has not exited, and removes what it reaps. */
  lemma WaitedDead(procs: Procs, p: nat, pid: int, procs2: Procs)
    requires p in procs && procs[p].state == RUNNABLE
    requires SameButRuns(Asleep(procs, p, pid), procs2)
          || (procs2.Keys <= Returned(procs, p).Keys && forall q :: q in procs2 ==> procs2[q] == Returned(procs, p)[q])
    ensures DeadStay(procs, procs2)
  {
    if SameButRuns(Asleep(procs, p, pid), procs2) {
      forall q | q in procs && procs[q].state == ZOMBIE && q in procs2
        ensures procs2[q].state == ZOMBIE && procs2[q].exitCode == procs[q].exitCode && procs2[q].pid == procs[q].pid
      {
        assert RunsApart(Asleep(procs, p, pid)[q], procs2[q]);
      }
    }
  }

  /** A process killed while it sleeps is woken to find out. */
  function KilledProc(q: Proc): Proc {
    if q.state == SLEEPING then Woken(q.(exiting := true)) else q.(exiting := true)
  }

  lemma SameRuns(procs: Procs)
    ensures SameButRuns(procs, procs)
  {
  }

  lemma CountersApart(q: Proc)
    ensures RunsApart(q, q.(needResched := false)) && RunsApart(q, q.(runs := q.runs + 1))
  {
  }

  lemma AllRunsApart(procs: Procs, procs2: Procs)
    requires SameButRuns(procs, procs2)
    ensures procs.Keys == procs2.Keys
    ensures forall p :: p in procs ==>
      procs2[p].state == procs[p].state && procs2[p].exitCode == procs[p].exitCode && procs2[p].exiting == procs[p].exiting
  {
    assert forall p :: p in procs ==> RunsApart(procs[p], procs2[p]);
  }

  lemma OneRuns(procs: Procs, procs2: Procs, p: nat, r: Proc)
    requires SameButRuns(procs, procs2) && p in procs2 && RunsApart(procs2[p], r)
    ensures SameButRuns(procs, procs2[p := r])
  {
  }

  lemma KeptRequest(procs: Procs, procs2: Procs, p: nat)
    requires SameButRuns(procs, procs2) && p in procs
    ensures p in procs2 && procs2[p].request == procs[p].request
  {
    assert RunsApart(procs[p], procs2[p]);
  }

  lemma SameRunnable(procs: Procs, procs2: Procs)
    requires SameButRuns(procs, procs2)
    ensures Runnable(procs2) == Runnable(procs)
  {
    assert forall p :: p in procs ==> RunsApart(procs[p], procs2[p]);
  }

  lemma RingOfProcs(procs: Procs, list: seq<nat>, idle: nat, current: nat)
    requires Listed(procs, list, idle) && current in procs
    ensures Scheduler.IsRing(list, idle) && current in Scheduler.Ring(list, idle)
  {
    assert idle !in list;
    if current == idle {
      assert Scheduler.Ring(list, idle)[0] == current;
    } else {
      assert Scheduler.Ring(list, idle)[IndexOf(list, current) + 1] == current;
    }
  }

  lemma NextInRing(list: seq<nat>, idle: nat, current: nat, runnable: set<nat>, next: nat)
    requires current in Scheduler.Ring(list, idle) && Scheduler.IsNext(list, idle, current, runnable, next)
    ensures next in Scheduler.Ring(list, idle) && (next in list ==> next in runnable)
  {
  }

  lemma NextIsRunnable(procs: Procs, list: seq<nat>, idle: nat, next: nat)
    requires Listed(procs, list, idle) && idle in procs && procs[idle].state == RUNNABLE
    requires next in Scheduler.Ring(list, idle) && (next in list ==> next in Runnable(procs))
    ensures next in procs && procs[next].state == RUNNABLE && (next == idle || next in list)
  {
  }

  lemma FirstPid(pid: int)
    requires FirstFree([], MAX_PID, pid)
    ensures pid == 1
  {
    var k: nat :| 1 <= k < MAX_PID && pid == After(MAX_PID, k) && Ids(MAX_PID, k - 1) <= Elements([]);
    IdsDistinct(MAX_PID, k - 1);
    assert Elements([]) == {};
    SubsetSize(Ids(MAX_PID, k - 1), {});
  }

  function BootTree(idle: nat, init: nat): Tree {
    map[idle := Links(NULL, init, NULL, NULL), init := Links(idle, NULL, NULL, NULL)]
  }

  lemma BootInOrder(idle: nat, init: nat)
    requires idle != NULL && init != NULL && idle != init
    ensures InOrder(BootTree(idle, init), map[idle := [init], init := []], {idle})
    ensures Born(BootTree(idle, init), map[idle := 0, init := 1], idle, init)
    ensures Set(map[idle := Links(NULL, NULL, NULL, NULL), init := Links(idle, NULL, NULL, NULL)], init) == BootTree(idle, init)
  {
    var tree, kids := BootTree(idle, init), map[idle := [init], init := []];
    assert KidAt(tree, idle, [init], 0);
    assert IsKid(kids, idle, init);
  }

  lemma BootIndexed(idle: nat, init: nat, p: Proc, q: Proc, hash: seq<seq<nat>>)
    requires idle != NULL && init != NULL && idle != init && p.pid == 0 && q.pid == 1
    requires |hash| == HASH_LIST_SIZE && forall h :: 0 <= h < |hash| ==> hash[h] == []
    ensures Indexed(map[idle := p, init := q], [init], AddTo(hash, Hash(1), init), idle)
    ensures PidsOf(map[idle := p, init := q], [init]) == [1] + []
  {
    HashInRange(1);
    var procs, hash2 := map[idle := p, init := q], AddTo(hash, Hash(1), init);
    assert forall x :: x in procs <==> x == idle || x == init;
    forall h | 0 <= h < |hash2| ensures BucketOk(procs, hash2[h], h, idle) {
      assert procs[init].pid == 1;
      if h == Hash(1) {
        assert hash2[h] == [init];
      } else {
        assert hash2[h] == [];
      }
    }
  }

  lemma TwoProcs(procs: Procs, idle: nat, init: nat, r: Proc)
    requires procs.Keys == {idle}
    ensures procs[init := r] == map[idle := procs[idle], init := r]
  {
  }

  lemma BootGood(idle: nat, init: nat, p: Proc, q: Proc, hash: seq<seq<nat>>)
    requires idle != NULL && init != NULL && idle != init
    requires p.pid == 0 && p.state == RUNNABLE && p.wait == 0 && q.pid == 1 && q.state == RUNNABLE && q.wait == 0
    requires |hash| == HASH_LIST_SIZE && forall h :: 0 <= h < |hash| ==> hash[h] == []
    ensures Good(BootTree(idle, init), map[idle := [init], init := []], map[idle := 0, init := 1],
                 map[idle := p, init := q], [init], AddTo(hash, Hash(1), init), idle, init)
  {
    hide InOrder, Born, Indexed, AddTo;
    BootInOrder(idle, init);
    BootIndexed(idle, init, p, q, hash);
  }

  function Reversed(s: seq<nat>): seq<nat> {
    if s == [] then [] else [s[|s| - 1]] + Reversed(s[..|s| - 1])
  }

  /** The processes once `p` has left its children `ks` to init: its parent `q` is woken if it
      waits for a child, whichever, and init if it does and one of them has exited. */
  ghost function LeftBy(procs: Procs, p: nat, q: nat, init: nat, ks: seq<nat>, code: int): Procs {
    var procs1 := Exited(procs, p, q, code);
    if init in procs1 && procs1[init].wait == WT_CHILD && (exists c :: c in ks && c in procs1 && procs1[c].state == ZOMBIE)
    then procs1[init := Woken(procs1[init])] else procs1
  }

  lemma LeftNone(procs: Procs, p: nat, q: nat, init: nat, ks: seq<nat>, code: int)
    ensures LeftBy(procs, p, q, init, ks[..0], code) == Exited(procs, p, q, code)
  {
  }

  lemma LeftOnlyWoken(procs: Procs, p: nat, q: nat, init: nat, ks: seq<nat>, code: int)
    requires p in procs && q in procs && init in procs
    ensures OnlyWoken(procs[p := procs[p].(state := ZOMBIE, exitCode := code)], LeftBy(procs, p, q, init, ks, code), q, init)
  {
  }

  lemma LeftIsDead(procs: Procs, p: nat, q: nat, init: nat, ks: seq<nat>, code: int)
    requires p in procs && q in procs && p != q && p != init
    ensures var procs2 := LeftBy(procs, p, q, init, ks, code); p in procs2 && procs2[p].state == ZOMBIE && procs2[p].exitCode == code
  {
  }

  lemma LeftMore(procs: Procs, p: nat, q: nat, init: nat, ks: seq<nat>, k: nat, code: int)
    requires k < |ks| && ks[k] in procs && ks[k] != init && p in procs && q in procs
    ensures InitWoken(LeftBy(procs, p, q, init, ks[..k], code), init, ks[k]) == LeftBy(procs, p, q, init, ks[..k + 1], code)
  {
    var procs1 := Exited(procs, p, q, code);
    assert ks[..k + 1] == ks[..k] + [ks[k]];
    hide Exited;
    if init in procs1 && procs1[init].wait == WT_CHILD {
      if c :| c in ks[..k] && c in procs1 && procs1[c].state == ZOMBIE {
        assert c in ks[..k + 1];
      } else {
        assert forall c :: c in ks[..k + 1] <==> c in ks[..k] || c == ks[k];
      }
    }
  }

  /** Who has children once `k` of `p`'s have gone to `n`. */
  ghost function MovedTo(kids: Kids, p: nat, n: nat, k: nat): Kids {
    if p in kids && n in kids && k <= |kids[p]| then kids[p := kids[p][k..]][n := Reversed(kids[p][..k]) + kids[n]] else kids
  }

  lemma MovedOneMore(kids: Kids, p: nat, n: nat, k: nat)
    requires p in kids && n in kids && p != n && k < |kids[p]|
    ensures MovedTo(kids, p, n, k)[p] == kids[p][k..] && p in MovedTo(kids, p, n, k)
    ensures Moved(MovedTo(kids, p, n, k), p, n) == MovedTo(kids, p, n, k + 1)
  {
    var m := MovedTo(kids, p, n, k);
    assert kids[p][..k + 1][..k] == kids[p][..k];
    assert [kids[p][k]] + (Reversed(kids[p][..k]) + kids[n]) == Reversed(kids[p][..k + 1]) + kids[n];
    assert m[p][1..] == kids[p][k + 1..];
  }

  /** At most `a` and `b` have been woken, nothing else has changed. */
  ghost predicate OnlyWoken(procs: Procs, procs2: Procs, a: nat, b: nat) {
    && procs.Keys == procs2.Keys
    && (forall q :: q in procs ==> procs2[q] == procs[q] || ((q == a || q == b) && procs2[q] == Woken(procs[q])))
  }

  lemma WokenOnly(procs: Procs, procs2: Procs, a: nat, b: nat, q: nat)
    requires OnlyWoken(procs, procs2, a, b) && q in procs2 && (q == a || q == b)
    ensures OnlyWoken(procs, procs2[q := Woken(procs2[q])], a, b)
  {
  }

  lemma NoneMoved(kids: Kids, p: nat, n: nat)
    requires p in kids && n in kids && p != n
    ensures MovedTo(kids, p, n, 0) == kids
  {
    assert kids[p][..0] == [];
    assert [] + kids[n] == kids[n];
  }

  lemma MovedRest(kids: Kids, p: nat, n: nat, k: nat)
    requires p in kids && n in kids && p != n && k <= |kids[p]|
    ensures p in MovedTo(kids, p, n, k) && MovedTo(kids, p, n, k)[p] == kids[p][k..]
  {
  }

  lemma OnlyWokenFacts(procs: Procs, procs2: Procs, a: nat, b: nat, list: seq<nat>, p: nat)
    requires OnlyWoken(procs, procs2, a, b) && p in procs
    ensures procs2.Keys == procs.Keys && PidsOf(procs2, list) == PidsOf(procs, list)
    ensures procs2[p].exitCode == procs[p].exitCode && procs2[p].exiting == procs[p].exiting
  {
  }

  lemma PidsAlone(procs: Procs, p: nat, r: Proc, list: seq<nat>)
    requires p in procs && r.pid == procs[p].pid
    ensures PidsOf(procs[p := r], list) == PidsOf(procs, list)
  {
  }

  lemma ExitedOnlyWoken(procs: Procs, p: nat, q: nat, b: nat, code: int)
    requires p in procs && q in procs
    ensures OnlyWoken(procs[p := procs[p].(state := ZOMBIE, exitCode := code)], Exited(procs, p, q, code), q, b)
  {
  }

  lemma ClearedList(tree: Tree, kids: Kids, roots: set<nat>, p: nat)
    requires p in tree && InOrder(Cleared(tree, p), kids, roots)
    ensures tree.Keys == kids.Keys && tree[p].cptr == At(kids[p], 0) && (kids[p] != [] ==> kids[p][0] != NULL)
  {
    assert KidList(Cleared(tree, p), p, kids[p]);
    if kids[p] != [] { Kid(Cleared(tree, p), p, kids[p], 0); }
  }

  lemma LeavingFacts(tree: Tree, kids: Kids, birth: map<nat, nat>, procs: Procs, list: seq<nat>, hash: seq<seq<nat>>,
                     idle: nat, init: nat, p: nat)
    requires Leaving(tree, kids, birth, procs, list, hash, idle, init, p)
    ensures p in tree && p in kids && init in procs && init in tree && init != p && tree.Keys == kids.Keys == procs.Keys
    ensures tree[p].cptr == At(kids[p], 0) && (kids[p] != [] ==> kids[p][0] != NULL)
  {
    hide InOrder, Cleared, Indexed, ZombiesChildless, Born;
    ClearedList(tree, kids, {idle}, p);
  }

  /** The children a do_wait call is about. */
  ghost predicate Candidate(procs: Procs, ks: seq<nat>, pid: int, c: nat) {
    c in ks && c in procs && (pid == 0 || procs[c].pid == pid)
  }

  lemma FoundByPid(tree: Tree, kids: Kids, birth: map<nat, nat>, procs: Procs, list: seq<nat>, hash: seq<seq<nat>>,
                   idle: nat, init: nat, p: nat, pid: int, r: nat)
    requires p in procs && NULL !in procs && pid != 0 && r == LinearSearch(procs, list, pid)
    requires Good(tree, kids, birth, procs, list, hash, idle, init)
    ensures r != NULL ==> r in tree
    ensures r != NULL && tree[r].parent == p ==> Candidate(procs, kids[p], pid, r)
    ensures forall c :: Candidate(procs, kids[p], pid, c) ==> c == r && r != NULL && tree[r].parent == p
  {
    hide States, HashOk, Lists;
    LinearFinds(procs, list, pid);
    assert r != NULL ==> r in list && r in procs;
    if r != NULL && tree[r].parent == p {
      KidsAreChildren(tree, kids, {idle}, p, r);
    }
    forall c | Candidate(procs, kids[p], pid, c) ensures c == r && r != NULL && tree[r].parent == p {
      assert c != idle ==> c in list;
      assert IsKid(kids, p, c);
      KidsAreChildren(tree, kids, {idle}, p, c);
    }
  }

  /** No younger child has exited. */
  ghost predicate FirstZombie(procs: Procs, ks: seq<nat>, z: nat) {
    exists i :: 0 <= i < |ks| && ks[i] == z && forall j :: 0 <= j < i ==> ks[j] in procs && procs[ks[j]].state != ZOMBIE
  }

  /** How a round of do_wait for `pid` by `p`, whose children are `ks`, ends: the state after
      it, and the child `z` reaped. */
  ghost predicate WaitEnds(r: WaitResult, pid: int, z: nat, p: nat, ks: seq<nat>, procs: Procs, kids: Kids, list: seq<nat>,
                           procs2: Procs, kids2: Kids, list2: seq<nat>, current2: nat, idle: nat) {
    match r
    case Reaped(code) =>
      && current2 == p && Candidate(procs, ks, pid, z) && procs[z].state == ZOMBIE && code == procs[z].exitCode
      && (pid == 0 ==> FirstZombie(procs, ks, z))
      && procs2 == Returned(procs, p) - {z} && kids2 == DropKid(kids, p, z) && z in list && list2 == Unlisted(list, z)
    case BadProc =>
      && current2 == p && procs2 == Returned(procs, p) && kids2 == kids && list2 == list
      && forall c :: !Candidate(procs, ks, pid, c)
    case Blocked =>
      && Switched(Asleep(procs, p, pid), p, procs2, current2, list, idle) && kids2 == kids && list2 == list
      && p in procs2 && procs2[p].state == SLEEPING && procs2[p].request == Some(pid) && current2 != p
      && (exists c :: Candidate(procs, ks, pid, c))
      && (forall c :: Candidate(procs, ks, pid, c) ==> procs[c].state != ZOMBIE)
    case Inval => false
    case Panicked => false
  }

  lemma NotInval(r: WaitResult, pid: int, z: nat, p: nat, ks: seq<nat>, procs: Procs, kids: Kids, list: seq<nat>,
                 procs2: Procs, kids2: Kids, list2: seq<nat>, current2: nat, idle: nat)
    requires WaitEnds(r, pid, z, p, ks, procs, kids, list, procs2, kids2, list2, current2, idle)
    ensures r != Inval && r != Panicked
  {
  }

  function Returned(procs: Procs, p: nat): Procs {
    if p in procs then procs[p := procs[p].(request := None)] else procs
  }

  function Asleep(procs: Procs, p: nat, pid: int): Procs {
    if p in procs then procs[p := procs[p].(state := SLEEPING, wait := WT_CHILD, request := Some(pid))] else procs
  }

  lemma StillZombie(procs: Procs, p: nat, z: nat)
    requires z in procs
    ensures z in Returned(procs, p) && Returned(procs, p)[z].state == procs[z].state && Returned(procs, p)[z].exitCode == procs[z].exitCode
  {
  }

  lemma CandidateFacts(procs: Procs, ks: seq<nat>, pid: int, c: nat)
    requires Candidate(procs, ks, pid, c)
    ensures c in ks && c in procs
  {
  }

  lemma KidsAreProcs(tree: Tree, kids: Kids, birth: map<nat, nat>, procs: Procs, list: seq<nat>, hash: seq<seq<nat>>,
                     idle: nat, init: nat, p: nat)
    requires p in procs && p in kids && Good(tree, kids, birth, procs, list, hash, idle, init)
    ensures forall c :: c in kids[p] ==> c in procs
  {
    hide States, Indexed, Born, ZombiesChildless;
    assert KidList(tree, p, kids[p]);
    forall c | c in kids[p] ensures c in procs {
      var i :| 0 <= i < |kids[p]| && kids[p][i] == c;
      Kid(tree, p, kids[p], i);
    }
  }

  /** Children, and none of those asked for has exited: there is something to wait for. */
  lemma MustWait(procs: Procs, ks: seq<nat>, pid: int)
    requires exists c :: Candidate(procs, ks, pid, c)
    requires forall c :: Candidate(procs, ks, pid, c) ==> procs[c].state != ZOMBIE
    requires forall c :: c in ks ==> c in procs
    ensures Waits(procs, ks, pid)
  {
    if pid == 0 {
      forall c | c in ks ensures procs[c].state != ZOMBIE {
        assert Candidate(procs, ks, pid, c);
      }
    }
  }

  lemma UnlinkedIs(tree: Tree, list: seq<nat>, z: nat)
    requires z in tree && tree[z].parent in tree && z in list
    ensures Unlinked(tree, z) == Remove(tree, z) - {z} && Unlisted(list, z) == Without(list, IndexOf(list, z))
  {
  }

  /** Reaping is the event of that name in the scheduler's runs. */
  lemma ReapIsEvent(list: seq<nat>, z: nat, cur: nat)
    requires z in list
    ensures var s, i := Scheduler.State(list, cur), IndexOf(list, z);
            i < |list| && list[i] == z && Scheduler.Step(s, Scheduler.Reap(i)) == Scheduler.State(Unlisted(list, z), cur)
    ensures |Unlisted(list, z)| == |list| - 1
  {
    UnlistedSize(list, z);
  }

  lemma UnlistedSize(list: seq<nat>, z: nat)
    requires z in list
    ensures |Unlisted(list, z)| == |list| - 1
  {
  }

  lemma NextSibling(tree: Tree, kids: Kids, birth: map<nat, nat>, procs: Procs, list: seq<nat>, hash: seq<seq<nat>>,
                    idle: nat, init: nat, p: nat, i: nat)
    requires p in procs && Good(tree, kids, birth, procs, list, hash, idle, init) && p in tree && p in kids && i <= |kids[p]|
    ensures tree[p].cptr == At(kids[p], 0)
    ensures i < |kids[p]| ==> kids[p][i] in tree && kids[p][i] in procs && kids[p][i] != NULL && tree[kids[p][i]].optr == At(kids[p], i + 1)
  {
    hide States, Indexed, Born, ZombiesChildless;
    assert KidList(tree, p, kids[p]);
    if i < |kids[p]| { Kid(tree, p, kids[p], i); }
  }

  lemma SleepKeepsGood(tree: Tree, kids: Kids, birth: map<nat, nat>, procs: Procs, list: seq<nat>, hash: seq<seq<nat>>,
                       idle: nat, init: nat, p: nat, pid: int)
    requires p in procs && p in kids && procs[p].state == RUNNABLE && p != idle && Waits(procs, kids[p], pid)
    requires Good(tree, kids, birth, procs, list, hash, idle, init)
    ensures var procs2 := procs[p := procs[p].(state := SLEEPING, wait := WT_CHILD, request := Some(pid))];
            Good(tree, kids, birth, procs2, list, hash, idle, init) && PidsOf(procs2, list) == PidsOf(procs, list)
  {
    var procs2 := procs[p := procs[p].(state := SLEEPING, wait := WT_CHILD, request := Some(pid))];
    hide InOrder, Born, Indexed, States, Waits;
    SleepKeepsStates(procs, kids, idle, init, p, pid);
    assert SamePids(procs, procs2);
    hide SamePids;
    SamePidsKeepIndexed(procs, procs2, list, hash, idle);
  }

  /** Stores to the awake `p` that keep it awake. */
  lemma AwakeKeepsGood(tree: Tree, kids: Kids, birth: map<nat, nat>, procs: Procs, list: seq<nat>, hash: seq<seq<nat>>,
                       idle: nat, init: nat, p: nat, r: Proc)
    requires p in procs && r.pid == procs[p].pid && r.state == procs[p].state && r.wait == procs[p].wait
    requires procs[p].state == SLEEPING ==> r.request == procs[p].request
    requires Good(tree, kids, birth, procs, list, hash, idle, init)
    ensures Good(tree, kids, birth, procs[p := r], list, hash, idle, init) && PidsOf(procs[p := r], list) == PidsOf(procs, list)
  {
    hide InOrder, Born, Indexed, States;
    AwakeKeepsStates(procs, kids, idle, init, p, r);
    assert SamePids(procs, procs[p := r]);
    hide SamePids;
    SamePidsKeepIndexed(procs, procs[p := r], list, hash, idle);
  }

  lemma WakeKeepsGood(tree: Tree, kids: Kids, birth: map<nat, nat>, procs: Procs, list: seq<nat>, hash: seq<seq<nat>>,
                      idle: nat, init: nat, p: nat)
    requires p in procs && procs[p].state != ZOMBIE
    requires Good(tree, kids, birth, procs, list, hash, idle, init)
    ensures Good(tree, kids, birth, procs[p := Woken(procs[p])], list, hash, idle, init)
    ensures PidsOf(procs[p := Woken(procs[p])], list) == PidsOf(procs, list)
  {
    hide InOrder, Born, Indexed, States;
    WakeKeepsStates(procs, kids, idle, init, p);
    assert SamePids(procs, procs[p := Woken(procs[p])]);
    hide SamePids;
    SamePidsKeepIndexed(procs, procs[p := Woken(procs[p])], list, hash, idle);
  }

  /** wait_state is interruptible exactly for sleepers. */
  lemma InterruptibleSleeps(tree: Tree, kids: Kids, birth: map<nat, nat>, procs: Procs, list: seq<nat>, hash: seq<seq<nat>>,
                            idle: nat, init: nat, p: nat)
    requires p in procs && Good(tree, kids, birth, procs, list, hash, idle, init)
    ensures Interruptible(procs[p].wait) <==> procs[p].state == SLEEPING
  {
    hide InOrder, Born, Indexed, ZombiesChildless, Waits;
    assert StateOk(procs, kids[p], p);
  }

  // ---------------------------------------------------------------- what it means

  /** No wakeup is lost: a process asleep in do_wait still has something to wait for, and
      nothing it waits for has happened. A process that has exited has no children. */
  lemma NoLostWakeup(tree: Tree, kids: Kids, birth: map<nat, nat>, procs: Procs, list: seq<nat>, hash: seq<seq<nat>>,
                     idle: nat, init: nat, p: nat)
    requires Good(tree, kids, birth, procs, list, hash, idle, init) && p in procs && NULL !in procs
    ensures procs[p].state == SLEEPING <==> procs[p].wait == WT_CHILD
    ensures procs[p].state == SLEEPING ==> procs[p].request.Some?
    ensures procs[p].state == SLEEPING && procs[p].request == Some(0) ==> exists c :: ChildOf(tree, idle, p, c)
    ensures procs[p].state == SLEEPING && procs[p].request == Some(0) ==>
      forall c :: ChildOf(tree, idle, p, c) ==> c in procs && procs[c].state != ZOMBIE
    ensures procs[p].state == SLEEPING && procs[p].request != Some(0) ==>
      exists c :: ChildOf(tree, idle, p, c) && c in procs && procs[c].pid == procs[p].request.value && procs[c].state != ZOMBIE
    ensures procs[p].state == ZOMBIE ==> forall c :: !ChildOf(tree, idle, p, c)
  {
    hide Indexed, Born, Lists;
    assert StateOk(procs, kids[p], p);
    forall c ensures ChildOf(tree, idle, p, c) <==> c in kids[p] {
      if c != idle {
        KidsAreChildren(tree, kids, {idle}, p, c);
      } else {
        assert !IsKid(kids, p, idle);
      }
    }
    if procs[p].state == SLEEPING && procs[p].request == Some(0) {
      assert ChildOf(tree, idle, p, kids[p][0]);
    }
  }

  ghost predicate ChildOf(tree: Tree, idle: nat, p: nat, c: nat) {
    c in tree && c != idle && tree[c].parent == p
  }

  /** Once init's do_wait finds no child, only idle and init are left, as init_main asserts. */
  lemma AllHaveQuit(tree: Tree, kids: Kids, birth: map<nat, nat>, procs: Procs, list: seq<nat>, hash: seq<seq<nat>>,
                    idle: nat, init: nat)
    requires Good(tree, kids, birth, procs, list, hash, idle, init) && init in kids && kids[init] == []
    ensures procs.Keys == {idle, init} && list == [init]
    ensures init in tree && tree[init].cptr == tree[init].yptr == tree[init].optr == NULL
  {
    hide States, HashOk, UniquePids, ZombiesChildless, InOrder, Born;
    BornRoots(tree, birth, idle, init);
    forall c | c in procs ensures c == idle || c == init {
      InitIsAlone(tree, kids, birth, idle, init, c);
    }
    InitHasNoLinks(tree, kids, birth, idle, init);
    assert init in list;
    forall i | 0 <= i < |list| ensures list[i] == init {
      assert list[i] in list;
    }
    OnlyOne(list, init);
  }

  lemma BornRoots(tree: Tree, birth: map<nat, nat>, idle: nat, init: nat)
    requires Born(tree, birth, idle, init)
    ensures idle in tree && init in tree && idle != init
  {
  }

  class ProcTable {
    const idle: nat
    const init: nat
    const allocator: PidAllocator
    var procs: Procs
    var tree: Tree
    var list: seq<nat>
    var hash: seq<seq<nat>>
    var current: nat
    var nrProcess: int
    ghost var kids: Kids
    ghost var birth: map<nat, nat>

    /** What holds between any two kernel entries. */
    ghost predicate Valid()
      reads this, allocator
    {
      && Good(tree, kids, birth, procs, list, hash, idle, init)
      && allocator.Cached(PidsOf(procs, list))
      && nrProcess == |list| + 1 <= MAX_PROCESS
      && current in procs && procs[current].state == RUNNABLE
      && init in procs
    }

    /** proc_init: idle, and init made by it. */
    constructor (idleAt: nat, initAt: nat)
      requires idleAt != NULL && initAt != NULL && idleAt != initAt
      ensures Valid() && fresh(allocator) && idle == idleAt && init == initAt
      ensures current == idle && list == [init] && kids == map[idle := [init], init := []]
      ensures procs == map[idle := Proc(0, RUNNABLE, 0, false, 0, None, true, 0), init := Proc(1, RUNNABLE, 0, false, 0, None, false, 0)]
    {
      hide Good, FirstFree, PidsOf, Set, AddTo, Hash, InOrder, Born, Indexed, BootTree;
      idle, init := idleAt, initAt;
      allocator := new PidAllocator();
      var idleProc := NewProc().(pid := 0, state := RUNNABLE, needResched := true);
      procs := map[idleAt := idleProc];
      tree := map[idleAt := Links(NULL, NULL, NULL, NULL)];
      list := [];
      hash := seq(HASH_LIST_SIZE, _ => []);
      current, nrProcess := idleAt, 1;
      kids := map[idleAt := []];
      birth := map[idleAt := 0];
      new;
      MakeInit();
    }

    /** The fork of init by idle (proc_init:1052). */
    method MakeInit()
      requires idle != NULL && init != NULL && idle != init && allocator.Cached([]) && allocator.lastPid == MAX_PID
      requires procs.Keys == {idle} && procs[idle] == NewProc().(pid := 0, state := RUNNABLE, needResched := true)
      requires tree == map[idle := Links(NULL, NULL, NULL, NULL)] && list == []
      requires |hash| == HASH_LIST_SIZE && forall h :: 0 <= h < |hash| ==> hash[h] == []
      requires current == idle && nrProcess == 1
      modifies this, allocator
      ensures Valid() && current == idle && list == [init] && kids == map[idle := [init], init := []] && procs.Keys == {idle, init}
      ensures procs[init] == NewProc().(pid := 1, state := RUNNABLE) && procs[idle] == old(procs)[idle]
    {
      hide Good, FirstFree, PidsOf, Set, AddTo, Hash, InOrder, Born, Indexed, BootTree, HashOk, States;
      var pid := allocator.GetPid([]);
      FirstPid(pid);
      var r := NewProc().(pid := pid, state := RUNNABLE);
      BootGood(idle, init, procs[idle], r, hash);
      BootIndexed(idle, init, procs[idle], r, hash);
      BootInOrder(idle, init);
      TwoProcs(procs, idle, init, r);
      procs := procs[init := r];
      hash := AddTo(hash, Hash(pid), init);
      tree := tree[init := Links(idle, NULL, NULL, NULL)];
      SetLinks(init);
      kids := map[idle := [init], init := []];
      birth := map[idle := 0, init := 1];
      assert list == [init];
    }

    // ---------------------------------------------------------------- small operations

    /** set_links; the parent field of `c` is set. */
    method SetLinks(c: nat)
      requires c in tree && tree[c].parent in tree && c != tree[c].parent
      modifies `tree, `list, `nrProcess
      ensures tree == Set(old(tree), c) && list == [c] + old(list) && nrProcess == old(nrProcess) + 1
    {
      list := [c] + list;
      tree := tree[c := tree[c].(yptr := NULL)];
      var p := tree[c].parent;
      tree := tree[c := tree[c].(optr := tree[p].cptr)];
      var older := tree[c].optr;
      if older != NULL && older in tree {
        tree := tree[older := tree[older].(yptr := c)];
      }
      tree := tree[p := tree[p].(cptr := c)];
      nrProcess := nrProcess + 1;
    }

    /** remove_links */
    method RemoveLinks(c: nat)
      requires c in tree && tree[c].parent in tree && c in list
      modifies `tree, `list, `nrProcess
      ensures tree == Remove(old(tree), c) && list == Without(old(list), IndexOf(old(list), c)) && nrProcess == old(nrProcess) - 1
    {
      list := Without(list, IndexOf(list, c));
      var older, younger := tree[c].optr, tree[c].yptr;
      if older != NULL && older in tree {
        tree := tree[older := tree[older].(yptr := younger)];
      }
      if younger != NULL && younger in tree {
        tree := tree[younger := tree[younger].(optr := older)];
      } else {
        var p := tree[c].parent;
        tree := tree[p := tree[p].(cptr := older)];
      }
      nrProcess := nrProcess - 1;
    }

    /** wakeup_proc; the source asserts that the process has not exited. */
    method WakeupProc(p: nat)
      requires p in procs && procs[p].state != ZOMBIE
      modifies `procs
      ensures procs == old(procs)[p := Woken(old(procs)[p])]
    {
      if procs[p].state != RUNNABLE {
        procs := procs[p := procs[p].(state := RUNNABLE)];
        procs := procs[p := procs[p].(wait := 0)];
      }
    }

    /** find_proc: the walk along the hash bucket finds what a search of proc_list finds. */
    method FindProc(pid: int) returns (r: nat)
      requires Indexed(procs, list, hash, idle)
      ensures r == LinearSearch(procs, list, pid)
      ensures r != NULL ==> r in procs && r != idle && procs[r].pid == pid
    {
      LinearFinds(procs, list, pid);
      if 0 < pid < MAX_PID {
        HashInRange(pid);
        var bucket := hash[Hash(pid)];
        assert BucketOk(procs, bucket, Hash(pid), idle);
        var i := 0;
        while i < |bucket|
          invariant 0 <= i <= |bucket|
          invariant forall j :: 0 <= j < i ==> procs[bucket[j]].pid != pid
        {
          assert bucket[i] in bucket;
          if procs[bucket[i]].pid == pid {
            SearchUnique(procs, list, idle, pid, bucket[i]);
            LinearFinds(procs, list, pid);
            return bucket[i];
          }
          i := i + 1;
        }
        assert forall p :: p in list && p in procs ==> procs[p].pid != pid;
      }
      return NULL;
    }

    /** schedule */
    method Schedule()
      requires allocator.Cached(PidsOf(procs, list)) && Good(tree, kids, birth, procs, list, hash, idle, init)
      requires nrProcess == |list| + 1 <= MAX_PROCESS && current in procs && init in procs
      modifies `procs, `current
      ensures Valid()
      ensures current == idle || current in list
      ensures Scheduler.IsRing(list, idle) && old(current) in Scheduler.Ring(list, idle)
      ensures Scheduler.IsNext(list, idle, old(current), Runnable(old(procs)), current)
      ensures SameButRuns(old(procs), procs) && procs.Keys == old(procs).Keys
      ensures forall p :: p in procs ==> procs[p].state == old(procs)[p].state && procs[p].exitCode == old(procs)[p].exitCode
      ensures DeadStay(old(procs), procs) && Switched(old(procs), old(current), procs, current, list, idle)
    {
      hide Good, Indexed, Listed, Scheduler.IsRing, Scheduler.IsNext, Scheduler.Ring, PidsOf, Runnable, SameButRuns, RunsApart, DeadStay;
      ghost var procs0, cur0 := procs, current;
      CurrentFacts(tree, kids, birth, procs, list, hash, idle, init, current);
      RingOfProcs(procs0, list, idle, current);
      SameRuns(procs0);
      CountersApart(procs[current]);
      OneRuns(procs0, procs0, current, procs[current].(needResched := false));
      procs := procs[current := procs[current].(needResched := false)];
      SameRunnable(procs0, procs);
      var next := Scheduler.Scan(list, idle, current, Runnable(procs));
      NextInRing(list, idle, current, Runnable(procs0), next);
      NextIsRunnable(procs0, list, idle, next);
      CountersApart(procs[next]);
      OneRuns(procs0, procs, next, procs[next].(runs := procs[next].runs + 1));
      procs := procs[next := procs[next].(runs := procs[next].runs + 1)];
      current := next;
      RunsKeepGood(tree, kids, birth, procs0, procs, list, hash, idle, init);
      AllRunsApart(procs0, procs);
      RunsDead(procs0, procs);
      SwitchedTo(procs0, list, idle, cur0, next);
    }

    /** do_fork: `slot` is what kmalloc returned for the structure, `copied` whether the kernel
        stack and the address space could be made. */
    method DoFork(slot: Option<nat>, copied: bool) returns (ret: Option<int>)
      requires Valid() && current != idle && procs[current].request == None
      requires slot.Some? ==> slot.value !in procs && slot.value != NULL
      modifies this, allocator
      ensures Valid() && current == old(current)
      ensures ret.None? <==> old(nrProcess) >= MAX_PROCESS || slot.None? || !copied
      ensures ret.None? ==> procs == old(procs) && tree == old(tree) && list == old(list) && kids == old(kids) && hash == old(hash)
      ensures ret.Some? ==> FirstFree(old(PidsOf(procs, list)), old(allocator.lastPid), ret.value)
      ensures ret.None? ==> allocator.lastPid == old(allocator.lastPid) && allocator.nextSafe == old(allocator.nextSafe)
      ensures ret.Some? ==> procs == old(procs)[slot.value := Proc(ret.value, RUNNABLE, 0, false, 0, None, false, 0)]
      ensures DeadStay(old(procs), procs)
      ensures ret.Some? ==> list == [slot.value] + old(list) && kids == AddKid(old(kids), current, slot.value)
    {
      hide Good, Indexed, Listed, FirstFree, PidsOf, AddKid, Aged, AddTo, Hash, Linked, Set;
      if nrProcess >= MAX_PROCESS || slot.None? {
        return None;
      }
      var c := slot.value;
      CurrentFacts(tree, kids, birth, procs, list, hash, idle, init, current);
      assert procs[current].wait == 0;
      if !copied {
        return None;
      }
      ghost var procs0, list0, tree0 := procs, list, tree;
      var pid := allocator.GetPid(PidsOf(procs, list));
      var r := NewProc().(pid := pid, state := RUNNABLE);
      ForkKeepsGood(tree, kids, birth, procs, list, hash, idle, init, current, c, r);
      LinkedIs(tree, current, c);
      procs := procs[c := NewProc().(pid := pid)];
      hash := AddTo(hash, Hash(pid), c);
      tree := tree[c := Links(current, NULL, NULL, NULL)];
      SetLinks(c);
      WakeupProc(c);
      assert procs == procs0[c := r];
      kids, birth := AddKid(kids, current, c), Aged(birth, current, c);
      ret := Some(pid);
    }

    /** One round of do_exit's loop: `p`'s first child becomes `n`'s. */
    method AdoptFirst(p: nat, n: nat)
      requires CanAdopt(tree, p, n)
      modifies `tree
      ensures tree == Adopt(old(tree), p, n)
    {
      var c := tree[p].cptr;
      tree := tree[p := tree[p].(cptr := tree[c].optr)];
      tree := tree[c := tree[c].(yptr := NULL)];
      tree := tree[c := tree[c].(optr := tree[n].cptr)];
      if tree[c].optr != NULL {
        var older := tree[n].cptr;
        tree := tree[older := tree[older].(yptr := c)];
      }
      tree := tree[c := tree[c].(parent := n)];
      tree := tree[n := tree[n].(cptr := c)];
    }

    /** The first stores of do_exit: the parent is woken if it waits. */
    method TurnZombie(code: int)
      requires current in procs && current in tree && tree[current].parent in procs && tree[current].parent != current
      requires procs[tree[current].parent].state != ZOMBIE
      modifies `procs
      ensures procs == Exited(old(procs), current, tree[current].parent, code)
    {
      procs := procs[current := procs[current].(state := ZOMBIE)];
      procs := procs[current := procs[current].(exitCode := code)];
      var q := tree[current].parent;
      if procs[q].wait == WT_CHILD {
        WakeupProc(q);
      }
    }

    /** The part of do_exit before it gives up the processor. */
    method Leave(code: int)
      requires Valid() && current != idle && current != init
      modifies `procs, `tree, `kids
      ensures Good(tree, kids, birth, procs, list, hash, idle, init)
      ensures old(current in kids && init in kids) && kids == MovedTo(old(kids), current, init, old(|kids[current]|))
      ensures old(current in tree)
      ensures OnlyWoken(old(procs)[current := old(procs)[current].(state := ZOMBIE, exitCode := code)], procs, old(tree[current].parent), init)
      ensures procs.Keys == old(procs.Keys) && PidsOf(procs, list) == old(PidsOf(procs, list))
      ensures procs == LeftBy(old(procs), current, old(tree[current].parent), init, old(kids[current]), code)
      ensures procs[current].state == ZOMBIE && procs[current].exitCode == code && DeadStay(old(procs), procs)
    {
      hide Good, Leaving, Exited, Indexed, OnlyWoken, MovedTo, PidsOf, DeadStay, LeftBy;
      var p := current;
      InitLives(tree, kids, birth, procs, list, hash, idle, init);
      CurrentFacts(tree, kids, birth, procs, list, hash, idle, init, p);
      StartLeaving(tree, kids, birth, procs, list, hash, idle, init, p, code);
      ghost var procs0, q, kids0 := procs, tree[p].parent, kids;
      TurnZombie(code);
      LeftNone(procs0, p, q, init, kids0[p], code);
      LeavingFacts(tree, kids, birth, procs, list, hash, idle, init, p);
      PassOn(p, q, procs0, code);
      LeftOnlyWoken(procs0, p, q, init, kids0[p], code);
      ghost var procs1 := procs0[p := procs0[p].(state := ZOMBIE, exitCode := code)];
      PidsAlone(procs0, p, procs1[p], list);
      OnlyWokenFacts(procs1, procs, q, init, list, p);
      LeftIsDead(procs0, p, q, init, kids0[p], code);
      StayDead(procs0, p, code, procs, q, init);
    }

    /** The loop of do_exit: `p`'s children go to init one by one. */
    method PassOn(p: nat, ghost q: nat, ghost procs0: Procs, ghost code: int)
      requires Leaving(tree, kids, birth, procs, list, hash, idle, init, p)
      requires p in tree && p in kids && init in kids && p != init && p in procs0 && q in procs0 && procs.Keys == procs0.Keys
      requires tree[p].cptr == At(kids[p], 0) && procs == LeftBy(procs0, p, q, init, kids[p][..0], code)
      modifies `procs, `tree, `kids
      ensures Good(tree, kids, birth, procs, list, hash, idle, init)
      ensures kids == MovedTo(old(kids), p, init, old(|kids[p]|)) && procs.Keys == procs0.Keys
      ensures procs == LeftBy(procs0, p, q, init, old(kids[p]), code)
    {
      hide Good, Leaving, Indexed, Moved, MovedTo, Adopt, CanAdopt, Cleared, LeftBy;
      ghost var kids0, k := kids, 0;
      NoneMoved(kids0, p, init);
      while tree[p].cptr != NULL
        invariant Leaving(tree, kids, birth, procs, list, hash, idle, init, p)
        invariant p in tree && p in kids && init in kids0 && k <= |kids0[p]|
        invariant tree[p].cptr == At(kids[p], 0)
        invariant kids == MovedTo(kids0, p, init, k) && kids[p] == kids0[p][k..]
        invariant procs == LeftBy(procs0, p, q, init, kids0[p][..k], code) && procs.Keys == procs0.Keys
        decreases |kids0[p]| - k
      {
        LeavingRound(tree, kids, birth, procs, list, hash, idle, init, p);
        MovedOneMore(kids0, p, init, k);
        LeavingFacts(tree, kids, birth, procs, list, hash, idle, init, p);
        var c := tree[p].cptr;
        LeftMore(procs0, p, q, init, kids0[p], k, code);
        AdoptFirst(p, init);
        kids := Moved(kids, p, init);
        if procs[c].state == ZOMBIE {
          if procs[init].wait == WT_CHILD {
            WakeupProc(init);
          }
        }
        k := k + 1;
        LeavingFacts(tree, kids, birth, procs, list, hash, idle, init, p);
        MovedRest(kids0, p, init, k);
      }
      LeavingDone(tree, kids, birth, procs, list, hash, idle, init, p);
      assert kids0[p][..k] == kids0[p];
    }

    /** do_exit; exit of idle or init is a panic. The exiter is left a zombie, which no
        operation ever makes anything else: each keeps DeadStay until the parent reaps it. */
    method DoExit(code: int) returns (panics: bool)
      requires Valid()
      modifies `procs, `tree, `kids, `current
      ensures Valid() && list == old(list) && DeadStay(old(procs), procs)
      ensures panics <==> old(current) == idle || old(current) == init
      ensures panics ==> procs == old(procs) && tree == old(tree) && kids == old(kids) && current == old(current)
      ensures !panics ==> old(current in kids && init in kids) && kids == MovedTo(old(kids), old(current), init, old(|kids[current]|))
      ensures !panics ==> old(current) in procs && procs[old(current)].state == ZOMBIE && procs[old(current)].exitCode == code
      ensures !panics ==> current != old(current) && old(current in tree)
      ensures !panics ==>
                Switched(LeftBy(old(procs), old(current), old(tree[current].parent), init, old(kids[current]), code), old(current),
                         procs, current, list, idle)
    {
      hide Good, OnlyWoken, LeftBy, Switched, MovedTo, Scheduler.IsNext, Scheduler.IsRing, Scheduler.Ring, PidsOf, DeadStay;
      SameDead(procs);
      if current == idle || current == init {
        return true;
      }
      Leave(code);
      ghost var procs1 := procs;
      Schedule();
      DeadTwice(old(procs), procs1, procs);
      panics := false;
    }

    /** The search of do_wait: a child that has exited, else whether there is any child to
        wait for. */
    method FindKid(pid: int) returns (z: nat, haskid: bool)
      requires Valid()
      ensures current in kids && (haskid <==> exists c :: Candidate(procs, kids[current], pid, c))
      ensures z != NULL ==> Candidate(procs, kids[current], pid, z) && procs[z].state == ZOMBIE
      ensures z == NULL ==> forall c :: Candidate(procs, kids[current], pid, c) ==> procs[c].state != ZOMBIE
      ensures z != NULL && pid == 0 ==> FirstZombie(procs, kids[current], z)
    {
      hide Good, Indexed, LinearSearch;
      CurrentFacts(tree, kids, birth, procs, list, hash, idle, init, current);
      z, haskid := NULL, false;
      if pid != 0 {
        var proc := FindProc(pid);
        FoundByPid(tree, kids, birth, procs, list, hash, idle, init, current, pid, proc);
        if proc != NULL && tree[proc].parent == current {
          haskid := true;
          if procs[proc].state == ZOMBIE {
            z := proc;
          }
        }
      } else {
        ghost var ks, i := kids[current], 0;
        NextSibling(tree, kids, birth, procs, list, hash, idle, init, current, 0);
        var proc := tree[current].cptr;
        while proc != NULL
          invariant 0 <= i <= |ks| && proc == At(ks, i) && (haskid <==> i > 0)
          invariant forall j :: 0 <= j < i ==> ks[j] in procs && procs[ks[j]].state != ZOMBIE
          decreases |ks| - i
        {
          NextSibling(tree, kids, birth, procs, list, hash, idle, init, current, i);
          haskid := true;
          assert Candidate(procs, ks, pid, ks[i]);
          if procs[proc].state == ZOMBIE {
            z := proc;
            assert ks[i] == z && forall j :: 0 <= j < i ==> ks[j] in procs && procs[ks[j]].state != ZOMBIE;
            return;
          }
          proc := tree[proc].optr;
          i := i + 1;
        }
        NextSibling(tree, kids, birth, procs, list, hash, idle, init, current, i);
        assert i == |ks|;
        assert haskid ==> Candidate(procs, ks, pid, ks[0]);
      }
    }

    /** The `found` part of do_wait: the child `z` leaves both indexes and the family, and its
        structure is freed. */
    method Reap(z: nat) returns (code: int)
      requires Valid() && current in kids && z in kids[current] && z in procs && procs[z].state == ZOMBIE
      modifies `procs, `tree, `list, `hash, `nrProcess, `kids, `birth
      ensures Valid() && code == old(procs[z].exitCode)
      ensures procs == old(procs) - {z} && kids == DropKid(old(kids), current, z) && list == Unlisted(old(list), z)
      ensures z in old(list) && nrProcess == old(nrProcess) - 1
    {
      hide Good, PidsOf, DropKid, Unlisted, RemoveFrom, Unlinked, Remove, Indexed, Listed, IndexOf, Without, Hash;
      CurrentFacts(tree, kids, birth, procs, list, hash, idle, init, current);
      ReapKeepsGood(tree, kids, birth, procs, list, hash, idle, init, current, z);
      UnlistedSize(list, z);
      code := procs[z].exitCode;
      Forget(z);
      kids, birth := DropKid(kids, current, z), birth - {z};
    }

    /** unhash_proc, remove_links and kfree. */
    method Forget(z: nat)
      requires z in tree && tree[z].parent in tree && z in list && z in procs
      modifies `procs, `tree, `list, `hash, `nrProcess
      ensures procs == old(procs) - {z} && tree == Unlinked(old(tree), z) && list == Unlisted(old(list), z)
      ensures hash == RemoveFrom(old(hash), Hash(old(procs)[z].pid), z) && nrProcess == old(nrProcess) - 1
    {
      UnlinkedIs(tree, list, z);
      hide Unlisted, Unlinked, Remove, RemoveFrom, Without, IndexOf;
      hash := RemoveFrom(hash, Hash(procs[z].pid), z);
      RemoveLinks(z);
      procs := procs - {z};
      tree := tree - {z};
    }

    /** One round of do_wait, up to where it gives up the processor. `z` is the child reaped. */
    method WaitOnce(pid: int) returns (r: WaitResult, ghost z: nat)
      requires Valid() && current != idle
      modifies `procs, `tree, `list, `hash, `nrProcess, `kids, `birth, `current
      ensures Valid() && old(current in kids) && DeadStay(old(procs), procs)
      ensures WaitEnds(r, pid, z, old(current), old(kids[current]), old(procs), old(kids), old(list), procs, kids, list, current, idle)
    {
      hide Good, PidsOf, DropKid, Unlisted, Candidate, Indexed, Returned, Asleep, SameButRuns, Switched, FirstZombie;
      CurrentFacts(tree, kids, birth, procs, list, hash, idle, init, current);
      ghost var procs0, ks := procs, kids[current];
      var found, haskid := FindKid(pid);
      z := found;
      if found != NULL {
        CandidateFacts(procs0, ks, pid, found);
        Return();
        StillZombie(procs0, current, found);
        var code := Reap(found);
        r := Reaped(code);
      } else if haskid {
        KidsAreProcs(tree, kids, birth, procs, list, hash, idle, init, current);
        MustWait(procs, kids[current], pid);
        Sleep(pid);
        r := Blocked;
      } else {
        Return();
        r := BadProc;
      }
      WaitedDead(procs0, old(current), pid, procs);
    }

    /** Leaving do_wait. */
    method Return()
      requires Valid()
      modifies `procs
      ensures Valid() && procs == Returned(old(procs), current)
    {
      hide Good, PidsOf;
      AwakeKeepsGood(tree, kids, birth, procs, list, hash, idle, init, current, procs[current].(request := None));
      procs := procs[current := procs[current].(request := None)];
    }

    /** Giving up the processor inside do_wait. */
    method Sleep(pid: int)
      requires Valid() && current != idle && current in kids && Waits(procs, kids[current], pid)
      modifies `procs, `current
      ensures Valid() && SameButRuns(Asleep(old(procs), old(current), pid), procs)
      ensures old(current) in procs && procs[old(current)].state == SLEEPING && current != old(current)
      ensures procs[old(current)].request == Some(pid)
      ensures Switched(Asleep(old(procs), old(current), pid), old(current), procs, current, list, idle)
    {
      hide Good, PidsOf, Waits, SameButRuns, Switched, Scheduler.IsNext, Scheduler.IsRing, Scheduler.Ring;
      SleepKeepsGood(tree, kids, birth, procs, list, hash, idle, init, current, pid);
      ghost var procs0 := procs;
      procs := procs[current := procs[current].(request := Some(pid))];
      procs := procs[current := procs[current].(state := SLEEPING)];
      procs := procs[current := procs[current].(wait := WT_CHILD)];
      assert procs == Asleep(procs0, current, pid);
      ghost var procs1, p := procs, current;
      Schedule();
      KeptRequest(procs1, procs, p);
    }

    /** do_wait: `codeOk` is whether the place for the exit code can be written. */
    method DoWait(pid: int, codeOk: bool) returns (r: WaitResult, ghost z: nat)
      requires Valid() && current != idle && procs[current].request == None
      modifies `procs, `tree, `list, `hash, `nrProcess, `kids, `birth, `current
      ensures Valid() && DeadStay(old(procs), procs) && old(current in kids)
      ensures r == Inval <==> !codeOk
      ensures !codeOk ==> procs == old(procs) && kids == old(kids) && list == old(list) && current == old(current)
      ensures codeOk ==>
                WaitEnds(r, pid, z, old(current), old(kids[current]), old(procs), old(kids), old(list), procs, kids, list, current, idle)
    {
      hide Good, WaitEnds, DeadStay;
      CurrentFacts(tree, kids, birth, procs, list, hash, idle, init, current);
      SameDead(procs);
      if !codeOk {
        return Inval, NULL;
      }
      r, z := WaitOnce(pid);
      NotInval(r, pid, z, old(current), old(kids[current]), old(procs), old(kids), old(list), procs, kids, list, current, idle);
    }

    /** The running process returns from the schedule call inside do_wait. One that was killed
        meanwhile exits, which is a panic if it is init; any other looks again for what it was
        asked to wait for. */
    method Resume() returns (r: WaitResult, ghost z: nat)
      requires Valid() && current != idle && procs[current].request.Some?
      modifies `procs, `tree, `list, `hash, `nrProcess, `kids, `birth, `current
      ensures Valid() && DeadStay(old(procs), procs) && old(current in kids && current in tree)
      ensures r == Panicked <==> old(procs[current].exiting) && old(current) == init
      ensures r == Panicked ==> procs == old(procs) && kids == old(kids) && current == old(current)
      ensures old(procs[current].exiting) && r != Panicked ==> old(current) in procs && procs[old(current)].state == ZOMBIE
      ensures old(procs[current].exiting) && r != Panicked ==> procs[old(current)].exitCode == -9
      ensures old(procs[current].exiting) && r != Panicked ==>
                Switched(LeftBy(old(procs), old(current), old(tree[current].parent), init, old(kids[current]), -9), old(current),
                         procs, current, list, idle)
      ensures !old(procs[current].exiting) ==>
                WaitEnds(r, old(procs[current].request.value), z, old(current), old(kids[current]), old(procs), old(kids), old(list),
                         procs, kids, list, current, idle)
    {
      hide Good, WaitEnds, DeadStay, LeftBy, Switched;
      CurrentFacts(tree, kids, birth, procs, list, hash, idle, init, current);
      if procs[current].exiting {
        var panics := DoExit(-9);
        r, z := if panics then Panicked else Blocked, NULL;
      } else {
        ghost var pid := procs[current].request.value;
        r, z := WaitOnce(procs[current].request.value);
        NotInval(r, pid, z, old(current), old(kids[current]), old(procs), old(kids), old(list), procs, kids, list, current, idle);
      }
    }

    /** do_kill */
    method DoKill(pid: int) returns (r: KillResult)
      requires Valid()
      modifies `procs
      ensures Valid() && DeadStay(old(procs), procs)
      ensures var t := LinearSearch(old(procs), list, pid);
              if t !in old(procs) then t == NULL && r == NoSuchProc && procs == old(procs)
              else if old(procs)[t].exiting then r == AlreadyKilled && procs == old(procs)
              else r == Killed && procs == old(procs)[t := KilledProc(old(procs)[t])]
    {
      hide Good, Indexed, LinearSearch, PidsOf, Woken;
      CurrentFacts(tree, kids, birth, procs, list, hash, idle, init, current);
      var t := FindProc(pid);
      if t == NULL {
        return NoSuchProc;
      }
      if procs[t].exiting {
        return AlreadyKilled;
      }
      InterruptibleSleeps(tree, kids, birth, procs, list, hash, idle, init, t);
      AwakeKeepsGood(tree, kids, birth, procs, list, hash, idle, init, t, procs[t].(exiting := true));
      procs := procs[t := procs[t].(exiting := true)];
      if Interruptible(procs[t].wait) {
        WakeKeepsGood(tree, kids, birth, procs, list, hash, idle, init, t);
        WakeupProc(t);
      }
      r := Killed;
    }
  }
}
