/** The states of processes and what a sleeping process waits for (kern/process/proc.c,
    kern/schedule/sched.c). */
module ProcState {
  import opened Collections
  import opened Sequences
  import opened Family

  datatype State = UNINIT | SLEEPING | RUNNABLE | ZOMBIE

  const WT_INTERRUPTED := 0x8000_0000
  const WT_CHILD := 0x8000_0001

  predicate Interruptible(wait: int) {
    wait / WT_INTERRUPTED % 2 == 1
  }

  /** `request` is the argument of the do_wait call the process is inside, if any. */
  datatype Proc = Proc(pid: int, state: State, wait: int, exiting: bool, exitCode: int, request: Option<int>,
                       needResched: bool, runs: int)

  type Procs = map<nat, Proc>

  /** There is something to wait for, and it has not happened yet. */
  ghost predicate Waits(procs: Procs, ks: seq<nat>, pid: int) {
    if pid == 0 then ks != [] && forall c :: c in ks ==> c in procs && procs[c].state != ZOMBIE
    else exists c :: c in ks && c in procs && procs[c].pid == pid && procs[c].state != ZOMBIE
  }

  ghost predicate StateOk(procs: Procs, ks: seq<nat>, p: nat)
    requires p in procs
  {
    && procs[p].state != UNINIT
    && procs[p].wait == (if procs[p].state == SLEEPING then WT_CHILD else 0)
    && (procs[p].state == SLEEPING ==> procs[p].request.Some? && Waits(procs, ks, procs[p].request.value))
  }

  /** Every process is asleep exactly when it waits for a child, and then it waits for
      something still to come; the idle process is always ready and init never exits. */
  ghost predicate States(procs: Procs, kids: Kids, idle: nat, init: nat) {
    && procs.Keys == kids.Keys && idle in procs && init in procs
    && (forall p :: p in procs ==> StateOk(procs, kids[p], p))
    && procs[idle].state == RUNNABLE && procs[init].state != ZOMBIE
  }

  /** A process that has exited has no children; `leaving` is on its way out. */
  ghost predicate ZombiesChildless(procs: Procs, kids: Kids, leaving: nat) {
    procs.Keys == kids.Keys && forall p :: p in procs && p != leaving && procs[p].state == ZOMBIE ==> kids[p] == []
  }

  function Woken(q: Proc): Proc {
    if q.state != RUNNABLE then q.(state := RUNNABLE, wait := 0) else q
  }

  lemma WaitsFrame(procs: Procs, procs2: Procs, ks: seq<nat>, pid: int)
    requires Waits(procs, ks, pid)
    requires forall c :: c in ks && c in procs && procs[c].state != ZOMBIE ==>
      c in procs2 && procs2[c].pid == procs[c].pid && procs2[c].state != ZOMBIE
    ensures Waits(procs2, ks, pid)
  {
  }

  /** wakeup_proc on a process that has not exited. */
  lemma WakeKeepsStates(procs: Procs, kids: Kids, idle: nat, init: nat, p: nat)
    requires States(procs, kids, idle, init) && p in procs && procs[p].state != ZOMBIE
    ensures States(procs[p := Woken(procs[p])], kids, idle, init)
  {
    var procs2 := procs[p := Woken(procs[p])];
    forall q | q in procs2 ensures StateOk(procs2, kids[q], q) {
      assert StateOk(procs, kids[q], q);
      if procs2[q].state == SLEEPING {
        WaitsFrame(procs, procs2, kids[q], procs[q].request.value);
      }
    }
  }

  /** A new runnable process at the head of `p`'s children, `p` awake. */
  lemma ForkKeepsStates(procs: Procs, kids: Kids, idle: nat, init: nat, p: nat, c: nat, r: Proc)
    requires States(procs, kids, idle, init) && p in procs && procs[p].state == RUNNABLE
    requires c !in procs && r.state == RUNNABLE && r.wait == 0
    requires forall q :: q in kids ==> c !in kids[q]
    ensures States(procs[c := r], kids[c := []][p := [c] + kids[p]], idle, init)
  {
    var procs2, kids2 := procs[c := r], kids[c := []][p := [c] + kids[p]];
    forall q | q in procs2 ensures StateOk(procs2, kids2[q], q) {
      if q != c {
        assert StateOk(procs, kids[q], q);
        if procs[q].state == SLEEPING {
          WaitsFrame(procs, procs2, kids[q], procs[q].request.value);
        }
      }
    }
  }

  /** `p` turns ZOMBIE and its parent `q`, if waiting, is woken. */
  lemma ExitKeepsStates(procs: Procs, kids: Kids, idle: nat, init: nat, p: nat, q: nat, code: int)
    requires States(procs, kids, idle, init) && p in procs && q in procs && p != q && p != idle && p != init
    requires procs[p].state == RUNNABLE
    requires forall x :: x in kids && p in kids[x] ==> x == q
    ensures var procs1 := procs[p := procs[p].(state := ZOMBIE, exitCode := code)];
            States(if procs1[q].wait == WT_CHILD then procs1[q := Woken(procs1[q])] else procs1, kids, idle, init)
  {
    var procs1 := procs[p := procs[p].(state := ZOMBIE, exitCode := code)];
    var procs2 := if procs1[q].wait == WT_CHILD then procs1[q := Woken(procs1[q])] else procs1;
    assert StateOk(procs, kids[q], q);
    forall x | x in procs2 ensures StateOk(procs2, kids[x], x) {
      assert StateOk(procs, kids[x], x);
      if procs2[x].state == SLEEPING {
        assert x != q && p !in kids[x];
        WaitsFrame(procs, procs2, kids[x], procs[x].request.value);
      }
    }
  }

  /** A child `c` of the exiting `p` goes to init, which is woken for a zombie. */
  lemma AdoptKeepsStates(procs: Procs, kids: Kids, idle: nat, init: nat, p: nat, c: nat)
    requires States(procs, kids, idle, init) && p in procs && procs[p].state == ZOMBIE && p != init && c in procs
    requires kids[p] != [] && kids[p][0] == c && c != init
    ensures var procs2 := if procs[c].state == ZOMBIE && procs[init].wait == WT_CHILD then procs[init := Woken(procs[init])] else procs;
            States(procs2, kids[p := kids[p][1..]][init := [c] + kids[init]], idle, init)
  {
    var kids2 := kids[p := kids[p][1..]][init := [c] + kids[init]];
    var procs2 := if procs[c].state == ZOMBIE && procs[init].wait == WT_CHILD then procs[init := Woken(procs[init])] else procs;
    forall q | q in procs2 ensures StateOk(procs2, kids2[q], q) {
      assert StateOk(procs, kids[q], q);
      if procs2[q].state == SLEEPING {
        WaitsFrame(procs, procs2, kids[q], procs[q].request.value);
        if q == init {
          WaitsGrow(procs2, kids[init], c, procs[init].request.value);
        }
      }
    }
  }

  lemma WaitsGrow(procs: Procs, ks: seq<nat>, c: nat, pid: int)
    requires Waits(procs, ks, pid) && c in procs && procs[c].state != ZOMBIE
    ensures Waits(procs, [c] + ks, pid)
  {
    if pid != 0 {
      var d :| d in ks && d in procs && procs[d].pid == pid && procs[d].state != ZOMBIE;
      assert d in [c] + ks;
    }
  }

  /** `p` goes to sleep with something to wait for. */
  lemma SleepKeepsStates(procs: Procs, kids: Kids, idle: nat, init: nat, p: nat, pid: int)
    requires States(procs, kids, idle, init) && p in procs && p != idle && Waits(procs, kids[p], pid)
    requires procs[p].state == RUNNABLE
    ensures States(procs[p := procs[p].(state := SLEEPING, wait := WT_CHILD, request := Some(pid))], kids, idle, init)
  {
    var procs2 := procs[p := procs[p].(state := SLEEPING, wait := WT_CHILD, request := Some(pid))];
    forall q | q in procs2 ensures StateOk(procs2, kids[q], q) {
      assert StateOk(procs, kids[q], q);
      if procs2[q].state == SLEEPING {
        WaitsFrame(procs, procs2, kids[q], procs2[q].request.value);
      }
    }
  }

  /** Reaping the zombie `z`, child `i` of the awake `p`. */
  lemma ReapKeepsStates(procs: Procs, kids: Kids, idle: nat, init: nat, p: nat, z: nat, i: nat)
    requires States(procs, kids, idle, init) && p in procs && procs[p].state == RUNNABLE && p != z
    requires z in procs && procs[z].state == ZOMBIE && i < |kids[p]| && kids[p][i] == z
    requires forall x :: x in kids && z in kids[x] ==> x == p
    ensures States(procs - {z}, kids[p := Without(kids[p], i)] - {z}, idle, init)
  {
    var procs2, kids2 := procs - {z}, kids[p := Without(kids[p], i)] - {z};
    forall q | q in procs2 ensures StateOk(procs2, kids2[q], q) {
      assert StateOk(procs, kids[q], q);
      if procs2[q].state == SLEEPING {
        assert z !in kids[q];
        WaitsFrame(procs, procs2, kids[q], procs[q].request.value);
      }
    }
  }

  /** Changes to the awake `p` that keep it awake. */
  lemma AwakeKeepsStates(procs: Procs, kids: Kids, idle: nat, init: nat, p: nat, r: Proc)
    requires States(procs, kids, idle, init) && p in procs && r.pid == procs[p].pid && r.state == procs[p].state && r.wait == procs[p].wait
    requires procs[p].state == SLEEPING ==> r.request == procs[p].request
    ensures States(procs[p := r], kids, idle, init)
  {
    var procs2 := procs[p := r];
    forall q | q in procs2 ensures StateOk(procs2, kids[q], q) {
      assert StateOk(procs, kids[q], q);
      if procs2[q].state == SLEEPING {
        WaitsFrame(procs, procs2, kids[q], procs[q].request.value);
      }
    }
  }
}
