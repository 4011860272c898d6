/** schedule (kern/schedule/sched.c): round robin over proc_list. */
module Scheduler {
  import opened Sequences

  /** The idle process is not in proc_list; the scan treats it as the list head. */
  function Ring(list: seq<nat>, idle: nat): seq<nat> {
    [idle] + list
  }

  ghost predicate IsRing(list: seq<nat>, idle: nat) {
    Distinct(Ring(list, idle))
  }

  /** Steps along the ring from `cur` to `p`. */
  function Distance(list: seq<nat>, idle: nat, cur: nat, p: nat): (d: nat)
    requires cur in Ring(list, idle) && p in Ring(list, idle)
    ensures d <= |list|
  {
    var i, j := IndexOf(Ring(list, idle), cur), IndexOf(Ring(list, idle), p);
    if i <= j then j - i else j - i + |list| + 1
  }

  /** What the scan looks for: the first process after `cur` in ring order that is runnable
      (`cur` itself comes last), else idle. */
  ghost predicate IsNext(list: seq<nat>, idle: nat, cur: nat, runnable: set<nat>, next: nat)
    requires cur in Ring(list, idle)
  {
    && next in Ring(list, idle)
    && (next in list ==> next in runnable)
    && (next == idle ==> forall q :: q in list ==> q !in runnable)
    && (next != idle ==> forall q :: q in list && q in runnable ==> Lap(list, idle, cur, next) <= Lap(list, idle, cur, q))
  }

  /** Steps of the scan, which reaches `cur` itself after a whole lap. */
  function Lap(list: seq<nat>, idle: nat, cur: nat, p: nat): nat
    requires cur in Ring(list, idle) && p in Ring(list, idle)
  {
    if p == cur then |list| + 1 else Distance(list, idle, cur, p)
  }

  lemma LapDistinct(list: seq<nat>, idle: nat, cur: nat, p: nat, q: nat)
    requires IsRing(list, idle) && cur in Ring(list, idle) && p in Ring(list, idle) && q in Ring(list, idle)
    requires Lap(list, idle, cur, p) == Lap(list, idle, cur, q)
    ensures p == q
  {
  }

  /** The scan has one answer. */
  lemma NextUnique(list: seq<nat>, idle: nat, cur: nat, runnable: set<nat>, a: nat, b: nat)
    requires IsRing(list, idle) && cur in Ring(list, idle)
    requires IsNext(list, idle, cur, runnable, a) && IsNext(list, idle, cur, runnable, b)
    ensures a == b
  {
    if a != idle && b != idle {
      LapDistinct(list, idle, cur, a, b);
    }
  }

  /** The place on the ring `lap` steps after place `last`. */
  function PlaceAfter(list: seq<nat>, last: nat, lap: nat): nat {
    if last + lap <= |list| then last + lap else last + lap - |list| - 1
  }

  lemma LapAt(list: seq<nat>, idle: nat, cur: nat, last: nat, lap: nat)
    requires IsRing(list, idle) && last <= |list| && Ring(list, idle)[last] == cur && 1 <= lap <= |list| + 1
    ensures var le := PlaceAfter(list, last, lap);
            && le <= |list| && (le == last <==> lap == |list| + 1)
            && var q := Ring(list, idle)[le]; cur in Ring(list, idle) && q in Ring(list, idle) && Lap(list, idle, cur, q) == lap
  {
    IndexUnique(Ring(list, idle), last);
    IndexUnique(Ring(list, idle), PlaceAfter(list, last, lap));
  }

  lemma LapBounds(list: seq<nat>, idle: nat, cur: nat, q: nat)
    requires IsRing(list, idle) && cur in Ring(list, idle) && q in Ring(list, idle)
    ensures 1 <= Lap(list, idle, cur, q) <= |list| + 1
  {
  }

  /** Nobody the scan has passed in its first `lap` steps is runnable. */
  ghost predicate Passed(list: seq<nat>, idle: nat, cur: nat, runnable: set<nat>, lap: nat) {
    cur in Ring(list, idle) && forall q :: q in list && q in runnable ==> q in Ring(list, idle) && Lap(list, idle, cur, q) > lap
  }

  lemma PassOne(list: seq<nat>, idle: nat, cur: nat, runnable: set<nat>, last: nat, lap: nat)
    requires IsRing(list, idle) && last <= |list| && Ring(list, idle)[last] == cur && 1 <= lap <= |list| + 1
    requires Passed(list, idle, cur, runnable, lap - 1)
    requires var le := PlaceAfter(list, last, lap); le <= |list| && (le == 0 || list[le - 1] !in runnable)
    ensures Passed(list, idle, cur, runnable, lap)
  {
    LapAt(list, idle, cur, last, lap);
    var q0 := Ring(list, idle)[PlaceAfter(list, last, lap)];
    forall q | q in list && q in runnable ensures Lap(list, idle, cur, q) > lap {
      if Lap(list, idle, cur, q) == lap { LapDistinct(list, idle, cur, q, q0); }
    }
  }

  lemma FirstPassed(list: seq<nat>, idle: nat, cur: nat, runnable: set<nat>)
    requires IsRing(list, idle) && cur in Ring(list, idle)
    ensures Passed(list, idle, cur, runnable, 0)
  {
    forall q | q in list ensures q in Ring(list, idle) && Lap(list, idle, cur, q) > 0 {
      assert Ring(list, idle)[IndexOf(list, q) + 1] == q;
      LapBounds(list, idle, cur, q);
    }
  }

  lemma WholeLap(list: seq<nat>, idle: nat, cur: nat, runnable: set<nat>)
    requires IsRing(list, idle) && Passed(list, idle, cur, runnable, |list| + 1)
    ensures forall q :: q in list ==> q !in runnable
  {
    forall q | q in list && q in runnable ensures false {
      LapBounds(list, idle, cur, q);
    }
  }

  lemma Found(list: seq<nat>, idle: nat, cur: nat, runnable: set<nat>, last: nat, lap: nat)
    requires IsRing(list, idle) && last <= |list| && Ring(list, idle)[last] == cur && 1 <= lap <= |list| + 1
    requires Passed(list, idle, cur, runnable, lap - 1)
    requires var le := PlaceAfter(list, last, lap); 0 < le <= |list| && list[le - 1] in runnable
    ensures IsNext(list, idle, cur, runnable, list[PlaceAfter(list, last, lap) - 1])
  {
    LapAt(list, idle, cur, last, lap);
    var le := PlaceAfter(list, last, lap);
    assert Ring(list, idle)[le] == list[le - 1] && Ring(list, idle)[0] == idle;
  }

  /** The loop of schedule: `le` is a place on the ring, 0 the list head. */
  method Scan(list: seq<nat>, idle: nat, cur: nat, runnable: set<nat>) returns (next: nat)
    requires IsRing(list, idle) && cur in Ring(list, idle)
    ensures IsNext(list, idle, cur, runnable, next)
  {
    var last := if cur == idle then 0 else IndexOf(list, cur) + 1;
    var le := last;
    ghost var lap := 0;
    FirstPassed(list, idle, cur, runnable);
    assert Ring(list, idle)[last] == cur && idle in Ring(list, idle);
    while true
      invariant 0 <= lap <= |list| && le == PlaceAfter(list, last, lap) <= |list|
      invariant Passed(list, idle, cur, runnable, lap)
      decreases |list| - lap
    {
      hide Passed, IsNext, IsRing, Lap, Distance;
      le := if le == |list| then 0 else le + 1;
      lap := lap + 1;
      LapAt(list, idle, cur, last, lap);
      if le != 0 {
        next := list[le - 1];
        if next in runnable {
          Found(list, idle, cur, runnable, last, lap);
          return;
        }
      }
      PassOne(list, idle, cur, runnable, last, lap);
      if le == last {
        break;
      }
    }
    WholeLap(list, idle, cur, runnable);
    next := idle;
  }

  // ---------------------------------------------------------------- bounded waiting

  /** Choosing someone else brings the scan strictly closer to a runnable process. */
  lemma Closer(list: seq<nat>, idle: nat, cur: nat, runnable: set<nat>, next: nat, p: nat)
    requires IsRing(list, idle) && cur in Ring(list, idle) && p in list && p in runnable && p != cur
    requires IsNext(list, idle, cur, runnable, next) && next != p
    ensures Distance(list, idle, next, p) < Distance(list, idle, cur, p)
  {
    assert next != idle;
    var d, e := Lap(list, idle, cur, next), Lap(list, idle, cur, p);
    assert d <= e;
    if d == e { LapDistinct(list, idle, cur, next, p); }
  }

  lemma RingWithout(list: seq<nat>, idle: nat, i: nat)
    requires IsRing(list, idle) && i < |list|
    ensures var r, r2 := Ring(list, idle), Ring(Without(list, i), idle);
            |r2| == |r| - 1 && forall k :: 0 <= k < |r2| ==> r2[k] == r[if k < i + 1 then k else k + 1]
    ensures IsRing(Without(list, i), idle)
  {
  }

  lemma DropIndex(list: seq<nat>, idle: nat, x: nat, i: nat)
    requires IsRing(list, idle) && x in Ring(list, idle) && i < |list| && list[i] != x
    ensures IsRing(Without(list, i), idle) && x in Ring(Without(list, i), idle)
    ensures var k := IndexOf(Ring(list, idle), x); IndexOf(Ring(Without(list, i), idle), x) == if k < i + 1 then k else k - 1
    ensures IndexOf(Ring(list, idle), x) != i + 1
  {
    var r, r2 := Ring(list, idle), Ring(Without(list, i), idle);
    RingWithout(list, idle, i);
    var k := IndexOf(r, x);
    var m := if k < i + 1 then k else k - 1;
    assert k != i + 1;
    assert r2[m] == x;
    hide IsRing, Ring;
    IsRingDistinct(list, idle);
    IsRingDistinct(Without(list, i), idle);
    IndexUnique(r2, m);
  }

  lemma IsRingDistinct(list: seq<nat>, idle: nat)
    ensures IsRing(list, idle) <==> Distinct(Ring(list, idle))
  {
  }

  lemma InRing(list: seq<nat>, idle: nat, p: nat)
    requires IsRing(list, idle)
    ensures p in list <==> p in Ring(list, idle) && p != idle
  {
    var r := Ring(list, idle);
    if p in list {
      var i :| 0 <= i < |list| && list[i] == p;
      assert r[i + 1] == p && r[0] == idle;
    }
    if p in r && p != idle {
      var j :| 0 <= j < |r| && r[j] == p;
      assert list[j - 1] == p;
    }
  }

  /** Reaping another process takes nobody further away. */
  lemma NoFarther(list: seq<nat>, idle: nat, cur: nat, p: nat, i: nat)
    requires IsRing(list, idle) && cur in Ring(list, idle) && p in list
    requires i < |list| && list[i] != cur && list[i] != p
    ensures IsRing(Without(list, i), idle) && cur in Ring(Without(list, i), idle) && p in Without(list, i)
    ensures Distance(Without(list, i), idle, cur, p) <= Distance(list, idle, cur, p)
  {
    hide IsRing, Ring, Without;
    InRing(list, idle, p);
    DropIndex(list, idle, cur, i);
    DropIndex(list, idle, p, i);
    InRing(Without(list, i), idle, p);
    WithoutSize(list, i);
  }

  lemma WithoutSize(list: seq<nat>, i: nat)
    requires i < |list|
    ensures |Without(list, i)| == |list| - 1
  {
  }

  /** Between two calls of schedule others may change state and be reaped; nobody forks. */
  datatype Event = Schedule(runnable: set<nat>, next: nat) | Reap(i: nat)

  datatype State = State(list: seq<nat>, cur: nat)

  ghost predicate Legal(s: State, idle: nat, p: nat, e: Event) {
    && IsRing(s.list, idle) && s.cur in Ring(s.list, idle) && p in s.list
    && match e
       case Schedule(runnable, next) => p in runnable && IsNext(s.list, idle, s.cur, runnable, next)
       case Reap(i) => i < |s.list| && s.list[i] != s.cur && s.list[i] != p
  }

  function Step(s: State, e: Event): State {
    match e
    case Schedule(_, next) => State(s.list, next)
    case Reap(i) => if i < |s.list| then State(Without(s.list, i), s.cur) else s
  }

  /** A run in which `p` stays runnable and is never chosen. */
  ghost predicate Starved(s: State, idle: nat, p: nat, es: seq<Event>)
    decreases |es|
  {
    s.cur != p && (es == [] || (Legal(s, idle, p, es[0]) && Starved(Step(s, es[0]), idle, p, es[1..])))
  }

  function Schedules(es: seq<Event>): nat {
    if es == [] then 0 else (if es[0].Schedule? then 1 else 0) + Schedules(es[1..])
  }

  /** They are as many as the places in the run where schedule is called. */
  lemma {:induction false} SchedulesCount(es: seq<Event>, i: nat)
    requires i <= |es|
    ensures Schedules(es[i..]) == |set k | i <= k < |es| && es[k].Schedule?|
    decreases |es| - i
  {
    var at := set k | i <= k < |es| && es[k].Schedule?;
    if i < |es| {
      SchedulesCount(es, i + 1);
      assert es[i..][1..] == es[i + 1..];
      assert at == (set k | i + 1 <= k < |es| && es[k].Schedule?) + if es[i].Schedule? then {i} else {};
    } else {
      assert at == {};
    }
  }

  /** Bounded waiting: a runnable process is passed over fewer times than there are
      processes in proc_list, whatever the others do. */
  lemma {:induction false} BoundedWaiting(s: State, idle: nat, p: nat, es: seq<Event>)
    requires IsRing(s.list, idle) && s.cur in Ring(s.list, idle) && p in s.list
    requires Starved(s, idle, p, es)
    ensures Schedules(es) < Distance(s.list, idle, s.cur, p) <= |s.list|
    decreases |es|
  {
    assert Distance(s.list, idle, s.cur, p) > 0;
    if es != [] {
      match es[0] {
        case Schedule(runnable, next) =>
          Closer(s.list, idle, s.cur, runnable, next, p);
        case Reap(i) =>
          NoFarther(s.list, idle, s.cur, p, i);
      }
      BoundedWaiting(Step(s, es[0]), idle, p, es[1..]);
    }
  }
}
