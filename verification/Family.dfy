/** The family links of processes: cptr leads to the youngest child, optr from child to older
    child, yptr back (kern/process/proc.c). */
module Family {
  import opened Sequences

  /** A process is known by its address; NULL is none. */
  const NULL: nat := 0

  datatype Links = Links(parent: nat, cptr: nat, yptr: nat, optr: nat)

  type Tree = map<nat, Links>

  /** Each process's children, youngest first. */
  type Kids = map<nat, seq<nat>>

  function At(s: seq<nat>, i: int): nat {
    if 0 <= i < |s| then s[i] else NULL
  }

  ghost predicate KidAt(tree: Tree, p: nat, ks: seq<nat>, i: int)
    requires 0 <= i < |ks|
  {
    && ks[i] in tree && tree[ks[i]].parent == p
    && tree[ks[i]].optr == At(ks, i + 1)
    && tree[ks[i]].yptr == At(ks, i - 1)
  }

  /** Reading cptr and then optr from `p` gives `ks`; yptr gives it backwards. */
  ghost predicate KidList(tree: Tree, p: nat, ks: seq<nat>) {
    && Distinct(ks) && p in tree && tree[p].cptr == At(ks, 0)
    && (forall i :: 0 <= i < |ks| ==> KidAt(tree, p, ks, i))
  }

  ghost predicate Lists(tree: Tree, kids: Kids) {
    && tree.Keys == kids.Keys && NULL !in tree
    && (forall p :: p in tree ==> KidList(tree, p, kids[p]))
  }

  ghost predicate IsKid(kids: Kids, p: nat, c: nat) {
    p in kids && c in kids[p]
  }

  /** Every process but the roots is in its parent's list, the roots are in none. */
  ghost predicate Parents(tree: Tree, kids: Kids, roots: set<nat>) {
    && (forall c :: c in tree && c !in roots ==> IsKid(kids, tree[c].parent, c))
    && (forall c, p :: c in roots ==> !IsKid(kids, p, c))
  }

  /** The links are right for all processes; `roots` are the ones in no list: the idle
      process, and one that is being linked or unlinked. */
  ghost predicate InOrder(tree: Tree, kids: Kids, roots: set<nat>) {
    Lists(tree, kids) && Parents(tree, kids, roots) && roots <= tree.Keys
  }

  /** A child list holds exactly the processes with that parent. */
  lemma KidsAreChildren(tree: Tree, kids: Kids, roots: set<nat>, p: nat, c: nat)
    requires InOrder(tree, kids, roots) && p in tree && c !in roots
    ensures c in kids[p] <==> c in tree && tree[c].parent == p
  {
    assert c in tree ==> IsKid(kids, tree[c].parent, c);
    if c in kids[p] {
      var i :| 0 <= i < |kids[p]| && kids[p][i] == c;
      assert KidList(tree, p, kids[p]) && KidAt(tree, p, kids[p], i);
    }
  }

  /** A child list outlives stores that leave its members' links but cptr alone. */
  lemma KidListFrame(tree: Tree, tree2: Tree, p: nat, ks: seq<nat>)
    requires KidList(tree, p, ks) && p in tree2 && tree2[p].cptr == tree[p].cptr
    requires forall x :: x in tree && tree[x].parent == p && x in ks ==> x in tree2 && tree2[x] == tree[x].(cptr := tree2[x].cptr)
    ensures KidList(tree2, p, ks)
  {
    forall i | 0 <= i < |ks| ensures KidAt(tree2, p, ks, i) {
      assert KidAt(tree, p, ks, i);
    }
  }

  lemma Kid(tree: Tree, p: nat, ks: seq<nat>, i: nat)
    requires KidList(tree, p, ks) && i < |ks|
    ensures KidAt(tree, p, ks, i)
  {
  }

  lemma FirstKid(tree: Tree, p: nat, ks: seq<nat>)
    requires KidList(tree, p, ks)
    ensures tree[p].cptr == At(ks, 0)
    ensures ks != [] ==> tree[p].cptr in tree && tree[tree[p].cptr].parent == p
  {
    if ks != [] { Kid(tree, p, ks, 0); }
  }

  // ---------------------------------------------------------------- set_links

  /** The stores of set_links for process `c`, whose parent field is set. */
  function Set(tree: Tree, c: nat): Tree
    requires c in tree && tree[c].parent in tree
  {
    var t1 := tree[c := tree[c].(yptr := NULL)];
    var p := t1[c].parent;
    var t2 := t1[c := t1[c].(optr := t1[p].cptr)];
    var older := t2[c].optr;
    var t3 := if older != NULL && older in t2 then t2[older := t2[older].(yptr := c)] else t2;
    t3[p := t3[p].(cptr := c)]
  }

  lemma SetEffect(tree: Tree, c: nat, p: nat)
    requires c in tree && p in tree && tree[c].parent == p != c && NULL !in tree
    requires tree[p].cptr == NULL || (tree[p].cptr in tree && tree[p].cptr != c)
    ensures var tree2 := Set(tree, c); var older := tree[p].cptr;
            && tree2.Keys == tree.Keys && tree2[c] == Links(p, tree[c].cptr, NULL, older)
            && (forall x :: x in tree && x != c ==> tree2[x] == Links(
                  tree[x].parent, if x == p then c else tree[x].cptr, if x == older then c else tree[x].yptr, tree[x].optr))
  {
  }

  lemma SetOwnList(tree: Tree, ks: seq<nat>, c: nat, p: nat)
    requires KidList(tree, p, ks) && c in tree && c !in ks && NULL !in tree && tree[c].parent == p != c
    ensures KidList(Set(tree, c), p, [c] + ks)
  {
    FirstKid(tree, p, ks);
    SetEffect(tree, c, p);
    var tree2 := Set(tree, c);
    hide Set;
    var ks2 := [c] + ks;
    forall i | 0 <= i < |ks2| ensures KidAt(tree2, p, ks2, i) {
      if i > 0 {
        assert KidAt(tree, p, ks, i - 1) && ks2[i] == ks[i - 1];
        assert i > 1 ==> ks[i - 1] != ks[0];
      }
    }
  }

  lemma SetOthers(tree: Tree, ks: seq<nat>, c: nat, p: nat, q: nat)
    requires KidList(tree, q, ks) && c in tree && c !in ks && NULL !in tree && tree[c].parent == p != c && p in tree && q != p
    requires tree[p].cptr == NULL || (tree[p].cptr in tree && tree[p].cptr != c && tree[tree[p].cptr].parent == p)
    ensures KidList(Set(tree, c), q, ks)
  {
    SetEffect(tree, c, p);
    hide KidList, Set;
    KidListFrame(tree, Set(tree, c), q, ks);
  }

  lemma SetKeepsLists(tree: Tree, kids: Kids, c: nat, p: nat)
    requires Lists(tree, kids) && c in tree && p in tree && tree[c].parent == p != c
    requires forall q :: !IsKid(kids, q, c)
    ensures Lists(Set(tree, c), kids[p := [c] + kids[p]])
  {
    var tree2 := Set(tree, c);
    var kids2 := kids[p := [c] + kids[p]];
    assert !IsKid(kids, p, c);
    FirstKid(tree, p, kids[p]);
    SetEffect(tree, c, p);
    SetOwnList(tree, kids[p], c, p);
    hide KidList, Set;
    forall q | q in tree2 ensures KidList(tree2, q, kids2[q]) {
      if q != p {
        assert KidList(tree, q, kids[q]) && !IsKid(kids, q, c);
        SetOthers(tree, kids[q], c, p, q);
      }
    }
  }

  lemma SetKeepsParents(tree: Tree, tree2: Tree, kids: Kids, roots: set<nat>, c: nat, p: nat)
    requires tree.Keys == kids.Keys && p in tree && c in tree && Parents(tree, kids, roots) && c in roots
    requires tree2.Keys == tree.Keys && tree[c].parent == p && forall x :: x in tree ==> tree2[x].parent == tree[x].parent
    ensures Parents(tree2, kids[p := [c] + kids[p]], roots - {c})
  {
    var kids2 := kids[p := [c] + kids[p]];
    forall d | d in tree2 && d !in roots - {c} ensures IsKid(kids2, tree2[d].parent, d) {
      if d != c {
        assert IsKid(kids, tree[d].parent, d);
      }
    }
    forall d, q | d in roots - {c} ensures !IsKid(kids2, q, d) {
      assert !IsKid(kids, q, d);
    }
  }

  /** set_links puts `c` at the head of its parent's list. */
  lemma SetKeepsFamily(tree: Tree, kids: Kids, roots: set<nat>, c: nat, p: nat)
    requires InOrder(tree, kids, roots) && c in roots && p in tree && tree[c].parent == p != c
    ensures InOrder(Set(tree, c), kids[p := [c] + kids[p]], roots - {c})
  {
    assert !IsKid(kids, p, c);
    assert forall q :: !IsKid(kids, q, c);
    FirstKid(tree, p, kids[p]);
    SetEffect(tree, c, p);
    SetKeepsLists(tree, kids, c, p);
    hide Set, KidList, At;
    SetKeepsParents(tree, Set(tree, c), kids, roots, c, p);
  }

  // ---------------------------------------------------------------- remove_links

  /** The stores of remove_links. */
  function Remove(tree: Tree, c: nat): Tree
    requires c in tree && tree[c].parent in tree
  {
    var older, younger := tree[c].optr, tree[c].yptr;
    var t1 := if older != NULL && older in tree then tree[older := tree[older].(yptr := younger)] else tree;
    if younger != NULL && younger in t1 then t1[younger := t1[younger].(optr := older)]
    else t1[t1[c].parent := t1[t1[c].parent].(cptr := older)]
  }

  lemma RemoveEffect(tree: Tree, c: nat, p: nat)
    requires c in tree && p in tree && tree[c].parent == p != c && NULL !in tree
    requires tree[c].optr == NULL || (tree[c].optr in tree && tree[c].optr != c)
    requires tree[c].yptr == NULL || (tree[c].yptr in tree && tree[c].yptr != c)
    ensures var tree2 := Remove(tree, c);
            && tree2.Keys == tree.Keys && tree2[c] == tree[c]
            && (forall x :: x in tree && x != c ==> tree2[x] == Links(
                  tree[x].parent, if x == p && tree[c].yptr == NULL then tree[c].optr else tree[x].cptr,
                  if x == tree[c].optr then tree[c].yptr else tree[x].yptr,
                  if x == tree[c].yptr then tree[c].optr else tree[x].optr))
  {
  }

  lemma RemoveFacts(tree: Tree, ks: seq<nat>, i: nat, p: nat)
    requires KidList(tree, p, ks) && i < |ks| && NULL !in tree
    ensures var c := ks[i]; c in tree && tree[c].parent == p
    ensures var c := ks[i]; tree[c].optr == At(ks, i + 1) && tree[c].yptr == At(ks, i - 1)
    ensures var c := ks[i]; tree[c].optr == NULL || (tree[c].optr in tree && tree[c].optr != c && tree[tree[c].optr].parent == p)
    ensures var c := ks[i]; tree[c].yptr == NULL || (tree[c].yptr in tree && tree[c].yptr != c && tree[tree[c].yptr].parent == p)
  {
    Kid(tree, p, ks, i);
    if i + 1 < |ks| { Kid(tree, p, ks, i + 1); }
    if i > 0 { Kid(tree, p, ks, i - 1); }
  }

  lemma RemoveOwnList(tree: Tree, ks: seq<nat>, i: nat, p: nat)
    requires KidList(tree, p, ks) && i < |ks| && NULL !in tree && ks[i] in tree && tree[ks[i]].parent == p != ks[i]
    ensures KidList(Remove(tree, ks[i]), p, Without(ks, i))
  {
    var c := ks[i];
    RemoveFacts(tree, ks, i, p);
    RemoveEffect(tree, c, p);
    var tree2 := Remove(tree, c);
    hide Remove;
    var ks2 := Without(ks, i);
    if i > 0 { Kid(tree, p, ks, i - 1); }
    forall j | 0 <= j < |ks2| ensures KidAt(tree2, p, ks2, j) {
      var m := if j < i then j else j + 1;
      Kid(tree, p, ks, m);
      AtWithout(ks, i, j);
      assert m != i + 1 && i + 1 < |ks| ==> ks[m] != ks[i + 1];
      assert m != i - 1 && i > 0 ==> ks[m] != ks[i - 1];
    }
  }

  lemma AtWithout(s: seq<nat>, i: nat, j: int)
    requires i < |s| && 0 <= j < |s| - 1
    ensures var m := if j < i then j else j + 1; var t := Without(s, i);
            && t[j] == s[m]
            && At(t, j + 1) == (if j == i - 1 then At(s, i + 1) else At(s, m + 1))
            && At(t, j - 1) == (if j == i then At(s, i - 1) else At(s, m - 1))
  {
  }

  lemma RemoveOthers(tree: Tree, ks: seq<nat>, c: nat, p: nat, q: nat)
    requires KidList(tree, q, ks) && c in tree && NULL !in tree && tree[c].parent == p != c && p in tree && q != p
    requires tree[c].optr == NULL || (tree[c].optr in tree && tree[c].optr != c && tree[tree[c].optr].parent == p)
    requires tree[c].yptr == NULL || (tree[c].yptr in tree && tree[c].yptr != c && tree[tree[c].yptr].parent == p)
    ensures KidList(Remove(tree, c), q, ks)
  {
    RemoveEffect(tree, c, p);
    hide KidList, Remove;
    KidListFrame(tree, Remove(tree, c), q, ks);
  }

  lemma RemoveKeepsLists(tree: Tree, kids: Kids, c: nat, p: nat, i: nat)
    requires Lists(tree, kids) && c in tree && p in tree && tree[c].parent == p != c && i < |kids[p]| && kids[p][i] == c
    ensures Lists(Remove(tree, c), kids[p := Without(kids[p], i)])
  {
    var kids2 := kids[p := Without(kids[p], i)];
    RemoveFacts(tree, kids[p], i, p);
    RemoveEffect(tree, c, p);
    RemoveOwnList(tree, kids[p], i, p);
    var tree2 := Remove(tree, c);
    hide KidList, Remove;
    forall q | q in tree2 ensures KidList(tree2, q, kids2[q]) {
      if q != p {
        assert KidList(tree, q, kids[q]);
        RemoveOthers(tree, kids[q], c, p, q);
      }
    }
  }

  lemma RemoveKeepsParents(tree: Tree, tree2: Tree, kids: Kids, roots: set<nat>, c: nat, p: nat, i: nat)
    requires tree.Keys == kids.Keys && Lists(tree, kids) && Parents(tree, kids, roots) && p in tree && c in tree
    requires i < |kids[p]| && kids[p][i] == c
    requires tree2.Keys == tree.Keys && forall x :: x in tree ==> tree2[x].parent == tree[x].parent
    ensures Parents(tree2, kids[p := Without(kids[p], i)], roots + {c})
  {
    var kids2 := kids[p := Without(kids[p], i)];
    forall d | d in tree2 && d !in roots + {c} ensures IsKid(kids2, tree2[d].parent, d) {
      assert IsKid(kids, tree[d].parent, d);
      if tree[d].parent == p {
        WithoutMembers(kids[p], i, d);
      }
    }
    forall d, q | d in roots + {c} ensures !IsKid(kids2, q, d) {
      if q in kids {
        assert KidList(tree, q, kids[q]);
        if d == c && q != p && c in kids[q] {
          var j :| 0 <= j < |kids[q]| && kids[q][j] == c;
          Kid(tree, q, kids[q], j);
          Kid(tree, p, kids[p], i);
          assert false;
        }
        assert d in roots ==> !IsKid(kids, q, d);
        if q == p {
          assert KidList(tree, p, kids[p]);
          WithoutMembers(kids[p], i, d);
        }
      }
    }
  }

  /** remove_links takes `c` out of its parent's list and changes no other list. */
  lemma RemoveKeepsFamily(tree: Tree, kids: Kids, roots: set<nat>, c: nat, p: nat, i: nat)
    requires InOrder(tree, kids, roots) && c in tree && p in tree && tree[c].parent == p != c
    requires i < |kids[p]| && kids[p][i] == c
    ensures InOrder(Remove(tree, c), kids[p := Without(kids[p], i)], roots + {c})
  {
    RemoveFacts(tree, kids[p], i, p);
    RemoveEffect(tree, c, p);
    RemoveKeepsLists(tree, kids, c, p, i);
    hide Remove, KidList, At;
    RemoveKeepsParents(tree, Remove(tree, c), kids, roots, c, p, i);
  }

  /** A process in no list and without children can be freed. */
  lemma FreeKeepsFamily(tree: Tree, kids: Kids, roots: set<nat>, c: nat)
    requires InOrder(tree, kids, roots) && c in roots && kids[c] == []
    ensures InOrder(tree - {c}, kids - {c}, roots - {c})
  {
    var tree2, kids2 := tree - {c}, kids - {c};
    forall q | q in tree2 ensures KidList(tree2, q, kids2[q]) {
      assert KidList(tree, q, kids[q]) && !IsKid(kids, q, c);
      KidListFrame(tree, tree2, q, kids[q]);
    }
    forall d | d in tree2 && d !in roots - {c} ensures IsKid(kids2, tree2[d].parent, d) {
      assert IsKid(kids, tree[d].parent, d);
    }
    forall d, q | d in roots - {c} ensures !IsKid(kids2, q, d) {
      assert !IsKid(kids, q, d);
    }
  }

  /** A new process, before set_links. */
  lemma FreshKeepsFamily(tree: Tree, kids: Kids, roots: set<nat>, c: nat, p: nat)
    requires InOrder(tree, kids, roots) && c !in tree && c != NULL
    ensures InOrder(tree[c := Links(p, NULL, NULL, NULL)], kids[c := []], roots + {c})
  {
    var tree2, kids2 := tree[c := Links(p, NULL, NULL, NULL)], kids[c := []];
    forall q | q in kids ensures KidList(tree, q, kids[q]) && c !in kids[q] {
      assert KidList(tree, q, kids[q]);
      if c in kids[q] {
        var i :| 0 <= i < |kids[q]| && kids[q][i] == c;
        Kid(tree, q, kids[q], i);
      }
    }
    forall q | q in tree2 ensures KidList(tree2, q, kids2[q]) {
      if q != c { KidListFrame(tree, tree2, q, kids[q]); }
    }
    forall d | d in tree2 && d !in roots + {c} ensures IsKid(kids2, tree2[d].parent, d) {
      assert IsKid(kids, tree[d].parent, d);
    }
    forall d, q | d in roots + {c} ensures !IsKid(kids2, q, d) {
      assert d in roots ==> !IsKid(kids, q, d);
    }
  }

  // ---------------------------------------------------------------- reparenting

  /** One round of do_exit's loop: the first child of `p` goes to the head of `n`'s list. */
  function Adopt(tree: Tree, p: nat, n: nat): Tree
    requires p in tree && n in tree && tree[p].cptr in tree
  {
    var c := tree[p].cptr;
    var t1 := tree[p := tree[p].(cptr := tree[c].optr)];
    var t2 := t1[c := t1[c].(yptr := NULL)];
    var t3 := t2[c := t2[c].(optr := t2[n].cptr)];
    var t4 := if t3[c].optr != NULL && t3[n].cptr in t3 then t3[t3[n].cptr := t3[t3[n].cptr].(yptr := c)] else t3;
    var t5 := t4[c := t4[c].(parent := n)];
    t5[n := t5[n].(cptr := c)]
  }

  /** Between rounds the yptr of `p`'s first child still leads to the child just moved; with
      that link cleared the family is in order. */
  function Cleared(tree: Tree, p: nat): Tree
    requires p in tree
  {
    var c := tree[p].cptr;
    if c in tree then tree[c := tree[c].(yptr := NULL)] else tree
  }

  lemma AdoptEffect(tree: Tree, p: nat, n: nat)
    requires p in tree && n in tree && tree[p].cptr in tree && NULL !in tree
    requires p != n && tree[p].cptr != p && tree[p].cptr != n
    requires tree[n].cptr == NULL || (tree[n].cptr in tree && tree[n].cptr != tree[p].cptr)
    ensures var tree2 := Adopt(tree, p, n); var c := tree[p].cptr;
            && tree2.Keys == tree.Keys && tree2[c] == Links(n, tree[c].cptr, NULL, tree[n].cptr)
            && (forall x :: x in tree && x != c ==> tree2[x] == Links(
                  tree[x].parent, if x == p then tree[c].optr else if x == n then c else tree[x].cptr,
                  if x == tree[n].cptr then c else tree[x].yptr, tree[x].optr))
  {
  }

  ghost predicate ChildOrNull(tree: Tree, p: nat, c: nat) {
    c == NULL || (c in tree && tree[c].parent == p)
  }

  /** What a round relies on: `c` is `p`'s first child, and `n`'s first child is another. */
  ghost predicate CanAdopt(tree: Tree, p: nat, n: nat) {
    && NULL !in tree && p in tree && n in tree && p != n
    && tree[p].cptr in tree && tree[p].cptr != p && tree[p].cptr != n && tree[tree[p].cptr].parent == p
    && ChildOrNull(tree, p, tree[tree[p].cptr].optr) && tree[tree[p].cptr].optr != tree[p].cptr
    && ChildOrNull(tree, n, tree[n].cptr)
  }

  lemma AdoptFacts(tree: Tree, kids: Kids, roots: set<nat>, p: nat, n: nat)
    requires p in tree && n in tree && p != n && InOrder(Cleared(tree, p), kids, roots)
    requires kids[p] != [] && kids[p][0] != n && kids[p][0] != p
    ensures CanAdopt(tree, p, n) && tree[p].cptr == kids[p][0]
  {
    var F := Cleared(tree, p);
    assert KidList(F, p, kids[p]) && KidList(F, n, kids[n]);
    RemoveFacts(F, kids[p], 0, p);
    FirstKid(F, p, kids[p]);
    FirstKid(F, n, kids[n]);
  }

  function Reparent(tree: Tree, c: nat, n: nat): Tree
    requires c in tree
  {
    tree[c := tree[c].(parent := n)]
  }

  lemma ClearedAt(tree: Tree, p: nat)
    requires p in tree
    ensures Cleared(tree, p).Keys == tree.Keys
    ensures forall x :: x in tree ==> Cleared(tree, p)[x] == if x == tree[p].cptr then tree[x].(yptr := NULL) else tree[x]
  {
  }

  lemma MoveRemoved(tree: Tree, p: nat, n: nat)
    requires CanAdopt(tree, p, n)
    ensures var c := tree[p].cptr; var F := Cleared(tree, p);
            F[c].parent == p && Remove(F, c).Keys == tree.Keys
    ensures var c := tree[p].cptr; var d := tree[c].optr; var R := Remove(Cleared(tree, p), c);
            && R[c] == Links(p, tree[c].cptr, NULL, d)
            && (forall x :: x in tree && x != c ==> R[x] == Links(
                  tree[x].parent, if x == p then d else tree[x].cptr, if x == d then NULL else tree[x].yptr, tree[x].optr))
  {
    RemoveEffect(Cleared(tree, p), tree[p].cptr, p);
  }

  lemma MoveSet(tree: Tree, p: nat, n: nat)
    requires CanAdopt(tree, p, n)
    ensures var c := tree[p].cptr; var F := Cleared(tree, p); F[c].parent == p && Remove(F, c).Keys == tree.Keys
    ensures var c := tree[p].cptr; var d := tree[c].optr;
            var S := Set(Reparent(Remove(Cleared(tree, p), c), c, n), c);
            && S.Keys == tree.Keys && S[c] == Links(n, tree[c].cptr, NULL, tree[n].cptr)
            && (forall x :: x in tree && x != c ==> S[x] == Links(
                  tree[x].parent, if x == p then d else if x == n then c else tree[x].cptr,
                  if x == tree[n].cptr then c else if x == d then NULL else tree[x].yptr, tree[x].optr))
  {
    var c := tree[p].cptr;
    MoveRemoved(tree, p, n);
    var R := Reparent(Remove(Cleared(tree, p), c), c, n);
    hide Remove, Cleared;
    SetEffect(R, c, n);
    hide Set;
  }

  /** A round is an unlinking followed by a linking. */
  lemma AdoptIsMove(tree: Tree, p: nat, n: nat)
    requires CanAdopt(tree, p, n)
    ensures var c := tree[p].cptr; var F := Cleared(tree, p); F[c].parent == p && Remove(F, c).Keys == tree.Keys
    ensures var c := tree[p].cptr; Cleared(Adopt(tree, p, n), p) == Set(Reparent(Remove(Cleared(tree, p), c), c, n), c)
  {
    var c := tree[p].cptr;
    MoveSet(tree, p, n);
    var S := Set(Reparent(Remove(Cleared(tree, p), c), c, n), c);
    hide Remove, Reparent, Set;
    AdoptEffect(tree, p, n);
    var A := Adopt(tree, p, n);
    hide Adopt;
    ClearedAt(A, p);
    hide Cleared;
    forall x | x in tree ensures Cleared(A, p)[x] == S[x] { }
    assert Cleared(A, p).Keys == S.Keys;
  }

  /** One round moves `p`'s first child to the head of `n`'s children. */
  lemma AdoptKeepsFamily(tree: Tree, kids: Kids, roots: set<nat>, p: nat, n: nat)
    requires p in tree && n in tree && p != n && InOrder(Cleared(tree, p), kids, roots)
    requires kids[p] != [] && kids[p][0] != n && kids[p][0] != p && kids[p][0] !in roots
    ensures tree[p].cptr == kids[p][0] && kids[p][0] in tree && p in Adopt(tree, p, n)
    ensures InOrder(Cleared(Adopt(tree, p, n), p), kids[p := kids[p][1..]][n := [kids[p][0]] + kids[n]], roots)
  {
    var c := kids[p][0];
    var F := Cleared(tree, p);
    AdoptFacts(tree, kids, roots, p, n);
    AdoptIsMove(tree, p, n);
    RemoveKeepsFamily(F, kids, roots, c, p, 0);
    var R := Remove(F, c);
    var kids1 := kids[p := Without(kids[p], 0)];
    assert Without(kids[p], 0) == kids[p][1..];
    hide Remove, Adopt, Set, Lists, Parents;
    ReparentKeepsFamily(R, kids1, roots + {c}, c, n);
    SetKeepsFamily(Reparent(R, c, n), kids1, roots + {c}, c, n);
    assert roots + {c} - {c} == roots;
  }

  lemma ReparentKeepsFamily(tree: Tree, kids: Kids, roots: set<nat>, c: nat, n: nat)
    requires InOrder(tree, kids, roots) && c in roots
    ensures InOrder(Reparent(tree, c, n), kids, roots)
  {
    var tree2 := Reparent(tree, c, n);
    forall q | q in tree2 ensures KidList(tree2, q, kids[q]) {
      assert KidList(tree, q, kids[q]) && !IsKid(kids, q, c);
      KidListFrame(tree, tree2, q, kids[q]);
    }
  }

  // ---------------------------------------------------------------- ancestors

  /** Every process is younger than its parent; only init is a child of idle. */
  ghost predicate Born(tree: Tree, birth: map<nat, nat>, idle: nat, init: nat) {
    && birth.Keys == tree.Keys && idle in tree && init in tree && idle != init
    && birth[idle] == 0 && birth[init] == 1 && tree[init].parent == idle
    && (forall c :: c in tree && c != idle && c != init ==> Younger(tree, birth, idle, c))
  }

  ghost predicate Younger(tree: Tree, birth: map<nat, nat>, idle: nat, c: nat)
    requires c in tree && birth.Keys == tree.Keys
  {
    && birth[c] > 1 && tree[c].parent != idle
    && tree[c].parent in tree && birth[tree[c].parent] < birth[c]
  }

  /** The `k`th ancestor of `c`. */
  function Ancestor(tree: Tree, c: nat, k: nat): nat
    decreases k
  {
    if k == 0 || c !in tree then c else Ancestor(tree, tree[c].parent, k - 1)
  }

  /** Following parents from any process but idle leads to init. */
  lemma {:induction false} ParentsReachInit(tree: Tree, birth: map<nat, nat>, idle: nat, init: nat, c: nat) returns (k: nat)
    requires Born(tree, birth, idle, init) && c in tree && c != idle
    ensures Ancestor(tree, c, k) == init
    decreases birth[c]
  {
    if c == init {
      k := 0;
    } else {
      assert Younger(tree, birth, idle, c);
      var j := ParentsReachInit(tree, birth, idle, init, tree[c].parent);
      k := j + 1;
    }
  }

  /** With no children left, init is the only process besides idle, and no link of its own
      leads anywhere. */
  lemma {:induction false} InitIsAlone(tree: Tree, kids: Kids, birth: map<nat, nat>, idle: nat, init: nat, c: nat)
    requires InOrder(tree, kids, {idle}) && Born(tree, birth, idle, init) && kids[init] == []
    requires c in tree
    ensures c == idle || c == init
    decreases birth[c]
  {
    if c != idle && c != init {
      assert Younger(tree, birth, idle, c);
      assert IsKid(kids, tree[c].parent, c);
      InitIsAlone(tree, kids, birth, idle, init, tree[c].parent);
    }
  }

  lemma InitHasNoLinks(tree: Tree, kids: Kids, birth: map<nat, nat>, idle: nat, init: nat)
    requires InOrder(tree, kids, {idle}) && Born(tree, birth, idle, init) && kids[init] == []
    ensures tree[init] == Links(idle, NULL, NULL, NULL)
  {
    assert KidList(tree, init, kids[init]) && KidList(tree, idle, kids[idle]);
    assert IsKid(kids, idle, init);
    forall i | 0 <= i < |kids[idle]| ensures kids[idle][i] == init {
      Kid(tree, idle, kids[idle], i);
      InitIsAlone(tree, kids, birth, idle, init, kids[idle][i]);
      assert IsKid(kids, idle, kids[idle][i]);
    }
    OnlyOne(kids[idle], init);
    Kid(tree, idle, kids[idle], 0);
  }
}
