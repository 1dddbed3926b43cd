/** The process table the clearance calls act on, and the pure specification
    of the ancestor walk of sys_set_sec_branch. */
module Tasks {
  import opened Clearance

  type Pid = int

  /** The two task_struct fields the calls use: the clearance mask and the
      parent link. */
  datatype Task = Task(clearance: Mask, parent: Pid)

  /** The tasks by pid: every task the calls can reach, either as the
      caller, as a target of sys_check_sec or through parent links. */
  type Table = map<Pid, Task>

  /** Every parent link leads to a task of the table, so the parent relation
      is total on it: the chain ends in a task that is its own parent, as the
      idle task (pid 0) is in Linux. */
  predicate ParentsClosed(t: Table)
  {
    forall p {:trigger t[p]} | p in t :: t[p].parent in t
  }

  /** The k processes met by following parent links from x, x included:
      x, its parent, its grandparent and so on. A self-parented process
      repeats for as long as the walk goes on. */
  function Chain(t: Table, x: Pid, k: nat): (r: seq<Pid>)
    requires ParentsClosed(t) && x in t
    ensures |r| == k
    ensures k > 0 ==> r[0] == x
    ensures forall j :: 0 <= j < |r| ==> r[j] in t
    decreases k
  {
    if k == 0 then [] else [x] + Chain(t, t[x].parent, k - 1)
  }

  /** Each member of a chain after the first is the parent of the one
      before it. */
  lemma {:induction false} ChainLinks(t: Table, x: Pid, k: nat, j: nat)
    requires ParentsClosed(t) && x in t && j + 1 < k
    ensures Chain(t, x, k)[j + 1] == t[Chain(t, x, k)[j]].parent
    decreases k
  {
    if j > 0 {
      ChainLinks(t, t[x].parent, k - 1, j - 1);
    }
  }

  /** The k-th process on the parent chain from x: x itself for k = 0. */
  function Up(t: Table, x: Pid, k: nat): (r: Pid)
    requires ParentsClosed(t) && x in t
    ensures r in t
    decreases k
  {
    if k == 0 then x else Up(t, t[x].parent, k - 1)
  }

  /** The (k+1)-th process on the chain is the parent of the k-th. */
  lemma {:induction false} UpNext(t: Table, x: Pid, k: nat)
    requires ParentsClosed(t) && x in t
    ensures Up(t, x, k + 1) == t[Up(t, x, k)].parent
    decreases k
  {
    if k > 0 {
      UpNext(t, t[x].parent, k - 1);
    }
  }

  /** A chain one longer ends in the next process up. */
  lemma {:induction false} ChainSnoc(t: Table, x: Pid, k: nat)
    requires ParentsClosed(t) && x in t
    ensures Chain(t, x, k + 1) == Chain(t, x, k) + [Up(t, x, k)]
    decreases k
  {
    if k > 0 {
      ChainSnoc(t, t[x].parent, k - 1);
    }
  }

  /** The pids the walk of sys_set_sec_branch visits in n steps, in order:
      the first n ancestors of p, starting at its parent. */
  function Ancestors(t: Table, p: Pid, n: nat): (r: seq<Pid>)
    requires ParentsClosed(t) && p in t
  {
    Chain(t, t[p].parent, n)
  }

  /** The walk visits exactly n live processes: the parent of p first, and
      after each one its parent. */
  lemma AncestorsWalk(t: Table, p: Pid, n: nat)
    requires ParentsClosed(t) && p in t
    ensures var a := Ancestors(t, p, n);
            |a| == n
            && (n > 0 ==> a[0] == t[p].parent)
            && (forall j | 0 <= j < n :: a[j] in t)
            && (forall j | 0 <= j < n - 1 :: a[j + 1] == t[a[j]].parent)
  {
    assert t[p].parent in t;
    var a := Ancestors(t, p, n);
    forall j | 0 <= j < n - 1
      ensures a[j + 1] == t[a[j]].parent
    {
      ChainLinks(t, t[p].parent, n, j);
    }
  }

  /** The distinct members of a sequence. */
  function Elems(s: seq<Pid>): (r: set<Pid>)
    ensures forall k :: 0 <= k < |s| ==> s[k] in r
    ensures forall x :: x in r ==> x in s
  {
    set x | x in s
  }

  lemma ElemsSnoc(c: seq<Pid>, x: Pid)
    ensures Elems(c + [x]) == Elems(c) + {x}
  {
    assert forall y :: y in c + [x] <==> y in c || y == x;
  }

  lemma {:induction false} ElemsBound(s: seq<Pid>)
    ensures |Elems(s)| <= |s|
  {
    if s != [] {
      ElemsBound(s[1..]);
      assert Elems(s) == Elems(s[1..]) + {s[0]};
    }
  }

  /** The table with f or-ed into the clearance of every process of s and
      nothing else changed: each process of s ends up holding f with its
      other bits and its parent link as before, a process that already held
      f is untouched, and every process outside s is untouched. */
  function GrantAll(t: Table, s: set<Pid>, f: Flag): (r: Table)
    ensures r.Keys == t.Keys
    ensures forall p {:trigger r[p]} | p in r && p in s :: r[p] == t[p].(clearance := Grant(t[p].clearance, f))
    ensures forall p {:trigger r[p]} | p in r && p !in s :: r[p] == t[p]
  {
    map p | p in t :: if p in s then t[p].(clearance := Grant(t[p].clearance, f)) else t[p]
  }

  /** Granting never removes a pid, never changes a parent link and so
      keeps the table closed under parents. */
  lemma GrantAllKeepsParents(t: Table, s: set<Pid>, f: Flag)
    ensures var r := GrantAll(t, s, f);
            (forall p {:trigger r[p]} | p in r :: r[p].parent == t[p].parent)
            && (ParentsClosed(t) ==> ParentsClosed(r))
  {
    var r := GrantAll(t, s, f);
    forall p | p in r ensures r[p].parent == t[p].parent {}
  }

  lemma SubsetCard(a: set<Pid>, b: set<Pid>)
    requires a <= b
    ensures |a| <= |b|
  {
    assert b == a + (b - a);
    assert a * (b - a) == {};
  }

  /** The processes of s that lack f in t. */
  function Lacking(t: Table, s: set<Pid>, f: Flag): set<Pid>
  {
    set p | p in s && p in t && !Has(t[p].clearance, f)
  }

  /** The processes whose f bit went from 0 in `before` to 1 in `after`. */
  function Flipped(before: Table, after: Table, f: Flag): set<Pid>
  {
    set p | p in before && p in after && !Has(before[p].clearance, f) && Has(after[p].clearance, f)
  }

  /** Tables with the same pids and parent links have the same chains. */
  lemma {:induction false} ChainSameParents(t: Table, u: Table, x: Pid, k: nat)
    requires ParentsClosed(t) && x in t
    requires u.Keys == t.Keys
    requires forall q {:trigger u[q]} | q in t :: u[q].parent == t[q].parent
    ensures ParentsClosed(u)
    ensures Chain(u, x, k) == Chain(t, x, k)
    decreases k
  {
    assert ParentsClosed(u) by {
      forall q | q in u ensures u[q].parent in u {
        assert t[q].parent in t;
      }
    }
    if k > 0 {
      ChainSameParents(t, u, t[x].parent, k - 1);
    }
  }

  /** Granting to no process changes nothing and finds no process lacking. */
  lemma GrantNone(t: Table, f: Flag)
    ensures GrantAll(t, {}, f) == t && Lacking(t, {}, f) == {}
  {
    var r := GrantAll(t, {}, f);
    forall q | q in r ensures r[q] == t[q] {}
  }

  /** One iteration of the walk of sys_set_sec_branch: from the table with
      f granted to the processes of s, granting to x as well is a single
      update, none if x already holds f and otherwise f or-ed into x's mask;
      the processes lacking f grow by x exactly in the second case. */
  lemma GrantStep(t0: Table, s: set<Pid>, t: Table, x: Pid, f: Flag)
    requires x in t0 && t == GrantAll(t0, s, f)
    ensures x in t && t[x].parent == t0[x].parent
    ensures !Has(t[x].clearance, f) ==>
              GrantAll(t0, s + {x}, f) == t[x := t[x].(clearance := t[x].clearance | Bit(f))]
              && Lacking(t0, s + {x}, f) == Lacking(t0, s, f) + {x}
              && x !in Lacking(t0, s, f)
    ensures Has(t[x].clearance, f) ==>
              GrantAll(t0, s + {x}, f) == t && Lacking(t0, s + {x}, f) == Lacking(t0, s, f)
  {
    if x in s {
      assert t[x].clearance == Grant(t0[x].clearance, f);
    } else {
      assert t[x] == t0[x];
    }
    var w := GrantAll(t0, s + {x}, f);
    if Has(t[x].clearance, f) {
      forall q | q in w ensures w[q] == t[q] {
        if q == x && x !in s {
          assert Grant(t0[x].clearance, f) == t0[x].clearance;
        }
      }
    } else {
      var u := t[x := t[x].(clearance := t[x].clearance | Bit(f))];
      forall q | q in w ensures w[q] == u[q] {}
    }
  }

  /** The state of the walk of sys_set_sec_branch after i iterations from
      `start`: it stands at the i-th process of the chain, f has been
      granted to the first i processes, and the count is the number of those
      that lacked f. */
  predicate WalkState(t0: Table, start: Pid, f: Flag, i: nat, x: Pid, t: Table, count: int)
    requires ParentsClosed(t0) && start in t0
  {
    x == Up(t0, start, i) && x in t
    && t == GrantAll(t0, Elems(Chain(t0, start, i)), f)
    && count == |Lacking(t0, Elems(Chain(t0, start, i)), f)|
  }

  /** Before the first iteration the walk stands at `start`, nothing is
      granted and nothing counted (`updated_count = 0`). */
  lemma WalkStart(t0: Table, start: Pid, f: Flag)
    requires ParentsClosed(t0) && start in t0
    ensures WalkState(t0, start, f, 0, start, t0, 0)
  {
    assert Elems(Chain(t0, start, 0)) == {};
    GrantNone(t0, f);
  }

  /** One iteration of the walk at a process that lacks f: f is or-ed into
      its mask, the count grows by one and the walk moves on to its parent,
      which is the state after i + 1 iterations. */
  lemma WalkGrant(t0: Table, start: Pid, f: Flag, i: nat, x: Pid, t: Table, count: int)
    requires ParentsClosed(t0) && start in t0
    requires WalkState(t0, start, f, i, x, t, count) && !Has(t[x].clearance, f)
    ensures var granted := t[x := t[x].(clearance := t[x].clearance | Bit(f))];
            WalkState(t0, start, f, i + 1, granted[x].parent, granted, count + 1)
  {
    var visited := Elems(Chain(t0, start, i));
    GrantStep(t0, visited, t, x, f);
    ChainSnoc(t0, start, i);
    ElemsSnoc(Chain(t0, start, i), x);
    UpNext(t0, start, i);
    assert |Lacking(t0, visited, f) + {x}| == |Lacking(t0, visited, f)| + 1;
  }

  /** One iteration of the walk at a process that already holds f: nothing
      changes and the walk moves on to its parent, which is the state after
      i + 1 iterations. */
  lemma WalkSkip(t0: Table, start: Pid, f: Flag, i: nat, x: Pid, t: Table, count: int)
    requires ParentsClosed(t0) && start in t0
    requires WalkState(t0, start, f, i, x, t, count) && Has(t[x].clearance, f)
    ensures WalkState(t0, start, f, i + 1, t[x].parent, t, count)
  {
    var visited := Elems(Chain(t0, start, i));
    GrantStep(t0, visited, t, x, f);
    ChainSnoc(t0, start, i);
    ElemsSnoc(Chain(t0, start, i), x);
    UpNext(t0, start, i);
  }

  /** What a completed walk of n iterations from the parent of p amounts
      to: the table is Propagate's, so it is still closed under parents and
      p's own entry is unchanged, and the count is the number of processes
      whose bit f went from 0 to 1, at most n. */
  lemma WalkOutcome(t0: Table, p: Pid, n: nat, f: Flag, t: Table, count: int)
    requires ParentsClosed(t0) && p in t0 && Has(t0[p].clearance, f)
    requires t == GrantAll(t0, Elems(Chain(t0, t0[p].parent, n)), f)
    requires count == |Lacking(t0, Elems(Chain(t0, t0[p].parent, n)), f)|
    ensures t == Propagate(t0, p, n, f)
    ensures ParentsClosed(t) && p in t && t[p] == t0[p]
    ensures count == |Flipped(t0, t, f)| && 0 <= count <= n
  {
    PropagateKeepsTree(t0, p, n, f);
    PropagateFlips(t0, p, n, f);
    PropagateEffect(t0, p, n, f, p);
  }

  /** The effect sys_set_sec_branch has on the table: f granted to the first
      n ancestors of p. */
  function Propagate(t: Table, p: Pid, n: nat, f: Flag): Table
    requires ParentsClosed(t) && p in t
  {
    GrantAll(t, Elems(Ancestors(t, p, n)), f)
  }

  /** Propagation keeps the pids and every parent link, so the table stays
      closed under parents. */
  lemma PropagateKeepsTree(t: Table, p: Pid, n: nat, f: Flag)
    requires ParentsClosed(t) && p in t
    ensures var r := Propagate(t, p, n, f);
            ParentsClosed(r) && r.Keys == t.Keys
            && (forall q {:trigger r[q]} | q in r :: r[q].parent == t[q].parent)
  {
    GrantAllKeepsParents(t, Elems(Ancestors(t, p, n)), f);
  }

  /** Every ancestor visited holds f afterwards, with its other bits as
      before; no process loses a bit; a process that already held f and
      every process off the visited chain are untouched. */
  lemma PropagateEffect(t: Table, p: Pid, n: nat, f: Flag, q: Pid)
    requires ParentsClosed(t) && p in t && q in t
    ensures var r := Propagate(t, p, n, f);
            var anc := Ancestors(t, p, n);
            q in r
            && (q in anc ==> Has(r[q].clearance, f))
            && (forall g | g != f :: Has(r[q].clearance, g) <==> Has(t[q].clearance, g))
            && r[q].clearance & t[q].clearance == t[q].clearance
            && (Has(t[q].clearance, f) || q !in anc ==> r[q] == t[q])
  {
    var anc := Ancestors(t, p, n);
    var r := Propagate(t, p, n, f);
    if q in Elems(anc) {
      assert r[q].clearance == Grant(t[q].clearance, f);
    } else {
      assert r[q] == t[q];
    }
  }

  /** The processes whose bit f propagation turns on are exactly the visited
      ancestors that lacked it; there are at most as many as distinct
      ancestors visited, and at most n. */
  lemma PropagateFlips(t: Table, p: Pid, n: nat, f: Flag)
    requires ParentsClosed(t) && p in t
    ensures var anc := Ancestors(t, p, n);
            Flipped(t, Propagate(t, p, n, f), f) == Lacking(t, Elems(anc), f)
            && |Lacking(t, Elems(anc), f)| <= |Elems(anc)| <= n
  {
    var anc := Ancestors(t, p, n);
    var s := Elems(anc);
    var r := Propagate(t, p, n, f);
    assert r == GrantAll(t, s, f);
    forall q ensures q in Flipped(t, r, f) <==> q in Lacking(t, s, f) {
      if q in t {
        if q in s {
          assert r[q].clearance == Grant(t[q].clearance, f);
        } else {
          assert r[q] == t[q];
        }
      }
    }
    SubsetCard(Lacking(t, s, f), s);
    ElemsBound(anc);
  }

  /** Propagating again along the same chain changes nothing and turns no bit
      on: a repeated sys_set_sec_branch returns 0. */
  lemma PropagateIdempotent(t: Table, p: Pid, n: nat, f: Flag)
    requires ParentsClosed(t) && p in t
    ensures var r := Propagate(t, p, n, f);
            Ancestors(r, p, n) == Ancestors(t, p, n)
            && Propagate(r, p, n, f) == r
            && Flipped(r, Propagate(r, p, n, f), f) == {}
  {
    var r := Propagate(t, p, n, f);
    PropagateKeepsTree(t, p, n, f);
    ChainSameParents(t, r, t[p].parent, n);
    var s := Elems(Ancestors(t, p, n));
    var r2 := GrantAll(r, s, f);
    forall q | q in r2 ensures r2[q] == r[q] {
      if q in s {
        assert Has(r[q].clearance, f);
      }
    }
  }

  /** A concrete walk: the idle task 0 is its own parent, init (pid 1) is
      its child and process 2 is init's child; nobody holds sword. A walk of
      height 2 from process 2 visits init and then the idle task and turns
      both bits on. */
  lemma IdleTaskWalk()
    ensures var t := map[0 := Task(0, 0), 1 := Task(0, 0), 2 := Task(1, 1)];
            ParentsClosed(t)
            && Ancestors(t, 2, 2) == [1, 0]
            && Flipped(t, Propagate(t, 2, 2, Sword), Sword) == {0, 1}
  {
    var t := map[0 := Task(0, 0), 1 := Task(0, 0), 2 := Task(1, 1)];
    assert Ancestors(t, 2, 2) == [1, 0];
    PropagateFlips(t, 2, 2, Sword);
    assert Elems([1, 0]) == {0, 1};
  }
}
