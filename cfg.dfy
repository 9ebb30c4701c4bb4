/** The control-flow graph: basic blocks, graph construction from the statement
    tree, traversal, gen/kill, the liveness fixpoint and spilling.

    Blocks live in one arena, `NodeStore.nodes`, and are named by their index
    there; an index plays the part of the Python object identity of a block. */
module Cfg {
  import opened Common
  import opened IR

  /** A basic block: its element list, its label once one was asked for (the
      label text is 'l' followed by this number), its successors in
      construction order, and its four dataflow sets. */
  datatype Node = Node(stmts: seq<Entry>, labelNo: Option<nat>, children: seq<nat>,
                       gen: set<Variable>, kill: set<Variable>,
                       livein: set<Variable>, liveout: set<Variable>)

  const EmptyNode := Node([], None, [], {}, {}, {}, {})

  /** Every successor index names a block of the arena. */
  predicate ChildrenInRange(ns: seq<Node>) {
    forall i, k :: 0 <= i < |ns| && 0 <= k < |ns[i].children| ==> ns[i].children[k] < |ns|
  }

  /** Labels handed out so far are below the counter and pairwise different. */
  predicate LabelsDistinct(ns: seq<Node>, counter: nat) {
    && (forall i :: 0 <= i < |ns| && ns[i].labelNo.Some? ==> ns[i].labelNo.value < counter)
    && (forall i, j :: 0 <= i < |ns| && 0 <= j < |ns| && i != j && ns[i].labelNo.Some? && ns[j].labelNo.Some?
          ==> ns[i].labelNo.value != ns[j].labelNo.value)
  }

  // ---------------------------------------------------------------------------
  // gen and kill of an element list, read left to right.

  /** The union of what the assignments of the list define. */
  function KillOf(ss: seq<Entry>): set<Variable> {
    if ss == [] then {} else KillOf(ss[..|ss| - 1]) + EntryDefines(ss[|ss| - 1])
  }

  /** Each element's uses, minus what `killed` and the earlier elements define. */
  function GenOf(ss: seq<Entry>, killed: set<Variable>): set<Variable> {
    if ss == [] then {}
    else GenOf(ss[..|ss| - 1], killed) + (EntryUses(ss[|ss| - 1]) - (killed + KillOf(ss[..|ss| - 1])))
  }

  lemma {:induction false} KillExactly(ss: seq<Entry>, v: Variable)
    ensures v in KillOf(ss) <==> exists i :: 0 <= i < |ss| && IsAssign(ss[i]) && ss[i].s.target.Var() == v
  {
    if ss != [] {
      var p := ss[..|ss| - 1];
      KillExactly(p, v);
      assert forall i :: 0 <= i < |p| ==> p[i] == ss[i];
    }
  }

  /** A variable is killed exactly when some element defines it. */
  lemma {:induction false} KillDefines(ss: seq<Entry>, v: Variable)
    ensures v in KillOf(ss) <==> exists j :: 0 <= j < |ss| && v in EntryDefines(ss[j])
  {
    if ss != [] {
      var p := ss[..|ss| - 1];
      KillDefines(p, v);
      assert forall i :: 0 <= i < |p| ==> p[i] == ss[i];
    }
  }

  /** A variable is in gen exactly when some element reads it and neither
      `killed` nor any earlier element of the block writes it. */
  lemma {:induction false} GenExactly(ss: seq<Entry>, killed: set<Variable>, v: Variable)
    ensures v in GenOf(ss, killed) <==>
            v !in killed &&
            exists i :: 0 <= i < |ss| && v in EntryUses(ss[i]) &&
                        forall j :: 0 <= j < i ==> v !in EntryDefines(ss[j])
  {
    if ss != [] {
      var n := |ss| - 1;
      var p := ss[..n];
      GenExactly(p, killed, v);
      assert forall i :: 0 <= i < |p| ==> p[i] == ss[i];
      KillDefines(p, v);
    }
  }

  /** More already-killed variables can only shrink gen. */
  lemma {:induction false} GenAntitone(ss: seq<Entry>, k1: set<Variable>, k2: set<Variable>)
    requires k1 <= k2
    ensures GenOf(ss, k2) <= GenOf(ss, k1)
  {
    if ss != [] {
      GenAntitone(ss[..|ss| - 1], k1, k2);
    }
  }

  /** The block after `fill`: gen and kill are extended, never cleared, and
      livein becomes a copy of gen. */
  function Filled(n: Node): Node {
    var g := n.gen + GenOf(n.stmts, n.kill);
    n.(gen := g, kill := n.kill + KillOf(n.stmts), livein := g)
  }

  /** Running `fill` a second time on an unchanged block changes nothing. */
  lemma RefillIsNoOp(n: Node)
    ensures Filled(Filled(n)) == Filled(n)
  {
    var f := Filled(n);
    GenAntitone(n.stmts, n.kill, f.kill);
    assert f.kill + KillOf(n.stmts) == f.kill;
  }

  /** On a block whose gen and kill are still empty, `fill` gives the textbook
      sets: gen is what is read before any write in the block, kill what is
      assigned anywhere in it. */
  lemma FillFromScratch(n: Node, v: Variable)
    requires n.gen == {} && n.kill == {}
    ensures v in Filled(n).gen <==>
            exists i :: 0 <= i < |n.stmts| && v in EntryUses(n.stmts[i]) &&
                        forall j :: 0 <= j < i ==> v !in EntryDefines(n.stmts[j])
    ensures v in Filled(n).kill <==>
            exists i :: 0 <= i < |n.stmts| && IsAssign(n.stmts[i]) && n.stmts[i].s.target.Var() == v
    ensures Filled(n).livein == Filled(n).gen
  {
    GenExactly(n.stmts, {}, v);
    KillExactly(n.stmts, v);
  }

  // ---------------------------------------------------------------------------
  // One liveness step of a block.

  /** The union of the livein sets of the listed successors. */
  function ChildrenLiveIn(ns: seq<Node>, cs: seq<nat>): set<Variable>
    requires forall k :: 0 <= k < |cs| ==> cs[k] < |ns|
  {
    if cs == [] then {} else ChildrenLiveIn(ns, cs[..|cs| - 1]) + ns[cs[|cs| - 1]].livein
  }

  lemma {:induction false} ChildrenLiveInExactly(ns: seq<Node>, cs: seq<nat>, v: Variable)
    requires forall k :: 0 <= k < |cs| ==> cs[k] < |ns|
    ensures v in ChildrenLiveIn(ns, cs) <==> exists k :: 0 <= k < |cs| && v in ns[cs[k]].livein
  {
    if cs != [] {
      var p := cs[..|cs| - 1];
      ChildrenLiveInExactly(ns, p, v);
      assert forall k :: 0 <= k < |p| ==> p[k] == cs[k];
    }
  }

  /** A block with `v` taken out of gen and kill. */
  function Spilled(n: Node, v: Variable): Node {
    n.(gen := n.gen - {v}, kill := n.kill - {v})
  }

  /** The block `i` after one `liveness()` step on the arena `ns`. */
  function LiveStep(ns: seq<Node>, i: nat): Node
    requires i < |ns| && ChildrenInRange(ns)
  {
    var out := ChildrenLiveIn(ns, ns[i].children);
    ns[i].(liveout := out, livein := ns[i].gen + (out - ns[i].kill))
  }

  // ---------------------------------------------------------------------------
  // Lists of blocks and paths through the graph.

  /** The indices below `n`, the measure the traversals shrink. */
  function Indices(n: nat): (r: set<nat>)
    ensures forall x: nat :: x in r <==> x < n
  {
    if n == 0 then {} else Indices(n - 1) + {n - 1}
  }

  function Elems(l: seq<nat>): set<nat> {
    set x | x in l
  }

  lemma ElemsStep(l: seq<nat>, k: nat)
    requires k < |l|
    ensures Elems(l[..k + 1]) == Elems(l[..k]) + {l[k]} && l[k] in Elems(l)
  {
    assert l[..k + 1] == l[..k] + [l[k]];
  }

  lemma Shrinks(u: set<nat>, a: set<nat>, b: set<nat>, n: nat)
    requires a <= b && n in b && n !in a && n in u
    ensures u - b < u - a
  {
    assert n in u - a && n !in u - b;
  }

  predicate InRange(ns: seq<Node>, l: seq<nat>) {
    forall j :: 0 <= j < |l| ==> l[j] < |ns|
  }

  /** `c in l` for a list of blocks: blocks compare as the lists of elements
      they are, so any listed block with the same elements counts. */
  predicate Covered(ns: seq<Node>, l: seq<nat>, c: nat)
    requires InRange(ns, l) && c < |ns|
  {
    exists j :: 0 <= j < |l| && ns[l[j]].stmts == ns[c].stmts
  }

  /** No two listed blocks have the same elements. */
  predicate ContentsDistinct(ns: seq<Node>, l: seq<nat>)
    requires InRange(ns, l)
  {
    forall i, j :: 0 <= i < j < |l| ==> ns[l[i]].stmts != ns[l[j]].stmts
  }

  /** Every successor of a block listed at position `from` or later is covered
      by the list. */
  predicate ClosedFrom(ns: seq<Node>, l: seq<nat>, from: nat)
    requires InRange(ns, l) && ChildrenInRange(ns)
  {
    forall k, m :: from <= k < |l| && 0 <= m < |ns[l[k]].children| ==> Covered(ns, l, ns[l[k]].children[m])
  }

  /** `p` follows successor edges. */
  predicate IsPath(ns: seq<Node>, p: seq<nat>) {
    && |p| > 0
    && (forall i :: 0 <= i < |p| ==> p[i] < |ns|)
    && (forall i :: 0 <= i < |p| - 1 ==> p[i + 1] in ns[p[i]].children)
  }

  ghost predicate Reachable(ns: seq<Node>, a: nat, b: nat) {
    exists p :: IsPath(ns, p) && p[0] == a && p[|p| - 1] == b
  }

  lemma CoveredMono(ns: seq<Node>, l: seq<nat>, l2: seq<nat>, c: nat)
    requires InRange(ns, l2) && |l| <= |l2| && l2[..|l|] == l && c < |ns|
    requires Covered(ns, l, c)
    ensures Covered(ns, l2, c)
  {
    var j :| 0 <= j < |l| && ns[l[j]].stmts == ns[c].stmts;
    assert l2[j] == l[j];
  }

  lemma ClosedMono(ns: seq<Node>, l: seq<nat>, l2: seq<nat>, from: nat)
    requires ChildrenInRange(ns) && InRange(ns, l2) && |l| <= |l2| && l2[..|l|] == l
    requires ClosedFrom(ns, l, from)
    ensures forall k, m :: from <= k < |l| && 0 <= m < |ns[l2[k]].children| ==>
              Covered(ns, l2, ns[l2[k]].children[m])
  {
    forall k, m | from <= k < |l| && 0 <= m < |ns[l2[k]].children|
      ensures Covered(ns, l2, ns[l2[k]].children[m])
    {
      assert l2[k] == l[k];
      CoveredMono(ns, l, l2, ns[l[k]].children[m]);
    }
  }

  lemma ReachPrepend(ns: seq<Node>, a: nat, b: nat, x: nat)
    requires a < |ns| && b in ns[a].children && Reachable(ns, b, x)
    ensures Reachable(ns, a, x)
  {
    var p :| IsPath(ns, p) && p[0] == b && p[|p| - 1] == x;
    var q := [a] + p;
    assert forall i :: 0 <= i < |q| - 1 ==> q[i + 1] in ns[q[i]].children by {
      forall i | 0 <= i < |q| - 1 ensures q[i + 1] in ns[q[i]].children {
        if i > 0 { assert q[i] == p[i - 1] && q[i + 1] == p[i]; }
      }
    }
    assert IsPath(ns, q);
  }

  lemma ElemsPrefix(l: seq<nat>, r: seq<nat>)
    requires |l| <= |r| && r[..|l|] == l
    ensures Elems(l) <= Elems(r)
  {
    forall x | x in l ensures x in r {
      var j :| 0 <= j < |l| && l[j] == x;
      assert r[j] == x;
    }
  }

  /** The list `getBlocks(l, n)` leaves: `l` itself when a block with the
      elements of `n` is already listed; otherwise `l`, then `n`, then what
      the successors of `n` add, one after the other, each from the list the
      previous one left (depth-first pre-order). */
  ghost function Dfs(ns: seq<Node>, l: seq<nat>, n: nat): (r: seq<nat>)
    requires ChildrenInRange(ns) && n < |ns| && InRange(ns, l)
    ensures InRange(ns, r) && |l| <= |r| && r[..|l|] == l
    decreases Indices(|ns|) - Elems(l), 0
  {
    if Covered(ns, l, n) then l
    else
      PartialShrinks(ns, l, n, l + [n]);
      var r := DfsChildren(ns, l + [n], n, 0);
      assert r[..|l|] == r[..|l| + 1][..|l|];
      r
  }

  /** The rest of `getBlocks` on block `n` once its first `m` successors have
      been explored and the list is `acc`. */
  ghost function DfsChildren(ns: seq<Node>, acc: seq<nat>, n: nat, m: nat): (r: seq<nat>)
    requires ChildrenInRange(ns) && n < |ns| && InRange(ns, acc) && m <= |ns[n].children|
    ensures InRange(ns, r) && |acc| <= |r| && r[..|acc|] == acc
    decreases Indices(|ns|) - Elems(acc), |ns[n].children| - m + 1
  {
    if m == |ns[n].children| then acc
    else
      var acc' := Dfs(ns, acc, ns[n].children[m]);
      ElemsPrefix(acc, acc');
      var r := DfsChildren(ns, acc', n, m + 1);
      assert r[..|acc|] == r[..|acc'|][..|acc|];
      r
  }

  /** Exploring successor `m` from the list `acc` and then the rest from the
      list it leaves is exploring the successors from `m` on. */
  lemma DfsNext(ns: seq<Node>, acc: seq<nat>, n: nat, m: nat, acc': seq<nat>)
    requires ChildrenInRange(ns) && n < |ns| && InRange(ns, acc) && m < |ns[n].children|
    requires acc' == Dfs(ns, acc, ns[n].children[m])
    ensures DfsChildren(ns, acc, n, m) == DfsChildren(ns, acc', n, m + 1)
  {
  }

  /** What `getBlocks(l, n)` returns, `r`: the depth-first pre-order list
      `Dfs`, which is `l` extended by the blocks reachable from `n` that `l`
      does not cover, `n` first, closed under successors, and without two
      blocks of equal contents when `l` had none. */
  ghost predicate BlocksOf(ns: seq<Node>, l: seq<nat>, n: nat, r: seq<nat>)
    requires ChildrenInRange(ns) && n < |ns| && InRange(ns, l)
  {
    && r == Dfs(ns, l, n)
    && InRange(ns, r) && |l| <= |r| && r[..|l|] == l
    && Covered(ns, r, n)
    && (Covered(ns, l, n) ==> r == l)
    && (!Covered(ns, l, n) ==> |r| > |l| && r[|l|] == n)
    && ClosedFrom(ns, r, |l|)
    && (ContentsDistinct(ns, l) ==> ContentsDistinct(ns, r))
    && (forall k :: |l| <= k < |r| ==> Reachable(ns, n, r[k]))
  }

  /** The state of `getBlocks(l, n)` after `n` was appended and its first `m`
      successors were explored. */
  ghost predicate PartialBlocks(ns: seq<Node>, l: seq<nat>, n: nat, r: seq<nat>, m: nat)
    requires ChildrenInRange(ns) && n < |ns| && InRange(ns, l)
  {
    && m <= |ns[n].children|
    && !Covered(ns, l, n)
    && InRange(ns, r) && |l| < |r| && r[..|l| + 1] == l + [n]
    && (forall mm :: 0 <= mm < m ==> Covered(ns, r, ns[n].children[mm]))
    && ClosedFrom(ns, r, |l| + 1)
    && (ContentsDistinct(ns, l) ==> ContentsDistinct(ns, r))
    && (forall k :: |l| <= k < |r| ==> Reachable(ns, n, r[k]))
  }

  lemma BlocksStart(ns: seq<Node>, l: seq<nat>, n: nat)
    requires ChildrenInRange(ns) && n < |ns| && InRange(ns, l) && !Covered(ns, l, n)
    ensures PartialBlocks(ns, l, n, l + [n], 0)
  {
    var r := l + [n];
    assert IsPath(ns, [n]);
    assert Reachable(ns, n, r[|l|]);
    assert ClosedFrom(ns, r, |l| + 1);
    if ContentsDistinct(ns, l) {
      forall i, j | 0 <= i < j < |r| ensures ns[r[i]].stmts != ns[r[j]].stmts {
        if j == |l| {
          assert r[i] == l[i];
        } else {
          assert r[i] == l[i] && r[j] == l[j];
        }
      }
    }
  }

  lemma PartialShrinks(ns: seq<Node>, l: seq<nat>, n: nat, r: seq<nat>)
    requires n < |ns| && InRange(ns, l) && !Covered(ns, l, n)
    requires |l| < |r| && r[..|l| + 1] == l + [n]
    ensures Indices(|ns|) - Elems(r) < Indices(|ns|) - Elems(l)
  {
    assert forall j :: 0 <= j < |l| ==> r[j] == r[..|l| + 1][j] == l[j];
    assert Elems(l) <= Elems(r);
    assert r[|l|] == n by {
      assert r[..|l| + 1][|l|] == n;
    }
    assert forall j :: 0 <= j < |l| ==> l[j] != n;
    assert n !in Elems(l);
    Shrinks(Indices(|ns|), Elems(l), Elems(r), n);
  }

  lemma BlocksStep(ns: seq<Node>, l: seq<nat>, n: nat, r: seq<nat>, m: nat, r2: seq<nat>)
    requires ChildrenInRange(ns) && n < |ns| && InRange(ns, l) && PartialBlocks(ns, l, n, r, m)
    requires m < |ns[n].children| && BlocksOf(ns, r, ns[n].children[m], r2)
    ensures PartialBlocks(ns, l, n, r2, m + 1)
  {
    var cs := ns[n].children;
    forall mm | 0 <= mm < m + 1 ensures Covered(ns, r2, cs[mm]) {
      if mm < m {
        CoveredMono(ns, r, r2, cs[mm]);
      }
    }
    ClosedMono(ns, r, r2, |l| + 1);
    forall k | |l| <= k < |r2| ensures Reachable(ns, n, r2[k]) {
      if k < |r| {
        assert r2[k] == r[k];
      } else {
        ReachPrepend(ns, n, cs[m], r2[k]);
      }
    }
    assert r2[..|l| + 1] == r2[..|r|][..|l| + 1];
  }

  /** The loop of `getBlocks` on `n` after `m` successors: the state
      `PartialBlocks` describes, and what is left to do yields `Dfs(ns, l, n)`. */
  ghost predicate Explored(ns: seq<Node>, l: seq<nat>, n: nat, r: seq<nat>, m: nat)
    requires ChildrenInRange(ns) && n < |ns| && InRange(ns, l)
  {
    PartialBlocks(ns, l, n, r, m) && DfsChildren(ns, r, n, m) == Dfs(ns, l, n)
  }

  lemma ExploreStart(ns: seq<Node>, l: seq<nat>, n: nat)
    requires ChildrenInRange(ns) && n < |ns| && InRange(ns, l) && !Covered(ns, l, n)
    ensures Explored(ns, l, n, l + [n], 0)
  {
    BlocksStart(ns, l, n);
  }

  lemma ExploreStep(ns: seq<Node>, l: seq<nat>, n: nat, r: seq<nat>, m: nat, r2: seq<nat>)
    requires ChildrenInRange(ns) && n < |ns| && InRange(ns, l) && Explored(ns, l, n, r, m)
    requires m < |ns[n].children| && BlocksOf(ns, r, ns[n].children[m], r2)
    ensures Explored(ns, l, n, r2, m + 1)
  {
    BlocksStep(ns, l, n, r, m, r2);
    DfsNext(ns, r, n, m, r2);
  }

  lemma BlocksCovered(ns: seq<Node>, l: seq<nat>, n: nat)
    requires ChildrenInRange(ns) && n < |ns| && InRange(ns, l) && Covered(ns, l, n)
    ensures BlocksOf(ns, l, n, l)
  {
    assert l[..|l|] == l;
  }

  lemma BlocksEnd(ns: seq<Node>, l: seq<nat>, n: nat, r: seq<nat>)
    requires ChildrenInRange(ns) && n < |ns| && InRange(ns, l) && Explored(ns, l, n, r, |ns[n].children|)
    ensures BlocksOf(ns, l, n, r)
  {
    assert r[..|l|] == l;
    assert r[|l|] == n;
  }

  /** Two arenas with the same blocks up to their dataflow sets and labels:
      the same elements and the same successors, block by block. */
  predicate SameSkeleton(ns: seq<Node>, ns': seq<Node>) {
    && |ns| == |ns'|
    && forall i :: 0 <= i < |ns| ==> ns[i].stmts == ns'[i].stmts && ns[i].children == ns'[i].children
  }

  /** The traversal reads only elements and successors, so arenas with the
      same skeleton list the same blocks. */
  lemma {:induction false} DfsSkeleton(ns: seq<Node>, ns': seq<Node>, l: seq<nat>, n: nat)
    requires ChildrenInRange(ns) && n < |ns| && InRange(ns, l) && SameSkeleton(ns, ns')
    ensures ChildrenInRange(ns') && Dfs(ns, l, n) == Dfs(ns', l, n)
    decreases Indices(|ns|) - Elems(l), 0
  {
    if Covered(ns, l, n) {
      var j :| 0 <= j < |l| && ns[l[j]].stmts == ns[n].stmts;
      assert ns'[l[j]].stmts == ns'[n].stmts;
    } else {
      PartialShrinks(ns, l, n, l + [n]);
      DfsChildrenSkeleton(ns, ns', l + [n], n, 0);
    }
  }

  lemma {:induction false} DfsChildrenSkeleton(ns: seq<Node>, ns': seq<Node>, acc: seq<nat>, n: nat, m: nat)
    requires ChildrenInRange(ns) && n < |ns| && InRange(ns, acc) && m <= |ns[n].children| && SameSkeleton(ns, ns')
    ensures ChildrenInRange(ns') && DfsChildren(ns, acc, n, m) == DfsChildren(ns', acc, n, m)
    decreases Indices(|ns|) - Elems(acc), |ns[n].children| - m + 1
  {
    if m < |ns[n].children| {
      var acc' := Dfs(ns, acc, ns[n].children[m]);
      DfsSkeleton(ns, ns', acc, ns[n].children[m]);
      ElemsPrefix(acc, acc');
      DfsChildrenSkeleton(ns, ns', acc', n, m + 1);
    }
  }

  lemma CoveredSkeleton(ns: seq<Node>, ns': seq<Node>, l: seq<nat>, c: nat)
    requires InRange(ns, l) && c < |ns| && SameSkeleton(ns, ns')
    ensures Covered(ns, l, c) <==> Covered(ns', l, c)
  {
    if Covered(ns', l, c) {
      var j :| 0 <= j < |l| && ns'[l[j]].stmts == ns'[c].stmts;
      assert ns[l[j]].stmts == ns[c].stmts;
    }
  }

  lemma ReachableSkeleton(ns: seq<Node>, ns': seq<Node>, a: nat, b: nat)
    requires SameSkeleton(ns, ns') && Reachable(ns, a, b)
    ensures Reachable(ns', a, b)
  {
    var p :| IsPath(ns, p) && p[0] == a && p[|p| - 1] == b;
    assert IsPath(ns', p);
  }

  /** The whole of `BlocksOf` carries over to an arena with the same skeleton. */
  lemma BlocksOfSkeleton(ns: seq<Node>, ns': seq<Node>, l: seq<nat>, n: nat, r: seq<nat>)
    requires ChildrenInRange(ns) && n < |ns| && InRange(ns, l) && SameSkeleton(ns, ns')
    requires BlocksOf(ns, l, n, r)
    ensures ChildrenInRange(ns') && BlocksOf(ns', l, n, r)
  {
    DfsSkeleton(ns, ns', l, n);
    CoveredSkeleton(ns, ns', r, n);
    CoveredSkeleton(ns, ns', l, n);
    forall k, m | |l| <= k < |r| && 0 <= m < |ns'[r[k]].children|
      ensures Covered(ns', r, ns'[r[k]].children[m])
    {
      CoveredSkeleton(ns, ns', r, ns[r[k]].children[m]);
    }
    assert ContentsDistinct(ns, l) <==> ContentsDistinct(ns', l);
    assert ContentsDistinct(ns, r) <==> ContentsDistinct(ns', r);
    forall k | |l| <= k < |r| ensures Reachable(ns', n, r[k]) {
      ReachableSkeleton(ns, ns', n, r[k]);
    }
  }

  predicate IsReturn(en: Entry) {
    en.Stmt? && en.s.Return?
  }

  predicate HasReturnStmt(ss: seq<Entry>) {
    exists k :: 0 <= k < |ss| && IsReturn(ss[k])
  }

  /** What a successful `hasReturn` leaves behind: every block it newly
      visited either holds a return, or has successors, all of them visited. */
  ghost predicate ExploredSafe(ns: seq<Node>, v0: set<nat>, v1: set<nat>) {
    forall x :: x in v1 && x !in v0 ==>
      x < |ns| &&
      (HasReturnStmt(ns[x].stmts) ||
       (|ns[x].children| > 0 && forall c :: c in ns[x].children ==> c in v1))
  }

  predicate PathHasReturn(ns: seq<Node>, p: seq<nat>)
    requires forall i :: 0 <= i < |p| ==> p[i] < |ns|
  {
    exists i :: 0 <= i < |p| && HasReturnStmt(ns[p[i]].stmts)
  }

  /** No path from `a` runs off the end of the function without passing a
      return statement: every path that ends in a block without successors
      goes through a block holding a return. */
  ghost predicate AllPathsReturn(ns: seq<Node>, a: nat) {
    forall p :: IsPath(ns, p) && p[0] == a && ns[p[|p| - 1]].children == [] ==> PathHasReturn(ns, p)
  }

  /** A path that starts in the region explored by a successful `hasReturn`
      and avoids the blocks visited before it cannot reach a block without
      successors before it passes a return. */
  lemma {:induction false} SafeRegionReturns(ns: seq<Node>, v0: set<nat>, v1: set<nat>, p: seq<nat>)
    requires ExploredSafe(ns, v0, v1) && IsPath(ns, p)
    requires p[0] in v1 && forall i :: 0 <= i < |p| ==> p[i] !in v0
    requires ns[p[|p| - 1]].children == []
    ensures PathHasReturn(ns, p)
  {
    if !HasReturnStmt(ns[p[0]].stmts) {
      assert |p| > 1;
      var q := p[1..];
      assert IsPath(ns, q) by {
        forall i | 0 <= i < |q| - 1 ensures q[i + 1] in ns[q[i]].children {
          assert q[i] == p[i + 1] && q[i + 1] == p[i + 2];
        }
      }
      SafeRegionReturns(ns, v0, v1, q);
      var i :| 0 <= i < |q| && HasReturnStmt(ns[q[i]].stmts);
      assert p[i + 1] == q[i];
    }
  }

  // ---------------------------------------------------------------------------
  // The arena of blocks, shared by every graph built, with the label counter.

  class NodeStore {
    var nodes: seq<Node>
    var labelNum: nat

    ghost predicate Valid()
      reads this
    {
      ChildrenInRange(nodes) && LabelsDistinct(nodes, labelNum)
    }

    constructor ()
      ensures Valid() && nodes == [] && labelNum == 0
    {
      nodes := [];
      labelNum := 0;
    }

    /** A new, empty block (the `Node()` constructor). */
    method NewNode() returns (i: nat)
      requires Valid()
      modifies this
      ensures Valid() && labelNum == old(labelNum)
      ensures i == |old(nodes)| && nodes == old(nodes) + [EmptyNode]
    {
      i := |nodes|;
      nodes := nodes + [EmptyNode];
    }

    /** `node.append(entry)`. */
    method AppendEntry(i: nat, en: Entry)
      requires Valid() && i < |nodes|
      modifies this
      ensures Valid() && labelNum == old(labelNum)
      ensures nodes == old(nodes)[i := old(nodes)[i].(stmts := old(nodes)[i].stmts + [en])]
    {
      nodes := nodes[i := nodes[i].(stmts := nodes[i].stmts + [en])];
    }

    /** `node.children.append(c)`. */
    method AddChild(i: nat, c: nat)
      requires Valid() && i < |nodes| && c < |nodes|
      modifies this
      ensures Valid() && labelNum == old(labelNum)
      ensures nodes == old(nodes)[i := old(nodes)[i].(children := old(nodes)[i].children + [c])]
    {
      nodes := nodes[i := nodes[i].(children := nodes[i].children + [c])];
    }

    /** The edges `gBranch` adds for a `while` with header `h`, body from `bf`
        to `bl` and end block `e`: `h` gets `h`, `bf`, `e`, then `bl` gets `h`. */
    method WireLoop(h: nat, bf: nat, bl: nat, e: nat)
      requires Valid() && h < |nodes| && bf < |nodes| && bl < |nodes| && e < |nodes|
      modifies this
      ensures Valid() && labelNum == old(labelNum)
      ensures var n1 := old(nodes)[h := old(nodes)[h].(children := old(nodes)[h].children + [h, bf, e])];
              nodes == n1[bl := n1[bl].(children := n1[bl].children + [h])]
    {
      ghost var ns := nodes;
      AddChild(h, h);
      AddChild(h, bf);
      assert ns[h].children + [h] + [bf] == ns[h].children + [h, bf];
      AddChild(h, e);
      assert ns[h].children + [h, bf] + [e] == ns[h].children + [h, bf, e];
      AddChild(bl, h);
    }

    /** `getLabel`: numbers the block from the counter on the first call, and
        returns the same label on every later call. */
    method GetLabel(i: nat) returns (l: nat)
      requires Valid() && i < |nodes|
      modifies this
      ensures Valid()
      ensures old(nodes)[i].labelNo.Some? ==>
                l == old(nodes)[i].labelNo.value && nodes == old(nodes) && labelNum == old(labelNum)
      ensures old(nodes)[i].labelNo.None? ==>
                l == old(labelNum) && labelNum == old(labelNum) + 1 &&
                nodes == old(nodes)[i := old(nodes)[i].(labelNo := Some(l))]
      ensures nodes[i].labelNo == Some(l)
    {
      if nodes[i].labelNo.None? {
        nodes := nodes[i := nodes[i].(labelNo := Some(labelNum))];
        labelNum := labelNum + 1;
      }
      l := nodes[i].labelNo.value;
    }

    /** `fill`: scans the block's elements in order, adding to gen what each one
        reads and the block has not yet killed, and to kill what each
        assignment defines; then seeds livein with gen. */
    method Fill(i: nat)
      requires Valid() && i < |nodes|
      modifies this
      ensures Valid() && labelNum == old(labelNum)
      ensures nodes == old(nodes)[i := Filled(old(nodes)[i])]
    {
      var n := nodes[i];
      var gen, kill := n.gen, n.kill;
      for k := 0 to |n.stmts|
        invariant gen == n.gen + GenOf(n.stmts[..k], n.kill)
        invariant kill == n.kill + KillOf(n.stmts[..k])
      {
        var s := n.stmts[k];
        var uses := EntryUses(s);
        var defines := if IsAssign(s) then EntryDefines(s) else {};
        uses := uses - kill;
        gen := gen + uses;
        kill := kill + defines;
        assert n.stmts[..k + 1][..k] == n.stmts[..k];
      }
      assert n.stmts[..|n.stmts|] == n.stmts;
      nodes := nodes[i := n.(gen := gen, kill := kill, livein := gen)];
    }

    /** One step of the liveness algorithm for block `i`: liveout becomes the
        union of the successors' livein, livein becomes gen + (liveout - kill),
        and the result says whether the size of either set changed. */
    method NodeLiveness(i: nat) returns (changed: bool)
      requires Valid() && i < |nodes|
      modifies this
      ensures Valid() && labelNum == old(labelNum)
      ensures nodes == old(nodes)[i := LiveStep(old(nodes), i)]
      ensures changed <==> |nodes[i].livein| != |old(nodes)[i].livein| ||
                           |nodes[i].liveout| != |old(nodes)[i].liveout|
    {
      var n := nodes[i];
      var lin, lout := |n.livein|, |n.liveout|;
      var out: set<Variable> := {};
      for k := 0 to |n.children|
        invariant out == ChildrenLiveIn(nodes, n.children[..k])
      {
        out := out + nodes[n.children[k]].livein;
        assert n.children[..k + 1][..k] == n.children[..k];
      }
      assert n.children[..|n.children|] == n.children;
      var inn := n.gen + (out - n.kill);
      nodes := nodes[i := n.(liveout := out, livein := inn)];
      changed := |inn| != lin || |out| != lout;
    }

    /** `last += other` followed by `last.children = other.children`: block
        `i` takes over block `j`'s elements after its own and a copy of `j`'s
        successor list. */
    method Absorb(i: nat, j: nat)
      requires Valid() && i < |nodes| && j < |nodes|
      modifies this
      ensures Valid() && labelNum == old(labelNum)
      ensures nodes == old(nodes)[i := old(nodes)[i].(stmts := old(nodes)[i].stmts + old(nodes)[j].stmts,
                                                      children := old(nodes)[j].children)]
    {
      nodes := nodes[i := nodes[i].(stmts := nodes[i].stmts + nodes[j].stmts, children := nodes[j].children)];
    }

    /** `gen.discard(v)` and `kill.discard(v)` on block `i`. */
    method Discard(i: nat, v: Variable)
      requires Valid() && i < |nodes|
      modifies this
      ensures Valid() && labelNum == old(labelNum)
      ensures nodes == old(nodes)[i := Spilled(old(nodes)[i], v)]
    {
      nodes := nodes[i := Spilled(nodes[i], v)];
    }

    /** The loop of `Graph.spill`: `v` leaves gen and kill of each listed block. */
    method DiscardAll(bs: seq<nat>, v: Variable)
      requires Valid() && InRange(nodes, bs)
      modifies this
      ensures Valid() && labelNum == old(labelNum) && |nodes| == |old(nodes)|
      ensures forall i :: 0 <= i < |nodes| ==> nodes[i] == if i in bs then Spilled(old(nodes)[i], v) else old(nodes)[i]
    {
      ghost var ns0 := nodes;
      for k := 0 to |bs|
        invariant Valid() && labelNum == old(labelNum) && |nodes| == |ns0|
        invariant forall i :: 0 <= i < |ns0| ==> nodes[i] == if i in bs[..k] then Spilled(ns0[i], v) else ns0[i]
      {
        Discard(bs[k], v);
        assert forall i :: i in bs[..k + 1] <==> i in bs[..k] || i == bs[k];
      }
      assert bs[..|bs|] == bs;
    }

    /** The fill pass of `Graph.liveness`: `fill()` on each listed block. */
    method FillBlocks(bs: seq<nat>)
      requires Valid() && InRange(nodes, bs)
      modifies this
      ensures Valid() && labelNum == old(labelNum) && |nodes| == |old(nodes)|
      ensures forall i :: 0 <= i < |nodes| ==> nodes[i] == if i in bs then Filled(old(nodes)[i]) else old(nodes)[i]
    {
      ghost var ns0 := nodes;
      for k := 0 to |bs|
        invariant Valid() && labelNum == old(labelNum) && |nodes| == |ns0|
        invariant forall i :: 0 <= i < |ns0| ==> nodes[i] == if i in bs[..k] then Filled(ns0[i]) else ns0[i]
      {
        RefillIsNoOp(ns0[bs[k]]);
        Fill(bs[k]);
        assert forall i :: i in bs[..k + 1] <==> i in bs[..k] || i == bs[k];
      }
      assert bs[..|bs|] == bs;
    }

    /** One sweep of `Graph.liveness`: a `liveness()` step on each listed
        block in order; the result says whether any step reported a change.
        After the first sweep the sets only grow, a sweep that reports a
        change has added some pair to them, and one that reports none has
        changed nothing; every sweep that reports no change ends with the
        liveness equations holding. */
    method Sweep(bs: seq<nat>, ghost f: seq<Node>, ghost u: set<Variable>, ghost firstSweep: bool) returns (changes: bool)
      requires Valid() && InRange(nodes, bs) && SameShape(f, nodes, bs)
      requires LiveInv(bs, u, nodes, if firstSweep then {} else Elems(bs))
      modifies this
      ensures Valid() && labelNum == old(labelNum) && InRange(nodes, bs) && SameShape(f, nodes, bs)
      ensures LiveInv(bs, u, nodes, Elems(bs))
      ensures !changes ==> Fixpoint(nodes, bs)
      ensures !firstSweep && !changes ==> nodes == old(nodes)
      ensures !firstSweep && changes ==> Missing(nodes, bs, u) < Missing(old(nodes), bs, u)
    {
      ghost var s0 := nodes;
      changes := false;
      for k := 0 to |bs|
        invariant Valid() && labelNum == old(labelNum) && InRange(nodes, bs)
        invariant SameShape(f, nodes, bs)
        invariant LiveInv(bs, u, nodes, if firstSweep then Elems(bs[..k]) else Elems(bs))
        invariant forall i :: 0 <= i < |s0| ==> s0[i].livein <= nodes[i].livein
        invariant !firstSweep ==> forall j :: 0 <= j < |bs| ==> s0[bs[j]].liveout <= nodes[bs[j]].liveout
        invariant !changes ==> forall i :: 0 <= i < |s0| ==> nodes[i].livein == s0[i].livein
        invariant !changes ==> forall j :: 0 <= j < k ==>
                    nodes[bs[j]].liveout == ChildrenLiveIn(nodes, nodes[bs[j]].children)
        invariant !firstSweep && !changes ==> nodes == s0
        invariant !firstSweep && changes ==> Missing(nodes, bs, u) < Missing(s0, bs, u)
        invariant !firstSweep ==> Missing(nodes, bs, u) <= Missing(s0, bs, u)
      {
        ghost var pre := nodes;
        ghost var done := if firstSweep then Elems(bs[..k]) else Elems(bs);
        var c := NodeLiveness(bs[k]);
        LivenessStepFacts(f, bs, u, s0, pre, nodes, done, k, firstSweep, changes, c);
        if c {
          changes := true;
        }
      }
      assert bs[..|bs|] == bs;
    }

    /** The sweeps of `Graph.liveness`, repeated until one reports no change:
        they change only livein and liveout of listed blocks and end with the
        liveness equations holding. */
    method Settle(bs: seq<nat>)
      requires Valid() && InRange(nodes, bs)
      requires forall j :: 0 <= j < |bs| ==> nodes[bs[j]].livein == nodes[bs[j]].gen
      modifies this
      ensures Valid() && labelNum == old(labelNum) && InRange(nodes, bs)
      ensures SameShape(old(nodes), nodes, bs) && Fixpoint(nodes, bs)
    {
      ghost var f := nodes;
      ghost var u := LiveUniverse(f);
      forall i | 0 <= i < |f| ensures f[i].livein <= u {
        LiveUniverseHas(f, i);
      }
      var changes := true;
      ghost var firstSweep := true;
      while changes
        invariant Valid() && labelNum == old(labelNum) && InRange(nodes, bs)
        invariant SameShape(f, nodes, bs)
        invariant LiveInv(bs, u, nodes, if firstSweep then {} else Elems(bs))
        invariant firstSweep ==> changes && nodes == f
        invariant !firstSweep && !changes ==> Fixpoint(nodes, bs)
        decreases (if firstSweep then 1 else 0), Missing(nodes, bs, u), (if changes then 1 else 0)
      {
        changes := Sweep(bs, f, u, firstSweep);
        firstSweep := false;
      }
    }

    /** `getBlocks(l, node)`: appends the blocks reachable from `node` in
        depth-first pre-order, skipping any block whose element list is already
        in `l`, so it stops on cycles. */
    method GetBlocks(l: seq<nat>, n: nat) returns (r: seq<nat>)
      requires Valid() && n < |nodes| && InRange(nodes, l)
      ensures BlocksOf(nodes, l, n, r)
      decreases Indices(|nodes|) - Elems(l)
    {
      if exists j :: 0 <= j < |l| && nodes[l[j]].stmts == nodes[n].stmts {
        BlocksCovered(nodes, l, n);
        return l;
      }
      r := l + [n];
      var cs := nodes[n].children;
      ExploreStart(nodes, l, n);
      for m := 0 to |cs|
        invariant Explored(nodes, l, n, r, m)
      {
        PartialShrinks(nodes, l, n, r);
        var r2 := GetBlocks(r, cs[m]);
        ExploreStep(nodes, l, n, r, m, r2);
        r := r2;
      }
      BlocksEnd(nodes, l, n, r);
    }

    /** `hasReturn` of block `n`, with the visited set threaded through: true
        at once when the block holds a return; otherwise the unvisited
        successors are tried in order, false at the first one that answers
        false, and true only when at least one was tried and all said true. */
    method HasReturnFrom(visited: set<nat>, n: nat) returns (r: bool, visited': set<nat>)
      requires Valid() && n < |nodes| && n !in visited && forall x :: x in visited ==> x < |nodes|
      ensures visited + {n} <= visited' && forall x :: x in visited' ==> x < |nodes|
      ensures HasReturnStmt(nodes[n].stmts) ==> r && visited' == visited + {n}
      ensures !HasReturnStmt(nodes[n].stmts) && (forall c :: c in nodes[n].children ==> c in visited + {n}) ==> !r
      ensures r ==> ExploredSafe(nodes, visited, visited')
      decreases Indices(|nodes|) - visited
    {
      visited' := visited + {n};
      var ss := nodes[n].stmts;
      for k := 0 to |ss|
        invariant forall kk :: 0 <= kk < k ==> !IsReturn(ss[kk])
      {
        if IsReturn(ss[k]) {
          return true, visited';
        }
      }
      var childret := false;
      var cs := nodes[n].children;
      for m := 0 to |cs|
        invariant visited + {n} <= visited' && forall x :: x in visited' ==> x < |nodes|
        invariant forall mm :: 0 <= mm < m ==> cs[mm] in visited'
        invariant childret ==> exists mm :: 0 <= mm < m && cs[mm] !in visited + {n}
        invariant !childret ==> visited' == visited + {n}
        invariant childret ==> ExploredSafe(nodes, visited + {n}, visited')
      {
        var c := cs[m];
        if c !in visited' {
          Shrinks(Indices(|nodes|), visited, visited', n);
          var cr, v2 := HasReturnFrom(visited', c);
          if cr {
            childret := true;
            visited' := v2;
          } else {
            return false, v2;
          }
        }
      }
      r := childret;
    }
  }

  /** The blocks from index `lo` on point only to blocks from `lo` on. */
  predicate ClosedAbove(ns: seq<Node>, lo: nat) {
    forall i, k :: lo <= i < |ns| && 0 <= k < |ns[i].children| ==> lo <= ns[i].children[k]
  }

  /** `ns` is `ns0` with a graph from `first` to `last` built after it: the
      blocks already there are untouched and the new ones point only to new
      ones. */
  predicate Fragment(ns0: seq<Node>, ns: seq<Node>, first: nat, last: nat) {
    && |ns0| <= first < |ns| && |ns0| <= last < |ns|
    && ns[..|ns0|] == ns0
    && ClosedAbove(ns, |ns0|)
  }

  lemma FragmentGrows(ns0: seq<Node>, ns1: seq<Node>, ns2: seq<Node>, lo1: nat)
    requires |ns0| <= lo1 <= |ns1| <= |ns2| && ns1[..|ns0|] == ns0 && ns2[..|ns1|] == ns1
    ensures ns2[..|ns0|] == ns0
  {
    assert ns2[..|ns0|] == ns2[..|ns1|][..|ns0|];
  }

  /** Straight-line statements: no branch and no nested block. */
  predicate StraightLine(body: seq<Stmt>) {
    forall k :: 0 <= k < |body| ==> body[k].Single? || body[k].Decl?
  }

  /** The elements straight-line statements leave in their block, in order;
      declarations leave none. */
  function StraightEntries(body: seq<Stmt>): seq<Entry>
    requires StraightLine(body)
  {
    if body == [] then []
    else
      var last := body[|body| - 1];
      StraightEntries(body[..|body| - 1]) + (if last.Single? then [Stmt(last.sid, last.s)] else [])
  }

  // ---------------------------------------------------------------------------
  // The liveness fixpoint.

  lemma {:induction false} ChildrenLiveInMono(ns: seq<Node>, ns': seq<Node>, cs: seq<nat>)
    requires |ns| == |ns'| && forall k :: 0 <= k < |cs| ==> cs[k] < |ns|
    requires forall i :: 0 <= i < |ns| ==> ns[i].livein <= ns'[i].livein
    ensures ChildrenLiveIn(ns, cs) <= ChildrenLiveIn(ns', cs)
  {
    if cs != [] {
      ChildrenLiveInMono(ns, ns', cs[..|cs| - 1]);
    }
  }

  lemma ChildrenLiveInSame(ns: seq<Node>, ns': seq<Node>, cs: seq<nat>)
    requires |ns| == |ns'| && forall k :: 0 <= k < |cs| ==> cs[k] < |ns|
    requires forall i :: 0 <= i < |ns| ==> ns[i].livein == ns'[i].livein
    ensures ChildrenLiveIn(ns, cs) == ChildrenLiveIn(ns', cs)
  {
    ChildrenLiveInMono(ns, ns', cs);
    ChildrenLiveInMono(ns', ns, cs);
  }

  lemma {:induction false} ChildrenLiveInBound(ns: seq<Node>, cs: seq<nat>, u: set<Variable>)
    requires forall k :: 0 <= k < |cs| ==> cs[k] < |ns|
    requires forall i :: 0 <= i < |ns| ==> ns[i].livein <= u
    ensures ChildrenLiveIn(ns, cs) <= u
  {
    if cs != [] {
      ChildrenLiveInBound(ns, cs[..|cs| - 1], u);
    }
  }

  /** Every variable a liveness sweep can put into a set: the gen and the
      livein sets of all blocks before the sweeps. */
  function LiveUniverse(ns: seq<Node>): set<Variable> {
    if ns == [] then {} else LiveUniverse(ns[..|ns| - 1]) + ns[|ns| - 1].gen + ns[|ns| - 1].livein
  }

  lemma {:induction false} LiveUniverseHas(ns: seq<Node>, i: nat)
    requires i < |ns|
    ensures ns[i].gen <= LiveUniverse(ns) && ns[i].livein <= LiveUniverse(ns)
  {
    if i < |ns| - 1 {
      LiveUniverseHas(ns[..|ns| - 1], i);
    }
  }

  /** The sweeps change only livein and liveout, and only of listed blocks. */
  predicate SameShape(f: seq<Node>, ns: seq<Node>, bs: seq<nat>) {
    && |ns| == |f|
    && (forall i :: 0 <= i < |f| ==>
          ns[i].stmts == f[i].stmts && ns[i].children == f[i].children && ns[i].gen == f[i].gen &&
          ns[i].kill == f[i].kill && ns[i].labelNo == f[i].labelNo)
    && (forall i :: 0 <= i < |f| && i !in bs ==> ns[i] == f[i])
  }

  /** What holds between liveness steps: every livein stays within `u`; a
      listed block not yet stepped has livein = gen; a stepped one satisfies
      the livein equation, and its liveout is within `u` and within the
      union of its successors' current livein. */
  ghost predicate LiveInv(bs: seq<nat>, u: set<Variable>, ns: seq<Node>, done: set<nat>)
    requires ChildrenInRange(ns) && InRange(ns, bs)
  {
    && (forall i :: 0 <= i < |ns| ==> ns[i].livein <= u)
    && (forall j :: 0 <= j < |bs| && bs[j] !in done ==> ns[bs[j]].livein == ns[bs[j]].gen)
    && (forall j :: 0 <= j < |bs| && bs[j] in done ==>
          && ns[bs[j]].livein == ns[bs[j]].gen + (ns[bs[j]].liveout - ns[bs[j]].kill)
          && ns[bs[j]].liveout <= u
          && ns[bs[j]].liveout <= ChildrenLiveIn(ns, ns[bs[j]].children))
  }

  /** The liveness equations of every listed block. */
  predicate Fixpoint(ns: seq<Node>, bs: seq<nat>)
    requires ChildrenInRange(ns) && InRange(ns, bs)
  {
    forall j :: 0 <= j < |bs| ==>
      && ns[bs[j]].liveout == ChildrenLiveIn(ns, ns[bs[j]].children)
      && ns[bs[j]].livein == ns[bs[j]].gen + (ns[bs[j]].liveout - ns[bs[j]].kill)
  }

  /** One `liveness()` step on a listed block keeps the invariant, and the
      block's livein (and its liveout, once it was stepped before) only grows. */
  lemma LiveStepKeeps(f: seq<Node>, bs: seq<nat>, u: set<Variable>, ns: seq<Node>, done: set<nat>, k: nat)
    requires ChildrenInRange(ns) && InRange(ns, bs) && SameShape(f, ns, bs) && LiveInv(bs, u, ns, done)
    requires k < |bs|
    ensures ChildrenInRange(ns[bs[k] := LiveStep(ns, bs[k])])
    ensures SameShape(f, ns[bs[k] := LiveStep(ns, bs[k])], bs)
    ensures LiveInv(bs, u, ns[bs[k] := LiveStep(ns, bs[k])], done + {bs[k]})
    ensures ns[bs[k]].livein <= LiveStep(ns, bs[k]).livein
    ensures bs[k] in done ==> ns[bs[k]].liveout <= LiveStep(ns, bs[k]).liveout
  {
    var b := bs[k];
    var n := LiveStep(ns, b);
    var ns' := ns[b := n];
    ChildrenLiveInBound(ns, ns[b].children, u);
    assert ns[b].gen <= u by {
      if b in done {
        assert ns[b].gen <= ns[b].livein;
      }
    }
    assert ns[b].livein <= n.livein by {
      if b in done {
        assert ns[b].liveout <= n.liveout;
      }
    }
    assert forall i :: 0 <= i < |ns| ==> ns[i].livein <= ns'[i].livein;
    forall j | 0 <= j < |bs| && bs[j] in done + {b}
      ensures ns'[bs[j]].liveout <= ChildrenLiveIn(ns', ns'[bs[j]].children)
    {
      ChildrenLiveInMono(ns, ns', ns[bs[j]].children);
    }
    forall i | 0 <= i < |f| && i !in bs ensures ns'[i] == f[i] {
      assert i != b;
    }
  }

  /** The part of `LiveStepKeeps` about the stepped block alone. */
  lemma LiveStepGrows(f: seq<Node>, bs: seq<nat>, u: set<Variable>, ns: seq<Node>, done: set<nat>, k: nat)
    requires ChildrenInRange(ns) && InRange(ns, bs) && SameShape(f, ns, bs) && LiveInv(bs, u, ns, done)
    requires k < |bs|
    ensures ns[bs[k]].livein <= LiveStep(ns, bs[k]).livein
    ensures bs[k] in done ==> ns[bs[k]].liveout <= LiveStep(ns, bs[k]).liveout
    ensures LiveStep(ns, bs[k]).livein <= u && LiveStep(ns, bs[k]).liveout <= u
  {
    LiveStepKeeps(f, bs, u, ns, done, k);
    var ns' := ns[bs[k] := LiveStep(ns, bs[k])];
    assert ns'[bs[k]] == LiveStep(ns, bs[k]);
  }

  /** The pairs (block, variable of `u`) still missing from the listed
      blocks' livein and liveout; the sweeps shrink this set. */
  function Missing(ns: seq<Node>, bs: seq<nat>, u: set<Variable>): set<(nat, Variable, bool)>
    requires InRange(ns, bs)
  {
    (set j, v | 0 <= j < |bs| && v in u && v !in ns[bs[j]].livein :: (bs[j], v, true)) +
    (set j, v | 0 <= j < |bs| && v in u && v !in ns[bs[j]].liveout :: (bs[j], v, false))
  }

  lemma MissingShrinks(ns: seq<Node>, ns': seq<Node>, bs: seq<nat>, u: set<Variable>)
    requires InRange(ns, bs) && InRange(ns', bs)
    requires forall j :: 0 <= j < |bs| ==>
               ns[bs[j]].livein <= ns'[bs[j]].livein && ns[bs[j]].liveout <= ns'[bs[j]].liveout
    ensures Missing(ns', bs, u) <= Missing(ns, bs, u)
  {
  }

  lemma MissingStrict(ns: seq<Node>, ns': seq<Node>, bs: seq<nat>, u: set<Variable>, k: nat)
    requires InRange(ns, bs) && InRange(ns', bs) && k < |bs|
    requires forall j :: 0 <= j < |bs| ==>
               ns[bs[j]].livein <= ns'[bs[j]].livein && ns[bs[j]].liveout <= ns'[bs[j]].liveout
    requires ns'[bs[k]].livein <= u && ns'[bs[k]].liveout <= u
    requires ns'[bs[k]].livein != ns[bs[k]].livein || ns'[bs[k]].liveout != ns[bs[k]].liveout
    ensures Missing(ns', bs, u) < Missing(ns, bs, u)
  {
    MissingShrinks(ns, ns', bs, u);
    var b := bs[k];
    if ns'[b].livein != ns[b].livein {
      var v :| v in ns'[b].livein && v !in ns[b].livein;
      assert (b, v, true) in Missing(ns, bs, u);
    } else {
      var v :| v in ns'[b].liveout && v !in ns[b].liveout;
      assert (b, v, false) in Missing(ns, bs, u);
    }
  }

  lemma SubsetSameSize<T>(a: set<T>, b: set<T>)
    requires a <= b && |a| == |b|
    ensures a == b
  {
    if a != b {
      var x :| x in b && x !in a;
      assert a <= b - {x};
      SubsetSize(a, b - {x});
    }
  }

  lemma {:induction false} SubsetSize<T>(a: set<T>, b: set<T>)
    requires a <= b
    ensures |a| <= |b|
  {
    if a != {} {
      var x :| x in a;
      SubsetSize(a - {x}, b - {x});
    }
  }

  /** Filling the listed blocks, then changing only their two sets, leaves
      the other blocks alone and the listed ones filled. */
  lemma LivenessShape(ns0: seq<Node>, f: seq<Node>, ns: seq<Node>, bs: seq<nat>)
    requires |f| == |ns0| && forall i :: 0 <= i < |f| ==> f[i] == if i in bs then Filled(ns0[i]) else ns0[i]
    requires SameShape(f, ns, bs)
    ensures |ns| == |ns0|
    ensures forall i :: 0 <= i < |ns| && i !in bs ==> ns[i] == ns0[i]
    ensures forall i :: 0 <= i < |ns| && i in bs ==>
              && ns[i].stmts == ns0[i].stmts && ns[i].children == ns0[i].children
              && ns[i].labelNo == ns0[i].labelNo && ns[i].gen == Filled(ns0[i]).gen && ns[i].kill == Filled(ns0[i]).kill
  {
  }

  /** A liveness step changes only the two sets of a listed block. */
  lemma StepSameShape(f: seq<Node>, ns: seq<Node>, bs: seq<nat>, k: nat)
    requires ChildrenInRange(ns) && InRange(ns, bs) && SameShape(f, ns, bs) && k < |bs|
    ensures SameShape(f, ns[bs[k] := LiveStep(ns, bs[k])], bs)
  {
    assert bs[k] in bs;
  }

  /** The bookkeeping of one step inside a sweep that started from `s0`. */
  lemma LivenessStepFacts(f: seq<Node>, bs: seq<nat>, u: set<Variable>, s0: seq<Node>, pre: seq<Node>, post: seq<Node>,
                          done: set<nat>, k: nat, firstSweep: bool, changes: bool, c: bool)
    requires ChildrenInRange(pre) && InRange(pre, bs) && SameShape(f, pre, bs) && LiveInv(bs, u, pre, done)
    requires k < |bs| && post == pre[bs[k] := LiveStep(pre, bs[k])] && |s0| == |pre|
    requires firstSweep ==> done == Elems(bs[..k])
    requires !firstSweep ==> done == Elems(bs)
    requires c <==> |post[bs[k]].livein| != |pre[bs[k]].livein| || |post[bs[k]].liveout| != |pre[bs[k]].liveout|
    requires forall i :: 0 <= i < |s0| ==> s0[i].livein <= pre[i].livein
    requires !firstSweep ==> forall j :: 0 <= j < |bs| ==> s0[bs[j]].liveout <= pre[bs[j]].liveout
    requires !changes ==> forall i :: 0 <= i < |s0| ==> pre[i].livein == s0[i].livein
    requires !changes ==> forall j :: 0 <= j < k ==> pre[bs[j]].liveout == ChildrenLiveIn(pre, pre[bs[j]].children)
    requires !firstSweep && !changes ==> pre == s0
    requires !firstSweep && changes ==> Missing(pre, bs, u) < Missing(s0, bs, u)
    requires !firstSweep ==> Missing(pre, bs, u) <= Missing(s0, bs, u)
    ensures ChildrenInRange(post) && InRange(post, bs) && SameShape(f, post, bs)
    ensures LiveInv(bs, u, post, if firstSweep then Elems(bs[..k + 1]) else Elems(bs))
    ensures forall i :: 0 <= i < |s0| ==> s0[i].livein <= post[i].livein
    ensures !firstSweep ==> forall j :: 0 <= j < |bs| ==> s0[bs[j]].liveout <= post[bs[j]].liveout
    ensures !(changes || c) ==> forall i :: 0 <= i < |s0| ==> post[i].livein == s0[i].livein
    ensures !(changes || c) ==> forall j :: 0 <= j < k + 1 ==>
              post[bs[j]].liveout == ChildrenLiveIn(post, post[bs[j]].children)
    ensures !firstSweep && !(changes || c) ==> post == s0
    ensures !firstSweep && (changes || c) ==> Missing(post, bs, u) < Missing(s0, bs, u)
    ensures !firstSweep ==> Missing(post, bs, u) <= Missing(s0, bs, u)
  {
    StepKeepsInv(f, bs, u, s0, pre, post, done, k, firstSweep, changes, c);
    StepSameShape(f, pre, bs, k);
    LiveStepGrows(f, bs, u, pre, done, k);
    ElemsStep(bs, k);
    if !(changes || c) {
      StepSameSize(pre, bs[k], post, !firstSweep);
      StepSettledIn(pre, pre, post, bs[k]);
      StepSettledIn(s0, pre, post, bs[k]);
      assert post[bs[k]] == LiveStep(pre, bs[k]);
      StepSettledOut(bs, pre, post, k);
    }
    StepMissing(f, bs, u, s0, pre, post, done, k, firstSweep, changes, c);
  }

  /** The step keeps the sweep invariant; livein and liveout only grow. */
  lemma StepKeepsInv(f: seq<Node>, bs: seq<nat>, u: set<Variable>, s0: seq<Node>, pre: seq<Node>, post: seq<Node>,
                          done: set<nat>, k: nat, firstSweep: bool, changes: bool, c: bool)
    requires ChildrenInRange(pre) && InRange(pre, bs) && SameShape(f, pre, bs) && LiveInv(bs, u, pre, done)
    requires k < |bs| && post == pre[bs[k] := LiveStep(pre, bs[k])] && |s0| == |pre|
    requires firstSweep ==> done == Elems(bs[..k])
    requires !firstSweep ==> done == Elems(bs)
    requires forall i :: 0 <= i < |s0| ==> s0[i].livein <= pre[i].livein
    requires !firstSweep ==> forall j :: 0 <= j < |bs| ==> s0[bs[j]].liveout <= pre[bs[j]].liveout
    ensures ChildrenInRange(post) && InRange(post, bs)
    ensures LiveInv(bs, u, post, if firstSweep then Elems(bs[..k + 1]) else Elems(bs))
    ensures forall i :: 0 <= i < |s0| ==> s0[i].livein <= post[i].livein
    ensures !firstSweep ==> forall j :: 0 <= j < |bs| ==> s0[bs[j]].liveout <= post[bs[j]].liveout
  {
    LiveStepKeeps(f, bs, u, pre, done, k);
    ElemsStep(bs, k);
  }

  /** A step that leaves the stepped block's livein alone leaves every
      livein as it was. */
  lemma StepSettledIn(s0: seq<Node>, pre: seq<Node>, post: seq<Node>, b: nat)
    requires ChildrenInRange(pre) && b < |pre| && post == pre[b := LiveStep(pre, b)]
    requires |s0| == |pre| && post[b].livein == pre[b].livein
    requires forall i :: 0 <= i < |s0| ==> pre[i].livein == s0[i].livein
    ensures forall i :: 0 <= i < |s0| ==> post[i].livein == s0[i].livein
  {
  }

  /** A step that changes no livein keeps every liveout equation that held,
      and makes the stepped block's hold. */
  lemma StepSettledOut(bs: seq<nat>, pre: seq<Node>, post: seq<Node>, k: nat)
    requires ChildrenInRange(pre) && ChildrenInRange(post) && InRange(pre, bs) && k < |bs| && |post| == |pre|
    requires forall i :: 0 <= i < |pre| && i != bs[k] ==> post[i] == pre[i]
    requires post[bs[k]].children == pre[bs[k]].children
    requires post[bs[k]].liveout == ChildrenLiveIn(pre, pre[bs[k]].children)
    requires forall i :: 0 <= i < |pre| ==> post[i].livein == pre[i].livein
    requires forall j :: 0 <= j < k ==> pre[bs[j]].liveout == ChildrenLiveIn(pre, pre[bs[j]].children)
    ensures forall j :: 0 <= j < k + 1 ==> post[bs[j]].liveout == ChildrenLiveIn(post, post[bs[j]].children)
  {
    forall j | 0 <= j < k + 1 ensures post[bs[j]].liveout == ChildrenLiveIn(post, post[bs[j]].children) {
      var x := bs[j];
      ChildrenLiveInSame(pre, post, pre[x].children);
    }
  }

  /** A step that leaves the sizes of a growing livein (and liveout) alone
      leaves them as they were. */
  lemma StepSameSize(pre: seq<Node>, b: nat, post: seq<Node>, stepped: bool)
    requires ChildrenInRange(pre) && b < |pre| && post == pre[b := LiveStep(pre, b)]
    requires pre[b].livein <= post[b].livein && |post[b].livein| == |pre[b].livein|
    requires stepped ==> pre[b].liveout <= post[b].liveout && |post[b].liveout| == |pre[b].liveout|
    ensures post[b].livein == pre[b].livein
    ensures stepped ==> post == pre
  {
    SubsetSameSize(pre[b].livein, post[b].livein);
    if stepped {
      SubsetSameSize(pre[b].liveout, post[b].liveout);
      assert post[b] == pre[b];
    }
  }

  /** After the first sweep, the missing pairs never grow, and shrink once something changed. */
  lemma StepMissing(f: seq<Node>, bs: seq<nat>, u: set<Variable>, s0: seq<Node>, pre: seq<Node>, post: seq<Node>,
                          done: set<nat>, k: nat, firstSweep: bool, changes: bool, c: bool)
    requires ChildrenInRange(pre) && InRange(pre, bs) && SameShape(f, pre, bs) && LiveInv(bs, u, pre, done)
    requires k < |bs| && post == pre[bs[k] := LiveStep(pre, bs[k])] && |s0| == |pre|
    requires firstSweep ==> done == Elems(bs[..k])
    requires !firstSweep ==> done == Elems(bs)
    requires c <==> |post[bs[k]].livein| != |pre[bs[k]].livein| || |post[bs[k]].liveout| != |pre[bs[k]].liveout|
    requires !firstSweep && !changes ==> pre == s0
    requires !firstSweep && changes ==> Missing(pre, bs, u) < Missing(s0, bs, u)
    requires !firstSweep ==> Missing(pre, bs, u) <= Missing(s0, bs, u)
    ensures !firstSweep && (changes || c) ==> Missing(post, bs, u) < Missing(s0, bs, u)
    ensures !firstSweep ==> Missing(post, bs, u) <= Missing(s0, bs, u)
  {
    LiveStepGrows(f, bs, u, pre, done, k);
    ElemsStep(bs, k);
    if !firstSweep {
      assert forall j :: 0 <= j < |bs| ==>
               pre[bs[j]].livein <= post[bs[j]].livein && pre[bs[j]].liveout <= post[bs[j]].liveout;
      MissingShrinks(pre, post, bs, u);
      if c {
        MissingStrict(pre, post, bs, u, k);
      }
    }
  }

  // ---------------------------------------------------------------------------
  // Control flow graphs.

  /** A graph over the shared store: its entry block, the block new code goes
      into, the function it was built for and the variables spilled from it. */
  class Graph {
    const store: NodeStore
    var first: nat
    var last: nat
    var func: Option<Function>
    var toSpill: set<Variable>

    ghost predicate Valid()
      reads this, store
    {
      store.Valid() && first < |store.nodes| && last < |store.nodes|
    }

    /** A graph of one new, empty block. */
    constructor (s: NodeStore)
      requires s.Valid()
      modifies s
      ensures Valid() && store == s && s.labelNum == old(s.labelNum)
      ensures first == last == |old(s.nodes)| && s.nodes == old(s.nodes) + [EmptyNode]
      ensures func == None && toSpill == {}
    {
      store := s;
      var i := s.NewNode();
      first, last := i, i;
      func := None;
      toSpill := {};
    }

    /** A graph over blocks already in the store. In `gBranch` this is the
        graph of the condition block with `last` moved to the end block. */
    constructor Over(s: NodeStore, f: nat, l: nat)
      requires s.Valid() && f < |s.nodes| && l < |s.nodes|
      ensures Valid() && store == s && first == f && last == l
      ensures func == None && toSpill == {}
    {
      store, first, last := s, f, l;
      func := None;
      toSpill := {};
    }

    /** `g += h`: h's entry block is merged into g's last block, which takes
        over its successor list; g's last block moves to h's last block when
        h's entry and last blocks then differ as element lists. */
    method Merge(h: Graph)
      requires Valid() && h.Valid() && h.store == store
      modifies this, store
      ensures Valid() && store.labelNum == old(store.labelNum)
      ensures store.nodes == old(store.nodes)[old(last) := old(store.nodes)[old(last)].(
                stmts := old(store.nodes)[old(last)].stmts + old(store.nodes)[old(h.first)].stmts,
                children := old(store.nodes)[old(h.first)].children)]
      ensures last == if store.nodes[old(h.first)].stmts != store.nodes[old(h.last)].stmts then old(h.last) else old(last)
      ensures first == old(first) && func == old(func) && toSpill == old(toSpill)
    {
      var hf, hl := h.first, h.last;
      store.Absorb(last, hf);
      if store.nodes[hf].stmts != store.nodes[hl].stmts {
        last := hl;
      }
    }

    /** `hasReturn`: a fresh visited set, then the search from the entry
        block. A true answer means every path from the entry to a block
        without successors passes a return. */
    method HasReturn() returns (r: bool)
      requires Valid()
      ensures HasReturnStmt(store.nodes[first].stmts) ==> r
      ensures !HasReturnStmt(store.nodes[first].stmts) && (forall c :: c in store.nodes[first].children ==> c == first) ==> !r
      ensures r ==> AllPathsReturn(store.nodes, first)
    {
      var v;
      r, v := store.HasReturnFrom({}, first);
      if r {
        forall p | IsPath(store.nodes, p) && p[0] == first && store.nodes[p[|p| - 1]].children == []
          ensures PathHasReturn(store.nodes, p)
        {
          SafeRegionReturns(store.nodes, {}, v, p);
        }
      }
    }

    /** Iterating over the graph: the blocks `getBlocks` lists from the entry. */
    method Blocks() returns (bs: seq<nat>)
      requires Valid()
      ensures BlocksOf(store.nodes, [], first, bs)
      ensures |bs| > 0 && bs[0] == first && ContentsDistinct(store.nodes, bs)
    {
      bs := store.GetBlocks([], first);
    }

    /** `liveness`: fills every listed block, then repeats sweeps of
        `liveness()` steps over the listed blocks until a sweep reports no
        change. On exit every listed block satisfies the liveness equations;
        only livein and liveout, and gen and kill by the fill, change, and only
        in listed blocks. */
    method Liveness() returns (bs: seq<nat>)
      requires Valid()
      modifies store
      ensures Valid() && store.labelNum == old(store.labelNum)
      ensures LivenessRan(old(store.nodes), store.nodes, first, bs)
    {
      bs := Blocks();
      ghost var ns0 := store.nodes;
      store.FillBlocks(bs);
      ghost var f := store.nodes;
      forall j | 0 <= j < |bs| ensures f[bs[j]].livein == f[bs[j]].gen {
        assert bs[j] in bs;
      }
      store.Settle(bs);
      LivenessShape(ns0, f, store.nodes, bs);
    }

    /** `spill(v)`: `v` leaves gen and kill of every listed block and joins
        toSpill; nothing else changes. */
    method Spill(v: Variable) returns (ghost bs: seq<nat>)
      requires Valid()
      modifies this, store
      ensures first == old(first) && last == old(last) && func == old(func)
      ensures Valid() && store.labelNum == old(store.labelNum)
      ensures BlocksOf(old(store.nodes), [], first, bs)
      ensures |store.nodes| == |old(store.nodes)|
      ensures forall i :: 0 <= i < |store.nodes| ==>
                store.nodes[i] == if i in bs then Spilled(old(store.nodes)[i], v) else old(store.nodes)[i]
      ensures toSpill == old(toSpill) + {v}
    {
      var blocks := Blocks();
      bs := blocks;
      store.DiscardAll(blocks, v);
      toSpill := toSpill + {v};
    }
  }

  /** What `liveness` does to the arena `ns0` of a graph with entry `first`,
      leaving `ns`: `bs` is the depth-first listing of `ns0`; unlisted blocks
      are left alone; listed blocks keep their elements, successors and
      label, get the gen and kill `fill` gives them, and satisfy the liveness
      equations. */
  ghost predicate LivenessRan(ns0: seq<Node>, ns: seq<Node>, first: nat, bs: seq<nat>) {
    && ChildrenInRange(ns0) && first < |ns0| && InRange(ns0, bs)
    && BlocksOf(ns0, [], first, bs) && ContentsDistinct(ns0, bs)
    && |ns| == |ns0| && ChildrenInRange(ns) && InRange(ns, bs)
    && (forall i :: 0 <= i < |ns| && i !in bs ==> ns[i] == ns0[i])
    && (forall i :: 0 <= i < |ns| && i in bs ==>
          && ns[i].stmts == ns0[i].stmts
          && ns[i].children == ns0[i].children
          && ns[i].labelNo == ns0[i].labelNo
          && ns[i].gen == Filled(ns0[i]).gen
          && ns[i].kill == Filled(ns0[i]).kill)
    && Fixpoint(ns, bs)
  }

  // ---------------------------------------------------------------------------
  // Building graphs from statements.

  /** A graph built into an arena: the arena afterwards, and the graph's
      entry and last block. */
  datatype Piece = Piece(ns: seq<Node>, first: nat, last: nat)

  /** `ns[i].children.append(c)` on a value. */
  function AddEdge(ns: seq<Node>, i: nat, c: nat): (r: seq<Node>)
    requires i < |ns|
    ensures |r| == |ns| && r[i].children == ns[i].children + [c] && r[i].stmts == ns[i].stmts
    ensures forall j :: 0 <= j < |ns| && j != i ==> r[j] == ns[j]
  {
    ns[i := ns[i].(children := ns[i].children + [c])]
  }

  /** The arena with a new condition block, the entry of a branch graph. */
  function Head(ns: seq<Node>, cid: nat, cond: Condition): seq<Node> {
    ns + [EmptyNode.(stmts := [Test(cid, cond)])]
  }

  /** The graph `gStatement(stmt)` builds when the arena is `ns`, as a value:
      the reference the builder methods below are proved against. Its entry
      is always the first block it adds. */
  ghost function GraphOf(ns: seq<Node>, stmt: Stmt): (p: Piece)
    ensures p.first == |ns| <= p.last < |p.ns|
    decreases stmt, 1, 0
  {
    match stmt
    case Decl(_) => Piece(ns + [EmptyNode], |ns|, |ns|)
    case Single(id, s) => Piece(ns + [EmptyNode.(stmts := [Stmt(id, s)])], |ns|, |ns|)
    case Block(body) => BlockUpTo(ns, stmt, |body|)
    case If(_, _, _, elsePart) =>
      var e := |ThenOf(ns, stmt).ns|;
      if elsePart.None? then Piece(AddEdge(ThenWiredOf(ns, stmt), |ns|, e), |ns|, e)
      else
        var ep := ElseOf(ns, stmt);
        Piece(AddEdge(AddEdge(ep.ns, |ns|, ep.first), ep.last, e), |ns|, e)
    case While(_, _, _) =>
      var bp := BodyOf(ns, stmt);
      var h, e := |ns|, |bp.ns|;
      var n0 := bp.ns + [EmptyNode];
      var n1 := n0[h := n0[h].(children := n0[h].children + [h, bp.first, e])];
      Piece(AddEdge(n1, bp.last, h), h, e)
  }

  /** The then-part of an `if`, built after the condition block. */
  ghost function ThenOf(ns: seq<Node>, stmt: Stmt): (p: Piece)
    requires stmt.If?
    ensures p.first == |ns| + 1 <= p.last < |p.ns|
    decreases stmt, 0, 0
  {
    GraphOf(Head(ns, stmt.cid, stmt.cond), stmt.thenPart)
  }

  /** The arena once the end block is added and the then-part is wired: the
      condition block points to its entry, its last block to the end block. */
  ghost function ThenWiredOf(ns: seq<Node>, stmt: Stmt): (r: seq<Node>)
    requires stmt.If?
    ensures |r| == |ThenOf(ns, stmt).ns| + 1
    decreases stmt, 0, 1
  {
    var tp := ThenOf(ns, stmt);
    AddEdge(AddEdge(tp.ns + [EmptyNode], |ns|, tp.first), tp.last, |tp.ns|)
  }

  /** The else-part of an `if`, built after the end block. */
  ghost function ElseOf(ns: seq<Node>, stmt: Stmt): (p: Piece)
    requires stmt.If? && stmt.elsePart.Some?
    ensures p.first == |ThenWiredOf(ns, stmt)| <= p.last < |p.ns|
    decreases stmt, 0, 2
  {
    GraphOf(ThenWiredOf(ns, stmt), stmt.elsePart.value)
  }

  /** The body of a `while`, built after the condition block. */
  ghost function BodyOf(ns: seq<Node>, stmt: Stmt): (p: Piece)
    requires stmt.While?
    ensures p.first == |ns| + 1 <= p.last < |p.ns|
    decreases stmt, 0, 0
  {
    GraphOf(Head(ns, stmt.cid, stmt.cond), stmt.loopBody)
  }

  /** The graph `gBlock` has built after the first `k` statements of `block`. */
  ghost function BlockUpTo(ns: seq<Node>, block: Stmt, k: nat): (p: Piece)
    requires block.Block? && k <= |block.body|
    ensures p.first == |ns| <= p.last < |p.ns|
    decreases block, 0, k
  {
    if k == 0 then Piece(ns + [EmptyNode], |ns|, |ns|)
    else
      var g := BlockUpTo(ns, block, k - 1);
      assert block.body[k - 1] < block;
      Merged(g, GraphOf(g.ns, block.body[k - 1]))
  }

  /** `g += h` on values, `h` built after `g`. */
  function Merged(g: Piece, h: Piece): (p: Piece)
    requires g.last < h.first <= h.last < |h.ns|
    ensures p.first == g.first && |p.ns| == |h.ns|
    ensures p.last == g.last || p.last == h.last
  {
    var ns := h.ns[g.last := h.ns[g.last].(stmts := h.ns[g.last].stmts + h.ns[h.first].stmts,
                                           children := h.ns[h.first].children)];
    Piece(ns, g.first, if ns[h.first].stmts != ns[h.last].stmts then h.last else g.last)
  }

  /** Building a graph only appends blocks: the blocks already in the arena
      are left as they were. */
  lemma {:induction false} GraphOfKeeps(ns: seq<Node>, stmt: Stmt)
    ensures forall i :: 0 <= i < |ns| ==> GraphOf(ns, stmt).ns[i] == ns[i]
    decreases stmt, 1, 0
  {
    match stmt
    case Decl(_) =>
    case Single(_, _) =>
    case Block(body) =>
      BlockUpToKeeps(ns, stmt, |body|);
    case If(cid, cond, thenPart, elsePart) =>
      GraphOfKeeps(Head(ns, cid, cond), thenPart);
      var tp := ThenOf(ns, stmt);
      var w := ThenWiredOf(ns, stmt);
      assert forall i :: 0 <= i < |ns| ==> w[i] == tp.ns[i] == Head(ns, cid, cond)[i] == ns[i];
      if elsePart.Some? {
        var ep := ElseOf(ns, stmt);
        GraphOfKeeps(w, elsePart.value);
        assert GraphOf(ns, stmt).ns == AddEdge(AddEdge(ep.ns, |ns|, ep.first), ep.last, |tp.ns|);
        assert forall i :: 0 <= i < |ns| ==> GraphOf(ns, stmt).ns[i] == ep.ns[i] == w[i];
      } else {
        assert GraphOf(ns, stmt).ns == AddEdge(w, |ns|, |tp.ns|);
      }
    case While(cid, cond, loopBody) =>
      var bp := BodyOf(ns, stmt);
      GraphOfKeeps(Head(ns, cid, cond), loopBody);
      assert forall i :: 0 <= i < |ns| ==> bp.ns[i] == Head(ns, cid, cond)[i] == ns[i];
      assert forall i :: 0 <= i < |ns| ==> GraphOf(ns, stmt).ns[i] == bp.ns[i];
  }

  lemma {:induction false} BlockUpToKeeps(ns: seq<Node>, block: Stmt, k: nat)
    requires block.Block? && k <= |block.body|
    ensures forall i :: 0 <= i < |ns| ==> BlockUpTo(ns, block, k).ns[i] == ns[i]
    decreases block, 0, k
  {
    if k > 0 {
      BlockUpToKeeps(ns, block, k - 1);
      assert block.body[k - 1] < block;
      GraphOfKeeps(BlockUpTo(ns, block, k - 1).ns, block.body[k - 1]);
    }
  }

  /** No block from index `lo` on has been filled: gen and kill are empty. */
  ghost predicate Unfilled(ns: seq<Node>, lo: nat) {
    forall i :: lo <= i < |ns| ==> ns[i].gen == {} && ns[i].kill == {}
  }

  /** Building a graph fills no block: its new blocks start with empty gen
      and kill, and only elements and successors are changed. */
  lemma {:induction false} GraphOfUnfilled(ns: seq<Node>, stmt: Stmt, lo: nat)
    requires Unfilled(ns, lo)
    ensures Unfilled(GraphOf(ns, stmt).ns, lo)
    decreases stmt, 1, 0
  {
    match stmt
    case Decl(_) =>
    case Single(_, _) =>
    case Block(body) =>
      BlockUpToUnfilled(ns, stmt, |body|, lo);
    case If(cid, cond, thenPart, elsePart) =>
      GraphOfUnfilled(Head(ns, cid, cond), thenPart, lo);
      ThenWiredUnfilled(ns, stmt, lo);
      var tp, w := ThenOf(ns, stmt), ThenWiredOf(ns, stmt);
      if elsePart.Some? {
        var ep := ElseOf(ns, stmt);
        GraphOfUnfilled(w, elsePart.value, lo);
        assert GraphOf(ns, stmt).ns == AddEdge(AddEdge(ep.ns, |ns|, ep.first), ep.last, |tp.ns|);
      } else {
        assert GraphOf(ns, stmt).ns == AddEdge(w, |ns|, |tp.ns|);
      }
    case While(cid, cond, loopBody) =>
      GraphOfUnfilled(Head(ns, cid, cond), loopBody, lo);
      var bp := BodyOf(ns, stmt);
      assert Unfilled(bp.ns + [EmptyNode], lo);
  }

  lemma ThenWiredUnfilled(ns: seq<Node>, stmt: Stmt, lo: nat)
    requires stmt.If? && Unfilled(ThenOf(ns, stmt).ns, lo)
    ensures Unfilled(ThenWiredOf(ns, stmt), lo)
  {
    assert Unfilled(ThenOf(ns, stmt).ns + [EmptyNode], lo);
  }

  lemma {:induction false} BlockUpToUnfilled(ns: seq<Node>, block: Stmt, k: nat, lo: nat)
    requires block.Block? && k <= |block.body| && Unfilled(ns, lo)
    ensures Unfilled(BlockUpTo(ns, block, k).ns, lo)
    decreases block, 0, k
  {
    if k > 0 {
      BlockUpToUnfilled(ns, block, k - 1, lo);
      assert block.body[k - 1] < block;
      GraphOfUnfilled(BlockUpTo(ns, block, k - 1).ns, block.body[k - 1], lo);
    }
  }

  /** The blocks of `part` from index `from` on sit in `ns` as they were built,
      except that its last block has gained `c` as its last successor. */
  ghost predicate Embeds(ns: seq<Node>, part: Piece, from: nat, c: nat) {
    && |part.ns| <= |ns| && from <= part.last < |part.ns|
    && (forall i :: from <= i < |part.ns| && i != part.last ==> ns[i] == part.ns[i])
    && ns[part.last] == part.ns[part.last].(children := part.ns[part.last].children + [c])
  }

  /** The graph of an `if`: a condition block whose successors are the
      then-part's entry and the else-part's entry (or the end block), the
      parts' blocks unchanged but for an edge from each part's last block to
      the end block, and the end block, empty and added after the then-part. */
  lemma IfShape(ns: seq<Node>, stmt: Stmt)
    requires stmt.If?
    ensures var p, tp := GraphOf(ns, stmt), ThenOf(ns, stmt);
            && p.first < p.last == |tp.ns| && p.ns[p.last] == EmptyNode
            && p.ns[p.first] == EmptyNode.(stmts := [Test(stmt.cid, stmt.cond)],
                                           children := [tp.first, if stmt.elsePart.Some? then ElseOf(ns, stmt).first else p.last])
            && Embeds(p.ns, tp, tp.first, p.last)
            && (stmt.elsePart.Some? ==> Embeds(p.ns, ElseOf(ns, stmt), ElseOf(ns, stmt).first, p.last))
  {
    var p, tp, w := GraphOf(ns, stmt), ThenOf(ns, stmt), ThenWiredOf(ns, stmt);
    ThenShape(ns, stmt);
    if stmt.elsePart.Some? {
      ElseShape(ns, stmt);
    } else {
      assert p.ns == AddEdge(w, |ns|, p.last);
    }
  }

  /** The `if` graph with an else-part, built after the then-part is wired:
      its blocks up to the end block stay as they were. */
  lemma ElseShape(ns: seq<Node>, stmt: Stmt)
    requires stmt.If? && stmt.elsePart.Some?
    ensures var p, tp, ep := GraphOf(ns, stmt), ThenOf(ns, stmt), ElseOf(ns, stmt);
            && p.ns[p.last] == EmptyNode
            && p.ns[p.first] == EmptyNode.(stmts := [Test(stmt.cid, stmt.cond)], children := [tp.first, ep.first])
            && Embeds(p.ns, tp, tp.first, p.last) && Embeds(p.ns, ep, ep.first, p.last)
  {
    var p, tp, w, ep := GraphOf(ns, stmt), ThenOf(ns, stmt), ThenWiredOf(ns, stmt), ElseOf(ns, stmt);
    ThenShape(ns, stmt);
    GraphOfKeeps(w, stmt.elsePart.value);
    assert p.ns == AddEdge(AddEdge(ep.ns, |ns|, ep.first), ep.last, p.last);
    assert forall i :: 0 <= i < |w| ==> ep.ns[i] == w[i];
    assert forall i :: 0 <= i < |w| && i != |ns| ==> p.ns[i] == ep.ns[i];
  }

  /** The `if` graph once the then-part is wired. */
  lemma ThenShape(ns: seq<Node>, stmt: Stmt)
    requires stmt.If?
    ensures var tp, w := ThenOf(ns, stmt), ThenWiredOf(ns, stmt);
            && |w| == |tp.ns| + 1 && w[|tp.ns|] == EmptyNode
            && w[|ns|] == EmptyNode.(stmts := [Test(stmt.cid, stmt.cond)], children := [tp.first])
            && Embeds(w, tp, tp.first, |tp.ns|)
  {
    var hd := Head(ns, stmt.cid, stmt.cond);
    GraphOfKeeps(hd, stmt.thenPart);
    assert ThenOf(ns, stmt).ns[|ns|] == hd[|ns|];
  }

  /** The graph of a `while`: a condition block whose successors are itself,
      the body's entry and the end block, the body's blocks unchanged but for
      the back edge from its last block, and the end block, empty and added
      after the body. */
  lemma LoopShape(ns: seq<Node>, stmt: Stmt)
    requires stmt.While?
    ensures var p, bp := GraphOf(ns, stmt), BodyOf(ns, stmt);
            && p.first < p.last == |bp.ns| && p.ns[p.last] == EmptyNode
            && p.ns[p.first] == EmptyNode.(stmts := [Test(stmt.cid, stmt.cond)], children := [p.first, bp.first, p.last])
            && Embeds(p.ns, bp, bp.first, p.first)
  {
    var p, bp := GraphOf(ns, stmt), BodyOf(ns, stmt);
    var hd := Head(ns, stmt.cid, stmt.cond);
    GraphOfKeeps(hd, stmt.loopBody);
    assert bp.ns[|ns|] == hd[|ns|];
  }

  /** A block whose first `k` statements are straight-line is built as one
      block holding their elements, with no successor. */
  lemma {:induction false} BlockStraight(ns: seq<Node>, block: Stmt, k: nat)
    requires block.Block? && k <= |block.body| && StraightLine(block.body[..k])
    ensures var q := BlockUpTo(ns, block, k);
            q.first == q.last && q.ns[q.first] == EmptyNode.(stmts := StraightEntries(block.body[..k]))
    decreases k
  {
    if k > 0 {
      var body := block.body;
      assert body[..k][..k - 1] == body[..k - 1] && body[..k][k - 1] == body[k - 1];
      BlockStraight(ns, block, k - 1);
    }
  }

  /** A block whose statements start with straight-line ones followed by an
      `if` or a `while`: the entry block holds the straight-line elements and
      then the condition, its successors are those of the branch's condition
      block, and the block's last block is no longer its entry, so the
      statements after the branch leave the entry as it is. */
  lemma {:induction false} BlockEntry(ns: seq<Node>, block: Stmt, k: nat, j: nat)
    requires block.Block? && k < j <= |block.body| && StraightLine(block.body[..k])
    requires block.body[k].If? || block.body[k].While?
    ensures EntryIs(BlockUpTo(ns, block, j),
                    StraightEntries(block.body[..k]) + [Test(block.body[k].cid, block.body[k].cond)],
                    EntryOf(GraphOf(BlockUpTo(ns, block, k).ns, block.body[k])).children)
    decreases j
  {
    if j == k + 1 {
      BranchEntry(ns, block, k);
    } else {
      var es := StraightEntries(block.body[..k]) + [Test(block.body[k].cid, block.body[k].cond)];
      var cs := EntryOf(GraphOf(BlockUpTo(ns, block, k).ns, block.body[k])).children;
      BlockEntry(ns, block, k, j - 1);
      var g := BlockUpTo(ns, block, j - 1);
      assert block.body[j - 1] < block;
      var h := GraphOf(g.ns, block.body[j - 1]);
      GraphOfKeeps(g.ns, block.body[j - 1]);
      MergedKeepsEntry(g, h, es, cs);
    }
  }

  /** The entry block of a graph. */
  ghost function EntryOf(p: Piece): Node
    requires p.first < |p.ns|
  {
    p.ns[p.first]
  }

  /** A graph of more than one block whose entry holds `es` and has the
      successors `cs`. */
  ghost predicate EntryIs(p: Piece, es: seq<Entry>, cs: seq<nat>) {
    p.first != p.last && p.first < |p.ns| && p.ns[p.first].stmts == es && p.ns[p.first].children == cs
  }

  /** The first case of BlockEntry: the branch just merged. */
  lemma BranchEntry(ns: seq<Node>, block: Stmt, k: nat)
    requires block.Block? && k < |block.body| && StraightLine(block.body[..k])
    requires block.body[k].If? || block.body[k].While?
    ensures EntryIs(BlockUpTo(ns, block, k + 1),
                    StraightEntries(block.body[..k]) + [Test(block.body[k].cid, block.body[k].cond)],
                    EntryOf(GraphOf(BlockUpTo(ns, block, k).ns, block.body[k])).children)
  {
    var body := block.body;
    var q := BlockUpTo(ns, block, k);
    var b := GraphOf(q.ns, body[k]);
    BlockStraight(ns, block, k);
    GraphOfKeeps(q.ns, body[k]);
    if body[k].If? {
      IfShape(q.ns, body[k]);
    } else {
      LoopShape(q.ns, body[k]);
    }
    MergedBranch(q, b, StraightEntries(body[..k]), Test(body[k].cid, body[k].cond));
  }

  /** Merging a branch graph into a single-block graph holding `es`. */
  lemma MergedBranch(g: Piece, b: Piece, es: seq<Entry>, t: Entry)
    requires g.first == g.last < b.first < b.last < |b.ns|
    requires b.ns[g.last].stmts == es && b.ns[b.first].stmts == [t] && b.ns[b.last].stmts == []
    ensures var p := Merged(g, b);
            p.first != p.last && p.ns[p.first].stmts == es + [t] && p.ns[p.first].children == b.ns[b.first].children
  {
  }

  /** Merging into a graph whose last block is not its entry leaves the entry
      as it is. */
  lemma MergedKeepsEntry(g: Piece, h: Piece, es: seq<Entry>, cs: seq<nat>)
    requires EntryIs(g, es, cs) && g.last < |g.ns| <= h.first <= h.last < |h.ns|
    requires h.ns[g.first] == g.ns[g.first]
    ensures EntryIs(Merged(g, h), es, cs)
  {
  }

  /** The ghost block indices a branch builder returns are the entry and last
      block of its parts: the then- and else-part of an `if`, the body of a
      `while`. */
  ghost predicate PartEnds(ns: seq<Node>, stmt: Stmt, a: nat, b: nat, c: nat, d: nat) {
    && (stmt.If? ==> a == ThenOf(ns, stmt).first && b == ThenOf(ns, stmt).last)
    && (stmt.If? && stmt.elsePart.Some? ==> c == ElseOf(ns, stmt).first && d == ElseOf(ns, stmt).last)
    && (stmt.While? ==> a == BodyOf(ns, stmt).first && b == BodyOf(ns, stmt).last)
  }

  /** `gStatement`: a block or a branch is built by its own builder, a
      declaration gives an empty graph, and any other statement a graph of one
      block holding it. */
  method GStatement(store: NodeStore, stmt: Stmt) returns (g: Graph, ghost a: nat, ghost b: nat,
                                                         ghost c: nat, ghost d: nat)
    requires store.Valid()
    modifies store
    ensures fresh(g) && g.store == store && g.Valid() && store.labelNum == old(store.labelNum)
    ensures g.func == None && g.toSpill == {}
    ensures Fragment(old(store.nodes), store.nodes, g.first, g.last)
    ensures stmt.Decl? ==> g.first == g.last && store.nodes[g.first] == EmptyNode
    ensures stmt.Single? ==> g.first == g.last && store.nodes[g.first] == EmptyNode.(stmts := [Stmt(stmt.sid, stmt.s)])
    ensures stmt.If? || stmt.While? ==> BranchShape(old(store.nodes), store.nodes, g.first, g.last, stmt.cid, stmt.cond)
    ensures stmt.If? ==> IfWiring(store.nodes, g.first, g.last, stmt, a, b, c, d)
    ensures stmt.While? ==> WhileWiring(store.nodes, g.first, g.last, a, b)
    ensures stmt.Block? && StraightLine(stmt.body) ==>
              g.first == g.last && store.nodes[g.first].stmts == StraightEntries(stmt.body) &&
              store.nodes[g.first].children == []
    ensures Piece(store.nodes, g.first, g.last) == GraphOf(old(store.nodes), stmt)
    ensures PartEnds(old(store.nodes), stmt, a, b, c, d)
    decreases stmt, 3
  {
    a, b, c, d := 0, 0, 0, 0;
    match stmt
    case Block(_) =>
      g := GBlock(store, stmt);
    case If(_, _, _, _) =>
      var r;
      r, a, b, c, d := GBranch(store, stmt);
      g := r.value;
    case While(_, _, _) =>
      var r;
      r, a, b, c, d := GBranch(store, stmt);
      g := r.value;
    case Decl(_) =>
      g := new Graph(store);
    case Single(id, s) =>
      g := new Graph(store);
      ghost var ns1 := store.nodes;
      store.AppendEntry(g.last, Stmt(id, s));
      assert [] + [Stmt(id, s)] == [Stmt(id, s)];
      assert store.nodes == ns1[g.last := EmptyNode.(stmts := [Stmt(id, s)])];
  }

  /** `gBlock`: the graphs of the statements, merged in order into one. */
  method GBlock(store: NodeStore, block: Stmt) returns (g: Graph)
    requires store.Valid() && block.Block?
    modifies store
    ensures fresh(g) && g.store == store && g.Valid() && store.labelNum == old(store.labelNum)
    ensures g.func == None && g.toSpill == {}
    ensures Fragment(old(store.nodes), store.nodes, g.first, g.last)
    ensures StraightLine(block.body) ==>
              g.first == g.last && store.nodes[g.first].stmts == StraightEntries(block.body) &&
              store.nodes[g.first].children == []
    ensures Piece(store.nodes, g.first, g.last) == BlockUpTo(old(store.nodes), block, |block.body|)
    decreases block, 1
  {
    ghost var ns0 := store.nodes;
    g := new Graph(store);
    var body := block.body;
    for k := 0 to |body|
      invariant g.store == store && g.Valid() && store.labelNum == old(store.labelNum)
      invariant fresh(g) && g.func == None && g.toSpill == {}
      invariant BuiltUpTo(ns0, store.nodes, g.first, g.last, block, k)
    {
      GBlockStep(store, g, block, k, ns0);
    }
    assert body[..|body|] == body;
  }

  /** The graph `gBlock` has built after `k` statements of `block`: a fragment
      whose entry is the first new block, equal to BlockUpTo. */
  ghost predicate BuiltUpTo(ns0: seq<Node>, ns: seq<Node>, first: nat, last: nat, block: Stmt, k: nat) {
    && block.Block? && k <= |block.body|
    && Fragment(ns0, ns, first, last) && first == |ns0|
    && (StraightLine(block.body[..k]) ==>
          first == last && ns[first].stmts == StraightEntries(block.body[..k]) && ns[first].children == [])
    && Piece(ns, first, last) == BlockUpTo(ns0, block, k)
  }

  /** One iteration of `gBlock`: the graph of the next statement merged in. */
  method GBlockStep(store: NodeStore, g: Graph, block: Stmt, k: nat, ghost ns0: seq<Node>)
    requires store.Valid() && g.store == store && g.Valid() && block.Block? && k < |block.body|
    requires BuiltUpTo(ns0, store.nodes, g.first, g.last, block, k)
    modifies store, g
    ensures g.store == store && g.Valid() && store.labelNum == old(store.labelNum)
    ensures g.func == old(g.func) && g.toSpill == old(g.toSpill)
    ensures BuiltUpTo(ns0, store.nodes, g.first, g.last, block, k + 1)
    decreases block, 0
  {
    ghost var ns1 := store.nodes;
    assert block.body[k] < block;
    var h, _, _, _, _ := GStatement(store, block.body[k]);
    ghost var ns2, hf, hl, last := store.nodes, h.first, h.last, g.last;
    g.Merge(h);
    MergeFragment(ns0, ns1, ns2, store.nodes, g.first, last, hf, hl, g.last);
    MergeStraight(ns0, ns1, ns2, store.nodes, g.first, last, hf, hl, g.last, block.body, k);
    MergeUpTo(ns0, block, k, ns1, last, ns2, hf, hl, store.nodes, g.last);
  }

  /** One step of `gBlock` is one step of BlockUpTo. */
  lemma MergeUpTo(ns0: seq<Node>, block: Stmt, k: nat, ns1: seq<Node>, last: nat,
                  ns2: seq<Node>, hf: nat, hl: nat, ns3: seq<Node>, last': nat)
    requires block.Block? && k < |block.body|
    requires Piece(ns1, |ns0|, last) == BlockUpTo(ns0, block, k)
    requires Piece(ns2, hf, hl) == GraphOf(ns1, block.body[k])
    requires ns3 == ns2[last := ns2[last].(stmts := ns2[last].stmts + ns2[hf].stmts, children := ns2[hf].children)]
    requires last' == if ns3[hf].stmts != ns3[hl].stmts then hl else last
    ensures Piece(ns3, |ns0|, last') == BlockUpTo(ns0, block, k + 1)
  {
  }

  /** Merging a new statement graph into the graph under construction keeps it
      a fragment. */
  lemma MergeFragment(ns0: seq<Node>, ns1: seq<Node>, ns2: seq<Node>, ns3: seq<Node>,
                      first: nat, last: nat, hf: nat, hl: nat, last': nat)
    requires Fragment(ns0, ns1, first, last) && Fragment(ns1, ns2, hf, hl)
    requires ns3 == ns2[last := ns2[last].(stmts := ns2[last].stmts + ns2[hf].stmts, children := ns2[hf].children)]
    requires last' == hl || last' == last
    ensures Fragment(ns0, ns3, first, last')
  {
    FragmentGrows(ns0, ns1, ns2, |ns1|);
    assert ns3[..|ns0|] == ns2[..|ns0|];
    forall i, k | |ns0| <= i < |ns3| && 0 <= k < |ns3[i].children| ensures |ns0| <= ns3[i].children[k] {
      if i == last {
        assert ns3[i].children[k] == ns2[hf].children[k];
      } else if i < |ns1| {
        assert ns2[i] == ns1[i];
      }
    }
  }

  /** Merging the graph of one more straight-line statement keeps the graph a
      single block that holds their elements in order. */
  lemma MergeStraight(ns0: seq<Node>, ns1: seq<Node>, ns2: seq<Node>, ns3: seq<Node>,
                      first: nat, last: nat, hf: nat, hl: nat, last': nat, body: seq<Stmt>, k: nat)
    requires k < |body| && Fragment(ns0, ns1, first, last) && first == |ns0| && Fragment(ns1, ns2, hf, hl)
    requires StraightLine(body[..k]) ==>
               first == last && ns1[first].stmts == StraightEntries(body[..k]) && ns1[first].children == []
    requires body[k].Decl? ==> hf == hl && ns2[hf] == EmptyNode
    requires body[k].Single? ==> hf == hl && ns2[hf] == EmptyNode.(stmts := [Stmt(body[k].sid, body[k].s)])
    requires ns3 == ns2[last := ns2[last].(stmts := ns2[last].stmts + ns2[hf].stmts, children := ns2[hf].children)]
    requires last' == if ns3[hf].stmts != ns3[hl].stmts then hl else last
    ensures StraightLine(body[..k + 1]) ==>
              first == last' && ns3[first].stmts == StraightEntries(body[..k + 1]) && ns3[first].children == []
  {
    assert body[..k + 1][..k] == body[..k];
    if StraightLine(body[..k + 1]) {
      assert body[..k + 1][k] == body[k];
      assert StraightLine(body[..k]);
      assert ns2[last] == ns1[last] by {
        assert ns2[..|ns1|] == ns1;
      }
    }
  }

  lemma AppendKeepsFragment(ns0: seq<Node>, ns: seq<Node>, first: nat, last: nat, en: Entry)
    requires Fragment(ns0, ns, first, last)
    ensures Fragment(ns0, ns[last := ns[last].(stmts := ns[last].stmts + [en])], first, last)
  {
    var ns' := ns[last := ns[last].(stmts := ns[last].stmts + [en])];
    assert ns'[..|ns0|] == ns[..|ns0|];
  }

  lemma AddChildKeepsFragment(ns0: seq<Node>, ns: seq<Node>, first: nat, last: nat, i: nat, c: nat)
    requires Fragment(ns0, ns, first, last) && |ns0| <= i < |ns| && |ns0| <= c
    ensures Fragment(ns0, ns[i := ns[i].(children := ns[i].children + [c])], first, last)
  {
    var ns' := ns[i := ns[i].(children := ns[i].children + [c])];
    assert ns'[..|ns0|] == ns[..|ns0|];
  }

  /** The common shape of a branch graph: a new graph whose entry block holds
      just the condition and whose last block is a new empty end block. */
  predicate BranchShape(ns0: seq<Node>, ns: seq<Node>, first: nat, last: nat, cid: nat, cond: Condition) {
    && Fragment(ns0, ns, first, last)
    && ns[first].stmts == [Test(cid, cond)]
    && ns[last] == EmptyNode
  }

  /** The last successor of block `i`. */
  function LastChild(ns: seq<Node>, i: nat): nat
    requires i < |ns| && |ns[i].children| > 0
  {
    ns[i].children[|ns[i].children| - 1]
  }

  /** `gBranch` on an `if`: the entry's successors are the then-part and then
      the else-part, or the end block when there is none; each part's last
      block gets the end block as its last successor. */
  method GIf(store: NodeStore, stmt: Stmt) returns (g: Graph, ghost thenFirst: nat, ghost thenLast: nat,
                                                   ghost elseFirst: nat, ghost elseLast: nat)
    requires store.Valid() && stmt.If?
    modifies store
    ensures fresh(g) && g.store == store && g.Valid() && store.labelNum == old(store.labelNum)
    ensures g.func == None && g.toSpill == {}
    ensures BranchShape(old(store.nodes), store.nodes, g.first, g.last, stmt.cid, stmt.cond)
    ensures thenLast < |store.nodes| && |store.nodes[thenLast].children| > 0
    ensures LastChild(store.nodes, thenLast) == g.last
    ensures stmt.elsePart.None? ==> store.nodes[g.first].children == [thenFirst, g.last]
    ensures stmt.elsePart.Some? ==>
              && store.nodes[g.first].children == [thenFirst, elseFirst]
              && elseLast < |store.nodes| && |store.nodes[elseLast].children| > 0
              && LastChild(store.nodes, elseLast) == g.last
    ensures Piece(store.nodes, g.first, g.last) == GraphOf(old(store.nodes), stmt)
    ensures PartEnds(old(store.nodes), stmt, thenFirst, thenLast, elseFirst, elseLast)
    decreases stmt, 1
  {
    var h, e, tf, tl := AttachThen(store, stmt);
    thenFirst, thenLast, elseFirst, elseLast := tf, tl, 0, 0;
    if stmt.elsePart.Some? {
      assert stmt.elsePart.value < stmt;
      elseFirst, elseLast := AttachElse(store, stmt.elsePart.value, old(store.nodes), h, tl, e, stmt.cid, stmt.cond);
    } else {
      AddChildKeepsFragment(old(store.nodes), store.nodes, h, e, h, e);
      store.AddChild(h, e);
      assert [tf] + [e] == [tf, e];
    }
    g := new Graph.Over(store, h, e);
  }

  /** The first half of `gBranch` on an `if`: the condition block, the
      then-part wired to it, and the end block as the then-part's last
      successor. */
  method AttachThen(store: NodeStore, stmt: Stmt) returns (h: nat, e: nat, ghost tf: nat, ghost tl: nat)
    requires store.Valid() && stmt.If?
    modifies store
    ensures store.Valid() && store.labelNum == old(store.labelNum)
    ensures BranchShape(old(store.nodes), store.nodes, h, e, stmt.cid, stmt.cond) && h == |old(store.nodes)|
    ensures store.nodes[h].children == [tf] && h != tl
    ensures tl < |store.nodes| && |store.nodes[tl].children| > 0 && LastChild(store.nodes, tl) == e
    ensures store.nodes == ThenWiredOf(old(store.nodes), stmt) && e == |ThenOf(old(store.nodes), stmt).ns|
    ensures tf == ThenOf(old(store.nodes), stmt).first && tl == ThenOf(old(store.nodes), stmt).last
    decreases stmt, 0
  {
    ghost var ns0 := store.nodes;
    var g := new Graph(store);
    store.AppendEntry(g.last, Test(stmt.cid, stmt.cond));
    assert [] + [Test(stmt.cid, stmt.cond)] == [Test(stmt.cid, stmt.cond)];
    assert store.nodes == ns0 + [EmptyNode.(stmts := [Test(stmt.cid, stmt.cond)])];
    ghost var ns1 := store.nodes;
    var thengraph, _, _, _, _ := GStatement(store, stmt.thenPart);
    ghost var nst := store.nodes;
    var endgraph := new Graph(store);
    var f, l := thengraph.first, thengraph.last;
    h, e := g.first, endgraph.first;
    ghost var ns2 := store.nodes;
    assert ns2 == nst + [EmptyNode];
    store.AddChild(h, f);
    assert store.nodes == ns2[h := nst[h].(children := nst[h].children + [f])];
    store.AddChild(l, e);
    ghost var nsw := store.nodes;
    assert nsw == ns2[h := nst[h].(children := nst[h].children + [f])][l := nst[l].(children := nst[l].children + [e])];
    ThenWired(ns0, ns1, nst, nsw, h, f, l, e, stmt.cid, stmt.cond);
    tf, tl := f, l;
  }

  /** The `if` graph once the then-part is wired: the entry's successor list
      is the then-part's entry and the then-part's last block ends with the
      end block. */
  lemma ThenWired(ns0: seq<Node>, ns1: seq<Node>, nst: seq<Node>, nsw: seq<Node>,
                  h: nat, tf: nat, tl: nat, e: nat, cid: nat, cond: Condition)
    requires h == |ns0| && ns1 == ns0 + [EmptyNode.(stmts := [Test(cid, cond)])]
    requires Fragment(ns1, nst, tf, tl) && e == |nst|
    requires nsw == (nst + [EmptyNode])[h := nst[h].(children := nst[h].children + [tf])]
                                       [tl := nst[tl].(children := nst[tl].children + [e])]
    ensures BranchShape(ns0, nsw, h, e, cid, cond)
    ensures nsw[h].children == [tf] && tl < |nsw| && |nsw[tl].children| > 0 && LastChild(nsw, tl) == e
  {
    assert nst[h] == ns1[h];
    assert nsw[..|ns0|] == ns0 by {
      assert nst[..|ns0|] == nst[..|ns1|][..|ns0|];
    }
    forall i, k | |ns0| <= i < |nsw| && 0 <= k < |nsw[i].children| ensures |ns0| <= nsw[i].children[k] {
      if i != h && i != tl && i != e {
        assert nsw[i] == nst[i];
      }
    }
  }

  /** The else-part of `gBranch` on an `if`: its graph gets built, its entry
      becomes the condition block's second successor and its last block gets
      the end block as a successor. */
  method AttachElse(store: NodeStore, part: Stmt, ghost ns0: seq<Node>, h: nat, ghost tl: nat, e: nat,
                    ghost cid: nat, ghost cond: Condition)
      returns (ghost ef: nat, ghost el: nat)
    requires store.Valid() && BranchShape(ns0, store.nodes, h, e, cid, cond) && h == |ns0|
    requires |store.nodes[h].children| == 1 && h != tl
    requires tl < |store.nodes| && |store.nodes[tl].children| > 0 && LastChild(store.nodes, tl) == e
    modifies store
    ensures store.Valid() && store.labelNum == old(store.labelNum)
    ensures BranchShape(ns0, store.nodes, h, e, cid, cond)
    ensures store.nodes[h].children == old(store.nodes[h].children) + [ef]
    ensures tl < |store.nodes| && |store.nodes[tl].children| > 0 && LastChild(store.nodes, tl) == e
    ensures el < |store.nodes| && |store.nodes[el].children| > 0 && LastChild(store.nodes, el) == e
    ensures var p := GraphOf(old(store.nodes), part);
            ef == p.first && el == p.last && h < |p.ns| && store.nodes == AddEdge(AddEdge(p.ns, h, ef), el, e)
    decreases part, 4
  {
    ghost var nsw := store.nodes;
    var elsegraph, _, _, _, _ := GStatement(store, part);
    var f, l := elsegraph.first, elsegraph.last;
    ghost var nse := store.nodes;
    store.AddChild(h, f);
    store.AddChild(l, e);
    ElseWired(ns0, nsw, nse, store.nodes, h, tl, f, l, e, cid, cond);
    ef, el := f, l;
  }

  /** The `if` graph once the else-part is wired too. */
  lemma ElseWired(ns0: seq<Node>, nsw: seq<Node>, nse: seq<Node>, ns3: seq<Node>,
                  h: nat, tl: nat, ef: nat, el: nat, e: nat, cid: nat, cond: Condition)
    requires BranchShape(ns0, nsw, h, e, cid, cond) && h == |ns0| && |nsw[h].children| == 1
    requires tl < |nsw| && |nsw[tl].children| > 0 && LastChild(nsw, tl) == e && h != tl
    requires Fragment(nsw, nse, ef, el)
    requires ns3 == nse[h := nse[h].(children := nse[h].children + [ef])]
                       [el := nse[el].(children := nse[el].children + [e])]
    ensures BranchShape(ns0, ns3, h, e, cid, cond)
    ensures ns3[h].children == nsw[h].children + [ef]
    ensures tl < |ns3| && |ns3[tl].children| > 0 && LastChild(ns3, tl) == e
    ensures el < |ns3| && |ns3[el].children| > 0 && LastChild(ns3, el) == e
  {
    assert nse[h] == nsw[h] && nse[tl] == nsw[tl] && nse[e] == nsw[e];
    assert ns3[..|ns0|] == ns0 by {
      assert nse[..|ns0|] == nse[..|nsw|][..|ns0|];
    }
    forall i, k | |ns0| <= i < |ns3| && 0 <= k < |ns3[i].children| ensures |ns0| <= ns3[i].children[k] {
      if i != h && i != el {
        assert ns3[i] == nse[i];
        if i < |nsw| {
          assert nse[i] == nsw[i];
        }
      }
    }
  }

  /** `gBranch` on a `while`: the entry's successors are the entry itself,
      the body and the end block; the body's last block gets the entry as its
      last successor (the back edge). */
  method GLoop(store: NodeStore, stmt: Stmt) returns (g: Graph, ghost bodyFirst: nat, ghost bodyLast: nat)
    requires store.Valid() && stmt.While?
    modifies store
    ensures fresh(g) && g.store == store && g.Valid() && store.labelNum == old(store.labelNum)
    ensures g.func == None && g.toSpill == {}
    ensures BranchShape(old(store.nodes), store.nodes, g.first, g.last, stmt.cid, stmt.cond)
    ensures store.nodes[g.first].children == [g.first, bodyFirst, g.last]
    ensures bodyLast < |store.nodes| && |store.nodes[bodyLast].children| > 0
    ensures LastChild(store.nodes, bodyLast) == g.first
    ensures Piece(store.nodes, g.first, g.last) == GraphOf(old(store.nodes), stmt)
    ensures PartEnds(old(store.nodes), stmt, bodyFirst, bodyLast, 0, 0)
    decreases stmt, 1
  {
    ghost var ns0 := store.nodes;
    g := new Graph(store);
    store.AppendEntry(g.last, Test(stmt.cid, stmt.cond));
    assert [] + [Test(stmt.cid, stmt.cond)] == [Test(stmt.cid, stmt.cond)];
    assert store.nodes == ns0 + [EmptyNode.(stmts := [Test(stmt.cid, stmt.cond)])];
    ghost var ns1 := store.nodes;
    var loopgraph, _, _, _, _ := GStatement(store, stmt.loopBody);
    ghost var nsb := store.nodes;
    var endgraph := new Graph(store);
    var h, bf, bl, e := g.first, loopgraph.first, loopgraph.last, endgraph.first;
    store.WireLoop(h, bf, bl, e);
    LoopWired(ns0, ns1, nsb, store.nodes, h, bf, bl, e, stmt.cid, stmt.cond);
    bodyFirst, bodyLast := bf, bl;
    g.last := e;
  }

  lemma LoopWired(ns0: seq<Node>, ns1: seq<Node>, nsb: seq<Node>, ns3: seq<Node>,
                  h: nat, bf: nat, bl: nat, e: nat, cid: nat, cond: Condition)
    requires h == |ns0| && ns1 == ns0 + [EmptyNode.(stmts := [Test(cid, cond)])]
    requires Fragment(ns1, nsb, bf, bl) && e == |nsb|
    requires ns3 == (nsb + [EmptyNode])[h := nsb[h].(children := nsb[h].children + [h, bf, e])]
                                       [bl := nsb[bl].(children := nsb[bl].children + [h])]
    ensures BranchShape(ns0, ns3, h, e, cid, cond)
    ensures ns3[h].children == [h, bf, e] && bl < |ns3| && |ns3[bl].children| > 0 && LastChild(ns3, bl) == h
  {
    assert nsb[h] == ns1[h];
    assert ns3[..|ns0|] == ns0 by {
      assert nsb[..|ns0|] == nsb[..|ns1|][..|ns0|];
    }
    forall i, k | |ns0| <= i < |ns3| && 0 <= k < |ns3[i].children| ensures |ns0| <= ns3[i].children[k] {
      if i != h && i != bl && i != e {
        assert ns3[i] == nsb[i];
      }
    }
  }

  /** The edges of an `if` graph with entry `first` and end block `last`:
      the entry's successors are the then-part's entry `tf` and the else-part's
      entry `ef`, or the end block when there is no else-part; each part's last
      block (`tl`, `el`) has the end block as its last successor. */
  predicate IfWiring(ns: seq<Node>, first: nat, last: nat, stmt: Stmt, tf: nat, tl: nat, ef: nat, el: nat)
    requires first < |ns| && stmt.If?
  {
    && tl < |ns| && |ns[tl].children| > 0 && LastChild(ns, tl) == last
    && (stmt.elsePart.None? ==> ns[first].children == [tf, last])
    && (stmt.elsePart.Some? ==>
          && ns[first].children == [tf, ef]
          && el < |ns| && |ns[el].children| > 0 && LastChild(ns, el) == last)
  }

  /** The edges of a `while` graph with entry `first` and end block `last`:
      the entry's successors are itself, the body's entry `bf` and the end
      block; the body's last block `bl` has the entry as its last successor. */
  predicate WhileWiring(ns: seq<Node>, first: nat, last: nat, bf: nat, bl: nat)
    requires first < |ns|
  {
    && ns[first].children == [first, bf, last]
    && bl < |ns| && |ns[bl].children| > 0 && LastChild(ns, bl) == first
  }

  /** `gBranch`: an `if` or a `while` is built as above, and the ghost results
      name the blocks its edges join; any other statement is not a branch and
      fails. */
  method GBranch(store: NodeStore, stmt: Stmt) returns (r: Result<Graph>, ghost a: nat, ghost b: nat,
                                                       ghost c: nat, ghost d: nat)
    requires store.Valid()
    modifies store
    ensures r.Ok? <==> stmt.If? || stmt.While?
    ensures r.Err? ==> r.error == NotABranch && store.nodes == old(store.nodes)
    ensures store.Valid() && store.labelNum == old(store.labelNum)
    ensures r.Ok? ==> fresh(r.value) && r.value.store == store && r.value.Valid()
    ensures r.Ok? ==> r.value.func == None && r.value.toSpill == {}
    ensures r.Ok? ==> BranchShape(old(store.nodes), store.nodes, r.value.first, r.value.last, stmt.cid, stmt.cond)
    ensures r.Ok? && stmt.If? ==> IfWiring(store.nodes, r.value.first, r.value.last, stmt, a, b, c, d)
    ensures r.Ok? && stmt.While? ==> WhileWiring(store.nodes, r.value.first, r.value.last, a, b)
    ensures r.Ok? ==> Piece(store.nodes, r.value.first, r.value.last) == GraphOf(old(store.nodes), stmt)
    ensures PartEnds(old(store.nodes), stmt, a, b, c, d)
    decreases stmt, 2
  {
    a, b, c, d := 0, 0, 0, 0;
    match stmt
    case If(_, _, _, _) =>
      var g;
      g, a, b, c, d := GIf(store, stmt);
      r := Ok(g);
    case While(_, _, _) =>
      var g;
      g, a, b := GLoop(store, stmt);
      r := Ok(g);
    case _ =>
      r := Err(NotABranch);
  }

  /** `gFunction`: the graph of the function body, tagged with the function;
      when `hasReturn` answers false a `return 0` of the function's type is
      appended to the last block, with a warning unless the function is void.
      That return is a new statement object: its identity `rid` is none of the
      body's. A straight-line body gets it exactly when it has no return. */
  method GFunction(store: NodeStore, f: Function, rid: nat) returns (g: Graph, warned: bool, hasRet: bool)
    requires store.Valid() && forall k :: 0 <= k < |f.block| ==> IdFree(f.block[k], rid)
    modifies store
    ensures fresh(g) && g.store == store && g.Valid() && store.labelNum == old(store.labelNum)
    ensures g.func == Some(f) && g.toSpill == {}
    ensures Fragment(old(store.nodes), store.nodes, g.first, g.last)
    ensures hasRet ==> AllPathsReturn(store.nodes, g.first)
    ensures !hasRet ==>
              && |store.nodes[g.last].stmts| > 0
              && store.nodes[g.last].stmts[|store.nodes[g.last].stmts| - 1] == Stmt(rid, Return(Const(f.stype, 0)))
    ensures warned <==> !hasRet && f.stype != TVoid
    ensures StraightLine(f.block) ==> (hasRet <==> HasReturnStmt(StraightEntries(f.block)))
    ensures var p := BlockUpTo(old(store.nodes), Block(f.block), |f.block|);
            && g.first == p.first && g.last == p.last
            && store.nodes == if hasRet then p.ns else Returned(p.ns, p.last, Stmt(rid, Return(Const(f.stype, 0))))
  {
    g := GBlock(store, Block(f.block));
    g.func := Some(f);
    hasRet := FinishFunction(store, g, Stmt(rid, Return(Const(f.stype, 0))), f.block, old(store.nodes));
    warned := false;
    if !hasRet {
      warned := f.stype != TVoid;
    }
  }

  /** The arena with `en` appended to block `i`. */
  function Returned(ns: seq<Node>, i: nat, en: Entry): (r: seq<Node>)
    requires i < |ns|
    ensures |r| == |ns| && r[i].stmts == ns[i].stmts + [en] && r[i].children == ns[i].children
    ensures forall j :: 0 <= j < |ns| && j != i ==> r[j] == ns[j]
  {
    ns[i := ns[i].(stmts := ns[i].stmts + [en])]
  }

  /** The graph `gFunction` builds, with or without the appended return,
      has no filled block among its new ones. */
  lemma FunctionUnfilled(ns: seq<Node>, block: Stmt, en: Entry)
    requires block.Block?
    ensures var p := BlockUpTo(ns, block, |block.body|);
            Unfilled(p.ns, |ns|) && Unfilled(Returned(p.ns, p.last, en), |ns|)
  {
    var p := BlockUpTo(ns, block, |block.body|);
    BlockUpToUnfilled(ns, block, |block.body|, |ns|);
    ReturnedUnfilled(p.ns, p.last, en, |ns|);
  }

  lemma ReturnedUnfilled(ns: seq<Node>, i: nat, en: Entry, lo: nat)
    requires i < |ns| && Unfilled(ns, lo)
    ensures Unfilled(Returned(ns, i, en), lo)
  {
  }

  /** The end of `gFunction`: `hasReturn`, and the appended return `ret`
      when it answers false. */
  method FinishFunction(store: NodeStore, g: Graph, ret: Entry, body: seq<Stmt>, ghost ns0: seq<Node>)
      returns (hasRet: bool)
    requires store.Valid() && g.store == store && g.Valid() && Fragment(ns0, store.nodes, g.first, g.last)
    requires StraightLine(body) ==>
               g.first == g.last && store.nodes[g.first].stmts == StraightEntries(body) &&
               store.nodes[g.first].children == []
    modifies store
    ensures g.Valid() && store.labelNum == old(store.labelNum)
    ensures store.nodes == if hasRet then old(store.nodes) else Returned(old(store.nodes), g.last, ret)
    ensures Fragment(ns0, store.nodes, g.first, g.last)
    ensures hasRet ==> AllPathsReturn(store.nodes, g.first)
    ensures !hasRet ==>
              && |store.nodes[g.last].stmts| > 0 && store.nodes[g.last].stmts[|store.nodes[g.last].stmts| - 1] == ret
    ensures StraightLine(body) ==> (hasRet <==> HasReturnStmt(StraightEntries(body)))
  {
    hasRet := g.HasReturn();
    if !hasRet {
      AppendKeepsFragment(ns0, store.nodes, g.first, g.last, ret);
      store.AppendEntry(g.last, ret);
    }
  }

}
