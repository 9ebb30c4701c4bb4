/** The greedy register allocator: per-block access and cross sets built after
    liveness, a pressure check, frequency ranking of the candidates and the
    assignment of the lowest free register to each in turn. */
module RegAlloc {
  import opened Common
  import opened IR
  import opened Cfg

  /** One allocation set of a block. Python keeps the variables and the
      register numbers that replaced them in one set; a variable never
      compares equal to a number, so the model keeps the two kinds apart. */
  datatype Pool = Pool(vars: set<Variable>, regs: set<nat>) {
    /** `len` of the set. */
    function Size(): nat {
      |vars| + |regs|
    }
  }

  /** The variables a block reads or writes. */
  function AccessVars(n: Node): set<Variable> {
    n.gen + n.kill
  }

  /** The variables live on entry or exit of a block that it does not access;
      with the access variables they split the block's variables in two. */
  function CrossVars(n: Node): (r: set<Variable>)
    ensures r * AccessVars(n) == {}
    ensures r + AccessVars(n) == n.gen + n.kill + n.livein + n.liveout
  {
    (n.livein + n.liveout) - AccessVars(n)
  }

  /** `replace` on one set: `v` is taken out and `reg` put in, when `v` is
      there; otherwise the set is left alone. The set never grows. */
  function Subst(p: Pool, v: Variable, reg: nat): (r: Pool)
    ensures v !in r.vars && forall w :: w != v ==> (w in r.vars <==> w in p.vars)
    ensures reg in r.regs <==> v in p.vars || reg in p.regs
    ensures forall k :: k != reg ==> (k in r.regs <==> k in p.regs)
    ensures r.Size() <= p.Size()
  {
    if v in p.vars then Pool(p.vars - {v}, p.regs + {reg}) else p
  }

  /** The number of sets of `access` or `cross` (position by position) that
      hold `v`: in how many blocks `v` is accessed or live across. */
  function Frequency(v: Variable, access: seq<Pool>, cross: seq<Pool>): (r: nat)
    requires |access| == |cross|
    ensures r <= |access|
  {
    if access == [] then 0
    else
      var n := |access| - 1;
      Frequency(v, access[..n], cross[..n]) + (if v in access[n].vars || v in cross[n].vars then 1 else 0)
  }

  predicate NoDup<T(==)>(s: seq<T>) {
    forall i, j :: 0 <= i < j < |s| ==> s[i] != s[j]
  }

  function SeqSet<T>(s: seq<T>): set<T> {
    set x | x in s
  }

  lemma {:induction false} NoDupSize<T>(s: seq<T>)
    requires NoDup(s)
    ensures |SeqSet(s)| == |s|
  {
    if s != [] {
      var p := s[..|s| - 1];
      NoDupSize(p);
      assert SeqSet(s) == SeqSet(p) + {s[|s| - 1]};
      assert s[|s| - 1] !in SeqSet(p);
    }
  }

  lemma {:induction false} MaxExists(rem: set<Variable>, freq: map<Variable, nat>)
    requires rem != {} && rem <= freq.Keys
    ensures exists v :: v in rem && forall w :: w in rem ==> freq[w] <= freq[v]
  {
    var x :| x in rem;
    if rem != {x} {
      MaxExists(rem - {x}, freq);
      var y :| y in rem - {x} && forall w :: w in rem - {x} ==> freq[w] <= freq[y];
      if freq[x] > freq[y] {
        assert forall w :: w in rem ==> freq[w] <= freq[x];
      } else {
        assert forall w :: w in rem ==> freq[w] <= freq[y];
      }
    } else {
      assert forall w :: w in rem ==> freq[w] <= freq[x];
    }
  }

  /** `sorted(vars, key = frequency, reverse = True)`: the variables, each once,
      by non-increasing frequency. The order among equal frequencies follows
      the iteration order of a set and is left open. */
  method SortByFrequency(vs: set<Variable>, freq: map<Variable, nat>) returns (order: seq<Variable>)
    requires vs <= freq.Keys
    ensures NoDup(order) && |order| == |vs|
    ensures forall v :: v in order <==> v in vs
    ensures forall i, j :: 0 <= i < j < |order| ==> freq[order[i]] >= freq[order[j]]
  {
    var rem := vs;
    order := [];
    while rem != {}
      invariant rem <= vs && NoDup(order)
      invariant forall v :: v in vs <==> v in order || v in rem
      invariant forall v :: v in order ==> v !in rem
      invariant forall i, j :: 0 <= i < j < |order| ==> freq[order[i]] >= freq[order[j]]
      invariant forall i, w :: 0 <= i < |order| && w in rem ==> freq[order[i]] >= freq[w]
      decreases |rem|
    {
      MaxExists(rem, freq);
      var v :| v in rem && forall w :: w in rem ==> freq[w] <= freq[v];
      order := order + [v];
      rem := rem - {v};
    }
    NoDupSize(order);
    assert SeqSet(order) == vs;
  }

  /** `toSpill` on the tables: the positions, in order, of the blocks whose
      access and cross sets together hold more than `nreg` elements. */
  function Overfull(access: seq<Pool>, cross: seq<Pool>, nreg: nat): (r: seq<nat>)
    requires |access| == |cross|
    ensures forall j: nat :: j in r <==> j < |access| && access[j].Size() + cross[j].Size() > nreg
    ensures forall a, b :: 0 <= a < b < |r| ==> r[a] < r[b]
  {
    if access == [] then []
    else
      var n := |access| - 1;
      var p := Overfull(access[..n], cross[..n], nreg);
      OverfullSnoc(access, cross, nreg, p);
      p + (if access[n].Size() + cross[n].Size() > nreg then [n] else [])
  }

  /** One more block: its position joins the list after all earlier ones
      exactly when it is over pressure. */
  lemma OverfullSnoc(access: seq<Pool>, cross: seq<Pool>, nreg: nat, p: seq<nat>)
    requires |access| == |cross| > 0
    requires forall j: nat :: j in p <==> j < |access| - 1 && access[j].Size() + cross[j].Size() > nreg
    requires forall a, b :: 0 <= a < b < |p| ==> p[a] < p[b]
    ensures var n := |access| - 1; var r := p + (if access[n].Size() + cross[n].Size() > nreg then [n] else []);
            && (forall j: nat :: j in r <==> j < |access| && access[j].Size() + cross[j].Size() > nreg)
            && (forall a, b :: 0 <= a < b < |r| ==> r[a] < r[b])
  {
    assert forall a :: 0 <= a < |p| ==> p[a] in p;
  }

  /** A block's set after `replace(q[0], 0)`, `replace(q[1], 1)`, ... in turn. */
  function Renamed(p: Pool, q: seq<Variable>): Pool {
    if q == [] then p
    else
      var n := |q| - 1;
      Subst(Renamed(p, q[..n]), q[n], n)
  }

  /** Renaming a queue of distinct variables to the registers numbered by
      their positions: a queued variable is gone, every other one stays, and
      register `i` is present exactly when it was already or `q[i]` was. */
  lemma {:induction false} RenamedContents(p: Pool, q: seq<Variable>)
    requires NoDup(q)
    ensures forall w :: w in Renamed(p, q).vars <==> w in p.vars && w !in q
    ensures forall i: nat :: i in Renamed(p, q).regs <==> i in p.regs || (i < |q| && q[i] in p.vars)
  {
    if q != [] {
      var n := |q| - 1;
      var pre := q[..n];
      assert NoDup(pre);
      RenamedContents(p, pre);
      assert q == pre + [q[n]];
      assert q[n] !in pre;
      forall i: nat
        ensures i in Renamed(p, q).regs <==> i in p.regs || (i < |q| && q[i] in p.vars)
      {
        if i < n {
          assert q[i] == pre[i];
        }
      }
    }
  }

  lemma RenamedStep(p: Pool, q: seq<Variable>, k: nat)
    requires k < |q|
    ensures Renamed(p, q[..k + 1]) == Subst(Renamed(p, q[..k]), q[k], k)
  {
    assert q[..k + 1][..k] == q[..k];
  }

  /** Registers handed out by position to a queue that lists every key once:
      every key has a register below the queue's length, and no two keys share
      one. */
  lemma {:induction false} ByPositionDistinct(vars: map<Variable, Option<nat>>, q: seq<Variable>)
    requires forall w :: w in vars <==> w in q
    requires forall i :: 0 <= i < |q| ==> vars[q[i]] == Some(i)
    ensures forall a :: a in vars ==> vars[a].Some? && vars[a].value < |q|
    ensures forall a, b :: a in vars && b in vars && a != b ==> vars[a] != vars[b]
  {
    forall a | a in vars
      ensures exists i :: 0 <= i < |q| && q[i] == a
    {
      assert a in q;
    }
  }

  /** The access and cross sets of the blocks `ns` lists in `bl`, by
      position: access = gen + kill, cross = (livein + liveout) - access, and
      no register yet. */
  ghost predicate Tabulated(ns: seq<Node>, bl: seq<nat>, acc: seq<Pool>, cr: seq<Pool>)
    requires InRange(ns, bl)
  {
    && |acc| == |bl| && |cr| == |bl|
    && forall j :: 0 <= j < |bl| ==>
         acc[j] == Pool(AccessVars(ns[bl[j]]), {}) && cr[j] == Pool(CrossVars(ns[bl[j]]), {})
  }

  /** The allocator's state right after construction: every variable
      unassigned and queued once, no register in any set, and the variables
      exactly those of the last listed block. */
  ghost predicate Initial(acc: seq<Pool>, cr: seq<Pool>, vars: map<Variable, Option<nat>>, order: seq<Variable>)
    requires |acc| == |cr| > 0
  {
    && (forall v :: v in vars ==> vars[v] == None)
    && (forall v :: v in vars <==> v in order)
    && NoDup(order)
    && (forall j :: 0 <= j < |acc| ==> acc[j].regs == {} && cr[j].regs == {})
    && (forall v :: v in vars <==> v in acc[|acc| - 1].vars || v in cr[|cr| - 1].vars)
  }

  /** The tables of the listed blocks with every candidate unassigned are an
      initial state. */
  lemma BuildInitial(ns: seq<Node>, bl: seq<nat>, acc: seq<Pool>, cr: seq<Pool>, cand: set<Variable>, order: seq<Variable>)
    requires InRange(ns, bl) && |bl| > 0 && Tabulated(ns, bl, acc, cr)
    requires cand == AccessVars(ns[bl[|bl| - 1]]) + CrossVars(ns[bl[|bl| - 1]])
    requires NoDup(order) && (forall v :: v in order <==> v in cand)
    ensures Initial(acc, cr, map v | v in cand :: None, order)
  {
  }

  /** What the constructor leaves on a graph with entry `first` whose arena
      was `ns0`: liveness ran from `ns0` to `ns` over the listed blocks `bl`,
      entry first; `acc` and `cr` are their tables; every variable of the
      last listed block is a candidate, unassigned, and `order` queues the
      candidates once each by non-increasing frequency. */
  ghost predicate Prepared(ns0: seq<Node>, ns: seq<Node>, first: nat, bl: seq<nat>, acc: seq<Pool>, cr: seq<Pool>,
                           m: map<Variable, Option<nat>>, order: seq<Variable>)
  {
    && LivenessRan(ns0, ns, first, bl) && |bl| > 0 && bl[0] == first
    && Tabulated(ns, bl, acc, cr)
    && m.Keys == AccessVars(ns[bl[|bl| - 1]]) + CrossVars(ns[bl[|bl| - 1]])
    && Initial(acc, cr, m, order) && Ranked(order, acc, cr)
  }

  /** `order` by non-increasing frequency over the tables. */
  ghost predicate Ranked(order: seq<Variable>, acc: seq<Pool>, cr: seq<Pool>)
    requires |acc| == |cr|
  {
    forall i, j :: 0 <= i < j < |order| ==> Frequency(order[i], acc, cr) >= Frequency(order[j], acc, cr)
  }

  /** A queue that lists each variable of two sets once is no longer than the
      two sets together. */
  lemma QueueBound(q: seq<Variable>, a: Pool, c: Pool)
    requires NoDup(q) && forall v :: v in q <==> v in a.vars || v in c.vars
    ensures |q| <= a.Size() + c.Size()
  {
    NoDupSize(q);
    assert SeqSet(q) == a.vars + c.vars;
  }

  /** The values of a register map, `None` included. */
  function Held(vars: map<Variable, Option<nat>>): (r: set<Option<nat>>)
    ensures forall o :: o in r <==> exists v :: v in vars && vars[v] == o
  {
    set v | v in vars :: vars[v]
  }

  /** The allocation after the first `k` variables of the queue `q` (which
      lists every variable once) got registers `0 .. k - 1`, from the tables
      `acc0` and `cr0`: the rest of the queue is still to do, the others are
      unassigned, and the tables are renamed accordingly. */
  ghost predicate AssignedUpTo(vars: map<Variable, Option<nat>>, rest: seq<Variable>,
                               access: seq<Pool>, cross: seq<Pool>,
                               q: seq<Variable>, acc0: seq<Pool>, cr0: seq<Pool>, k: nat)
  {
    && k <= |q| && rest == q[k..] && NoDup(q)
    && (forall w :: w in vars <==> w in q)
    && (forall i :: 0 <= i < k ==> vars[q[i]] == Some(i))
    && (forall w :: w in vars && w !in q[..k] ==> vars[w] == None)
    && |access| == |acc0| && |cross| == |cr0|
    && (forall j :: 0 <= j < |acc0| ==> access[j] == Renamed(acc0[j], q[..k]))
    && (forall j :: 0 <= j < |cr0| ==> cross[j] == Renamed(cr0[j], q[..k]))
  }

  /** Midway through, the next variable is unassigned and register `k` is
      the lowest one no variable holds. */
  lemma FreeAt(vars: map<Variable, Option<nat>>, rest: seq<Variable>, access: seq<Pool>, cross: seq<Pool>,
               q: seq<Variable>, acc0: seq<Pool>, cr0: seq<Pool>, k: nat)
    requires AssignedUpTo(vars, rest, access, cross, q, acc0, cr0, k) && k < |q|
    ensures vars[q[k]] == None
    ensures Some(k) !in Held(vars) && forall i :: 0 <= i < k ==> Some(i) in Held(vars)
  {
    assert q[k] !in q[..k];
    forall w | w in vars && w in q[..k]
      ensures vars[w] != Some(k)
    {
      var i :| 0 <= i < k && q[..k][i] == w;
      assert q[i] == w;
    }
    forall i | 0 <= i < k
      ensures Some(i) in Held(vars)
    {
      assert vars[q[i]] == Some(i);
    }
  }

  /** Giving the next variable register `k` advances the allocation by one. */
  lemma AssignStep(vars0: map<Variable, Option<nat>>, access0: seq<Pool>, cross0: seq<Pool>,
                   vars: map<Variable, Option<nat>>, access: seq<Pool>, cross: seq<Pool>,
                   q: seq<Variable>, acc0: seq<Pool>, cr0: seq<Pool>, k: nat)
    requires k < |q| && AssignedUpTo(vars0, q[k..], access0, cross0, q, acc0, cr0, k)
    requires vars == vars0[q[k] := Some(k)]
    requires |access| == |access0| && forall j :: 0 <= j < |access| ==> access[j] == Subst(access0[j], q[k], k)
    requires |cross| == |cross0| && forall j :: 0 <= j < |cross| ==> cross[j] == Subst(cross0[j], q[k], k)
    ensures AssignedUpTo(vars, q[k + 1..], access, cross, q, acc0, cr0, k + 1)
  {
    AssignMapStep(vars0, vars, q, k);
    RenamedAllStep(acc0, access0, access, q, k);
    RenamedAllStep(cr0, cross0, cross, q, k);
  }

  /** Mapping the next queued variable to its position keeps the map an
      assignment by position. */
  lemma AssignMapStep(vars0: map<Variable, Option<nat>>, vars: map<Variable, Option<nat>>, q: seq<Variable>, k: nat)
    requires k < |q| && NoDup(q) && (forall w :: w in vars0 <==> w in q)
    requires (forall i :: 0 <= i < k ==> vars0[q[i]] == Some(i))
    requires (forall w :: w in vars0 && w !in q[..k] ==> vars0[w] == None)
    requires vars == vars0[q[k] := Some(k)]
    ensures (forall w :: w in vars <==> w in q)
    ensures (forall i :: 0 <= i < k + 1 ==> vars[q[i]] == Some(i))
    ensures (forall w :: w in vars && w !in q[..k + 1] ==> vars[w] == None)
  {
    forall i | 0 <= i < k
      ensures vars[q[i]] == Some(i)
    {
      assert q[i] != q[k];
    }
    assert q[..k + 1] == q[..k] + [q[k]];
    assert forall w :: w in vars && w !in q[..k + 1] ==> w != q[k] && w !in q[..k];
  }

  /** Renaming the next queued variable in every table of one kind. */
  lemma RenamedAllStep(t0: seq<Pool>, pre: seq<Pool>, post: seq<Pool>, q: seq<Variable>, k: nat)
    requires k < |q| && |pre| == |t0| && forall j :: 0 <= j < |t0| ==> pre[j] == Renamed(t0[j], q[..k])
    requires |post| == |pre| && forall j :: 0 <= j < |post| ==> post[j] == Subst(pre[j], q[k], k)
    ensures forall j :: 0 <= j < |t0| ==> post[j] == Renamed(t0[j], q[..k + 1])
  {
    forall j | 0 <= j < |t0|
      ensures post[j] == Renamed(t0[j], q[..k + 1])
    {
      RenamedStep(t0[j], q, k);
    }
  }

  /** The allocator over one function's graph: for each listed block (by
      position) its access and cross sets, the register map and the queue of
      variables still to assign. */
  class Allocator {
    const nreg: nat
    const blocks: seq<nat>
    var access: seq<Pool>
    var cross: seq<Pool>
    var vars: map<Variable, Option<nat>>
    var varFreq: seq<Variable>

    ghost predicate Valid()
      reads this
    {
      && |blocks| > 0 && |access| == |blocks| && |cross| == |blocks|
      && (forall v :: v in varFreq ==> v in vars)
    }

    /** The state right after construction (see `Initial`). */
    ghost predicate Fresh()
      reads this
      requires Valid()
    {
      Initial(access, cross, vars, varFreq)
    }

    /** The access and cross sets of the listed blocks, position by position. */
    static method Tabulate(ns: seq<Node>, bl: seq<nat>) returns (acc: seq<Pool>, cr: seq<Pool>)
      requires InRange(ns, bl)
      ensures |acc| == |bl| && |cr| == |bl|
      ensures forall j :: 0 <= j < |bl| ==>
                acc[j] == Pool(AccessVars(ns[bl[j]]), {}) && cr[j] == Pool(CrossVars(ns[bl[j]]), {})
    {
      acc, cr := [], [];
      for j := 0 to |bl|
        invariant |acc| == j && |cr| == j
        invariant forall i :: 0 <= i < j ==>
                    acc[i] == Pool(AccessVars(ns[bl[i]]), {}) && cr[i] == Pool(CrossVars(ns[bl[i]]), {})
      {
        var n := ns[bl[j]];
        acc := acc + [Pool(AccessVars(n), {})];
        cr := cr + [Pool(CrossVars(n), {})];
      }
    }

    /** The tables, the candidates (the variables of the last listed block) and
        their queue by non-increasing frequency. */
    static method Build(ns: seq<Node>, bl: seq<nat>)
      returns (acc: seq<Pool>, cr: seq<Pool>, cand: set<Variable>, order: seq<Variable>)
      requires InRange(ns, bl) && |bl| > 0
      ensures Tabulated(ns, bl, acc, cr)
      ensures cand == AccessVars(ns[bl[|bl| - 1]]) + CrossVars(ns[bl[|bl| - 1]])
      ensures NoDup(order) && (forall v :: v in order <==> v in cand)
      ensures Ranked(order, acc, cr)
    {
      acc, cr := Tabulate(ns, bl);
      var last := ns[bl[|bl| - 1]];
      cand := AccessVars(last) + CrossVars(last);
      var freq := map v | v in cand :: Frequency(v, acc, cr);
      order := SortByFrequency(cand, freq);
      assert forall i :: 0 <= i < |order| ==> freq[order[i]] == Frequency(order[i], acc, cr);
    }

    /** Liveness on the graph, and the listed blocks it ran over. */
    static method Analyse(cfg: Graph) returns (bl: seq<nat>, ns: seq<Node>)
      requires cfg.Valid()
      modifies cfg.store
      ensures cfg.Valid() && |bl| > 0 && bl[0] == cfg.first && ns == cfg.store.nodes
      ensures LivenessRan(old(cfg.store.nodes), ns, cfg.first, bl)
    {
      bl := cfg.Liveness();
      ns := cfg.store.nodes;
      assert |bl| > 0 && bl[0] == cfg.first;
      assert InRange(cfg.store.nodes, bl);
    }

    /** The allocator's initial tables for the graph, after liveness. */
    static method Prepare(cfg: Graph)
      returns (bl: seq<nat>, acc: seq<Pool>, cr: seq<Pool>, m: map<Variable, Option<nat>>, order: seq<Variable>)
      requires cfg.Valid()
      modifies cfg.store
      ensures cfg.Valid() && |acc| == |cr| == |bl| > 0
      ensures Prepared(old(cfg.store.nodes), cfg.store.nodes, cfg.first, bl, acc, cr, m, order)
    {
      var ns;
      bl, ns := Analyse(cfg);
      var cand;
      acc, cr, cand, order := Build(ns, bl);
      m := map v | v in cand :: None;
      assert m.Keys == cand;
      BuildInitial(ns, bl, acc, cr, cand, order);
    }

    /** `Allocator(cfg, nreg)`: runs liveness on the graph, then builds, for
        each listed block, access = gen + kill and cross = (livein + liveout) -
        access. The candidate variables are those of the last listed block
        only; each is unassigned, and they are queued by non-increasing
        frequency over all blocks. */
    constructor (cfg: Graph, nreg: nat)
      requires cfg.Valid()
      modifies cfg.store
      ensures Valid() && Fresh() && this.nreg == nreg && cfg.Valid()
      ensures Prepared(old(cfg.store.nodes), cfg.store.nodes, cfg.first, blocks, access, cross, vars, varFreq)
    {
      this.nreg := nreg;
      var bl, acc, cr, m, order := Prepare(cfg);
      blocks := bl;
      access, cross := acc, cr;
      vars := m;
      varFreq := order;
    }

    /** `toSpill`: the positions of the blocks whose two sets together hold
        more elements than there are registers. */
    function ToSpill(): (r: seq<nat>)
      reads this
      requires Valid()
      ensures forall j: nat :: j in r <==> j < |blocks| && access[j].Size() + cross[j].Size() > nreg
    {
      Overfull(access, cross, nreg)
    }

    /** `replace(var, reg)`: in every block's two sets, `v` gives way to `reg`;
        `v` is then mapped to `reg`. */
    method Replace(v: Variable, reg: nat)
      requires Valid()
      modifies this
      ensures Valid() && varFreq == old(varFreq) && vars == old(vars)[v := Some(reg)]
      ensures |access| == |blocks| && |cross| == |blocks|
      ensures forall j :: 0 <= j < |blocks| ==>
                access[j] == Subst(old(access)[j], v, reg) && cross[j] == Subst(old(cross)[j], v, reg)
    {
      for j := 0 to |blocks|
        invariant |access| == |blocks| && |cross| == |blocks|
        invariant vars == old(vars) && varFreq == old(varFreq)
        invariant forall i :: 0 <= i < j ==>
                    access[i] == Subst(old(access)[i], v, reg) && cross[i] == Subst(old(cross)[i], v, reg)
        invariant forall i :: j <= i < |blocks| ==> access[i] == old(access)[i] && cross[i] == old(cross)[i]
      {
        access := access[j := Subst(access[j], v, reg)];
        cross := cross[j := Subst(cross[j], v, reg)];
      }
      vars := vars[v := Some(reg)];
    }

    /** `usedRegs`: every value of the register map, `None` included. */
    function UsedRegs(): (r: set<Option<nat>>)
      reads this
      ensures forall o :: o in r <==> exists v :: v in vars && vars[v] == o
    {
      Held(vars)
    }

    /** `nextFreeReg`: the lowest register below `nreg` that no variable
        holds, or `NotEnoughRegs` when all of them are held. */
    method NextFreeReg() returns (r: Result<nat>)
      ensures r.Ok? ==> r.value < nreg && Some(r.value) !in UsedRegs()
      ensures r.Ok? ==> forall i :: 0 <= i < r.value ==> Some(i) in UsedRegs()
      ensures r.Err? ==> r.error == NotEnoughRegs && forall i :: 0 <= i < nreg ==> Some(i) in UsedRegs()
    {
      var u := UsedRegs();
      for i := 0 to nreg
        invariant forall k :: 0 <= k < i ==> Some(k) in u
      {
        if Some(i) !in u {
          return Ok(i);
        }
      }
      return Err(NotEnoughRegs);
    }

    /** `checkInterference(reg)`: whether some block's sets hold `reg`. */
    method CheckInterference(reg: nat) returns (b: bool)
      requires Valid()
      ensures b <==> exists j :: 0 <= j < |blocks| && (reg in access[j].regs || reg in cross[j].regs)
    {
      for j := 0 to |blocks|
        invariant forall i :: 0 <= i < j ==> reg !in access[i].regs && reg !in cross[i].regs
      {
        if reg in access[j].regs || reg in cross[j].regs {
          return true;
        }
      }
      return false;
    }

    /** `getNonInterfering(var)`: the loop's body returns on the first block,
        and the value it returns is built from the attribute `nRegs`, which the
        allocator never defines (it stores `nreg`); so the call always fails
        with that lookup error, after gathering the first block's sets. */
    method GetNonInterfering(v: Variable) returns (r: Result<set<nat>>)
      requires Valid()
      ensures r == Err(UndefinedAttribute("nRegs"))
    {
      var interfering := Pool({}, {});
      var theVars := Pool(access[0].vars + cross[0].vars, access[0].regs + cross[0].regs);
      if v in theVars.vars {
        interfering := Pool(interfering.vars + theVars.vars, interfering.regs + theVars.regs);
      }
      r := Err(UndefinedAttribute("nRegs"));
    }

    /** `__call__`: refuses to run while some block is over pressure; then
        takes the queue front to back and gives each variable whose mapping
        is falsy (none, or register 0) the lowest free register. When no
        register is free it falls back on `getNonInterfering`, which fails.
        Right after construction, with no block over pressure, the fall-back
        is never reached: the variable at position `i` of the queue gets
        register `i`, below `nreg`, and the sets are renamed accordingly. */
    method Call() returns (r: Result<map<Variable, Option<nat>>>)
      requires Valid()
      modifies this
      ensures Valid()
      ensures old(ToSpill()) != [] ==>
                && r == Err(SpillNotPerformed)
                && access == old(access) && cross == old(cross) && vars == old(vars) && varFreq == old(varFreq)
      ensures r.Ok? ==> r.value == vars && varFreq == []
      ensures r.Err? && old(ToSpill()) == [] ==> r.error == UndefinedAttribute("nRegs")
      ensures old(Fresh()) && old(ToSpill()) == [] ==>
                && r.Ok? && vars.Keys == old(vars).Keys
                && (forall i :: 0 <= i < |old(varFreq)| ==> vars[old(varFreq)[i]] == Some(i) && i < nreg)
                && (forall a :: a in vars ==> vars[a].Some? && vars[a].value < nreg)
                && (forall a, b :: a in vars && b in vars && a != b ==> vars[a] != vars[b])
                && (forall j :: 0 <= j < |blocks| ==>
                      access[j] == Renamed(old(access)[j], old(varFreq)) && cross[j] == Renamed(old(cross)[j], old(varFreq)))
    {
      var spill := ToSpill();
      if |spill| > 0 {
        return Err(SpillNotPerformed);
      }
      ghost var initial := Fresh();
      ghost var q := varFreq;
      ghost var acc0, cr0 := access, cross;
      if initial {
        var last := |blocks| - 1;
        QueueBound(q, access[last], cross[last]);
        assert last !in spill;
        assert AssignedUpTo(vars, varFreq, access, cross, q, acc0, cr0, 0);
      }
      r := AssignQueue(initial, q, acc0, cr0);
      if initial {
        assert q[..|q|] == q;
        ByPositionDistinct(vars, q);
      }
    }

    /** The loop of `__call__` over the queue. Started from no assignment on
        a queue of at most `nreg` variables, every variable gets its position
        in the queue as its register. */
    method AssignQueue(ghost initial: bool, ghost q: seq<Variable>, ghost acc0: seq<Pool>, ghost cr0: seq<Pool>)
      returns (r: Result<map<Variable, Option<nat>>>)
      requires Valid()
      requires initial ==> |q| <= nreg && AssignedUpTo(vars, varFreq, access, cross, q, acc0, cr0, 0)
      modifies this
      ensures Valid()
      ensures r.Ok? ==> r.value == vars && varFreq == []
      ensures r.Err? ==> r.error == UndefinedAttribute("nRegs")
      ensures initial ==> r.Ok? && AssignedUpTo(vars, varFreq, access, cross, q, acc0, cr0, |q|)
    {
      ghost var k: nat := 0;
      while |varFreq| > 0
        invariant Valid() && |access| == |blocks| && |cross| == |blocks|
        invariant initial ==> |q| <= nreg && AssignedUpTo(vars, varFreq, access, cross, q, acc0, cr0, k)
        decreases |varFreq|
      {
        var v := varFreq[0];
        ghost var vars0, access0, cross0 := vars, access, cross;
        if initial {
          FreeAt(vars, varFreq, access, cross, q, acc0, cr0, k);
          assert v == q[k] && varFreq[1..] == q[k + 1..];
        }
        varFreq := varFreq[1..];
        if vars[v].None? || vars[v] == Some(0) {
          var reg := NextFreeReg();
          if reg.Err? {
            var cands := GetNonInterfering(v);
            return Err(cands.error);
          }
          if initial {
            assert reg.value == k;
          }
          Replace(v, reg.value);
          if initial {
            AssignStep(vars0, access0, cross0, vars, access, cross, q, acc0, cr0, k);
          }
        }
        k := k + 1;
      }
      if initial {
        assert k == |q|;
      }
      return Ok(vars);
    }
  }
}
