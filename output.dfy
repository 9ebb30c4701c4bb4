/** The code generator's bookkeeping: the stack frame of spilled variables and
    parameters, the labels of string literals, the branch code chosen for each
    comparator, the register lists saved around a print call, and the spill
    selection that precedes register allocation for a function. */
module Output {
  import opened Common
  import opened IR
  import opened Cfg
  import opened RegAlloc

  const NREGISTERS: nat := 8
  const ARCH_BYTES: nat := 4
  /** Allocated register `i` is emitted as machine register `i + FIRST_REG`. */
  const FIRST_REG: nat := 4

  // ---------------------------------------------------------------------------
  // Decimal text of numbers (`str(n)`).

  function Digit(d: nat): char
    requires d < 10
  {
    ('0' as int + d) as char
  }

  function NatToString(n: nat): (r: string)
    ensures |r| > 0 && (n >= 10 ==> |r| >= 2)
  {
    if n < 10 then [Digit(n)] else NatToString(n / 10) + [Digit(n % 10)]
  }

  /** Different numbers have different decimal texts. */
  lemma {:induction false} NatToStringInjective(a: nat, b: nat)
    requires NatToString(a) == NatToString(b)
    ensures a == b
  {
    if a >= 10 && b >= 10 {
      var sa, sb := NatToString(a), NatToString(b);
      assert sa[|sa| - 1] == sb[|sb| - 1];
      assert a % 10 == b % 10;
      assert sa[..|sa| - 1] == NatToString(a / 10);
      assert sb[..|sb| - 1] == NatToString(b / 10);
      NatToStringInjective(a / 10, b / 10);
    }
  }

  // ---------------------------------------------------------------------------
  // String literal labels (`labels`).

  /** The label of the `n`-th distinct literal: `'s' + str(n)`. */
  function StrLabel(n: nat): string {
    "s" + NatToString(n)
  }

  lemma StrLabelInjective(a: nat, b: nat)
    ensures StrLabel(a) == StrLabel(b) <==> a == b
  {
    if StrLabel(a) == StrLabel(b) {
      assert StrLabel(a)[1..] == NatToString(a);
      assert StrLabel(b)[1..] == NatToString(b);
      NatToStringInjective(a, b);
    }
  }

  /** The literals of `s` not in `known`, each once, in the order of their
      first occurrence. */
  function FirstSeen(known: set<string>, s: seq<string>): seq<string> {
    if s == [] then []
    else
      var p := s[..|s| - 1];
      var x := s[|s| - 1];
      FirstSeen(known, p) + (if x in known || x in p then [] else [x])
  }

  lemma {:induction false} FirstSeenContents(known: set<string>, s: seq<string>)
    ensures NoDup(FirstSeen(known, s))
    ensures forall t :: t in FirstSeen(known, s) <==> t in s && t !in known
  {
    if s != [] {
      var p := s[..|s| - 1];
      FirstSeenContents(known, p);
      assert s == p + [s[|s| - 1]];
    }
  }

  /** The literals a print statement of a block names, in order. */
  function ItemTexts(items: seq<PrintItem>): seq<string> {
    if items == [] then []
    else ItemTexts(items[..|items| - 1]) + (if items[|items| - 1].Text? then [items[|items| - 1].text] else [])
  }

  function EntryTexts(en: Entry): seq<string> {
    if en.Stmt? && en.s.Print? then ItemTexts(en.s.items) else []
  }

  function BlockTexts(stmts: seq<Entry>): seq<string> {
    if stmts == [] then [] else BlockTexts(stmts[..|stmts| - 1]) + EntryTexts(stmts[|stmts| - 1])
  }

  /** The literals of the listed blocks, block by block. */
  function ListTexts(ns: seq<Node>, bs: seq<nat>): seq<string>
    requires InRange(ns, bs)
  {
    if bs == [] then [] else ListTexts(ns, bs[..|bs| - 1]) + BlockTexts(ns[bs[|bs| - 1]].stmts)
  }

  /** One more listed block appends its literals. */
  lemma ListTextsStep(ns: seq<Node>, bs: seq<nat>, k: nat, seen: seq<string>)
    requires InRange(ns, bs) && k < |bs|
    ensures InRange(ns, bs[..k]) && InRange(ns, bs[..k + 1])
    ensures seen + ListTexts(ns, bs[..k + 1]) == seen + ListTexts(ns, bs[..k]) + BlockTexts(ns[bs[k]].stmts)
  {
    assert bs[..k + 1][..k] == bs[..k];
  }

  /** `bs` is the list of blocks `Graph.Blocks` gives for the entry block `first`. */
  ghost predicate Listed(ns: seq<Node>, first: nat, bs: seq<nat>) {
    ChildrenInRange(ns) && first < |ns| && InRange(ns, bs) && BlocksOf(ns, [], first, bs)
  }

  /** Every list of blocks names blocks of the arena. */
  predicate AllInRange(ns: seq<Node>, lists: seq<seq<nat>>) {
    forall g :: 0 <= g < |lists| ==> InRange(ns, lists[g])
  }

  /** The literals of several graphs over one arena, graph by graph. */
  function AllTexts(ns: seq<Node>, lists: seq<seq<nat>>): seq<string>
    requires AllInRange(ns, lists)
  {
    if lists == [] then [] else AllTexts(ns, lists[..|lists| - 1]) + ListTexts(ns, lists[|lists| - 1])
  }

  /** Every list is the list of blocks of its entry block in the arena,
      stated graph by graph from the last one back. */
  ghost predicate AllListed(ns: seq<Node>, firsts: seq<nat>, lists: seq<seq<nat>>)
    decreases |lists|
  {
    && |firsts| == |lists|
    && AllInRange(ns, lists)
    && (lists != [] ==>
          && AllListed(ns, firsts[..|lists| - 1], lists[..|lists| - 1])
          && Listed(ns, firsts[|lists| - 1], lists[|lists| - 1]))
  }

  /** Each graph's list is its list of blocks. */
  lemma {:induction false} AllListedAt(ns: seq<Node>, firsts: seq<nat>, lists: seq<seq<nat>>, g: nat)
    requires AllListed(ns, firsts, lists) && g < |lists|
    ensures Listed(ns, firsts[g], lists[g])
    decreases |lists|
  {
    if g < |lists| - 1 {
      AllListedAt(ns, firsts[..|lists| - 1], lists[..|lists| - 1], g);
    }
  }

  /** One more graph: its literals follow those of the earlier ones. */
  lemma AllListedStep(ns: seq<Node>, firsts: seq<nat>, lists: seq<seq<nat>>, first: nat, bs: seq<nat>)
    requires AllListed(ns, firsts, lists) && Listed(ns, first, bs)
    ensures AllListed(ns, firsts + [first], lists + [bs])
    ensures AllTexts(ns, lists + [bs]) == AllTexts(ns, lists) + ListTexts(ns, bs)
  {
    assert (lists + [bs])[..|lists|] == lists;
    assert (firsts + [first])[..|firsts|] == firsts;
  }

  /** The entry blocks of the graphs, in order. */
  function FirstsOf(graphs: seq<Graph>): (r: seq<nat>)
    reads graphs
    ensures |r| == |graphs| && forall g :: 0 <= g < |graphs| ==> r[g] == graphs[g].first
  {
    if graphs == [] then [] else FirstsOf(graphs[..|graphs| - 1]) + [graphs[|graphs| - 1].first]
  }

  lemma FirstsOfStep(graphs: seq<Graph>, g: nat)
    requires g < |graphs|
    ensures FirstsOf(graphs[..g + 1]) == FirstsOf(graphs[..g]) + [graphs[g].first]
  {
    assert graphs[..g + 1][..g] == graphs[..g];
  }

  /** The `getBlocks` call `labels` makes on one graph. */
  method ListOne(store: NodeStore, graph: Graph) returns (bs: seq<nat>)
    requires graph.store == store && graph.Valid()
    ensures Listed(store.nodes, graph.first, bs)
  {
    bs := graph.Blocks();
  }

  /** The `getBlocks` call `labels` makes on each graph, in order. */
  method ListGraphs(store: NodeStore, graphs: seq<Graph>) returns (lists: seq<seq<nat>>)
    requires forall g :: 0 <= g < |graphs| ==> graphs[g].store == store && graphs[g].Valid()
    ensures AllListed(store.nodes, FirstsOf(graphs), lists)
  {
    lists := [];
    for g := 0 to |graphs|
      invariant AllListed(store.nodes, FirstsOf(graphs[..g]), lists)
    {
      var bs := ListOne(store, graphs[g]);
      ListedNext(store.nodes, graphs, g, lists, bs);
      lists := lists + [bs];
    }
    assert graphs[..|graphs|] == graphs;
  }

  /** The lists of the first `g + 1` graphs. */
  lemma ListedNext(ns: seq<Node>, graphs: seq<Graph>, g: nat, lists: seq<seq<nat>>, bs: seq<nat>)
    requires g < |graphs| && AllListed(ns, FirstsOf(graphs[..g]), lists) && Listed(ns, graphs[g].first, bs)
    ensures AllListed(ns, FirstsOf(graphs[..g + 1]), lists + [bs])
  {
    AllListedStep(ns, FirstsOf(graphs[..g]), lists, graphs[g].first, bs);
    FirstsOfStep(graphs, g);
  }

  /** The literals of the first `g + 1` graphs. */
  lemma AllTextsPrefix(ns: seq<Node>, lists: seq<seq<nat>>, g: nat)
    requires AllInRange(ns, lists) && g < |lists|
    ensures AllInRange(ns, lists[..g]) && AllInRange(ns, lists[..g + 1])
    ensures AllTexts(ns, lists[..g + 1]) == AllTexts(ns, lists[..g]) + ListTexts(ns, lists[g])
  {
    assert lists[..g + 1][..g] == lists[..g];
  }

  /** The label table after `seen` was numbered from 0 over the table `old0`:
      earlier entries are kept, every literal of `seen` is a key, and the
      `i`-th new literal (in the order of first occurrence) is labelled
      `StrLabel(i)`. */
  ghost predicate Labelled(tbl: map<string, string>, old0: map<string, string>, seen: seq<string>) {
    Ranked(tbl, old0, seen, FirstSeen(old0.Keys, seen))
  }

  /** `Labelled`, for a given list `fs` of the new literals in order. */
  ghost predicate Ranked(tbl: map<string, string>, old0: map<string, string>, seen: seq<string>, fs: seq<string>) {
    && (forall t :: t in tbl <==> t in old0 || t in seen)
    && (forall t :: t in old0 ==> tbl[t] == old0[t])
    && (forall i :: 0 <= i < |fs| ==> fs[i] in tbl && tbl[fs[i]] == StrLabel(i))
  }

  /** The table and the count of new literals the numbering loop reaches
      from `old0` over `seen`: a literal not yet in the table gets the label
      of the count so far. */
  function Numbering(old0: map<string, string>, seen: seq<string>): (map<string, string>, nat) {
    if seen == [] then (old0, 0)
    else
      var r := Numbering(old0, seen[..|seen| - 1]);
      var x := seen[|seen| - 1];
      if x in r.0 then r else (r.0[x := StrLabel(r.1)], r.1 + 1)
  }

  /** What the numbering means: every literal keyed, earlier entries kept,
      new literals labelled by their rank of first occurrence, and the count
      that of the distinct new literals. */
  lemma {:induction false} NumberingMeaning(old0: map<string, string>, seen: seq<string>)
    ensures Labelled(Numbering(old0, seen).0, old0, seen)
    ensures Numbering(old0, seen).1 == |FirstSeen(old0.Keys, seen)|
  {
    if seen != [] {
      var p := seen[..|seen| - 1];
      NumberingMeaning(old0, p);
      LabelStep(Numbering(old0, p).0, old0, p, seen[|seen| - 1]);
      assert p + [seen[|seen| - 1]] == seen;
    }
  }

  /** One literal of the numbering loop: a new one gets the next label, a
      known one leaves the table as it is. */
  lemma LabelStep(tbl: map<string, string>, old0: map<string, string>, seen: seq<string>, x: string)
    requires Labelled(tbl, old0, seen)
    ensures Labelled(if x in tbl then tbl else tbl[x := StrLabel(|FirstSeen(old0.Keys, seen)|)], old0, seen + [x])
    ensures |FirstSeen(old0.Keys, seen + [x])| == |FirstSeen(old0.Keys, seen)| + (if x in tbl then 0 else 1)
  {
    var fs := FirstSeen(old0.Keys, seen);
    FirstSeenSnoc(old0.Keys, seen, x);
    assert x in tbl <==> x in old0.Keys || x in seen;
    if x in tbl {
      LabelKnown(tbl, old0, seen, fs, x);
    } else {
      LabelNew(tbl, old0, seen, fs, x);
    }
  }

  lemma FirstSeenSnoc(known: set<string>, seen: seq<string>, x: string)
    ensures FirstSeen(known, seen + [x]) == FirstSeen(known, seen) + (if x in known || x in seen then [] else [x])
  {
    var s := seen + [x];
    assert s[..|s| - 1] == seen;
  }

  lemma LabelKnown(tbl: map<string, string>, old0: map<string, string>, seen: seq<string>, fs: seq<string>, x: string)
    requires Ranked(tbl, old0, seen, fs) && x in tbl
    ensures Ranked(tbl, old0, seen + [x], fs)
  {
    forall t | t in tbl ensures t in old0 || t in seen + [x] {
    }
  }

  lemma LabelNew(tbl: map<string, string>, old0: map<string, string>, seen: seq<string>, fs: seq<string>, x: string)
    requires Ranked(tbl, old0, seen, fs) && x !in tbl
    ensures Ranked(tbl[x := StrLabel(|fs|)], old0, seen + [x], fs + [x])
  {
    var tbl' := tbl[x := StrLabel(|fs|)];
    var fs' := fs + [x];
    forall i | 0 <= i < |fs'| ensures fs'[i] in tbl' && tbl'[fs'[i]] == StrLabel(i) {
      if i < |fs| {
        assert fs'[i] == fs[i] != x;
      }
    }
    forall t | t in old0 ensures tbl'[t] == old0[t] {
      assert t != x;
    }
  }

  /** Numbering from an empty table gives different literals different
      labels, and every label is that of some position below the number of
      distinct literals. */
  lemma FreshLabelsDistinct(tbl: map<string, string>, seen: seq<string>)
    requires Labelled(tbl, map[], seen)
    ensures forall a, b :: a in tbl && b in tbl && a != b ==> tbl[a] != tbl[b]
    ensures forall a :: a in tbl ==> exists i :: 0 <= i < |FirstSeen({}, seen)| && tbl[a] == StrLabel(i)
  {
    var fs := FirstSeen({}, seen);
    var e: map<string, string> := map[];
    assert e.Keys == {};
    FirstSeenContents({}, seen);
    assert forall a :: a in tbl ==> exists i :: 0 <= i < |fs| && fs[i] == a by {
      forall a | a in tbl ensures exists i :: 0 <= i < |fs| && fs[i] == a {
        assert a in fs;
      }
    }
    forall a | a in tbl ensures exists i :: 0 <= i < |fs| && tbl[a] == StrLabel(i) {
      var i :| 0 <= i < |fs| && fs[i] == a;
      assert tbl[a] == StrLabel(i);
    }
    forall a, b | a in tbl && b in tbl && a != b
      ensures tbl[a] != tbl[b]
    {
      var i :| 0 <= i < |fs| && fs[i] == a;
      var j :| 0 <= j < |fs| && fs[j] == b;
      StrLabelInjective(i, j);
    }
  }

  // ---------------------------------------------------------------------------
  // Stack frame (`spill`).

  /** Bytes the variables of `s` take together. */
  function TotalBytes(s: seq<Variable>): nat {
    if s == [] then 0 else TotalBytes(s[..|s| - 1]) + s[|s| - 1].Bytes()
  }

  /** The offsets the second loop of `spill` writes: the `k`-th variable of
      `s` gets `stack` minus the bytes of the first `k + 1`. */
  function Placed(m: map<Variable, int>, s: seq<Variable>, stack: int): (r: map<Variable, int>)
    ensures forall v :: v in r <==> v in m || v in s
  {
    if s == [] then m else Placed(m, s[..|s| - 1], stack)[s[|s| - 1] := stack - TotalBytes(s)]
  }

  /** The offsets the parameter loop of `spill` writes: the first parameter
      gets `offset`, each later one the size of the type of the one before. */
  function ParamsPlaced(m: map<Variable, int>, params: seq<Variable>, offset: int): (r: map<Variable, int>)
    ensures forall v :: v in r <==> v in m || v in params
    decreases |params|
  {
    if params == [] then m else ParamsPlaced(m[params[0] := offset], params[1..], params[0].vtype.Size())
  }

  /** One more step of the second loop of `spill`. */
  lemma PlacedSnoc(m: map<Variable, int>, s: seq<Variable>, stack: int, k: nat)
    requires k < |s|
    ensures TotalBytes(s[..k + 1]) == TotalBytes(s[..k]) + s[k].Bytes()
    ensures Placed(m, s[..k + 1], stack) == Placed(m, s[..k], stack)[s[k] := stack - TotalBytes(s[..k + 1])]
  {
    assert s[..k + 1][..k] == s[..k];
  }

  lemma {:induction false} TotalBytesPrefix(s: seq<Variable>, i: nat, j: nat)
    requires i <= j <= |s|
    ensures TotalBytes(s[..i]) <= TotalBytes(s[..j])
    ensures j < |s| ==> TotalBytes(s[..j + 1]) == TotalBytes(s[..j]) + s[j].Bytes()
    decreases j
  {
    if j < |s| {
      assert s[..j + 1][..j] == s[..j];
    }
    if i < j {
      TotalBytesPrefix(s, i, j - 1);
      assert s[..j][..j - 1] == s[..j - 1];
    }
  }

  /** The frame of distinct spilled variables: the `k`-th lies at
      `stack - (bytes of the first k + 1)`, all lie inside `[0, stack)`, later
      ones below earlier ones without overlap, and the last one at 0. */
  lemma {:induction false} FrameLayout(m: map<Variable, int>, s: seq<Variable>)
    requires NoDup(s)
    ensures forall i :: 0 <= i < |s| ==>
              Placed(m, s, TotalBytes(s))[s[i]] == TotalBytes(s) - TotalBytes(s[..i + 1])
    ensures forall i :: 0 <= i < |s| ==>
              0 <= Placed(m, s, TotalBytes(s))[s[i]] &&
              Placed(m, s, TotalBytes(s))[s[i]] + s[i].Bytes() <= TotalBytes(s)
    ensures forall i, j :: 0 <= i < j < |s| ==>
              Placed(m, s, TotalBytes(s))[s[j]] + s[j].Bytes() <= Placed(m, s, TotalBytes(s))[s[i]]
    ensures |s| > 0 ==> Placed(m, s, TotalBytes(s))[s[|s| - 1]] == 0
    ensures forall v :: v !in s && v in m ==> Placed(m, s, TotalBytes(s))[v] == m[v]
  {
    var st := TotalBytes(s);
    PlacedKeeps(m, s, st);
    forall i | 0 <= i < |s|
      ensures Placed(m, s, st)[s[i]] == st - TotalBytes(s[..i + 1])
      ensures 0 <= Placed(m, s, st)[s[i]] && Placed(m, s, st)[s[i]] + s[i].Bytes() <= st
    {
      FrameSlot(m, s, i);
    }
    forall i, j | 0 <= i < j < |s|
      ensures Placed(m, s, st)[s[j]] + s[j].Bytes() <= Placed(m, s, st)[s[i]]
    {
      FramePair(m, s, i, j);
    }
    if |s| > 0 {
      PlacedAtIndex(m, s, st, |s| - 1);
      assert s[..|s|] == s;
    }
  }

  lemma FrameSlot(m: map<Variable, int>, s: seq<Variable>, i: nat)
    requires NoDup(s) && i < |s|
    ensures Placed(m, s, TotalBytes(s))[s[i]] == TotalBytes(s) - TotalBytes(s[..i + 1])
    ensures 0 <= Placed(m, s, TotalBytes(s))[s[i]]
    ensures Placed(m, s, TotalBytes(s))[s[i]] + s[i].Bytes() <= TotalBytes(s)
  {
    PlacedAtIndex(m, s, TotalBytes(s), i);
    TotalBytesPrefix(s, i, i);
    TotalBytesPrefix(s, i + 1, |s|);
    assert s[..|s|] == s;
  }

  lemma FramePair(m: map<Variable, int>, s: seq<Variable>, i: nat, j: nat)
    requires NoDup(s) && i < j < |s|
    ensures Placed(m, s, TotalBytes(s))[s[j]] + s[j].Bytes() <= Placed(m, s, TotalBytes(s))[s[i]]
  {
    PlacedAtIndex(m, s, TotalBytes(s), i);
    PlacedAtIndex(m, s, TotalBytes(s), j);
    TotalBytesPrefix(s, j, j);
    TotalBytesPrefix(s, i + 1, j);
  }

  /** The `i`-th of distinct variables is placed `stack` minus the bytes of the first `i + 1`. */
  lemma {:induction false} PlacedAtIndex(m: map<Variable, int>, s: seq<Variable>, stack: int, i: nat)
    requires i < |s| && s[i] !in s[i + 1..]
    ensures Placed(m, s, stack)[s[i]] == stack - TotalBytes(s[..i + 1])
    decreases |s|
  {
    if i == |s| - 1 {
      PlacedLast(m, s, stack);
    } else {
      var p := s[..|s| - 1];
      assert s[i + 1..] == p[i + 1..] + [s[|s| - 1]];
      PlacedAtIndex(m, p, stack, i);
      PlacedEarlier(m, s, stack, i);
    }
  }

  lemma PlacedLast(m: map<Variable, int>, s: seq<Variable>, stack: int)
    requires s != []
    ensures Placed(m, s, stack)[s[|s| - 1]] == stack - TotalBytes(s[..|s|])
  {
    assert s[..|s|] == s;
  }

  lemma PlacedEarlier(m: map<Variable, int>, s: seq<Variable>, stack: int, i: nat)
    requires i < |s| - 1 && s[i] != s[|s| - 1]
    requires Placed(m, s[..|s| - 1], stack)[s[i]] == stack - TotalBytes(s[..|s| - 1][..i + 1])
    ensures Placed(m, s, stack)[s[i]] == stack - TotalBytes(s[..i + 1])
  {
    assert s[..|s| - 1][..i + 1] == s[..i + 1];
  }

  lemma {:induction false} PlacedKeeps(m: map<Variable, int>, s: seq<Variable>, stack: int)
    ensures forall v :: v !in s && v in m ==> Placed(m, s, stack)[v] == m[v]
  {
    if s != [] {
      PlacedKeeps(m, s[..|s| - 1], stack);
      forall v | v !in s && v in m
        ensures Placed(m, s, stack)[v] == m[v]
      {
        assert v !in s[..|s| - 1];
      }
    }
  }

  /** The first loop of `spill`: the bytes of the spilled variables. */
  method FrameSize(toSpill: seq<Variable>) returns (st: nat)
    ensures st == TotalBytes(toSpill)
  {
    st := 0;
    for k := 0 to |toSpill|
      invariant st == TotalBytes(toSpill[..k])
    {
      assert toSpill[..k + 1][..k] == toSpill[..k];
      st := st + toSpill[k].Bytes();
    }
    assert toSpill[..|toSpill|] == toSpill;
  }

  /** Distinct parameters: the first at `offset`, each later one at the size
      of the type of the one before it (the running offset is reset, not
      advanced); other entries are kept. */
  lemma {:induction false} ParamLayout(m: map<Variable, int>, params: seq<Variable>, offset: int)
    requires NoDup(params)
    decreases |params|
    ensures |params| > 0 ==> ParamsPlaced(m, params, offset)[params[0]] == offset
    ensures forall i :: 0 < i < |params| ==> ParamsPlaced(m, params, offset)[params[i]] == params[i - 1].vtype.Size()
    ensures forall v :: v !in params && v in m ==> ParamsPlaced(m, params, offset)[v] == m[v]
  {
    if params != [] {
      var rest := params[1..];
      assert NoDup(rest) by {
        forall a, b | 0 <= a < b < |rest| ensures rest[a] != rest[b] {
          assert rest[a] == params[a + 1] && rest[b] == params[b + 1];
        }
      }
      ParamLayout(m[params[0] := offset], rest, params[0].vtype.Size());
      assert params[0] !in rest by {
        forall a | 0 <= a < |rest| ensures rest[a] != params[0] {
          assert rest[a] == params[a + 1];
        }
      }
      forall i | 1 < i < |params|
        ensures ParamsPlaced(m, params, offset)[params[i]] == params[i - 1].vtype.Size()
      {
        assert params[i] == rest[i - 1] && params[i - 1] == rest[i - 2];
      }
    }
  }

  // ---------------------------------------------------------------------------
  // Branch code for conditions (`writeCondition`).

  const INT_MIN: int := -0x8000_0000
  const INT_MAX: int := 0x7FFF_FFFF

  /** A 32-bit machine word, read as a signed value. */
  predicate IsWord(x: int) {
    INT_MIN <= x <= INT_MAX
  }

  /** Two's complement wrap-around of a result to 32 bits. */
  function Wrap(x: int): (r: int)
    ensures IsWord(r)
    ensures IsWord(x) ==> r == x
  {
    (x - INT_MIN) % 0x1_0000_0000 + INT_MIN
  }

  datatype Operand = FirstOperand | SecondOperand
  datatype Cc = EQ | LT | GT | LE | GE

  /** The instructions `writeCondition` emits after evaluating the operands:
      increment one operand register, compare, and branch to a child of the
      current block (by position). */
  datatype Instr = AddOne(reg: Operand) | Cmp | BranchIf(cc: Cc, child: nat) | Jump(child: nat)

  /** The code `writeCondition` emits for a comparator, as written: `<=` is
      turned into `<` by incrementing the second operand, `>=` into `>` by
      incrementing the first, then one branch pair per comparator. */
  function Decision(comp: string): seq<Instr> {
    (if comp == "<=" then [AddOne(SecondOperand)] else if comp == ">=" then [AddOne(FirstOperand)] else [])
    + [Cmp]
    + (if comp == "==" then [BranchIf(EQ, 0), Jump(1)] else [])
    + (if comp == "!=" then [BranchIf(EQ, 1), Jump(0)] else [])
    + (if comp == "<" || comp == "<=" then [BranchIf(LT, 0), Jump(1)] else [])
    + (if comp == ">" || comp == ">=" then [BranchIf(GT, 0), Jump(1)] else [])
  }

  /** The code as evidently intended: the signed branches `BLE`/`BGE` instead
      of an increment that overflows at the largest word. */
  function DecisionFixed(comp: string): seq<Instr> {
    [Cmp]
    + (if comp == "==" then [BranchIf(EQ, 0), Jump(1)] else [])
    + (if comp == "!=" then [BranchIf(EQ, 1), Jump(0)] else [])
    + (if comp == "<" then [BranchIf(LT, 0), Jump(1)] else [])
    + (if comp == "<=" then [BranchIf(LE, 0), Jump(1)] else [])
    + (if comp == ">" then [BranchIf(GT, 0), Jump(1)] else [])
    + (if comp == ">=" then [BranchIf(GE, 0), Jump(1)] else [])
  }

  predicate CcHolds(cc: Cc, a: int, b: int) {
    match cc
    case EQ => a == b
    case LT => a < b
    case GT => a > b
    case LE => a <= b
    case GE => a >= b
  }

  /** Runs branch code on the operand registers `a` and `b` (32-bit words):
      the child it branches to, or `None` when it falls off the end. The
      flags of the last compare decide the conditional branches. */
  function Run(code: seq<Instr>, a: int, b: int, flags: Option<(int, int)>): Option<nat>
    decreases |code|
  {
    if code == [] then None
    else
      match code[0]
      case AddOne(r) =>
        if r == FirstOperand then Run(code[1..], Wrap(a + 1), b, flags) else Run(code[1..], a, Wrap(b + 1), flags)
      case Cmp => Run(code[1..], a, b, Some((a, b)))
      case BranchIf(cc, k) =>
        if flags.Some? && CcHolds(cc, flags.value.0, flags.value.1) then Some(k) else Run(code[1..], a, b, flags)
      case Jump(k) => Some(k)
  }

  /** What a comparator means on the operand values. */
  predicate Holds(comp: string, a: int, b: int) {
    if comp == "==" then a == b
    else if comp == "!=" then a != b
    else if comp == "<" then a < b
    else if comp == "<=" then a <= b
    else if comp == ">" then a > b
    else a >= b
  }

  /** The code as written takes `children[0]` exactly when the condition holds,
      for every comparator, as long as the incremented operand of `<=` or `>=`
      is not the largest word. */
  lemma DecisionCorrect(comp: string, a: int, b: int)
    requires comp in CompOpers && IsWord(a) && IsWord(b)
    requires comp == "<=" ==> b < INT_MAX
    requires comp == ">=" ==> a < INT_MAX
    ensures Run(Decision(comp), a, b, None) == Some(if Holds(comp, a, b) then 0 else 1)
  {
    if comp == "==" {
      assert Decision(comp) == [Cmp, BranchIf(EQ, 0), Jump(1)];
      RunTest(EQ, 0, 1, a, b);
    } else if comp == "!=" {
      assert Decision(comp) == [Cmp, BranchIf(EQ, 1), Jump(0)];
      RunTest(EQ, 1, 0, a, b);
    } else if comp == "<" {
      assert Decision(comp) == [Cmp, BranchIf(LT, 0), Jump(1)];
      RunTest(LT, 0, 1, a, b);
    } else if comp == ">" {
      assert Decision(comp) == [Cmp, BranchIf(GT, 0), Jump(1)];
      RunTest(GT, 0, 1, a, b);
    } else if comp == "<=" {
      assert Decision(comp) == [AddOne(SecondOperand)] + [Cmp, BranchIf(LT, 0), Jump(1)];
      RunAdjusted(SecondOperand, [Cmp, BranchIf(LT, 0), Jump(1)], a, b);
      RunTest(LT, 0, 1, a, b + 1);
    } else {
      assert Decision(comp) == [AddOne(FirstOperand)] + [Cmp, BranchIf(GT, 0), Jump(1)];
      RunAdjusted(FirstOperand, [Cmp, BranchIf(GT, 0), Jump(1)], a, b);
      RunTest(GT, 0, 1, a + 1, b);
    }
  }

  lemma RunTest(cc: Cc, t: nat, f: nat, a: int, b: int)
    ensures Run([Cmp, BranchIf(cc, t), Jump(f)], a, b, None) == Some(if CcHolds(cc, a, b) then t else f)
  {
    var c := [Cmp, BranchIf(cc, t), Jump(f)];
    assert c[1..] == [BranchIf(cc, t), Jump(f)];
    assert c[1..][1..] == [Jump(f)];
    assert Run(c, a, b, None) == Run(c[1..], a, b, Some((a, b)));
    assert Run(c[1..], a, b, Some((a, b))) ==
           if CcHolds(cc, a, b) then Some(t) else Run(c[1..][1..], a, b, Some((a, b)));
    assert Run([Jump(f)], a, b, Some((a, b))) == Some(f);
  }

  lemma RunAdjusted(r: Operand, rest: seq<Instr>, a: int, b: int)
    ensures Run([AddOne(r)] + rest, a, b, None) ==
            if r == FirstOperand then Run(rest, Wrap(a + 1), b, None) else Run(rest, a, Wrap(b + 1), None)
  {
    assert ([AddOne(r)] + rest)[1..] == rest;
  }

  /** As written, `a <= b` with `b` the largest word branches to
      `children[1]`, although it holds; so does `a >= b` with `a` the largest. */
  lemma DecisionOverflows()
    ensures Holds("<=", 0, INT_MAX) && Run(Decision("<="), 0, INT_MAX, None) == Some(1)
    ensures Holds(">=", INT_MAX, 0) && Run(Decision(">="), INT_MAX, 0, None) == Some(1)
  {
    assert Decision("<=") == [AddOne(SecondOperand)] + [Cmp, BranchIf(LT, 0), Jump(1)];
    RunAdjusted(SecondOperand, [Cmp, BranchIf(LT, 0), Jump(1)], 0, INT_MAX);
    assert Wrap(INT_MAX + 1) == INT_MIN;
    RunTest(LT, 0, 1, 0, INT_MIN);
    assert Decision(">=") == [AddOne(FirstOperand)] + [Cmp, BranchIf(GT, 0), Jump(1)];
    RunAdjusted(FirstOperand, [Cmp, BranchIf(GT, 0), Jump(1)], INT_MAX, 0);
    RunTest(GT, 0, 1, INT_MIN, 0);
  }

  /** The corrected code takes `children[0]` exactly when the condition holds,
      for every comparator and all words. */
  lemma DecisionFixedCorrect(comp: string, a: int, b: int)
    requires comp in CompOpers && IsWord(a) && IsWord(b)
    ensures Run(DecisionFixed(comp), a, b, None) == Some(if Holds(comp, a, b) then 0 else 1)
  {
    var cc := if comp == "==" || comp == "!=" then EQ else if comp == "<" then LT else if comp == "<=" then LE
              else if comp == ">" then GT else GE;
    var t, f := if comp == "!=" then 1 else 0, if comp == "!=" then 0 else 1;
    assert DecisionFixed(comp) == [Cmp, BranchIf(cc, t), Jump(f)];
    RunTest(cc, t, f, a, b);
  }

  /** A comparator outside the six gets a compare and no branch; condition
      construction never lets one through. */
  lemma UnknownComparatorFallsThrough(comp: string, a: int, b: int, e1: Expr, e2: Expr)
    requires comp !in CompOpers
    ensures Run(Decision(comp), a, b, None) == None
    ensures MkCondition(comp, e1, e2).Err?
  {
  }

  // ---------------------------------------------------------------------------
  // Registers saved around a call (`saveRegisters` / `restoreRegisters`).

  /** `regs[v] + FIRST_REG` for the variables in the dict's order; a variable
      without a register makes the addition fail. */
  function RegisterList(order: seq<Variable>, regs: map<Variable, Option<nat>>): (r: Result<seq<nat>>)
    requires forall v :: v in order ==> v in regs
    ensures r.Ok? <==> forall i :: 0 <= i < |order| ==> regs[order[i]].Some?
    ensures r.Err? ==> r.error == UnsupportedOperand
    ensures r.Ok? ==> |r.value| == |order|
    ensures r.Ok? ==> forall i :: 0 <= i < |order| ==> r.value[i] == regs[order[i]].value + FIRST_REG
  {
    if order == [] then Ok([])
    else
      var n := |order| - 1;
      var p := RegisterList(order[..n], regs);
      assert forall i :: 0 <= i < n ==> order[..n][i] == order[i];
      if p.Err? then p
      else if regs[order[n]].None? then Err(UnsupportedOperand)
      else Ok(p.value + [regs[order[n]].value + FIRST_REG])
  }

  /** The two stack instructions around a call, each with its register list. */
  datatype StackInstr = Push(rs: seq<nat>) | Pop(rs: seq<nat>)

  /** `saveRegisters`: nothing when no variable has a register entry, else one
      push of the register list. `order` is the dict's key order. */
  function SaveRegisters(order: seq<Variable>, regs: map<Variable, Option<nat>>): (r: Result<seq<StackInstr>>)
    requires forall v :: v in order <==> v in regs
  {
    if |regs| == 0 then Ok([])
    else
      var l :- RegisterList(order, regs);
      Ok([Push(l)])
  }

  /** `restoreRegisters`: the matching pop. */
  function RestoreRegisters(order: seq<Variable>, regs: map<Variable, Option<nat>>): (r: Result<seq<StackInstr>>)
    requires forall v :: v in order <==> v in regs
  {
    if |regs| == 0 then Ok([])
    else
      var l :- RegisterList(order, regs);
      Ok([Pop(l)])
  }

  /** Save and restore agree: both fail or neither does, both are empty
      exactly when the dict is, and otherwise they push and pop the same
      registers in the same order. */
  lemma SaveRestoreMatch(order: seq<Variable>, regs: map<Variable, Option<nat>>)
    requires forall v :: v in order <==> v in regs
    ensures SaveRegisters(order, regs).Ok? <==> RestoreRegisters(order, regs).Ok?
    ensures SaveRegisters(order, regs).Ok? ==>
              && (SaveRegisters(order, regs).value == [] <==> |regs| == 0)
              && (|regs| > 0 ==> exists l :: SaveRegisters(order, regs).value == [Push(l)]
                                         && RestoreRegisters(order, regs).value == [Pop(l)])
  {
    if |regs| > 0 && RegisterList(order, regs).Ok? {
      var l := RegisterList(order, regs).value;
      assert SaveRegisters(order, regs).value == [Push(l)];
    }
  }

  /** For a completed allocation (every variable listed once, each with its
      own register below NREGISTERS), the saved list names each machine
      register at most once, all within `R4 .. R11`. */
  lemma AllocatedRegistersSaved(order: seq<Variable>, regs: map<Variable, Option<nat>>)
    requires NoDup(order) && forall v :: v in order <==> v in regs
    requires forall v :: v in regs ==> regs[v].Some? && regs[v].value < NREGISTERS
    requires forall a, b :: a in regs && b in regs && a != b ==> regs[a] != regs[b]
    ensures RegisterList(order, regs).Ok?
    ensures NoDup(RegisterList(order, regs).value)
    ensures forall x :: x in RegisterList(order, regs).value ==> FIRST_REG <= x < FIRST_REG + NREGISTERS
  {
    var l := RegisterList(order, regs).value;
    forall i, j | 0 <= i < j < |l|
      ensures l[i] != l[j]
    {
      assert order[i] != order[j];
    }
  }

  // ---------------------------------------------------------------------------
  // Spilling before allocation (`writeFunction`).

  /** From `ns0` to `ns`, blocks kept their elements and successors, their
      gen and kill only shrank, and a variable left them only if it is in `t`. */
  ghost predicate SpilledSince(ns0: seq<Node>, ns: seq<Node>, t: set<Variable>) {
    && SameSkeleton(ns0, ns)
    && (forall i :: 0 <= i < |ns| ==> AccessVars(ns[i]) <= AccessVars(ns0[i]))
    && (forall i, v :: 0 <= i < |ns| && v in AccessVars(ns0[i]) ==> v in AccessVars(ns[i]) || v in t)
  }

  /** No variable of `t` is left in the gen or kill of a listed block. */
  ghost predicate Cleared(ns: seq<Node>, bs: seq<nat>, t: set<Variable>) {
    forall j, v :: 0 <= j < |bs| && bs[j] < |ns| && v in t ==> v !in AccessVars(ns[bs[j]])
  }

  /** gen and kill only shrink, so what was cleared stays cleared. */
  lemma ClearedKeeps(ns0: seq<Node>, ns: seq<Node>, bs: seq<nat>, t: set<Variable>, t': set<Variable>)
    requires SpilledSince(ns0, ns, t') && Cleared(ns0, bs, t)
    ensures Cleared(ns, bs, t)
  {
  }

  lemma SpilledTrans(ns0: seq<Node>, ns1: seq<Node>, ns2: seq<Node>, t1: set<Variable>, t2: set<Variable>)
    requires SpilledSince(ns0, ns1, t1) && SpilledSince(ns1, ns2, t2)
    ensures SpilledSince(ns0, ns2, t1 + t2)
  {
    forall i, v | 0 <= i < |ns2| && v in AccessVars(ns0[i])
      ensures v in AccessVars(ns2[i]) || v in t1 + t2
    {
      assert v in AccessVars(ns1[i]) || v in t1;
    }
  }

  /** One `Graph.Spill(v)` on top of earlier spills: every block listed
      in `bs` loses `v`, the others are left alone. */
  lemma SpillKeeps(ns0: seq<Node>, ns: seq<Node>, ns': seq<Node>, t: set<Variable>, v: Variable, bs: seq<nat>)
    requires SpilledSince(ns0, ns, t) && Cleared(ns, bs, t) && |ns'| == |ns|
    requires forall i :: 0 <= i < |ns'| ==> ns'[i] == if i in bs then Spilled(ns[i], v) else ns[i]
    ensures SpilledSince(ns0, ns', t + {v}) && Cleared(ns', bs, t + {v})
  {
    forall i, u | 0 <= i < |ns'| && u in AccessVars(ns0[i])
      ensures u in AccessVars(ns'[i]) || u in t + {v}
    {
      assert u in AccessVars(ns[i]) || u in t;
    }
    forall j, u | 0 <= j < |bs| && bs[j] < |ns'| && u in t + {v}
      ensures u !in AccessVars(ns'[bs[j]])
    {
      assert bs[j] in bs;
    }
  }

  /** One `cfg.spill(v)` of the spilling loops of `writeFunction`, after
      the spills of `done` since the arena was `ns0`: `v` joins them, in the
      graph's spill set and out of every block `ns0` lists. */
  method SpillOne(cfg: Graph, v: Variable, ghost ns0: seq<Node>, ghost done: set<Variable>)
    requires cfg.Valid() && ChildrenInRange(ns0) && cfg.first < |ns0|
    requires SpilledSince(ns0, cfg.store.nodes, done) && Cleared(cfg.store.nodes, Dfs(ns0, [], cfg.first), done)
    modifies cfg, cfg.store
    ensures cfg.Valid() && cfg.first == old(cfg.first) && cfg.func == old(cfg.func)
    ensures SpilledSince(ns0, cfg.store.nodes, done + {v})
    ensures Cleared(cfg.store.nodes, Dfs(ns0, [], cfg.first), done + {v})
    ensures cfg.toSpill == old(cfg.toSpill) + {v}
  {
    ghost var pre := cfg.store.nodes;
    ghost var bs := cfg.Spill(v);
    DfsSkeleton(ns0, pre, [], cfg.first);
    SpillKeeps(ns0, pre, cfg.store.nodes, done, v, bs);
  }

  /** Lines 80-82 of `writeFunction`: every parameter is spilled, and leaves
      the gen and kill of every listed block. */
  method SpillParams(cfg: Graph)
    requires cfg.Valid() && cfg.func.Some?
    modifies cfg, cfg.store
    ensures cfg.Valid() && cfg.first == old(cfg.first) && cfg.func == old(cfg.func)
    ensures SpilledSince(old(cfg.store.nodes), cfg.store.nodes, SeqSet(cfg.func.value.lvars))
    ensures Cleared(cfg.store.nodes, Dfs(old(cfg.store.nodes), [], cfg.first), SeqSet(cfg.func.value.lvars))
    ensures cfg.toSpill == old(cfg.toSpill) + SeqSet(cfg.func.value.lvars)
  {
    var params := cfg.func.value.lvars;
    ghost var ns0 := cfg.store.nodes;
    ghost var t0 := cfg.toSpill;
    assert SeqSet(params[..0]) == {};
    for k := 0 to |params|
      invariant cfg.Valid() && cfg.first == old(cfg.first) && cfg.func == old(cfg.func)
      invariant SpilledSince(ns0, cfg.store.nodes, SeqSet(params[..k]))
      invariant Cleared(cfg.store.nodes, Dfs(ns0, [], cfg.first), SeqSet(params[..k]))
      invariant cfg.toSpill == t0 + SeqSet(params[..k])
    {
      assert SeqSet(params[..k + 1]) == SeqSet(params[..k]) + {params[k]} by {
        assert params[..k + 1] == params[..k] + [params[k]];
      }
      SpillOne(cfg, params[k], ns0, SeqSet(params[..k]));
    }
    assert params[..|params|] == params;
  }

  /** The arrays among `s`. */
  function ArraysOf(s: set<Variable>): set<Variable> {
    set v | v in s && v.IsArray()
  }

  /** The innermost loop of lines 84-89: the arrays in one block's
      `gen | kill`, as the loop starts, are spilled, and leave the gen and
      kill of every listed block; nothing else is spilled. */
  method SpillAccessArrays(cfg: Graph, b: nat)
    requires cfg.Valid() && b < |cfg.store.nodes|
    modifies cfg, cfg.store
    ensures cfg.Valid() && cfg.first == old(cfg.first) && cfg.func == old(cfg.func)
    ensures SpilledSince(old(cfg.store.nodes), cfg.store.nodes, ArraysOf(AccessVars(old(cfg.store.nodes)[b])))
    ensures Cleared(cfg.store.nodes, Dfs(old(cfg.store.nodes), [], cfg.first),
                    ArraysOf(AccessVars(old(cfg.store.nodes)[b])))
    ensures cfg.toSpill == old(cfg.toSpill) + ArraysOf(AccessVars(old(cfg.store.nodes)[b]))
  {
    ghost var ns0 := cfg.store.nodes;
    ghost var t0 := cfg.toSpill;
    var pending := AccessVars(cfg.store.nodes[b]);
    ghost var all := pending;
    while pending != {}
      invariant cfg.Valid() && cfg.first == old(cfg.first) && cfg.func == old(cfg.func)
      invariant pending <= all
      invariant SpilledSince(ns0, cfg.store.nodes, ArraysOf(all - pending))
      invariant Cleared(cfg.store.nodes, Dfs(ns0, [], cfg.first), ArraysOf(all - pending))
      invariant cfg.toSpill == t0 + ArraysOf(all - pending)
      decreases pending
    {
      var v :| v in pending;
      ghost var done := ArraysOf(all - pending);
      if v.IsArray() {
        SpillOne(cfg, v, ns0, done);
        assert ArraysOf(all - (pending - {v})) == done + {v};
      } else {
        assert ArraysOf(all - (pending - {v})) == done;
      }
      pending := pending - {v};
    }
    assert all - pending == all;
  }

  /** The arrays the loops of lines 84-89 meet: those in the gen or kill
      of a listed block that has at least one element. */
  function ArraysIn(ns: seq<Node>, bs: seq<nat>): set<Variable>
    requires InRange(ns, bs)
  {
    if bs == [] then {}
    else
      var n := ns[bs[|bs| - 1]];
      ArraysIn(ns, bs[..|bs| - 1]) + (if n.stmts == [] then {} else ArraysOf(AccessVars(n)))
  }

  lemma ArraysInSnoc(ns: seq<Node>, bs: seq<nat>, k: nat)
    requires InRange(ns, bs) && k < |bs|
    ensures ArraysIn(ns, bs[..k + 1]) ==
            ArraysIn(ns, bs[..k]) + (if ns[bs[k]].stmts == [] then {} else ArraysOf(AccessVars(ns[bs[k]])))
  {
    assert bs[..k + 1][..k] == bs[..k];
  }

  lemma {:induction false} ArraysInExactly(ns: seq<Node>, bs: seq<nat>, v: Variable)
    requires InRange(ns, bs)
    ensures v in ArraysIn(ns, bs) <==>
            v.IsArray() && exists j :: 0 <= j < |bs| && ns[bs[j]].stmts != [] && v in AccessVars(ns[bs[j]])
  {
    if bs != [] {
      var p := bs[..|bs| - 1];
      ArraysInExactly(ns, p, v);
      assert forall j :: 0 <= j < |p| ==> p[j] == bs[j];
    }
  }

  /** Lines 84-89 of `writeFunction`: for every statement of every listed
      block, the arrays in the block's current `gen | kill` are spilled;
      the blocks are listed on the arena as it was, and every array met
      leaves the gen and kill of every listed block. */
  method SpillArrays(cfg: Graph) returns (ghost listed: seq<nat>)
    requires cfg.Valid()
    modifies cfg, cfg.store
    ensures cfg.Valid() && cfg.first == old(cfg.first) && cfg.func == old(cfg.func)
    ensures Listed(old(cfg.store.nodes), cfg.first, listed)
    ensures SpilledSince(old(cfg.store.nodes), cfg.store.nodes, ArraysIn(old(cfg.store.nodes), listed))
    ensures Cleared(cfg.store.nodes, listed, ArraysIn(old(cfg.store.nodes), listed))
    ensures cfg.toSpill == old(cfg.toSpill) + ArraysIn(old(cfg.store.nodes), listed)
  {
    var blocks := cfg.Blocks();
    listed := blocks;
    ghost var ns0 := cfg.store.nodes;
    ghost var t0 := cfg.toSpill;
    assert Listed(ns0, cfg.first, blocks);
    assert ArraysSpilled(ns0, cfg.store.nodes, blocks, t0, cfg.toSpill, 0);
    for k := 0 to |blocks|
      invariant cfg.Valid() && cfg.first == old(cfg.first) && cfg.func == old(cfg.func)
      invariant ArraysSpilled(ns0, cfg.store.nodes, blocks, t0, cfg.toSpill, k)
    {
      SpillBlockArrays(cfg, k, ns0, blocks, t0);
    }
    assert blocks[..|blocks|] == blocks;
  }

  /** The state of the loop of lines 84-89 after `k` listed blocks: the
      arrays they met are spilled, since the arena was `ns0`, and cleared. */
  ghost predicate ArraysSpilled(ns0: seq<Node>, ns: seq<Node>, blocks: seq<nat>, t0: set<Variable>,
                                t: set<Variable>, k: nat)
  {
    && ChildrenInRange(ns0) && InRange(ns0, blocks) && k <= |blocks|
    && SpilledSince(ns0, ns, ArraysIn(ns0, blocks[..k]))
    && Cleared(ns, blocks, ArraysIn(ns0, blocks[..k]))
    && t == t0 + ArraysIn(ns0, blocks[..k])
  }

  /** The loop of lines 85-89 on the `k`th listed block: once per element,
      the arrays of the block's current gen and kill are spilled. */
  method SpillBlockArrays(cfg: Graph, k: nat, ghost ns0: seq<Node>, blocks: seq<nat>, ghost t0: set<Variable>)
    requires cfg.Valid() && ChildrenInRange(ns0) && cfg.first < |ns0| && blocks == Dfs(ns0, [], cfg.first)
    requires k < |blocks| && ArraysSpilled(ns0, cfg.store.nodes, blocks, t0, cfg.toSpill, k)
    modifies cfg, cfg.store
    ensures cfg.Valid() && cfg.first == old(cfg.first) && cfg.func == old(cfg.func)
    ensures ArraysSpilled(ns0, cfg.store.nodes, blocks, t0, cfg.toSpill, k + 1)
  {
    var b := blocks[k];
    ghost var done := ArraysIn(ns0, blocks[..k]);
    ghost var met := ArraysOf(AccessVars(ns0[b]));
    ghost var t1 := cfg.toSpill;
    ArraysInSnoc(ns0, blocks, k);
    for s := 0 to |cfg.store.nodes[b].stmts|
      invariant cfg.Valid() && cfg.first == old(cfg.first) && cfg.func == old(cfg.func)
      invariant SpilledSince(ns0, cfg.store.nodes, done + (if s > 0 then met else {}))
      invariant Cleared(cfg.store.nodes, blocks, done + (if s > 0 then met else {}))
      invariant cfg.toSpill == t1 + (if s > 0 then met else {})
    {
      ghost var d := done + (if s > 0 then met else {});
      SpillAccessArraysStep(cfg, b, ns0, blocks, d, met);
      assert d + met == done + met;
    }
  }

  /** One pass of the statement loop of lines 85-89 on block `b`, after the
      arrays `done` were spilled since the arena was `ns0`: the arrays `b`
      held in `ns0` are spilled as well, and nothing else. */
  method SpillAccessArraysStep(cfg: Graph, b: nat, ghost ns0: seq<Node>, ghost blocks: seq<nat>,
                               ghost done: set<Variable>, ghost met: set<Variable>)
    requires cfg.Valid() && b < |ns0| && ChildrenInRange(ns0) && cfg.first < |ns0|
    requires blocks == Dfs(ns0, [], cfg.first) && met == ArraysOf(AccessVars(ns0[b])) && done <= cfg.toSpill
    requires SpilledSince(ns0, cfg.store.nodes, done) && Cleared(cfg.store.nodes, blocks, done)
    modifies cfg, cfg.store
    ensures cfg.Valid() && cfg.first == old(cfg.first) && cfg.func == old(cfg.func)
    ensures SpilledSince(ns0, cfg.store.nodes, done + met) && Cleared(cfg.store.nodes, blocks, done + met)
    ensures cfg.toSpill == old(cfg.toSpill) + met
  {
    ghost var pre := cfg.store.nodes;
    ghost var t := cfg.toSpill;
    SpillAccessArrays(cfg, b);
    ghost var a := ArraysOf(AccessVars(pre[b]));
    SpilledTrans(ns0, pre, cfg.store.nodes, done, a);
    DfsSkeleton(ns0, pre, [], cfg.first);
    ClearedKeeps(pre, cfg.store.nodes, blocks, done, a);
    assert a <= met;
    forall v | v in met ensures v in a || v in done {
      assert v in AccessVars(pre[b]) || v in done;
    }
    assert done + met == done + a;
  }

  /** Lines 75-89 of `writeFunction`: the parameters, then the arrays of
      the listed blocks, leave gen and kill of every listed block and join
      the graph's spill set; the blocks are those the arena as it was lists. */
  method SpillVariables(cfg: Graph) returns (ghost listed: seq<nat>)
    requires cfg.Valid() && cfg.func.Some?
    modifies cfg, cfg.store
    ensures cfg.Valid() && cfg.func == old(cfg.func) && cfg.first == old(cfg.first)
    ensures Listed(old(cfg.store.nodes), cfg.first, listed)
    ensures cfg.toSpill == old(cfg.toSpill) + SeqSet(cfg.func.value.lvars) + ArraysIn(old(cfg.store.nodes), listed)
    ensures SpilledSince(old(cfg.store.nodes), cfg.store.nodes,
                         SeqSet(cfg.func.value.lvars) + ArraysIn(old(cfg.store.nodes), listed))
    ensures Cleared(cfg.store.nodes, listed, SeqSet(cfg.func.value.lvars) + ArraysIn(old(cfg.store.nodes), listed))
  {
    ghost var ns0 := cfg.store.nodes;
    ghost var ps := SeqSet(cfg.func.value.lvars);
    SpillParams(cfg);
    ghost var ns1 := cfg.store.nodes;
    listed := SpillArrays(cfg);
    ParamsThenArrays(ns0, ns1, cfg.store.nodes, cfg.first, listed, ps);
  }

  /** The arrays met after the parameters were spilled are those met before,
      less the spilled parameters. */
  lemma ParamsThenArrays(ns0: seq<Node>, ns1: seq<Node>, ns2: seq<Node>, first: nat, listed: seq<nat>,
                         ps: set<Variable>)
    requires ChildrenInRange(ns0) && first < |ns0|
    requires SpilledSince(ns0, ns1, ps) && Cleared(ns1, Dfs(ns0, [], first), ps)
    requires Listed(ns1, first, listed)
    requires SpilledSince(ns1, ns2, ArraysIn(ns1, listed)) && Cleared(ns2, listed, ArraysIn(ns1, listed))
    ensures Listed(ns0, first, listed)
    ensures ps + ArraysIn(ns1, listed) == ps + ArraysIn(ns0, listed)
    ensures SpilledSince(ns0, ns2, ps + ArraysIn(ns0, listed))
    ensures Cleared(ns2, listed, ps + ArraysIn(ns0, listed))
  {
    BlocksOfSkeleton(ns1, ns0, [], first, listed);
    DfsSkeleton(ns0, ns1, [], first);
    forall v ensures v in ps + ArraysIn(ns1, listed) <==> v in ps + ArraysIn(ns0, listed) {
      ArraysInExactly(ns0, listed, v);
      ArraysInExactly(ns1, listed, v);
      if v in ArraysIn(ns0, listed) && v !in ps {
        var j :| 0 <= j < |listed| && ns0[listed[j]].stmts != [] && v in AccessVars(ns0[listed[j]]);
        assert v in AccessVars(ns1[listed[j]]);
      }
    }
    SpilledTrans(ns0, ns1, ns2, ps, ArraysIn(ns1, listed));
    ClearedKeeps(ns1, ns2, listed, ps, ArraysIn(ns1, listed));
  }

  /** When `writeFunction` runs, no block has been filled yet: gen and kill
      are the empty sets every block starts with, so the loops of lines
      84-89 meet no array at all. */
  lemma {:induction false} ArraysUnmet(ns: seq<Node>, bs: seq<nat>)
    requires InRange(ns, bs) && forall j :: 0 <= j < |bs| ==> ns[bs[j]].gen == {} && ns[bs[j]].kill == {}
    ensures ArraysIn(ns, bs) == {}
  {
    if bs != [] {
      var p := bs[..|bs| - 1];
      assert forall j :: 0 <= j < |p| ==> p[j] == bs[j];
      ArraysUnmet(ns, p);
      assert AccessVars(ns[bs[|bs| - 1]]) == {};
    }
  }

  /** After `fill`, a block's gen or kill holds every variable one of its
      elements reads or assigns, whatever the sets held before. */
  lemma FilledAccess(n: Node, i: nat, v: Variable)
    requires i < |n.stmts| && (v in EntryUses(n.stmts[i]) || v in EntryDefines(n.stmts[i]))
    ensures v in AccessVars(Filled(n))
  {
    KillDefines(n.stmts, v);
    if v !in n.kill && v !in KillOf(n.stmts) {
      GenExactly(n.stmts, n.kill, v);
    }
  }

  /** A spill does not survive the next fill: once the allocator reruns
      liveness (regalloc.py:22), a spilled variable that the block reads or
      assigns is back in its gen or kill. */
  lemma RefillRestores(n: Node, v: Variable, i: nat)
    requires i < |n.stmts| && (v in EntryUses(n.stmts[i]) || v in EntryDefines(n.stmts[i]))
    ensures v !in AccessVars(Spilled(n, v)) && v in AccessVars(Filled(Spilled(n, v)))
  {
    FilledAccess(Spilled(n, v), i, v);
  }

  /** The array spill of lines 84-89 as evidently intended: the listed
      blocks are filled first, so every array an element of a listed block
      reads or assigns is spilled, and nothing but arrays. */
  method SpillArraysFilled(cfg: Graph) returns (ghost listed: seq<nat>)
    requires cfg.Valid()
    modifies cfg, cfg.store
    ensures cfg.Valid() && cfg.first == old(cfg.first) && cfg.func == old(cfg.func)
    ensures Listed(old(cfg.store.nodes), cfg.first, listed)
    ensures forall j, i, v: Variable ::
              (0 <= j < |listed| && 0 <= i < |old(cfg.store.nodes)[listed[j]].stmts| && v.IsArray() &&
               (v in EntryUses(old(cfg.store.nodes)[listed[j]].stmts[i]) ||
                v in EntryDefines(old(cfg.store.nodes)[listed[j]].stmts[i]))) ==> v in cfg.toSpill
    ensures forall v :: v in cfg.toSpill ==> v in old(cfg.toSpill) || v.IsArray()
  {
    ghost var ns0 := cfg.store.nodes;
    var bs := cfg.Blocks();
    cfg.store.FillBlocks(bs);
    ghost var f := cfg.store.nodes;
    ghost var t0 := cfg.toSpill;
    listed := SpillArrays(cfg);
    FilledArraysMet(ns0, f, bs, listed, cfg.first, t0, cfg.toSpill);
  }

  lemma FilledArraysMet(ns0: seq<Node>, f: seq<Node>, bs: seq<nat>, listed: seq<nat>, first: nat,
                        t0: set<Variable>, t: set<Variable>)
    requires ChildrenInRange(ns0) && first < |ns0| && BlocksOf(ns0, [], first, bs) && |f| == |ns0|
    requires forall i :: 0 <= i < |f| ==> f[i] == if i in bs then Filled(ns0[i]) else ns0[i]
    requires Listed(f, first, listed) && t == t0 + ArraysIn(f, listed)
    ensures Listed(ns0, first, listed)
    ensures forall j, i, v: Variable ::
              (0 <= j < |listed| && 0 <= i < |ns0[listed[j]].stmts| && v.IsArray() &&
               (v in EntryUses(ns0[listed[j]].stmts[i]) || v in EntryDefines(ns0[listed[j]].stmts[i]))) ==> v in t
    ensures forall v :: v in t ==> v in t0 || v.IsArray()
  {
    assert SameSkeleton(f, ns0);
    BlocksOfSkeleton(f, ns0, [], first, listed);
    forall j, i, v: Variable | 0 <= j < |listed| && 0 <= i < |ns0[listed[j]].stmts| && v.IsArray() &&
                     (v in EntryUses(ns0[listed[j]].stmts[i]) || v in EntryDefines(ns0[listed[j]].stmts[i]))
      ensures v in t
    {
      assert listed[j] in bs;
      FilledAccess(ns0[listed[j]], i, v);
      ArraysInExactly(f, listed, v);
    }
    forall v | v in t ensures v in t0 || v.IsArray() {
      ArraysInExactly(f, listed, v);
    }
  }

  /** What a freshly built allocator holds: the arena after its liveness
      run, the listed blocks, their access and cross tables and the queue. */
  datatype AllocView = AllocView(ns: seq<Node>, bl: seq<nat>, acc: seq<Pool>, cr: seq<Pool>, queue: seq<Variable>)

  /** `a` is what an allocator built on the arena `ns0` of a graph with
      entry `first` holds: liveness ran from `ns0` over the listed blocks,
      entry first; the tables are theirs; the queue lists the variables of
      the last listed block once each, by non-increasing frequency. */
  ghost predicate Built(a: AllocView, ns0: seq<Node>, first: nat) {
    && LivenessRan(ns0, a.ns, first, a.bl) && |a.bl| > 0 && a.bl[0] == first
    && Tabulated(a.ns, a.bl, a.acc, a.cr)
    && NoDup(a.queue)
    && (forall v :: v in a.queue <==> v in AccessVars(a.ns[a.bl[|a.bl| - 1]]) + CrossVars(a.ns[a.bl[|a.bl| - 1]]))
    && RegAlloc.Ranked(a.queue, a.acc, a.cr)
  }

  /** The positions of the blocks an allocator finds over pressure. */
  function OverPressure(a: AllocView): seq<nat>
    requires |a.acc| == |a.cr|
  {
    Overfull(a.acc, a.cr, NREGISTERS)
  }

  /** The outcome of lines 91-100 of `writeFunction` on a graph with entry
      `entry`, from the arena `ns0` to the arena `ns`, in terms of the two
      allocators' views: the first is built on `ns0`; when it finds a block
      over pressure the result is `NoAddOnList` and the arena is the one it
      left; otherwise the second allocator, built on that arena, decides. */
  ghost predicate AllocOutcome(r: Result<map<Variable, Option<nat>>>, first: AllocView, second: AllocView,
                               entry: nat, ns0: seq<Node>, ns: seq<Node>)
  {
    && |first.acc| == |first.cr|
    && Built(first, ns0, entry)
    && (OverPressure(first) != [] ==> r == Err(NoAddOnList) && ns == first.ns)
    && (OverPressure(first) == [] ==> SecondOutcome(r, second, entry, first.ns, ns))
  }

  /** The outcome of lines 99-100 of `writeFunction`: the allocator is built
      on `ns0` and called; it fails with `SpillNotPerformed` exactly when it
      finds a block over pressure, and otherwise the map gives the variable at
      position `i` of its queue register `i`, has no other key, and gives
      distinct registers below `NREGISTERS`. */
  ghost predicate SecondOutcome(r: Result<map<Variable, Option<nat>>>, second: AllocView, entry: nat,
                                ns0: seq<Node>, ns: seq<Node>)
  {
    && |second.acc| == |second.cr| && second.ns == ns
    && (r.Err? <==> OverPressure(second) != [])
    && (r.Err? ==> r.error == SpillNotPerformed)
    && (r.Ok? ==>
          && (forall v :: v in r.value <==> v in second.queue)
          && (forall i :: 0 <= i < |second.queue| ==> r.value[second.queue[i]] == Some(i))
          && (forall v :: v in r.value ==> r.value[v].Some? && r.value[v].value < NREGISTERS)
          && (forall a, b :: a in r.value && b in r.value && a != b ==> r.value[a] != r.value[b]))
    && Built(second, ns0, entry)
  }

  /** Lines 91-100 of `writeFunction`: an allocator is built (`first`); when
      some listed block holds more than `NREGISTERS` variables the program
      adds to the list `toSpill()` returned and fails. Otherwise a second
      allocator (`second`) is built and called. */
  method Allocate(cfg: Graph) returns (r: Result<map<Variable, Option<nat>>>, ghost first: AllocView,
                                       ghost second: AllocView)
    requires cfg.Valid()
    modifies cfg.store
    ensures AllocOutcome(r, first, second, cfg.first, old(cfg.store.nodes), cfg.store.nodes)
  {
    var alloc;
    alloc, first := NewAllocator(cfg);
    second := first;
    var over := alloc.ToSpill();
    if |over| > 0 {
      return Err(NoAddOnList), first, second;
    }
    ghost var ns1 := cfg.store.nodes;
    r, second := AllocateAgain(cfg);
    assert SecondOutcome(r, second, cfg.first, ns1, cfg.store.nodes);
  }

  /** Lines 99-100 of `writeFunction`: a second allocator is built and
      called; it refuses when it finds a block over pressure, and else gives
      the variable at position `i` of its queue register `i`, and no other
      variable a register. */
  method AllocateAgain(cfg: Graph) returns (r: Result<map<Variable, Option<nat>>>, ghost second: AllocView)
    requires cfg.Valid()
    modifies cfg.store
    ensures SecondOutcome(r, second, cfg.first, old(cfg.store.nodes), cfg.store.nodes)
  {
    var again;
    again, second := NewAllocator(cfg);
    r := again.Call();
  }

  /** `regalloc.Allocator(cfg, NREGISTERS)`, with what it holds as a view. */
  method NewAllocator(cfg: Graph) returns (alloc: Allocator, ghost a: AllocView)
    requires cfg.Valid()
    modifies cfg.store
    ensures fresh(alloc) && alloc.Valid() && alloc.Fresh() && alloc.nreg == NREGISTERS
    ensures cfg.Valid() && Built(a, old(cfg.store.nodes), cfg.first) && a.ns == cfg.store.nodes
    ensures a.bl == alloc.blocks && a.acc == alloc.access && a.cr == alloc.cross && a.queue == alloc.varFreq
    ensures alloc.ToSpill() == OverPressure(a)
  {
    alloc := new Allocator(cfg, NREGISTERS);
    a := AllocView(cfg.store.nodes, alloc.blocks, alloc.access, alloc.cross, alloc.varFreq);
  }

  // ---------------------------------------------------------------------------
  // The generator's state.

  /** The generator's module state: the frame offset of every spilled
      variable, the label of every string literal, the register of every
      allocated variable and the frame size of the function being written. */
  class Generator {
    var spillVars: map<Variable, int>
    var strLabels: map<string, string>
    var regs: map<Variable, Option<nat>>
    var stack: nat

    constructor ()
      ensures spillVars == map[] && strLabels == map[] && regs == map[] && stack == 0
    {
      spillVars, strLabels, regs, stack := map[], map[], map[], 0;
    }

    /** `spill(toSpill, func)`: the frame size is the total of the spilled
        variables' bytes; they are laid out from the top of the frame down,
        and the parameters are placed from four bytes above the frame. */
    method Spill(toSpill: seq<Variable>, func: Function) returns (st: nat)
      modifies this
      ensures st == TotalBytes(toSpill)
      ensures spillVars == ParamsPlaced(Placed(old(spillVars), toSpill, st), func.lvars, st + 4)
      ensures strLabels == old(strLabels) && regs == old(regs) && stack == old(stack)
    {
      st := FrameSize(toSpill);
      PlaceSpilled(toSpill, st);
      PlaceParams(func.lvars, st + 4);
    }

    /** The second loop of `spill`: each spilled variable below the previous one. */
    method PlaceSpilled(toSpill: seq<Variable>, st: nat)
      modifies this
      ensures spillVars == Placed(old(spillVars), toSpill, st)
      ensures strLabels == old(strLabels) && regs == old(regs) && stack == old(stack)
    {
      var offset := 0;
      ghost var m0 := spillVars;
      for k := 0 to |toSpill|
        invariant offset == TotalBytes(toSpill[..k])
        invariant spillVars == Placed(m0, toSpill[..k], st)
        invariant strLabels == old(strLabels) && regs == old(regs) && stack == old(stack)
      {
        PlacedSnoc(m0, toSpill, st, k);
        offset := offset + toSpill[k].Bytes();
        spillVars := spillVars[toSpill[k] := st - offset];
      }
      assert toSpill[..|toSpill|] == toSpill;
    }

    /** The parameter loop of `spill`. */
    method PlaceParams(params: seq<Variable>, offset: int)
      modifies this
      ensures spillVars == ParamsPlaced(old(spillVars), params, offset)
      ensures strLabels == old(strLabels) && regs == old(regs) && stack == old(stack)
    {
      ghost var m1 := spillVars;
      var off := offset;
      for k := 0 to |params|
        invariant ParamsPlaced(spillVars, params[k..], off) == ParamsPlaced(m1, params, offset)
        invariant strLabels == old(strLabels) && regs == old(regs) && stack == old(stack)
      {
        assert params[k..][1..] == params[k + 1..];
        spillVars := spillVars[params[k] := off];
        off := params[k].vtype.Size();
      }
    }

    /** The numbering loop of `labels` over the literals of one block. */
    method LabelTexts(ts: seq<string>, n: nat, ghost old0: map<string, string>, ghost seen: seq<string>)
      returns (n': nat)
      requires (strLabels, n) == Numbering(old0, seen)
      modifies this
      ensures (strLabels, n') == Numbering(old0, seen + ts)
      ensures spillVars == old(spillVars) && regs == old(regs) && stack == old(stack)
    {
      n' := n;
      assert seen + ts[..0] == seen;
      for k := 0 to |ts|
        invariant (strLabels, n') == Numbering(old0, seen + ts[..k])
        invariant spillVars == old(spillVars) && regs == old(regs) && stack == old(stack)
      {
        ghost var cur := seen + ts[..k];
        assert seen + ts[..k + 1] == cur + [ts[k]];
        assert (cur + [ts[k]])[..|cur|] == cur;
        if ts[k] !in strLabels {
          strLabels := strLabels[ts[k] := StrLabel(n')];
          n' := n' + 1;
        }
      }
      assert ts[..|ts|] == ts;
    }

    /** The loops of `labels` over the listed blocks of an arena: each
        block's literals in order. */
    method LabelBlocks(store: NodeStore, blocks: seq<nat>, n: nat, ghost old0: map<string, string>,
                       ghost seen: seq<string>)
      returns (n': nat)
      requires InRange(store.nodes, blocks) && (strLabels, n) == Numbering(old0, seen)
      modifies this
      ensures (strLabels, n') == Numbering(old0, seen + ListTexts(store.nodes, blocks))
      ensures spillVars == old(spillVars) && regs == old(regs) && stack == old(stack)
    {
      ghost var ns := store.nodes;
      n' := n;
      assert seen + ListTexts(ns, blocks[..0]) == seen;
      for k := 0 to |blocks|
        invariant store.nodes == ns
        invariant (strLabels, n') == Numbering(old0, seen + ListTexts(ns, blocks[..k]))
        invariant spillVars == old(spillVars) && regs == old(regs) && stack == old(stack)
      {
        var ts := BlockTexts(store.nodes[blocks[k]].stmts);
        ListTextsStep(ns, blocks, k, seen);
        n' := LabelTexts(ts, n', old0, seen + ListTexts(ns, blocks[..k]));
      }
      assert blocks[..|blocks|] == blocks;
    }

    /** `labels(graphs)`: the literals of every print statement, graph by
        graph and block by block, numbered from 0 in the order they first
        appear and not already in the table. */
    method Labels(store: NodeStore, graphs: seq<Graph>) returns (lists: seq<seq<nat>>, ghost texts: seq<string>)
      requires forall g :: 0 <= g < |graphs| ==> graphs[g].store == store && graphs[g].Valid()
      modifies this
      ensures AllListed(store.nodes, FirstsOf(graphs), lists) && texts == AllTexts(store.nodes, lists)
      ensures strLabels == Numbering(old(strLabels), texts).0
      ensures spillVars == old(spillVars) && regs == old(regs) && stack == old(stack)
    {
      lists := ListGraphs(store, graphs);
      ghost var old0 := strLabels;
      var labelnum := 0;
      for g := 0 to |lists|
        invariant (strLabels, labelnum) == Numbering(old0, AllTexts(store.nodes, lists[..g]))
        invariant spillVars == old(spillVars) && regs == old(regs) && stack == old(stack)
      {
        AllTextsPrefix(store.nodes, lists, g);
        labelnum := LabelBlocks(store, lists[g], labelnum, old0, AllTexts(store.nodes, lists[..g]));
      }
      assert lists[..|lists|] == lists;
      texts := AllTexts(store.nodes, lists);
    }

    /** Lines 75-101 of `writeFunction`: spill the parameters and the arrays,
        leaving the arena `spilled`, and allocate from there; on success the
        frame is laid out for the empty list of blocks `toSpill()` returned,
        which places only the parameters, from offset 4. */
    method SelectSpills(cfg: Graph) returns (r: Result<map<Variable, Option<nat>>>, ghost listed: seq<nat>,
                                            ghost spilled: seq<Node>, ghost first: AllocView, ghost second: AllocView)
      requires cfg.Valid() && cfg.func.Some?
      modifies this, cfg, cfg.store
      ensures cfg.func == old(cfg.func) && cfg.first == old(cfg.first) && strLabels == old(strLabels)
      ensures Listed(old(cfg.store.nodes), cfg.first, listed)
      ensures cfg.toSpill == old(cfg.toSpill) + SeqSet(cfg.func.value.lvars) + ArraysIn(old(cfg.store.nodes), listed)
      ensures SpilledSince(old(cfg.store.nodes), spilled,
                           SeqSet(cfg.func.value.lvars) + ArraysIn(old(cfg.store.nodes), listed))
      ensures Cleared(spilled, listed, SeqSet(cfg.func.value.lvars) + ArraysIn(old(cfg.store.nodes), listed))
      ensures AllocOutcome(r, first, second, cfg.first, spilled, cfg.store.nodes)
      ensures r.Ok? ==> regs == r.value && stack == 0 && spillVars == ParamsPlaced(map[], cfg.func.value.lvars, 4)
    {
      spillVars := map[];
      listed := SpillVariables(cfg);
      spilled := cfg.store.nodes;
      r, first, second := AllocateFrame(cfg);
    }

    /** Lines 91-101 of `writeFunction`: allocate, and on success keep the
        register map and lay out the frame for the empty list of blocks. */
    method AllocateFrame(cfg: Graph) returns (r: Result<map<Variable, Option<nat>>>,
                                             ghost first: AllocView, ghost second: AllocView)
      requires cfg.Valid() && cfg.func.Some? && spillVars == map[]
      modifies this, cfg.store
      ensures strLabels == old(strLabels)
      ensures AllocOutcome(r, first, second, cfg.first, old(cfg.store.nodes), cfg.store.nodes)
      ensures r.Ok? ==> regs == r.value && stack == 0 && spillVars == ParamsPlaced(map[], cfg.func.value.lvars, 4)
    {
      r, first, second := Allocate(cfg);
      if r.Ok? {
        LayOut(r.value, cfg);
      }
    }

    /** `regs = alloc()` and `stack = spill(toSpill, cfg.func)` with the empty
        list `toSpill()` returned: the frame is empty and only the parameters
        are placed, from offset 4. The graph is left as it was. */
    method LayOut(m: map<Variable, Option<nat>>, cfg: Graph)
      requires spillVars == map[] && cfg.func.Some?
      modifies this
      ensures regs == m && stack == 0 && spillVars == ParamsPlaced(map[], cfg.func.value.lvars, 4)
      ensures strLabels == old(strLabels)
      ensures cfg.first == old(cfg.first) && cfg.store.nodes == old(cfg.store.nodes) && cfg.func == old(cfg.func)
    {
      regs := m;
      stack := Spill([], cfg.func.value);
      assert Placed(map[], [], 0) == map[];
    }
  }
}
