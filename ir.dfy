/** The intermediate representation the backend consumes: types, symbols, the
    symbol table, expressions, conditions and statements, and the use/def facts
    that liveness analysis reads from them. */
module IR {
  import opened Common

  /** The four basic types; each is a singleton in the compiler, so equality is
      the identity test the compiler uses. */
  datatype Type = TInt | TFloat | TChar | TVoid {
    /** Size in bytes of one value of this type. */
    function Size(): nat {
      match this
      case TInt => 4
      case TFloat => 4
      case TChar => 1
      case TVoid => 0
    }
  }

  /** Position of a non-void type in the widening order char < int < float. */
  function Rank(t: Type): int {
    match t
    case TChar => 0
    case TInt => 1
    case TFloat => 2
    case TVoid => -1
  }

  /** A variable or array entry of the symbol table. `id` stands for object
      identity: two declarations with the same name are different variables. */
  datatype Variable = Variable(id: nat, name: string, vtype: Type, length: Option<nat>) {
    predicate IsArray() { length.Some? }
    /** Bytes of frame memory the variable takes: size x length for an array. */
    function Bytes(): nat {
      if length.Some? then vtype.Size() * length.value else vtype.Size()
    }
  }

  datatype Symbol = VarSymbol(v: Variable) | FuncSymbol(fname: string, ftype: Type) {
    function Name(): string {
      if VarSymbol? then v.name else fname
    }
  }

  // ---------------------------------------------------------------------------
  // The symbol table: a list of symbols searched by name.

  class SymbolTable {
    var entries: seq<Symbol>

    constructor ()
      ensures entries == []
    {
      entries := [];
    }

    /** `table[key]`: the first entry with that name, or a SemanticError. */
    method Lookup(key: string) returns (r: Result<Symbol>)
      ensures r.Ok? <==> exists i :: 0 <= i < |entries| && entries[i].Name() == key
      ensures r.Ok? ==> exists i :: 0 <= i < |entries| && entries[i] == r.value &&
                          r.value.Name() == key &&
                          forall j :: 0 <= j < i ==> entries[j].Name() != key
      ensures r.Err? ==> r.error == NotFound(key)
    {
      for i := 0 to |entries|
        invariant forall j :: 0 <= j < i ==> entries[j].Name() != key
      {
        if entries[i].Name() == key {
          return Ok(entries[i]);
        }
      }
      return Err(NotFound(key));
    }

    /** `name in table`: whether some entry has that name. */
    method Contains(item: string) returns (b: bool)
      ensures b <==> exists i :: 0 <= i < |entries| && entries[i].Name() == item
    {
      for i := 0 to |entries|
        invariant forall j :: 0 <= j < i ==> entries[j].Name() != item
      {
        if entries[i].Name() == item {
          return true;
        }
      }
      return false;
    }

    /** `pop(size)`: removes entries from the end until at most `size` remain. */
    method Pop(size: nat)
      modifies this
      ensures entries == if |old(entries)| <= size then old(entries) else old(entries)[..size]
    {
      while |entries| > size
        invariant |old(entries)| <= size ==> entries == old(entries)
        invariant size <= |entries| <= |old(entries)| || |old(entries)| <= size
        invariant entries == old(entries)[..|entries|]
        decreases |entries|
      {
        entries := entries[..|entries| - 1];
      }
    }

    /** Symbol construction: rejects a name already present, otherwise appends. */
    method Declare(sym: Symbol) returns (r: Outcome)
      modifies this
      ensures r.Fail? <==> exists i :: 0 <= i < |old(entries)| && old(entries)[i].Name() == sym.Name()
      ensures r.Fail? ==> r.error == AlreadyDeclared(sym.Name()) && entries == old(entries)
      ensures r.Pass? ==> entries == old(entries) + [sym]
    {
      var present := Contains(sym.Name());
      if present {
        return Fail(AlreadyDeclared(sym.Name()));
      }
      entries := entries + [sym];
      return Pass;
    }

    /** Variable construction: the symbol is appended first, and only then is a
        void type rejected, so a void variable stays in the table. */
    method DeclareVariable(v: Variable) returns (r: Outcome)
      modifies this
      ensures (exists i :: 0 <= i < |old(entries)| && old(entries)[i].Name() == v.name) ==>
                r == Fail(AlreadyDeclared(v.name)) && entries == old(entries)
      ensures (forall i :: 0 <= i < |old(entries)| ==> old(entries)[i].Name() != v.name) ==>
                entries == old(entries) + [VarSymbol(v)] &&
                r == (if v.vtype == TVoid then Fail(VoidVariable(v.name)) else Pass)
    {
      r := Declare(VarSymbol(v));
      if r.Fail? {
        return;
      }
      if v.vtype == TVoid {
        r := Fail(VoidVariable(v.name));
      }
    }
  }

  // ---------------------------------------------------------------------------
  // Expressions.

  const BinOpers: seq<string> := ["+", "-", "*", "/", "%"]
  const CompOpers: seq<string> := ["==", "!=", ">", ">=", "<", "<="]

  datatype Expr =
    | VarRef(v: Variable)                       // a variable reference
    | ElemRef(arr: Variable, index: int)        // an array element; resolves to the array
    | Call(fname: string, ftype: Type, args: seq<Expr>)
    | Const(ctype: Type, value: int)
    | Inverse(operand: Expr)                    // unary minus
    | Binary(op: string, left: Expr, right: Expr, btype: Type)
    | NoValue                                   // the bare void expression of `return;`

  /** The type an expression was given when it was built. */
  function ExprType(e: Expr): Type {
    match e
    case VarRef(v) => v.vtype
    case ElemRef(a, _) => a.vtype
    case Call(_, t, _) => t
    case Const(t, _) => t
    case Inverse(x) => ExprType(x)
    case Binary(_, _, _, t) => t
    case NoValue => TVoid
  }

  /** Result type of a binary expression: the common type when both agree,
      otherwise float if either is float, else int if either is int, else char. */
  function Promote(t1: Type, t2: Type): (r: Type)
    ensures r == t1 || r == t2 || r == TChar
    ensures t1 != TVoid && t2 != TVoid ==> r == t1 || r == t2
  {
    if t1 == t2 then t1
    else if t1 == TFloat || t2 == TFloat then TFloat
    else if t1 == TInt || t2 == TInt then TInt
    else assert t1.TChar? || t1.TVoid?; TChar
  }

  /** On non-void operands the promoted type is the wider one, whichever side it
      is on. */
  lemma PromoteIsWider(t1: Type, t2: Type)
    requires t1 != TVoid && t2 != TVoid
    ensures Promote(t1, t2) == (if Rank(t1) >= Rank(t2) then t1 else t2)
    ensures Promote(t1, t2) == Promote(t2, t1)
    ensures Rank(Promote(t1, t2)) >= Rank(t1) && Rank(Promote(t1, t2)) >= Rank(t2)
  {
  }

  /** BinExpr construction. */
  function MkBinary(op: string, e1: Expr, e2: Expr): (r: Result<Expr>)
    ensures r.Ok? <==> op in BinOpers && ExprType(e1) != TVoid && ExprType(e2) != TVoid
    ensures op !in BinOpers ==> r == Err(UnknownOperator(op))
    ensures op in BinOpers && (ExprType(e1) == TVoid || ExprType(e2) == TVoid) ==> r == Err(VoidOperand)
    ensures r.Ok? ==> r.value.Binary? && r.value.op == op && r.value.left == e1 && r.value.right == e2 &&
                      ExprType(r.value) != TVoid &&
                      Rank(ExprType(r.value)) == (if Rank(ExprType(e1)) >= Rank(ExprType(e2))
                                                  then Rank(ExprType(e1)) else Rank(ExprType(e2)))
  {
    if op !in BinOpers then Err(UnknownOperator(op))
    else if ExprType(e1) == TVoid || ExprType(e2) == TVoid then Err(VoidOperand)
    else
      PromoteIsWider(ExprType(e1), ExprType(e2));
      Ok(Binary(op, e1, e2, Promote(ExprType(e1), ExprType(e2))))
  }

  datatype Condition = Condition(comp: string, left: Expr, right: Expr)

  /** Condition construction. */
  function MkCondition(comp: string, e1: Expr, e2: Expr): (r: Result<Condition>)
    ensures r.Ok? <==> comp in CompOpers && ExprType(e1) != TVoid && ExprType(e2) != TVoid
    ensures comp !in CompOpers ==> r == Err(UnknownComparator(comp))
    ensures comp in CompOpers && (ExprType(e1) == TVoid || ExprType(e2) == TVoid) ==> r == Err(VoidComparison)
    ensures r.Ok? ==> r.value == Condition(comp, e1, e2)
  {
    if comp !in CompOpers then Err(UnknownComparator(comp))
    else if ExprType(e1) == TVoid || ExprType(e2) == TVoid then Err(VoidComparison)
    else Ok(Condition(comp, e1, e2))
  }

  /** The variables an expression reads, as `uses()` reports them: call
      arguments are not counted. */
  function Uses(e: Expr): set<Variable> {
    match e
    case VarRef(v) => {v}
    case ElemRef(a, _) => {a}
    case Call(_, _, _) => {}
    case Const(_, _) => {}
    case Inverse(x) => Uses(x)
    case Binary(_, l, r, _) => Uses(l) + Uses(r)
    case NoValue => {}
  }

  /** Every variable named anywhere in an expression, call arguments included. */
  function Refs(e: Expr): set<Variable> {
    match e
    case VarRef(v) => {v}
    case ElemRef(a, _) => {a}
    case Call(_, _, args) => RefsOf(args)
    case Const(_, _) => {}
    case Inverse(x) => Refs(x)
    case Binary(_, l, r, _) => Refs(l) + Refs(r)
    case NoValue => {}
  }

  function RefsOf(args: seq<Expr>): set<Variable>
    decreases args
  {
    if args == [] then {} else Refs(args[0]) + RefsOf(args[1..])
  }

  predicate CallFree(e: Expr) {
    match e
    case Call(_, _, _) => false
    case Inverse(x) => CallFree(x)
    case Binary(_, l, r, _) => CallFree(l) && CallFree(r)
    case _ => true
  }

  /** `uses()` never reports a variable the expression does not name, and it
      misses only variables that occur inside call arguments. */
  lemma {:induction false} UsesWithinRefs(e: Expr)
    ensures Uses(e) <= Refs(e)
    ensures CallFree(e) ==> Uses(e) == Refs(e)
  {
    match e
    case Inverse(x) => UsesWithinRefs(x);
    case Binary(_, l, r, _) => UsesWithinRefs(l); UsesWithinRefs(r);
    case _ =>
  }

  /** A condition reads what its two operands read. */
  function CondUses(c: Condition): set<Variable> {
    Uses(c.left) + Uses(c.right)
  }

  // ---------------------------------------------------------------------------
  // Statements.

  datatype PrintItem = Text(text: string) | Value(e: Expr)

  /** The target of an assignment: a variable, or an element of an array. */
  datatype LValue = Plain(v: Variable) | Element(arr: Variable, index: int) {
    /** The symbol the target resolves to: the whole array for an element. */
    function Var(): Variable {
      if Plain? then v else arr
    }
  }

  /** The statements that end up inside basic blocks. */
  datatype Simple =
    | Empty
    | Return(value: Expr)
    | Print(items: seq<PrintItem>)
    | Assign(target: LValue, rhs: Expr)
    | Eval(e: Expr)                     // an expression used as a statement

  /** The structured statement tree of a function body. `id` fields stand for
      the identity of the statement (and condition) objects. */
  datatype Stmt =
    | Block(body: seq<Stmt>)
    | If(cid: nat, cond: Condition, thenPart: Stmt, elsePart: Option<Stmt>)
    | While(cid: nat, cond: Condition, loopBody: Stmt)
    | Decl(v: Variable)
    | Single(sid: nat, s: Simple)

  /** No statement or condition of `s` has identity `id`: a statement object
      made afresh is none of those already in the tree. */
  predicate IdFree(s: Stmt, id: nat) {
    match s
    case Block(body) => forall k :: 0 <= k < |body| ==> IdFree(body[k], id)
    case If(cid, _, t, e) => cid != id && IdFree(t, id) && (e.None? || IdFree(e.value, id))
    case While(cid, _, b) => cid != id && IdFree(b, id)
    case Decl(_) => true
    case Single(sid, _) => sid != id
  }

  /** An element of a basic block: a statement, or the condition that ends a
      branching block. */
  datatype Entry = Stmt(id: nat, s: Simple) | Test(id: nat, c: Condition)

  /** A function: its name, return type, parameters (in order) and the
      statements of its body. */
  datatype Function = Function(name: string, stype: Type, lvars: seq<Variable>, block: seq<Stmt>)

  /** The return the graph builder appends to a block; a constant of the
      function's own type never draws a warning. */
  lemma SyntheticReturnIsSilent(t: Type)
    ensures ReturnCheck(t, ExprType(Const(t, 0))) == NoWarning
  {
  }

  /** What a print statement reads: the union over its non-string items. */
  function ItemsUses(items: seq<PrintItem>): set<Variable> {
    if items == [] then {}
    else (if items[0].Value? then Uses(items[0].e) else {}) + ItemsUses(items[1..])
  }

  lemma {:induction false} ItemsUsesExactly(items: seq<PrintItem>, x: Variable)
    ensures x in ItemsUses(items) <==>
            exists i :: 0 <= i < |items| && items[i].Value? && x in Uses(items[i].e)
  {
    if items != [] {
      ItemsUsesExactly(items[1..], x);
      if x in ItemsUses(items[1..]) {
        var i :| 0 <= i < |items[1..]| && items[1..][i].Value? && x in Uses(items[1..][i].e);
        assert items[i + 1] == items[1..][i];
      }
      forall i | 1 <= i < |items| && items[i].Value? && x in Uses(items[i].e)
        ensures x in ItemsUses(items[1..])
      {
        assert items[1..][i - 1] == items[i];
      }
    }
  }

  /** `uses()` of a statement. A bare `return;` reads nothing. */
  function SimpleUses(s: Simple): set<Variable> {
    match s
    case Empty => {}
    case Return(e) => Uses(e)
    case Print(items) => ItemsUses(items)
    case Assign(_, rhs) => Uses(rhs)
    case Eval(e) => Uses(e)
  }

  /** `uses()` of a block element. */
  function EntryUses(en: Entry): set<Variable> {
    match en
    case Stmt(_, s) => SimpleUses(s)
    case Test(_, c) => CondUses(c)
  }

  predicate IsAssign(en: Entry) {
    en.Stmt? && en.s.Assign?
  }

  /** What a block element writes: `defines()` of an assignment, nothing for
      every other element. */
  function EntryDefines(en: Entry): (r: set<Variable>)
    ensures r != {} <==> IsAssign(en)
    ensures IsAssign(en) ==> r == {en.s.target.Var()}
    ensures |r| <= 1
  {
    if IsAssign(en) then {en.s.target.Var()} else {}
  }

  /** True when converting a value of type `from` to type `to` loses range:
      float to int or char, int to char. */
  predicate Narrows(from: Type, to: Type) {
    (from == TFloat && to != TFloat) || (from == TInt && to == TChar)
  }

  /** AssignStmt construction: a void right-hand side is rejected. The second
      component says whether the incompatible-cast warning is printed. */
  function MkAssign(target: LValue, rhs: Expr): (r: Result<(Simple, bool)>)
    ensures r.Ok? <==> ExprType(rhs) != TVoid
    ensures r.Err? ==> r.error == VoidExpression
    ensures r.Ok? ==> r.value.0 == Assign(target, rhs)
    ensures r.Ok? && target.Var().vtype != TVoid ==>
              (r.value.1 <==> Rank(ExprType(rhs)) > Rank(target.Var().vtype))
  {
    if ExprType(rhs) == TVoid then Err(VoidExpression)
    else Ok((Assign(target, rhs), Narrows(ExprType(rhs), target.Var().vtype)))
  }

  datatype ReturnWarning = NoWarning | ReturningExpression | VoidReturn | IncompatibleCast

  /** The warning a ReturnStmt prints, from the function's declared type and the
      type of the returned expression. */
  function ReturnCheck(ftype: Type, etype: Type): ReturnWarning {
    if ftype == TVoid && etype != TVoid then ReturningExpression
    else if ftype != TVoid && etype == TVoid then VoidReturn
    else if Narrows(etype, ftype) then IncompatibleCast
    else NoWarning
  }

  /** Between non-void types the cast warning is given exactly when the value
      type is wider than the declared type, that is, when promoting the two
      would not give back the declared type. */
  lemma ReturnCastWarning(ftype: Type, etype: Type)
    requires ftype != TVoid && etype != TVoid
    ensures ReturnCheck(ftype, etype) == IncompatibleCast <==> Rank(etype) > Rank(ftype)
    ensures ReturnCheck(ftype, etype) == IncompatibleCast <==> Promote(ftype, etype) != ftype
    ensures ReturnCheck(ftype, etype) != IncompatibleCast ==> ReturnCheck(ftype, etype) == NoWarning
  {
  }

  /** Exactly one of the void cases applies when exactly one side is void. */
  lemma ReturnVoidWarnings(ftype: Type, etype: Type)
    ensures ReturnCheck(ftype, etype) == ReturningExpression <==> ftype == TVoid && etype != TVoid
    ensures ReturnCheck(ftype, etype) == VoidReturn <==> ftype != TVoid && etype == TVoid
  {
  }
}
