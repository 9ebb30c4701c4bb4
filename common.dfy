/** Failure-carrying values shared by the backend modules, and the error kinds the
    backend raises (each Python exception becomes one constructor). */
module Common {

  datatype Option<+T> = None | Some(value: T)

  /** The ways the backend can fail. */
  datatype Error =
    | AlreadyDeclared(name: string)      // Symbol: name already in the symbol table
    | VoidVariable(name: string)         // Variable: a variable cannot be void
    | NotFound(name: string)             // SymbolTable lookup: symbol not found
    | UnknownOperator(op: string)        // BinExpr: operator not recognised
    | VoidOperand                        // BinExpr: binary expression with void operand
    | UnknownComparator(comp: string)    // Condition: comparator not recognised
    | VoidComparison                     // Condition: comparation with void operand
    | VoidExpression                     // AssignStmt: void right-hand side
    | NotABranch                         // gBranch: stmt is not a branch statement
    | SpillNotPerformed                  // Allocator call: some block is over pressure
    | NotEnoughRegs                      // nextFreeReg: every register is taken
    | UndefinedAttribute(attr: string)   // an attribute lookup that fails at run time
    | NoAddOnList                        // add called on a list in writeFunction
    | UnsupportedOperand                 // None + int: a variable without a register

  datatype Result<+T> = Ok(value: T) | Err(error: Error) {
    predicate IsFailure() { Err? }
    function PropagateFailure<U>(): Result<U>
      requires Err?
    {
      Err(error)
    }
    function Extract(): T
      requires Ok?
    {
      value
    }
  }

  datatype Outcome = Pass | Fail(error: Error)
}
