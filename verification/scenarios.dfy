/** Concrete instances of the statement with a minimal expression language of
    literals and variables, standing in for the interpreter's expressions. */
module Scenarios {
  import opened Results
  import opened Values
  import opened Heaps
  import opened Labels
  import opened FieldAssignStmt

  datatype Expr = Lit(v: Value) | Var(name: string)

  function EvalStore(e: Expr, store: Store): Result<Value, Fault> {
    match e
    case Lit(v) => Success(v)
    case Var(x) => if x in store then Success(store[x]) else Failure(EvalFault("unbound variable"))
  }

  function Eval(): Evaluator<Expr> {
    Evaluator(EvalStore, (e, c: Config) => EvalStore(e, c.store))
  }

  /** Heap `{L: {}}`; `L["x"] := 5` gives `{L: {x: 5}}`, the same store and
      the empty label, and the field then reads as 5. */
  lemma AssignIntoEmptyRecord()
    ensures
      var c := Config(map["o" := LocVal("L")], map["L" := map[]]);
      var s := FieldAssign(Var("o"), Lit(Str("x")), Lit(Num(5)));
      && Interpret(s, Eval(), c)
         == Success(Transition(Config(c.store, map["L" := map["x" := Num(5)]]), EmptyLab))
      && Read(Interpret(s, Eval(), c).value.config.heap, "L", "x") == Some(Num(5))
  {
    var c := Config(map["o" := LocVal("L")], map["L" := map[]]);
    var s := FieldAssign(Var("o"), Lit(Str("x")), Lit(Num(5)));
    assert Operands(s, Eval(), c) == Success(Target("L", "x", Num(5)));
    assert c.heap["L"]["x" := Num(5)] == map["x" := Num(5)];
    assert c.heap["L" := map["x" := Num(5)]] == map["L" := map["x" := Num(5)]];
  }

  /** A numeric field expression writes the field named by its decimal
      rendering. */
  lemma NumericFieldName()
    ensures
      var c := Config(map[], map["L" := map["7" := Null]]);
      var s := FieldAssign(Lit(LocVal("L")), Lit(Num(7)), Lit(Bool(true)));
      Interpret(s, Eval(), c) == Success(Transition(Config(c.store, map["L" := map["7" := Bool(true)]]), EmptyLab))
  {
    assert DigitChar(7) == '7';
    assert Key(Num(7)) == "7";
    var c := Config(map[], map["L" := map["7" := Null]]);
    var s := FieldAssign(Lit(LocVal("L")), Lit(Num(7)), Lit(Bool(true)));
    assert Operands(s, Eval(), c) == Success(Target("L", "7", Bool(true)));
    assert c.heap["L"]["7" := Bool(true)] == map["7" := Bool(true)];
    assert c.heap["L" := map["7" := Bool(true)]] == map["L" := map["7" := Bool(true)]];
  }

  /** Writing into a location the heap does not have fails, and an unbound
      variable in the value expression is reported first. */
  lemma MissingLocationFaults()
    ensures
      var c := Config(map[], map["L" := map[]]);
      && Interpret(FieldAssign(Lit(LocVal("M")), Lit(Str("x")), Lit(Num(5))), Eval(), c)
         == Failure(UnknownLocation("M"))
      && Interpret(FieldAssign(Lit(LocVal("M")), Lit(Str("x")), Var("y")), Eval(), c)
         == Failure(EvalFault("unbound variable"))
  {
  }
}
