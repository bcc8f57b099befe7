/** The ECMA-SL statement `obj[field] := value`: it writes one field of an
    existing heap record and emits the empty label. Expressions are kept
    abstract: the statement is generic in the expression type `E` and is
    given the evaluation functions of that type. */
module FieldAssignStmt {
  import opened Results
  import opened Values
  import opened Heaps
  import opened Labels
  import opened Text

  /** The statement node, built from its three sub-expressions. */
  datatype FieldAssign<E> = FieldAssign(expressionObject: E, expressionField: E, expressionValue: E)

  /** Expression evaluation, which is not part of this model: `inStore`
      evaluates against the store alone, `inConfig` against the whole
      configuration (so it may read the heap). */
  datatype Evaluator<-E> = Evaluator(
    inStore: (E, Store) -> Result<Value, Fault>,
    inConfig: (E, Config) -> Result<Value, Fault>)

  /** What a step returns: the next configuration and its security label. */
  datatype Transition = Transition(config: Config, seclabel: Label)

  /** The evaluated target of the write: heap key, field key and value. */
  datatype Target = Target(loc: Loc, field: Field, value: Value)

  /** Evaluates the three sub-expressions in JavaScript's order for a keyed
      assignment: object, field, then value. The object and the field see
      the store only; their payloads become property keys; the value is kept
      whole. */
  function Operands<E>(s: FieldAssign<E>, ev: Evaluator<E>, config: Config): (r: Result<Target, Fault>)
    ensures r.Success? <==>
      && ev.inStore(s.expressionObject, config.store).Success?
      && ev.inStore(s.expressionField, config.store).Success?
      && ev.inConfig(s.expressionValue, config).Success?
    ensures r.Success? ==>
      r.value == Target(Key(ev.inStore(s.expressionObject, config.store).value),
                        Key(ev.inStore(s.expressionField, config.store).value),
                        ev.inConfig(s.expressionValue, config).value)
    ensures ev.inStore(s.expressionObject, config.store).Failure? ==>
      r == Failure(ev.inStore(s.expressionObject, config.store).error)
    ensures (ev.inStore(s.expressionObject, config.store).Success?
             && ev.inStore(s.expressionField, config.store).Failure?) ==>
      r == Failure(ev.inStore(s.expressionField, config.store).error)
    ensures (ev.inStore(s.expressionObject, config.store).Success?
             && ev.inStore(s.expressionField, config.store).Success?
             && ev.inConfig(s.expressionValue, config).Failure?) ==>
      r == Failure(ev.inConfig(s.expressionValue, config).error)
  {
    var o :- ev.inStore(s.expressionObject, config.store);
    var f :- ev.inStore(s.expressionField, config.store);
    var v :- ev.inConfig(s.expressionValue, config);
    Success(Target(Key(o), Key(f), v))
  }

  /** One interpretation step. */
  function Interpret<E>(s: FieldAssign<E>, ev: Evaluator<E>, config: Config): (r: Result<Transition, Fault>)
    ensures r.Success? <==> Operands(s, ev, config).Success? && Operands(s, ev, config).value.loc in config.heap
    ensures r.Success? ==> r.value.seclabel == EmptyLab
    ensures r.Success? ==> r.value.config.store == config.store
    ensures r.Success? ==>
      var t := Operands(s, ev, config).value;
      Assigned(config.heap, r.value.config.heap, t.loc, t.field, t.value)
    ensures Operands(s, ev, config).Failure? ==> r == Failure(Operands(s, ev, config).error)
    ensures Operands(s, ev, config).Success? && Operands(s, ev, config).value.loc !in config.heap ==>
      r == Failure(UnknownLocation(Operands(s, ev, config).value.loc))
  {
    var t :- Operands(s, ev, config);
    var heap' :- Write(config.heap, t.loc, t.field, t.value);
    Success(Transition(Config(config.store, heap'), EmptyLab))
  }

  /** The concrete syntax `obj[field] := value` built from the renderings of
      the three sub-expressions. */
  function Render(obj: string, field: string, value: string): string {
    obj + "[" + field + "] := " + value
  }

  /** `toString`: the object rendering, `[`, the field rendering, `] := `
      and the value rendering, in that order and nothing else; it reads back
      into the three renderings when the object's has no `[` and the field's
      has no `]`. */
  function ToString<E>(s: FieldAssign<E>, show: E -> string): (r: string)
    ensures
      var o, f, v := show(s.expressionObject), show(s.expressionField), show(s.expressionValue);
      && |r| == |o| + |f| + |v| + 6
      && r[..|o|] == o && r[|o|] == '['
      && r[|o| + 1..|o| + 1 + |f|] == f
      && r[|o| + 1 + |f|..|o| + |f| + 6] == "] := "
      && r[|o| + |f| + 6..] == v
    ensures '[' !in show(s.expressionObject) && ']' !in show(s.expressionField) ==>
      Split(r) == Some((show(s.expressionObject), show(s.expressionField), show(s.expressionValue)))
  {
    var obj, field, value := show(s.expressionObject), show(s.expressionField), show(s.expressionValue);
    RenderReadsBack(obj, field, value);
    Render(obj, field, value)
  }

  /** Reads a rendering back: the object ends at the first `[`, the field at
      the first `]` after it, which must be followed by ` := `. */
  function Split(text: string): Option<(string, string, string)> {
    match FirstIndex(text, '[')
    case None => None
    case Some(i) =>
      var rest := text[i + 1..];
      match FirstIndex(rest, ']')
      case None => None
      case Some(j) =>
        if StartsWith(rest[j..], "] := ") then Some((text[..i], rest[..j], rest[j + 5..]))
        else None
  }

  /** The written location and field depend on the store alone: the heap
      can influence only the value. */
  lemma TargetReadsStoreOnly<E>(s: FieldAssign<E>, ev: Evaluator<E>, c1: Config, c2: Config)
    requires c1.store == c2.store
    requires Operands(s, ev, c1).Success? && Operands(s, ev, c2).Success?
    ensures Operands(s, ev, c1).value.loc == Operands(s, ev, c2).value.loc
    ensures Operands(s, ev, c1).value.field == Operands(s, ev, c2).value.field
  {
  }

  /** A failing sub-expression decides the outcome in evaluation order: a
      failing object expression masks everything after it, and a failing
      value expression is reported even when the location is missing. */
  lemma FaultOrder<E>(s: FieldAssign<E>, ev: Evaluator<E>, config: Config)
    ensures ev.inStore(s.expressionObject, config.store).Failure? ==>
      Interpret(s, ev, config) == Failure(ev.inStore(s.expressionObject, config.store).error)
    ensures (ev.inStore(s.expressionObject, config.store).Success?
             && ev.inStore(s.expressionField, config.store).Failure?) ==>
      Interpret(s, ev, config) == Failure(ev.inStore(s.expressionField, config.store).error)
    ensures (ev.inStore(s.expressionObject, config.store).Success?
             && ev.inStore(s.expressionField, config.store).Success?
             && ev.inConfig(s.expressionValue, config).Failure?) ==>
      Interpret(s, ev, config) == Failure(ev.inConfig(s.expressionValue, config).error)
  {
  }

  /** Assigning the value the field already holds leaves the configuration
      identical. */
  lemma AssignCurrentValue<E>(s: FieldAssign<E>, ev: Evaluator<E>, config: Config)
    requires Operands(s, ev, config).Success?
    requires
      var t := Operands(s, ev, config).value;
      Read(config.heap, t.loc, t.field) == Some(t.value)
    ensures Interpret(s, ev, config) == Success(Transition(config, EmptyLab))
  {
    var t := Operands(s, ev, config).value;
    WriteCurrentValue(config.heap, t.loc, t.field, t.value);
  }

  /** Running the statement again on its own result is a no-op, provided the
      value expression still evaluates to the same value there. */
  lemma InterpretRepeatable<E>(s: FieldAssign<E>, ev: Evaluator<E>, config: Config)
    requires Interpret(s, ev, config).Success?
    requires
      var next := Interpret(s, ev, config).value.config;
      ev.inConfig(s.expressionValue, next) == ev.inConfig(s.expressionValue, config)
    ensures
      var next := Interpret(s, ev, config).value.config;
      Interpret(s, ev, next) == Success(Transition(next, EmptyLab))
  {
    var next := Interpret(s, ev, config).value.config;
    assert Operands(s, ev, next) == Operands(s, ev, config);
    AssignCurrentValue(s, ev, next);
  }

  /** The rendering reads back into its three parts when the object's
      rendering has no `[` and the field's has no `]`. */
  lemma SplitRender(obj: string, field: string, value: string)
    requires '[' !in obj && ']' !in field
    ensures Split(Render(obj, field, value)) == Some((obj, field, value))
  {
    var tail := " := " + value;
    var rest := field + [']'] + tail;
    var text := Render(obj, field, value);
    RenderLayout(obj, field, value);
    FirstIndexAfterPrefix(obj, '[', rest);
    FirstIndexAfterPrefix(field, ']', tail);
    assert text[..|obj|] == obj && text[|obj| + 1..] == rest;
    LayoutPieces(field, tail);
  }

  lemma RenderLayout(obj: string, field: string, value: string)
    ensures Render(obj, field, value) == obj + ['['] + (field + [']'] + (" := " + value))
  {
  }

  lemma LayoutPieces(field: string, tail: string)
    requires |tail| >= 4 && tail[..4] == " := "
    ensures var rest := field + [']'] + tail;
      && rest[..|field|] == field
      && StartsWith(rest[|field|..], "] := ")
      && rest[|field| + 5..] == tail[4..]
  {
    var rest := field + [']'] + tail;
    assert rest[|field|..] == [']'] + tail;
  }

  /** `SplitRender` as an implication, for use where the condition is not
      known. */
  lemma RenderReadsBack(obj: string, field: string, value: string)
    ensures '[' !in obj && ']' !in field ==> Split(Render(obj, field, value)) == Some((obj, field, value))
  {
    if '[' !in obj && ']' !in field {
      SplitRender(obj, field, value);
    }
  }

  /** Conversely, whatever `Split` accepts is the rendering of its parts, and
      those parts meet the condition of `SplitRender`. */
  lemma SplitSound(text: string, obj: string, field: string, value: string)
    requires Split(text) == Some((obj, field, value))
    ensures Render(obj, field, value) == text
    ensures '[' !in obj && ']' !in field
  {
    var i := FirstIndex(text, '[').value;
    var rest := text[i + 1..];
    var j := FirstIndex(rest, ']').value;
    assert obj == text[..i] && field == rest[..j] && value == rest[j + 5..];
    Reassemble(text, i, j);
  }

  /** The pieces `Split` cuts out, put back together, give the text. */
  lemma Reassemble(text: string, i: nat, j: nat)
    requires i < |text| && text[i] == '['
    requires j <= |text| - (i + 1) && StartsWith(text[i + 1..][j..], "] := ")
    ensures Render(text[..i], text[i + 1..][..j], text[i + 1..][j + 5..]) == text
  {
    var obj, rest := text[..i], text[i + 1..];
    var field, value := rest[..j], rest[j + 5..];
    StartsWithSplits(rest[j..], "] := ");
    var tail := "] := " + value;
    assert rest == field + tail by {
      assert rest == rest[..j] + rest[j..];
    }
    SplitAround(text, i);
    assert [text[i]] == "[";
    RenderAssociates(obj, field, value);
  }

  lemma RenderAssociates(obj: string, field: string, value: string)
    ensures Render(obj, field, value) == obj + ("[" + (field + ("] := " + value)))
  {
  }

  /** Without that condition the rendering is ambiguous: two different
      statements can print the same text. */
  lemma RenderAmbiguous()
    ensures Render("a[b", "c", "d") == Render("a", "b[c", "d")
    ensures ("a[b", "c", "d") != ("a", "b[c", "d")
  {
  }

  /** The step keeps the heap free of dangling references, provided the
      value it writes does not itself dangle. */
  lemma InterpretPreservesNoDangling<E>(s: FieldAssign<E>, ev: Evaluator<E>, config: Config)
    requires NoDangling(config)
    requires Interpret(s, ev, config).Success?
    requires Resolves(config.heap, Operands(s, ev, config).value.value)
    ensures NoDangling(Interpret(s, ev, config).value.config)
  {
    var t := Operands(s, ev, config).value;
    var next := Interpret(s, ev, config).value.config;
    forall l, f | Read(next.heap, l, f).Some?
      ensures Resolves(next.heap, Read(next.heap, l, f).value)
    {
      if (l, f) != (t.loc, t.field) {
        assert Read(next.heap, l, f) == Read(config.heap, l, f);
      }
    }
  }
}
