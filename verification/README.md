# ECMA-SL field assignment, modelled in Dafny

This project models the `FieldAssign` statement of the ECMA-SL interpreter
written in JavaScript: `obj[field] := value`. A configuration pairs a store
(variables to values) with a heap (locations to records, records mapping
field names to values). Interpreting the statement works in four steps:

1. evaluate the object expression against the store;
2. evaluate the field expression against the store;
3. evaluate the value expression against the whole configuration;
4. write the value into the record at the evaluated location, under the
   evaluated field name, and return the configuration with the empty
   security label `EmptyLab`.

Modules:

- `Results`: `Option` and `Result`. A JavaScript exception becomes a
  `Failure`.
- `Values`: ECMA-SL values. `Key` gives the JavaScript property key that a
  value's payload becomes when it is used inside `[...]`. Integers are
  rendered in decimal, and `ParseDecimal` reads them back.
- `Heaps`: `Record`, `Heap`, `Store`, `Config`, `Fault`.
  - `Read` is the observer. It tells a missing field apart from any value.
  - `Assigned` specifies a single-field update through `Read`.
  - `NoDangling` says every location held in the store or the heap exists.
  - `Write` is the heap update at line 19.
- `Labels`: `Label`, with `EmptyLab` and a stand-in `OtherLab` for the
  interpreter's other label classes.
- `FieldAssignStmt`: the statement node `FieldAssign<E>`, generic in the
  expression type.
  - `Evaluator<E>` supplies the two evaluation functions, since expression
    evaluation is not part of this model.
  - `Operands` evaluates the three sub-expressions.
  - `Interpret` is the step. `ToString` is the rendering, and `Split` reads a
    rendering back.
- `Text`: first-occurrence search, used by `Split`.
- `Scenarios`: concrete examples with a two-case expression language of
  literals and variables.

Two details of line 19 shape the model:

- Line 19 indexes the heap with the payload (`.value`) of whatever the object
  expression yields, after JavaScript's property-key conversion. So the heap
  key is `Key(o)`, and a string equal to a location's identifier addresses
  that record.
- Line 19 is a JavaScript keyed assignment. As current ECMAScript and Node
  evaluate it, the object, field and value expressions are all evaluated
  before the write to the missing record throws. So a fault in any of the
  three is reported ahead of `UnknownLocation`. Under the ES5 and ES2015
  text, the missing record was detected before the value expression ran;
  `Operands`, `FaultOrder` and `Scenarios.MissingLocationFaults` follow the
  current order.

## Model

| member | source | states |
|---|---|---|
| Heaps.Write | JS2ECMA-SL/src/ECMA-SL/syntax/Stmt/FieldAssign.js:19 | succeeds exactly when the location is a key of the heap, otherwise fails with `UnknownLocation` of that location; on success the heap has the same locations, the written field reads as the new value whether it existed before or not, and every other (location, field) pair keeps its presence and value |
| Heaps.AssignedDeterminesHeap | JS2ECMA-SL/src/ECMA-SL/syntax/Stmt/FieldAssign.js:19 | the single-field-update specification leaves no freedom: two heaps that both satisfy it for the same write are equal |
| Heaps.WriteCurrentValue | JS2ECMA-SL/src/ECMA-SL/syntax/Stmt/FieldAssign.js:19 | writing the value a field already holds returns the identical heap |
| Heaps.WriteIdempotent | JS2ECMA-SL/src/ECMA-SL/syntax/Stmt/FieldAssign.js:19 | repeating a write on its own result gives the same heap |
| Heaps.WriteOverwrites | JS2ECMA-SL/src/ECMA-SL/syntax/Stmt/FieldAssign.js:19 | of two writes to the same field of the same record, only the last one is visible |
| FieldAssignStmt.Interpret | JS2ECMA-SL/src/ECMA-SL/syntax/Stmt/FieldAssign.js:18-21 | succeeds exactly when all three sub-expressions evaluate and the object's key is a heap location. On success: the label is `EmptyLab` whatever the expressions or heap; the store is unchanged; no location is added or removed; only the evaluated field of the evaluated record changes, and it holds the evaluated value. An evaluation fault is returned as it is. A missing location gives `UnknownLocation` and no heap |
| FieldAssignStmt.TargetReadsStoreOnly | JS2ECMA-SL/src/ECMA-SL/syntax/Stmt/FieldAssign.js:19 | the written location and field name depend only on the store, because the object and field expressions are evaluated against `config.store` |
| FieldAssignStmt.FaultOrder | JS2ECMA-SL/src/ECMA-SL/syntax/Stmt/FieldAssign.js:19 | faults surface in evaluation order (object, then field, then value), and a value fault wins over a missing location |
| FieldAssignStmt.AssignCurrentValue | JS2ECMA-SL/src/ECMA-SL/syntax/Stmt/FieldAssign.js:18-21 | when the target field already holds the evaluated value, the step returns the input configuration unchanged with `EmptyLab` |
| FieldAssignStmt.InterpretRepeatable | JS2ECMA-SL/src/ECMA-SL/syntax/Stmt/FieldAssign.js:18-21 | running the statement again on its own result is a no-op, provided the value expression evaluates to the same value in the new configuration |
| FieldAssignStmt.SplitRender | JS2ECMA-SL/src/ECMA-SL/syntax/Stmt/FieldAssign.js:15 | the text `obj[field] := value` reads back into its three parts when the object rendering has no `[` and the field rendering has no `]` |
| FieldAssignStmt.SplitSound | JS2ECMA-SL/src/ECMA-SL/syntax/Stmt/FieldAssign.js:15 | any text that reads back into three parts is exactly `obj[field] := value` built from them, and those parts meet the bracket condition |
| FieldAssignStmt.RenderAmbiguous | JS2ECMA-SL/src/ECMA-SL/syntax/Stmt/FieldAssign.js:15 | without the bracket condition two different triples render to the same text, so the rendering alone does not identify the statement |
| FieldAssignStmt.ToString | JS2ECMA-SL/src/ECMA-SL/syntax/Stmt/FieldAssign.js:14-16 | for every input, `toString` is exactly the object rendering, `[`, the field rendering, `] := ` and the value rendering, in that order and nothing else; when the object rendering has no `[` and the field rendering no `]`, the text also reads back into exactly those three renderings |
| FieldAssignStmt.Operands | JS2ECMA-SL/src/ECMA-SL/syntax/Stmt/FieldAssign.js:19 | succeeds exactly when the object, field and value expressions all evaluate. The object and field are evaluated on the store, and their payloads become property keys; the value is evaluated on the whole configuration and kept whole. The first fault in the order object, field, value is the one returned |
| FieldAssignStmt.InterpretPreservesNoDangling | JS2ECMA-SL/src/ECMA-SL/syntax/Stmt/FieldAssign.js:18-21 | if no variable or field refers to a missing location before the step, and the written value does not either, then none does after it |
| Values.Key | JS2ECMA-SL/src/ECMA-SL/syntax/Stmt/FieldAssign.js:19 | the property key a value's payload becomes under `[...]`: a string keys as itself and a location as its identifier, so the two can coincide; a boolean, `null` and `undefined` key as their JavaScript names; a non-negative integer keys as its canonical numeral (no leading zero), a negative one as `-` followed by one; and every numeric key reads back as its number |
| Values.DecimalRoundTrip | JS2ECMA-SL/src/ECMA-SL/syntax/Stmt/FieldAssign.js:19 | the decimal property key of an integer reads back as that integer |
| Values.NumKeyInjective | JS2ECMA-SL/src/ECMA-SL/syntax/Stmt/FieldAssign.js:19 | two numeric field values address the same property exactly when they are equal |
| Values.NumStrShareKey | JS2ECMA-SL/src/ECMA-SL/syntax/Stmt/FieldAssign.js:19 | a natural number and a string address the same field exactly when the string is the canonical numeral of that number: `r[7]` is `r["7"]` but not `r["07"]` |
| Scenarios.AssignIntoEmptyRecord | JS2ECMA-SL/src/ECMA-SL/syntax/Stmt/FieldAssign.js:18-21 | from heap `{L: {}}`, `o["x"] := 5` with `o` bound to `L` gives heap `{L: {x: 5}}`, the same store and `EmptyLab`, and `x` then reads as 5 |
| Scenarios.NumericFieldName | JS2ECMA-SL/src/ECMA-SL/syntax/Stmt/FieldAssign.js:19 | `L[7] := true` overwrites the existing field named `"7"` |
| Scenarios.MissingLocationFaults | JS2ECMA-SL/src/ECMA-SL/syntax/Stmt/FieldAssign.js:19 | a write to an absent location fails with `UnknownLocation`, and an unbound variable in the value expression is reported before it |

## Left out

- `FieldAssign.fromJSON` (lines 24-30) is left out. It only calls `Expr.fromJSON`, which is not part of this model.
- The `MakeFieldAssign` factory and the class inheritance from `Stmt` are left out. They are module wiring with no behaviour. The constructor is the datatype constructor `FieldAssign`.
- Expression evaluation (`Expr.interpret`) is not part of this model. It is the `Evaluator` parameter, and every property holds for any evaluator. The `Scenarios` expression language stands in for it only to state concrete examples.
- `EmptyLab` is an opaque datatype case. Its class and the other label classes are not part of this model.
- The heap is mutated in place in the source, and the same `config` object is returned. The model returns a new configuration instead, so aliasing of that object is not modelled. The heap wrapper's inner `.heap` object is modelled directly as the map.
- Property keys inherited from `Object.prototype` are left out. These are keys such as `constructor` or `__proto__` on the heap object or on a record. In JavaScript they would reach a prototype object instead of `undefined`, and the model treats every key as a plain own key.
- Values.Key: numbers are integers rendered in decimal. Fractions, `-0`, `NaN`, infinities and the exponent form JavaScript uses from 1e21 up are left out, because floating point is not modelled.
- No label is produced on failure. A thrown exception carries none.
