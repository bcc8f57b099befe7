/** The interpreter's configuration: a store of variables and a heap of
    records, each record mapping field names to values. */
module Heaps {
  import opened Results
  import opened Values

  type Record = map<Field, Value>

  type Heap = map<Loc, Record>

  type Store = map<string, Value>

  datatype Config = Config(store: Store, heap: Heap)

  /** Faults that abort a statement. `UnknownLocation` is the TypeError that
      JavaScript raises when a property is written on the `undefined` found
      at a missing heap key; `EvalFault` is any fault of expression
      evaluation. */
  datatype Fault = UnknownLocation(loc: Loc) | EvalFault(reason: string)

  /** Observer: the value of field `f` in the record at `l`, or `None` when
      the location or the field is absent. */
  function Read(h: Heap, l: Loc, f: Field): Option<Value> {
    if l in h && f in h[l] then Some(h[l][f]) else None
  }

  /** A location-valued value names a location of the heap; other values
      always qualify. */
  predicate Resolves(h: Heap, v: Value) {
    v.LocVal? ==> v.loc in h
  }

  /** No dangling references: every location held by a variable or by a
      field of a record is a location of the heap. */
  ghost predicate NoDangling(c: Config) {
    && (forall x :: x in c.store ==> Resolves(c.heap, c.store[x]))
    && (forall l, f :: Read(c.heap, l, f).Some? ==> Resolves(c.heap, Read(c.heap, l, f).value))
  }

  /** `h'` is `h` with exactly one field written: the same locations, `f` of
      `l` holds `v`, and every other (location, field) pair reads as
      before, presence included. */
  ghost predicate Assigned(h: Heap, h': Heap, l: Loc, f: Field, v: Value) {
    && h'.Keys == h.Keys
    && Read(h', l, f) == Some(v)
    && forall l', f' :: (l', f') != (l, f) ==> Read(h', l', f') == Read(h, l', f')
  }

  /** Writes `v` into field `f` of the record at `l`; fails when `l` is not
      a location of the heap. */
  function Write(h: Heap, l: Loc, f: Field, v: Value): (r: Result<Heap, Fault>)
    ensures r.Success? <==> l in h
    ensures r.Failure? ==> r.error == UnknownLocation(l)
    ensures r.Success? ==> Assigned(h, r.value, l, f, v)
  {
    if l in h then Success(h[l := h[l][f := v]]) else Failure(UnknownLocation(l))
  }

  /** `Assigned` pins the resulting heap down completely. */
  lemma AssignedDeterminesHeap(h: Heap, h1: Heap, h2: Heap, l: Loc, f: Field, v: Value)
    requires Assigned(h, h1, l, f, v)
    requires Assigned(h, h2, l, f, v)
    ensures h1 == h2
  {
    forall l' | l' in h1
      ensures h1[l'] == h2[l']
    {
      forall f' | f' in h1[l']
        ensures f' in h2[l'] && h1[l'][f'] == h2[l'][f']
      {
        assert Read(h1, l', f') == Read(h2, l', f');
      }
      forall f' | f' in h2[l']
        ensures f' in h1[l']
      {
        assert Read(h1, l', f') == Read(h2, l', f');
      }
    }
  }

  /** Writing the value a field already holds leaves the heap identical. */
  lemma WriteCurrentValue(h: Heap, l: Loc, f: Field, v: Value)
    requires Read(h, l, f) == Some(v)
    ensures Write(h, l, f, v) == Success(h)
  {
    var h' := Write(h, l, f, v).value;
    assert Assigned(h, h, l, f, v);
    AssignedDeterminesHeap(h, h', h, l, f, v);
  }

  /** Repeating a write on its own result changes nothing. */
  lemma WriteIdempotent(h: Heap, l: Loc, f: Field, v: Value)
    requires l in h
    ensures Write(Write(h, l, f, v).value, l, f, v) == Write(h, l, f, v)
  {
    WriteCurrentValue(Write(h, l, f, v).value, l, f, v);
  }

  /** The last of two writes to the same field wins. */
  lemma WriteOverwrites(h: Heap, l: Loc, f: Field, v1: Value, v2: Value)
    requires l in h
    ensures Write(Write(h, l, f, v1).value, l, f, v2) == Write(h, l, f, v2)
  {
    var h1 := Write(Write(h, l, f, v1).value, l, f, v2).value;
    var h2 := Write(h, l, f, v2).value;
    AssignedDeterminesHeap(h, h1, h2, l, f, v2);
  }
}
