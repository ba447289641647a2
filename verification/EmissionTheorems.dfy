/** Every definition is written exactly once, and only after those it uses. */
module EmissionTheorems {
  import opened FieldTree
  import opened Emission

  /** How deep and wide a type is; what it nests is smaller. */
  function Rank(fields: seq<Field>): nat
    decreases fields, 0
  {
    if fields == [] then 0
    else
      var n := |fields| - 1;
      RankOf(fields[n].ty) + Rank(fields[..n])
  }

  function RankOf(ty: FieldType): nat
    decreases ty, 0
  {
    match ty
    case Nested(_, nested) => 1 + Rank(nested)
    case NestedArray(_, nested, _) => 1 + Rank(nested)
    case _ => 0
  }

  // ---- consistent names ----

  /** A struct name of a type whose own name does not end in the suffix. */
  predicate Bare(cType: string) {
    EndsInSuffix(cType) && !EndsInSuffix(cType[..|cType| - 2])
  }

  function PrefixOf(cType: string): string
    requires Bare(cType)
  {
    cType[..|cType| - 2]
  }

  /** Wherever the name of a type occurs it stands for the fields types gives it. */
  predicate Named(types: map<string, seq<Field>>, fields: seq<Field>)
    decreases fields, 0
  {
    fields != [] ==>
      var n := |fields| - 1;
      NamedType(types, fields[n].ty) && Named(types, fields[..n])
  }

  predicate NamedType(types: map<string, seq<Field>>, ty: FieldType)
    decreases ty, 0
  {
    match ty
    case Nested(cType, nested) => NamedAs(types, cType, nested) && Named(types, nested)
    case NestedArray(cType, nested, _) => NamedAs(types, cType, nested) && Named(types, nested)
    case _ => true
  }

  predicate NamedAs(types: map<string, seq<Field>>, cType: string, nested: seq<Field>) {
    Bare(cType) && PrefixOf(cType) in types && types[PrefixOf(cType)] == nested
  }

  lemma KeyOfNested(style: Style, cType: string)
    requires Bare(cType)
    ensures style.Key(cType) == style.NameOf(PrefixOf(cType))
  {
    var p := PrefixOf(cType);
    assert cType == p + SUFFIX;
    TrimExact(p);
  }

  /** The type a name stands for. */
  predicate Means(types: map<string, seq<Field>>, style: Style, name: string, fields: seq<Field>) {
    exists p | p in types :: style.NameOf(p) == name && types[p] == fields
  }

  lemma MeansOnce(types: map<string, seq<Field>>, style: Style, name: string, a: seq<Field>, b: seq<Field>)
    requires Means(types, style, name, a) && Means(types, style, name, b)
    ensures a == b
  {
    var p :| p in types && style.NameOf(p) == name && types[p] == a;
    var q :| q in types && style.NameOf(q) == name && types[q] == b;
    if style.Structs? {
      assert p == StructName(p)[..|p|] && q == StructName(q)[..|q|];
    }
  }

  // ---- the order ----

  predicate Written(out: seq<Entry>, name: string) {
    exists j | 0 <= j < |out| :: out[j].name == name
  }

  /** The types a struct or function refers to by name are all in out. */
  predicate UsesWritten(style: Style, fields: seq<Field>, out: seq<Entry>)
    decreases fields
  {
    fields != [] ==>
      var n := |fields| - 1;
      UseWritten(style, fields[n].ty, out) && UsesWritten(style, fields[..n], out)
  }

  predicate UseWritten(style: Style, ty: FieldType, out: seq<Entry>) {
    match ty
    case Nested(cType, _) => Written(out, style.Key(cType))
    case NestedArray(cType, _, _) => Written(out, style.Key(cType))
    case _ => true
  }

  /** Each definition stands for its type, was not written before, and uses only what was. */
  predicate Ordered(types: map<string, seq<Field>>, style: Style, out: seq<Entry>)
    decreases out
  {
    out != [] ==>
      var n := |out| - 1;
      && Ordered(types, style, out[..n])
      && Means(types, style, out[n].name, out[n].fields)
      && !Written(out[..n], out[n].name)
      && UsesWritten(style, out[n].fields, out[..n])
  }

  /** name is remembered but its definition is still to come, and its type is larger than bound. */
  ghost predicate Open(types: map<string, seq<Field>>, style: Style, name: string, bound: int) {
    exists fields :: Means(types, style, name, fields) && Rank(fields) > bound
  }

  /** name is remembered but not written. */
  predicate Begun(o: Output, name: string) {
    name in o.emitted && !Written(o.out, name)
  }

  ghost predicate Good(types: map<string, seq<Field>>, style: Style, o: Output, bound: int) {
    && Ordered(types, style, o.out)
    && (forall k | Written(o.out, k) :: k in o.emitted)
    && (forall k | Begun(o, k) :: Open(types, style, k, bound))
  }

  /** What a walk does to the output: it writes on, and leaves begun what was begun. */
  ghost predicate Grown(o: Output, r: Output) {
    o.out <= r.out && forall k :: Begun(o, k) <==> Begun(r, k)
  }

  lemma WrittenMore(out: seq<Entry>, more: seq<Entry>, name: string)
    requires out <= more && Written(out, name)
    ensures Written(more, name)
  {
    var j :| 0 <= j < |out| && out[j].name == name;
    assert more[j].name == name;
  }

  lemma WrittenLast(out: seq<Entry>, e: Entry, name: string)
    ensures Written(out + [e], name) <==> Written(out, name) || e.name == name
  {
    if Written(out, name) {
      WrittenMore(out, out + [e], name);
    } else if e.name == name {
      assert (out + [e])[|out|].name == name;
    }
  }

  lemma {:induction false} UsesMore(style: Style, fields: seq<Field>, out: seq<Entry>, more: seq<Entry>)
    requires UsesWritten(style, fields, out) && out <= more
    ensures UsesWritten(style, fields, more)
    decreases fields
  {
    hide Written, Style.Key;
    if fields != [] {
      var n := |fields| - 1;
      UsesMore(style, fields[..n], out, more);
      match fields[n].ty {
        case Nested(cType, _) => WrittenMore(out, more, style.Key(cType));
        case NestedArray(cType, _, _) => WrittenMore(out, more, style.Key(cType));
        case _ =>
      }
    }
  }

  // ---- the walk keeps the order ----

  /** The definition being begun now is the smallest one begun. */
  lemma Begin(types: map<string, seq<Field>>, style: Style, fields: seq<Field>, name: string, o: Output, bound: int)
    requires Good(types, style, o, bound) && Rank(fields) <= bound
    requires Means(types, style, name, fields) && name !in o.emitted
    ensures Good(types, style, o.(emitted := o.emitted + {name}), Rank(fields) - 1)
    ensures forall k :: Begun(o.(emitted := o.emitted + {name}), k) <==> Begun(o, k) || k == name
  {
    hide Ordered, Means, Rank, Written;
    var next := o.(emitted := o.emitted + {name});
    forall k | Begun(next, k)
      ensures Open(types, style, k, Rank(fields) - 1)
    {
      if k != name {
        assert Begun(o, k);
        var f :| Means(types, style, k, f) && Rank(f) > bound;
        assert Rank(f) > Rank(fields) - 1;
      }
    }
  }

  /** A name that is remembered was written, for what is begun is larger. */
  lemma AlreadyWritten(types: map<string, seq<Field>>, style: Style, fields: seq<Field>, name: string,
                       o: Output, bound: int)
    requires Good(types, style, o, bound) && Rank(fields) <= bound
    requires Means(types, style, name, fields) && name in o.emitted
    ensures Written(o.out, name)
  {
    hide Ordered, Means, Rank;
    if Begun(o, name) {
      var f :| Means(types, style, name, f) && Rank(f) > bound;
      MeansOnce(types, style, name, f, fields);
    }
  }

  /** The definition is written behind what it uses. */
  lemma Finish(types: map<string, seq<Field>>, style: Style, fields: seq<Field>, name: string, o: Output, inner: Output,
               bound: int)
    requires Good(types, style, o, bound) && name !in o.emitted && Means(types, style, name, fields)
    requires Good(types, style, inner, Rank(fields) - 1) && UsesWritten(style, fields, inner.out)
    requires o.out <= inner.out && forall k :: Begun(inner, k) <==> Begun(o, k) || k == name
    ensures var r := inner.(out := inner.out + [Entry(name, fields)]);
            Good(types, style, r, bound) && Written(r.out, name) && Grown(o, r)
  {
    hide Means, Rank, Written, UsesWritten, Open;
    var e := Entry(name, fields);
    var r := inner.(out := inner.out + [e]);
    assert r.out[..|inner.out|] == inner.out;
    assert Begun(inner, name) && !Begun(o, name) && name in inner.emitted;
    WrittenLast(inner.out, e, name);
    forall k
      ensures Begun(r, k) <==> Begun(o, k)
      ensures Written(r.out, k) ==> k in r.emitted
    {
      WrittenLast(inner.out, e, k);
    }
  }

  lemma {:induction false} VisitGood(types: map<string, seq<Field>>, style: Style, fields: seq<Field>, name: string,
                                     o: Output, bound: int)
    requires Good(types, style, o, bound) && Rank(fields) <= bound
    requires Means(types, style, name, fields) && Named(types, fields)
    ensures var r := Visit(style, fields, name, o);
            Good(types, style, r, bound) && Written(r.out, name) && Grown(o, r)
    decreases fields, 1
  {
    hide Good, Means, Rank, Written, UsesWritten, Open, Begun, Named;
    if name in o.emitted {
      AlreadyWritten(types, style, fields, name, o, bound);
    } else {
      var next := o.(emitted := o.emitted + {name});
      Begin(types, style, fields, name, o, bound);
      VisitFieldsGood(types, style, fields, next, Rank(fields) - 1);
      Finish(types, style, fields, name, o, VisitFields(style, fields, next), bound);
    }
  }

  lemma {:induction false} VisitFieldsGood(types: map<string, seq<Field>>, style: Style, fields: seq<Field>,
                                           o: Output, bound: int)
    requires Good(types, style, o, bound) && Rank(fields) <= bound + 1 && Named(types, fields)
    ensures var r := VisitFields(style, fields, o);
            Good(types, style, r, bound) && UsesWritten(style, fields, r.out) && Grown(o, r)
    decreases fields, 0
  {
    hide Good, Means, Written, Open, Begun;
    if fields != [] {
      var n := |fields| - 1;
      var before := VisitFields(style, fields[..n], o);
      VisitFieldsGood(types, style, fields[..n], o, bound);
      VisitTypeGood(types, style, fields[n].ty, before, bound);
      var r := VisitType(style, fields[n].ty, before);
      UsesMore(style, fields[..n], before.out, r.out);
    }
  }

  lemma {:induction false} VisitTypeGood(types: map<string, seq<Field>>, style: Style, ty: FieldType, o: Output,
                                         bound: int)
    requires Good(types, style, o, bound) && RankOf(ty) <= bound + 1 && NamedType(types, ty)
    ensures var r := VisitType(style, ty, o);
            Good(types, style, r, bound) && UseWritten(style, ty, r.out) && Grown(o, r)
    decreases ty, 0
  {
    hide Good, Written, Open, Begun, Style.Key, Rank, Named;
    match ty
    case Nested(cType, nested) =>
      NestedMeans(types, style, cType, nested);
      VisitGood(types, style, nested, style.Key(cType), o, bound);
    case NestedArray(cType, nested, _) =>
      NestedMeans(types, style, cType, nested);
      VisitGood(types, style, nested, style.Key(cType), o, bound);
    case _ =>
  }

  lemma NestedMeans(types: map<string, seq<Field>>, style: Style, cType: string, nested: seq<Field>)
    requires NamedAs(types, cType, nested)
    ensures Means(types, style, style.Key(cType), nested)
  {
    KeyOfNested(style, cType);
  }

  // ---- all topics ----

  /** The message types of the topics are among the types, under names that do not end in the suffix. */
  predicate Sound(types: map<string, seq<Field>>, root: Root) {
    && root.prefix in types && types[root.prefix] == root.fields
    && Named(types, root.fields) && !EndsInSuffix(root.prefix)
  }

  predicate AllSound(types: map<string, seq<Field>>, roots: seq<Root>) {
    forall j | 0 <= j < |roots| :: Sound(types, roots[j])
  }

  /** Nothing is left begun, so the bound does not matter. */
  ghost predicate Settled(types: map<string, seq<Field>>, style: Style, o: Output) {
    Ordered(types, style, o.out) && forall k :: k in o.emitted <==> Written(o.out, k)
  }

  /** Whatever the topics share: everything is written once, in an order the C compiler accepts, and the
      type of every topic is there. */
  lemma {:induction false} EmissionOrdered(types: map<string, seq<Field>>, style: Style, roots: seq<Root>)
    requires AllSound(types, roots)
    ensures var o := VisitRoots(style, roots);
            && Settled(types, style, o)
            && forall j | 0 <= j < |roots| :: Written(o.out, style.NameOf(roots[j].prefix))
    decreases roots
  {
    hide Sound, Ordered, Written, Style.NameOf, Visit;
    if roots == [] {
      NothingWritten(types, style);
    } else {
      var n := |roots| - 1;
      EmissionOrdered(types, style, roots[..n]);
      OneMoreRoot(types, style, roots[n], VisitRoots(style, roots[..n]));
      var o, r := VisitRoots(style, roots[..n]), VisitRoots(style, roots);
      forall j | 0 <= j < |roots|
        ensures Written(r.out, style.NameOf(roots[j].prefix))
      {
        if j < n {
          assert roots[..n][j] == roots[j];
          WrittenMore(o.out, r.out, style.NameOf(roots[j].prefix));
        }
      }
    }
  }

  lemma NothingWritten(types: map<string, seq<Field>>, style: Style)
    ensures Settled(types, style, EMPTY)
  {
  }

  lemma OneMoreRoot(types: map<string, seq<Field>>, style: Style, root: Root, o: Output)
    requires Sound(types, root) && Settled(types, style, o)
    ensures var r := Visit(style, root.fields, style.NameOf(root.prefix), o);
            Settled(types, style, r) && Written(r.out, style.NameOf(root.prefix)) && o.out <= r.out
  {
    hide Ordered, Written, Named, Rank, Visit;
    assert Good(types, style, o, Rank(root.fields));
    VisitGood(types, style, root.fields, style.NameOf(root.prefix), o, Rank(root.fields));
    var r := Visit(style, root.fields, style.NameOf(root.prefix), o);
    forall k
      ensures k in r.emitted <==> Written(r.out, k)
    {
      assert Begun(r, k) ==> Begun(o, k);
    }
  }

  /** What the order says about each definition: its name is new, it stands for its type, and all it uses
      comes before it. */
  lemma {:induction false} OrderedAt(types: map<string, seq<Field>>, style: Style, out: seq<Entry>, i: nat)
    requires Ordered(types, style, out) && i < |out|
    ensures Means(types, style, out[i].name, out[i].fields)
    ensures !Written(out[..i], out[i].name) && UsesWritten(style, out[i].fields, out[..i])
    decreases out
  {
    hide Means, Written, UsesWritten;
    var n := |out| - 1;
    if i < n {
      OrderedAt(types, style, out[..n], i);
      assert out[..n][..i] == out[..i];
    }
  }

  // ---- structs and functions ----

  /** The two outputs list the same types. */
  ghost predicate Parallel(structs: Output, serde: Output) {
    && |structs.out| == |serde.out|
    && (forall j | 0 <= j < |serde.out| ::
          structs.out[j].name == StructName(serde.out[j].name) && structs.out[j].fields == serde.out[j].fields)
    && (forall p :: p in serde.emitted <==> StructName(p) in structs.emitted)
  }

  lemma SamePrefix(p: string, q: string)
    requires StructName(p) == StructName(q)
    ensures p == q
  {
    assert p == StructName(p)[..|p|] && q == StructName(q)[..|q|];
  }

  lemma ParallelName(a: Output, b: Output, p: string)
    requires Parallel(a, b)
    ensures p in b.emitted <==> StructName(p) in a.emitted
  {
    hide StructName;
  }

  lemma ParallelBegin(a: Output, b: Output, p: string)
    requires Parallel(a, b)
    ensures Parallel(a.(emitted := a.emitted + {StructName(p)}), b.(emitted := b.emitted + {p}))
  {
    forall q
      ensures q in b.emitted + {p} <==> StructName(q) in a.emitted + {StructName(p)}
    {
      if StructName(p) == StructName(q) {
        SamePrefix(p, q);
      }
    }
  }

  lemma {:induction false} VisitParallel(types: map<string, seq<Field>>, fields: seq<Field>, p: string, a: Output,
                                         b: Output)
    requires Parallel(a, b) && Named(types, fields)
    ensures Parallel(Visit(Structs, fields, StructName(p), a), Visit(Serde, fields, p, b))
    decreases fields, 1
  {
    hide Named, StructName, Parallel;
    ParallelName(a, b, p);
    if p !in b.emitted {
      ParallelBegin(a, b, p);
      VisitFieldsParallel(types, fields, a.(emitted := a.emitted + {StructName(p)}), b.(emitted := b.emitted + {p}));
      ParallelFinish(VisitFields(Structs, fields, a.(emitted := a.emitted + {StructName(p)})),
                     VisitFields(Serde, fields, b.(emitted := b.emitted + {p})), fields, p);
    }
  }

  lemma ParallelFinish(a: Output, b: Output, fields: seq<Field>, p: string)
    requires Parallel(a, b)
    ensures Parallel(a.(out := a.out + [Entry(StructName(p), fields)]), b.(out := b.out + [Entry(p, fields)]))
  {
    hide StructName;
  }

  lemma {:induction false} VisitFieldsParallel(types: map<string, seq<Field>>, fields: seq<Field>, a: Output, b: Output)
    requires Parallel(a, b) && Named(types, fields)
    ensures Parallel(VisitFields(Structs, fields, a), VisitFields(Serde, fields, b))
    decreases fields, 0
  {
    hide Parallel, NamedAs, Visit;
    if fields != [] {
      var n := |fields| - 1;
      VisitFieldsParallel(types, fields[..n], a, b);
      var c, d := VisitFields(Structs, fields[..n], a), VisitFields(Serde, fields[..n], b);
      match fields[n].ty {
        case Nested(cType, nested) => NestedParallel(types, cType, nested, c, d);
        case NestedArray(cType, nested, _) => NestedParallel(types, cType, nested, c, d);
        case _ =>
      }
    }
  }

  lemma {:induction false} NestedParallel(types: map<string, seq<Field>>, cType: string, nested: seq<Field>, a: Output,
                                          b: Output)
    requires Parallel(a, b) && NamedAs(types, cType, nested) && Named(types, nested)
    ensures Parallel(Visit(Structs, nested, Structs.Key(cType), a), Visit(Serde, nested, Serde.Key(cType), b))
    decreases nested, 2
  {
    hide Parallel, Visit, StructName, TrimSuffix;
    KeyOfNested(Structs, cType);
    KeyOfNested(Serde, cType);
    VisitParallel(types, nested, PrefixOf(cType), a, b);
  }

  /** Structs and function pairs come out in the same order, type by type: every function finds its struct
      and the functions of what it nests. */
  lemma {:induction false} StructsMatchFunctions(types: map<string, seq<Field>>, roots: seq<Root>)
    requires AllSound(types, roots)
    ensures Parallel(VisitRoots(Structs, roots), VisitRoots(Serde, roots))
    decreases roots
  {
    hide Parallel, Visit, Sound, Style.NameOf;
    if roots == [] {
      ParallelEmpty();
    } else {
      var n := |roots| - 1;
      StructsMatchFunctions(types, roots[..n]);
      RootParallel(types, roots[n], VisitRoots(Structs, roots[..n]), VisitRoots(Serde, roots[..n]));
    }
  }

  lemma RootParallel(types: map<string, seq<Field>>, root: Root, a: Output, b: Output)
    requires Sound(types, root) && Parallel(a, b)
    ensures Parallel(Visit(Structs, root.fields, Structs.NameOf(root.prefix), a),
                     Visit(Serde, root.fields, Serde.NameOf(root.prefix), b))
  {
    hide Parallel, Visit, StructName, Named;
    VisitParallel(types, root.fields, root.prefix, a, b);
  }

  lemma ParallelEmpty()
    ensures Parallel(EMPTY, EMPTY)
  {
  }
}
