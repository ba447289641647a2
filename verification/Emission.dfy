/** The order in which the generator writes C structs and serialize/deserialize pairs: a depth-first walk
    over the field trees that remembers what it has written, across all topics. */
module Emission {
  import opened FieldTree

  // ---- names ----

  const SUFFIX := "_t"

  predicate EndsInSuffix(s: string) {
    |s| >= 2 && s[|s| - 2..] == SUFFIX
  }

  /** trim_end_matches("_t"), which strips the suffix as often as it is there. */
  function TrimSuffix(s: string): (r: string)
    ensures r <= s && !EndsInSuffix(r)
  {
    if EndsInSuffix(s) then TrimSuffix(s[..|s| - 2]) else s
  }

  /** The struct of a message type gets the suffix; the names of its functions start without it. */
  function StructName(prefix: string): string {
    prefix + SUFFIX
  }

  /** The generator gets from a struct back to the functions of its type iff the type's own name does not
      end in the suffix. */
  lemma {:induction false} TrimExact(prefix: string)
    ensures TrimSuffix(StructName(prefix)) == prefix <==> !EndsInSuffix(prefix)
  {
    var s := StructName(prefix);
    assert s[|s| - 2..] == SUFFIX && s[..|s| - 2] == prefix;
    assert TrimSuffix(s) == TrimSuffix(prefix);
  }

  /** A type named x_t: from its struct the generator gets to the functions of a type named x. */
  lemma {:induction false} TrimTooMuch()
    ensures StructName("x_t") == "x_t_t" && TrimSuffix(StructName("x_t")) == "x"
  {
    var s := StructName("x_t");
    assert s[3..] == SUFFIX && s[..3] == "x_t";
    assert "x_t"[1..] == SUFFIX && "x_t"[..1] == "x";
  }

  // ---- the walk ----

  /** Structs are remembered by C name, functions by prefix. */
  datatype Style = Structs | Serde {
    /** What a nested type is called in this output. */
    function Key(cType: string): string {
      if Structs? then cType else TrimSuffix(cType)
    }

    function NameOf(prefix: string): string {
      if Structs? then StructName(prefix) else prefix
    }
  }

  /** A definition written out, and the fields it refers to others by. */
  datatype Entry = Entry(name: string, fields: seq<Field>)

  datatype Output = Output(emitted: set<string>, out: seq<Entry>)

  const EMPTY := Output({}, [])

  function Visit(style: Style, fields: seq<Field>, name: string, o: Output): Output
    decreases fields, 1
  {
    if name in o.emitted then o
    else
      var inner := VisitFields(style, fields, o.(emitted := o.emitted + {name}));
      inner.(out := inner.out + [Entry(name, fields)])
  }

  function VisitFields(style: Style, fields: seq<Field>, o: Output): Output
    decreases fields, 0
  {
    if fields == [] then o
    else
      var n := |fields| - 1;
      VisitType(style, fields[n].ty, VisitFields(style, fields[..n], o))
  }

  function VisitType(style: Style, ty: FieldType, o: Output): Output
    decreases ty, 0
  {
    match ty
    case Nested(cType, nested) => Visit(style, nested, style.Key(cType), o)
    case NestedArray(cType, nested, _) => Visit(style, nested, style.Key(cType), o)
    case _ => o
  }

  /** A topic's message type, by its prefix and fields. */
  datatype Root = Root(prefix: string, fields: seq<Field>)

  function VisitRoots(style: Style, roots: seq<Root>): Output {
    if roots == [] then EMPTY
    else
      var n := |roots| - 1;
      Visit(style, roots[n].fields, style.NameOf(roots[n].prefix), VisitRoots(style, roots[..n]))
  }

  // ---- as the generator does it ----

  class Generator {
    var emitted: set<string>
    var out: seq<Entry>

    function Abs(): Output
      reads this
    {
      Output(emitted, out)
    }

    constructor ()
      ensures Abs() == EMPTY
    {
      emitted, out := {}, [];
    }

    method Generate(style: Style, fields: seq<Field>, name: string)
      modifies this
      ensures Abs() == Visit(style, fields, name, old(Abs()))
      decreases fields, 1
    {
      if name in emitted {
        return;
      }
      emitted := emitted + {name};
      ghost var start := Abs();
      for i := 0 to |fields|
        invariant Abs() == VisitFields(style, fields[..i], start)
      {
        assert fields[..i + 1][..i] == fields[..i];
        match fields[i].ty {
          case Nested(cType, nested) => Generate(style, nested, style.Key(cType));
          case NestedArray(cType, nested, _) => Generate(style, nested, style.Key(cType));
          case _ =>
        }
      }
      assert fields[..|fields|] == fields;
      out := out + [Entry(name, fields)];
    }
  }

  method GenerateAll(style: Style, roots: seq<Root>) returns (output: Output)
    ensures output == VisitRoots(style, roots)
  {
    var g := new Generator();
    for i := 0 to |roots|
      invariant g.Abs() == VisitRoots(style, roots[..i])
    {
      assert roots[..i + 1][..i] == roots[..i];
      g.Generate(style, roots[i].fields, style.NameOf(roots[i].prefix));
    }
    assert roots[..|roots|] == roots;
    output := Output(g.emitted, g.out);
  }
}
