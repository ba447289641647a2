/** The size analysis against the calls the generated serializer makes: the bound holds for every
    message, and says by how much it can be too large. */
module SizeTheorems {
  import opened Bytes
  import opened Cdr
  import opened FieldTree
  import opened SizeAnalysis

  // ---- residues ----

  lemma ModCoarser(at: nat, m: nat, align: nat)
    requires Width(m) && Width(align) && align <= m
    ensures Mod(Mod(at, m), align) == Mod(at, align)
  {
    match m
    case 1 =>
    case 2 =>
    case 4 => ModFourCoarser(at);
    case 8 => ModEightCoarser(at);
  }

  lemma ModFourCoarser(at: nat)
    ensures at % 4 % 2 == at % 2
  {
  }

  lemma ModEightCoarser(at: nat)
    ensures at % 8 % 4 == at % 4 && at % 8 % 2 == at % 2
  {
    ModFourCoarser(at);
    ModFourCoarser(at % 8);
    EightIsTwoFours(at, at / 8, at % 8);
  }

  lemma EightIsTwoFours(at: nat, q: nat, r: nat)
    requires at == 8 * q + r
    ensures r % 4 == at % 4
  {
    assert at == 4 * (2 * q) + r;
  }

  /** Paddings of positions in the same class differ by a multiple of m, so by align - m at most. */
  lemma {:induction false} PadsCongruent(x: nat, y: nat, m: nat, align: nat)
    requires Width(m) && Width(align) && m < align && Mod(x, m) == Mod(y, m)
    ensures Pad(x, align) <= Pad(y, align) + (align - m)
  {
    hide Mod;
    ModCoarser(x, align, m);
    ModCoarser(y, align, m);
    SmallResidues(Mod(x, align), Mod(y, align), m, align);
  }

  lemma SmallResidues(x: nat, y: nat, m: nat, align: nat)
    requires Width(m) && Width(align) && m < align && x < align && y < align && Mod(x, m) == Mod(y, m)
    ensures y <= x + (align - m) && (x == 0 ==> y <= align - m) && (y == 0 && x != 0 ==> m <= x)
  {
    match m
    case 1 =>
    case 2 =>
    case 4 =>
  }

  /** The residue a covered position has modulo a larger width is one of those the analysis tries. */
  lemma ResidueTried(at: nat, m: nat, align: nat) returns (k: nat)
    requires Width(m) && Width(align) && m < align
    ensures k < Ratio(align, m) && Mod(at, align) == Mod(at, m) + Span(k, m)
    ensures Pad(Mod(at, m) + Span(k, m), align) == Pad(at, align)
  {
    hide Mod, Span, Ratio;
    k := Multiples(Mod(at, align), m, align);
    ModCoarser(at, align, m);
    ModModulo(at, align);
  }

  lemma Multiples(x: nat, m: nat, align: nat) returns (k: nat)
    requires Width(m) && Width(align) && m < align && x < align
    ensures k < Ratio(align, m) && x == Mod(x, m) + Span(k, m)
  {
    match m {
      case 1 => k := x;
      case 2 => k := x / 2;
      case 4 => k := x / 4;
    }
  }

  lemma ModModulo(at: nat, align: nat)
    requires Width(align)
    ensures Mod(Mod(at, align), align) == Mod(at, align)
  {
  }

  lemma {:induction false} SpanClass(r: nat, k: nat, m: nat)
    requires Width(m) && r < m
    ensures Mod(r + Span(k, m), m) == r
  {
    match m
    case 1 =>
    case 2 => ResidueOfTwo(r, k);
    case 4 => ResidueOfFour(r, k);
    case 8 => ResidueOfEight(r, k);
  }

  lemma ResidueOfTwo(r: nat, k: nat)
    requires r < 2
    ensures (r + 2 * k) % 2 == r
  {
  }

  lemma ResidueOfFour(r: nat, k: nat)
    requires r < 4
    ensures (r + 4 * k) % 4 == r
  {
  }

  lemma ResidueOfEight(r: nat, k: nat)
    requires r < 8
    ensures (r + 8 * k) % 8 == r
  {
  }

  lemma {:induction false} MaxPadBounds(r: nat, m: nat, align: nat, count: nat, k: nat)
    requires Width(m) && Width(align) && k < count
    ensures Pad(r + Span(k, m), align) <= MaxPad(r, m, align, count)
  {
    hide Mod, Pad, PadFrom, Span;
    if k < count - 1 {
      MaxPadBounds(r, m, align, count - 1, k);
    }
  }

  lemma {:induction false} MaxPadAttained(r: nat, m: nat, align: nat, count: nat) returns (k: nat)
    requires Width(m) && Width(align) && count > 0
    ensures k < count && MaxPad(r, m, align, count) == Pad(r + Span(k, m), align)
  {
    hide Mod, Pad, PadFrom, Span;
    k := count - 1;
    if count > 1 {
      var j := MaxPadAttained(r, m, align, count - 1);
      if MaxPad(r, m, align, count - 1) >= PadFrom(r + Span(k, m), align) {
        k := j;
      }
    }
  }

  // ---- one field ----

  /** One step of the analysis: it covers the next position, never counts too little, and counts
      too much only by what it learns about the position. */
  lemma {:induction false} AddSound(pos: Pos, align: nat, size: nat, at: nat)
    requires pos.Valid() && pos.Covers(at) && Width(align)
    ensures var (q, n) := Add(pos, align, size);
            var used := Pad(at, align) + size;
            q.Covers(at + used) && used <= n && n + pos.m <= used + q.m
  {
    hide Mod, Pad, MaxPad, PadFrom;
    if align <= pos.m {
      SamePad(at, pos.m, align);
      ModSum(at, Pad(at, align) + size, pos.m);
    } else {
      var k := ResidueTried(at, pos.m, align);
      WorstPad(pos, align, at, k);
      ModAligned(at + Pad(at, align), size, align);
    }
  }

  lemma SamePad(at: nat, m: nat, align: nat)
    requires Width(m) && Width(align) && align <= m
    ensures Pad(Mod(at, m), align) == Pad(at, align)
  {
    hide Mod;
    ModCoarser(at, m, align);
  }

  lemma {:induction false} WorstPad(pos: Pos, align: nat, at: nat, k: nat)
    requires pos.Valid() && pos.Covers(at) && Width(align) && pos.m < align && k < Ratio(align, pos.m)
    requires Pad(pos.r + Span(k, pos.m), align) == Pad(at, align)
    ensures var worst := MaxPad(pos.r, pos.m, align, Ratio(align, pos.m));
            Pad(at, align) <= worst <= Pad(at, align) + (align - pos.m)
  {
    hide Mod, Pad, MaxPad, PadFrom, Span;
    MaxPadBounds(pos.r, pos.m, align, Ratio(align, pos.m), k);
    var j := MaxPadAttained(pos.r, pos.m, align, Ratio(align, pos.m));
    SpanClass(pos.r, j, pos.m);
    PadsCongruent(pos.r + Span(j, pos.m), at, pos.m, align);
  }

  /** Bytes of a leaf on the stream. */
  function Used(leaf: Leaf, content: seq<byte>, at: nat): nat
    requires leaf.Valid() && LeafConforms(leaf, content)
  {
    Size(LeafOps(leaf, content), at)
  }

  /** What the analysis may count too much for a leaf: up to seven bytes for the position it loses
      at a string, and the characters the string could have had. */
  function Credit(leaf: Leaf, content: seq<byte>): nat
    requires LeafConforms(leaf, content)
  {
    if leaf.One? && leaf.prim.String? then 7 + (STRING_CAPACITY - 1 - |content|) else 0
  }

  lemma NoPad(at: nat)
    ensures Pad(at, 1) == 0
  {
  }

  lemma {:induction false} StringSound(pos: Pos, content: seq<byte>, at: nat)
    requires pos.Valid() && pos.Covers(at) && LeafConforms(One(String), content)
    ensures var (q, n) := AddPrim(pos, String);
            var used := Used(One(String), content, at);
            q.Covers(at + used) && used <= n && n + pos.m <= used + q.m + Credit(One(String), content)
  {
    hide Pad, Add, Mod;
    AddSound(pos, 4, 4, at);
    NoPad(at + Pad(at, 4) + 4);
    var ops := LeafOps(One(String), content);
    SizeOfTwo(ops[0], ops[1], at);
    CoversAnything(at + Used(One(String), content, at));
  }

  lemma CoversAnything(at: nat)
    ensures Pos(0, 1).Covers(at)
  {
  }

  /** After an element the next one of the same width needs no padding. */
  lemma {:induction false} ManySound(pos: Pos, prim: Prim, n: nat, at: nat)
    requires pos.Valid() && pos.Covers(at) && !prim.String? && n > 0
    ensures var (q, total) := AddMany(pos, prim, n);
            var used := Pad(at, prim.Align()) + Span(n, prim.Align());
            q.Covers(at + used) && used <= total && total + pos.m <= used + q.m
    decreases n
  {
    hide Pad, Add, Mod, Span;
    var w := prim.Align();
    AddSound(pos, w, w, at);
    var (p, k) := AddPrim(pos, prim);
    SpanSteps(n, w);
    if n > 1 {
      var next := at + Pad(at, w) + w;
      StillAligned(at, w);
      ManySound(p, prim, n - 1, next);
    }
  }

  lemma SpanSteps(n: nat, w: nat)
    requires Width(w) && n > 0
    ensures Span(n, w) == w + Span(n - 1, w) && Span(0, w) == 0
  {
  }

  lemma StillAligned(at: nat, w: nat)
    requires Width(w)
    ensures Pad(at + Pad(at, w) + w, w) == 0
  {
  }

  /** An array of length zero. */
  predicate Empty(leaf: Leaf) {
    leaf.Many? && leaf.len == 0
  }

  predicate NoneEmpty(leaves: seq<Leaf>) {
    forall j | 0 <= j < |leaves| :: !Empty(leaves[j])
  }

  lemma LeafSound(pos: Pos, leaf: Leaf, content: seq<byte>, at: nat)
    requires pos.Valid() && pos.Covers(at) && leaf.Valid() && LeafConforms(leaf, content) && !Empty(leaf)
    ensures var (q, n) := AddLeaf(pos, leaf);
            var used := Used(leaf, content, at);
            q.Covers(at + used) && used <= n && n + pos.m <= used + q.m + Credit(leaf, content)
  {
    hide Pad, Add, Mod, Span;
    match leaf
    case One(p) =>
      if p.String? {
        StringSound(pos, content, at);
      } else {
        AddSound(pos, p.Align(), p.Size(), at);
        SizeOfOne(LeafOps(leaf, content)[0], at);
      }
    case Many(p, n) =>
      ManySound(pos, p, n, at);
      SizeOfOne(LeafOps(leaf, content)[0], at);
  }

  // ---- whole messages ----

  function TotalCredit(leaves: seq<Leaf>, contents: seq<seq<byte>>): nat
    requires LeavesConform(leaves, contents)
    decreases leaves
  {
    if leaves == [] then 0 else Credit(leaves[0], contents[0]) + TotalCredit(leaves[1..], contents[1..])
  }

  /** The position stays covered, the count is never too small, and what it has too much is paid for
      by the strings and by what the analysis came to know about the position. */
  lemma {:induction false} MaxSizeSound(leaves: seq<Leaf>, contents: seq<seq<byte>>, pos: Pos, at: nat)
    requires ValidLeaves(leaves) && NoneEmpty(leaves) && LeavesConform(leaves, contents)
    requires pos.Valid() && pos.Covers(at)
    ensures var (q, n) := MaxSize(leaves, pos);
            var used := Size(Ops(leaves, contents), at);
            q.Covers(at + used) && used <= n && n + pos.m <= used + q.m + TotalCredit(leaves, contents)
    decreases leaves
  {
    hide Pad, AddLeaf, Mod, Credit, LeafOps, Leaf.Valid, LeafConforms;
    if leaves != [] {
      LeafSound(pos, leaves[0], contents[0], at);
      var used := Used(leaves[0], contents[0], at);
      MaxSizeSound(leaves[1..], contents[1..], AddLeaf(pos, leaves[0]).0, at + used);
      SizeConcat(LeafOps(leaves[0], contents[0]), Ops(leaves[1..], contents[1..]), at);
    }
  }

  /** Bytes the generated serializer writes for msg, which always starts at position 0. */
  function MessageSize(fields: seq<Field>, msg: seq<Value>): nat
    requires ValidLeaves(Leaves(fields)) && Conforms(fields, msg)
  {
    Size(Ops(Leaves(fields), Flatten(msg)), 0)
  }

  /** No message is larger than the generator says, and none makes it larger than it must be except
      through its strings. */
  lemma {:induction false} SizeSound(fields: seq<Field>, msg: seq<Value>)
    requires ValidLeaves(Leaves(fields)) && NoneEmpty(Leaves(fields)) && Conforms(fields, msg)
    ensures var payload := ENCAP_HEADER_LEN + MessageSize(fields, msg);
            payload <= MaxPayloadSize(fields) <= payload + TotalCredit(Leaves(fields), Flatten(msg))
  {
    hide MaxSize, Size, TotalCredit;
    MaxSizeSound(Leaves(fields), Flatten(msg), MESSAGE_START, 0);
  }

  /** Characters missing from the strings, and the number of strings. */
  function Unused(leaves: seq<Leaf>, contents: seq<seq<byte>>): nat
    requires LeavesConform(leaves, contents)
    decreases leaves
  {
    if leaves == [] then 0
    else
      (if leaves[0] == One(String) then STRING_CAPACITY - 1 - |contents[0]| else 0) + Unused(leaves[1..], contents[1..])
  }

  function Strings(leaves: seq<Leaf>): nat {
    if leaves == [] then 0 else (if leaves[0] == One(String) then 1 else 0) + Strings(leaves[1..])
  }

  lemma {:induction false} CreditSplit(leaves: seq<Leaf>, contents: seq<seq<byte>>)
    requires LeavesConform(leaves, contents)
    ensures TotalCredit(leaves, contents) == 7 * Strings(leaves) + Unused(leaves, contents)
    decreases leaves
  {
    if leaves != [] {
      CreditSplit(leaves[1..], contents[1..]);
    }
  }

  /** A type without strings has one size, and the analysis finds it; each string costs at most seven
      bytes and the characters it does not use. */
  lemma {:induction false} SizePrecise(fields: seq<Field>, msg: seq<Value>)
    requires ValidLeaves(Leaves(fields)) && NoneEmpty(Leaves(fields)) && Conforms(fields, msg)
    ensures var spare := MaxPayloadSize(fields) - (ENCAP_HEADER_LEN + MessageSize(fields, msg));
            var leaves := Leaves(fields);
            && 0 <= spare <= 7 * Strings(leaves) + Unused(leaves, Flatten(msg))
            && (Strings(leaves) == 0 ==> spare == 0)
  {
    hide MaxSize, Size, TotalCredit, Strings, Unused, Leaves, Flatten, LeafConforms, Leaf.Valid, Shaped;
    SizeSound(fields, msg);
    CreditSplit(Leaves(fields), Flatten(msg));
    if Strings(Leaves(fields)) == 0 {
      NothingUnused(Leaves(fields), Flatten(msg));
    }
  }

  lemma {:induction false} NothingUnused(leaves: seq<Leaf>, contents: seq<seq<byte>>)
    requires LeavesConform(leaves, contents)
    requires Strings(leaves) == 0 || FullStrings(leaves, contents)
    ensures Unused(leaves, contents) == 0
    decreases leaves
  {
    if leaves != [] {
      NothingUnused(leaves[1..], contents[1..]);
    }
  }

  predicate FullStrings(leaves: seq<Leaf>, contents: seq<seq<byte>>)
    requires |contents| == |leaves|
  {
    forall j | 0 <= j < |leaves| :: leaves[j] == One(String) ==> |contents[j]| == STRING_CAPACITY - 1
  }

  /** With every string at its full length the analysis is at most seven bytes per string too large. */
  lemma {:induction false} SizeOfFullStrings(fields: seq<Field>, msg: seq<Value>)
    requires ValidLeaves(Leaves(fields)) && NoneEmpty(Leaves(fields)) && Conforms(fields, msg)
    requires FullStrings(Leaves(fields), Flatten(msg))
    ensures MaxPayloadSize(fields) <= ENCAP_HEADER_LEN + MessageSize(fields, msg) + 7 * Strings(Leaves(fields))
  {
    hide MaxPayloadSize, MessageSize, Strings, Unused, Leaves, Flatten, ValidLeaves, LeafConforms, Shaped;
    SizePrecise(fields, msg);
    NothingUnused(Leaves(fields), Flatten(msg));
  }
}
