/** The Micro-CDR buffer seen along its stream. mem is what the slots hold, one after the other in the
    order the on-full callback hands them out, wherever in memory they lie; positions count along it. spare
    lists the sizes of the slots not yet handed out, and an empty spare is a buffer without a callback or a
    callback that gives up. */
module MicroCdr {
  import opened Bytes
  import opened Cdr

  const SLOT_MIN: nat := 8

  function Sum(sizes: seq<nat>): nat {
    if sizes == [] then 0 else sizes[0] + Sum(sizes[1..])
  }

  datatype Buffer = Buffer(mem: seq<byte>, init: nat, final: nat, iter: nat, origin: nat, offset: nat,
                           last: nat, error: bool, spare: seq<nat>)
  {
    predicate Valid() {
      && init <= iter <= final
      && final + Sum(spare) == |mem|
      && (forall j | 0 <= j < |spare| :: SLOT_MIN <= spare[j])
    }

    /** Bytes left in this slot and all later ones. */
    function Room(): nat
      requires Valid()
    {
      |mem| - iter
    }

    /** Why the alignment shortcut is sound: the last width written still divides the offset. */
    predicate Aligned() {
      !error ==> last == 0 || (Width(last) && Mod(offset, last) == 0)
    }
  }

  function InitBuffer(mem: seq<byte>, slot: nat, spare: seq<nat>, origin: nat, offset: nat): Buffer {
    Buffer(mem, 0, slot, offset, origin, origin + offset, 0, false, spare)
  }

  function Reset(b: Buffer, offset: nat): Buffer {
    b.(iter := b.init + offset, offset := b.origin + offset, last := 0, error := false)
  }

  // ---- alignment ----

  /** x & (n - 1) */
  function Mask(x: nat, n: nat): nat
    requires 1 <= x <= 8 && Width(n)
  {
    ((x as bv8) & ((n - 1) as bv8)) as nat
  }

  lemma MaskIsMod(x: nat, n: nat)
    requires Width(n) && 1 <= x <= n
    ensures Mask(x, n) == if x == n then 0 else x
  {
    match n
    case 1 =>
    case 2 =>
    case 4 =>
    case 8 =>
  }

  /** ucdr_alignment */
  function Alignment(pos: nat, n: nat): nat
    requires Width(n)
  {
    Mask(n - Mod(pos, n), n)
  }

  /** ucdr_buffer_alignment: no padding is computed when the last width written is at least n, and
      the offset is cut to 32 bits. */
  function BufferAlignment(b: Buffer, n: nat): nat
    requires Width(n)
  {
    if n > b.last then Mask(n - Mod(b.offset % 0x1_0000_0000, n), n) else 0
  }

  lemma {:induction false} AlignmentIsPad(pos: nat, n: nat)
    requires Width(n)
    ensures Alignment(pos, n) == Pad(pos, n)
  {
    hide Mask;
    MaskIsMod(n - Mod(pos, n), n);
  }

  lemma ModTruncated(pos: nat, n: nat)
    requires Width(n)
    ensures Mod(pos % 0x1_0000_0000, n) == Mod(pos, n)
  {
    var t, u := pos / 0x1_0000_0000, pos % 0x1_0000_0000;
    match n
    case 1 =>
    case 2 => HighBitsOfTwo(pos, t, u);
    case 4 => HighBitsOfFour(pos, t, u);
    case 8 => HighBitsOfEight(pos, t, u);
  }

  lemma HighBitsOfTwo(pos: nat, t: nat, u: nat)
    requires pos == 0x1_0000_0000 * t + u
    ensures u % 2 == pos % 2
  {
    assert pos == 2 * (0x8000_0000 * t + u / 2) + u % 2;
  }

  lemma HighBitsOfFour(pos: nat, t: nat, u: nat)
    requires pos == 0x1_0000_0000 * t + u
    ensures u % 4 == pos % 4
  {
    assert pos == 4 * (0x4000_0000 * t + u / 4) + u % 4;
  }

  lemma HighBitsOfEight(pos: nat, t: nat, u: nat)
    requires pos == 0x1_0000_0000 * t + u
    ensures u % 8 == pos % 8
  {
    assert pos == 8 * (0x2000_0000 * t + u / 8) + u % 8;
  }

  lemma ModDivides(pos: nat, n: nat, last: nat)
    requires Width(n) && Width(last) && n <= last && Mod(pos, last) == 0
    ensures Mod(pos, n) == 0
  {
  }

  /** The shortcut and the truncation change nothing on a buffer in working order. */
  lemma {:induction false} ShortcutSound(b: Buffer, n: nat)
    requires Width(n) && b.Aligned() && !b.error
    ensures BufferAlignment(b, n) == Alignment(b.offset, n) == Pad(b.offset, n)
  {
    hide Mask, Mod;
    AlignmentIsPad(b.offset, n);
    ModTruncated(b.offset, n);
    if n <= b.last {
      ModDivides(b.offset, n, b.last);
    }
  }

  // ---- moving through the slots ----

  /** The on-full callback. */
  function OnFull(b: Buffer): Buffer {
    if b.spare == [] then b.(error := true)
    else b.(init := b.final, iter := b.final, final := b.final + b.spare[0], spare := b.spare[1..])
  }

  function CheckFinal(b: Buffer): Buffer {
    if !b.error && b.iter >= b.final then OnFull(b) else b
  }

  /** The buffer with a slot to write to, and how many of the bytes fit in it. */
  function CheckFinalArray(b: Buffer, bytes: nat): (r: (Buffer, nat))
    requires b.Valid()
    ensures r.1 <= bytes
  {
    var c := if !b.error && b.iter >= b.final && bytes > 0 then OnFull(b) else b;
    (c, if c.error || c.final < c.iter then 0 else if bytes <= c.final - c.iter then bytes else c.final - c.iter)
  }

  predicate Available(b: Buffer, n: nat) {
    !b.error && b.iter + n <= b.final
  }

  function Forward(b: Buffer, n: nat): Buffer {
    b.(iter := b.iter + n, offset := b.offset + n)
  }

  /** The copy loop of advance and of the array functions, as far as it moves the cursor. */
  function MoveLoop(b: Buffer, remaining: nat): (m: Buffer)
    requires b.Valid()
    ensures m.Valid()
    decreases remaining
  {
    var (c, n) := CheckFinalArray(b, remaining);
    CheckFinalArrayValid(b, remaining);
    if n == 0 then c else MoveLoop(Forward(c, n), remaining - n)
  }

  lemma OnFullValid(b: Buffer)
    requires b.Valid() && b.iter == b.final
    ensures OnFull(b).Valid() && OnFull(b).iter == b.iter
    ensures !OnFull(b).error ==> b.spare != [] && OnFull(b).final >= b.iter + SLOT_MIN
  {
  }

  lemma CheckFinalArrayValid(b: Buffer, bytes: nat)
    requires b.Valid()
    ensures var (c, n) := CheckFinalArray(b, bytes); c.Valid() && Forward(c, n).Valid()
  {
    if b.iter == b.final {
      OnFullValid(b);
    }
  }

  function Advance(b: Buffer, size: nat): (m: Buffer)
    requires b.Valid()
    ensures m.Valid()
  {
    (if Available(b, size) then Forward(b, size) else MoveLoop(b, size)).(last := 1)
  }

  /** A scalar of one byte. */
  function MoveByte(b: Buffer): Buffer {
    var c := CheckFinal(b);
    if c.error then c else Forward(c, 1).(last := 1)
  }

  /** A scalar of n bytes once the padding is done: it fits, or it is split between two slots, or it
      starts the next slot. On failure the cursor goes back to where the scalar would have started. */
  function PlaceWord(c: Buffer, n: nat, last: nat): Buffer
    requires Width(n)
  {
    if Available(c, n) then Forward(c, n).(last := n)
    else if c.final > c.iter then
      var k := c.final - c.iter;
      var d := CheckFinal(Forward(c, k));
      if !d.error && k <= n then Forward(d, n - k).(last := n)
      else d.(iter := c.iter, offset := c.offset, last := last)
    else
      var d := CheckFinal(c);
      if !d.error then Forward(d, n).(last := n) else d
  }

  function MoveWord(b: Buffer, n: nat): Buffer
    requires b.Valid() && Width(n)
  {
    PlaceWord(Advance(b, BufferAlignment(b, n)), n, b.last)
  }

  function MoveArray(b: Buffer, len: nat, width: nat): (m: Buffer)
    requires b.Valid()
    ensures m.Valid()
  {
    (if Available(b, len) then Forward(b, len) else MoveLoop(b, len)).(last := width)
  }

  /** Where an array of elements wider than a byte starts. */
  function AlignBlock(b: Buffer, width: nat): (m: Buffer)
    requires b.Valid() && Width(width)
    ensures m.Valid()
  {
    if width == 1 then b else Advance(b, BufferAlignment(b, width)).(last := b.last)
  }

  // ---- the plain cursor ----

  /** A position in one flat stretch of memory. */
  datatype Cursor = Cursor(at: nat, offset: nat, error: bool)

  function View(b: Buffer): Cursor {
    Cursor(b.iter, b.offset, b.error)
  }

  /** n bytes further, or as far as the limit and into the error state. */
  function Reach(c: Cursor, limit: nat, n: nat): Cursor
    requires c.at <= limit
  {
    if c.error then c
    else if n <= limit - c.at then Cursor(c.at + n, c.offset + n, false)
    else Cursor(limit, c.offset + (limit - c.at), true)
  }

  /** Pad, then the value; a scalar is never cut short, a block may be. */
  function PlainMove(c: Cursor, limit: nat, s: Shape): Cursor
    requires c.at <= limit && Width(s.align)
  {
    var d := Reach(c, limit, Pad(c.offset, s.align));
    if d.error then d
    else if s.kind.Scalar? && s.len > limit - d.at then d.(error := true)
    else Reach(d, limit, s.len)
  }

  function Move(b: Buffer, s: Shape): Buffer
    requires b.Valid() && s.Valid()
  {
    if s.kind.Scalar? then if s.align == 1 then MoveByte(b) else MoveWord(b, s.align)
    else MoveArray(AlignBlock(b, s.align), s.len, s.align)
  }

  // ---- the buffer refines the plain cursor ----

  /** b moved to where c is, in the same memory. */
  predicate MovedTo(b: Buffer, m: Buffer, c: Cursor) {
    m.Valid() && m.mem == b.mem && m.origin == b.origin && View(m) == c
  }

  lemma {:induction false} MoveLoopRefines(b: Buffer, n: nat)
    requires b.Valid()
    ensures MovedTo(b, MoveLoop(b, n), Reach(View(b), |b.mem|, n)) && MoveLoop(b, n).last == b.last
    decreases n
  {
    hide Sum, CheckFinalArray;
    var (c, k) := CheckFinalArray(b, n);
    TurnRefines(b, n);
    if k > 0 {
      MoveLoopRefines(Forward(c, k), n - k);
    }
  }

  /** One turn of the loop, up to the copy: something fits, or nothing is left to do, or to fill. */
  lemma TurnRefines(b: Buffer, n: nat)
    requires b.Valid()
    ensures var (c, k) := CheckFinalArray(b, n);
            && c.Valid() && Forward(c, k).Valid() && k <= n && k <= |b.mem| - b.iter
            && c.mem == b.mem && c.origin == b.origin && c.last == b.last && c.iter == b.iter
            && (if k > 0 then View(c) == View(b) && !b.error else View(c) == Reach(View(b), |b.mem|, n))
  {
    hide Sum, OnFull;
    CheckFinalArrayValid(b, n);
    if !b.error {
      NextSlot(b);
    }
    if b.iter == b.final && n > 0 && !b.error && !OnFull(b).error {
      NextSlot(OnFull(b));
    }
  }

  /** The callback gives up only at the very end of the memory. */
  lemma LastSlot(b: Buffer)
    requires b.Valid()
    ensures b.spare == [] ==> b.final == |b.mem|
  {
  }

  lemma RoomLeft(b: Buffer)
    requires b.Valid()
    ensures b.Room() >= 0
  {
    LastSlot(b);
  }

  lemma AdvanceRefines(b: Buffer, n: nat)
    requires b.Valid()
    ensures MovedTo(b, Advance(b, n), Reach(View(b), |b.mem|, n)) && Advance(b, n).last == 1
  {
    hide Sum;
    MoveLoopRefines(b, n);
  }

  lemma PlaceWordRefines(c: Buffer, n: nat, last: nat)
    requires c.Valid() && Width(n)
    ensures var room := |c.mem| - c.iter;
            MovedTo(c, PlaceWord(c, n, last),
                    if c.error || n > room then View(c).(error := true) else Reach(View(c), |c.mem|, n))
    ensures !PlaceWord(c, n, last).error ==> PlaceWord(c, n, last).last == n
  {
    hide Sum, OnFull;
    if !c.error {
      NextSlot(c);
      NextSlot(Forward(c, c.final - c.iter));
    }
  }

  lemma WordRefines(b: Buffer, n: nat)
    requires b.Valid() && b.Aligned() && Width(n) && n > 1
    ensures MovedTo(b, MoveWord(b, n), PlainMove(View(b), |b.mem|, Shape(Scalar, n, n)))
    ensures MoveWord(b, n).Aligned()
  {
    hide Sum, MoveLoop, BufferAlignment, Alignment, Mask, Advance, Pad, Mod, PlaceWord;
    var pad := BufferAlignment(b, n);
    if !b.error {
      ShortcutSound(b, n);
    }
    AdvanceRefines(b, pad);
    WordAligned(b.offset, n);
    PlaceWordRefines(Advance(b, pad), n, b.last);
  }

  /** At the end of a slot the callback moves to the next one, which takes any word, or gives up
      because the memory ends there. */
  lemma NextSlot(b: Buffer)
    requires b.Valid() && !b.error
    ensures b.final <= |b.mem|
    ensures b.iter == b.final ==>
              var c := OnFull(b);
              if c.error then c == b.(error := true) && b.final == |b.mem|
              else c.Valid() && c.mem == b.mem && c.origin == b.origin && View(c) == View(b)
                   && c.last == b.last && SLOT_MIN <= c.final - c.iter
  {
    LastSlot(b);
    if b.iter == b.final {
      OnFullValid(b);
      LastSlot(OnFull(b));
    }
  }

  lemma ScalarShape(n: nat)
    requires Width(n)
    ensures Shape(Scalar, n, n).Valid()
  {
  }

  lemma WordAligned(pos: nat, n: nat)
    requires Width(n)
    ensures Mod(pos + Pad(pos, n) + n, n) == 0
  {
    hide Pad;
    ModAligned(pos + Pad(pos, n), n, n);
  }

  lemma ByteRefines(b: Buffer)
    requires b.Valid()
    ensures MovedTo(b, MoveByte(b), PlainMove(View(b), |b.mem|, Shape(Scalar, 1, 1)))
    ensures MoveByte(b).Aligned()
  {
    hide Sum;
    LastSlot(b);
    if b.iter == b.final {
      OnFullValid(b);
      LastSlot(OnFull(b));
    }
  }

  lemma BlockRefines(b: Buffer, width: nat, len: nat)
    requires b.Valid() && b.Aligned() && Width(width) && Mod(len, width) == 0
    ensures var m := MoveArray(AlignBlock(b, width), len, width);
            MovedTo(b, m, PlainMove(View(b), |b.mem|, Shape(Block, width, len))) && m.Aligned()
  {
    hide Sum, MoveLoop, BufferAlignment, Alignment, Mask, Advance, Pad, Mod;
    if !b.error {
      ShortcutSound(b, width);
    }
    if width > 1 {
      AdvanceRefines(b, BufferAlignment(b, width));
    }
    MoveLoopRefines(AlignBlock(b, width), len);
    BlockAligned(b.offset, width, len);
  }

  lemma BlockAligned(pos: nat, width: nat, len: nat)
    requires Width(width) && Mod(len, width) == 0
    ensures Mod(pos + Pad(pos, width) + len, width) == 0
    ensures Pad(pos, 1) == 0
  {
    hide Mod;
    ModAligned(pos + Pad(pos, width), len, width);
  }

  /** Slots, callback, shortcut and all: every call moves the cursor as on one flat stretch of
      memory under the plain alignment rule, and leaves the buffer in working order. */
  lemma {:induction false} MoveRefines(b: Buffer, s: Shape)
    requires b.Valid() && b.Aligned() && s.Valid()
    ensures MovedTo(b, Move(b, s), PlainMove(View(b), |b.mem|, s)) && Move(b, s).Aligned()
  {
    hide MoveByte, MoveWord, AlignBlock, PlainMove, MoveArray, Mod;
    if s.kind.Block? {
      BlockRefines(b, s.align, s.len);
    } else if s.align == 1 {
      ByteRefines(b);
    } else {
      WordRefines(b, s.align);
    }
  }

  // ---- reading and writing ----

  /** ucdr_array_to_buffer: what does not fit is written as far as it fits. */
  function PutArray(b: Buffer, bytes: seq<byte>, width: nat): Buffer
    requires b.Valid()
  {
    var m := MoveArray(b, |bytes|, width);
    ArrayBounds(b, |bytes|, width);
    m.(mem := Write(b.mem, b.iter, bytes[..m.iter - b.iter]))
  }

  lemma ArrayBounds(b: Buffer, len: nat, width: nat)
    requires b.Valid()
    ensures var m := MoveArray(b, len, width); m.mem == b.mem && b.iter <= m.iter <= b.iter + len && m.iter <= |b.mem|
  {
    hide MoveLoop;
    MoveLoopRefines(b, len);
  }

  /** A serialize call. */
  function Put(b: Buffer, op: Op): Buffer
    requires b.Valid() && b.Aligned() && op.Valid()
  {
    if op.kind.Block? then PutArray(AlignBlock(b, op.align), op.content, op.align)
    else
      var m := Move(b, op.Shp());
      PlainBounds(b, op.Shp());
      if m.error then m else m.(mem := Write(b.mem, m.iter - |op.content|, op.content))
  }

  /** A deserialize call: the bytes read, or nothing useful when the error flag is set afterwards. */
  function Get(b: Buffer, s: Shape): (r: (Buffer, seq<byte>))
    requires b.Valid() && b.Aligned() && s.Valid()
    ensures !r.0.error ==> |r.1| == s.len
  {
    var m := Move(b, s);
    MoveRefines(b, s);
    PlainBounds(b, s);
    (m, if m.error then [] else m.mem[m.iter - s.len..m.iter])
  }

  lemma PlainBounds(b: Buffer, s: Shape)
    requires b.Valid() && b.Aligned() && s.Valid()
    ensures var m := Move(b, s);
            && b.iter <= m.iter <= |b.mem| && m.mem == b.mem
            && (!m.error ==> !b.error && b.iter + s.Size(b.offset) == m.iter)
            && (s.kind.Block? ==> var a := AlignBlock(b, s.align); a.mem == b.mem && a.iter <= m.iter <= a.iter + s.len)
  {
    hide Sum, MoveLoop, BufferAlignment, Alignment, Mask, Advance, Pad, Mod, MoveByte, MoveWord;
    MoveRefines(b, s);
    if s.kind.Block? {
      AdvanceRefines(b, BufferAlignment(b, s.align));
      MoveLoopRefines(AlignBlock(b, s.align), s.len);
    }
  }

  // ---- one call ----

  /** A serialize call succeeds iff padding and value fit in what is left of all slots; then the
      value stands after the padding and nothing else changes. */
  lemma {:induction false} PutExact(b: Buffer, op: Op)
    requires b.Valid() && b.Aligned() && !b.error && op.Valid()
    ensures var c, n := Put(b, op), op.Shp().Size(b.offset);
            && c.Valid() && c.Aligned()
            && (!c.error <==> n <= b.Room())
            && (!c.error ==> View(c) == Cursor(b.iter + n, b.offset + n, false)
                             && c.mem == Write(b.mem, b.iter + Pad(b.offset, op.align), op.content))
  {
    hide MoveByte, MoveWord, MoveArray, AlignBlock, Sum, Mod, Write, Pad;
    var s := op.Shp();
    MoveRefines(b, s);
    PlainBounds(b, s);
    PutValid(b, op);
    if op.kind.Block? {
      BlockStart(b, op.align);
      assert op.content[..|op.content|] == op.content;
    }
  }

  lemma BlockStart(b: Buffer, width: nat)
    requires b.Valid() && b.Aligned() && Width(width)
    ensures View(AlignBlock(b, width)) == Reach(View(b), |b.mem|, Pad(b.offset, width))
  {
    hide Sum, MoveLoop, BufferAlignment, Alignment, Mask, Advance;
    if !b.error {
      ShortcutSound(b, width);
    }
    if width > 1 {
      AdvanceRefines(b, BufferAlignment(b, width));
    }
    BlockAligned(b.offset, 1, 0);
  }

  /** A deserialize call succeeds iff padding and value are there, and reads what stands after the
      padding. */
  lemma {:induction false} GetExact(b: Buffer, s: Shape)
    requires b.Valid() && b.Aligned() && !b.error && s.Valid()
    ensures var (c, bytes) := Get(b, s);
            var n := s.Size(b.offset);
            && c.Valid() && c.Aligned() && c.mem == b.mem
            && (!c.error <==> n <= b.Room())
            && (!c.error ==> View(c) == Cursor(b.iter + n, b.offset + n, false)
                             && bytes == b.mem[b.iter + Pad(b.offset, s.align)..b.iter + n])
  {
    hide Move, Sum, Mod, Pad;
    MoveRefines(b, s);
    PlainBounds(b, s);
  }

  /** Once the error flag is set no call moves the cursor, writes a byte or clears the flag. */
  lemma {:induction false} ErrorSticks(b: Buffer, op: Op)
    requires b.Valid() && b.error && op.Valid()
    ensures Put(b, op).mem == b.mem && View(Put(b, op)) == View(b)
    ensures var (c, _) := Get(b, op.Shp()); c.mem == b.mem && View(c) == View(b)
  {
    hide Move, Sum, Mod, AlignBlock, Pad;
    MoveRefines(b, op.Shp());
    PlainBounds(b, op.Shp());
    if op.kind.Block? {
      BlockStart(b, op.align);
    }
    assert op.content[..0] == [];
  }

  /** The same bytes, the same cursor, whatever the slots look like. */
  predicate Same(a: Buffer, b: Buffer) {
    a.mem == b.mem && View(a) == View(b)
  }

  lemma PutSame(a: Buffer, b: Buffer, op: Op)
    requires a.Valid() && a.Aligned() && b.Valid() && b.Aligned() && op.Valid() && Same(a, b)
    ensures Same(Put(a, op), Put(b, op))
  {
    hide MoveByte, MoveWord, MoveArray, AlignBlock, Pad, Mod, Write, PlainMove, Reach, Sum;
    var s := op.Shp();
    MoveRefines(a, s);
    MoveRefines(b, s);
    assert View(Move(a, s)) == View(Move(b, s));
    if op.kind.Block? {
      BlockStart(a, op.align);
      BlockStart(b, op.align);
    }
    PlainBounds(a, s);
    PlainBounds(b, s);
  }

  lemma GetSame(a: Buffer, b: Buffer, s: Shape)
    requires a.Valid() && a.Aligned() && b.Valid() && b.Aligned() && s.Valid() && Same(a, b)
    ensures Same(Get(a, s).0, Get(b, s).0) && Get(a, s).1 == Get(b, s).1
  {
    hide Move, PlainMove, Mod, Pad, Sum;
    MoveRefines(a, s);
    MoveRefines(b, s);
  }

  // ---- sequences of calls ----

  function PutAll(b: Buffer, ops: seq<Op>): (c: Buffer)
    requires b.Valid() && b.Aligned() && ValidOps(ops)
    ensures c.Valid() && c.Aligned() && |c.mem| == |b.mem|
    decreases ops
  {
    if ops == [] then b
    else
      PutValid(b, ops[0]);
      PutAll(Put(b, ops[0]), ops[1..])
  }

  lemma PutValid(b: Buffer, op: Op)
    requires b.Valid() && b.Aligned() && op.Valid()
    ensures Put(b, op).Valid() && Put(b, op).Aligned() && |Put(b, op).mem| == |b.mem|
  {
    hide MoveByte, MoveWord, MoveArray, AlignBlock, Sum, Mod, Pad, PlainMove, Write;
    MoveRefines(b, op.Shp());
    PlainBounds(b, op.Shp());
    if op.kind.Block? {
      ArrayBounds(AlignBlock(b, op.align), |op.content|, op.align);
    }
  }

  lemma {:induction false} PutAllSticks(b: Buffer, ops: seq<Op>)
    requires b.Valid() && b.error && ValidOps(ops)
    ensures Same(PutAll(b, ops), b)
    decreases ops
  {
    hide Put, Buffer.Valid, Op.Valid;
    if ops != [] {
      ErrorSticks(b, ops[0]);
      PutValid(b, ops[0]);
      PutAllSticks(Put(b, ops[0]), ops[1..]);
    }
  }

  /** What a sequence of calls turns b into: it succeeds iff all it lays out fits, and then the
      memory is the standard's layout over the old memory and the cursor is right behind it. */
  predicate LaidOut(b: Buffer, ops: seq<Op>, c: Buffer)
    requires b.Valid() && ValidOps(ops)
  {
    var n := Size(ops, b.offset);
    && (!c.error <==> n <= b.Room())
    && (!c.error ==> View(c) == Cursor(b.iter + n, b.offset + n, false)
                     && c.mem == Image(ops, b.mem, b.iter, b.offset))
  }

  lemma {:induction false} PutAllExact(b: Buffer, ops: seq<Op>)
    requires b.Valid() && b.Aligned() && !b.error && ValidOps(ops)
    ensures LaidOut(b, ops, PutAll(b, ops))
    decreases ops
  {
    hide Put, Mod, Pad, Write, Sum, LaidOut, Buffer.Valid, Buffer.Aligned, Same, Size, Image;
    if ops == [] {
      NothingLaidOut(b);
    } else {
      SizeCons(ops, b.offset);
      var c, d := Put(b, ops[0]), PutAll(b, ops);
      PutExact(b, ops[0]);
      PutValid(b, ops[0]);
      if c.error {
        PutAllSticks(c, ops[1..]);
        FirstFails(b, ops, c, d);
      } else {
        PutAllExact(c, ops[1..]);
        FirstFits(b, ops, c, d);
      }
    }
  }

  lemma NothingLaidOut(b: Buffer)
    requires b.Valid() && b.Aligned() && !b.error
    ensures PutAll(b, []) == b && LaidOut(b, [], b)
  {
    hide Sum;
  }

  lemma FirstFails(b: Buffer, ops: seq<Op>, c: Buffer, d: Buffer)
    requires b.Valid() && ValidOps(ops) && ops != [] && Same(d, c) && c.error
    requires !(ops[0].Shp().Size(b.offset) <= b.Room())
    ensures LaidOut(b, ops, d)
  {
    hide Sum, Image, Pad, Mod;
    SizeCons(ops, b.offset);
  }

  lemma FirstFits(b: Buffer, ops: seq<Op>, c: Buffer, d: Buffer)
    requires b.Valid() && ValidOps(ops) && ops != [] && c.Valid()
    requires var n := ops[0].Shp().Size(b.offset);
             && n <= b.Room() && View(c) == Cursor(b.iter + n, b.offset + n, false)
             && c.mem == Write(b.mem, b.iter + Pad(b.offset, ops[0].align), ops[0].content)
    requires LaidOut(c, ops[1..], d)
    ensures LaidOut(b, ops, d)
  {
    hide Sum, Image, Write, Pad, Mod;
    SizeCons(ops, b.offset);
    if Size(ops, b.offset) <= b.Room() {
      ImageCons(ops, b.mem, b.iter, b.offset);
    }
  }

  /** Fragmentation is transparent to writing: any calls leave the same bytes in the concatenated
      slots, and end at the same place, as in one buffer of the same total size. */
  lemma {:induction false} PutAllSame(a: Buffer, b: Buffer, ops: seq<Op>)
    requires a.Valid() && a.Aligned() && b.Valid() && b.Aligned() && ValidOps(ops) && Same(a, b)
    ensures Same(PutAll(a, ops), PutAll(b, ops))
    decreases ops
  {
    hide Put, Op.Valid, Sum, Same;
    if ops != [] {
      PutSame(a, b, ops[0]);
      PutValid(a, ops[0]);
      PutValid(b, ops[0]);
      PutAllSame(Put(a, ops[0]), Put(b, ops[0]), ops[1..]);
    }
  }

  function ValidShapes(shapes: seq<Shape>): bool {
    forall j | 0 <= j < |shapes| :: shapes[j].Valid()
  }

  /** Deserialize calls in a row: the final buffer and what each call read. */
  function GetAll(b: Buffer, shapes: seq<Shape>): (r: (Buffer, seq<seq<byte>>))
    requires b.Valid() && b.Aligned() && ValidShapes(shapes)
    ensures r.0.Valid() && r.0.Aligned()
    decreases shapes
  {
    if shapes == [] then (b, [])
    else
      MoveRefines(b, shapes[0]);
      var (c, bytes) := Get(b, shapes[0]);
      var (d, rest) := GetAll(c, shapes[1..]);
      (d, [bytes] + rest)
  }

  /** Fragmentation is transparent to reading. */
  lemma {:induction false} GetAllSame(a: Buffer, b: Buffer, shapes: seq<Shape>)
    requires a.Valid() && a.Aligned() && b.Valid() && b.Aligned() && ValidShapes(shapes) && Same(a, b)
    ensures Same(GetAll(a, shapes).0, GetAll(b, shapes).0) && GetAll(a, shapes).1 == GetAll(b, shapes).1
    decreases shapes
  {
    hide Shape.Valid, Move, Sum, Same;
    if shapes != [] {
      MoveRefines(a, shapes[0]);
      MoveRefines(b, shapes[0]);
      GetSame(a, b, shapes[0]);
      GetAllSame(Get(a, shapes[0]).0, Get(b, shapes[0]).0, shapes[1..]);
    }
  }

  // ---- one slot ----

  /** With no slot to follow, the buffer keeps its bounds. */
  predicate SameSlot(b: Buffer, c: Buffer) {
    c.init == b.init && c.final == b.final && c.spare == b.spare
  }

  lemma {:induction false} MoveLoopSlot(b: Buffer, n: nat)
    requires b.Valid() && b.spare == []
    ensures SameSlot(b, MoveLoop(b, n))
    decreases n
  {
    hide Sum;
    var (c, k) := CheckFinalArray(b, n);
    CheckFinalArrayValid(b, n);
    if k > 0 {
      MoveLoopSlot(Forward(c, k), n - k);
    }
  }

  lemma MoveSlot(b: Buffer, s: Shape)
    requires b.Valid() && b.spare == [] && s.Valid()
    ensures SameSlot(b, Move(b, s))
  {
    hide Sum, MoveLoop, BufferAlignment, Mod;
    if s.kind.Block? {
      BlockStartSlot(b, s.align);
      MoveLoopSlot(AlignBlock(b, s.align), s.len);
    } else if s.align > 1 {
      MoveLoopSlot(b, BufferAlignment(b, s.align));
    }
  }

  lemma BlockStartSlot(b: Buffer, width: nat)
    requires b.Valid() && b.spare == [] && Width(width)
    ensures SameSlot(b, AlignBlock(b, width))
  {
    hide Sum, MoveLoop, BufferAlignment;
    if width > 1 {
      MoveLoopSlot(b, BufferAlignment(b, width));
    }
  }

  lemma PutSlot(b: Buffer, op: Op)
    requires b.Valid() && b.Aligned() && b.spare == [] && op.Valid()
    ensures SameSlot(b, Put(b, op))
  {
    hide Sum, Move, Mod, Write, MoveLoop, AlignBlock;
    MoveSlot(b, op.Shp());
    if op.kind.Block? {
      BlockStartSlot(b, op.align);
      MoveLoopSlot(AlignBlock(b, op.align), |op.content|);
    }
  }

  lemma {:induction false} PutAllSlot(b: Buffer, ops: seq<Op>)
    requires b.Valid() && b.Aligned() && b.spare == [] && ValidOps(ops)
    ensures SameSlot(b, PutAll(b, ops))
    decreases ops
  {
    hide Put, Op.Valid, Sum;
    if ops != [] {
      PutSlot(b, ops[0]);
      PutValid(b, ops[0]);
      PutAllSlot(Put(b, ops[0]), ops[1..]);
    }
  }

  // ---- starting over ----

  /** After a reset calls write as from the start of the slot, whatever was written and whatever failed; in
      the first slot the buffer is as good as new. */
  lemma {:induction false} ResetWrites(b: Buffer, offset: nat, ops: seq<Op>)
    requires b.Valid() && b.init + offset <= b.final && ValidOps(ops)
    ensures var r := Reset(b, offset);
            && r.Valid() && r.Aligned() && (b.init == 0 ==> r == InitBuffer(b.mem, b.final, b.spare, b.origin, offset))
            && var c, n := PutAll(r, ops), Size(ops, b.origin + offset);
               && (!c.error <==> b.init + offset + n <= |b.mem|)
               && (!c.error ==> c.iter == b.init + offset + n && c.offset == b.origin + offset + n
                                && c.mem == Image(ops, b.mem, b.init + offset, b.origin + offset))
  {
    hide Sum, Image, Size, PutAll;
    LastSlot(b);
    PutAllExact(Reset(b, offset), ops);
  }
}
