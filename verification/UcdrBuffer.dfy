/** The Micro-CDR buffer as the library has it: pointers into memory that every call moves. The slots lie
    apart from each other anywhere in that memory; every copy and every load stays inside one of them. */
module UcdrBuffer {
  import opened Bytes
  import opened Cdr
  import opened MicroCdr
  import opened Slots

  class Ucdr {
    const memory: array<byte>
    /** The slots in the order in which the on-full callback hands them out, the initial one first. */
    const slots: seq<Slot>
    var current: nat
    var init: nat
    var final: nat
    var cursor: nat
    var origin: nat
    var offset: nat
    var lastDataSize: nat
    var error: bool
    /** The buffer seen along its stream, and the bytes of the memory that are in no slot. */
    ghost var stream: Buffer
    ghost var surroundings: Outside

    predicate Laid() {
      Apart(slots, memory.Length) && forall j | 0 < j < |slots| :: SLOT_MIN <= slots[j].size
    }

    /** The pointers stand in the current slot. */
    predicate Pointing()
      reads this
    {
      && current < |slots|
      && init == slots[current].start && final == init + slots[current].size && init <= cursor <= final
    }

    /** Where the pointers stand along the stream. */
    ghost predicate Matching()
      requires current < |slots|
      reads this
    {
      && stream.init == Base(slots, current) && stream.final == stream.init + (final - init)
      && stream.iter == stream.init + (cursor - init) && stream.spare == Sizes(slots[current + 1..])
      && stream.origin == origin && stream.offset == offset && stream.last == lastDataSize && stream.error == error
    }

    ghost predicate Placed()
      reads this, memory
    {
      && Laid() && Pointing() && Matching()
      && stream.mem == Gather(memory[..], slots) && surroundings == Around(memory[..], slots)
    }

    ghost function Abs(): Buffer
      reads this
    {
      stream
    }

    ghost predicate Valid()
      reads this, memory
    {
      Placed() && stream.error == error && stream.Valid() && stream.Aligned()
    }

    lemma StreamValid()
      requires Placed()
      ensures stream.Valid()
    {
      hide Sum, Base, Gather, Around;
      SizesSum(slots, current + 1);
      BaseNext(slots, current);
    }

    lemma MemoryIs()
      requires Placed()
      ensures Apart(slots, memory.Length)
      ensures Gather(memory[..], slots) == Abs().mem && Around(memory[..], slots) == surroundings
    {
    }

    /** What the pointers say about the stream. */
    lemma Seen(n: nat)
      requires Placed()
      ensures stream.Valid() && stream.error == error && stream.offset == offset && Pointing()
      ensures stream.final - stream.iter == final - cursor && (AvailableFor(n) <==> Available(stream, n))
    {
      hide Gather, Base, Laid, Sizes, Buffer.Valid, Around;
      StreamValid();
    }

    constructor InitBufferOriginOffset(memory: array<byte>, slots: seq<Slot>, origin: nat, offset: nat)
      requires slots != [] && offset <= slots[0].size && Apart(slots, memory.Length)
      requires forall j | 0 < j < |slots| :: SLOT_MIN <= slots[j].size
      ensures this.memory == memory && this.slots == slots && Valid()
      ensures Abs() == InitBuffer(Gather(memory[..], slots), slots[0].size, Sizes(slots[1..]), origin, offset)
      ensures surroundings == Around(memory[..], slots)
    {
      this.memory, this.slots, current := memory, slots, 0;
      init, final, cursor := slots[0].start, slots[0].start + slots[0].size, slots[0].start + offset;
      this.origin, this.offset := origin, origin + offset;
      lastDataSize, error := 0, false;
      stream := InitBuffer(Gather(memory[..], slots), slots[0].size, Sizes(slots[1..]), origin, offset);
      surroundings := Around(memory[..], slots);
      new;
      StreamValid();
    }

    /** ucdr_init_buffer on the part of the memory from start on, with no callback. */
    constructor FromStart(memory: array<byte>, start: nat)
      requires start <= memory.Length
      ensures this.memory == memory && slots == [Slot(start, memory.Length - start)] && Valid()
      ensures Abs() == InitBuffer(memory[start..], memory.Length - start, [], 0, 0)
    {
      hide Gather, Around;
      this.memory, this.slots, current := memory, [Slot(start, memory.Length - start)], 0;
      init, final, cursor := start, memory.Length, start;
      origin, offset, lastDataSize, error := 0, 0, 0, false;
      stream := InitBuffer(memory[start..], memory.Length - start, [], 0, 0);
      surroundings := Around(memory[..], [Slot(start, memory.Length - start)]);
      new;
      GatherTail(memory[..], start);
      StreamValid();
    }

    method ResetBufferOffset(offset: nat)
      requires Valid() && init + offset <= final
      modifies this
      ensures Valid() && Abs() == Reset(old(Abs()), offset)
    {
      hide Sum, Gather, Base, Laid, Around, Sizes;
      cursor := init + offset;
      this.offset := origin + offset;
      lastDataSize := 0;
      error := false;
      stream := Reset(stream, offset);
    }

    method AlignTo(size: nat)
      requires Valid() && Width(size)
      modifies this
      ensures Valid() && Abs() == AlignedTo(old(Abs()), size)
    {
      hide Sum, Mask, Mod, Gather, Base, Laid, Around, Sizes, Buffer.Valid;
      var alignment := PaddingFor(size);
      AlignedToAligned(stream, size);
      offset := offset + alignment;
      cursor := cursor + alignment;
      if cursor > final {
        cursor := final;
      }
      lastDataSize := size;
      stream := AlignedTo(stream, size);
    }

    /** ucdr_buffer_alignment */
    function PaddingFor(n: nat): (pad: nat)
      requires Width(n) && Placed()
      reads this, memory
      ensures pad == BufferAlignment(Abs(), n)
    {
      if n > lastDataSize then Mask(n - Mod(offset % 0x1_0000_0000, n), n) else 0
    }

    predicate AvailableFor(bytes: nat)
      reads this
    {
      !error && cursor + bytes <= final
    }

    /** ucdr_buffer_length */
    method Length() returns (n: nat)
      requires Placed()
      ensures Abs().init <= Abs().iter && n == Abs().iter - Abs().init
    {
      hide Gather, Base, Laid, Around, Sizes;
      n := cursor - init;
    }

    /** The error flag set from outside. */
    method Reject()
      requires Valid()
      modifies this
      ensures Valid() && Abs() == old(Abs()).(error := true)
    {
      hide Sum, Gather, Base, Laid, Around, Sizes;
      error := true;
      stream := stream.(error := true);
    }

    // ---- slots ----

    method OnFullBuffer()
      requires Placed() && !error
      modifies this
      ensures Placed() && Abs() == OnFull(old(Abs())) && surroundings == old(surroundings)
      ensures if error then current == old(current) && cursor == old(cursor)
              else current == old(current) + 1 && cursor == init
      ensures offset == old(offset)
    {
      hide Sum, Gather, Laid, Around, Sizes, Base;
      if current + 1 == |slots| {
        error := true;
        stream := OnFull(stream);
      } else {
        NextSizes(slots, current + 1);
        BaseNext(slots, current);
        stream := OnFull(stream);
        assert stream.spare == Sizes(slots[current + 2..]);
        current := current + 1;
        init := slots[current].start;
        cursor := init;
        final := init + slots[current].size;
        error := false;
      }
    }

    method CheckFinalBufferBehavior() returns (ok: bool)
      requires Placed()
      modifies this
      ensures Placed() && Abs() == CheckFinal(old(Abs())) && ok == !error && surroundings == old(surroundings)
      ensures if ok && old(cursor) == old(final) then current == old(current) + 1 && cursor == init
              else current == old(current) && cursor == old(cursor)
      ensures offset == old(offset)
    {
      hide Placed, OnFull;
      Seen(0);
      if !error && cursor >= final {
        OnFullBuffer();
      }
      ok := !error;
    }

    method CheckFinalBufferBehaviorArray(bytes: nat) returns (n: nat)
      requires Placed()
      modifies this
      ensures Placed() && Abs().Valid() && old(Abs()).Valid() && surroundings == old(surroundings)
      ensures (Abs(), n) == CheckFinalArray(old(Abs()), bytes) && n <= bytes && cursor + n <= final
    {
      hide Placed, OnFull, Buffer.Valid;
      Seen(0);
      if !error && cursor >= final && bytes > 0 {
        OnFullBuffer();
      }
      Seen(0);
      n := if error then 0 else if bytes <= final - cursor then bytes else final - cursor;
    }

    // ---- moving inside a slot ----

    method Step(n: nat)
      requires Placed() && cursor + n <= final
      modifies this
      ensures Placed() && Abs() == Forward(old(Abs()), n) && surroundings == old(surroundings)
      ensures cursor == old(cursor) + n && offset == old(offset) + n && error == old(error)
      ensures current == old(current) && init == old(init) && final == old(final)
    {
      hide Gather, Base, Laid, Sizes, Around;
      cursor, offset := cursor + n, offset + n;
      stream := Forward(stream, n);
    }

    method StepBack(n: nat)
      requires Placed() && init + n <= cursor && n <= offset
      modifies this
      ensures Placed() && n <= old(Abs()).iter && n <= old(Abs()).offset && surroundings == old(surroundings)
      ensures Abs() == old(Abs()).(iter := old(Abs()).iter - n, offset := old(Abs()).offset - n)
      ensures error == old(error)
    {
      hide Gather, Base, Laid, Sizes, Around;
      cursor, offset := cursor - n, offset - n;
      stream := stream.(iter := stream.iter - n, offset := stream.offset - n);
    }

    method Remember(width: nat)
      requires Placed()
      modifies this
      ensures Placed() && Abs() == old(Abs()).(last := width) && surroundings == old(surroundings)
      ensures error == old(error)
    {
      hide Gather, Base, Laid, Sizes, Around;
      lastDataSize := width;
      stream := stream.(last := width);
    }

    method AdvanceBuffer(size: nat)
      requires Placed()
      modifies this
      ensures Placed() && old(Abs()).Valid() && Abs() == Advance(old(Abs()), size) && surroundings == old(surroundings)
    {
      hide Placed, MoveLoop, Buffer.Valid;
      Seen(size);
      if AvailableFor(size) {
        Step(size);
      } else {
        AdvanceLoop(size);
      }
      Remember(1);
    }

    method AdvanceLoop(size: nat)
      requires Placed()
      modifies this
      ensures Placed() && old(Abs()).Valid() && Abs() == MoveLoop(old(Abs()), size) && surroundings == old(surroundings)
    {
      hide Placed, MoveLoop, CheckFinalArray, Buffer.Valid, Forward, Pointing, Available, AvailableFor;
      Seen(0);
      ghost var start := stream;
      var remaining := size;
      MoveLoopUnfold(stream, remaining);
      var n := CheckFinalBufferBehaviorArray(remaining);
      while n > 0
        invariant n <= remaining && Placed() && cursor + n <= final && Forward(stream, n).Valid()
        invariant surroundings == old(surroundings)
        invariant MoveLoop(start, size) == if n == 0 then stream else MoveLoop(Forward(stream, n), remaining - n)
        decreases if n > 0 then remaining else 0
      {
        remaining := remaining - n;
        Step(n);
        MoveLoopUnfold(stream, remaining);
        n := CheckFinalBufferBehaviorArray(remaining);
      }
    }

    // ---- memcpy ----

    method Memcpy(at: nat, bytes: seq<byte>)
      requires at + |bytes| <= memory.Length
      modifies memory
      ensures memory[..] == Write(old(memory[..]), at, bytes)
    {
      forall j | 0 <= j < |bytes| {
        memory[at + j] := bytes[j];
      }
      assert memory[..] == Write(old(memory[..]), at, bytes);
    }

    /** A copy into slot i. */
    method CopyIn(ghost i: nat, at: nat, bytes: seq<byte>)
      requires Placed() && i < |slots| && slots[i].Contains(at, |bytes|)
      modifies this`stream, memory
      ensures Placed() && surroundings == old(surroundings)
      ensures var pos := Base(slots, i) + (at - slots[i].start);
              pos + |bytes| <= |old(Abs()).mem| && Abs() == old(Abs()).(mem := Write(old(Abs()).mem, pos, bytes))
    {
      hide Gather, Base, Around, Sizes, Write;
      WriteGathered(memory[..], slots, i, at, bytes);
      Memcpy(at, bytes);
      stream := stream.(mem := Write(stream.mem, Base(slots, i) + (at - slots[i].start), bytes));
    }

    /** A load from slot i. */
    method CopyOut(ghost i: nat, at: nat, n: nat) returns (bytes: seq<byte>)
      requires Placed() && i < |slots| && slots[i].Contains(at, n)
      ensures var pos := Base(slots, i) + (at - slots[i].start);
              pos + n <= |Abs().mem| && bytes == Abs().mem[pos..pos + n]
    {
      hide Gather, Base, Around;
      ReadGathered(memory[..], slots, i, at, n);
      bytes := memory[..][at..at + n];
    }

    /** The pointer's place in its slot. */
    lemma Here(n: nat)
      requires Placed() && cursor + n <= final
      ensures current < |slots| && slots[current].Contains(cursor, n)
      ensures Base(slots, current) + (cursor - slots[current].start) == stream.iter
    {
      hide Gather, Base, Around, Laid, Sizes;
    }

    /** The end of the slot before this one, k bytes before the pointer along the stream. */
    lemma Before(at: nat, k: nat)
      requires Placed() && 0 < current && cursor == init && slots[current - 1].Contains(at, k)
      requires at + k == slots[current - 1].start + slots[current - 1].size
      ensures k <= stream.iter && Base(slots, current - 1) + (at - slots[current - 1].start) == stream.iter - k
    {
      hide Gather, Base, Around, Laid, Sizes;
      BaseNext(slots, current - 1);
    }

    /** A copy to where the pointer stands, which moves behind it. */
    method StoreHere(bytes: seq<byte>)
      requires Placed() && cursor + |bytes| <= final
      modifies this, memory
      ensures Placed() && surroundings == old(surroundings) && error == old(error)
      ensures old(Abs()).iter + |bytes| <= |old(Abs()).mem| && Abs() == Appended(old(Abs()), bytes)
    {
      hide Placed, Write, Base, Slot.Contains;
      Here(|bytes|);
      CopyIn(current, cursor, bytes);
      Step(|bytes|);
    }

    /** A load from where the pointer stands, which moves behind it. */
    method FetchHere(n: nat) returns (bytes: seq<byte>)
      requires Placed() && cursor + n <= final
      modifies this
      ensures Placed() && Abs() == Forward(old(Abs()), n) && error == old(error)
      ensures var b := old(Abs()); b.iter + n <= |b.mem| && bytes == b.mem[b.iter..b.iter + n]
    {
      hide Placed, Base, Slot.Contains;
      Here(n);
      bytes := CopyOut(current, cursor, n);
      Step(n);
    }

    /** The first k bytes go to the end of the slot before, the others to the start of this one. */
    method StoreAcross(firstSlot: nat, value: seq<byte>, k: nat)
      requires Placed() && 0 < current <= |slots| && k <= |value| && cursor == init && cursor + (|value| - k) <= final
      requires slots[current - 1].Contains(firstSlot, k)
      requires firstSlot + k == slots[current - 1].start + slots[current - 1].size
      modifies this, memory
      ensures Placed() && surroundings == old(surroundings) && error == old(error)
      ensures var b := old(Abs());
              && k <= b.iter && b.iter - k + |value| <= |b.mem|
              && Abs() == Forward(b, |value| - k).(mem := Write(b.mem, b.iter - k, value))
    {
      hide Placed, Write, Base, Slot.Contains;
      Before(firstSlot, k);
      ghost var mem, at := stream.mem, stream.iter - k;
      CopyIn(current - 1, firstSlot, value[..k]);
      StoreHere(value[k..]);
      WriteSplit(mem, at, value, k);
    }

    /** The last k bytes of the slot before, then the first n - k of this one. */
    method FetchAcross(firstSlot: nat, n: nat, k: nat) returns (value: seq<byte>)
      requires Placed() && 0 < current <= |slots| && k <= n && cursor == init && cursor + (n - k) <= final
      requires slots[current - 1].Contains(firstSlot, k)
      requires firstSlot + k == slots[current - 1].start + slots[current - 1].size
      modifies this
      ensures Placed() && Abs() == Forward(old(Abs()), n - k) && error == old(error)
      ensures var b := Abs(); n <= b.iter <= |b.mem| && value == b.mem[b.iter - n..b.iter]
    {
      hide Placed, Base, Slot.Contains;
      Before(firstSlot, k);
      ghost var mem, at := stream.mem, stream.iter;
      var first := CopyOut(current - 1, firstSlot, k);
      var second := FetchHere(n - k);
      Adjacent(mem, at - k, at, at + (n - k));
      value := first + second;
    }

    /** The pointer goes to the end of its slot, and into the next one if there is one. */
    method CrossSlot() returns (more: bool)
      requires Placed() && cursor <= final
      modifies this
      ensures Placed() && Abs().Valid() && more == !Abs().error == !error && surroundings == old(surroundings)
      ensures var b := old(Abs()); b.iter <= b.final && Abs() == CheckFinal(Forward(b, b.final - b.iter))
      ensures var k := old(final - cursor);
              if more then
                && 0 < current <= |slots| && cursor == init && cursor + SLOT_MIN <= final
                && slots[current - 1].Contains(old(cursor), k)
                && old(cursor) + k == slots[current - 1].start + slots[current - 1].size
              else init + k <= cursor && k <= offset
    {
      hide Placed, CheckFinal, Buffer.Valid;
      Seen(0);
      Step(final - cursor);
      more := CheckFinalBufferBehavior();
      Seen(0);
      Roomy();
    }

    /** A slot the callback handed out takes any scalar. */
    lemma Roomy()
      requires Placed()
      ensures 0 < current ==> init + SLOT_MIN <= final
    {
      hide Gather, Base, Around, Sizes, Apart;
    }

    // ---- serialize ----

    method SerializeByte(value: byte) returns (ok: bool)
      requires Valid()
      modifies this, memory
      ensures Valid() && Abs() == Put(old(Abs()), Op(Scalar, 1, [value])) && ok == !error
      ensures surroundings == old(surroundings)
    {
      hide Placed, Put, Buffer.Valid, Buffer.Aligned, Appended, CheckFinal;
      PutValid(stream, Op(Scalar, 1, [value]));
      PutByte(stream, value);
      ok := CheckFinalBufferBehavior();
      Seen(1);
      if ok {
        StoreHere([value]);
        Remember(1);
      }
      ok := !error;
      Seen(1);
    }

    method SerializeWord(value: seq<byte>) returns (ok: bool)
      requires Valid() && Width(|value|) && |value| > 1
      modifies this, memory
      ensures Valid() && Abs() == Put(old(Abs()), Op(Scalar, |value|, value)) && ok == !error
      ensures surroundings == old(surroundings)
    {
      hide Placed, Put, Buffer.Valid, Buffer.Aligned, Stored, PlaceWord, Advance, BufferAlignment;
      ScalarShape(|value|);
      PutValid(stream, Op(Scalar, |value|, value));
      PutWord(stream, value);
      Seen(0);
      var alignment := PaddingFor(|value|);
      var last := LastWidth();
      AdvanceBuffer(alignment);
      StoreWord(value, last);
      Seen(0);
      ok := !error;
    }

    method StoreWord(value: seq<byte>, last: nat)
      requires Placed() && Width(|value|)
      modifies this, memory
      ensures Placed() && old(Abs()).Valid() && Abs() == Stored(PlaceWord(old(Abs()), |value|, last), value)
      ensures surroundings == old(surroundings)
    {
      hide Placed, Buffer.Valid, Appended, CheckFinal, Stored, PlaceWord;
      Seen(|value|);
      if AvailableFor(|value|) {
        PlaceFits(stream, value, last);
        StoreHere(value);
        Remember(|value|);
      } else if final > cursor {
        SplitWord(value, last);
      } else {
        PlaceNext(stream, value, last);
        var more := CheckFinalBufferBehavior();
        Seen(|value|);
        if more {
          StoreHere(value);
          Remember(|value|);
        }
      }
    }

    /** The rest of this slot takes the first bytes, the next slot the others. */
    method SplitWord(value: seq<byte>, last: nat)
      requires Placed() && Width(|value|) && cursor < final && !AvailableFor(|value|)
      modifies this, memory
      ensures Placed() && old(Abs()).Valid() && Abs() == Stored(PlaceWord(old(Abs()), |value|, last), value)
      ensures surroundings == old(surroundings)
    {
      hide Placed, Buffer.Valid, CheckFinal, Stored, PlaceWord, Write, Slot.Contains;
      Seen(|value|);
      StoreSplit(stream, value, last);
      var firstSlot, k := cursor, final - cursor;
      var more := CrossSlot();
      if more {
        StoreAcross(firstSlot, value, k);
        Remember(|value|);
      } else {
        StepBack(k);
        Remember(last);
      }
    }

    /** ucdr_array_to_buffer */
    method ArrayToBuffer(bytes: seq<byte>, width: nat)
      requires Placed()
      modifies this, memory
      ensures Placed() && old(Abs()).Valid() && Abs() == PutArray(old(Abs()), bytes, width)
      ensures surroundings == old(surroundings)
    {
      hide Placed, Buffer.Valid, PutArray, StoreAll, Appended;
      Seen(|bytes|);
      if AvailableFor(|bytes|) {
        PutArrayFits(stream, bytes, width);
        StoreHere(bytes);
      } else {
        PutArrayLoops(stream, bytes, width);
        StoreLoop(bytes);
      }
      Remember(width);
    }

    method StoreLoop(bytes: seq<byte>)
      requires Placed()
      modifies this, memory
      ensures Placed() && old(Abs()).Valid() && Abs() == StoreAll(old(Abs()), bytes)
      ensures surroundings == old(surroundings)
    {
      hide Placed, StoreAll, CheckFinalArray, Buffer.Valid, Chunk, Appended;
      Seen(0);
      ghost var start := stream;
      var remaining := bytes;
      StoreAllUnfold(stream, remaining);
      var n: nat := CheckFinalBufferBehaviorArray(|remaining|);
      while n > 0
        invariant n <= |remaining| && Placed() && cursor + n <= final
        invariant surroundings == old(surroundings)
        invariant stream.iter + n <= |stream.mem|
        invariant n > 0 ==> Chunk(stream, remaining, n).Valid()
        invariant StoreAll(start, bytes) ==
                  if n == 0 then stream else StoreAll(Chunk(stream, remaining, n), remaining[n..])
        decreases if n > 0 then |remaining| else 0
      {
        ChunkAppended(stream, remaining, n);
        StoreHere(remaining[..n]);
        remaining := remaining[n..];
        StoreAllUnfold(stream, remaining);
        n := CheckFinalBufferBehaviorArray(|remaining|);
      }
    }

    method SerializeArray(bytes: seq<byte>, width: nat) returns (ok: bool)
      requires Valid() && Width(width) && Mod(|bytes|, width) == 0
      modifies this, memory
      ensures Valid() && Abs() == Put(old(Abs()), Op(Block, width, bytes)) && ok == !error
      ensures surroundings == old(surroundings)
    {
      hide Placed, Put, Buffer.Valid, Buffer.Aligned, AlignBlock, PutArray, Mod;
      PutValid(stream, Op(Block, width, bytes));
      PutBlock(stream, bytes, width);
      AlignForArray(width);
      ArrayToBuffer(bytes, width);
      Seen(0);
      ok := !error;
    }

    /** The padding in front of an array; the last width stays what it was. */
    method AlignForArray(width: nat)
      requires Placed() && Width(width)
      modifies this
      ensures surroundings == old(surroundings)
      ensures Placed() && old(Abs()).Valid() && Abs() == AlignBlock(old(Abs()), width)
    {
      hide Placed, Buffer.Valid, Advance, BufferAlignment;
      Seen(0);
      if width > 1 {
        var alignment := PaddingFor(width);
        var last := LastWidth();
        AdvanceBuffer(alignment);
        Remember(last);
      }
    }

    function LastWidth(): (last: nat)
      requires Placed()
      reads this, memory
      ensures last == Abs().last
    {
      lastDataSize
    }

    // ---- deserialize ----

    method DeserializeByte() returns (ok: bool, value: byte)
      requires Valid()
      modifies this
      ensures Valid() && ok == !error
      ensures var r := Get(old(Abs()), Shape(Scalar, 1, 1)); Abs() == r.0 && (ok ==> [value] == r.1)
    {
      hide Placed, Get, Buffer.Valid, Buffer.Aligned, CheckFinal;
      GetValid(stream, Shape(Scalar, 1, 1));
      GetByte(stream);
      value := 0;
      ok := CheckFinalBufferBehavior();
      Seen(1);
      if ok {
        var bytes := FetchHere(1);
        value := bytes[0];
        Remember(1);
      }
      ok := !error;
      Seen(1);
    }

    method DeserializeWord(n: nat) returns (ok: bool, value: seq<byte>)
      requires Valid() && Width(n) && n > 1
      modifies this
      ensures Valid() && ok == !error
      ensures var r := Get(old(Abs()), Shape(Scalar, n, n)); Abs() == r.0 && (ok ==> value == r.1)
    {
      hide Placed, Get, Buffer.Valid, Buffer.Aligned, PlaceWord, Advance, BufferAlignment;
      ScalarShape(n);
      GetValid(stream, Shape(Scalar, n, n));
      GetWord(stream, n);
      Seen(0);
      var alignment := PaddingFor(n);
      var last := LastWidth();
      AdvanceBuffer(alignment);
      value := LoadWord(n, last);
      Seen(0);
      ok := !error;
    }

    method LoadWord(n: nat, last: nat) returns (value: seq<byte>)
      requires Placed() && Width(n)
      modifies this
      ensures Placed() && old(Abs()).Valid() && Abs() == PlaceWord(old(Abs()), n, last)
      ensures var b := Abs(); !error ==> n <= b.iter <= |b.mem| && value == b.mem[b.iter - n..b.iter]
    {
      hide Placed, Buffer.Valid, CheckFinal, PlaceWord;
      Seen(n);
      value := [];
      if AvailableFor(n) {
        PlaceHere(stream, n, last);
        value := FetchHere(n);
        Remember(n);
      } else if final > cursor {
        value := LoadSplitWord(n, last);
      } else {
        PlaceAfter(stream, n, last);
        var more := CheckFinalBufferBehavior();
        Seen(n);
        if more {
          value := FetchHere(n);
          Remember(n);
        }
      }
    }

    method LoadSplitWord(n: nat, last: nat) returns (value: seq<byte>)
      requires Placed() && Width(n) && cursor < final && !AvailableFor(n)
      modifies this
      ensures Placed() && old(Abs()).Valid() && Abs() == PlaceWord(old(Abs()), n, last)
      ensures var b := Abs(); !error ==> n <= b.iter <= |b.mem| && value == b.mem[b.iter - n..b.iter]
    {
      hide Placed, Buffer.Valid, CheckFinal, PlaceWord, Slot.Contains;
      Seen(n);
      PlaceSplit(stream, n, last);
      value := [];
      var firstSlot, k := cursor, final - cursor;
      var more := CrossSlot();
      if more {
        value := FetchAcross(firstSlot, n, k);
        Remember(n);
      } else {
        StepBack(k);
        Remember(last);
      }
    }

    /** ucdr_buffer_to_array */
    method BufferToArray(len: nat, width: nat) returns (bytes: seq<byte>)
      requires Placed()
      modifies this
      ensures Placed() && old(Abs()).Valid() && Abs() == MoveArray(old(Abs()), len, width)
      ensures Read(old(Abs()), Abs(), bytes)
    {
      hide Placed, Buffer.Valid, MoveLoop;
      Seen(len);
      if AvailableFor(len) {
        NothingRead(stream);
        MoreRead(stream, stream, [], stream.mem[stream.iter..stream.iter], 0);
        ghost var before := stream;
        bytes := FetchHere(len);
        MoreRead(before, before, [], bytes, len);
        assert [] + bytes == bytes;
      } else {
        bytes := LoadLoop(len);
      }
      Remember(width);
    }

    method LoadLoop(len: nat) returns (bytes: seq<byte>)
      requires Placed()
      modifies this
      ensures Placed() && old(Abs()).Valid() && Abs() == MoveLoop(old(Abs()), len)
      ensures Read(old(Abs()), Abs(), bytes)
    {
      hide Placed, MoveLoop, CheckFinalArray, Buffer.Valid, Read, Forward, Pointing, Available, AvailableFor;
      Seen(0);
      ghost var start := stream;
      var remaining := len;
      bytes := [];
      MoveLoopUnfold(stream, remaining);
      NothingRead(stream);
      var n := CheckFinalBufferBehaviorArray(remaining);
      SameRead(start, start, stream, bytes, len);
      while n > 0
        invariant n <= remaining && Placed() && cursor + n <= final && Forward(stream, n).Valid()
        invariant MoveLoop(start, len) == if n == 0 then stream else MoveLoop(Forward(stream, n), remaining - n)
        invariant Read(start, stream, bytes)
        decreases if n > 0 then remaining else 0
      {
        ghost var before := stream;
        var part := FetchHere(n);
        MoreRead(start, before, bytes, part, n);
        bytes := bytes + part;
        remaining := remaining - n;
        ghost var after := stream;
        MoveLoopUnfold(stream, remaining);
        n := CheckFinalBufferBehaviorArray(remaining);
        SameRead(start, after, stream, bytes, remaining);
      }
    }

    method DeserializeArray(len: nat, width: nat) returns (ok: bool, bytes: seq<byte>)
      requires Valid() && Width(width) && Mod(len, width) == 0
      modifies this
      ensures Valid() && ok == !error
      ensures var r := Get(old(Abs()), Shape(Block, width, len)); Abs() == r.0 && (ok ==> bytes == r.1)
    {
      hide Placed, Get, Buffer.Valid, Buffer.Aligned, AlignBlock, MoveArray, Mod;
      GetValid(stream, Shape(Block, width, len));
      BlockReads(stream, width, len);
      AlignForArray(width);
      bytes := BufferToArray(len, width);
      Seen(0);
      ok := !error;
    }
  }

  /** A one-byte, a wider and an array write in terms of the steps they take. */
  lemma PutWord(b: Buffer, value: seq<byte>)
    requires b.Valid() && b.Aligned() && Width(|value|) && |value| > 1 && Op(Scalar, |value|, value).Valid()
    ensures Put(b, Op(Scalar, |value|, value)) ==
            Stored(PlaceWord(Advance(b, BufferAlignment(b, |value|)), |value|, b.last), value)
  {
    hide Sum, Write, Advance, BufferAlignment, Mod, PlaceWord;
    AdvanceRefines(b, BufferAlignment(b, |value|));
    PlainBounds(b, Shape(Scalar, |value|, |value|));
  }

  lemma PutBlock(b: Buffer, bytes: seq<byte>, width: nat)
    requires b.Valid() && b.Aligned() && Width(width) && Op(Block, width, bytes).Valid()
    ensures AlignBlock(b, width).Valid()
    ensures Put(b, Op(Block, width, bytes)) == PutArray(AlignBlock(b, width), bytes, width)
  {
    hide Sum, Write, AlignBlock, Mod, PutArray;
  }

  lemma GetWord(b: Buffer, n: nat)
    requires b.Valid() && b.Aligned() && Width(n) && n > 1 && Shape(Scalar, n, n).Valid()
    ensures var m := PlaceWord(Advance(b, BufferAlignment(b, n)), n, b.last);
            && Get(b, Shape(Scalar, n, n)).0 == m
            && (!m.error ==> n <= m.iter <= |m.mem| && Get(b, Shape(Scalar, n, n)).1 == m.mem[m.iter - n..m.iter])
  {
    hide Sum, Advance, BufferAlignment, Mod, PlaceWord;
    MoveRefines(b, Shape(Scalar, n, n));
    PlainBounds(b, Shape(Scalar, n, n));
  }

  /** bytes are what b has read since start. */
  predicate Read(start: Buffer, b: Buffer, bytes: seq<byte>) {
    b.mem == start.mem && start.iter <= b.iter <= |b.mem| && bytes == b.mem[start.iter..b.iter]
  }

  lemma NothingRead(b: Buffer)
    requires b.Valid()
    ensures Read(b, b, [])
  {
    CursorBound(b);
  }

  lemma MoreRead(start: Buffer, b: Buffer, bytes: seq<byte>, part: seq<byte>, n: nat)
    requires Read(start, b, bytes) && b.iter + n <= |b.mem| && part == b.mem[b.iter..b.iter + n]
    ensures Read(start, Forward(b, n), bytes + part)
  {
    Adjacent(b.mem, start.iter, b.iter, b.iter + n);
  }

  /** Asking for a slot reads nothing. */
  lemma SameRead(start: Buffer, b: Buffer, c: Buffer, bytes: seq<byte>, n: nat)
    requires b.Valid() && Read(start, b, bytes) && c == CheckFinalArray(b, n).0
    ensures Read(start, c, bytes)
  {
    hide CheckFinalArray, Buffer.Valid;
    TurnRefines(b, n);
  }

  /** The bytes written where the cursor stands, and stepped over. */
  function Appended(b: Buffer, bytes: seq<byte>): Buffer
    requires b.iter + |bytes| <= |b.mem|
  {
    Forward(b, |bytes|).(mem := Write(b.mem, b.iter, bytes))
  }

  lemma ChunkAppended(b: Buffer, bytes: seq<byte>, n: nat)
    requires n <= |bytes| && b.iter + n <= |b.mem|
    ensures Chunk(b, bytes, n) == Appended(b, bytes[..n])
  {
    hide Write;
  }

  /** A scalar that fits in its slot. */
  lemma PlaceFits(b: Buffer, value: seq<byte>, last: nat)
    requires b.Valid() && Width(|value|) && Available(b, |value|)
    ensures b.iter + |value| <= |b.mem|
    ensures Stored(PlaceWord(b, |value|, last), value) == Appended(b, value).(last := |value|)
  {
    hide Sum, Write;
    NextSlot(b);
  }

  lemma PlaceHere(b: Buffer, n: nat, last: nat)
    requires b.Valid() && Width(n) && Available(b, n)
    ensures b.iter + n <= |b.mem| && PlaceWord(b, n, last) == Forward(b, n).(last := n)
  {
    hide Sum;
    NextSlot(b);
  }

  /** A scalar at the end of its slot, which starts the next one. */
  lemma PlaceNext(b: Buffer, value: seq<byte>, last: nat)
    requires b.Valid() && Width(|value|) && b.iter == b.final && !Available(b, |value|)
    ensures var d := CheckFinal(b);
            && (!d.error ==> d.iter + |value| <= d.final <= |d.mem|)
            && Stored(PlaceWord(b, |value|, last), value) ==
               if d.error then d else Appended(d, value).(last := |value|)
  {
    hide Sum, Write, PlaceWord, CheckFinal;
    PlaceAfter(b, |value|, last);
  }

  lemma PlaceAfter(b: Buffer, n: nat, last: nat)
    requires b.Valid() && Width(n) && b.iter == b.final && !Available(b, n)
    ensures var d := CheckFinal(b);
            && d.mem == b.mem && (!d.error ==> d.iter + n <= d.final <= |d.mem|)
            && PlaceWord(b, n, last) == if d.error then d else Forward(d, n).(last := n)
  {
    hide Sum, OnFull;
    if !b.error {
      NextSlot(b);
      if !OnFull(b).error {
        NextSlot(OnFull(b));
      }
    }
  }

  lemma StoreSplit(b: Buffer, value: seq<byte>, last: nat)
    requires b.Valid() && Width(|value|) && b.iter < b.final && !Available(b, |value|)
    ensures var k := b.final - b.iter;
            var d := CheckFinal(Forward(b, k));
            && (!d.error ==> k <= |value| && b.iter + |value| <= |b.mem|)
            && d.iter == b.iter + k && d.offset == b.offset + k && d.mem == b.mem
            && Stored(PlaceWord(b, |value|, last), value) ==
               if d.error then d.(iter := b.iter, offset := b.offset, last := last)
               else Forward(d, |value| - k).(mem := Write(b.mem, b.iter, value), last := |value|)
  {
    hide Sum, Write, PlaceWord, CheckFinal;
    PlaceSplit(b, |value|, last);
  }

  lemma PutArrayFits(b: Buffer, bytes: seq<byte>, width: nat)
    requires b.Valid() && Available(b, |bytes|)
    ensures b.iter + |bytes| <= |b.mem| && PutArray(b, bytes, width) == Appended(b, bytes).(last := width)
  {
    hide Sum, Write, MoveLoop;
    NextSlot(b);
    assert bytes[..|bytes|] == bytes;
  }

  lemma PutArrayLoops(b: Buffer, bytes: seq<byte>, width: nat)
    requires b.Valid() && !Available(b, |bytes|)
    ensures PutArray(b, bytes, width) == StoreAll(b, bytes).(last := width)
  {
    hide Sum, Write, MoveLoop, StoreAll;
    StoreAllIs(b, bytes);
  }

  /** What a one-byte write comes to. */
  lemma PutByte(b: Buffer, value: byte)
    requires b.Valid() && b.Aligned()
    ensures var c := CheckFinal(b);
            && (!c.error ==> c.iter < c.final <= |c.mem|)
            && Put(b, Op(Scalar, 1, [value])) ==
               if c.error then c else Appended(c, [value]).(last := 1)
  {
    hide Sum, Write, OnFull;
    PlainBounds(b, Shape(Scalar, 1, 1));
    RoomForByte(b);
  }

  lemma GetByte(b: Buffer)
    requires b.Valid() && b.Aligned()
    ensures var c := CheckFinal(b);
            && (!c.error ==> c.iter < c.final <= |c.mem|)
            && Get(b, Shape(Scalar, 1, 1)) ==
               if c.error then (c, []) else (Forward(c, 1).(last := 1), c.mem[c.iter..c.iter + 1])
  {
    hide Sum, OnFull;
    PlainBounds(b, Shape(Scalar, 1, 1));
    RoomForByte(b);
  }

  lemma RoomForByte(b: Buffer)
    requires b.Valid()
    ensures var c := CheckFinal(b);
            c.mem == b.mem && (!c.error ==> c.iter < c.final <= |c.mem|)
  {
    hide Sum, OnFull;
    if !b.error {
      NextSlot(b);
      if b.iter == b.final && !OnFull(b).error {
        NextSlot(OnFull(b));
      }
    }
  }

  /** Slots from i on fill the stream up to its end. */
  lemma {:induction false} SizesSum(slots: seq<Slot>, i: nat)
    requires i <= |slots|
    ensures Base(slots, i) + Sum(Sizes(slots[i..])) == Base(slots, |slots|)
    decreases |slots| - i
  {
    if i < |slots| {
      SizesSum(slots, i + 1);
      NextSizes(slots, i);
      assert Sizes(slots[i..])[1..] == Sizes(slots[i + 1..]);
    }
  }

  /** A scalar that meets the end of its slot. */
  lemma PlaceSplit(b: Buffer, n: nat, last: nat)
    requires b.Valid() && Width(n) && b.iter < b.final && !Available(b, n)
    ensures var k := b.final - b.iter;
            var d := CheckFinal(Forward(b, k));
            && (d.error <==> b.error || b.spare == []) && (!d.error ==> k < n)
            && d.iter == b.iter + k && d.offset == b.offset + k && d.mem == b.mem
            && (!d.error ==> b.iter + n <= |b.mem|)
            && PlaceWord(b, n, last) == if d.error then d.(iter := b.iter, offset := b.offset, last := last)
                                        else Forward(d, n - k).(last := n)
  {
    hide Sum;
    LastSlot(b);
    if !b.error {
      NextSlot(Forward(b, b.final - b.iter));
      if b.spare != [] {
        SlotFollows(b);
      }
    }
  }

  lemma SlotFollows(b: Buffer)
    requires b.Valid() && b.spare != []
    ensures b.final + SLOT_MIN <= |b.mem|
  {
  }

  /** The bytes behind the cursor, once it has moved past their place. */
  function Stored(m: Buffer, value: seq<byte>): Buffer {
    if m.error || m.iter < |value| || m.iter > |m.mem| then m
    else m.(mem := Write(m.mem, m.iter - |value|, value))
  }
  // ---- loops ----

  /** n bytes copied and stepped over. */
  function Chunk(b: Buffer, bytes: seq<byte>, n: nat): Buffer
    requires n <= |bytes| && b.iter + n <= |b.mem|
  {
    Forward(b, n).(mem := Write(b.mem, b.iter, bytes[..n]))
  }

  /** The copy loop of the array functions. */
  function StoreAll(b: Buffer, bytes: seq<byte>): Buffer
    requires b.Valid()
    decreases |bytes|
  {
    var (c, n) := CheckFinalArray(b, |bytes|);
    TurnRefines(b, |bytes|);
    if n == 0 then c else StoreAll(Chunk(c, bytes, n), bytes[n..])
  }

  lemma StoreAllUnfold(b: Buffer, bytes: seq<byte>)
    requires b.Valid()
    ensures var (c, n) := CheckFinalArray(b, |bytes|);
            && c.Valid() && n <= |bytes| && c.iter + n <= |c.mem|
            && Chunk(c, bytes, n).Valid()
            && StoreAll(b, bytes) == if n == 0 then c else StoreAll(Chunk(c, bytes, n), bytes[n..])
  {
    hide Sum, Write, CheckFinalArray;
    TurnRefines(b, |bytes|);
  }

  /** The loop writes the bytes in one piece as far as they fit. */
  lemma {:induction false} StoreAllIs(b: Buffer, bytes: seq<byte>)
    requires b.Valid()
    ensures var m := MoveLoop(b, |bytes|);
            && b.iter <= m.iter <= b.iter + |bytes| && m.iter <= |b.mem|
            && StoreAll(b, bytes) == m.(mem := Write(b.mem, b.iter, bytes[..m.iter - b.iter]))
    decreases |bytes|
  {
    hide Sum, Write, CheckFinalArray, MoveLoop, StoreAll, Reach, Buffer.Valid;
    var (c, n) := CheckFinalArray(b, |bytes|);
    TurnRefines(b, |bytes|);
    MoveLoopUnfold(b, |bytes|);
    StoreAllUnfold(b, bytes);
    if n == 0 {
      WriteNothing(b.mem, b.iter, bytes);
      assert MoveLoop(b, |bytes|) == c && StoreAll(b, bytes) == c;
      assert c == c.(mem := b.mem);
    } else {
      var d := Chunk(c, bytes, n);
      StoreAllIs(d, bytes[n..]);
      MoveLoopMemory(Forward(c, n), d, |bytes| - n);
      var k := MoveLoop(Forward(c, n), |bytes| - n).iter - b.iter;
      ChunkWrites(b.mem, b.iter, bytes, n, k);
    }
  }

  lemma ChunkWrites(mem: seq<byte>, at: nat, bytes: seq<byte>, n: nat, k: nat)
    requires n <= k <= |bytes| && at + k <= |mem|
    ensures Write(Write(mem, at, bytes[..n]), at + n, bytes[n..][..k - n]) == Write(mem, at, bytes[..k])
  {
    hide Write;
    WriteSplit(mem, at, bytes[..k], n);
    assert bytes[..k][..n] == bytes[..n] && bytes[..k][n..] == bytes[n..][..k - n];
  }

  /** Where the cursor goes does not depend on what is in memory. */
  lemma {:induction false} MoveLoopMemory(b: Buffer, d: Buffer, n: nat)
    requires b.Valid() && |d.mem| == |b.mem| && d == b.(mem := d.mem)
    ensures d.Valid() && MoveLoop(d, n) == MoveLoop(b, n).(mem := d.mem)
    decreases n
  {
    hide Sum, CheckFinalArray, MoveLoop, Buffer.Valid;
    MemoryValid(b, d);
    var (c, k) := CheckFinalArray(b, n);
    TurnMemory(b, d, n);
    MoveLoopUnfold(b, n);
    MoveLoopUnfold(d, n);
    if k > 0 {
      MoveLoopMemory(Forward(c, k), Forward(c, k).(mem := d.mem), n - k);
    }
  }

  lemma MemoryValid(b: Buffer, d: Buffer)
    requires b.Valid() && |d.mem| == |b.mem| && d == b.(mem := d.mem)
    ensures d.Valid()
  {
  }

  lemma TurnMemory(b: Buffer, d: Buffer, n: nat)
    requires b.Valid() && d.Valid() && d == b.(mem := d.mem)
    ensures var (c, k) := CheckFinalArray(b, n);
            && CheckFinalArray(d, n) == (c.(mem := d.mem), k) && c.mem == b.mem
  {
    hide Sum, Buffer.Valid;
  }

  lemma WriteNothing(mem: seq<byte>, at: nat, bytes: seq<byte>)
    requires at <= |mem|
    ensures Write(mem, at, bytes[..0]) == mem
  {
  }

  lemma Adjacent(mem: seq<byte>, a: nat, b: nat, c: nat)
    requires a <= b <= c <= |mem|
    ensures mem[a..b] + mem[b..c] == mem[a..c]
  {
  }

  lemma CursorBound(b: Buffer)
    requires b.Valid()
    ensures b.iter <= |b.mem|
  {
  }

  lemma GetValid(b: Buffer, s: Shape)
    requires b.Valid() && b.Aligned() && s.Valid()
    ensures Get(b, s).0.Valid() && Get(b, s).0.Aligned()
  {
    hide Move, Sum, Mod;
    MoveRefines(b, s);
  }

  /** What a block read returns lies between where the block starts and where the cursor ends. */
  lemma BlockReads(b: Buffer, width: nat, len: nat)
    requires b.Valid() && b.Aligned() && Shape(Block, width, len).Valid()
    ensures var m := MoveArray(AlignBlock(b, width), len, width);
            && Get(b, Shape(Block, width, len)).0 == m && m.mem == b.mem
            && (!m.error ==> len <= m.iter <= |b.mem| && AlignBlock(b, width).iter == m.iter - len
                             && Get(b, Shape(Block, width, len)).1 == b.mem[m.iter - len..m.iter])
  {
    hide MoveArray, AlignBlock, Sum, Mod, Pad;
    BlockStart(b, width);
    BlockRefines(b, width, len);
  }

  /** Two copies into adjacent places are one copy. */
  lemma WriteSplit(mem: seq<byte>, at: nat, bytes: seq<byte>, k: nat)
    requires at + |bytes| <= |mem| && k <= |bytes|
    ensures Write(Write(mem, at, bytes[..k]), at + k, bytes[k..]) == Write(mem, at, bytes)
  {
  }

  lemma MoveLoopUnfold(b: Buffer, remaining: nat)
    requires b.Valid()
    ensures var (c, n) := CheckFinalArray(b, remaining);
            && c.Valid() && Forward(c, n).Valid()
            && MoveLoop(b, remaining) == if n == 0 then c else MoveLoop(Forward(c, n), remaining - n)
  {
    hide Sum;
    CheckFinalArrayValid(b, remaining);
  }

  // ---- fragmentation ----

  /** Calls that took a buffer over slots anywhere in a memory from before to after left in the slots, one
      after the other, what one plain buffer of the same size would hold, and ended at the same place; and
      there is only one such memory. */
  lemma {:induction false} FragmentationTransparent(slots: seq<Slot>, before: seq<byte>, after: seq<byte>, a: Buffer,
                                                    plain: Buffer, ops: seq<Op>)
    requires |before| == |after| && Apart(slots, |before|) && a.mem == Gather(before, slots)
    requires a.Valid() && a.Aligned() && plain.Valid() && plain.Aligned() && plain.spare == [] && Same(a, plain)
    requires ValidOps(ops)
    requires Gather(after, slots) == PutAll(a, ops).mem && Around(after, slots) == Around(before, slots)
    ensures Gather(after, slots) == PutAll(plain, ops).mem && View(PutAll(a, ops)) == View(PutAll(plain, ops))
    ensures forall other: seq<byte> | |other| == |before| && Around(other, slots) == Around(before, slots) &&
              Gather(other, slots) == PutAll(plain, ops).mem :: other == after
  {
    hide Gather, Around, Buffer.Valid, Buffer.Aligned, Op.Valid, PutAll, Apart;
    PutAllSame(a, plain, ops);
    forall other: seq<byte> | |other| == |before| && Around(other, slots) == Around(before, slots) &&
        Gather(other, slots) == PutAll(plain, ops).mem
      ensures other == after
    {
      Determined(slots, other, after);
    }
  }

  // ---- any calls at all ----

  /** ucdr_align_to */
  function AlignedTo(b: Buffer, n: nat): Buffer
    requires Width(n)
  {
    var a := BufferAlignment(b, n);
    b.(offset := b.offset + a, iter := if b.iter + a > b.final then b.final else b.iter + a, last := n)
  }

  lemma AlignedToAligned(b: Buffer, n: nat)
    requires b.Valid() && b.Aligned() && Width(n)
    ensures AlignedTo(b, n).Valid() && AlignedTo(b, n).Aligned()
  {
    hide Sum, BufferAlignment, Mask;
    if !b.error {
      ShortcutSound(b, n);
    }
  }

  /** Aligning writes nothing and brings the offset to the next multiple; the cursor follows iff the padding
      fits in the slot, and stops at its end otherwise. */
  lemma {:induction false} AlignExact(b: Buffer, n: nat)
    requires b.Valid() && b.Aligned() && !b.error && Width(n)
    ensures var r, pad := AlignedTo(b, n), Pad(b.offset, n);
            && r.mem == b.mem && !r.error && r.offset == b.offset + pad && Pad(r.offset, n) == 0
            && r.iter == (if b.iter + pad <= b.final then b.iter + pad else b.final)
            && r.init == b.init && r.final == b.final && r.spare == b.spare && r.origin == b.origin
  {
    hide Sum, BufferAlignment, Mask, Mod;
    ShortcutSound(b, n);
  }

  /** What a program can do with a buffer. Transfer is a serialize or deserialize call; Reject is the
      sequence length check that sets the error flag by itself. */
  datatype Call =
    | ResetTo(offset: nat)
    | AlignTo(n: nat)
    | AdvanceBy(size: nat)
    | Transfer(shape: Shape)
    | Reject
  {
    predicate Legal(b: Buffer) {
      match this
      case ResetTo(offset) => b.init + offset <= b.final
      case AlignTo(n) => Width(n)
      case AdvanceBy(_) => true
      case Transfer(shape) => shape.Valid()
      case Reject => true
    }
  }

  function Perform(b: Buffer, call: Call): Buffer
    requires b.Valid() && call.Legal(b)
  {
    match call
    case ResetTo(offset) => Reset(b, offset)
    case AlignTo(n) => AlignedTo(b, n)
    case AdvanceBy(size) => Advance(b, size)
    case Transfer(shape) => Move(b, shape)
    case Reject => b.(error := true)
  }

  lemma PerformAligned(b: Buffer, call: Call)
    requires b.Valid() && b.Aligned() && call.Legal(b)
    ensures Perform(b, call).Valid() && Perform(b, call).Aligned()
  {
    hide Sum, Move, AlignedTo, Advance;
    match call
    case ResetTo(_) =>
    case AlignTo(n) => AlignedToAligned(b, n);
    case AdvanceBy(size) => AdvanceRefines(b, size);
    case Transfer(shape) => MoveRefines(b, shape);
    case Reject =>
  }

  /** A state some sequence of legal calls leads to from b. */
  predicate Leads(b: Buffer, calls: seq<Call>, c: Buffer)
    requires b.Valid() && b.Aligned()
    decreases calls
  {
    if calls == [] then c == b
    else
      calls[0].Legal(b) &&
      (PerformAligned(b, calls[0]);
       Leads(Perform(b, calls[0]), calls[1..], c))
  }

  /** On every buffer a program can get to, unless it is in the error state, the alignment shortcut
      agrees with the plain formula. */
  lemma {:induction false} ShortcutAlwaysSound(b: Buffer, calls: seq<Call>, c: Buffer, n: nat)
    requires b.Valid() && b.Aligned() && Leads(b, calls, c) && Width(n)
    ensures !c.error ==> BufferAlignment(c, n) == Alignment(c.offset, n)
    decreases calls
  {
    hide Buffer.Valid, Buffer.Aligned, Perform, BufferAlignment, Alignment;
    if calls == [] {
      if !c.error {
        ShortcutSound(c, n);
      }
    } else {
      PerformAligned(b, calls[0]);
      ShortcutAlwaysSound(Perform(b, calls[0]), calls[1..], c, n);
    }
  }

  lemma InitAligned(mem: seq<byte>, slot: nat, spare: seq<nat>, origin: nat, offset: nat)
    requires offset <= slot && slot + Sum(spare) == |mem|
    requires forall j | 0 <= j < |spare| :: SLOT_MIN <= spare[j]
    ensures InitBuffer(mem, slot, spare, origin, offset).Valid()
    ensures InitBuffer(mem, slot, spare, origin, offset).Aligned()
  {
  }
}
