/** The memory a fragmented buffer lies in: slots at any addresses that do not overlap, used in the order
    the on-full callback hands them out. What is in them, one after the other, is the stream. */
module Slots {
  import opened Bytes
  import opened Cdr

  datatype Slot = Slot(start: nat, size: nat) {
    predicate Contains(at: nat, n: nat) {
      start <= at && at + n <= start + size
    }
  }

  predicate Overlap(a: Slot, b: Slot) {
    0 < a.size && 0 < b.size && a.start < b.start + b.size && b.start < a.start + a.size
  }

  /** The slots lie in a memory of that length, and apart from each other. */
  predicate Apart(slots: seq<Slot>, length: nat) {
    && (forall i | 0 <= i < |slots| :: slots[i].start + slots[i].size <= length)
    && (forall i, j | 0 <= i < j < |slots| :: !Overlap(slots[i], slots[j]))
  }

  /** Where in the stream slot i begins. */
  function Base(slots: seq<Slot>, i: nat): nat
    requires i <= |slots|
  {
    if i == 0 then 0 else Base(slots, i - 1) + slots[i - 1].size
  }

  lemma BaseNext(slots: seq<Slot>, i: nat)
    requires i < |slots|
    ensures Base(slots, i + 1) == Base(slots, i) + slots[i].size
  {
  }

  /** The address of byte k of the stream. */
  function Address(slots: seq<Slot>, n: nat, k: nat): nat
    requires n <= |slots| && k < Base(slots, n)
  {
    if Base(slots, n - 1) <= k then slots[n - 1].start + (k - Base(slots, n - 1))
    else Address(slots, n - 1, k)
  }

  lemma {:induction false} BaseMonotone(slots: seq<Slot>, i: nat, n: nat)
    requires i < n <= |slots|
    ensures Base(slots, i) + slots[i].size <= Base(slots, n)
  {
    if i + 1 < n {
      BaseMonotone(slots, i, n - 1);
    }
  }

  lemma {:induction false} AddressAt(slots: seq<Slot>, n: nat, i: nat, d: nat)
    requires i < n <= |slots| && d < slots[i].size
    ensures Base(slots, i) + d < Base(slots, n) && Address(slots, n, Base(slots, i) + d) == slots[i].start + d
  {
    BaseMonotone(slots, i, n);
    if i + 1 < n {
      BaseMonotone(slots, i, n - 1);
      AddressAt(slots, n - 1, i, d);
    }
  }

  lemma {:induction false} AddressIn(slots: seq<Slot>, n: nat, k: nat) returns (i: nat)
    requires n <= |slots| && k < Base(slots, n)
    ensures i < n && slots[i].Contains(Address(slots, n, k), 1)
    ensures k == Base(slots, i) + (Address(slots, n, k) - slots[i].start)
  {
    if Base(slots, n - 1) <= k {
      i := n - 1;
    } else {
      i := AddressIn(slots, n - 1, k);
    }
  }

  lemma AddressInside(slots: seq<Slot>, length: nat, k: nat)
    requires Apart(slots, length) && k < Base(slots, |slots|)
    ensures Address(slots, |slots|, k) < length
  {
    var i := AddressIn(slots, |slots|, k);
  }

  /** Byte k of the stream. */
  function At(memory: seq<byte>, slots: seq<Slot>, k: nat): byte
    requires Apart(slots, |memory|) && k < Base(slots, |slots|)
  {
    AddressInside(slots, |memory|, k);
    memory[Address(slots, |slots|, k)]
  }

  /** The contents of the slots, one after the other. */
  function Gather(memory: seq<byte>, slots: seq<Slot>): (stream: seq<byte>)
    requires Apart(slots, |memory|)
    ensures |stream| == Base(slots, |slots|)
  {
    seq(Base(slots, |slots|), k requires 0 <= k < Base(slots, |slots|) => At(memory, slots, k))
  }

  /** No slot is at that address. */
  predicate Elsewhere(slots: seq<Slot>, at: nat) {
    forall i | 0 <= i < |slots| :: !slots[i].Contains(at, 1)
  }

  /** The bytes around the slots, by address. */
  datatype Outside = Outside(bytes: map<nat, byte>)

  function Around(memory: seq<byte>, slots: seq<Slot>): Outside {
    Outside(map at: nat | at < |memory| && Elsewhere(slots, at) :: memory[at])
  }

  /** An address in slot i belongs to the stream there and nowhere else. */
  lemma {:induction false} OnePlace(slots: seq<Slot>, length: nat, i: nat, k: nat)
    requires Apart(slots, length) && i < |slots| && k < Base(slots, |slots|)
    requires slots[i].Contains(Address(slots, |slots|, k), 1)
    ensures k == Base(slots, i) + (Address(slots, |slots|, k) - slots[i].start)
  {
    hide Address, Base;
    var j := AddressIn(slots, |slots|, k);
  }

  lemma SlotInside(slots: seq<Slot>, length: nat, i: nat, at: nat, n: nat)
    requires Apart(slots, length) && i < |slots| && slots[i].Contains(at, n)
    ensures at + n <= length
  {
  }

  /** Writing inside one slot writes the stream at that place, and nothing outside the slots. */
  lemma {:induction false} WriteGathered(memory: seq<byte>, slots: seq<Slot>, i: nat, at: nat, bytes: seq<byte>)
    requires Apart(slots, |memory|) && i < |slots| && slots[i].Contains(at, |bytes|)
    ensures at + |bytes| <= |memory|
    ensures Base(slots, i) + (at - slots[i].start) + |bytes| <= Base(slots, |slots|)
    ensures Gather(Write(memory, at, bytes), slots) ==
            Write(Gather(memory, slots), Base(slots, i) + (at - slots[i].start), bytes)
    ensures Around(Write(memory, at, bytes), slots) == Around(memory, slots)
  {
    hide Address, Base, Write, Apart;
    SlotInside(slots, |memory|, i, at, |bytes|);
    BaseMonotone(slots, i, |slots|);
    var pos := Base(slots, i) + (at - slots[i].start);
    var after := Write(memory, at, bytes);
    var before := Gather(memory, slots);
    forall k | 0 <= k < Base(slots, |slots|)
      ensures Gather(after, slots)[k] == Write(before, pos, bytes)[k]
    {
      ByteWritten(memory, slots, i, at, bytes, k);
    }
    OutsideKept(memory, slots, i, at, bytes);
    assert Gather(after, slots) == Write(before, pos, bytes);
  }

  lemma ByteWritten(memory: seq<byte>, slots: seq<Slot>, i: nat, at: nat, bytes: seq<byte>, k: nat)
    requires Apart(slots, |memory|) && i < |slots| && slots[i].Contains(at, |bytes|) && k < Base(slots, |slots|)
    requires at + |bytes| <= |memory| && Base(slots, i) + (at - slots[i].start) + |bytes| <= Base(slots, |slots|)
    ensures var pos := Base(slots, i) + (at - slots[i].start);
            At(Write(memory, at, bytes), slots, k) == Write(Gather(memory, slots), pos, bytes)[k]
  {
    hide Address, Base, Apart;
    hide Write;
    var a := Address(slots, |slots|, k);
    AddressInside(slots, |memory|, k);
    var pos := Base(slots, i) + (at - slots[i].start);
    if pos <= k < pos + |bytes| {
      AddressAt(slots, |slots|, i, k - Base(slots, i));
    } else if slots[i].Contains(a, 1) {
      OnePlace(slots, |memory|, i, k);
    }
    WrittenAt(memory, at, bytes, a);
    WrittenAt(Gather(memory, slots), pos, bytes, k);
  }

  lemma WrittenAt(mem: seq<byte>, at: nat, bytes: seq<byte>, j: nat)
    requires at + |bytes| <= |mem| && j < |mem|
    ensures Write(mem, at, bytes)[j] == if at <= j < at + |bytes| then bytes[j - at] else mem[j]
  {
  }

  lemma OutsideKept(memory: seq<byte>, slots: seq<Slot>, i: nat, at: nat, bytes: seq<byte>)
    requires i < |slots| && slots[i].Contains(at, |bytes|) && at + |bytes| <= |memory|
    ensures Around(Write(memory, at, bytes), slots) == Around(memory, slots)
  {
    forall a: nat | a < |memory| && Elsewhere(slots, a)
      ensures Write(memory, at, bytes)[a] == memory[a]
    {
      WrittenAt(memory, at, bytes, a);
      assert !slots[i].Contains(a, 1);
    }
  }

  /** Reading inside one slot reads the stream at that place. */
  lemma {:induction false} ReadGathered(memory: seq<byte>, slots: seq<Slot>, i: nat, at: nat, n: nat)
    requires Apart(slots, |memory|) && i < |slots| && slots[i].Contains(at, n)
    ensures at + n <= |memory|
    ensures Base(slots, i) + (at - slots[i].start) + n <= Base(slots, |slots|)
    ensures var pos := Base(slots, i) + (at - slots[i].start);
            memory[at..at + n] == Gather(memory, slots)[pos..pos + n]
  {
    hide Address, Base, Apart, Gather;
    SlotInside(slots, |memory|, i, at, n);
    BaseMonotone(slots, i, |slots|);
    var pos := Base(slots, i) + (at - slots[i].start);
    forall a | at <= a < at + n
      ensures memory[a] == Gather(memory, slots)[pos + (a - at)]
    {
      ByteRead(memory, slots, i, a);
    }
    SameRun(memory, at, n, Gather(memory, slots), pos);
  }

  lemma ByteRead(memory: seq<byte>, slots: seq<Slot>, i: nat, at: nat)
    requires Apart(slots, |memory|) && i < |slots| && slots[i].Contains(at, 1)
    ensures at < |memory| && Base(slots, i) + (at - slots[i].start) < Base(slots, |slots|)
    ensures memory[at] == Gather(memory, slots)[Base(slots, i) + (at - slots[i].start)]
  {
    hide Address, Base;
    AddressAt(slots, |slots|, i, at - slots[i].start);
  }

  lemma SameRun(memory: seq<byte>, at: nat, n: nat, stream: seq<byte>, pos: nat)
    requires at + n <= |memory| && pos + n <= |stream|
    requires forall a | at <= a < at + n :: memory[a] == stream[pos + (a - at)]
    ensures memory[at..at + n] == stream[pos..pos + n]
  {
  }

  /** Stream and surroundings determine the memory. */
  lemma {:induction false} Determined(slots: seq<Slot>, a: seq<byte>, b: seq<byte>)
    requires |a| == |b| && Apart(slots, |a|)
    requires Gather(a, slots) == Gather(b, slots) && Around(a, slots) == Around(b, slots)
    ensures a == b
  {
    hide Gather, Apart;
    forall at | 0 <= at < |a|
      ensures a[at] == b[at]
    {
      if Elsewhere(slots, at) {
        assert Around(a, slots).bytes[at] == Around(b, slots).bytes[at];
      } else {
        var i :| 0 <= i < |slots| && slots[i].Contains(at, 1);
        ReadGathered(a, slots, i, at, 1);
        ReadGathered(b, slots, i, at, 1);
        assert a[at..at + 1][0] == b[at..at + 1][0];
      }
    }
  }

  function Sizes(slots: seq<Slot>): (sizes: seq<nat>)
    ensures |sizes| == |slots|
  {
    seq(|slots|, i requires 0 <= i < |slots| => slots[i].size)
  }

  lemma NextSizes(slots: seq<Slot>, i: nat)
    requires i < |slots|
    ensures Sizes(slots[i..]) == [slots[i].size] + Sizes(slots[i + 1..])
  {
  }

  /** One slot at the end of the memory. */
  lemma GatherTail(memory: seq<byte>, start: nat)
    requires start <= |memory|
    ensures var slots := [Slot(start, |memory| - start)];
            Apart(slots, |memory|) && Base(slots, 1) == |memory| - start && Gather(memory, slots) == memory[start..]
  {
    hide Gather;
    var slots := [Slot(start, |memory| - start)];
    ReadGathered(memory, slots, 0, start, |memory| - start);
    assert Base(slots, 1) == |memory| - start && Base(slots, 0) == 0;
  }
}
