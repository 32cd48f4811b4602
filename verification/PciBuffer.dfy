/**
 Buffer access to the configuration space of one PCI function, which takes only naturally
 aligned 8-, 16- and 32-bit cycles: the read and write loops, the cycles they put on the
 bus, and why no shorter series of cycles exists.
 */
module PciBuffer {
  import opened Bytes

  const CONFIG_SIZE := 0x1000

  datatype Cycle = Cycle(at: nat, width: nat)

  // ----- values on the bus -----

  function Pow256(n: nat): (r: nat)
    ensures r > 0
  {
    if n == 0 then 1 else 256 * Pow256(n - 1)
  }

  /** Little-endian value of a few bytes. */
  function Value(s: seq<byte>): (v: nat)
    ensures v < Pow256(|s|)
  {
    if s == [] then 0 else s[0] as nat + 256 * Value(s[1..])
  }

  function LeBytes(v: nat, width: nat): (s: seq<byte>)
    ensures |s| == width
    decreases width
  {
    if width == 0 then [] else [(v % 256) as byte] + LeBytes(v / 256, width - 1)
  }

  lemma {:induction false} BytesOfValue(s: seq<byte>)
    ensures LeBytes(Value(s), |s|) == s
  {
    if s != [] {
      BytesOfValue(s[1..]);
      LowByte(s[0], Value(s[1..]));
    }
  }

  lemma LowByte(b: byte, v: nat)
    ensures (b as nat + 256 * v) % 256 == b as nat && (b as nat + 256 * v) / 256 == v
  {
  }

  // ----- which cycles -----

  /** The cycles the bus knows, each at an address that is a multiple of its width. */
  predicate Natural(a: nat, width: nat) {
    width == 1 || (width == 2 && a % 2 == 0) || (width == 4 && a % 4 == 0)
  }

  /** A series of cycles that covers n bytes from a on, in order, without gaps, each naturally aligned. */
  predicate Tiles(cycles: seq<Cycle>, a: nat, n: nat)
    decreases |cycles|
  {
    if cycles == [] then n == 0
    else
      var c := cycles[0];
      c.at == a && Natural(a, c.width) && c.width <= n
      && Tiles(cycles[1..], a + c.width, n - c.width)
  }

  /** The widest cycle that is aligned at a and stays within n bytes. */
  function Widest(a: nat, n: nat): (w: nat)
    requires n > 0
    ensures 1 <= w <= n && Natural(a, w)
  {
    if a % 4 == 0 && n >= 4 then 4 else if a % 2 == 0 && n >= 2 then 2 else 1
  }

  function Plan(a: nat, n: nat): seq<Cycle>
    decreases n
  {
    if n == 0 then [] else
      var w := Widest(a, n);
      [Cycle(a, w)] + Plan(a + w, n - w)
  }

  lemma {:induction false} PlanTiles(a: nat, n: nat)
    ensures Tiles(Plan(a, n), a, n)
    decreases n
  {
    if n > 0 {
      PlanTiles(a + Widest(a, n), n - Widest(a, n));
    }
  }

  /** How many cycles touch a byte. */
  function Touches(cycles: seq<Cycle>, x: nat): nat {
    if cycles == [] then 0
    else (if cycles[0].at <= x < cycles[0].at + cycles[0].width then 1 else 0) + Touches(cycles[1..], x)
  }

  /** A tiling touches every byte of its range once and no other byte. */
  lemma {:induction false} TouchedOnce(cycles: seq<Cycle>, a: nat, n: nat, x: nat)
    requires Tiles(cycles, a, n)
    ensures Touches(cycles, x) == if a <= x < a + n then 1 else 0
    decreases |cycles|
  {
    if cycles != [] {
      TouchedOnce(cycles[1..], a + cycles[0].width, n - cycles[0].width, x);
    }
  }

  /** A tiling that starts at an aligned block it does not take in one cycle reaches the end of the block after at least
      two. */
  lemma LeavesBlock(cycles: seq<Cycle>, a: nat, n: nat) returns (k: nat)
    requires Tiles(cycles, a, n) && n > 0
    requires cycles[0].width < Widest(a, n)
    ensures 2 <= k <= |cycles| && Tiles(cycles[k..], a + Widest(a, n), n - Widest(a, n))
  {
    var w := Widest(a, n);
    var rest := cycles[1..];
    assert Tiles(rest, a + cycles[0].width, n - cycles[0].width);
    if cycles[0].width + rest[0].width == w {
      k := 2;
      assert rest[1..] == cycles[2..];
    } else {
      var rest2 := rest[1..];
      assert Tiles(rest2, a + cycles[0].width + rest[0].width, n - cycles[0].width - rest[0].width);
      if cycles[0].width + rest[0].width + rest2[0].width == w {
        k := 3;
        assert rest2[1..] == cycles[3..];
      } else {
        k := 4;
        assert Tiles(rest2[1..], a + 3, n - 3);
        assert rest2[1..][1..] == cycles[4..];
      }
    }
  }

  predicate Bit0(a: nat) { a % 2 != 0 }

  predicate Bit1(a: nat) { a % 4 >= 2 }

  /** At a register boundary. */
  predicate Aligned(a: nat) { a % 4 == 0 }

  lemma WidestAt(a: nat, n: nat)
    requires n > 0
    ensures Bit0(a) ==> Widest(a, n) == 1 && !Bit0(a + 1)
    ensures !Bit0(a) && Bit1(a) && n >= 2 ==> Widest(a, n) == 2 && Aligned(a + 2)
    ensures !Bit0(a) && !Bit1(a) ==> Aligned(a)
    ensures Aligned(a) && n >= 4 ==> Widest(a, n) == 4 && Aligned(a + 4)
    ensures Aligned(a) && 2 <= n < 4 ==> Widest(a, n) == 2
    ensures n == 1 ==> Widest(a, n) == 1
  {
  }

  /** No series of aligned cycles is shorter than the plan. */
  lemma {:induction false} PlanIsShortest(cycles: seq<Cycle>, a: nat, n: nat)
    requires Tiles(cycles, a, n)
    ensures |Plan(a, n)| <= |cycles|
    decreases n
  {
    if n > 0 {
      var w := Widest(a, n);
      if cycles[0].width == w {
        PlanIsShortest(cycles[1..], a + w, n - w);
      } else {
        var k := LeavesBlock(cycles, a, n);
        PlanIsShortest(cycles[k..], a + w, n - w);
      }
    }
  }

  lemma PlanNothing(a: nat)
    ensures Plan(a, 0) == []
  {
  }

  lemma PlanStep(a: nat, n: nat)
    requires n > 0
    ensures Plan(a, n) == [Cycle(a, Widest(a, n))] + Plan(a + Widest(a, n), n - Widest(a, n))
  {
  }

  lemma PlanGrows(cycles: seq<Cycle>, a: nat, n: nat)
    requires n > 0
    ensures cycles + [Cycle(a, Widest(a, n))] + Plan(a + Widest(a, n), n - Widest(a, n)) == cycles + Plan(a, n)
  {
    PlanStep(a, n);
    hide Plan, Widest;
    var c, rest := [Cycle(a, Widest(a, n))], Plan(a + Widest(a, n), n - Widest(a, n));
    assert cycles + c + rest == cycles + (c + rest);
  }

  /** A cycle of the plan does not run into a later register. */
  lemma StaysShort(a: nat, n: nat, register: nat)
    requires register % 4 == 0 && a < register && register + 4 <= a + n
    ensures a + Widest(a, n) <= register
  {
  }

  /** Every aligned 32-bit register wholly in the range is accessed by one 32-bit cycle. */
  lemma {:induction false} RegistersWhole(a: nat, n: nat, register: nat) returns (i: nat)
    requires register % 4 == 0 && a <= register && register + 4 <= a + n
    ensures i < |Plan(a, n)| && Plan(a, n)[i] == Cycle(register, 4)
    decreases n
  {
    if a == register {
      i := 0;
    } else {
      StaysShort(a, n, register);
      var w := Widest(a, n);
      PlanStep(a, n);
      hide Widest, Plan;
      var j := RegistersWhole(a + w, n - w, register);
      i := j + 1;
    }
  }

  // ----- the loops -----

  /** Reading a range into a buffer, and writing it from there, as the methods leave the two. */
  function AfterRead(regs: seq<byte>, start: nat, size: nat, buffer: seq<byte>): seq<byte>
    requires start + size <= |regs| && size <= |buffer|
  {
    Splice(buffer, 0, regs[start..start + size])
  }

  function AfterWrite(regs: seq<byte>, start: nat, size: nat, buffer: seq<byte>): seq<byte>
    requires start + size <= |regs| && size <= |buffer|
  {
    Splice(regs, start, buffer[..size])
  }

  /** The buffer holds the registers read so far, and is otherwise as it was. */
  ghost predicate ReadTo(regs: seq<byte>, at: nat, start: nat, end: nat, buffer: seq<byte>, before: seq<byte>) {
    && start <= at <= end <= |regs| && end - start <= |before|
    && buffer == Splice(before, 0, regs[start..at])
  }

  lemma ReadBegins(regs: seq<byte>, start: nat, end: nat, before: seq<byte>)
    requires start <= end <= |regs| && end - start <= |before|
    ensures ReadTo(regs, start, start, end, before, before)
  {
  }

  lemma ReadMore(regs: seq<byte>, at: nat, start: nat, end: nat, buffer: seq<byte>, before: seq<byte>, bytes: seq<byte>)
    requires ReadTo(regs, at, start, end, buffer, before)
    requires at + |bytes| <= end && bytes == regs[at..at + |bytes|]
    ensures |buffer| == |before| && ReadTo(regs, at + |bytes|, start, end, Splice(buffer, at - start, bytes), before)
  {
    hide Splice;
    SpliceAdjacent(before, 0, regs[start..at], bytes);
    assert regs[start..at] + bytes == regs[start..at + |bytes|];
  }

  lemma ReadEnds(regs: seq<byte>, start: nat, end: nat, buffer: seq<byte>, before: seq<byte>)
    requires ReadTo(regs, end, start, end, buffer, before)
    ensures buffer == AfterRead(regs, start, end - start, before)
  {
  }

  /** The registers hold the buffer bytes written so far, and are otherwise as they were. */
  ghost predicate WrittenTo(regs: seq<byte>, at: nat, start: nat, end: nat, buffer: seq<byte>, before: seq<byte>) {
    && start <= at <= end <= |before| && end - start <= |buffer|
    && regs == Splice(before, start, buffer[..at - start])
  }

  lemma WriteBegins(before: seq<byte>, start: nat, end: nat, buffer: seq<byte>)
    requires start <= end <= |before| && end - start <= |buffer|
    ensures WrittenTo(before, start, start, end, buffer, before)
  {
  }

  lemma WriteEnds(regs: seq<byte>, start: nat, end: nat, buffer: seq<byte>, before: seq<byte>)
    requires WrittenTo(regs, end, start, end, buffer, before)
    ensures regs == AfterWrite(before, start, end - start, buffer)
  {
  }

  lemma WriteMore(regs: seq<byte>, at: nat, start: nat, end: nat, buffer: seq<byte>, before: seq<byte>, bytes: seq<byte>)
    requires WrittenTo(regs, at, start, end, buffer, before)
    requires at + |bytes| <= end && bytes == buffer[at - start..at - start + |bytes|]
    ensures |regs| == |before| && WrittenTo(Splice(regs, at, bytes), at + |bytes|, start, end, buffer, before)
  {
    hide Splice;
    SpliceAdjacent(before, start, buffer[..at - start], bytes);
    assert buffer[..at - start] + bytes == buffer[..at + |bytes| - start];
  }

  /** One function's configuration space as plain storage, and the cycles seen by it. */
  class ConfigSpace {
    var regs: seq<byte>
    ghost var cycles: seq<Cycle>

    constructor (storage: seq<byte>)
      ensures regs == storage && cycles == []
    {
      regs := storage;
      cycles := [];
    }

    /** PciSegmentRead8/16/32. */
    method Read(at: nat, width: nat) returns (v: nat)
      requires Natural(at, width) && at + width <= |regs|
      modifies this`cycles
      ensures v == Value(regs[at..at + width])
      ensures cycles == old(cycles) + [Cycle(at, width)]
    {
      v := Value(regs[at..at + width]);
      cycles := cycles + [Cycle(at, width)];
    }

    /** PciSegmentWrite8/16/32. */
    method Write(at: nat, width: nat, v: nat)
      requires Natural(at, width) && at + width <= |regs|
      modifies this
      ensures regs == Splice(old(regs), at, LeBytes(v, width))
      ensures cycles == old(cycles) + [Cycle(at, width)]
    {
      var bytes := LeBytes(v, width);
      regs := Splice(regs, at, bytes);
      cycles := cycles + [Cycle(at, width)];
    }

    /** A cycle's value as bytes. */
    method ReadBytes(at: nat, width: nat) returns (bytes: seq<byte>)
      requires Natural(at, width) && at + width <= |regs|
      modifies this`cycles
      ensures bytes == regs[at..at + width] && cycles == old(cycles) + [Cycle(at, width)]
    {
      hide *;
      var v := Read(at, width);
      bytes := LeBytes(v, width);
      BytesOfValue(regs[at..at + width]);
    }

    /** One cycle of a read: the value goes to the buffer where the last one ended. */
    method Fetch(at: nat, width: nat, start: nat, end: nat, buffer: array<byte>, ghost before: seq<byte>)
      requires ReadTo(regs, at, start, end, buffer[..], before)
      requires at < end && width == Widest(at, end - at) && buffer.Length == |before| && start <= at
      requires end <= |regs| && end - start <= |before|
      modifies this`cycles, buffer
      ensures ReadTo(regs, at + width, start, end, buffer[..], before)
      ensures cycles + Plan(at + width, end - at - width) == old(cycles) + Plan(at, end - at)
    {
      PlanGrows(cycles, at, end - at);
      hide *;
      ghost var held := buffer[..];
      var bytes := ReadBytes(at, width);
      assert buffer[..] == held && |bytes| == width;
      ReadMore(regs, at, start, end, held, before, bytes);
      CopyMem(buffer, at - start, bytes);
      assert buffer[..] == Splice(held, at - start, bytes);
    }

    /** The start of the range: a byte and a word, where they are needed to reach a register boundary. */
    method FetchHead(start: nat, end: nat, buffer: array<byte>, ghost before: seq<byte>) returns (at: nat)
      requires ReadTo(regs, start, start, end, buffer[..], before)
      requires buffer.Length == |before| && start < end <= |regs| && end - start <= |before|
      modifies this`cycles, buffer
      ensures start <= at <= end && (end - at >= 2 ==> Aligned(at)) && ReadTo(regs, at, start, end, buffer[..], before)
      ensures cycles + Plan(at, end - at) == old(cycles) + Plan(start, end - start)
    {
      hide *;
      at := start;
      WidestAt(at, end - at);
      if Bit0(at) {
        Fetch(at, 1, start, end, buffer, before);
        at := at + 1;
      }
      if end - at >= 2 {
        WidestAt(at, end - at);
      }
      if end - at >= 2 && Bit1(at) {
        Fetch(at, 2, start, end, buffer, before);
        at := at + 2;
      }
    }

    /** The end of the range: what is left after the last whole register. */
    method FetchTail(first: nat, start: nat, end: nat, buffer: array<byte>, ghost before: seq<byte>)
      requires ReadTo(regs, first, start, end, buffer[..], before)
      requires buffer.Length == |before| && start < end <= |regs| && end - start <= |before|
      requires start <= first <= end < first + 4 && (end - first >= 2 ==> Aligned(first))
      modifies this`cycles, buffer
      ensures ReadTo(regs, end, start, end, buffer[..], before)
      ensures cycles == old(cycles) + Plan(first, end - first)
    {
      PlanNothing(end);
      hide *;
      var at := first;
      if end - at >= 2 {
        WidestAt(at, end - at);
        Fetch(at, 2, start, end, buffer, before);
        at := at + 2;
      }
      if end - at >= 1 {
        WidestAt(at, end - at);
        Fetch(at, 1, start, end, buffer, before);
        at := at + 1;
      }
    }

    /** PciSegmentReadBuffer. */
    method ReadBuffer(start: nat, size: nat, buffer: array<byte>) returns (n: nat)
      requires |regs| == CONFIG_SIZE && start + size <= CONFIG_SIZE && size <= buffer.Length
      modifies this`cycles, buffer
      ensures n == size
      ensures buffer[..] == AfterRead(regs, start, size, old(buffer[..]))
      ensures cycles == old(cycles) + Plan(start, size)
    {
      n := size;
      var end := start + size;
      ghost var before := buffer[..];
      ReadBegins(regs, start, end, before);
      PlanNothing(start);
      if size == 0 {
        return;
      }
      hide *;
      ghost var storage := regs;
      var at := FetchHead(start, end, buffer, before);
      while end - at >= 4
        invariant start <= at <= end && (end - at >= 2 ==> Aligned(at)) && |regs| == CONFIG_SIZE
        invariant ReadTo(storage, at, start, end, buffer[..], before)
        invariant cycles + Plan(at, end - at) == old(cycles) + Plan(start, size)
      {
        WidestAt(at, end - at);
        Fetch(at, 4, start, end, buffer, before);
        at := at + 4;
      }
      FetchTail(at, start, end, buffer, before);
      ReadEnds(regs, start, end, buffer[..], before);
    }

    /** One cycle of a write. */
    method Put(at: nat, width: nat, start: nat, end: nat, buffer: array<byte>, ghost before: seq<byte>)
      requires WrittenTo(regs, at, start, end, buffer[..], before)
      requires at < end && width == Widest(at, end - at) && start <= at
      requires end <= |regs| && end - start <= buffer.Length
      modifies this
      ensures |regs| == old(|regs|) && WrittenTo(regs, at + width, start, end, buffer[..], before)
      ensures cycles + Plan(at + width, end - at - width) == old(cycles) + Plan(at, end - at)
    {
      PlanGrows(cycles, at, end - at);
      hide *;
      var bytes := buffer[at - start..at - start + width];
      assert buffer[..][at - start..at - start + width] == bytes;
      WriteMore(regs, at, start, end, buffer[..], before, bytes);
      BytesOfValue(bytes);
      Write(at, width, Value(bytes));
    }

    /** The start of the range: a byte and a word, where they are needed to reach a register boundary. */
    method PutHead(start: nat, end: nat, buffer: array<byte>, ghost before: seq<byte>) returns (at: nat)
      requires WrittenTo(regs, start, start, end, buffer[..], before)
      requires start < end <= |regs| && end - start <= buffer.Length
      modifies this
      ensures start <= at <= end && (end - at >= 2 ==> Aligned(at)) && WrittenTo(regs, at, start, end, buffer[..], before)
      ensures cycles + Plan(at, end - at) == old(cycles) + Plan(start, end - start)
      ensures |regs| == old(|regs|)
    {
      hide *;
      at := start;
      WidestAt(at, end - at);
      if Bit0(at) {
        Put(at, 1, start, end, buffer, before);
        at := at + 1;
      }
      if end - at >= 2 {
        WidestAt(at, end - at);
      }
      if end - at >= 2 && Bit1(at) {
        Put(at, 2, start, end, buffer, before);
        at := at + 2;
      }
    }

    /** The end of the range: what is left after the last whole register. */
    method PutTail(first: nat, start: nat, end: nat, buffer: array<byte>, ghost before: seq<byte>)
      requires WrittenTo(regs, first, start, end, buffer[..], before)
      requires start < end <= |regs| && end - start <= buffer.Length
      requires start <= first <= end < first + 4 && (end - first >= 2 ==> Aligned(first))
      modifies this
      ensures WrittenTo(regs, end, start, end, buffer[..], before)
      ensures cycles == old(cycles) + Plan(first, end - first)
      ensures |regs| == old(|regs|)
    {
      PlanNothing(end);
      hide *;
      var at := first;
      if end - at >= 2 {
        WidestAt(at, end - at);
        Put(at, 2, start, end, buffer, before);
        at := at + 2;
      }
      if end - at >= 1 {
        WidestAt(at, end - at);
        Put(at, 1, start, end, buffer, before);
        at := at + 1;
      }
    }

    /** The loop over whole registers. */
    method PutRegisters(first: nat, start: nat, end: nat, buffer: array<byte>, ghost before: seq<byte>) returns (at: nat)
      requires WrittenTo(regs, first, start, end, buffer[..], before)
      requires start <= first <= end <= |regs| && end - start <= buffer.Length && (end - first >= 2 ==> Aligned(first))
      modifies this
      ensures first <= at <= end < at + 4 && (end - at >= 2 ==> Aligned(at)) && |regs| == old(|regs|)
      ensures WrittenTo(regs, at, start, end, buffer[..], before)
      ensures cycles + Plan(at, end - at) == old(cycles) + Plan(first, end - first)
    {
      hide *;
      at := first;
      while end - at >= 4
        invariant first <= at <= end && (end - at >= 2 ==> Aligned(at)) && |regs| == old(|regs|)
        invariant WrittenTo(regs, at, start, end, buffer[..], before)
        invariant cycles + Plan(at, end - at) == old(cycles) + Plan(first, end - first)
      {
        WidestAt(at, end - at);
        Put(at, 4, start, end, buffer, before);
        at := at + 4;
      }
    }

    /** PciSegmentWriteBuffer. */
    method WriteBuffer(start: nat, size: nat, buffer: array<byte>) returns (n: nat)
      requires |regs| == CONFIG_SIZE && start + size <= CONFIG_SIZE && size <= buffer.Length
      modifies this
      ensures n == size
      ensures regs == AfterWrite(old(regs), start, size, buffer[..])
      ensures cycles == old(cycles) + Plan(start, size)
    {
      n := size;
      var end := start + size;
      ghost var before := regs;
      WriteBegins(before, start, end, buffer[..]);
      PlanNothing(start);
      if size == 0 {
        return;
      }
      hide *;
      var at := PutHead(start, end, buffer, before);
      at := PutRegisters(at, start, end, buffer, before);
      PutTail(at, start, end, buffer, before);
      WriteEnds(regs, start, end, buffer[..], before);
    }
  }

  /** Byte by byte: a read leaves register byte start + k in buffer byte k; a write the other way round. Every other byte
      stays. */
  lemma BytesMoved(regs: seq<byte>, start: nat, size: nat, buffer: seq<byte>)
    requires start + size <= |regs| && size <= |buffer|
    ensures var read, written := AfterRead(regs, start, size, buffer), AfterWrite(regs, start, size, buffer);
      && |read| == |buffer| && |written| == |regs|
      && (forall k :: 0 <= k < |buffer| ==> read[k] == if k < size then regs[start + k] else buffer[k])
      && (forall i :: 0 <= i < |regs| ==> written[i] == if start <= i < start + size then buffer[i - start] else regs[i])
  {
  }

  lemma WriteThenRead(regs: seq<byte>, start: nat, size: nat, buffer: seq<byte>, other: seq<byte>)
    requires start + size <= |regs| && size <= |buffer| && size <= |other|
    ensures AfterRead(AfterWrite(regs, start, size, buffer), start, size, other)[..size] == buffer[..size]
  {
    hide Splice;
    SpliceHit(regs, start, buffer[..size]);
    SpliceHit(other, 0, buffer[..size]);
  }

  lemma ReadThenWrite(regs: seq<byte>, start: nat, size: nat, buffer: seq<byte>)
    requires start + size <= |regs| && size <= |buffer|
    ensures AfterWrite(regs, start, size, AfterRead(regs, start, size, buffer)) == regs
  {
    SpliceHit(buffer, 0, regs[start..start + size]);
    SpliceSame(regs, start, start + size);
  }

  lemma SpliceSame(s: seq<byte>, lo: nat, hi: nat)
    requires lo <= hi <= |s|
    ensures Splice(s, lo, s[lo..hi]) == s
  {
  }
}
