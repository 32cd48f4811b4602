/**
 What a translated address is, from the bytes of the properties: at every bus with a non-empty
 "ranges" the first entry that contains the address moves it from the entry's child base to its
 parent base, at the same distance.
 */
module DeviceTreeMeaning {
  import opened Bytes
  import opened DeviceTree

  /** `count` cells from byte `at` on, as one big-endian number. */
  function Number(prop: seq<byte>, at: nat, count: nat): nat
    requires count <= 2 && at + 4 * count <= |prop|
  {
    if count == 0 then 0
    else if count == 1 then Be32(prop, at)
    else Be32(prop, at) * 0x1_0000_0000 + Be32(prop, at + 4)
  }

  /** The entry at byte `at` is whole and contains the address: its child base is at most the address, and the address is
      less than its size beyond. */
  predicate HoldsAt(prop: seq<byte>, at: nat, ac: nat, pc: nat, sc: nat, addr: nat)
    requires ac <= 2 && pc <= 2 && sc <= 2
  {
    && at + 4 * (ac + pc + sc) <= |prop|
    && Number(prop, at, ac) <= addr && addr - Number(prop, at, ac) < Number(prop, at + 4 * (ac + pc), sc)
  }

  /** The address at the same distance from the parent base as `addr` is from the child base. */
  function MovedAt(prop: seq<byte>, at: nat, ac: nat, pc: nat, sc: nat, addr: nat): nat
    requires ac <= 2 && pc <= 2 && sc <= 2 && HoldsAt(prop, at, ac, pc, sc, addr)
  {
    (Number(prop, at + 4 * ac, pc) + (addr - Number(prop, at, ac))) % 0x1_0000_0000_0000_0000
  }

  /** Entry `i` contains the address. */
  predicate Holds(prop: seq<byte>, ac: nat, pc: nat, sc: nat, i: nat, addr: nat)
    requires ac <= 2 && pc <= 2 && sc <= 2
  {
    HoldsAt(prop, 4 * i * (ac + pc + sc), ac, pc, sc, addr)
  }

  function Moved(prop: seq<byte>, ac: nat, pc: nat, sc: nat, i: nat, addr: nat): nat
    requires ac <= 2 && pc <= 2 && sc <= 2 && Holds(prop, ac, pc, sc, i, addr)
  {
    MovedAt(prop, 4 * i * (ac + pc + sc), ac, pc, sc, addr)
  }

  /** Entry `i` is the first that contains the address. */
  ghost predicate First(prop: seq<byte>, ac: nat, pc: nat, sc: nat, i: nat, addr: nat)
    requires ac <= 2 && pc <= 2 && sc <= 2
  {
    Holds(prop, ac, pc, sc, i, addr) && forall j: nat :: j < i ==> !Holds(prop, ac, pc, sc, j, addr)
  }

  /** `result` is what the address on `bus` is at the root. */
  ghost predicate Translates(t: seq<Node>, bus: nat, addr: nat, result: nat)
    requires Tree(t) && bus < |t| && CellsOk(t[bus])
    decreases bus
  {
    if bus == 0 then result == addr
    else
      var above := t[bus].parent;
      1 <= t[above].addressCells <= 2 && 0 <= t[above].sizeCells <= 2 &&
      if t[bus].ranges.None? || t[bus].ranges.value == [] then Translates(t, above, addr, result)
      else
        var prop, ac, pc, sc := t[bus].ranges.value, t[bus].addressCells, t[above].addressCells, t[bus].sizeCells;
        exists i: nat :: First(prop, ac, pc, sc, i, addr) && Translates(t, above, Moved(prop, ac, pc, sc, i, addr), result)
  }

  // ----- one bus -----

  lemma CellsAreNumber(prop: seq<byte>, at: nat, count: nat)
    requires count <= 2 && at + 4 * count <= |prop|
    ensures Cells(prop, at, count) == Number(prop, at, count)
  {
    hide Be32;
    if count == 2 {
      assert Cells(prop, at, 2) == Cells(prop, at, 1) * TWO_32 + Be32(prop, at + 4);
    }
  }

  /** One step of the search. */
  lemma SearchStep(prop: seq<byte>, at: nat, ac: nat, pc: nat, sc: nat, addr: nat)
    requires 1 <= ac <= 2 && pc <= 2 && sc <= 2 && at <= |prop|
    ensures Move(Entries(prop[at..], ac, pc, sc), addr) ==
      if HoldsAt(prop, at, ac, pc, sc, addr) then Some(MovedAt(prop, at, ac, pc, sc, addr))
      else if at + 4 * (ac + pc + sc) <= |prop| then Move(Entries(prop[at + 4 * (ac + pc + sc)..], ac, pc, sc), addr)
      else None
  {
    hide Cells, Entries, Number;
    if at + 4 * (ac + pc + sc) <= |prop| {
      EntriesAt(prop, at, ac, pc, sc);
      CellsAreNumber(prop, at, ac);
      CellsAreNumber(prop, at + 4 * ac, pc);
      CellsAreNumber(prop, at + 4 * (ac + pc), sc);
    } else {
      EntriesEnd(prop[at..], ac, pc, sc);
    }
  }

  /** The search from entry `from` on. */
  lemma {:induction false} MoveFrom(prop: seq<byte>, ac: nat, pc: nat, sc: nat, from: nat, i: nat, addr: nat)
    requires 1 <= ac <= 2 && pc <= 2 && sc <= 2 && from <= i && 4 * from * (ac + pc + sc) <= |prop|
    requires Holds(prop, ac, pc, sc, i, addr) && forall j: nat :: from <= j < i ==> !Holds(prop, ac, pc, sc, j, addr)
    ensures Move(Entries(prop[4 * from * (ac + pc + sc)..], ac, pc, sc), addr) == Some(Moved(prop, ac, pc, sc, i, addr))
    decreases i - from
  {
    hide Move, Entries, MovedAt;
    SearchStep(prop, 4 * from * (ac + pc + sc), ac, pc, sc, addr);
    if from < i {
      assert !Holds(prop, ac, pc, sc, from, addr);
      NextEntry(from, ac + pc + sc);
      EarlierEntry(from + 1, i, ac + pc + sc);
      hide HoldsAt;
      HeldInside(prop, ac, pc, sc, i, addr);
      MoveFrom(prop, ac, pc, sc, from + 1, i, addr);
    }
  }

  lemma HeldInside(prop: seq<byte>, ac: nat, pc: nat, sc: nat, i: nat, addr: nat)
    requires ac <= 2 && pc <= 2 && sc <= 2 && Holds(prop, ac, pc, sc, i, addr)
    ensures 4 * i * (ac + pc + sc) + 4 * (ac + pc + sc) <= |prop|
  {
  }

  lemma EarlierEntry(i: nat, j: nat, cells: nat)
    requires i <= j
    ensures 4 * i * cells <= 4 * j * cells
  {
    assert 4 * j * cells == 4 * i * cells + 4 * (j - i) * cells;
  }

  lemma NextEntry(i: nat, cells: nat)
    ensures 4 * (i + 1) * cells == 4 * i * cells + 4 * cells
  {
  }

  /** No entry contains the address: none from `from` on. */
  lemma {:induction false} StaysFrom(prop: seq<byte>, ac: nat, pc: nat, sc: nat, from: nat, addr: nat)
    requires 1 <= ac <= 2 && pc <= 2 && sc <= 2 && 4 * from * (ac + pc + sc) <= |prop|
    requires forall j: nat :: from <= j ==> !Holds(prop, ac, pc, sc, j, addr)
    ensures Move(Entries(prop[4 * from * (ac + pc + sc)..], ac, pc, sc), addr) == None
    decreases |prop| - 4 * from * (ac + pc + sc)
  {
    hide Move, Entries, MovedAt;
    var at := 4 * from * (ac + pc + sc);
    SearchStep(prop, at, ac, pc, sc, addr);
    assert !Holds(prop, ac, pc, sc, from, addr);
    if at + 4 * (ac + pc + sc) <= |prop| {
      NextEntry(from, ac + pc + sc);
      hide HoldsAt;
      StaysFrom(prop, ac, pc, sc, from + 1, addr);
    }
  }

  /** A bus with ranges: if entry `i` is the first that contains the address, the address above the bus is at the same
      distance from the entry's parent base as the address is from its child base, modulo 2^64. */
  lemma MovesByFirst(t: seq<Node>, bus: nat, addr: nat, i: nat)
    requires Tree(t) && 0 < bus < |t| && CellsOk(t[bus]) && CellsOk(t[t[bus].parent])
    requires t[bus].ranges.Some? && t[bus].ranges.value != []
    requires var prop, ac, pc, sc := t[bus].ranges.value, t[bus].addressCells, t[t[bus].parent].addressCells, t[bus].sizeCells;
      First(prop, ac, pc, sc, i, addr)
    ensures var prop, ac, pc, sc := t[bus].ranges.value, t[bus].addressCells, t[t[bus].parent].addressCells, t[bus].sizeCells;
      var at := 4 * i * (ac + pc + sc);
      var child, parent := Number(prop, at, ac), Number(prop, at + 4 * ac, pc);
      Up(t, bus, addr) == Up(t, t[bus].parent, (parent + (addr - child)) % 0x1_0000_0000_0000_0000)
  {
    hide Number, HoldsAt, Entries, Move;
    var prop, ac, pc, sc := t[bus].ranges.value, t[bus].addressCells, t[t[bus].parent].addressCells, t[bus].sizeCells;
    MoveFrom(prop, ac, pc, sc, 0, i, addr);
    assert prop[0..] == prop;
    hide Up;
    UpStep(t, bus, addr);
  }

  lemma UpStep(t: seq<Node>, bus: nat, addr: nat)
    requires Tree(t) && 0 < bus < |t| && CellsOk(t[bus])
    ensures Up(t, bus, addr)
         == if !CellsOk(t[t[bus].parent]) || BusMove(t, bus, addr).None? then None
            else Up(t, t[bus].parent, BusMove(t, bus, addr).value)
  {
    hide CellsOk, BusMove;
  }

  // ----- all the way up -----

  lemma NoFirst(prop: seq<byte>, ac: nat, pc: nat, sc: nat, addr: nat)
    requires 1 <= ac <= 2 && pc <= 2 && sc <= 2 && forall i: nat :: !First(prop, ac, pc, sc, i, addr)
    ensures Move(Entries(prop, ac, pc, sc), addr) == None
  {
    hide HoldsAt, Entries, Move;
    forall j: nat ensures !Holds(prop, ac, pc, sc, j, addr) {
      NoneBefore(prop, ac, pc, sc, j, addr);
    }
    StaysFrom(prop, ac, pc, sc, 0, addr);
    assert prop[0..] == prop;
  }

  lemma {:induction false} NoneBefore(prop: seq<byte>, ac: nat, pc: nat, sc: nat, j: nat, addr: nat)
    requires ac <= 2 && pc <= 2 && sc <= 2 && forall i: nat :: !First(prop, ac, pc, sc, i, addr)
    ensures forall i: nat :: i <= j ==> !Holds(prop, ac, pc, sc, i, addr)
    decreases j
  {
    hide HoldsAt;
    if j > 0 {
      NoneBefore(prop, ac, pc, sc, j - 1, addr);
    }
    assert !First(prop, ac, pc, sc, j, addr);
  }

  /** The translation is the address the entries on the way up say, and it fails exactly when they say none. */
  lemma {:induction false} TranslationMeans(t: seq<Node>, bus: nat, addr: nat, result: nat)
    requires Tree(t) && bus < |t| && CellsOk(t[bus])
    ensures Up(t, bus, addr) == Some(result) <==> Translates(t, bus, addr, result)
    decreases bus
  {
    hide First, Moved, Move, Entries;
    if bus > 0 && CellsOk(t[t[bus].parent]) {
      var above := t[bus].parent;
      if t[bus].ranges.None? || t[bus].ranges.value == [] {
        TranslationMeans(t, above, addr, result);
      } else {
        var prop, ac, pc, sc := t[bus].ranges.value, t[bus].addressCells, t[above].addressCells, t[bus].sizeCells;
        if i: nat :| First(prop, ac, pc, sc, i, addr) {
          FirstMoves(prop, ac, pc, sc, i, addr);
          TranslationMeans(t, above, Moved(prop, ac, pc, sc, i, addr), result);
          forall j: nat | First(prop, ac, pc, sc, j, addr) ensures j == i {
            OneFirst(prop, ac, pc, sc, i, j, addr);
          }
        } else {
          NoFirst(prop, ac, pc, sc, addr);
        }
      }
    }
  }

  lemma FirstMoves(prop: seq<byte>, ac: nat, pc: nat, sc: nat, i: nat, addr: nat)
    requires 1 <= ac <= 2 && pc <= 2 && sc <= 2 && First(prop, ac, pc, sc, i, addr)
    ensures Holds(prop, ac, pc, sc, i, addr)
    ensures Move(Entries(prop, ac, pc, sc), addr) == Some(Moved(prop, ac, pc, sc, i, addr))
  {
    hide HoldsAt, MovedAt, Move, Entries;
    MoveFrom(prop, ac, pc, sc, 0, i, addr);
    assert prop[0..] == prop;
  }

  lemma OneFirst(prop: seq<byte>, ac: nat, pc: nat, sc: nat, i: nat, j: nat, addr: nat)
    requires ac <= 2 && pc <= 2 && sc <= 2 && First(prop, ac, pc, sc, i, addr) && First(prop, ac, pc, sc, j, addr)
    ensures i == j
  {
    hide HoldsAt;
  }

  /** The node's first reg entry by its bytes: the address in the CPU's terms and the size that follows it. */
  lemma RegMeans(t: seq<Node>, node: nat, address: nat, size: nat)
    requires Tree(t) && 0 < node < |t|
    ensures RegAddress(t, node) == Some((address, size)) <==>
      var bus := t[node].parent;
      && 1 <= t[bus].addressCells <= 2 && 0 <= t[bus].sizeCells <= 2 && t[node].reg.Some?
      && var prop, ac, sc := t[node].reg.value, t[bus].addressCells, t[bus].sizeCells;
         && |prop| >= 4 * (ac + sc)
         && Translates(t, bus, Number(prop, 0, ac), address) && size == Number(prop, 4 * ac, sc)
  {
    hide Up, Translates, Number;
    var bus := t[node].parent;
    if CellsOk(t[bus]) && t[node].reg.Some? {
      var prop, ac, sc := t[node].reg.value, t[bus].addressCells, t[bus].sizeCells;
      if |prop| >= 4 * (ac + sc) {
        CellsAreNumber(prop, 0, ac);
        CellsAreNumber(prop, 4 * ac, sc);
        TranslationMeans(t, bus, Number(prop, 0, ac), address);
      }
    }
  }

  // ----- a tree -----

  /** A bus whose 64 MiB at 0x7c000000 are at 0x10_7c000000, and a node on it with registers at 0x7d004000. */
  const SOC_RANGES: seq<byte> :=
    [0x7c, 0, 0, 0] + [0, 0, 0, 0x10, 0x7c, 0, 0, 0] + [0x04, 0, 0, 0]
  const SPI_REG: seq<byte> := [0x7d, 0x00, 0x40, 0x00] + [0, 0, 0x02, 0]
  const SOC :=
    [Node(0, 2, 1, None, None), Node(0, 1, 1, None, Some(SOC_RANGES)), Node(1, 1, 1, Some(SPI_REG), None)]

  lemma SocTranslates()
    ensures Tree(SOC) && RegAddress(SOC, 2) == Some((0x10_7d00_4000, 0x200))
  {
    var prop := SOC_RANGES;
    assert Number(prop, 0, 1) == 0x7c00_0000 && Number(prop, 4, 2) == 0x10_7c00_0000 && Number(prop, 12, 1) == 0x0400_0000;
    assert Number(SPI_REG, 0, 1) == 0x7d00_4000 && Number(SPI_REG, 4, 1) == 0x200;
    hide Number;
    assert First(prop, 1, 2, 1, 0, 0x7d00_4000);
    assert Moved(prop, 1, 2, 1, 0, 0x7d00_4000) == 0x10_7d00_4000;
    assert Translates(SOC, 0, 0x10_7d00_4000, 0x10_7d00_4000);
    assert Translates(SOC, 1, 0x7d00_4000, 0x10_7d00_4000);
    RegMeans(SOC, 2, 0x10_7d00_4000, 0x200);
  }
}
