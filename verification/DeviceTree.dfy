/**
 Address translation in a flattened device tree: the first "reg" entry of a node, carried
 through the "ranges" of every bus above it to the CPU's address space.
 */
module DeviceTree {
  import opened Bytes

  const TWO_64 := 0x1_0000_0000_0000_0000

  /** What FdtLib answers about a node. Cell counts are negative for a malformed property. */
  datatype Node = Node(parent: nat, addressCells: int, sizeCells: int, reg: Option<seq<byte>>, ranges: Option<seq<byte>>)

  /** Nodes in structure-block order: the root first, every other node after its parent. */
  predicate Tree(t: seq<Node>) {
    |t| > 0 && forall i :: 0 < i < |t| ==> t[i].parent < i
  }

  function ParentOffset(t: seq<Node>, node: int): (p: int)
    requires Tree(t)
    ensures p >= 0 <==> 0 < node < |t|
    ensures p >= 0 ==> p < node
  {
    if 0 < node < |t| then t[node].parent else -1
  }

  /** `count` big-endian cells from byte `at` on. */
  function Cells(prop: seq<byte>, at: nat, count: nat): (v: nat)
    requires at + 4 * count <= |prop|
    ensures count == 0 ==> v == 0
    ensures count <= 1 ==> v < TWO_32
    ensures count <= 2 ==> v < TWO_64
    decreases count
  {
    if count == 0 then 0 else Cells(prop, at, count - 1) * TWO_32 + Be32(prop, at + 4 * (count - 1))
  }

  method ReadCells(prop: seq<byte>, at: nat, count: nat) returns (v: nat)
    requires count <= 2 && at + 4 * count <= |prop|
    ensures v == Cells(prop, at, count)
  {
    v := 0;
    var index := 0;
    while index < count
      invariant 0 <= index <= count
      invariant v == Cells(prop, at, index)
    {
      v := v * TWO_32 % TWO_64 + Be32(prop, at + 4 * index);
      index := index + 1;
    }
  }

  // ----- what "ranges" means -----

  datatype Range = Range(child: nat, parent: nat, size: nat)

  predicate Contains(r: Range, addr: nat) {
    r.child <= addr < r.child + r.size
  }

  /** The whole entries of a "ranges" property; bytes after the last one are ignored. */
  function Entries(prop: seq<byte>, ac: nat, pc: nat, sc: nat): seq<Range>
    requires 1 <= ac
    decreases |prop|
  {
    var width := 4 * (ac + pc + sc);
    if |prop| < width then []
    else [Range(Cells(prop, 0, ac), Cells(prop, 4 * ac, pc), Cells(prop, 4 * (ac + pc), sc))] + Entries(prop[width..], ac, pc, sc)
  }

  /** The first entry that contains the address moves it; 64-bit arithmetic. */
  function Move(entries: seq<Range>, addr: nat): Option<nat> {
    if entries == [] then None
    else if Contains(entries[0], addr) then Some((entries[0].parent + (addr - entries[0].child)) % TWO_64)
    else Move(entries[1..], addr)
  }

  predicate CellsOk(n: Node) {
    1 <= n.addressCells <= 2 && 0 <= n.sizeCells <= 2
  }

  /** A bus without "ranges", or with an empty one, maps one to one. */
  predicate HasRanges(n: Node) {
    n.ranges.Some? && n.ranges.value != []
  }

  function BusRanges(t: seq<Node>, bus: nat): seq<Range>
    requires Tree(t) && 0 < bus < |t| && CellsOk(t[bus]) && CellsOk(t[t[bus].parent]) && HasRanges(t[bus])
  {
    Entries(t[bus].ranges.value, t[bus].addressCells, t[t[bus].parent].addressCells, t[bus].sizeCells)
  }

  /** From a bus to the bus above it. */
  function BusMove(t: seq<Node>, bus: nat, addr: nat): Option<nat>
    requires Tree(t) && 0 < bus < |t| && CellsOk(t[bus]) && CellsOk(t[t[bus].parent])
  {
    if HasRanges(t[bus]) then Move(BusRanges(t, bus), addr) else Some(addr)
  }

  /** All the way up. */
  function Up(t: seq<Node>, bus: nat, addr: nat): Option<nat>
    requires Tree(t) && bus < |t| && CellsOk(t[bus])
    decreases bus
  {
    if bus == 0 then Some(addr)
    else if !CellsOk(t[t[bus].parent]) then None
    else match BusMove(t, bus, addr)
      case None => None
      case Some(a) => Up(t, t[bus].parent, a)
  }

  /** The node's first reg entry, in CPU terms: address and size. */
  function RegAddress(t: seq<Node>, node: int): Option<(nat, nat)>
    requires Tree(t)
  {
    var bus := ParentOffset(t, node);
    if bus < 0 || !CellsOk(t[bus]) || t[node].reg.None? then None
    else
      var prop, ac, sc := t[node].reg.value, t[bus].addressCells, t[bus].sizeCells;
      if |prop| < 4 * (ac + sc) then None
      else match Up(t, bus, Cells(prop, 0, ac))
        case None => None
        case Some(a) => Some((a, Cells(prop, 4 * ac, sc)))
  }

  // ----- the loops -----

  /** The search of one "ranges" property. */
  method SearchRanges(prop: seq<byte>, ac: nat, pc: nat, sc: nat, addr: nat) returns (matched: bool, moved: nat)
    requires 1 <= ac <= 2 && pc <= 2 && sc <= 2
    ensures matched == Move(Entries(prop, ac, pc, sc), addr).Some?
    ensures matched ==> moved == Move(Entries(prop, ac, pc, sc), addr).value
  {
    hide Cells, Entries;
    moved := addr;
    var cell, length := 0, |prop|;
    var entryCells := ac + pc + sc;
    while length >= 4 * entryCells
      invariant 0 <= length && cell + length == |prop|
      invariant Move(Entries(prop[cell..], ac, pc, sc), addr) == Move(Entries(prop, ac, pc, sc), addr)
      decreases length
    {
      var childStart := ReadCells(prop, cell, ac);
      var parentStart := ReadCells(prop, cell + 4 * ac, pc);
      var rangeSize := ReadCells(prop, cell + 4 * (ac + pc), sc);
      EntriesAt(prop, cell, ac, pc, sc);
      if addr >= childStart && addr - childStart < rangeSize {
        moved := (parentStart + (addr - childStart)) % TWO_64;
        return true, moved;
      }
      cell := cell + 4 * entryCells;
      length := length - 4 * entryCells;
    }
    EntriesEnd(prop[cell..], ac, pc, sc);
    matched := false;
  }

  lemma {:induction false} CellsDrop(prop: seq<byte>, from: nat, at: nat, count: nat)
    requires from + at + 4 * count <= |prop|
    ensures Cells(prop[from..], at, count) == Cells(prop, from + at, count)
    decreases count
  {
    if count > 0 {
      CellsDrop(prop, from, at, count - 1);
    }
  }

  lemma EntriesAt(prop: seq<byte>, cell: nat, ac: nat, pc: nat, sc: nat)
    requires 1 <= ac && cell + 4 * (ac + pc + sc) <= |prop|
    ensures Entries(prop[cell..], ac, pc, sc)
         == [Range(Cells(prop, cell, ac), Cells(prop, cell + 4 * ac, pc), Cells(prop, cell + 4 * (ac + pc), sc))]
            + Entries(prop[cell + 4 * (ac + pc + sc)..], ac, pc, sc)
  {
    hide Cells;
    CellsDrop(prop, cell, 0, ac);
    CellsDrop(prop, cell, 4 * ac, pc);
    CellsDrop(prop, cell, 4 * (ac + pc), sc);
    assert prop[cell..][4 * (ac + pc + sc)..] == prop[cell + 4 * (ac + pc + sc)..];
  }

  lemma EntriesEnd(prop: seq<byte>, ac: nat, pc: nat, sc: nat)
    requires 1 <= ac && |prop| < 4 * (ac + pc + sc)
    ensures Entries(prop, ac, pc, sc) == []
  {
  }

  /** BlGetTranslatedRegAddress. */
  method GetTranslatedRegAddress(t: seq<Node>, node: int) returns (ok: bool, address: nat, size: nat)
    requires Tree(t)
    ensures ok == RegAddress(t, node).Some?
    ensures ok ==> (address, size) == RegAddress(t, node).value
  {
    address, size := 0, 0;
    var bus: int := ParentOffset(t, node);
    if bus < 0 {
      return false, address, size;
    }
    var addressCells, sizeCells := t[bus].addressCells, t[bus].sizeCells;
    if addressCells < 1 || addressCells > 2 || sizeCells < 0 || sizeCells > 2 {
      return false, address, size;
    }
    if t[node].reg.None? || |t[node].reg.value| < 4 * (addressCells + sizeCells) {
      return false, address, size;
    }
    var prop := t[node].reg.value;
    var addr := ReadCells(prop, 0, addressCells);
    size := ReadCells(prop, 4 * addressCells, sizeCells);
    ghost var first, start := bus, addr;
    while bus > 0
      invariant 0 <= bus < |t| && CellsOk(t[bus]) && addressCells == t[bus].addressCells && sizeCells == t[bus].sizeCells
      invariant Up(t, bus, addr) == Up(t, first, start)
      decreases bus
    {
      var busParent := ParentOffset(t, bus);
      var parentCells := t[busParent].addressCells;
      if parentCells < 1 || parentCells > 2 {
        return false, address, size;
      }
      if t[bus].ranges.Some? && |t[bus].ranges.value| > 0 {
        var matched, moved := SearchRanges(t[bus].ranges.value, addressCells, parentCells, sizeCells, addr);
        if !matched {
          return false, address, size;
        }
        addr := moved;
      }
      bus := busParent;
      addressCells := parentCells;
      sizeCells := t[bus].sizeCells;
      if sizeCells < 0 || sizeCells > 2 {
        return false, address, size;
      }
    }
    address := addr;
    ok := true;
  }

  // ----- laws -----

  /** The buses a translation gets to, each with the address on it; the last is the root, or where it fails. */
  function Visits(t: seq<Node>, bus: nat, addr: nat): (v: seq<(nat, nat)>)
    requires Tree(t) && bus < |t| && CellsOk(t[bus])
    ensures |v| > 0 && forall i :: 0 <= i < |v| ==> v[i].0 < |t| && CellsOk(t[v[i].0])
    decreases bus
  {
    if bus == 0 || !CellsOk(t[t[bus].parent]) || BusMove(t, bus, addr).None? then [(bus, addr)]
    else [(bus, addr)] + Visits(t, t[bus].parent, BusMove(t, bus, addr).value)
  }

  predicate Covered(entries: seq<Range>, addr: nat) {
    exists i :: 0 <= i < |entries| && Contains(entries[i], addr)
  }

  lemma {:induction false} MovesIfCovered(entries: seq<Range>, addr: nat)
    ensures Move(entries, addr).Some? <==> Covered(entries, addr)
  {
    if entries != [] {
      MovesIfCovered(entries[1..], addr);
      if Covered(entries[1..], addr) {
        var i :| 0 <= i < |entries| - 1 && Contains(entries[1..][i], addr);
        assert Contains(entries[i + 1], addr);
      }
      if Covered(entries, addr) && !Contains(entries[0], addr) {
        var i :| 0 <= i < |entries| && Contains(entries[i], addr);
        assert Contains(entries[1..][i - 1], addr);
      }
    }
  }

  /** A bus the translation cannot leave: the bus above has an unsupported cell count, or a non-empty "ranges" has no
      entry for the address. */
  predicate StuckAt(t: seq<Node>, bus: nat, addr: nat)
    requires Tree(t) && bus < |t| && CellsOk(t[bus])
  {
    bus > 0 &&
    (!CellsOk(t[t[bus].parent])
     || (HasRanges(t[bus])
         && !Covered(BusRanges(t, bus), addr)))
  }

  lemma StuckExactly(t: seq<Node>, bus: nat, addr: nat)
    requires Tree(t) && 0 < bus < |t| && CellsOk(t[bus])
    ensures StuckAt(t, bus, addr) <==> !CellsOk(t[t[bus].parent]) || BusMove(t, bus, addr).None?
  {
    if CellsOk(t[t[bus].parent]) && HasRanges(t[bus]) {
      MovesIfCovered(BusRanges(t, bus), addr);
    }
  }

  /** One of the visited buses is such a bus. */
  predicate GetsStuck(t: seq<Node>, v: seq<(nat, nat)>)
    requires Tree(t) && forall i :: 0 <= i < |v| ==> v[i].0 < |t| && CellsOk(t[v[i].0])
  {
    exists i :: 0 <= i < |v| && StuckAt(t, v[i].0, v[i].1)
  }

  lemma GetsStuckStep(t: seq<Node>, v: seq<(nat, nat)>)
    requires Tree(t) && |v| > 0 && forall i :: 0 <= i < |v| ==> v[i].0 < |t| && CellsOk(t[v[i].0])
    ensures GetsStuck(t, v) <==> StuckAt(t, v[0].0, v[0].1) || GetsStuck(t, v[1..])
  {
    hide StuckAt, CellsOk;
    if GetsStuck(t, v) && !StuckAt(t, v[0].0, v[0].1) {
      var i :| 0 <= i < |v| && StuckAt(t, v[i].0, v[i].1);
      assert v[1..][i - 1] == v[i];
    }
    if GetsStuck(t, v[1..]) {
      var i :| 0 <= i < |v| - 1 && StuckAt(t, v[1..][i].0, v[1..][i].1);
      assert v[1..][i] == v[i + 1];
    }
  }

  /** A translation fails exactly when it gets stuck at a bus on its way, and else ends at the root with the result. */
  lemma {:induction false} FailsExactly(t: seq<Node>, bus: nat, addr: nat)
    requires Tree(t) && bus < |t| && CellsOk(t[bus])
    ensures var v := Visits(t, bus, addr);
      && (Up(t, bus, addr).None? <==> GetsStuck(t, v))
      && (Up(t, bus, addr).Some? ==> v[|v| - 1] == (0, Up(t, bus, addr).value))
    decreases bus
  {
    var v := Visits(t, bus, addr);
    if bus > 0 {
      StuckExactly(t, bus, addr);
    }
    assert bus == 0 ==> !StuckAt(t, bus, addr);
    assert !GetsStuck(t, []);
    hide StuckAt, BusMove, CellsOk, GetsStuck;
    GetsStuckStep(t, v);
    assert v[0] == (bus, addr);
    if bus == 0 || !CellsOk(t[t[bus].parent]) || BusMove(t, bus, addr).None? {
      assert v[1..] == [];
    } else {
      var next := t[bus].parent;
      var moved := BusMove(t, bus, addr).value;
      FailsExactly(t, next, moved);
      assert v[1..] == Visits(t, next, moved);
    }
  }

  /** The k bytes after an address go through the same entries as the address, and do not wrap. */
  predicate MovesTogether(entries: seq<Range>, addr: nat, k: nat) {
    entries != [] &&
    if Contains(entries[0], addr)
    then Contains(entries[0], addr + k) && (entries[0].parent + (addr - entries[0].child)) % TWO_64 + k < TWO_64
    else !Contains(entries[0], addr + k) && MovesTogether(entries[1..], addr, k)
  }

  predicate StaysTogether(t: seq<Node>, bus: nat, addr: nat, k: nat)
    requires Tree(t) && bus < |t| && CellsOk(t[bus])
    decreases bus
  {
    bus == 0
    || (CellsOk(t[t[bus].parent]) && BusMove(t, bus, addr).Some?
        && (HasRanges(t[bus])
            ==> MovesTogether(BusRanges(t, bus), addr, k))
        && StaysTogether(t, t[bus].parent, BusMove(t, bus, addr).value, k))
  }

  lemma {:induction false} MoveTogether(entries: seq<Range>, addr: nat, k: nat)
    requires MovesTogether(entries, addr, k) && Move(entries, addr).Some?
    ensures Move(entries, addr + k) == Some(Move(entries, addr).value + k)
  {
    if Contains(entries[0], addr) {
      ShiftModulo(entries[0].parent + (addr - entries[0].child), k);
    } else {
      MoveTogether(entries[1..], addr, k);
    }
  }

  lemma ShiftModulo(v: nat, k: nat)
    requires v % TWO_64 + k < TWO_64
    ensures (v + k) % TWO_64 == v % TWO_64 + k
  {
  }

  /** One bus. */
  lemma StepsTogether(t: seq<Node>, bus: nat, addr: nat, k: nat)
    requires Tree(t) && 0 < bus < |t| && CellsOk(t[bus]) && CellsOk(t[t[bus].parent])
    requires BusMove(t, bus, addr).Some?
    requires HasRanges(t[bus]) ==> MovesTogether(BusRanges(t, bus), addr, k)
    ensures BusMove(t, bus, addr + k) == Some(BusMove(t, bus, addr).value + k)
  {
    hide CellsOk, BusRanges, Move, MovesTogether;
    if HasRanges(t[bus]) {
      MoveTogether(BusRanges(t, bus), addr, k);
    }
  }

  /** A block of bytes that no bus splits is translated as a block, so the size read on the node's own bus is the size in
      the CPU's address space. */
  lemma {:induction false} BlocksStayWhole(t: seq<Node>, bus: nat, addr: nat, k: nat)
    requires Tree(t) && bus < |t| && CellsOk(t[bus]) && StaysTogether(t, bus, addr, k)
    ensures Up(t, bus, addr).Some? && Up(t, bus, addr + k) == Some(Up(t, bus, addr).value + k)
    decreases bus
  {
    if bus > 0 {
      StepsTogether(t, bus, addr, k);
      hide BusMove, CellsOk;
      BlocksStayWhole(t, t[bus].parent, BusMove(t, bus, addr).value, k);
    }
  }
}
