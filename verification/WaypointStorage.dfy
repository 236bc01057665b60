// Waypoints in EEPROM: storeWaypoints writes the tag, the count and the first coordinate as
// multi-byte values that overlap, and loadWaypoints reads them back a byte or a coordinate at a time.
module Eeprom {

  type byte = x: int | 0 <= x < 256

  /** The addresses that a 16-bit int holds. */
  const SIZE: nat := 0x8000

  /** A memory after a value has been written at an address. */
  function Overlay(cells: seq<byte>, ee: nat, value: seq<byte>): (r: seq<byte>)
    requires ee + |value| <= |cells|
    ensures |r| == |cells|
  {
    cells[..ee] + value + cells[ee + |value|..]
  }

  function Slice(cells: seq<byte>, ee: nat, n: nat): (r: seq<byte>)
    requires ee + n <= |cells|
    ensures |r| == n
  {
    cells[ee..ee + n]
  }

  lemma OverlayReadsBack(cells: seq<byte>, ee: nat, value: seq<byte>)
    requires ee + |value| <= |cells|
    ensures Slice(Overlay(cells, ee, value), ee, |value|) == value
  {
  }

  lemma OverlayElsewhere(cells: seq<byte>, ee: nat, value: seq<byte>, other: nat, n: nat)
    requires ee + |value| <= |cells| && other + n <= |cells|
    requires other + n <= ee || ee + |value| <= other
    ensures Slice(Overlay(cells, ee, value), other, n) == Slice(cells, other, n)
  {
  }

  /** A wide write, the part of it that a later write covers, and the byte that survives. */
  lemma OverlayCovered(cells: seq<byte>, ee: nat, low: byte, high: byte)
    requires ee + 2 <= |cells|
    ensures Slice(Overlay(cells, ee, [low, high]), ee, 1) == [low]
  {
  }

  class Memory {
    var cells: seq<byte>

    constructor (cells: seq<byte>)
      requires |cells| == SIZE
      ensures this.cells == cells
    {
      this.cells := cells;
    }

    /** EEPROM_writeAnything, on the bytes of the value. */
    method WriteAnything(ee: nat, value: seq<byte>)
      requires ee + |value| <= |cells|
      modifies this
      ensures cells == Overlay(old(cells), ee, value)
    {
      for i := 0 to |value|
        invariant cells == Overlay(old(cells), ee, value[..i])
      {
        cells := cells[ee + i := value[i]];
        assert value[..i + 1] == value[..i] + [value[i]];
      }
      assert value[..|value|] == value;
    }

    /** EEPROM_readAnything, for a value of n bytes. */
    method ReadAnything(ee: nat, n: nat) returns (value: seq<byte>)
      requires ee + n <= |cells|
      ensures value == Slice(cells, ee, n)
    {
      value := [];
      for i := 0 to n
        invariant value == Slice(cells, ee, i)
      {
        value := value + [cells[ee + i]];
      }
    }
  }
}

module WaypointStorage {
  import opened Eeprom

  /** The bytes of a waypoint's coordinates. */
  datatype Gate = Gate(x1: seq<byte>, y1: seq<byte>, x2: seq<byte>, y2: seq<byte>)

  const TAG: byte := 0x24

  /** sizeof(double): four bytes on the AVR, eight elsewhere; the records leave room for eight. */
  ghost predicate IsDouble(width: nat) {
    1 <= width <= 8
  }

  ghost predicate Sized(g: Gate, width: nat) {
    |g.x1| == |g.y1| == |g.x2| == |g.y2| == width
  }

  ghost predicate AllSized(gates: seq<Gate>, width: nat) {
    forall i | 0 <= i < |gates| :: Sized(gates[i], width)
  }

  /** The gate whose coordinates are at the address, eight bytes apart. */
  function GateAt(cells: seq<byte>, at: nat, width: nat): Gate
    requires at + 24 + width <= |cells|
  {
    Gate(Slice(cells, at, width), Slice(cells, at + 8, width), Slice(cells, at + 16, width), Slice(cells, at + 24, width))
  }

  /** The four writes of one record. */
  function Recorded(cells: seq<byte>, at: nat, g: Gate, width: nat): (r: seq<byte>)
    requires IsDouble(width) && Sized(g, width) && at + 32 <= |cells|
    ensures |r| == |cells|
  {
    Overlay(Overlay(Overlay(Overlay(cells, at, g.x1), at + 8, g.y1), at + 16, g.x2), at + 24, g.y2)
  }

  lemma RecordReadsBack(cells: seq<byte>, at: nat, g: Gate, width: nat)
    requires IsDouble(width) && Sized(g, width) && at + 32 <= |cells|
    ensures GateAt(Recorded(cells, at, g, width), at, width) == g
  {
    hide Overlay, Slice;
    var a := Overlay(cells, at, g.x1);
    var b := Overlay(a, at + 8, g.y1);
    var c := Overlay(b, at + 16, g.x2);
    OverlayReadsBack(cells, at, g.x1);
    OverlayReadsBack(a, at + 8, g.y1);
    OverlayReadsBack(b, at + 16, g.x2);
    OverlayReadsBack(c, at + 24, g.y2);
    OverlayElsewhere(a, at + 8, g.y1, at, width);
    OverlayElsewhere(b, at + 16, g.x2, at, width);
    OverlayElsewhere(b, at + 16, g.x2, at + 8, width);
    OverlayElsewhere(c, at + 24, g.y2, at, width);
    OverlayElsewhere(c, at + 24, g.y2, at + 8, width);
    OverlayElsewhere(c, at + 24, g.y2, at + 16, width);
  }

  lemma RecordElsewhere(cells: seq<byte>, at: nat, g: Gate, width: nat, other: nat, n: nat)
    requires IsDouble(width) && Sized(g, width) && at + 32 <= |cells| && other + n <= |cells|
    requires other + n <= at || at + 32 <= other
    ensures Slice(Recorded(cells, at, g, width), other, n) == Slice(cells, other, n)
  {
    hide Overlay, Slice;
    var a := Overlay(cells, at, g.x1);
    var b := Overlay(a, at + 8, g.y1);
    var c := Overlay(b, at + 16, g.x2);
    OverlayElsewhere(cells, at, g.x1, other, n);
    OverlayElsewhere(a, at + 8, g.y1, other, n);
    OverlayElsewhere(b, at + 16, g.x2, other, n);
    OverlayElsewhere(c, at + 24, g.y2, other, n);
  }

  lemma GateElsewhere(cells: seq<byte>, at: nat, g: Gate, width: nat, other: nat)
    requires IsDouble(width) && Sized(g, width) && at + 32 <= |cells| && other + 32 <= |cells|
    requires other + 32 <= at || at + 32 <= other
    ensures GateAt(Recorded(cells, at, g, width), other, width) == GateAt(cells, other, width)
  {
    hide Recorded, Slice;
    forall k | k in [0, 8, 16, 24]
      ensures Slice(Recorded(cells, at, g, width), other + k, width) == Slice(cells, other + k, width)
    {
      RecordElsewhere(cells, at, g, width, other + k, width);
    }
    assert 0 in [0, 8, 16, 24] && 8 in [0, 8, 16, 24] && 16 in [0, 8, 16, 24] && 24 in [0, 8, 16, 24];
  }

  /** The gates, one record after another from the address. */
  ghost predicate Gates(cells: seq<byte>, at: nat, gates: seq<Gate>, width: nat)
    requires IsDouble(width) && at + 32 * |gates| <= |cells|
  {
    forall i | 0 <= i < |gates| :: GateAt(cells, at + 32 * i, width) == gates[i]
  }

  lemma OneMoreGate(cells: seq<byte>, at: nat, gates: seq<Gate>, g: Gate, width: nat)
    requires IsDouble(width) && Sized(g, width) && at + 32 * |gates| + 32 <= |cells|
    requires Gates(cells, at, gates, width)
    ensures Gates(Recorded(cells, at + 32 * |gates|, g, width), at, gates + [g], width)
  {
    hide Recorded, GateAt;
    RecordReadsBack(cells, at + 32 * |gates|, g, width);
    forall i | 0 <= i < |gates|
      ensures GateAt(Recorded(cells, at + 32 * |gates|, g, width), at + 32 * i, width) == gates[i]
    {
      GateElsewhere(cells, at + 32 * |gates|, g, width, at + 32 * i);
    }
  }

  /** The tag and the low byte of the count. */
  ghost predicate Header(cells: seq<byte>, ee: nat, count: nat)
    requires ee + 2 <= |cells|
  {
    Slice(cells, ee, 1) == [TAG] && Slice(cells, ee + 1, 1) == [count % 256]
  }

  /** What storeWaypoints leaves: the tag, the low byte of the count, and every gate. */
  ghost predicate Holds(cells: seq<byte>, ee: nat, gates: seq<Gate>, width: nat)
    requires IsDouble(width) && ee + 2 + 32 * |gates| <= |cells|
  {
    Header(cells, ee, |gates|) && Gates(cells, ee + 2, gates, width)
  }

  /** No slice that avoids the addresses has changed. */
  ghost predicate Untouched(before: seq<byte>, cells: seq<byte>, from: nat, to: nat)
    requires |before| == |cells|
  {
    forall other: nat, n: nat :: other + n <= |cells| && (other + n <= from || to <= other) ==>
      Slice(cells, other, n) == Slice(before, other, n)
  }

  lemma HeaderWritten(before: seq<byte>, ee: nat, count: nat)
    requires ee + 3 <= |before| && count < 65536
    ensures var cells := Overlay(Overlay(before, ee, [TAG, 0]), ee + 1, [count % 256, count / 256]);
            Header(cells, ee, count) && Untouched(before, cells, ee, ee + 3)
  {
    hide Overlay, Slice;
    var a := Overlay(before, ee, [TAG, 0]);
    var b := Overlay(a, ee + 1, [count % 256, count / 256]);
    OverlayCovered(before, ee, TAG, 0);
    OverlayElsewhere(a, ee + 1, [count % 256, count / 256], ee, 1);
    OverlayCovered(a, ee + 1, count % 256, count / 256);
    forall other: nat, n: nat | (other + n <= ee || ee + 3 <= other) && other + n <= |before|
      ensures Slice(b, other, n) == Slice(before, other, n)
    {
      OverlayElsewhere(before, ee, [TAG, 0], other, n);
      OverlayElsewhere(a, ee + 1, [count % 256, count / 256], other, n);
    }
  }

  lemma RecordWritten(before: seq<byte>, cells: seq<byte>, after: seq<byte>, ee: nat, gates: seq<Gate>, i: nat, width: nat)
    requires IsDouble(width) && AllSized(gates, width) && i < |gates| && |before| == |cells|
    requires ee + 3 + 32 * |gates| <= |cells|
    requires Header(cells, ee, |gates|) && Gates(cells, ee + 2, gates[..i], width)
    requires Untouched(before, cells, ee, ee + 3 + 32 * |gates|)
    requires after == Recorded(cells, ee + 2 + 32 * i, gates[i], width)
    ensures Header(after, ee, |gates|) && Gates(after, ee + 2, gates[..i + 1], width)
    ensures Untouched(before, after, ee, ee + 3 + 32 * |gates|)
  {
    hide Recorded, Slice, GateAt;
    var at := ee + 2 + 32 * i;
    assert gates[..i + 1] == gates[..i] + [gates[i]];
    OneMoreGate(cells, ee + 2, gates[..i], gates[i], width);
    RecordElsewhere(cells, at, gates[i], width, ee, 1);
    RecordElsewhere(cells, at, gates[i], width, ee + 1, 1);
    var end := ee + 3 + 32 * |gates|;
    forall other: nat, n: nat | (other + n <= ee || end <= other) && other + n <= |cells|
      ensures Slice(after, other, n) == Slice(before, other, n)
    {
      RecordElsewhere(cells, at, gates[i], width, other, n);
    }
  }

  /** storeWaypoints. With no gates the high byte of the count is the last byte written; otherwise
      the first coordinate covers it. Nothing else changes. */
  method StoreWaypoints(memory: Memory, address: nat, gates: seq<Gate>, width: nat)
    requires IsDouble(width) && AllSized(gates, width) && |gates| < 65536
    requires |memory.cells| == SIZE && address + 3 + 32 * |gates| <= SIZE
    modifies memory
    ensures |memory.cells| == SIZE && Holds(memory.cells, address, gates, width)
    ensures Untouched(old(memory.cells), memory.cells, address, address + 3 + 32 * |gates|)
  {
    hide Overlay, Slice, GateAt;
    ghost var before := memory.cells;
    var eeaddress := address;
    memory.WriteAnything(eeaddress, [TAG, 0]);
    eeaddress := eeaddress + 1;
    memory.WriteAnything(eeaddress, [|gates| % 256, |gates| / 256]);
    HeaderWritten(before, address, |gates|);
    eeaddress := eeaddress + 1;
    assert gates[..0] == [];
    for i := 0 to |gates|
      invariant eeaddress == address + 2 + 32 * i && |memory.cells| == SIZE
      invariant Header(memory.cells, address, |gates|) && Gates(memory.cells, address + 2, gates[..i], width)
      invariant Untouched(before, memory.cells, address, address + 3 + 32 * |gates|)
    {
      ghost var cells := memory.cells;
      memory.WriteAnything(eeaddress, gates[i].x1);
      eeaddress := eeaddress + 8;
      memory.WriteAnything(eeaddress, gates[i].y1);
      eeaddress := eeaddress + 8;
      memory.WriteAnything(eeaddress, gates[i].x2);
      eeaddress := eeaddress + 8;
      memory.WriteAnything(eeaddress, gates[i].y2);
      eeaddress := eeaddress + 8;
      RecordWritten(before, cells, memory.cells, address, gates, i, width);
    }
    assert gates[..|gates|] == gates;
  }

  /** The records that the count promises are in the memory. */
  predicate HasRoom(cells: seq<byte>, ee: nat) {
    ee + 2 <= |cells| && (Slice(cells, ee, 1) == [TAG] ==> ee + 2 + 32 * (Slice(cells, ee + 1, 1)[0] as int) <= |cells|)
  }

  /** What loadWaypoints makes of a memory: it writes the first entries of the vector, and the
      entries it has pushed come after those that were there. */
  function Loaded(cells: seq<byte>, ee: nat, vector: seq<Gate>, blank: Gate, width: nat): seq<Gate>
    requires IsDouble(width) && HasRoom(cells, ee)
  {
    if Slice(cells, ee, 1) != [TAG] then vector
    else
      var num := Slice(cells, ee + 1, 1)[0];
      seq(|vector| + num, i requires 0 <= i < |vector| + num =>
        if i < num then GateAt(cells, ee + 2 + 32 * i, width) else if i < |vector| then vector[i] else blank)
  }

  /** loadWaypoints, for a constructor that makes blank gates. */
  method LoadWaypoints(memory: Memory, address: nat, vector: seq<Gate>, blank: Gate, width: nat) returns (result: seq<Gate>)
    requires IsDouble(width) && HasRoom(memory.cells, address)
    ensures result == Loaded(memory.cells, address, vector, blank, width)
  {
    hide Slice;
    result := vector;
    var eeaddress := address;
    var c := memory.ReadAnything(eeaddress, 1);
    eeaddress := eeaddress + 1;
    if c == [TAG] {
      c := memory.ReadAnything(eeaddress, 1);
      eeaddress := eeaddress + 1;
      var num := c[0];
      for i := 0 to num
        invariant eeaddress == address + 2 + 32 * i && |result| == |vector| + i
        invariant forall k | 0 <= k < i :: result[k] == GateAt(memory.cells, address + 2 + 32 * k, width)
        invariant forall k | i <= k < |result| :: result[k] == if k < |vector| then vector[k] else blank
      {
        ghost var before := result;
        result := result + [blank];
        var gate := ReadGate(memory, eeaddress, result[i], width);
        result := result[i := gate];
        eeaddress := eeaddress + 32;
      }
    }
  }

  /** The four reads of one record, each into a field of the gate. */
  method ReadGate(memory: Memory, at: nat, gate: Gate, width: nat) returns (result: Gate)
    requires IsDouble(width) && at + 32 <= |memory.cells|
    ensures result == GateAt(memory.cells, at, width)
  {
    hide Slice;
    result := gate;
    var eeaddress := at;
    var x1 := memory.ReadAnything(eeaddress, width);
    result := result.(x1 := x1);
    eeaddress := eeaddress + 8;
    var y1 := memory.ReadAnything(eeaddress, width);
    result := result.(y1 := y1);
    eeaddress := eeaddress + 8;
    var x2 := memory.ReadAnything(eeaddress, width);
    result := result.(x2 := x2);
    eeaddress := eeaddress + 8;
    var y2 := memory.ReadAnything(eeaddress, width);
    result := result.(y2 := y2);
  }

  /** Loading what was stored, into any vector: as many gates as the low byte of the count says come
      first, then what the vector held beyond them, then blanks. */
  lemma LoadedAfterStore(cells: seq<byte>, ee: nat, gates: seq<Gate>, vector: seq<Gate>, blank: Gate, width: nat)
    requires IsDouble(width) && ee + 2 + 32 * |gates| <= |cells|
    requires Holds(cells, ee, gates, width)
    ensures HasRoom(cells, ee)
    ensures var num := |gates| % 256;
            var loaded := Loaded(cells, ee, vector, blank, width);
            && |loaded| == |vector| + num
            && loaded[..num] == gates[..num]
            && forall i | num <= i < |loaded| :: loaded[i] == if i < |vector| then vector[i] else blank
  {
    hide Slice, GateAt;
  }

  /** The round trip through an empty vector is exact if and only if there are at most 255 gates. */
  lemma RoundTripIffAtMost255(cells: seq<byte>, ee: nat, gates: seq<Gate>, blank: Gate, width: nat)
    requires IsDouble(width) && ee + 2 + 32 * |gates| <= |cells|
    requires Holds(cells, ee, gates, width)
    ensures HasRoom(cells, ee) && (Loaded(cells, ee, [], blank, width) == gates <==> |gates| <= 255)
  {
    hide Loaded, Slice, Gates;
    LoadedAfterStore(cells, ee, gates, [], blank, width);
    var loaded := Loaded(cells, ee, [], blank, width);
    assert loaded[..|gates| % 256] == loaded;
    if |gates| <= 255 {
      assert gates[..|gates| % 256] == gates;
    }
  }

  /** Loading at most 255 gates into a vector that already holds some loses the first of those: the
      result ends in blanks, and starts with the vector only if the vector agrees with the gates. */
  lemma LoadOverwritesVector(cells: seq<byte>, ee: nat, gates: seq<Gate>, vector: seq<Gate>, blank: Gate, width: nat)
    requires IsDouble(width) && ee + 2 + 32 * |gates| <= |cells| && 1 <= |gates| <= 255 && vector != []
    requires Holds(cells, ee, gates, width)
    ensures HasRoom(cells, ee)
    ensures var loaded := Loaded(cells, ee, vector, blank, width);
            && |loaded| == |vector| + |gates| && gates <= loaded && loaded[|loaded| - 1] == blank
            && (vector <= loaded ==> vector[0] == gates[0])
  {
    hide Loaded, Slice, Gates;
    LoadedAfterStore(cells, ee, gates, vector, blank, width);
    assert gates[..|gates|] == gates;
  }
}
