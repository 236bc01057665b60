// The W5100's socket buffers: 2 KB rings in chip memory, addressed by free-running 16-bit pointers,
// and the driver code of w5100.cpp and socket.cpp that copies into and out of them.

/** Rings in memory, and what it means to store and load around the end of one. */
module CircularBuffers {

  type byte = x: int | 0 <= x < 256
  type uint16 = x: int | 0 <= x < 65536

  const RING: nat := 2048  // SSIZE and RSIZE; SMASK and RMASK are RING - 1

  /** The address of the byte i places after the pointer. */
  function At(base: nat, ptr: int, i: nat): nat {
    base + (ptr + i) % RING
  }

  /** How far behind the pointer an address of the ring is. */
  function Behind(base: nat, ptr: int, a: nat): nat {
    (a - base - ptr) % RING
  }

  predicate InRing(base: nat, a: nat) {
    base <= a < base + RING
  }

  lemma BehindAt(base: nat, ptr: int, i: nat)
    requires i < RING
    ensures InRing(base, At(base, ptr, i)) && Behind(base, ptr, At(base, ptr, i)) == i
  {}

  lemma AtWraps(base: nat, ptr: int, n: nat, i: nat)
    ensures At(base, (ptr + n) % 65536, i) == At(base, ptr, n + i)
  {}

  /** The n bytes of a ring from the pointer on, one by one. */
  function Load(mem: seq<byte>, base: nat, ptr: int, n: nat): (s: seq<byte>)
    requires base + RING <= |mem|
    ensures |s| == n
  {
    seq(n, i requires 0 <= i < n => mem[At(base, ptr, i)])
  }

  /** Memory with the data stored from the pointer on, wrapping at the end of the ring. */
  function Store(mem: seq<byte>, base: nat, ptr: int, data: seq<byte>): (m: seq<byte>)
    requires base + RING <= |mem|
    ensures |m| == |mem|
  {
    seq(|mem|, a requires 0 <= a < |mem| =>
      if InRing(base, a) && Behind(base, ptr, a) < |data| then data[Behind(base, ptr, a)] else mem[a])
  }

  /** Storing after `used` unread bytes appends, if it fits. */
  lemma StoreAppends(mem: seq<byte>, base: nat, rd: int, used: nat, data: seq<byte>)
    requires base + RING <= |mem| && used + |data| <= RING
    ensures Load(Store(mem, base, (rd + used) % 65536, data), base, rd, used + |data|) == Load(mem, base, rd, used) + data
  {
    var wr := (rd + used) % 65536;
    var m := Store(mem, base, wr, data);
    hide At, Behind, InRing;
    forall i | 0 <= i < used + |data|
      ensures Load(m, base, rd, used + |data|)[i] == (Load(mem, base, rd, used) + data)[i]
    {
      BehindAt(base, rd, i);
      BehindOfNext(base, rd, used, i);
    }
  }

  lemma BehindOfNext(base: nat, rd: int, used: nat, i: nat)
    requires used <= RING && i < RING
    ensures var wr := (rd + used) % 65536;
            Behind(base, wr, At(base, rd, i)) == if i < used then i + RING - used else i - used
  {
    var p, q := (rd + i) / RING, (rd + used) / 65536;
    var d := At(base, rd, i) - base - (rd + used) % 65536;
    assert d == i - used + RING * (32 * q - p);
    SameRemainder(d, i - used, 32 * q - p);
  }

  lemma SameRemainder(x: int, y: int, k: int)
    requires x == y + RING * k
    ensures x % RING == y % RING
  {
    assert x == RING * (y / RING + k) + y % RING;
    UniqueRemainder(x, y / RING + k, y % RING);
  }

  lemma UniqueRemainder(x: int, q: int, r: nat)
    requires x == RING * q + r && r < RING
    ensures x % RING == r
  {}

  /** A store changes only its own ring. */
  lemma StoreElsewhere(mem: seq<byte>, base: nat, ptr: int, data: seq<byte>, other: nat, p: int, n: nat)
    requires base + RING <= |mem| && other + RING <= |mem|
    requires base + RING <= other || other + RING <= base
    ensures Load(Store(mem, base, ptr, data), other, p, n) == Load(mem, other, p, n)
  {}

  /** Loading from further on, and loading less. */
  lemma LoadFrom(mem: seq<byte>, base: nat, ptr: int, n: nat, k: nat)
    requires base + RING <= |mem| && k <= n
    ensures Load(mem, base, (ptr + k) % 65536, n - k) == Load(mem, base, ptr, n)[k..]
    ensures Load(mem, base, ptr, k) == Load(mem, base, ptr, n)[..k]
  {
    hide At;
    forall i | 0 <= i < n - k
      ensures Load(mem, base, (ptr + k) % 65536, n - k)[i] == Load(mem, base, ptr, n)[k..][i]
    {
      AtWraps(base, ptr, k, i);
    }
  }
}

/** The chip and the driver: every socket has an outgoing and an incoming queue of bytes. */
module W5100Chip {
  import opened CircularBuffers

  const SOCKETS: nat := 4
  const TXBUF_BASE: nat := 0x4000
  const RXBUF_BASE: nat := 0x6000
  const MEMORY: nat := 0x8000

  const CLOSED: byte := 0x00
  const LISTEN: byte := 0x14
  const ESTABLISHED: byte := 0x17
  const CLOSE_WAIT: byte := 0x1c

  function SBase(s: nat): nat {
    TXBUF_BASE + RING * s
  }

  function RBase(s: nat): nat {
    RXBUF_BASE + RING * s
  }

  /** How far apart two 16-bit pointers are. */
  function Gap(from: uint16, to: uint16): nat {
    (to - from) % 65536
  }

  /** Moving either pointer forward by n, modulo 65536. */
  lemma GapMoves(from: uint16, to: uint16, n: nat)
    requires Gap(from, to) + n <= 65535
    ensures to == (from + Gap(from, to)) % 65536
    ensures Gap(from, (to + n) % 65536) == Gap(from, to) + n
    ensures n <= Gap(from, to) ==> Gap((from + n) % 65536, to) == Gap(from, to) - n
  {}

  class W5100 {
    var mem: seq<byte>
    var txRd: seq<uint16>
    var txWr: seq<uint16>
    var rxRd: seq<uint16>
    var rxWr: seq<uint16>
    var status: seq<byte>

    ghost predicate Valid()
      reads this
    {
      && |mem| == MEMORY
      && |txRd| == |txWr| == |rxRd| == |rxWr| == |status| == SOCKETS
      && forall s: nat | s < SOCKETS :: Gap(txRd[s], txWr[s]) <= RING && Gap(rxRd[s], rxWr[s]) <= RING
    }

    /** The bytes of a socket not yet sent. */
    ghost function TxQueue(s: nat): seq<byte>
      requires Valid() && s < SOCKETS
      reads this
    {
      Load(mem, SBase(s), txRd[s], Gap(txRd[s], txWr[s]))
    }

    /** The bytes of a socket received and not yet read. */
    ghost function RxQueue(s: nat): seq<byte>
      requires Valid() && s < SOCKETS
      reads this
    {
      Load(mem, RBase(s), rxRd[s], Gap(rxRd[s], rxWr[s]))
    }

    /** The queues of the other sockets, and their registers, are as before. */
    twostate predicate OthersUnchanged(s: nat)
      requires old(Valid()) && Valid()
      reads this
    {
      forall t: nat | t < SOCKETS && t != s :: TxQueue(t) == old(TxQueue(t)) && RxQueue(t) == old(RxQueue(t))
    }

    constructor ()
      ensures Valid()
      ensures forall s: nat | s < SOCKETS :: TxQueue(s) == RxQueue(s) == []
    {
      mem := seq(MEMORY, _ => 0);
      txRd, txWr, rxRd, rxWr := [0, 0, 0, 0], [0, 0, 0, 0], [0, 0, 0, 0], [0, 0, 0, 0];
      status := [CLOSED, CLOSED, CLOSED, CLOSED];
    }

    // ---- The chip's side

    /** TX_FSR. */
    function TxFreeSize(s: nat): nat
      requires Valid() && s < SOCKETS
      reads this
    {
      RING - Gap(txRd[s], txWr[s])
    }

    /** RX_RSR. */
    function RxReceivedSize(s: nat): (n: nat)
      requires Valid() && s < SOCKETS
      reads this
      ensures n == |RxQueue(s)| <= RING
    {
      Gap(rxRd[s], rxWr[s])
    }

    /** The network takes the oldest k bytes of the outgoing queue. */
    method Transmit(s: nat, k: nat)
      requires Valid() && s < SOCKETS && k <= |TxQueue(s)|
      modifies this
      ensures Valid() && OthersUnchanged(s) && status == old(status)
      ensures TxQueue(s) == old(TxQueue(s))[k..] && RxQueue(s) == old(RxQueue(s))
    {
      GapMoves(txRd[s], txWr[s], k);
      LoadFrom(mem, SBase(s), txRd[s], Gap(txRd[s], txWr[s]), k);
      hide Gap, Load;
      txRd := txRd[s := (txRd[s] + k) % 65536];
    }

    /** The network delivers bytes, all of them, when they fit. */
    method Deliver(s: nat, data: seq<byte>)
      requires Valid() && s < SOCKETS && |data| <= RING - |RxQueue(s)|
      modifies this
      ensures Valid() && OthersUnchanged(s) && status == old(status)
      ensures RxQueue(s) == old(RxQueue(s)) + data && TxQueue(s) == old(TxQueue(s))
    {
      hide Gap, Load, Store;
      GapMoves(rxRd[s], rxWr[s], |data|);
      StoreAppends(mem, RBase(s), rxRd[s], Gap(rxRd[s], rxWr[s]), data);
      StoreKeepsOthers(RBase(s), rxWr[s], data);
      mem := Store(mem, RBase(s), rxWr[s], data);
      rxWr := rxWr[s := (rxWr[s] + |data|) % 65536];
    }

    lemma StoreKeepsOthers(base: nat, ptr: uint16, data: seq<byte>)
      requires Valid() && base + RING <= MEMORY
      ensures forall t: nat | t < SOCKETS && (SBase(t) + RING <= base || base + RING <= SBase(t)) ::
                Load(Store(mem, base, ptr, data), SBase(t), txRd[t], Gap(txRd[t], txWr[t])) == TxQueue(t)
      ensures forall t: nat | t < SOCKETS && (RBase(t) + RING <= base || base + RING <= RBase(t)) ::
                Load(Store(mem, base, ptr, data), RBase(t), rxRd[t], Gap(rxRd[t], rxWr[t])) == RxQueue(t)
    {
      forall t: nat | t < SOCKETS && (SBase(t) + RING <= base || base + RING <= SBase(t)) {
        StoreElsewhere(mem, base, ptr, data, SBase(t), txRd[t], Gap(txRd[t], txWr[t]));
      }
      forall t: nat | t < SOCKETS && (RBase(t) + RING <= base || base + RING <= RBase(t)) {
        StoreElsewhere(mem, base, ptr, data, RBase(t), rxRd[t], Gap(rxRd[t], rxWr[t]));
      }
    }

    // ---- w5100.cpp

    /** write: bytes to consecutive addresses. */
    method Write(addr: nat, buf: seq<byte>)
      requires addr + |buf| <= |mem|
      modifies this`mem
      ensures mem == old(mem)[..addr] + buf + old(mem)[addr + |buf|..]
    {
      for i := 0 to |buf|
        invariant mem == old(mem)[..addr] + buf[..i] + old(mem)[addr + i..]
      {
        mem := mem[addr + i := buf[i]];
        assert buf[..i + 1] == buf[..i] + [buf[i]];
      }
      assert buf[..|buf|] == buf;
    }

    /** read: bytes from consecutive addresses. */
    method Read(addr: nat, len: nat) returns (buf: seq<byte>)
      requires addr + len <= |mem|
      ensures buf == mem[addr..addr + len]
    {
      buf := [];
      for i := 0 to len
        invariant buf == mem[addr..addr + i]
      {
        buf := buf + [mem[addr + i]];
      }
    }

    /** The copy into the ring, split at its end. */
    method CopyIn(s: nat, ptr: uint16, data: seq<byte>)
      requires Valid() && s < SOCKETS && |data| <= RING
      modifies this`mem
      ensures mem == Store(old(mem), SBase(s), ptr, data)
    {
      hide Store;
      var offset := ptr % RING;
      var dstAddr := offset + SBase(s);
      if offset + |data| > RING {
        var size := RING - offset;
        Write(dstAddr, data[..size]);
        Write(SBase(s), data[size..]);
        StoreSplit(old(mem), SBase(s), ptr, data);
      } else {
        Write(dstAddr, data);
        StoreWhole(old(mem), SBase(s), ptr, data);
      }
    }

    /** send_data_processing_offset: copies behind the write pointer and moves it past the data. */
    method SendDataProcessingOffset(s: nat, dataOffset: nat, data: seq<byte>)
      requires Valid() && s < SOCKETS && |data| <= RING
      modifies this`mem, this`txWr
      ensures mem == Store(old(mem), SBase(s), (old(txWr)[s] + dataOffset) % 65536, data)
      ensures txWr == old(txWr)[s := (old(txWr)[s] + dataOffset + |data|) % 65536]
    {
      hide Store;
      var ptr := (txWr[s] + dataOffset) % 65536;
      CopyIn(s, ptr, data);
      ptr := (ptr + |data|) % 65536;
      txWr := txWr[s := ptr];
    }

    /** send_data_processing: appends to the outgoing queue what fits. */
    method SendDataProcessing(s: nat, data: seq<byte>)
      requires Valid() && s < SOCKETS && |data| <= RING - |TxQueue(s)|
      modifies this`mem, this`txWr
      ensures Valid() && OthersUnchanged(s)
      ensures TxQueue(s) == old(TxQueue(s)) + data && RxQueue(s) == old(RxQueue(s))
    {
      hide Gap, Load, Store;
      GapMoves(txRd[s], txWr[s], |data|);
      StoreAppends(mem, SBase(s), txRd[s], Gap(txRd[s], txWr[s]), data);
      StoreKeepsOthers(SBase(s), txWr[s], data);
      SendDataProcessingOffset(s, 0, data);
    }

    /** read_data: the copy out of the ring, split at its end. */
    method ReadData(s: nat, src: uint16, len: nat) returns (dst: seq<byte>)
      requires Valid() && s < SOCKETS && len <= RING
      ensures dst == Load(mem, RBase(s), src, len)
    {
      var srcMask := src % RING;
      var srcPtr := RBase(s) + srcMask;
      if srcMask + len > RING {
        var size := RING - srcMask;
        var first := Read(srcPtr, size);
        var second := Read(RBase(s), len - size);
        dst := first + second;
        assert dst == Load(mem, RBase(s), src, len) by {
          forall i | 0 <= i < len
            ensures dst[i] == mem[At(RBase(s), src, i)]
          {
            SplitAddress(RBase(s), src, i);
          }
        }
      } else {
        dst := Read(srcPtr, len);
        assert dst == Load(mem, RBase(s), src, len) by {
          forall i | 0 <= i < len
            ensures dst[i] == mem[At(RBase(s), src, i)]
          {
            SplitAddress(RBase(s), src, i);
          }
        }
      }
    }

    /** recv_data_processing: the bytes at the read pointer, which are the oldest of the incoming queue
        as far as that goes; they are consumed unless they are only peeked at. */
    method RecvDataProcessing(s: nat, len: nat, peek: bool) returns (data: seq<byte>)
      requires Valid() && s < SOCKETS && len <= RING && (peek || len <= |RxQueue(s)|)
      modifies this`rxRd
      ensures Valid() && OthersUnchanged(s) && TxQueue(s) == old(TxQueue(s))
      ensures data == Load(mem, RBase(s), old(rxRd)[s], len)
      ensures len <= old(|RxQueue(s)|) ==> data == old(RxQueue(s))[..len]
      ensures RxQueue(s) == if peek then old(RxQueue(s)) else old(RxQueue(s))[len..]
    {
      hide Gap, Load;
      if len <= |RxQueue(s)| {
        GapMoves(rxRd[s], rxWr[s], len);
        LoadFrom(mem, RBase(s), rxRd[s], Gap(rxRd[s], rxWr[s]), len);
      }
      var ptr := rxRd[s];
      data := ReadData(s, ptr, len);
      if !peek {
        ptr := (ptr + len) % 65536;
        rxRd := rxRd[s := ptr];
      }
    }
  }

  lemma SplitAddress(base: nat, ptr: int, i: nat)
    requires 0 <= ptr && i < RING
    ensures At(base, ptr, i) == if ptr % RING + i < RING then base + ptr % RING + i else base + i - (RING - ptr % RING)
  {}

  lemma StoreWhole(mem: seq<byte>, base: nat, ptr: uint16, data: seq<byte>)
    requires base + RING <= |mem| && ptr % RING + |data| <= RING
    ensures var at := base + ptr % RING;
            mem[..at] + data + mem[at + |data|..] == Store(mem, base, ptr, data)
  {
  }

  lemma StoreSplit(mem: seq<byte>, base: nat, ptr: uint16, data: seq<byte>)
    requires base + RING <= |mem| && |data| <= RING && ptr % RING + |data| > RING
    ensures var at := base + ptr % RING;
            var size := RING - ptr % RING;
            var first := mem[..at] + data[..size] + mem[at + size..];
            first[..base] + data[size..] + first[base + |data| - size..] == Store(mem, base, ptr, data)
  {
  }
}

/** socket.cpp over the chip: send appends to a queue of bytes, recv takes from one, peek only looks. */
module Sockets {
  import opened CircularBuffers
  import opened W5100Chip

  /** send, with the state in which each of its two waits ends: connected if there was room before
      the connection was lost, and sent unless the socket closed before the chip confirmed. */
  method Send(chip: W5100, s: nat, buf: seq<byte>, connected: bool, sent: bool) returns (ret: nat)
    requires chip.Valid() && s < SOCKETS
    requires connected ==> chip.TxFreeSize(s) >= if |buf| > RING then RING else |buf|
    modifies chip
    ensures chip.Valid() && chip.OthersUnchanged(s) && chip.RxQueue(s) == old(chip.RxQueue(s))
    ensures var accepted := if !connected then [] else if |buf| > RING then buf[..RING] else buf;
            && chip.TxQueue(s) == old(chip.TxQueue(s)) + accepted
            && ret == if sent then |accepted| else 0
  {
    if |buf| > RING {
      ret := RING;
    } else {
      ret := |buf|;
    }
    if !connected {
      ret := 0;
    }
    assert buf[..|buf|] == buf;
    chip.SendDataProcessing(s, buf[..ret]);
    if !sent {
      return 0;
    }
  }

  /** recv: up to len bytes; 0 at the end of a closed connection, -1 if there is nothing yet. */
  method Recv(chip: W5100, s: nat, len: int) returns (ret: int, data: seq<byte>)
    requires chip.Valid() && s < SOCKETS
    modifies chip
    ensures chip.Valid() && chip.OthersUnchanged(s) && chip.TxQueue(s) == old(chip.TxQueue(s))
    ensures chip.status == old(chip.status)
    ensures old(chip.RxQueue(s)) == data + chip.RxQueue(s)
    ensures |data| == if ret > 0 then ret else 0
    ensures ret == if old(chip.RxQueue(s)) == [] then
                     (if chip.status[s] == LISTEN || chip.status[s] == CLOSED || chip.status[s] == CLOSE_WAIT then 0 else -1)
                   else if |old(chip.RxQueue(s))| > len then len else |old(chip.RxQueue(s))|
  {
    ret := chip.RxReceivedSize(s);
    data := [];
    if ret == 0 {
      var status := chip.status[s];
      if status == LISTEN || status == CLOSED || status == CLOSE_WAIT {
        ret := 0;
      } else {
        ret := -1;
      }
    } else if ret > len {
      ret := len;
    }
    if ret > 0 {
      data := chip.RecvDataProcessing(s, ret, false);
    }
  }

  /** peek: the oldest byte, which stays in the queue; or, from an empty queue, whatever byte the
      memory has at the read pointer. */
  method Peek(chip: W5100, s: nat) returns (b: byte)
    requires chip.Valid() && s < SOCKETS
    modifies chip
    ensures chip.Valid() && chip.OthersUnchanged(s) && chip.TxQueue(s) == old(chip.TxQueue(s))
    ensures chip.status == old(chip.status) && chip.RxQueue(s) == old(chip.RxQueue(s))
    ensures b == if chip.RxQueue(s) != [] then chip.RxQueue(s)[0] else old(Load(chip.mem, RBase(s), chip.rxRd[s], 1))[0]
  {
    var data := chip.RecvDataProcessing(s, 1, true);
    b := data[0];
  }
}
