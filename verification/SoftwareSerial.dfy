// The receive ring of SoftwareSerial.cpp, shared without a lock between the receive interrupt, which
// moves the tail, and the reader, which moves the head.
module SerialRing {

  type byte = x: int | 0 <= x < 256

  const SIZE: nat := 64  // _SS_MAX_RX_BUFF

  datatype Ring = Ring(buffer: seq<byte>, head: nat, tail: nat, overflow: bool) {
    ghost predicate Valid() {
      |buffer| == SIZE && head < SIZE && tail < SIZE
    }
  }

  function Next(i: nat): nat {
    (i + 1) % SIZE
  }

  /** The distance from one index forward to another. */
  function Distance(head: nat, tail: nat): (n: nat)
    requires head < SIZE && tail < SIZE
    ensures n < SIZE
  {
    (tail + SIZE - head) % SIZE
  }

  lemma DistanceZero(head: nat, tail: nat)
    requires head < SIZE && tail < SIZE
    ensures Distance(head, tail) == 0 <==> head == tail
  {}

  lemma FullIffNext(r: Ring)
    requires r.Valid()
    ensures Next(r.tail) == r.head <==> Count(r) == SIZE - 1
    ensures Next(r.tail) < SIZE
  {}

  function Count(r: Ring): (n: nat)
    requires r.Valid()
    ensures n < SIZE
  {
    Distance(r.head, r.tail)
  }

  /** The unread bytes, oldest first. */
  function Contents(r: Ring): (s: seq<byte>)
    requires r.Valid()
    ensures |s| == Count(r)
  {
    seq(Count(r), i requires 0 <= i < Count(r) => r.buffer[(r.head + i) % SIZE])
  }

  /** The ring part of recv, which runs with interrupts disabled. */
  function Recv(r: Ring, d: byte): Ring
    requires r.Valid()
  {
    if Next(r.tail) != r.head then r.(buffer := r.buffer[r.tail := d], tail := Next(r.tail))
    else r.(overflow := true)
  }

  /** The store of the new head at the end of read. */
  function Pop(r: Ring): Ring
    requires r.Valid()
  {
    r.(head := Next(r.head))
  }

  lemma RecvCount(r: Ring)
    requires r.Valid() && Count(r) < SIZE - 1
    ensures Next(r.tail) < SIZE && Distance(r.head, Next(r.tail)) == Count(r) + 1
  {}

  /** The slots from the head on are the tail after the unread bytes, and not before. */
  lemma TailAfterContents(r: Ring, i: nat)
    requires r.Valid() && i <= Count(r)
    ensures (r.head + i) % SIZE == r.tail <==> i == Count(r)
  {}

  /** recv appends the byte, unless 63 bytes are unread: then it drops it and sets the flag. */
  lemma RecvAppends(r: Ring, d: byte)
    requires r.Valid()
    ensures Recv(r, d).Valid() && Recv(r, d).head == r.head
    ensures if Count(r) < SIZE - 1 then
              Contents(Recv(r, d)) == Contents(r) + [d] && Recv(r, d).overflow == r.overflow
            else
              Recv(r, d) == r.(overflow := true)
  {
    FullIffNext(r);
    if Count(r) < SIZE - 1 {
      RecvCount(r);
      hide Next, Distance;
      var s := Recv(r, d);
      forall i | 0 <= i < Count(s)
        ensures Contents(s)[i] == (Contents(r) + [d])[i]
      {
        TailAfterContents(r, i);
      }
    }
  }

  lemma NextThenOffset(h: nat, i: nat)
    requires h < SIZE && i < SIZE
    ensures (Next(h) + i) % SIZE == (h + (i + 1)) % SIZE
  {}

  lemma PopCount(r: Ring)
    requires r.Valid() && Count(r) > 0
    ensures Pop(r).Valid() && Count(Pop(r)) == Count(r) - 1
  {}

  lemma PopRemoves(r: Ring)
    requires r.Valid() && Count(r) > 0
    ensures Pop(r).Valid() && Contents(Pop(r)) == Contents(r)[1..]
    ensures Contents(r)[0] == r.buffer[r.head]
  {
    PopCount(r);
    var n := Count(Pop(r));
    hide Next, Count, Distance;
    forall i | 0 <= i < n
      ensures Contents(Pop(r))[i] == Contents(r)[1..][i]
    {
      NextThenOffset(r.head, i);
    }
  }
}

/** Every interleaving of the interrupt with the individual loads and stores of read and available. */
module SerialInterleaving {
  import opened SerialRing

  /** Where the reader is: what it has loaded so far. The two loads of a comparison or of a
      subtraction come in either order, which the language leaves open. */
  datatype Pc =
    | Idle
    | ReadHead(h: nat) | ReadTail(t: nat) | NotEmpty | Fetched(d: byte)
    | SizeHead(h: nat) | SizeTail(t: nat)

  /** The shared ring, the reader, and the bytes accepted and delivered since the last reset. */
  datatype System = System(ring: Ring, pc: Pc, accepted: seq<byte>, delivered: seq<byte>)

  /** One interrupt, or one load or store of the reader. */
  datatype Step =
    | Interrupt(d: byte)
    | LoadHead | LoadTail | Compare | Fetch | StoreHead
    | LoadHeadForSize | LoadTailForSize | Subtract
    | Reset

  /** The system after a step; a step the reader cannot take at its pc changes nothing. */
  function Take(s: System, step: Step): System
    requires s.ring.Valid()
  {
    var r := s.ring;
    match (step, s.pc)
    case (Interrupt(d), _) =>
      s.(ring := Recv(r, d), accepted := s.accepted + if Next(r.tail) != r.head then [d] else [])
    case (LoadHead, Idle) => s.(pc := ReadHead(r.head))
    case (LoadTail, Idle) => s.(pc := ReadTail(r.tail))
    case (Compare, ReadHead(h)) => s.(pc := if h == r.tail then Idle else NotEmpty)
    case (Compare, ReadTail(t)) => s.(pc := if r.head == t then Idle else NotEmpty)
    case (Fetch, NotEmpty) => s.(pc := Fetched(r.buffer[r.head]))
    case (StoreHead, Fetched(d)) => s.(ring := Pop(r), pc := Idle, delivered := s.delivered + [d])
    case (LoadHeadForSize, Idle) => s.(pc := SizeHead(r.head))
    case (LoadTailForSize, Idle) => s.(pc := SizeTail(r.tail))
    case (Subtract, SizeHead(_)) => s.(pc := Idle)
    case (Subtract, SizeTail(_)) => s.(pc := Idle)
    case (Reset, Idle) => System(r.(head := 0, tail := 0), Idle, [], [])
    case _ => s
  }

  /** What available returns when its second load and the subtraction happen now. */
  function Available(s: System): nat
    requires s.ring.Valid()
  {
    match s.pc
    case SizeHead(h) => if h < SIZE then Distance(h, s.ring.tail) else 0
    case SizeTail(t) => if t < SIZE then Distance(s.ring.head, t) else 0
    case _ => 0
  }

  /** The loaded values are still good: the head is, and an old tail is no further than the tail. */
  ghost predicate PcFits(s: System)
    requires s.ring.Valid()
  {
    match s.pc
    case Idle => true
    case ReadHead(h) => h == s.ring.head
    case SizeHead(h) => h == s.ring.head
    case ReadTail(t) => t < SIZE && Distance(s.ring.head, t) <= Count(s.ring)
    case SizeTail(t) => t < SIZE && Distance(s.ring.head, t) <= Count(s.ring)
    case NotEmpty => Count(s.ring) > 0
    case Fetched(d) => Count(s.ring) > 0 && d == Contents(s.ring)[0]
  }

  /** Every byte accepted has been delivered or is in the ring, in order. */
  ghost predicate Inv(s: System) {
    s.ring.Valid() && PcFits(s) && s.accepted == s.delivered + Contents(s.ring)
  }

  lemma TakeKeepsInv(s: System, step: Step)
    requires Inv(s)
    ensures Inv(Take(s, step))
  {
    hide Next, Distance, Contents;
    DistanceZero(s.ring.head, s.ring.tail);
    DistanceZero(0, 0);
    match step
    case Interrupt(d) => InterruptKeepsInv(s, d);
    case StoreHead =>
      if s.pc.Fetched? {
        PopRemoves(s.ring);
        var c := Contents(s.ring);
        assert c == [c[0]] + c[1..];
      }
    case Fetch =>
      if s.pc.NotEmpty? {
        PopRemoves(s.ring);
      }
    case Compare =>
      if s.pc.ReadTail? {
        DistanceZero(s.ring.head, s.pc.t);
      }
    case _ =>
  }

  lemma InterruptKeepsInv(s: System, d: byte)
    requires Inv(s)
    ensures Inv(Take(s, Interrupt(d)))
  {
    FullIffNext(s.ring);
    hide Next, Contents;
    RecvAppends(s.ring, d);
  }

  function Run(s: System, steps: seq<Step>): System
    requires Inv(s)
    decreases |steps|
  {
    if steps == [] then s
    else
      TakeKeepsInv(s, steps[0]);
      Run(Take(s, steps[0]), steps[1..])
  }

  /** A ring just reset by begin, listen or flush. */
  ghost predicate Fresh(s: System) {
    s.ring.Valid() && s.ring.head == s.ring.tail && s.pc == Idle && s.accepted == s.delivered == []
  }

  /** Over every run, the bytes read are the bytes accepted, in order, and none is lost in between. */
  lemma {:induction false} BytesReadInOrder(s: System, steps: seq<Step>)
    requires Inv(s)
    ensures var f := Run(s, steps);
            && Inv(f) && f.delivered <= f.accepted
            && f.accepted[|f.delivered|..] == Contents(f.ring)
    decreases |steps|
  {
    if steps == [] {
    } else {
      TakeKeepsInv(s, steps[0]);
      BytesReadInOrder(Take(s, steps[0]), steps[1..]);
    }
  }

  lemma FreshIsInv(s: System)
    requires Fresh(s)
    ensures Inv(s)
  {}

  /** From a reset on, by begin, listen or flush: what was accepted since is what was read, then what is
      unread. */
  lemma RunFromReset(s: System, steps: seq<Step>)
    requires Fresh(s)
    ensures Inv(s)
    ensures var f := Run(s, steps); Inv(f) && f.accepted == f.delivered + Contents(f.ring)
  {
    FreshIsInv(s);
    BytesReadInOrder(s, steps);
  }

  /** At any point of a run the interrupt drops its byte if and only if 63 bytes are unread. */
  lemma DroppedIffFull(s: System, d: byte)
    requires Inv(s)
    ensures var t := Take(s, Interrupt(d));
            && (t.accepted == s.accepted <==> |s.accepted| - |s.delivered| == SIZE - 1)
            && (t.accepted != s.accepted ==> t.accepted == s.accepted + [d] && t.ring.overflow == s.ring.overflow)
            && (t.accepted == s.accepted ==> t.ring.overflow)
  {
    FullIffNext(s.ring);
    hide Next, Contents;
    RecvAppends(s.ring, d);
  }

  /** available never overstates what is unread, and is exact if its tail load comes last. */
  lemma AvailableNeverOverstates(s: System)
    requires Inv(s)
    ensures Available(s) <= |s.accepted| - |s.delivered|
    ensures s.pc.SizeHead? ==> Available(s) == |s.accepted| - |s.delivered|
  {}

  /** The interrupts of a gap. */
  function Interrupted(s: System, gap: seq<byte>): (t: System)
    requires Inv(s)
    ensures Inv(t)
    decreases |gap|
  {
    if gap == [] then s
    else
      TakeKeepsInv(s, Interrupt(gap[0]));
      Interrupted(Take(s, Interrupt(gap[0])), gap[1..])
  }

  lemma {:induction false} InterruptsMoveTail(s: System, gap: seq<byte>)
    requires Inv(s)
    ensures var t := Interrupted(s, gap);
            && Inv(t) && t.pc == s.pc && t.delivered == s.delivered && s.accepted <= t.accepted
            && t.ring.head == s.ring.head
    decreases |gap|
  {
    if gap != [] {
      TakeKeepsInv(s, Interrupt(gap[0]));
      hide Inv;
      InterruptsMoveTail(Take(s, Interrupt(gap[0])), gap[1..]);
    }
  }

  /** read gives up if and only if nothing was unread when it loaded the tail, whichever of its two
      loads comes first and whatever is received between them and after. */
  lemma GivesUpIffEmpty(s: System, gap: seq<byte>)
    requires Inv(s) && s.pc == Idle
    ensures Inv(Take(s, LoadTail)) && Inv(Take(s, LoadHead))
    ensures Take(Interrupted(Take(s, LoadTail), gap), Compare).pc == Idle <==> s.accepted == s.delivered
    ensures var u := Interrupted(Take(s, LoadHead), gap);
            Take(u, Compare).pc == Idle <==> u.accepted == u.delivered
  {
    TakeKeepsInv(s, LoadTail);
    TakeKeepsInv(s, LoadHead);
    InterruptsMoveTail(Take(s, LoadTail), gap);
    InterruptsMoveTail(Take(s, LoadHead), gap);
    var u := Interrupted(Take(s, LoadHead), gap);
    DistanceZero(s.ring.head, s.ring.tail);
    DistanceZero(u.ring.head, u.ring.tail);
    hide Interrupted, Distance, Next, Contents;
  }
}

/** The object as the sketch uses it. Each method takes the bytes whose interrupts fall in the gaps
    between its loads and stores, so a caller's choice of gaps is a choice of interleaving. */
module SoftwareSerialPort {
  import opened SerialRing
  import opened SerialInterleaving

  type Gaps = seq<seq<byte>>

  /** The value of a byte of a char array as an int. */
  function SignedChar(b: byte): (r: int)
    ensures -128 <= r < 128 && (r - b) % 256 == 0
  {
    if b < 128 then b else b as int - 256
  }

  /** The receive ring, and the object that listens: there is one of each. */
  class Port {
    var buffer: array<byte>
    var head: nat
    var tail: nat
    var active: SoftwareSerial?
    ghost var accepted: seq<byte>
    ghost var delivered: seq<byte>

    constructor ()
      ensures fresh(buffer) && buffer.Length == SIZE && head == tail == 0 && active == null && accepted == delivered == []
    {
      buffer := new byte[64](_ => 0);
      head, tail, active := 0, 0, null;
      accepted, delivered := [], [];
    }
  }

  class SoftwareSerial {
    const port: Port
    var overflowed: bool

    ghost function View(pc: Pc): System
      reads this, port, port.buffer
    {
      System(Ring(port.buffer[..], port.head, port.tail, overflowed), pc, port.accepted, port.delivered)
    }

    ghost predicate Valid()
      reads this, port, port.buffer
    {
      Inv(View(Idle))
    }

    predicate IsListening()
      reads port
    {
      port.active == this
    }

    /** The buffer and the listener stay. */
    twostate predicate SamePort()
      reads port
    {
      port.buffer == old(port.buffer) && port.active == old(port.active)
    }

    constructor (port: Port)
      requires port.buffer.Length == SIZE && port.head < SIZE && port.tail < SIZE
      requires Inv(System(Ring(port.buffer[..], port.head, port.tail, false), Idle, port.accepted, port.delivered))
      ensures Valid() && this.port == port && !overflowed
    {
      this.port := port;
      overflowed := false;
    }

    /** The interrupt handler's call to recv with the byte it has sampled. */
    method Recv(d: byte)
      requires port.buffer.Length == SIZE && port.head < SIZE && port.tail < SIZE
      modifies this, port, port.buffer
      ensures SamePort() && forall pc :: View(pc) == Take(old(View(pc)), Interrupt(d))
    {
      if (port.tail + 1) % SIZE != port.head {
        port.buffer[port.tail] := d;
        port.tail := (port.tail + 1) % SIZE;
        port.accepted := port.accepted + [d];
      } else {
        overflowed := true;
      }
    }

    /** The interrupts of one gap, each finding the reader at pc. */
    method Interrupts(gap: seq<byte>, ghost pc: Pc)
      requires Inv(View(pc))
      modifies this, port, port.buffer
      ensures Inv(View(pc)) && SamePort()
      ensures port.delivered == old(port.delivered) && old(port.accepted) <= port.accepted && port.head == old(port.head)
    {
      for i := 0 to |gap|
        invariant Inv(View(pc)) && SamePort()
        invariant port.delivered == old(port.delivered) && old(port.accepted) <= port.accepted && port.head == old(port.head)
      {
        TakeKeepsInv(View(pc), Interrupt(gap[i]));
        InterruptOnlyAppends(View(pc), gap[i]);
        Recv(gap[i]);
      }
    }

    lemma InterruptOnlyAppends(s: System, d: byte)
      requires Inv(s)
      ensures var t := Take(s, Interrupt(d));
              t.delivered == s.delivered && s.accepted <= t.accepted && t.ring.head == s.ring.head && t.pc == s.pc
    {
      RecvAppends(s.ring, d);
    }

    /** read: the next byte not yet delivered, or -1; and -1 only if not listening or nothing was unread. */
    method Read(gaps: Gaps) returns (result: int)
      requires Valid() && |gaps| == 4
      modifies this, port, port.buffer
      ensures Valid() && SamePort() && old(port.accepted) <= port.accepted
      ensures if result == -1 then port.delivered == old(port.delivered)
              else 0 <= result < 256 && port.delivered == old(port.delivered) + [result]
      ensures !IsListening() ==> result == -1
      ensures IsListening() && old(port.accepted) != old(port.delivered) ==> result != -1
    {
      hide Contents, Next, Distance, SerialRing.Recv;
      if !IsListening() {
        return -1;
      }
      Interrupts(gaps[0], Idle);
      var h := port.head;
      Interrupts(gaps[1], ReadHead(h));
      DistanceZero(port.head, port.tail);
      if h == port.tail {
        return -1;
      }
      Interrupts(gaps[2], NotEmpty);
      PopRemoves(View(NotEmpty).ring);
      var d := port.buffer[port.head];
      Interrupts(gaps[3], Fetched(d));
      TakeKeepsInv(View(Fetched(d)), StoreHead);
      port.head := Next(port.head);
      port.delivered := port.delivered + [d];
      return d;
    }

    /** available, with the tail loaded first: never more than what is unread when it returns. */
    method Available(gaps: Gaps) returns (n: nat)
      requires Valid() && |gaps| == 2
      modifies this, port, port.buffer
      ensures Valid() && SamePort() && old(port.accepted) <= port.accepted && port.delivered == old(port.delivered)
      ensures n <= |port.accepted| - |port.delivered|
      ensures if IsListening() then |old(port.accepted)| - |old(port.delivered)| <= n else n == 0
    {
      if !IsListening() {
        return 0;
      }
      Interrupts(gaps[0], Idle);
      var t := port.tail;
      Interrupts(gaps[1], SizeTail(t));
      return (t + SIZE - port.head) % SIZE;
    }

    /** peek: the next byte as a signed char, so that a byte of 255 looks like no byte at all. */
    method Peek() returns (result: int)
      requires Valid()
      ensures result == -1 <==> !IsListening() || port.accepted == port.delivered || port.accepted[|port.delivered|] == 255
      ensures result != -1 ==> -128 <= result < 128 && (result - port.accepted[|port.delivered|]) % 256 == 0
    {
      if !IsListening() {
        return -1;
      }
      if port.head == port.tail {
        return -1;
      }
      PopRemoves(View(Idle).ring);
      result := SignedChar(port.buffer[port.head]);
    }

    /** flush: discards what is unread, with interrupts disabled. */
    method Flush()
      requires Valid()
      modifies port
      ensures Valid() && SamePort()
      ensures if IsListening() then port.accepted == port.delivered == []
              else port.accepted == old(port.accepted) && port.delivered == old(port.delivered)
    {
      if !IsListening() {
        return;
      }
      port.head, port.tail := 0, 0;
      port.accepted, port.delivered := [], [];
    }

    /** listen: true if this object was not the listening one. It is now, and no other; and what the
        other had not read is gone. */
    method Listen() returns (replaced: bool)
      requires Valid()
      modifies this, port
      ensures Valid() && port.buffer == old(port.buffer) && port.active == this
      ensures replaced <==> old(port.active) != this
      ensures if replaced then port.accepted == port.delivered == [] && !overflowed
              else port.accepted == old(port.accepted) && port.delivered == old(port.delivered) && overflowed == old(overflowed)
    {
      if port.active != this {
        overflowed := false;
        port.head, port.tail := 0, 0;
        port.accepted, port.delivered := [], [];
        port.active := this;
        return true;
      }
      return false;
    }
  }
}
