// EthernetUDP: datagrams parsed by hand out of a socket's byte queue, with _remaining as the only
// framing state.

/** Datagrams, and the state of a UDP socket as its user should see it. */
module UdpFraming {
  import opened CircularBuffers

  /** A datagram as the chip queues it: source address, source port, length, payload. */
  datatype Datagram = Datagram(ip: seq<byte>, port: uint16, payload: seq<byte>) {
    ghost predicate Valid() {
      |ip| == 4 && 8 + |payload| <= RING
    }
  }

  function Header(d: Datagram): (h: seq<byte>)
    requires d.Valid()
    ensures |h| == 8
  {
    d.ip + [d.port / 256, d.port % 256, |d.payload| / 256, |d.payload| % 256]
  }

  /** A byte shifted into a 16-bit field. */
  function ShiftIn(field: uint16, b: byte): uint16 {
    (field % 256) * 256 + b
  }

  /** The fields of a header, as parsePacket computes them from its bytes. */
  lemma HeaderFields(d: Datagram)
    requires d.Valid()
    ensures var h := Header(d);
            && h[..4] == d.ip
            && ShiftIn(h[4], h[5]) == d.port
            && ShiftIn(h[6], h[7]) == |d.payload|
  {}

  ghost predicate AllValid(ds: seq<Datagram>) {
    forall i | 0 <= i < |ds| :: ds[i].Valid()
  }

  /** Whole datagrams, one after the other. */
  function Queued(ds: seq<Datagram>): seq<byte>
    requires AllValid(ds)
  {
    if ds == [] then [] else Header(ds[0]) + ds[0].payload + Queued(ds[1..])
  }

  lemma QueuedFirst(ds: seq<Datagram>)
    requires AllValid(ds) && ds != []
    ensures AllValid(ds[1..]) && |Header(ds[0])| == 8
    ensures Queued(ds) == Header(ds[0]) + (ds[0].payload + Queued(ds[1..]))
  {
    hide Header;
  }

  lemma {:induction false} QueuedAppend(ds: seq<Datagram>, d: Datagram)
    requires AllValid(ds) && d.Valid()
    ensures AllValid(ds + [d]) && Queued(ds + [d]) == Queued(ds) + Header(d) + d.payload
  {
    if ds == [] {
      assert ds + [d] == [d];
      assert Queued([d][1..]) == [];
    } else {
      assert (ds + [d])[1..] == ds[1..] + [d];
      QueuedAppend(ds[1..], d);
    }
  }

  /** parsed: the datagrams parsePacket has returned, with what was read of each; current: what is
      unread of the last of them; later: the datagrams not yet parsed. */
  datatype Stream = Stream(parsed: seq<Datagram>, got: seq<seq<byte>>, current: seq<byte>, later: seq<Datagram>)

  datatype Operation = Arrive(d: Datagram) | Read(n: nat) | Peek | Flush | Parse

  /** Reading is from the current datagram only, and parsing drops the rest of it. */
  function Apply(u: Stream, op: Operation): (r: Stream)
    requires |u.got| == |u.parsed|
    ensures |r.got| == |r.parsed|
  {
    match op
    case Arrive(d) => u.(later := u.later + [d])
    case Read(n) =>
      var k := if n <= |u.current| then n else |u.current|;
      if u.got == [] then u
      else u.(got := u.got[|u.got| - 1 := u.got[|u.got| - 1] + u.current[..k]], current := u.current[k..])
    case Peek => u
    case Flush => u.(current := [])
    case Parse =>
      if u.later == [] then u.(current := [])
      else Stream(u.parsed + [u.later[0]], u.got + [[]], u.later[0].payload, u.later[1..])
  }

  /** No datagram is lost, reordered or run into the next: every byte delivered belongs to the
      datagram parsed last at the time, and follows those delivered before. */
  ghost predicate Framed(u: Stream, arrived: seq<Datagram>) {
    && |u.got| == |u.parsed| && u.parsed + u.later == arrived
    && (forall i | 0 <= i < |u.got| :: u.got[i] <= u.parsed[i].payload)
    && (u.current != [] ==> u.got != [] && u.got[|u.got| - 1] + u.current == u.parsed[|u.got| - 1].payload)
  }

  function Arrival(op: Operation): seq<Datagram> {
    if op.Arrive? then [op.d] else []
  }

  function Arrivals(ops: seq<Operation>): seq<Datagram> {
    if ops == [] then [] else Arrival(ops[0]) + Arrivals(ops[1..])
  }

  function Run(u: Stream, ops: seq<Operation>): (r: Stream)
    requires |u.got| == |u.parsed|
    ensures |r.got| == |r.parsed|
    decreases |ops|
  {
    if ops == [] then u else Run(Apply(u, ops[0]), ops[1..])
  }

  lemma ReadKeepsFramed(u: Stream, n: nat, arrived: seq<Datagram>)
    requires Framed(u, arrived)
    ensures Framed(Apply(u, Read(n)), arrived)
  {
    if u.got != [] {
      var last := |u.got| - 1;
      var k := if n <= |u.current| then n else |u.current|;
      assert u.current[..k] + u.current[k..] == u.current;
      assert (u.got[last] + u.current[..k]) + u.current[k..] == u.got[last] + u.current;
    }
  }

  lemma ParseKeepsFramed(u: Stream, arrived: seq<Datagram>)
    requires Framed(u, arrived)
    ensures Framed(Apply(u, Parse), arrived)
  {
    if u.later != [] {
      assert u.later == [u.later[0]] + u.later[1..];
      assert (u.parsed + [u.later[0]]) + u.later[1..] == u.parsed + u.later;
    }
  }

  lemma ApplyKeepsFramed(u: Stream, op: Operation, arrived: seq<Datagram>)
    requires Framed(u, arrived)
    ensures Framed(Apply(u, op), arrived + Arrival(op))
  {
    assert arrived + [] == arrived;
    match op
    case Arrive(d) =>
    case Read(n) => ReadKeepsFramed(u, n, arrived);
    case Peek =>
    case Flush =>
    case Parse => ParseKeepsFramed(u, arrived);
  }

  /** Over every interleaving of arrivals and calls, the framing never slips. */
  lemma {:induction false} FramingNeverSlips(u: Stream, ops: seq<Operation>, arrived: seq<Datagram>)
    requires |u.got| == |u.parsed| && Framed(u, arrived)
    ensures Framed(Run(u, ops), arrived + Arrivals(ops))
    decreases |ops|
  {
    hide Framed, Apply, Arrival;
    if ops == [] {
      assert arrived + [] == arrived;
    } else {
      var a := Arrival(ops[0]);
      var b := Arrivals(ops[1..]);
      ApplyKeepsFramed(u, ops[0], arrived);
      FramingNeverSlips(Apply(u, ops[0]), ops[1..], arrived + a);
      assert (arrived + a) + b == arrived + (a + b);
    }
  }

  // ---- Nothing of a datagram is skipped

  /** Reads and peeks, and whatever arrives between them. */
  predicate Reading(ops: seq<Operation>) {
    forall op | op in ops :: op.Arrive? || op.Read? || op.Peek?
  }

  /** How many bytes the reads ask for, all together. */
  function Asked(ops: seq<Operation>): nat {
    if ops == [] then 0 else (if ops[0].Read? then ops[0].n else 0) + Asked(ops[1..])
  }

  function Least(m: nat, n: nat): nat {
    if m <= n then m else n
  }

  /** What is got by a read is what comes next, and what is left is what comes after that. */
  ghost predicate Took(u: Stream, v: Stream, n: nat) {
    var k := Least(n, |u.current|);
    && v.parsed == u.parsed && |u.got| == |v.got| > 0
    && v.got == u.got[..|u.got| - 1] + [u.got[|u.got| - 1] + u.current[..k]] && v.current == u.current[k..]
  }

  lemma TookOne(u: Stream, op: Operation)
    requires |u.got| == |u.parsed| > 0 && (op.Arrive? || op.Read? || op.Peek?)
    ensures Took(u, Apply(u, op), if op.Read? then op.n else 0)
  {
    var last := |u.got| - 1;
    assert u.current[..0] == [] && u.current[0..] == u.current;
    assert u.got[last] + [] == u.got[last];
    assert u.got == u.got[..last] + [u.got[last]];
    if op.Read? {
      var k := Least(op.n, |u.current|);
      assert u.got[last := u.got[last] + u.current[..k]] == u.got[..last] + [u.got[last] + u.current[..k]];
    }
  }

  lemma TakenTwice(c: seq<byte>, m: nat, n: nat)
    ensures var j := Least(m, |c|);
            var k, l := Least(n, |c[j..]|), Least(m + n, |c|);
            c[..j] + c[j..][..k] == c[..l] && c[j..][k..] == c[l..]
  {}

  lemma TookTwice(u: Stream, v: Stream, w: Stream, m: nat, n: nat)
    requires Took(u, v, m) && Took(v, w, n)
    ensures Took(u, w, m + n)
  {
    TakenTwice(u.current, m, n);
    var last, j := |u.got| - 1, Least(m, |u.current|);
    var k := Least(n, |v.current|);
    hide Least;
    assert (u.got[last] + u.current[..j]) + v.current[..k] == u.got[last] + (u.current[..j] + v.current[..k]);
    assert v.got[..last] == u.got[..last] && v.got[last] == u.got[last] + u.current[..j];
  }

  lemma {:induction false} ReadsTake(u: Stream, ops: seq<Operation>)
    requires |u.got| == |u.parsed| > 0 && Reading(ops)
    ensures Took(u, Run(u, ops), Asked(ops))
    decreases |ops|
  {
    hide Apply, Took;
    if ops == [] {
      TookOne(u, Peek);
      PeekTakesNothing(u);
    } else {
      assert ops[0] in ops && forall op | op in ops[1..] :: op in ops;
      TookOne(u, ops[0]);
      TookKeepsLengths(u, Apply(u, ops[0]), if ops[0].Read? then ops[0].n else 0);
      ReadsTake(Apply(u, ops[0]), ops[1..]);
      TookTwice(u, Apply(u, ops[0]), Run(u, ops), if ops[0].Read? then ops[0].n else 0, Asked(ops[1..]));
    }
  }

  lemma PeekTakesNothing(u: Stream)
    requires |u.got| == |u.parsed|
    ensures Apply(u, Peek) == u
  {}

  lemma TookKeepsLengths(u: Stream, v: Stream, n: nat)
    requires Took(u, v, n) && |u.got| == |u.parsed|
    ensures |v.got| == |v.parsed| > 0
  {}

  /** After the parse that starts a datagram, the reads get its payload from the start, byte after byte and
      without a gap, however they are cut, whatever arrives, until all of it is there; and nothing else. */
  lemma ReadsGetThePayload(u: Stream, ops: seq<Operation>)
    requires |u.got| == |u.parsed| && u.later != [] && Reading(ops)
    ensures var d := u.later[0];
            var v := Run(Apply(u, Parse), ops);
            && v.parsed == u.parsed + [d] && v.got == u.got + [d.payload[..Least(Asked(ops), |d.payload|)]]
            && v.current == d.payload[Least(Asked(ops), |d.payload|)..]
  {
    var w := Apply(u, Parse);
    ReadsTake(w, ops);
    hide Run;
    assert w.got[..|u.got|] == u.got;
    var k := Least(Asked(ops), |w.current|);
    assert [] + w.current[..k] == w.current[..k];
  }

  /** A flush before a parse makes no difference: it drops what is left of the current datagram, and no more. */
  lemma FlushThenParse(u: Stream)
    requires |u.got| == |u.parsed|
    ensures Apply(Apply(u, Flush), Parse) == Apply(u, Parse)
    ensures forall n: nat :: Apply(Apply(u, Flush), Read(n)).got == u.got
  {
    forall n: nat
      ensures Apply(Apply(u, Flush), Read(n)).got == u.got
    {
      var v := Apply(u, Flush);
      if u.got != [] {
        var last := |u.got| - 1;
        assert u.got[last := u.got[last] + []] == u.got by { assert u.got[last] + [] == u.got[last]; }
      }
    }
  }

  lemma ApplyKeepsEarlier(u: Stream, op: Operation, m: nat)
    requires |u.got| == |u.parsed| && m <= |u.got| && (m == |u.got| ==> u.current == [])
    ensures var v := Apply(u, op);
            && m <= |v.got| && v.got[..m] == u.got[..m] && v.parsed[..m] == u.parsed[..m]
            && (m == |v.got| ==> v.current == [])
  {
    if op.Read? && u.got != [] {
      var last := |u.got| - 1;
      assert m == |u.got| ==> u.got[last] + [] == u.got[last];
    }
  }

  lemma {:induction false} RunKeepsEarlier(u: Stream, ops: seq<Operation>, m: nat)
    requires |u.got| == |u.parsed| && m <= |u.got| && (m == |u.got| ==> u.current == [])
    ensures var v := Run(u, ops); m <= |v.got| && v.got[..m] == u.got[..m] && v.parsed[..m] == u.parsed[..m]
    decreases |ops|
  {
    hide Apply;
    if ops != [] {
      ApplyKeepsEarlier(u, ops[0], m);
      RunKeepsEarlier(Apply(u, ops[0]), ops[1..], m);
    }
  }

  /** A flush or a parse ends a datagram: whatever is called later, no more of it is got. */
  lemma EndedForGood(u: Stream, op: Operation, ops: seq<Operation>)
    requires |u.got| == |u.parsed| && (op == Flush || op == Parse)
    ensures u.got <= Run(Apply(u, op), ops).got && u.parsed <= Run(Apply(u, op), ops).parsed
  {
    var v := Apply(u, op);
    RunKeepsEarlier(v, ops, |u.got|);
    hide Run;
    assert v.got[..|u.got|] == u.got && v.parsed[..|u.got|] == u.parsed;
  }
}

/** EthernetUdp.cpp over the sockets of the chip. */
module EthernetUdpSocket {
  import opened CircularBuffers
  import opened W5100Chip
  import opened UdpFraming
  import Sockets

  /** A prefix taken off a queue is a prefix of its first part, if that is long enough. */
  lemma SplitFirst(data: seq<byte>, rest: seq<byte>, first: seq<byte>, second: seq<byte>)
    requires data + rest == first + second && |data| <= |first|
    ensures data == first[..|data|] && rest == first[|data|..] + second
  {
    assert forall i | 0 <= i < |data| :: data[i] == (data + rest)[i];
    assert rest == (data + rest)[|data|..];
  }

  class EthernetUDP {
    const chip: W5100
    const sock: nat
    var remaining: nat
    var remoteIP: seq<byte>
    var remotePort: uint16
    ghost var stream: Stream

    /** The receive queue is the unread tail of the current datagram, _remaining bytes long, and
        then whole later datagrams. */
    ghost predicate Valid()
      reads this, chip
    {
      && chip.Valid() && sock < SOCKETS
      && |stream.got| == |stream.parsed| && (stream.current != [] ==> stream.got != [])
      && remaining == |stream.current| && AllValid(stream.later)
      && chip.RxQueue(sock) == stream.current + Queued(stream.later)
    }

    constructor (chip: W5100, sock: nat)
      requires chip.Valid() && sock < SOCKETS && chip.RxQueue(sock) == []
      ensures Valid() && this.chip == chip && this.sock == sock && stream == Stream([], [], [], [])
    {
      this.chip, this.sock := chip, sock;
      remaining, remoteIP, remotePort := 0, [0, 0, 0, 0], 0;
      stream := Stream([], [], [], []);
    }

    /** The chip queues a datagram it has room for. */
    method Receive(d: Datagram)
      requires Valid() && d.Valid() && 8 + |d.payload| <= RING - |chip.RxQueue(sock)|
      modifies this, chip
      ensures Valid() && stream == Apply(old(stream), Arrive(d)) && remaining == old(remaining)
    {
      QueuedAppend(stream.later, d);
      chip.Deliver(sock, Header(d) + d.payload);
      stream := Apply(stream, Arrive(d));
    }

    /** available: the unread bytes of the current datagram. */
    method Available() returns (n: nat)
      requires Valid()
      ensures n == |stream.current|
    {
      n := remaining;
    }

    /** read: the next byte of the current datagram, or -1. */
    method ReadByte() returns (result: int)
      requires Valid()
      modifies this, chip
      ensures Valid() && stream == Apply(old(stream), Read(1))
      ensures result == if old(stream).current == [] then -1 else old(stream).current[0]
      ensures remoteIP == old(remoteIP) && remotePort == old(remotePort)
    {
      ghost var before := stream;
      if remaining > 0 {
        var ret, data := Sockets.Recv(chip, sock, 1);
        SplitFirst(data, chip.RxQueue(sock), before.current, Queued(before.later));
        if ret > 0 {
          remaining := remaining - 1;
          stream := Apply(stream, Read(1));
          return data[0];
        }
      }
      stream := Apply(stream, Read(1));
      return -1;
    }

    /** read into a buffer: as much of the current datagram as fits, or -1. */
    method ReadBuffer(len: nat) returns (result: int, data: seq<byte>)
      requires Valid()
      modifies this, chip
      ensures Valid() && stream == Apply(old(stream), Read(len))
      ensures data == old(stream).current[..if len <= |old(stream).current| then len else |old(stream).current|]
      ensures result == if data == [] then -1 else |data|
      ensures remoteIP == old(remoteIP) && remotePort == old(remotePort)
    {
      ghost var before := stream;
      stream := Apply(stream, Read(len));
      data := [];
      if remaining > 0 {
        var got: int;
        if remaining <= len {
          got, data := Sockets.Recv(chip, sock, remaining);
        } else {
          got, data := Sockets.Recv(chip, sock, len);
        }
        SplitFirst(data, chip.RxQueue(sock), before.current, Queued(before.later));
        if got > 0 {
          remaining := remaining - got;
          return got, data;
        }
      }
      return -1, data;
    }

    /** peek: the byte that read would return. */
    method PeekByte() returns (result: int)
      requires Valid()
      modifies chip
      ensures Valid() && stream == Apply(old(stream), Peek)
      ensures result == if stream.current == [] then -1 else stream.current[0]
    {
      if remaining == 0 {
        return -1;
      }
      var b := Sockets.Peek(chip, sock);
      return b;
    }

    /** flush: reads the current datagram to its end and discards it. */
    method FlushPacket()
      requires Valid()
      modifies this, chip
      ensures Valid() && stream == Apply(old(stream), Flush)
      ensures remaining == 0 && remoteIP == old(remoteIP) && remotePort == old(remotePort)
    {
      while remaining != 0
        invariant Valid() && stream.later == old(stream).later && |stream.got| == |old(stream).got|
        invariant remoteIP == old(remoteIP) && remotePort == old(remotePort)
        decreases remaining
      {
        var _ := ReadByte();
      }
      stream := Apply(old(stream), Flush);
    }

    /** The fields of a header that has been read. */
    method ParseFields(tmpBuf: seq<byte>, ghost d: Datagram)
      requires d.Valid() && tmpBuf == Header(d)
      modifies this`remoteIP, this`remotePort, this`remaining
      ensures remoteIP == d.ip && remotePort == d.port && remaining == |d.payload|
    {
      HeaderFields(d);
      hide Header, ShiftIn;
      remoteIP := tmpBuf[..4];
      remotePort := tmpBuf[4];
      remotePort := ShiftIn(remotePort, tmpBuf[5]);
      remaining := tmpBuf[6];
      remaining := ShiftIn(remaining, tmpBuf[7]);
    }

    /** The header of the first later datagram, read with recv. */
    method ParseHeader()
      requires Valid() && stream.current == [] && stream.later != []
      modifies this, chip
      ensures Valid() && stream == Apply(old(stream), Parse)
      ensures var d := old(stream).later[0]; remoteIP == d.ip && remotePort == d.port && remaining == |d.payload|
    {
      hide Header, Queued;
      QueuedFirst(stream.later);
      ghost var d := stream.later[0];
      ghost var rest := d.payload + Queued(stream.later[1..]);
      var ret, tmpBuf := Sockets.Recv(chip, sock, 8);
      SplitFirst(tmpBuf, chip.RxQueue(sock), Header(d), rest);
      stream := Apply(stream, Parse);
      if ret > 0 {
        assert tmpBuf == Header(d);
        ParseFields(tmpBuf, d);
      }
    }

    /** parsePacket: drops the rest of the current datagram and reads the next header. */
    method ParsePacket() returns (size: int)
      requires Valid()
      modifies this, chip
      ensures Valid() && stream == Apply(old(stream), Parse)
      ensures size == |stream.current|
      ensures old(stream).later != [] ==>
                var d := old(stream).later[0]; remoteIP == d.ip && remotePort == d.port && size == |d.payload|
    {
      FlushPacket();
      if chip.RxReceivedSize(sock) > 0 {
        ParseHeader();
        return remaining;
      }
      return 0;
    }
  }
}
