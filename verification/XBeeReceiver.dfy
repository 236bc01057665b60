// The receiver of XBee.cpp: readPacket, whose position, escape flag and running checksum survive
// between calls, and the proof that it recovers what was framed however the bytes arrive.
module XBeeReceiver {
  import opened XBeeBytes
  import opened XBeeSender

  const MAX_FRAME_DATA_SIZE: int := 110
  const API_ID_INDEX: int := 3

  const NO_ERROR: byte := 0
  const CHECKSUM_FAILURE: byte := 1
  const PACKET_EXCEEDS_BYTE_ARRAY_LENGTH: byte := 2
  const UNEXPECTED_START_BYTE: byte := 3

  /** The fields of XBee and of its response object. */
  datatype Receiver = Receiver(pos: nat, escape: bool, total: byte, available: bool, error: byte,
                               msb: byte, lsb: byte, apiId: byte, checksum: byte, length: int, frame: seq<byte>)

  predicate Done(r: Receiver) {
    r.available || r.error > 0
  }

  /** Enough for every index into the frame array to be in range. */
  predicate Valid(r: Receiver) {
    && |r.frame| == MAX_FRAME_DATA_SIZE && r.pos <= MAX_FRAME_DATA_SIZE + 1
    && (r.available ==> 0 <= r.length <= MAX_FRAME_DATA_SIZE)
  }

  /** getPacketLength: the high byte is masked away after it is shifted. */
  function PacketLength(msb: byte, lsb: byte): int {
    (msb * 256) % 256 + lsb
  }

  // ---- What readPacket does, as functions

  /** resetResponse, which leaves the running checksum alone. */
  function Reset(r: Receiver): (s: Receiver)
    requires Valid(r)
    ensures Valid(s) && !Done(s)
  {
    Receiver(0, false, r.total, false, NO_ERROR, 0, 0, 0, 0, 0, seq(MAX_FRAME_DATA_SIZE, _ => 0))
  }

  /** Whatever was there, nothing of it is left but the running checksum. */
  lemma ResetClears(r: Receiver)
    requires Valid(r)
    ensures var s := Reset(r);
            && s.total == r.total && s.pos == 0 && !s.escape && !s.available && s.error == 0
            && s.msb == s.lsb == s.apiId == s.checksum == s.length == 0
            && |s.frame| == 110 && forall b | b in s.frame :: b == 0
  {}

  function ResetIfDone(r: Receiver): (s: Receiver)
    requires Valid(r)
    ensures Valid(s) && !Done(s)
  {
    if Done(r) then Reset(r) else r
  }

  /** The end of a frame: the last byte has been added to the running checksum. */
  function Complete(r: Receiver, b: byte): Receiver {
    var verified := if r.total == 0xff then r.(checksum := b, available := true, error := NO_ERROR)
                    else r.(error := CHECKSUM_FAILURE);
    verified.(length := r.pos - 4, pos := 0, total := 0)
  }

  /** One unescaped byte: the running checksum, and the switch on the position. */
  function Take(r: Receiver, b: byte): (s: Receiver)
    requires Valid(r) && !Done(r)
    ensures Valid(s)
  {
    var s := if r.pos >= API_ID_INDEX then r.(total := AddByte(r.total, b)) else r;
    if s.pos == 0 then (if b == START_BYTE then s.(pos := 1) else s)
    else if s.pos == 1 then s.(msb := b, pos := 2)
    else if s.pos == 2 then s.(lsb := b, pos := 3)
    else if s.pos == 3 then s.(apiId := b, pos := 4)
    else if s.pos > MAX_FRAME_DATA_SIZE then s.(error := PACKET_EXCEEDS_BYTE_ARRAY_LENGTH)
    else if s.pos == PacketLength(s.msb, s.lsb) + 3 then Complete(s, b)
    else s.(frame := s.frame[s.pos - 4 := b], pos := s.pos + 1)
  }

  /** The loop of readPacket on the bytes in the serial buffer; the second result is what is left there. */
  function Poll(r: Receiver, buffer: seq<byte>): (result: (Receiver, seq<byte>))
    requires Valid(r) && !Done(r)
    ensures Valid(result.0)
    decreases |buffer|
  {
    if buffer == [] then (r, [])
    else if r.pos > 0 && buffer[0] == START_BYTE then (r.(error := UNEXPECTED_START_BYTE), buffer[1..])
    else if r.pos > 0 && buffer[0] == ESCAPE && |buffer| == 1 then (r.(escape := true), [])
    else
      var escaped := r.pos > 0 && buffer[0] == ESCAPE;
      var read := if escaped then Flip(buffer[1]) else buffer[0];
      var b := if r.escape then Flip(read) else read;
      var rest := buffer[if escaped then 2 else 1..];
      var s := Take(r.(escape := false), b);
      if Done(s) then (s, rest) else Poll(s, rest)
  }

  class XBee {
    var pos: nat
    var escape: bool
    var checksumTotal: byte
    var complete: bool
    var errorCode: byte
    var msbLength: byte
    var lsbLength: byte
    var apiId: byte
    var checksum: byte
    var frameLength: int
    var frameData: array<byte>
    var rx: seq<byte>

    ghost function View(): Receiver
      reads this, frameData
    {
      Receiver(pos, escape, checksumTotal, complete, errorCode, msbLength, lsbLength, apiId, checksum, frameLength, frameData[..])
    }

    constructor ()
      ensures fresh(frameData) && Valid(View()) && rx == []
      ensures pos == 0 && !escape && checksumTotal == 0 && !Done(View())
    {
      pos, escape, checksumTotal := 0, false, 0;
      complete, errorCode, checksum := false, NO_ERROR, 0;
      msbLength, lsbLength, apiId, frameLength := 0, 0, 0, 0;
      rx := [];
      frameData := new byte[110](_ => 0);
    }

    /** The loop of XBeeResponse::reset. */
    method ClearFrame()
      requires frameData.Length == MAX_FRAME_DATA_SIZE
      modifies frameData
      ensures frameData[..] == seq(MAX_FRAME_DATA_SIZE, _ => 0)
    {
      for i := 0 to frameData.Length
        invariant forall k | 0 <= k < i :: frameData[k] == 0
      {
        frameData[i] := 0;
      }
    }

    method ResetResponse()
      requires Valid(View())
      modifies this, frameData
      ensures View() == Reset(old(View())) && frameData == old(frameData) && rx == old(rx)
    {
      pos, escape := 0, false;
      complete, errorCode, checksum := false, NO_ERROR, 0;
      apiId, msbLength, lsbLength, frameLength := 0, 0, 0, 0;
      ClearFrame();
    }

    /** The switch of readPacket; true when the call returns. */
    method Switch(b: byte) returns (finished: bool)
      requires Valid(View()) && !Done(View())
      modifies this, frameData
      ensures View() == Take(old(View()), b) && finished == Done(View())
      ensures frameData == old(frameData) && rx == old(rx)
    {
      hide AddByte, PacketLength;
      if pos >= API_ID_INDEX {
        checksumTotal := AddByte(checksumTotal, b);
      }
      if pos == 0 {
        if b == START_BYTE {
          pos := pos + 1;
        }
      } else if pos == 1 {
        msbLength := b;
        pos := pos + 1;
      } else if pos == 2 {
        lsbLength := b;
        pos := pos + 1;
      } else if pos == 3 {
        apiId := b;
        pos := pos + 1;
      } else {
        if pos > MAX_FRAME_DATA_SIZE {
          errorCode := PACKET_EXCEEDS_BYTE_ARRAY_LENGTH;
          return true;
        }
        if pos == PacketLength(msbLength, lsbLength) + 3 {
          if checksumTotal == 0xff {
            checksum := b;
            complete := true;
            errorCode := NO_ERROR;
          } else {
            errorCode := CHECKSUM_FAILURE;
          }
          frameLength := pos - 4;
          pos := 0;
          checksumTotal := 0;
          return true;
        } else {
          frameData[pos - 4] := b;
          pos := pos + 1;
        }
      }
      return false;
    }

    method ReadPacket()
      requires Valid(View())
      modifies this, frameData
      ensures frameData == old(frameData)
      ensures (View(), rx) == Poll(ResetIfDone(old(View())), old(rx))
    {
      hide Take, Reset;
      if complete || errorCode > 0 {
        ResetResponse();
      }
      while rx != []
        invariant frameData == old(frameData) && Valid(View()) && !Done(View())
        invariant Poll(View(), rx) == Poll(ResetIfDone(old(View())), old(rx))
        decreases |rx|
      {
        var b := rx[0];
        rx := rx[1..];
        if pos > 0 && b == START_BYTE {
          errorCode := UNEXPECTED_START_BYTE;
          return;
        }
        if pos > 0 && b == ESCAPE {
          if rx != [] {
            b := rx[0];
            rx := rx[1..];
            b := Flip(b);
          } else {
            escape := true;
            continue;
          }
        }
        if escape {
          b := Flip(b);
          escape := false;
        }
        var finished := Switch(b);
        if finished {
          return;
        }
      }
    }
  }
}

/** The receiver recovers every frame, in order, whatever the arrival and call schedule. */
module XBeeDelivery {
  import opened XBeeBytes
  import opened XBeeSender
  import opened XBeeReceiver

  /** What a finished call to readPacket leaves for the application. */
  datatype Outcome = Delivered(apiId: byte, data: seq<byte>, msb: byte, lsb: byte, checksum: byte) | Failed(error: byte)

  function OutcomeOf(r: Receiver): Outcome
    requires Valid(r)
  {
    if r.available then Delivered(r.apiId, r.frame[..r.length], r.msb, r.lsb, r.checksum) else Failed(r.error)
  }

  /** A frame body whose length byte is right and which fits the receiver. */
  ghost predicate WellFramed(body: seq<byte>) {
    4 <= |body| <= MAX_FRAME_DATA_SIZE && body[1] as int + 3 == |body|
  }

  ghost predicate AllFramed(bodies: seq<seq<byte>>) {
    forall i | 0 <= i < |bodies| :: WellFramed(bodies[i])
  }

  /** What a frame should lead to: its bytes if they and the checksum add up to 0xff, else an error. */
  function Expected(body: seq<byte>): Outcome
    requires 4 <= |body|
  {
    if SumByte(body[2..]) == 0xff then Delivered(body[2], body[3..|body| - 1], body[0], body[1], body[|body| - 1])
    else Failed(CHECKSUM_FAILURE)
  }

  // ---- The state of the receiver within a frame

  /** r has taken the first k bytes of the body, and is waiting for the next. */
  ghost predicate Progress(r: Receiver, body: seq<byte>, k: nat) {
    && Valid(r) && !Done(r)
    && k < |body| && r.pos == k + 1
    && r.total == (if k < 2 then 0 else SumByte(body[2..k]))
    && (1 <= k ==> r.msb == body[0])
    && (2 <= k ==> r.lsb == body[1])
    && (3 <= k ==> r.apiId == body[2] && r.frame[..k - 3] == body[3..k])
  }

  /** Neither the buffer nor the declared length is exhausted at position k. */
  ghost predicate Continues(body: seq<byte>, k: nat) {
    k + 1 < |body| && k < MAX_FRAME_DATA_SIZE && (3 <= k ==> k + 1 != body[1] as int + 3)
  }

  lemma SumNext(body: seq<byte>, k: nat)
    requires 2 <= k < |body|
    ensures SumByte(body[2..k + 1]) == AddByte(SumByte(body[2..k]), body[k])
    ensures SumByte(body[2..2]) == 0
  {
    assert body[2..k + 1] == body[2..k] + [body[k]];
    SumByteAppend(body[2..k], body[k]);
  }

  /** The high byte of the length is lost. */
  lemma PacketLengthIsLsb(msb: byte, lsb: byte)
    ensures PacketLength(msb, lsb) == lsb
  {}

  lemma TakeProgress(r: Receiver, body: seq<byte>, k: nat)
    requires Progress(r, body, k) && Continues(body, k)
    ensures Progress(Take(r, body[k]), body, k + 1) && Take(r, body[k]).escape == r.escape
  {
    hide AddByte, SumByte, PacketLength;
    PacketLengthIsLsb(r.msb, r.lsb);
    if k == 1 {
      SumNext(body, 2);
    } else if 2 <= k {
      SumNext(body, k);
    }
    if 3 <= k {
      assert body[3..k + 1] == body[3..k] + [body[k]];
      assert r.frame[k - 3 := body[k]][..k - 2] == r.frame[..k - 3] + [body[k]];
    } else if k == 2 {
      assert body[3..3] == [];
    }
  }

  lemma TakeLast(r: Receiver, body: seq<byte>)
    requires WellFramed(body) && Progress(r, body, |body| - 1)
    ensures var s := Take(r, body[|body| - 1]);
            Done(s) && Valid(s) && s.pos == 0 && s.total == 0 && s.escape == r.escape && OutcomeOf(s) == Expected(body)
  {
    hide AddByte, SumByte, PacketLength;
    PacketLengthIsLsb(r.msb, r.lsb);
    SumNext(body, |body| - 1);
    assert body[2..|body|] == body[2..];
  }

  // ---- The bytes still to come

  /** What is left of the body's encoding after k bytes, or after the escape byte of byte k. */
  function Remaining(body: seq<byte>, k: nat, pending: bool): seq<byte>
    requires k < |body|
  {
    if pending then [Flip(body[k])] + EscapeAll(body[k + 1..]) else EscapeAll(body[k..])
  }

  /** The receiver, given this stream, is about to recover these bodies. */
  ghost predicate Expects(r: Receiver, bodies: seq<seq<byte>>, stream: seq<byte>) {
    && Valid(r)
    && if r.pos == 0 then
         !r.escape && r.total == 0 && stream == WireAll(bodies)
       else
         && bodies != [] && Progress(r.(escape := false), bodies[0], r.pos - 1)
         && (r.escape ==> NeedsEscape(bodies[0][r.pos - 1]))
         && stream == Remaining(bodies[0], r.pos - 1, r.escape) + WireAll(bodies[1..])
  }

  /** The unescaped byte that the receiver takes next, and how it is written. */
  lemma NextBytes(r: Receiver, bodies: seq<seq<byte>>, stream: seq<byte>)
    requires Expects(r, bodies, stream) && r.pos > 0
    ensures var c := bodies[0][r.pos - 1];
            var after := EscapeAll(bodies[0][r.pos..]) + WireAll(bodies[1..]);
            stream == (if r.escape then [Flip(c)] else Escaped(c)) + after
  {
    EscapeAllSplit(bodies[0], r.pos - 1);
  }

  /** Taking that byte keeps the receiver on course. */
  lemma TakeKeepsExpecting(r: Receiver, bodies: seq<seq<byte>>)
    requires AllFramed(bodies) && bodies != [] && r.pos > 0 && !r.escape && Progress(r, bodies[0], r.pos - 1)
    ensures var s := Take(r, bodies[0][r.pos - 1]);
            var after := EscapeAll(bodies[0][r.pos..]) + WireAll(bodies[1..]);
            if Done(s) then
              OutcomeOf(s) == Expected(bodies[0]) && Expects(s, bodies[1..], after)
            else Expects(s, bodies, after)
  {
    hide Take, Expected;
    var body := bodies[0];
    var k := r.pos - 1;
    if k == |body| - 1 {
      TakeLast(r, body);
      assert EscapeAll(body[|body|..]) == [];
    } else {
      TakeProgress(r, body, k);
    }
  }

  // ---- One call to readPacket

  /** What a call does to a receiver on course: the next body's outcome, or nothing yet. */
  ghost predicate Advances(polled: (Receiver, seq<byte>), bodies: seq<seq<byte>>, future: seq<byte>)
    requires AllFramed(bodies) && Valid(polled.0)
  {
    var (s, rest) := polled;
    if Done(s) then
      bodies != [] && OutcomeOf(s) == Expected(bodies[0]) && Expects(s, bodies[1..], rest + future)
    else
      rest == [] && Expects(s, bodies, future)
  }

  lemma TakeStart(r: Receiver)
    requires Valid(r) && !Done(r) && r.pos == 0
    ensures Take(r, START_BYTE) == r.(pos := 1)
  {}

  lemma PollIdle(r: Receiver, bodies: seq<seq<byte>>, buffer: seq<byte>, future: seq<byte>)
    requires !Done(r) && Expects(r, bodies, buffer + future) && AllFramed(bodies)
    requires r.pos == 0 && buffer != []
    ensures Poll(r, buffer) == Poll(r.(pos := 1), buffer[1..])
    ensures Expects(r.(pos := 1), bodies, buffer[1..] + future)
  {
    hide Take;
    assert buffer[0] == (buffer + future)[0] == START_BYTE;
    TakeStart(r);
    assert buffer[1..] + future == (buffer + future)[1..] == EscapeAll(bodies[0]) + WireAll(bodies[1..]);
    assert bodies[0][0..] == bodies[0];
  }

  /** The buffer ends between an escape byte and the byte it escapes. */
  predicate Cut(r: Receiver, c: byte, buffer: seq<byte>) {
    !r.escape && NeedsEscape(c) && |buffer| == 1
  }

  lemma PollCut(r: Receiver, bodies: seq<seq<byte>>, buffer: seq<byte>, future: seq<byte>)
    requires !Done(r) && Expects(r, bodies, buffer + future)
    requires r.pos > 0 && buffer != [] && Cut(r, bodies[0][r.pos - 1], buffer)
    ensures Poll(r, buffer) == (r.(escape := true), [])
    ensures Expects(r.(escape := true), bodies, future)
  {
    hide Take;
    NextBytes(r, bodies, buffer + future);
    assert buffer[0] == (buffer + future)[0];
    assert future == (buffer + future)[1..];
  }

  /** How many bytes of the buffer the next body byte occupies. */
  function Taken(r: Receiver, c: byte): nat {
    if !r.escape && NeedsEscape(c) then 2 else 1
  }

  lemma PollByte(r: Receiver, bodies: seq<seq<byte>>, buffer: seq<byte>, future: seq<byte>)
    requires !Done(r) && Expects(r, bodies, buffer + future)
    requires r.pos > 0 && buffer != [] && !Cut(r, bodies[0][r.pos - 1], buffer)
    ensures var c := bodies[0][r.pos - 1];
            var s := Take(r.(escape := false), c);
            && Taken(r, c) <= |buffer|
            && Poll(r, buffer) == (if Done(s) then (s, buffer[Taken(r, c)..]) else Poll(s, buffer[Taken(r, c)..]))
            && EscapeAll(bodies[0][r.pos..]) + WireAll(bodies[1..]) == buffer[Taken(r, c)..] + future
  {
    hide Take;
    NextBytes(r, bodies, buffer + future);
    var c := bodies[0][r.pos - 1];
    assert buffer[0] == (buffer + future)[0];
    if Taken(r, c) == 2 {
      assert buffer[1] == (buffer + future)[1] == Flip(c);
    }
    assert buffer[Taken(r, c)..] + future == (buffer + future)[Taken(r, c)..];
  }

  lemma {:induction false} PollAdvances(r: Receiver, bodies: seq<seq<byte>>, buffer: seq<byte>, future: seq<byte>)
    requires AllFramed(bodies) && !Done(r) && Expects(r, bodies, buffer + future)
    ensures Advances(Poll(r, buffer), bodies, future)
    decreases |buffer|
  {
    if buffer == [] {
      assert buffer + future == future;
    } else if r.pos == 0 {
      PollIdle(r, bodies, buffer, future);
      PollAdvances(r.(pos := 1), bodies, buffer[1..], future);
    } else {
      hide Take, Expected, Poll;
      var c := bodies[0][r.pos - 1];
      if Cut(r, c, buffer) {
        PollCut(r, bodies, buffer, future);
      } else {
        PollByte(r, bodies, buffer, future);
        var s := Take(r.(escape := false), c);
        TakeKeepsExpecting(r.(escape := false), bodies);
        if !Done(s) {
          PollAdvances(s, bodies, buffer[Taken(r, c)..], future);
        }
      }
    }
  }

  // ---- Every schedule of arrivals and calls

  /** Bytes reach the serial buffer, or the application calls readPacket. */
  datatype Event = Arrive(bytes: seq<byte>) | Call

  function Arrived(events: seq<Event>): seq<byte> {
    if events == [] then []
    else (if events[0].Arrive? then events[0].bytes else []) + Arrived(events[1..])
  }

  /** A run: the receiver and the serial buffer at the end, and the outcomes of the calls that finished. */
  function Run(r: Receiver, buffer: seq<byte>, events: seq<Event>): (result: (Receiver, seq<byte>, seq<Outcome>))
    requires Valid(r)
    ensures Valid(result.0)
    decreases |events|
  {
    if events == [] then (r, buffer, [])
    else
      match events[0]
      case Arrive(bytes) => Run(r, buffer + bytes, events[1..])
      case Call =>
        var (s, rest) := Poll(ResetIfDone(r), buffer);
        var (final, left, log) := Run(s, rest, events[1..]);
        (final, left, (if Done(s) then [OutcomeOf(s)] else []) + log)
  }

  ghost function ExpectedAll(bodies: seq<seq<byte>>): (outcomes: seq<Outcome>)
    requires AllFramed(bodies)
    ensures |outcomes| == |bodies|
    ensures forall i | 0 <= i < |bodies| :: outcomes[i] == Expected(bodies[i])
  {
    if bodies == [] then [] else [Expected(bodies[0])] + ExpectedAll(bodies[1..])
  }

  lemma ExpectedAllPrefix(bodies: seq<seq<byte>>, n: nat)
    requires n < |bodies| && AllFramed(bodies)
    ensures ExpectedAll(bodies)[..n + 1] == [Expected(bodies[0])] + ExpectedAll(bodies[1..])[..n]
  {
    hide Expected;
  }

  /** Discarding a finished packet keeps the receiver on course. */
  lemma ResetKeepsExpecting(r: Receiver, bodies: seq<seq<byte>>, stream: seq<byte>)
    requires Expects(r, bodies, stream)
    ensures Expects(ResetIfDone(r), bodies, stream)
  {}

  lemma RunArrive(r: Receiver, buffer: seq<byte>, events: seq<Event>)
    requires Valid(r) && events != [] && events[0].Arrive?
    ensures Run(r, buffer, events) == Run(r, buffer + events[0].bytes, events[1..])
  {}

  lemma RunCall(r: Receiver, buffer: seq<byte>, events: seq<Event>)
    requires Valid(r) && events != [] && events[0].Call?
    ensures var (s, rest) := Poll(ResetIfDone(r), buffer);
            var (final, left, log) := Run(s, rest, events[1..]);
            Run(r, buffer, events) == (final, left, (if Done(s) then [OutcomeOf(s)] else []) + log)
  {
    hide Poll;
  }

  /** The outcomes of a run are those of the first frames, in order, and the receiver is on course for
      the others. */
  ghost predicate Follows(result: (Receiver, seq<byte>, seq<Outcome>), bodies: seq<seq<byte>>, future: seq<byte>)
    requires AllFramed(bodies)
  {
    var (s, left, log) := result;
    && |log| <= |bodies| && log == ExpectedAll(bodies)[..|log|]
    && Expects(s, bodies[|log|..], left + future)
  }

  lemma FollowsNothing(r: Receiver, left: seq<byte>, bodies: seq<seq<byte>>, future: seq<byte>)
    requires AllFramed(bodies)
    requires Expects(r, bodies, left + future)
    ensures Follows((r, left, []), bodies, future)
  {
    hide Expects, Expected, ExpectedAll;
    assert bodies[0..] == bodies;
  }

  lemma FollowsOneMore(result: (Receiver, seq<byte>, seq<Outcome>), bodies: seq<seq<byte>>, future: seq<byte>)
    requires bodies != [] && AllFramed(bodies)
    requires Follows(result, bodies[1..], future)
    ensures Follows((result.0, result.1, [Expected(bodies[0])] + result.2), bodies, future)
  {
    hide Expects, Expected, ExpectedAll;
    ExpectedAllPrefix(bodies, |result.2|);
    assert bodies[1..][|result.2|..] == bodies[1 + |result.2|..];
  }

  /** The bytes that a run has still to see, those of the buffer first. */
  function Ahead(buffer: seq<byte>, events: seq<Event>, future: seq<byte>): seq<byte> {
    buffer + (Arrived(events) + future)
  }

  lemma AheadNext(buffer: seq<byte>, events: seq<Event>, future: seq<byte>)
    ensures Ahead(buffer, [], future) == buffer + future
    ensures events != [] && events[0].Arrive? ==> Ahead(buffer, events, future) == Ahead(buffer + events[0].bytes, events[1..], future)
    ensures events != [] && events[0].Call? ==> Ahead(buffer, events, future) == buffer + Ahead([], events[1..], future)
  {
    assert [] + future == future;
    if events != [] {
      var rest := Arrived(events[1..]) + future;
      if events[0].Arrive? {
        assert Arrived(events) + future == events[0].bytes + rest;
      } else {
        assert Arrived(events) == Arrived(events[1..]);
        assert Ahead([], events[1..], future) == rest;
      }
    }
  }

  lemma AheadOf(buffer: seq<byte>, events: seq<Event>, future: seq<byte>)
    ensures Ahead(buffer, events, future) == buffer + Ahead([], events, future)
  {
    assert Ahead([], events, future) == Arrived(events) + future;
  }

  /** One call along a run. */
  lemma CallFollows(r: Receiver, buffer: seq<byte>, bodies: seq<seq<byte>>, later: seq<byte>)
    requires AllFramed(bodies) && Valid(r) && Expects(r, bodies, buffer + later)
    ensures var (s, rest) := Poll(ResetIfDone(r), buffer);
            if Done(s) then
              bodies != [] && AllFramed(bodies[1..]) && OutcomeOf(s) == Expected(bodies[0]) && Expects(s, bodies[1..], rest + later)
            else rest == [] && Expects(s, bodies, rest + later)
  {
    hide Expected, Poll, Expects, WellFramed, ResetIfDone;
    ResetKeepsExpecting(r, bodies, buffer + later);
    PollAdvances(ResetIfDone(r), bodies, buffer, later);
    assert [] + later == later;
  }

  /** Along every run the receiver follows the frames. */
  lemma {:induction false} RunFollows(r: Receiver, buffer: seq<byte>, events: seq<Event>, bodies: seq<seq<byte>>, future: seq<byte>)
    requires AllFramed(bodies) && Valid(r) && Expects(r, bodies, Ahead(buffer, events, future))
    ensures Follows(Run(r, buffer, events), bodies, future)
    decreases |events|
  {
    hide Expected, Poll, Expects, WellFramed, Follows, Ahead;
    AheadNext(buffer, events, future);
    if events == [] {
      FollowsNothing(r, buffer, bodies, future);
    } else if events[0].Arrive? {
      hide Run;
      RunArrive(r, buffer, events);
      RunFollows(r, buffer + events[0].bytes, events[1..], bodies, future);
    } else {
      hide Run;
      RunCall(r, buffer, events);
      hide AllFramed, OutcomeOf, ResetIfDone, ExpectedAll;
      CallFollows(r, buffer, bodies, Ahead([], events[1..], future));
      var (s, rest) := Poll(ResetIfDone(r), buffer);
      AheadOf(rest, events[1..], future);
      if Done(s) {
        RunFollows(s, rest, events[1..], bodies[1..], future);
        FollowsOneMore(Run(s, rest, events[1..]), bodies, future);
      } else {
        RunFollows(s, rest, events[1..], bodies, future);
        var (final, left, log) := Run(s, rest, events[1..]);
        assert [] + log == log;
      }
    }
  }

  /** A receiver between frames; a completed frame, good or bad, leaves it so. */
  predicate Clean(r: Receiver) {
    Valid(r) && r.pos == 0 && !r.escape && r.total == 0
  }

  /** Every frame written, once it has all been read, has led to its outcome exactly once and in order. */
  lemma EveryFrameOnce(r: Receiver, events: seq<Event>, bodies: seq<seq<byte>>, future: seq<byte>)
    requires Clean(r) && AllFramed(bodies) && Arrived(events) + future == WireAll(bodies)
    ensures var (s, left, log) := Run(r, [], events);
            && |log| <= |bodies| && log == ExpectedAll(bodies)[..|log|]
            && (left + future == [] ==> log == ExpectedAll(bodies) && Clean(s))
  {
    hide Expected, Run, Expects, WireAll;
    CleanExpects(r, bodies);
    assert Ahead([], events, future) == WireAll(bodies);
    RunFollows(r, [], events, bodies, future);
    var (s, left, log) := Run(r, [], events);
    if left + future == [] {
      NothingLeft(s, bodies[|log|..]);
      assert |log| == |bodies|;
    }
  }

  lemma CleanExpects(r: Receiver, bodies: seq<seq<byte>>)
    requires Clean(r)
    ensures Expects(r, bodies, WireAll(bodies))
  {}

  lemma NothingLeft(r: Receiver, bodies: seq<seq<byte>>)
    requires Expects(r, bodies, [])
    ensures bodies == [] && Clean(r)
  {
    if r.pos > 0 {
      NextBytes(r, bodies, []);
    }
  }

  // ---- What send writes

  /** The api id, and the frame id followed by the data; and their length and checksum. */
  function DeliveryOf(request: Request): Outcome {
    Delivered(request.apiId, [request.frameId] + request.data,
              (|request.data| + 2) / 256 % 256, (|request.data| + 2) % 256, 255 - SumByte([request.apiId, request.frameId] + request.data))
  }

  lemma BodyIsExpected(request: Request)
    requires |request.data| <= 105
    ensures WellFramed(Body(request)) && Expected(Body(request)) == DeliveryOf(request)
  {
    var body := Body(request);
    var covered := Covered(request);
    assert body[2..] == covered + [body[|body| - 1]];
    SumByteAppend(covered, body[|body| - 1]);
    assert body[2..|body| - 1] == covered;
    assert body[3..|body| - 1] == covered[1..] == [request.frameId] + request.data;
  }

  function Bodies(requests: seq<Request>): seq<seq<byte>> {
    seq(|requests|, i requires 0 <= i < |requests| => Body(requests[i]))
  }

  /** For all requests of at most 105 data bytes and every schedule, the receiver delivers exactly
      the requests, in order. */
  lemma RequestsAreDelivered(r: Receiver, events: seq<Event>, requests: seq<Request>, future: seq<byte>)
    requires Clean(r) && (forall i | 0 <= i < |requests| :: |requests[i].data| <= 105)
    requires Arrived(events) + future == WireAll(Bodies(requests))
    ensures var (s, left, log) := Run(r, [], events);
            && |log| <= |requests|
            && (forall i | 0 <= i < |log| :: log[i] == DeliveryOf(requests[i]))
            && (left + future == [] ==> |log| == |requests| && Clean(s))
  {
    hide Run, Expected, Body;
    forall i | 0 <= i < |requests|
      ensures WellFramed(Bodies(requests)[i]) && Expected(Bodies(requests)[i]) == DeliveryOf(requests[i])
    {
      BodyIsExpected(requests[i]);
    }
    EveryFrameOnce(r, events, Bodies(requests), future);
  }

  /** A change to any one byte from the api id to the checksum is an error, and only that frame is lost. */
  lemma OneByteCorrupted(request: Request, i: nat, b: byte)
    requires |request.data| <= 105 && 2 <= i < |Body(request)| && b != Body(request)[i]
    ensures WellFramed(Body(request)[i := b]) && Expected(Body(request)[i := b]) == Failed(CHECKSUM_FAILURE)
  {
    var body := Body(request);
    BodyIsExpected(request);
    assert body[i := b][2..] == body[2..][i - 2 := b];
    SumUpdate(body[2..], i - 2, b);
  }

  // ---- Progress and memory

  lemma {:induction false} PollConsumes(r: Receiver, buffer: seq<byte>)
    requires Valid(r) && !Done(r) && buffer != []
    ensures |Poll(r, buffer).1| < |buffer|
    decreases |buffer|
  {
    hide Take;
    if !(r.pos > 0 && (buffer[0] == START_BYTE || (buffer[0] == ESCAPE && |buffer| == 1))) {
      var escaped := r.pos > 0 && buffer[0] == ESCAPE;
      var read := if escaped then Flip(buffer[1]) else buffer[0];
      var s := Take(r.(escape := false), if r.escape then Flip(read) else read);
      var rest := buffer[if escaped then 2 else 1..];
      if !Done(s) && rest != [] {
        PollConsumes(s, rest);
      }
    }
  }

  /** As many calls as there are bytes waiting empty the serial buffer. */
  lemma {:induction false} CallsDrain(r: Receiver, buffer: seq<byte>, n: nat)
    requires Valid(r) && |buffer| <= n
    ensures Run(r, buffer, seq(n, _ => Call)).1 == []
    decreases n
  {
    hide Poll;
    if n > 0 {
      var calls := seq(n, _ => Call);
      assert calls[1..] == seq(n - 1, _ => Call);
      var (s, rest) := Poll(ResetIfDone(r), buffer);
      if buffer == [] {
        assert Poll(ResetIfDone(r), buffer) == (ResetIfDone(r), []) by { PollOfNothing(ResetIfDone(r)); }
      } else {
        PollConsumes(ResetIfDone(r), buffer);
      }
      CallsDrain(s, rest, n - 1);
    }
  }

  lemma PollOfNothing(r: Receiver)
    requires Valid(r) && !Done(r)
    ensures Poll(r, []) == (r, [])
  {}

  /** Whatever the bytes, readPacket stores frame data below index 107 only. */
  lemma {:induction false} FrameWritesBelow107(r: Receiver, buffer: seq<byte>)
    requires Valid(r) && !Done(r)
    ensures Poll(r, buffer).0.frame[107..] == r.frame[107..]
    decreases |buffer|
  {
    if buffer == [] || (r.pos > 0 && (buffer[0] == START_BYTE || (buffer[0] == ESCAPE && |buffer| == 1))) {
    } else {
      var escaped := r.pos > 0 && buffer[0] == ESCAPE;
      var read := if escaped then Flip(buffer[1]) else buffer[0];
      var s := Take(r.(escape := false), if r.escape then Flip(read) else read);
      TakeWritesBelow107(r.(escape := false), if r.escape then Flip(read) else read);
      hide Take;
      if !Done(s) {
        FrameWritesBelow107(s, buffer[if escaped then 2 else 1..]);
      }
    }
  }

  lemma TakeWritesBelow107(r: Receiver, b: byte)
    requires Valid(r) && !Done(r)
    ensures Take(r, b).frame[107..] == r.frame[107..]
  {}
}
