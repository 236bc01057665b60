/** What the receiver makes of requests of every size, of checksums left over and of frames broken off,
    on every schedule of arrivals and calls. */
module XBeeSchedules {
  import opened XBeeBytes
  import opened XBeeSender
  import opened XBeeReceiver
  import opened XBeeDelivery

  // ---- How the stream is cut

  /** No escape byte is followed by a start byte or by another escape byte; one may have been read already. */
  ghost predicate Sound(escape: bool, s: seq<byte>) {
    && (escape && s != [] ==> s[0] != ESCAPE)
    && forall i | 0 <= i < |s| - 1 && s[i] == ESCAPE :: s[i + 1] != START_BYTE && s[i + 1] != ESCAPE
  }

  lemma SoundSuffix(escape: bool, s: seq<byte>, n: nat)
    requires Sound(escape, s) && n <= |s|
    ensures Sound(false, s[n..])
    ensures 0 < n && s[n - 1] == ESCAPE ==> Sound(true, s[n..])
  {
    var t := s[n..];
    forall i | 0 <= i < |t| - 1 && t[i] == ESCAPE
      ensures t[i + 1] != START_BYTE && t[i + 1] != ESCAPE
    {
      assert s[n + i] == ESCAPE;
    }
  }

  /** Off the sender's streams the cut can matter: it is harmless after an escape byte if and only
      if the byte that follows is neither a start byte nor another escape byte. */
  lemma CutAfterEscape(r: Receiver, c: byte)
    requires Valid(r) && !Done(r) && r.pos > 0 && !r.escape
    ensures var cut := Poll(r, [ESCAPE]).0;
            Poll(r, [ESCAPE, c]).0 == Poll(cut, [c]).0 <==> c != START_BYTE && c != ESCAPE
  {
    var whole := Take(r, Flip(c));
    TakeKeepsEscape(r, Flip(c));
    hide Take;
    assert r.(escape := false) == r;
    assert [ESCAPE, c][2..] == [] && [c][1..] == [];
    assert Poll(r, [ESCAPE]) == (r.(escape := true), []);
    assert Poll(r, [ESCAPE, c]) == (whole, []);
  }

  lemma TakeKeepsEscape(r: Receiver, b: byte)
    requires Valid(r) && !Done(r)
    ensures Take(r, b).escape == r.escape
  {}

  lemma SplitAtEscape(r: Receiver, b: seq<byte>)
    requires Valid(r) && !Done(r) && r.pos > 0 && !r.escape
    requires b != [] ==> b[0] != START_BYTE && b[0] != ESCAPE
    ensures Poll(r, [ESCAPE]) == (r.(escape := true), [])
    ensures Poll(r, [ESCAPE] + b) == Poll(r.(escape := true), b)
  {
    hide Take;
    if b == [] {
      assert [ESCAPE] + b == [ESCAPE];
    } else {
      assert ([ESCAPE] + b)[2..] == b[1..];
      assert r.(escape := false) == r == r.(escape := true).(escape := false);
    }
  }

  /** On every other stream it makes none: polling what has arrived, and later the rest, comes to the same. */
  lemma {:induction false} PollSplit(r: Receiver, a: seq<byte>, b: seq<byte>)
    requires Valid(r) && !Done(r) && Sound(r.escape, a + b)
    ensures var (t, rest) := Poll(r, a);
            if Done(t) then Poll(r, a + b) == (t, rest + b) && Sound(false, rest + b)
            else rest == [] && Poll(r, a + b) == Poll(t, b) && Sound(t.escape, b)
    decreases |a|
  {
    hide Take, Sound;
    if a == [] {
      assert a + b == b;
    } else if r.pos > 0 && a[0] == START_BYTE {
      assert (a + b)[1..] == a[1..] + b;
      SoundSuffix(r.escape, a + b, 1);
    } else if r.pos > 0 && a[0] == ESCAPE && |a| == 1 {
      assert a == [ESCAPE] && (a + b)[1..] == b && (a + b)[0] == ESCAPE;
      SoundSuffix(r.escape, a + b, 1);
      AfterTheEscape(r.escape, b);
      SplitAtEscape(r, b);
    } else {
      var escaped := r.pos > 0 && a[0] == ESCAPE;
      var read := if escaped then Flip(a[1]) else a[0];
      var c := if r.escape then Flip(read) else read;
      var taken := if escaped then 2 else 1;
      var s := Take(r.(escape := false), c);
      TakeKeepsEscape(r.(escape := false), c);
      assert (a + b)[taken..] == a[taken..] + b;
      SoundSuffix(r.escape, a + b, taken);
      if !Done(s) {
        PollSplit(s, a[taken..], b);
      }
    }
  }

  lemma AfterTheEscape(escape: bool, b: seq<byte>)
    requires Sound(escape, [ESCAPE] + b)
    ensures !escape && (b != [] ==> b[0] != START_BYTE && b[0] != ESCAPE)
  {
    if b != [] {
      assert ([ESCAPE] + b)[0] == ESCAPE && ([ESCAPE] + b)[1] == b[0];
    }
  }

  /** All the calls on a stream that is there from the start: the receiver they leave, ready for the next
      byte, and their outcomes. */
  function Drain(r: Receiver, stream: seq<byte>): (result: (Receiver, seq<Outcome>))
    requires Valid(r)
    ensures Valid(result.0) && !Done(result.0)
    decreases |stream|
  {
    var (s, rest) := Poll(ResetIfDone(r), stream);
    if stream == [] || !Done(s) then (ResetIfDone(s), [])
    else
      PollConsumes(ResetIfDone(r), stream);
      var (final, log) := Drain(s, rest);
      (final, [OutcomeOf(s)] + log)
  }

  /** What a run and then the rest of the stream lead to, together. */
  function RunAndDrain(r: Receiver, buffer: seq<byte>, events: seq<Event>, future: seq<byte>): (Receiver, seq<Outcome>)
    requires Valid(r)
  {
    var (s, left, log) := Run(r, buffer, events);
    var (final, later) := Drain(s, left + future);
    (final, log + later)
  }

  lemma DrainSplit(r: Receiver, a: seq<byte>, b: seq<byte>)
    requires Valid(r) && Sound(ResetIfDone(r).escape, a + b)
    ensures var (s, rest) := Poll(ResetIfDone(r), a);
            && Sound(ResetIfDone(s).escape, rest + b)
            && Drain(r, a + b) == (Drain(s, rest + b).0, (if Done(s) then [OutcomeOf(s)] else []) + Drain(s, rest + b).1)
  {
    hide Poll, Sound, OutcomeOf;
    PollSplit(ResetIfDone(r), a, b);
    var (s, rest) := Poll(ResetIfDone(r), a);
    if Done(s) {
      if a == [] {
        PollOfNothing(ResetIfDone(r));
      }
      assert a + b != [];
    } else {
      assert rest + b == b && ResetIfDone(s) == s;
      if a + b == [] {
        assert b == [];
        PollOfNothing(ResetIfDone(r));
        PollOfNothing(s);
        assert a == [];
      } else if b == [] {
        PollOfNothing(s);
      }
      var log := Drain(s, b).1;
      assert [] + log == log;
    }
  }

  lemma {:induction false} RunIsDrain(r: Receiver, buffer: seq<byte>, events: seq<Event>, future: seq<byte>)
    requires Valid(r) && Sound(ResetIfDone(r).escape, Ahead(buffer, events, future))
    ensures RunAndDrain(r, buffer, events, future) == Drain(r, Ahead(buffer, events, future))
    decreases |events|
  {
    hide Poll, Sound, OutcomeOf, Drain, Ahead, ResetIfDone;
    AheadNext(buffer, events, future);
    if events == [] {
      var log := Drain(r, buffer + future).1;
      assert [] + log == log;
    } else if events[0].Arrive? {
      RunIsDrain(r, buffer + events[0].bytes, events[1..], future);
      hide Run;
      RunArrive(r, buffer, events);
    } else {
      hide Run;
      RunCall(r, buffer, events);
      var later := Ahead([], events[1..], future);
      DrainSplit(r, buffer, later);
      var (s, rest) := Poll(ResetIfDone(r), buffer);
      AheadOf(rest, events[1..], future);
      RunIsDrain(s, rest, events[1..], future);
      var (final, left, log) := Run(s, rest, events[1..]);
      var first := if Done(s) then [OutcomeOf(s)] else [];
      assert first + log + Drain(final, left + future).1 == first + (log + Drain(final, left + future).1);
    }
  }

  /** Whatever the schedule, a stream leads to what it leads to when it is there from the start: the outcomes
      so far are the first of those, and when all has been read they are all, with the same receiver. */
  lemma ScheduleMakesNoDifference(r: Receiver, events: seq<Event>, future: seq<byte>)
    requires Valid(r) && Sound(ResetIfDone(r).escape, Arrived(events) + future)
    ensures var (s, left, log) := Run(r, [], events);
            var (final, all) := Drain(r, Arrived(events) + future);
            log <= all && (left + future == [] ==> log == all && ResetIfDone(s) == final)
  {
    hide Poll, Sound, OutcomeOf, Run;
    assert Ahead([], events, future) == Arrived(events) + future;
    RunIsDrain(r, [], events, future);
    var (s, left, log) := Run(r, [], events);
    var (final, all) := Drain(r, Arrived(events) + future);
    if left + future == [] {
      PollOfNothing(ResetIfDone(s));
    }
  }

  // ---- The checksum that a broken frame leaves behind

  /** The receiver, had its running checksum been larger by t. */
  function Shifted(r: Receiver, t: byte): (s: Receiver)
    ensures Valid(s) == Valid(r) && Done(s) == Done(r)
  {
    r.(total := AddByte(r.total, t))
  }

  lemma AddByteExchange(x: byte, t: byte, b: byte)
    ensures AddByte(AddByte(x, t), b) == AddByte(AddByte(x, b), t)
    ensures AddByte(x, t) == x <==> t == 0
    ensures AddByte(0, t) == t
  {
    AddByteIs(x, t);
    AddByteIs(x, b);
    AddByteIs(0, t);
    AddByteIs(AddByte(x, t), b);
    AddByteIs(AddByte(x, b), t);
    hide AddByte;
  }

  lemma AddByteIs(x: byte, t: byte)
    ensures AddByte(x, t) == if x + t < 256 then x + t else x + t - 256
  {}

  /** Where the receiver delivers, with a larger running checksum it fails, and is clean all the same. */
  ghost predicate FailsIfShifted(s: Receiver, u: Receiver, t: byte) {
    s.available ==>
      Done(u) && u.pos == 0 && u.total == 0 && u.escape == s.escape
      && if t == 0 then u == s else !u.available && u.error == CHECKSUM_FAILURE
  }

  lemma TakeShifted(r: Receiver, b: byte, t: byte)
    requires Valid(r) && !Done(r)
    ensures var s, u := Take(r, b), Take(Shifted(r, t), b);
            if Done(s) then FailsIfShifted(s, u, t) && Done(u) else u == Shifted(s, t)
  {
    AddByteExchange(r.total, t, b);
    AddByteExchange(AddByte(r.total, b), t, b);
    AddByteExchange(r.total, t, 0);
    hide AddByte, PacketLength;
  }

  lemma {:induction false} PollShifted(r: Receiver, buffer: seq<byte>, t: byte)
    requires Valid(r) && !Done(r)
    ensures FailsIfShifted(Poll(r, buffer).0, Poll(Shifted(r, t), buffer).0, t)
    ensures Poll(r, buffer).0.available ==> Poll(Shifted(r, t), buffer).1 == Poll(r, buffer).1
    decreases |buffer|
  {
    hide AddByte;
    if buffer == [] || (r.pos > 0 && (buffer[0] == START_BYTE || (buffer[0] == ESCAPE && |buffer| == 1))) {
    } else {
      var escaped := r.pos > 0 && buffer[0] == ESCAPE;
      var read := if escaped then Flip(buffer[1]) else buffer[0];
      var b := if r.escape then Flip(read) else read;
      TakeShifted(r.(escape := false), b, t);
      hide Take, FailsIfShifted;
      var s := Take(r.(escape := false), b);
      assert Shifted(r, t).(escape := false) == Shifted(r.(escape := false), t);
      if !Done(s) {
        PollShifted(s, buffer[if escaped then 2 else 1..], t);
      }
    }
  }

  lemma WholeFrame(r: Receiver, request: Request)
    requires Clean(r) && !Done(r) && |request.data| <= 105
    ensures var (s, rest) := Poll(r, Wire(Body(request)));
            Done(s) && s.available && Clean(s) && OutcomeOf(s) == DeliveryOf(request) && rest == []
  {
    var body := Body(request);
    hide Expected, Body, Poll, Progress;
    BodyIsExpected(request);
    assert Wire(body) + [] == WireAll([body]);
    CleanExpects(r, [body]);
    PollAdvances(r, [body], Wire(body), []);
    var (s, rest) := Poll(r, Wire(body));
    if !Done(s) {
      NothingLeft(s, [body]);
    } else {
      assert rest + [] == rest;
      DoneIsClean(s, [body][1..], rest);
    }
  }

  lemma DoneIsClean(r: Receiver, bodies: seq<seq<byte>>, stream: seq<byte>)
    requires Expects(r, bodies, stream) && Done(r)
    ensures Clean(r) && stream == WireAll(bodies)
  {}

  lemma {:induction false} NoStartInside(body: seq<byte>)
    ensures START_BYTE !in EscapeAll(body)
  {
    if body != [] {
      NoStartInside(body[1..]);
    }
  }

  lemma {:induction false} IdleSkips(r: Receiver, buffer: seq<byte>)
    requires Valid(r) && !Done(r) && r.pos == 0 && !r.escape && START_BYTE !in buffer
    ensures Poll(r, buffer) == (r, [])
    decreases |buffer|
  {
    if buffer != [] {
      assert Take(r, buffer[0]) == r;
      IdleSkips(r, buffer[1..]);
    }
  }

  /** A receiver between frames, whatever checksum is left over. */
  predicate Between(r: Receiver) {
    Valid(r) && ResetIfDone(r).pos == 0 && !ResetIfDone(r).escape
  }

  lemma SmallRequest(r: Receiver, request: Request)
    requires Between(r) && |request.data| <= 105
    ensures var (s, rest) := Poll(ResetIfDone(r), Wire(Body(request)));
            && Done(s) && Clean(s) && rest == []
            && OutcomeOf(s) == if r.total == 0 then DeliveryOf(request) else Failed(CHECKSUM_FAILURE)
  {
    hide Expected, Body, Poll, Wire;
    var q := ResetIfDone(r);
    assert q.total == r.total;
    var clean := q.(total := 0);
    AddByteExchange(0, q.total, 0);
    assert Shifted(clean, q.total) == q;
    WholeFrame(clean, request);
    PollShifted(clean, Wire(Body(request)), q.total);
  }

  // ---- Requests that do not fit

  /** The next byte of a body that is all there. */
  lemma PollBodyByte(r: Receiver, body: seq<byte>, k: nat)
    requires Valid(r) && !Done(r) && r.pos > 0 && !r.escape && k < |body|
    ensures var s := Take(r, body[k]);
            Poll(r, EscapeAll(body[k..])) ==
            if Done(s) then (s, EscapeAll(body[k + 1..])) else Poll(s, EscapeAll(body[k + 1..]))
  {
    hide Take;
    EscapeAllSplit(body, k);
    var buffer := EscapeAll(body[k..]);
    var taken := |Escaped(body[k])|;
    assert buffer[taken..] == EscapeAll(body[k + 1..]);
    assert r.(escape := false) == r;
  }

  /** r has taken k bytes of the body, having started with a checksum t. */
  ghost predicate Within(r: Receiver, t: byte, body: seq<byte>, k: nat) {
    && Valid(r) && !Done(r) && !r.escape && k <= |body| && r.pos == k + 1
    && r.total == (if k < 2 then t else AddByte(t, SumByte(body[2..k])))
    && (1 <= k ==> r.msb == body[0]) && (2 <= k ==> r.lsb == body[1]) && (3 <= k ==> r.apiId == body[2])
  }

  lemma SumsWithin(t: byte, body: seq<byte>, k: nat)
    requires 2 <= k < |body|
    ensures AddByte(AddByte(t, SumByte(body[2..k])), body[k]) == AddByte(t, SumByte(body[2..k + 1]))
  {
    SumNext(body, k);
    hide SumByte;
    AddByteExchange(SumByte(body[2..k]), t, body[k]);
    AddByteCommutes(t, SumByte(body[2..k]));
    AddByteCommutes(t, SumByte(body[2..k + 1]));
  }

  lemma NoSum(t: byte, body: seq<byte>)
    requires 2 <= |body|
    ensures AddByte(t, SumByte(body[2..2])) == t
  {
    assert body[2..2] == [];
  }

  lemma AddByteCommutes(x: byte, y: byte)
    ensures AddByte(x, y) == AddByte(y, x)
  {}

  lemma TakeWithin(r: Receiver, t: byte, body: seq<byte>, k: nat)
    requires Within(r, t, body, k) && k < |body| && k < MAX_FRAME_DATA_SIZE && (3 <= k ==> k + 1 != body[1] as int + 3)
    ensures Within(Take(r, body[k]), t, body, k + 1)
  {
    hide AddByte, SumByte, PacketLength;
    PacketLengthIsLsb(r.msb, r.lsb);
    if 2 <= k {
      SumsWithin(t, body, k);
    } else if k == 1 {
      NoSum(t, body);
    }
  }

  /** A body whose declared length is never met runs into the end of the frame array. */
  lemma {:induction false} PollTooLong(r: Receiver, t: byte, body: seq<byte>, k: nat)
    requires |body| > MAX_FRAME_DATA_SIZE && !(1 <= body[1] <= 107)
    requires k <= MAX_FRAME_DATA_SIZE && Within(r, t, body, k)
    ensures var (s, rest) := Poll(r, EscapeAll(body[k..]));
            && !s.available && s.error == PACKET_EXCEEDS_BYTE_ARRAY_LENGTH
            && s.total == AddByte(t, SumByte(body[2..111])) && rest == EscapeAll(body[111..])
    decreases MAX_FRAME_DATA_SIZE - k
  {
    hide AddByte, SumByte, PacketLength;
    PollBodyByte(r, body, k);
    if k < MAX_FRAME_DATA_SIZE {
      TakeWithin(r, t, body, k);
      hide Take, Poll;
      PollTooLong(Take(r, body[k]), t, body, k + 1);
    } else {
      SumsWithin(t, body, k);
    }
  }

  /** A declared length of one ends the frame after the api id and one more byte. */
  lemma PollLengthOne(r: Receiver, t: byte, body: seq<byte>)
    requires 4 < |body| && body[1] == 1 && Within(r, t, body, 0)
    ensures var (s, rest) := Poll(r, EscapeAll(body[0..]));
            && Done(s) && Clean(s) && rest == EscapeAll(body[4..])
            && OutcomeOf(s) == if AddByte(t, SumByte(body[2..4])) == 0xff then Delivered(body[2], [], body[0], body[1], body[3])
                             else Failed(CHECKSUM_FAILURE)
  {
    hide AddByte, SumByte, Take, Poll;
    PollBodyByte(r, body, 0);
    TakeWithin(r, t, body, 0);
    var s1 := Take(r, body[0]);
    PollBodyByte(s1, body, 1);
    TakeWithin(s1, t, body, 1);
    var s2 := Take(s1, body[1]);
    PollBodyByte(s2, body, 2);
    TakeWithin(s2, t, body, 2);
    var s3 := Take(s2, body[2]);
    PollBodyByte(s3, body, 3);
    TakeShort(s3, t, body);
  }

  lemma TakeShort(r: Receiver, t: byte, body: seq<byte>)
    requires 4 < |body| && body[1] == 1 && Within(r, t, body, 3)
    ensures var s := Take(r, body[3]);
            && Done(s) && Clean(s)
            && OutcomeOf(s) == if AddByte(t, SumByte(body[2..4])) == 0xff then Delivered(body[2], [], body[0], body[1], body[3])
                             else Failed(CHECKSUM_FAILURE)
  {
    hide AddByte, SumByte;
    SumsWithin(t, body, 3);
  }

  // ---- What every request leads to

  /** What a request leads to when a checksum t is left over from before it, and what it leaves over itself. */
  function Meets(t: byte, request: Request): (Outcome, byte)
    requires request.Valid()
  {
    var body := Body(request);
    if |request.data| <= 105 then
      (if t == 0 then DeliveryOf(request) else Failed(CHECKSUM_FAILURE), 0)
    else if |request.data| <= 254 then
      (Failed(PACKET_EXCEEDS_BYTE_ARRAY_LENGTH), AddByte(t, SumByte(body[2..111])))
    else
      (if AddByte(t, SumByte(body[2..4])) == 0xff then Delivered(request.apiId, [], 1, 1, request.frameId) else Failed(CHECKSUM_FAILURE), 0)
  }

  function Outcomes(t: byte, requests: seq<Request>): (log: seq<Outcome>)
    requires AllValid(requests)
    ensures |log| == |requests|
    decreases |requests|
  {
    if requests == [] then []
    else
      var (outcome, u) := Meets(t, requests[0]);
      [outcome] + Outcomes(u, requests[1..])
  }

  function Leftover(t: byte, requests: seq<Request>): byte
    requires AllValid(requests)
    decreases |requests|
  {
    if requests == [] then t else Leftover(Meets(t, requests[0]).1, requests[1..])
  }

  predicate AllValid(requests: seq<Request>) {
    forall i | 0 <= i < |requests| :: |requests[i].data| <= 255
  }

  lemma LargeRequest(r: Receiver, request: Request)
    requires Between(r) && 105 < |request.data| <= 255
    ensures var (s, rest) := Poll(ResetIfDone(r), Wire(Body(request)));
            && Done(s) && Between(s) && START_BYTE !in rest
            && (OutcomeOf(s), s.total) == Meets(r.total, request)
  {
    hide Take, Sum, SumByte, AddByte;
    var body := Body(request);
    var q := ResetIfDone(r);
    var s0 := q.(pos := 1);
    TakeStart(q);
    assert Wire(body)[1..] == EscapeAll(body[0..]);
    assert Poll(q, Wire(body)) == Poll(s0, EscapeAll(body[0..]));
    assert Within(s0, r.total, body, 0);
    if |request.data| < 255 {
      PollTooLong(s0, r.total, body, 0);
      NoStartInside(body[111..]);
    } else {
      PollLengthOne(s0, r.total, body);
      NoStartInside(body[4..]);
    }
  }

  /** One request's frame at the head of a stream. */
  lemma RequestDrained(r: Receiver, request: Request, more: seq<byte>) returns (s: Receiver)
    requires Between(r) && request.Valid() && Sound(false, Wire(Body(request)) + more)
    ensures var (outcome, u) := Meets(r.total, request);
            && Between(s) && s.total == u
            && Drain(r, Wire(Body(request)) + more) == (Drain(s, more).0, [outcome] + Drain(s, more).1)
  {
    hide Poll, Sound, Wire, Body, Sum, SumByte, AddByte, Drain, Meets;
    var wire := Wire(Body(request));
    DrainSplit(r, wire, more);
    s := Poll(ResetIfDone(r), wire).0;
    var rest := Poll(ResetIfDone(r), wire).1;
    if |request.data| <= 105 {
      SmallRequest(r, request);
      SmallMeets(r.total, request);
      assert rest + more == more;
    } else {
      LargeRequest(r, request);
      DrainSkips(s, rest, more);
    }
  }

  lemma SmallMeets(t: byte, request: Request)
    requires |request.data| <= 105
    ensures Meets(t, request) == (if t == 0 then DeliveryOf(request) else Failed(CHECKSUM_FAILURE), 0)
  {}

  /** Between frames everything up to the next start byte is skipped. */
  lemma DrainSkips(r: Receiver, skipped: seq<byte>, more: seq<byte>)
    requires Between(r) && START_BYTE !in skipped && Sound(false, skipped + more)
    ensures Drain(r, skipped + more) == Drain(r, more)
  {
    hide Poll, Sound, OutcomeOf;
    var q := ResetIfDone(r);
    DrainSplit(r, skipped, more);
    IdleSkips(q, skipped);
    assert [] + more == more;
    assert ResetIfDone(q) == q;
    var log := Drain(q, more).1;
    assert [] + log == log;
  }

  // ---- The sender's streams

  /** Sound, and not cut after an escape byte. */
  ghost predicate Settled(s: seq<byte>) {
    forall i | 0 <= i < |s| && s[i] == ESCAPE :: i + 1 < |s| && s[i + 1] != START_BYTE && s[i + 1] != ESCAPE
  }

  lemma SettledConcat(a: seq<byte>, b: seq<byte>)
    requires Settled(a) && Settled(b)
    ensures Settled(a + b)
  {
    forall i | 0 <= i < |a + b| && (a + b)[i] == ESCAPE
      ensures i + 1 < |a + b| && (a + b)[i + 1] != START_BYTE && (a + b)[i + 1] != ESCAPE
    {
      if i < |a| {
        assert a[i] == ESCAPE;
      } else {
        assert b[i - |a|] == ESCAPE;
      }
    }
  }

  lemma EscapedSettled(b: byte)
    ensures Settled(Escaped(b)) && Settled([START_BYTE])
  {}

  lemma {:induction false} EscapeAllSettled(body: seq<byte>)
    ensures Settled(EscapeAll(body))
  {
    hide Settled, Escaped;
    if body == [] {
      EmptySettled();
    } else {
      EscapedSettled(body[0]);
      EscapeAllSettled(body[1..]);
      SettledConcat(Escaped(body[0]), EscapeAll(body[1..]));
    }
  }

  lemma EmptySettled()
    ensures Settled([])
  {}

  lemma WireSettled(body: seq<byte>)
    ensures Settled(Wire(body))
  {
    hide Settled, EscapeAll;
    EscapedSettled(0);
    EscapeAllSettled(body);
    SettledConcat([START_BYTE], EscapeAll(body));
  }

  lemma {:induction false} WireAllSettled(bodies: seq<seq<byte>>)
    ensures Settled(WireAll(bodies))
  {
    hide Settled, Wire;
    if bodies == [] {
      EmptySettled();
    } else {
      WireSettled(bodies[0]);
      WireAllSettled(bodies[1..]);
      SettledConcat(Wire(bodies[0]), WireAll(bodies[1..]));
    }
  }

  lemma BodiesNext(requests: seq<Request>)
    requires requests != []
    ensures WireAll(Bodies(requests)) == Wire(Body(requests[0])) + WireAll(Bodies(requests[1..]))
  {
    hide Wire, Body;
    assert Bodies(requests)[1..] == Bodies(requests[1..]);
  }

  lemma SettledIsSound(s: seq<byte>)
    requires Settled(s)
    ensures Sound(false, s)
  {}

  lemma NothingDrained(r: Receiver)
    requires Valid(r)
    ensures Drain(r, []) == (ResetIfDone(r), [])
  {}

  lemma {:induction false} RequestsDrained(r: Receiver, requests: seq<Request>)
    requires Between(r) && AllValid(requests)
    ensures var (final, log) := Drain(r, WireAll(Bodies(requests)));
            log == Outcomes(r.total, requests) && Between(final) && final.total == Leftover(r.total, requests)
    decreases |requests|
  {
    hide Poll, Sound, Wire, Body, Drain, Meets, Settled;
    if requests == [] {
      NothingDrained(r);
    } else {
      BodiesNext(requests);
      WireAllSettled(Bodies(requests));
      SettledIsSound(WireAll(Bodies(requests)));
      var s := RequestDrained(r, requests[0], WireAll(Bodies(requests[1..])));
      RequestsDrained(s, requests[1..]);
    }
  }

  /** Every request, of whatever size, leads to one outcome, in order, on every schedule. */
  lemma EveryRequestOnce(r: Receiver, events: seq<Event>, requests: seq<Request>, future: seq<byte>)
    requires Between(r) && AllValid(requests)
    requires Arrived(events) + future == WireAll(Bodies(requests))
    ensures var (s, left, log) := Run(r, [], events);
            && log <= Outcomes(r.total, requests)
            && (left + future == [] ==>
                  log == Outcomes(r.total, requests) && Between(s) && s.total == Leftover(r.total, requests))
  {
    hide Poll, Sound, WireAll, Body, Drain, Meets, Settled, Run, Arrived;
    RequestsDrained(r, requests);
    WireAllSettled(Bodies(requests));
    SettledIsSound(WireAll(Bodies(requests)));
    ScheduleMakesNoDifference(r, events, future);
  }

  // ---- Which requests are delivered

  /** A request is delivered if and only if it has at most 105 data bytes and the ones before it leave no
      checksum over. */
  lemma {:induction false} OutcomeIsDeliveryIff(t: byte, requests: seq<Request>, i: nat)
    requires AllValid(requests) && i < |requests|
    ensures Outcomes(t, requests)[i] == DeliveryOf(requests[i]) <==>
            |requests[i].data| <= 105 && Leftover(t, requests[..i]) == 0
    decreases |requests|
  {
    hide AddByte, SumByte, Body;
    var u := Meets(t, requests[0]).1;
    if i == 0 {
      assert requests[..0] == [];
    } else {
      hide Meets;
      OutcomeIsDeliveryIff(u, requests[1..], i - 1);
      assert requests[..i][1..] == requests[1..][..i - 1];
    }
  }

  /** What a small request leads to when i others came before it. */
  function SmallOutcome(t: byte, i: nat, request: Request): Outcome {
    if i == 0 && t != 0 then Failed(CHECKSUM_FAILURE) else DeliveryOf(request)
  }

  lemma OutcomesNext(t: byte, requests: seq<Request>)
    requires AllValid(requests) && requests != [] && |requests[0].data| <= 105
    ensures Outcomes(t, requests) == [SmallOutcome(t, 0, requests[0])] + Outcomes(0, requests[1..])
    ensures Leftover(t, requests) == Leftover(0, requests[1..])
  {
    SmallMeets(t, requests[0]);
    hide Meets, DeliveryOf;
  }

  lemma {:induction false} OutcomesOfSmall(t: byte, requests: seq<Request>)
    requires forall i | 0 <= i < |requests| :: |requests[i].data| <= 105
    ensures forall i | 0 <= i < |requests| :: Outcomes(t, requests)[i] == SmallOutcome(t, i, requests[i])
    ensures Leftover(t, requests) == if requests == [] then t else 0
    decreases |requests|
  {
    if requests != [] {
      OutcomesNext(t, requests);
      OutcomesOfSmall(0, requests[1..]);
      hide Outcomes, DeliveryOf;
    }
  }

  /** On every schedule. */
  lemma DeliveredIff(r: Receiver, events: seq<Event>, requests: seq<Request>, future: seq<byte>, i: nat)
    requires Between(r) && AllValid(requests) && i < |requests|
    requires Arrived(events) + future == WireAll(Bodies(requests))
    ensures var (s, left, log) := Run(r, [], events);
            && (i < |log| ==> (log[i] == DeliveryOf(requests[i]) <==>
                               |requests[i].data| <= 105 && Leftover(r.total, requests[..i]) == 0))
            && (left + future == [] ==> i < |log|)
  {
    hide Run, Arrived, WireAll, Bodies, Outcomes, Leftover, Between, DeliveryOf;
    EveryRequestOnce(r, events, requests, future);
    OutcomeIsDeliveryIff(r.total, requests, i);
  }

  /** One request to a clean receiver: whatever the schedule, it has one outcome, which is its delivery if
      and only if it has at most 105 data bytes. */
  lemma DeliveredIffAtMost105(r: Receiver, events: seq<Event>, request: Request, future: seq<byte>)
    requires Clean(r) && request.Valid() && Arrived(events) + future == Wire(Body(request))
    ensures var (s, left, log) := Run(r, [], events);
            && (DeliveryOf(request) in log ==> |request.data| <= 105)
            && (left + future == [] ==> |log| == 1 && (log[0] == DeliveryOf(request) <==> |request.data| <= 105))
  {
    hide Run, Arrived, Wire, Body, Outcomes, DeliveryOf;
    assert Bodies([request]) == [Body(request)] && WireAll([]) == [];
    assert Bodies([request])[1..] == [];
    assert Wire(Body(request)) + [] == Wire(Body(request));
    EveryRequestOnce(r, events, [request], future);
    OutcomeIsDeliveryIff(r.total, [request], 0);
    assert [request][..0] == [];
  }

  /** A checksum left over from before costs exactly the next request. */
  lemma LeftoverCostsOneFrame(r: Receiver, events: seq<Event>, requests: seq<Request>, future: seq<byte>)
    requires Between(r) && (forall i | 0 <= i < |requests| :: |requests[i].data| <= 105)
    requires Arrived(events) + future == WireAll(Bodies(requests))
    ensures var (s, left, log) := Run(r, [], events);
            && |log| <= |requests|
            && (forall i | 0 <= i < |log| ::
                  log[i] == if i == 0 && r.total != 0 then Failed(CHECKSUM_FAILURE) else DeliveryOf(requests[i]))
            && (left + future == [] ==> |log| == |requests|)
  {
    hide Run, Arrived, WireAll, Bodies, Outcomes, Leftover, Between, DeliveryOf;
    EveryRequestOnce(r, events, requests, future);
    OutcomesOfSmall(r.total, requests);
  }

  lemma StartDrained(r: Receiver, lost: seq<byte>, more: seq<byte>) returns (s: Receiver)
    requires Valid(r) && !Done(r) && r.pos > 0 && Sound(false, Wire(lost) + more)
    ensures Sound(r.escape, Wire(lost) + more) && Between(s) && s.total == r.total
    ensures Drain(r, Wire(lost) + more) == (Drain(s, more).0, [Failed(UNEXPECTED_START_BYTE)] + Drain(s, more).1)
  {
    s := r.(error := UNEXPECTED_START_BYTE);
    var after := EscapeAll(lost) + more;
    assert Wire(lost) + more == [START_BYTE] + after;
    assert [START_BYTE][1..] == [];
    assert Poll(r, [START_BYTE]) == (s, []);
    NoStartInside(lost);
    SoundSuffix(false, Wire(lost) + more, 1);
    assert (Wire(lost) + more)[1..] == after;
    hide Poll, Drain, EscapeAll, Sound;
    SoundAtStart(r.escape, after);
    DrainSplit(r, [START_BYTE], after);
    assert [] + after == after;
    DrainSkips(s, EscapeAll(lost), more);
  }

  lemma SoundAtStart(escape: bool, after: seq<byte>)
    requires Sound(false, [START_BYTE] + after)
    ensures Sound(escape, [START_BYTE] + after)
  {}

  /** A frame that starts inside another: it is an error and is lost with the one it interrupted, and the
      requests after it meet the checksum that the interrupted one had under way. */
  lemma AfterUnexpectedStart(r: Receiver, lost: seq<byte>, events: seq<Event>, requests: seq<Request>, future: seq<byte>)
    requires Valid(r) && !Done(r) && r.pos > 0 && AllValid(requests)
    requires Arrived(events) + future == Wire(lost) + WireAll(Bodies(requests))
    ensures var (s, left, log) := Run(r, [], events);
            var all := [Failed(UNEXPECTED_START_BYTE)] + Outcomes(r.total, requests);
            log <= all && (left + future == [] ==> log == all && Between(s) && s.total == Leftover(r.total, requests))
  {
    hide Poll, Sound, Wire, WireAll, Bodies, Body, Drain, Meets, Settled, Run, Arrived, Outcomes, Leftover;
    var more := WireAll(Bodies(requests));
    WireSettled(lost);
    WireAllSettled(Bodies(requests));
    SettledConcat(Wire(lost), more);
    SettledIsSound(Wire(lost) + more);
    var s := StartDrained(r, lost, more);
    RequestsDrained(s, requests);
    ScheduleMakesNoDifference(r, events, future);
  }
}
