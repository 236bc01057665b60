// The frames of one timer, on a timer that counts 2 MHz and interrupts exactly at each match, while
// the program changes the pulse widths at any time.
module ServoFrames {
  import opened ServoTimers

  /** The longest pulse that any limits of attach allow: 2912 us, less the trim. */
  const LONGEST: nat := 5820

  datatype Moment = Moment(s: Timer, time: nat)

  /** The next match, and its interrupt. */
  function Next(t: Table, timer: nat, m: Moment): Moment
    requires ValidTable(t) && m.s.Valid()
  {
    Moment(Interrupt(t, timer, m.s.(tcnt := m.s.ocr)), m.time + Wait(m.s))
  }

  /** One interrupt for each table, as the table stands at that interrupt. */
  function Run(tables: seq<Table>, timer: nat, m: Moment): (r: Moment)
    requires m.s.Valid() && forall t | t in tables :: ValidTable(t)
    ensures r.s.Valid()
  {
    if tables == [] then m
    else Next(tables[|tables| - 1], timer, Run(tables[..|tables| - 1], timer, m))
  }

  /** The tables agree on everything but the pulse widths, which are in range. */
  ghost predicate Tables(tables: seq<Table>, t: Table) {
    && ValidTable(t)
    && forall u | u in tables :: SameLayout(u, t)
  }

  ghost predicate SameLayout(u: Table, t: Table)
    requires ValidTable(t)
  {
    && ValidTable(u) && u.count == t.count && |u.servos| == |t.servos|
    && forall i | 0 <= i < t.count :: u.servos[i].pin == t.servos[i].pin && u.servos[i].active == t.servos[i].active
                                      && 1 <= u.servos[i].ticks <= LONGEST
  }

  /** How many of the servos the timer serves. */
  function Channels(t: Table, timer: nat): nat {
    if t.count <= Index(timer, 0) then 0
    else if t.count - Index(timer, 0) < SERVOS_PER_TIMER then t.count - Index(timer, 0) else SERVOS_PER_TIMER
  }

  function Ticks(t: Table, timer: nat, k: nat): nat
    requires ValidTable(t)
  {
    if Index(timer, k) < t.count then t.servos[Index(timer, k)].ticks else 0
  }

  /** The widths that the first k channels had when their pulses began. */
  function Sum(tables: seq<Table>, timer: nat, k: nat): nat
    requires k <= |tables| && forall t | t in tables :: ValidTable(t)
  {
    if k == 0 then 0 else Sum(tables, timer, k - 1) + Ticks(tables[k - 1], timer, k - 1)
  }

  /** Waiting for the refresh period to be over, with no pin high. */
  ghost predicate Resting(m: Moment) {
    m.s.Valid() && m.s.channel == -1 && m.s.high == {}
  }

  /** A pulse of the channel, begun so long after the refresh, is under way. */
  ghost predicate Pulsing(m: Moment, t: Table, timer: nat, k: nat, start: nat, offset: nat)
    requires ValidTable(t)
  {
    && m.s.Valid() && m.s.channel == k && m.s.tcnt == offset % WRAP && m.s.ocr == (offset + Ticks(t, timer, k)) % WRAP
    && m.s.high == Pulse(t, timer, k) && m.time == start + offset
  }

  /** All the pulses took so long, and the timer waits for the refresh. */
  ghost predicate Done(m: Moment, start: nat, offset: nat) {
    && Resting(m) && m.time == start + offset && m.s.tcnt == offset % WRAP
    && m.s.ocr == (if (offset % WRAP + 4) % WRAP < REFRESH then REFRESH else (offset % WRAP + 4) % WRAP)
  }

  ghost predicate Reached(m: Moment, t: Table, timer: nat, k: nat, start: nat, offset: nat)
    requires ValidTable(t)
  {
    if k < Channels(t, timer) then Pulsing(m, t, timer, k, start, offset) else Done(m, start, offset)
  }

  lemma ChannelsIff(t: Table, timer: nat, k: nat)
    ensures k < Channels(t, timer) <==> Index(timer, k) < t.count && k < SERVOS_PER_TIMER
    ensures Channels(t, timer) <= SERVOS_PER_TIMER
  {}

  lemma AddWrapped(a: nat, b: nat)
    ensures (a % WRAP + b) % WRAP == (a + b) % WRAP
  {}

  /** The match comes after exactly the pulse's ticks, even if the count wraps on the way. */
  lemma WaitIs(s: Timer, offset: nat, ticks: nat)
    requires s.Valid() && 1 <= ticks < WRAP && s.tcnt == offset % WRAP && s.ocr == (offset + ticks) % WRAP
    ensures Wait(s) == ticks
  {}

  lemma RefreshBegins(t: Table, timer: nat, m: Moment)
    requires ValidTable(t) && Resting(m)
    ensures Reached(Next(t, timer, m), t, timer, 0, m.time + Wait(m.s), 0)
  {
    hide Wait, Pulse;
    ChannelsIff(t, timer, 0);
  }

  lemma PulseEnds(t: Table, u: Table, timer: nat, m: Moment, k: nat, start: nat, offset: nat)
    requires ValidTable(t) && SameLayout(u, t) && SameLayout(t, t) && k < Channels(t, timer)
    requires Pulsing(m, t, timer, k, start, offset)
    ensures Reached(Next(u, timer, m), u, timer, k + 1, start, offset + Ticks(t, timer, k))
  {
    hide Wait;
    ChannelsIff(t, timer, k);
    ChannelsIff(u, timer, k + 1);
    WaitIs(m.s, offset, Ticks(t, timer, k));
    var s := m.s.(tcnt := m.s.ocr);
    assert Ended(u, timer, s) == s.(high := {});
    if k + 1 < Channels(u, timer) {
      AddWrapped(offset + Ticks(t, timer, k), Ticks(u, timer, k + 1));
    }
  }

  /** From a refresh on, channel after channel is pulsed, each for exactly its ticks, and no other pin
      of the timer is high meanwhile; then all are low until the next refresh. */
  lemma {:induction false} ChannelsInTurn(tables: seq<Table>, t: Table, timer: nat, m: Moment)
    requires Tables(tables, t) && Resting(m) && 1 <= |tables| <= Channels(t, timer) + 1
    ensures Reached(Run(tables, timer, m), tables[|tables| - 1], timer, |tables| - 1, m.time + Wait(m.s), Sum(tables, timer, |tables| - 1))
  {
    hide Wait, Reached, Channels;
    var k := |tables| - 1;
    var u := tables[k];
    assert u in tables && SameLayout(u, t);
    assert Tables(tables[..k], t);
    if k == 0 {
      assert tables[..k] == [];
      RefreshBegins(u, timer, m);
    } else {
      ChannelsInTurn(tables[..k], t, timer, m);
      SumPrefix(tables, timer, k);
      NextReached(tables[k - 1], u, t, timer, Run(tables[..k], timer, m), k - 1, m.time + Wait(m.s), Sum(tables, timer, k - 1));
    }
  }

  lemma NextReached(u: Table, v: Table, t: Table, timer: nat, m: Moment, k: nat, start: nat, offset: nat)
    requires ValidTable(t) && SameLayout(u, t) && SameLayout(v, t) && k < Channels(t, timer)
    requires Reached(m, u, timer, k, start, offset)
    ensures m.s.Valid()
    ensures Reached(Next(v, timer, m), v, timer, k + 1, start, offset + Ticks(u, timer, k))
  {
    PulseEnds(u, v, timer, m, k, start, offset);
  }

  lemma {:induction false} SumPrefix(tables: seq<Table>, timer: nat, k: nat)
    requires 1 <= k < |tables| && forall t | t in tables :: ValidTable(t)
    ensures Sum(tables[..k], timer, k - 1) == Sum(tables, timer, k - 1)
  {
    SumAgrees(tables[..k], tables, timer, k - 1);
  }

  lemma {:induction false} SumAgrees(a: seq<Table>, b: seq<Table>, timer: nat, k: nat)
    requires k <= |a| <= |b| && a == b[..|a|] && forall t | t in b :: ValidTable(t)
    requires forall t | t in a :: ValidTable(t)
    ensures Sum(a, timer, k) == Sum(b, timer, k)
  {
    if k > 0 {
      SumAgrees(a, b, timer, k - 1);
      assert a[k - 1] == b[k - 1];
    }
  }

  lemma {:induction false} SumBound(tables: seq<Table>, timer: nat, k: nat, longest: nat)
    requires k <= |tables| && forall u | u in tables :: ValidTable(u)
    requires forall u, i: nat | u in tables :: Ticks(u, timer, i) <= longest
    ensures Sum(tables, timer, k) <= k * longest
  {
    hide Ticks, ValidTable;
    if k > 0 {
      SumBound(tables, timer, k - 1, longest);
      assert tables[k - 1] in tables;
      assert k * longest == (k - 1) * longest + longest;
    }
  }

  // ---- The length of a frame

  /** The refresh interval, or four ticks more than the pulses took; but a count that has wrapped, or
      would with those four ticks, waits for the whole interval all the same. */
  function FrameLength(pulses: nat): nat {
    if pulses + 4 >= WRAP then WRAP + REFRESH
    else if pulses + 4 < REFRESH then REFRESH else pulses + 4
  }

  lemma DoneWait(m: Moment, start: nat, offset: nat)
    requires Done(m, start, offset) && offset <= SERVOS_PER_TIMER * LONGEST
    ensures m.time + Wait(m.s) == start + FrameLength(offset)
  {}

  /** A frame from a refresh to the next. */
  lemma Frame(tables: seq<Table>, t: Table, timer: nat, m: Moment)
    requires Tables(tables, t) && Resting(m) && |tables| == Channels(t, timer) + 1
    ensures var r := Run(tables, timer, m);
            var refresh := m.time + Wait(m.s);
            Resting(r) && r.time + Wait(r.s) == refresh + FrameLength(Sum(tables, timer, Channels(t, timer)))
  {
    hide Wait, FrameLength, Run;
    var n := Channels(t, timer);
    assert tables[n] in tables;
    ChannelsIff(t, timer, 0);
    ChannelsInTurn(tables, t, timer, m);
    assert Channels(tables[n], timer) == n;
    TicksInRange(tables, t, timer);
    SumBound(tables, timer, n, LONGEST);
    DoneWait(Run(tables, timer, m), m.time + Wait(m.s), Sum(tables, timer, n));
  }

  lemma TicksInRange(tables: seq<Table>, t: Table, timer: nat)
    requires Tables(tables, t)
    ensures forall u, i: nat | u in tables :: Ticks(u, timer, i) <= LONGEST
  {}

  /** A frame is as long as it should be if and only if its pulses leave room for the count. */
  lemma FrameLengthIff(pulses: nat)
    requires pulses <= SERVOS_PER_TIMER * LONGEST
    ensures FrameLength(pulses) == (if pulses + 4 < REFRESH then REFRESH else pulses + 4) <==> pulses + 4 < WRAP
  {}

  /** With the default limits the pulses always do. */
  lemma DefaultFrame(tables: seq<Table>, t: Table, timer: nat, m: Moment)
    requires Tables(tables, t) && Resting(m) && |tables| == Channels(t, timer) + 1
    requires forall u, i: nat | u in tables :: Ticks(u, timer, i) <= 4796
    ensures var r := Run(tables, timer, m);
            var pulses := Sum(tables, timer, Channels(t, timer));
            && Resting(r) && pulses + 4 < WRAP
            && r.time + Wait(r.s) == m.time + Wait(m.s) + (if pulses + 4 < REFRESH then REFRESH else pulses + 4)
  {
    hide Wait, Run;
    ChannelsIff(t, timer, 0);
    SumBound(tables, timer, Channels(t, timer), 4796);
    Frame(tables, t, timer, m);
  }

  // ---- Frame after frame

  /** The tables of every frame: one for each of its interrupts. */
  ghost predicate Frames(frames: seq<seq<Table>>, t: Table, timer: nat) {
    ValidTable(t) && forall f | f in frames :: Tables(f, t) && |f| == Channels(t, timer) + 1
  }

  function Flat(frames: seq<seq<Table>>): seq<Table> {
    if frames == [] then [] else Flat(frames[..|frames| - 1]) + frames[|frames| - 1]
  }

  function TotalLength(frames: seq<seq<Table>>, t: Table, timer: nat): nat
    requires Frames(frames, t, timer)
  {
    if frames == [] then 0
    else
      var k := |frames| - 1;
      assert frames[k] in frames;
      FrameValid(frames[k], t);
      TotalLength(frames[..k], t, timer) + FrameLength(Sum(frames[k], timer, Channels(t, timer)))
  }

  lemma FrameValid(tables: seq<Table>, t: Table)
    requires Tables(tables, t)
    ensures forall u | u in tables :: ValidTable(u)
  {}

  lemma {:induction false} FlatValid(frames: seq<seq<Table>>, t: Table, timer: nat)
    requires Frames(frames, t, timer)
    ensures Tables(Flat(frames), t) && forall u | u in Flat(frames) :: ValidTable(u)
  {
    hide SameLayout;
    if frames != [] {
      var k := |frames| - 1;
      FlatValid(frames[..k], t, timer);
      assert frames[k] in frames;
    }
    FrameValid(Flat(frames), t);
  }

  lemma {:induction false} RunAppend(a: seq<Table>, b: seq<Table>, timer: nat, m: Moment)
    requires m.s.Valid() && forall t | t in a + b :: ValidTable(t)
    ensures forall t | t in a :: t in a + b
    ensures forall t | t in b :: t in a + b
    ensures Run(a + b, timer, m) == Run(b, timer, Run(a, timer, m))
  {
    hide Next, ValidTable;
    if b == [] {
      assert a + b == a;
    } else {
      var k := |b| - 1;
      assert (a + b)[..|a| + k] == a + b[..k];
      assert forall t | t in a + b[..k] :: t in a + b;
      RunAppend(a, b[..k], timer, m);
    }
  }

  /** Over any number of frames, with widths that change at any time, each refresh comes exactly when
      the lengths of the frames before it add up to. */
  lemma {:induction false} FramesAddUp(frames: seq<seq<Table>>, t: Table, timer: nat, m: Moment)
    requires Frames(frames, t, timer) && Resting(m)
    ensures Tables(Flat(frames), t)
    ensures var r := Run(Flat(frames), timer, m);
            Resting(r) && r.time + Wait(r.s) == m.time + Wait(m.s) + TotalLength(frames, t, timer)
  {
    hide Wait, FrameLength, Tables, Channels, ValidTable;
    FlatValid(frames, t, timer);
    if frames != [] {
      var k := |frames| - 1;
      assert frames[k] in frames && forall f | f in frames[..k] :: f in frames;
      FramesAddUp(frames[..k], t, timer, m);
      FlatValid(frames[..k], t, timer);
      FrameValid(frames[k], t);
      RunAppend(Flat(frames[..k]), frames[k], timer, m);
      hide Run;
      Frame(frames[k], t, timer, Run(Flat(frames[..k]), timer, m));
    }
  }

  /** Twelve servos with the longest pulses that limits allow. */
  function TwelveLong(): Table {
    Table(seq(12, (i: nat) => Entry(i, true, LONGEST)), 12)
  }

  lemma {:induction false} SumOfLong(tables: seq<Table>, k: nat)
    requires k <= |tables| && k <= 12 && forall t | t in tables :: t == TwelveLong()
    ensures forall t | t in tables :: ValidTable(t)
    ensures Sum(tables, 0, k) == k * LONGEST
  {
    if k > 0 {
      SumOfLong(tables, k - 1);
      assert tables[k - 1] in tables;
    }
  }

  /** Their frame lasts 105536 ticks, where 69844 would do. */
  lemma FrameTooLong(m: Moment)
    requires Resting(m)
    ensures var tables := seq(13, _ => TwelveLong());
            && Tables(tables, TwelveLong()) && Channels(TwelveLong(), 0) == 12 && DistinctPins(TwelveLong())
            && var r := Run(tables, 0, m); r.time + Wait(r.s) == m.time + Wait(m.s) + 105536
  {
    hide Wait, Run;
    var tables := seq(13, _ => TwelveLong());
    SumOfLong(tables, 12);
    Frame(tables, TwelveLong(), 0, m);
  }

  /** From the first interrupt after power-up, or from any refresh, no two pins of a timer are ever
      high together: only the pulsing channel's is. */
  lemma {:induction false} OnePinAtMost(tables: seq<Table>, t: Table, timer: nat, m: Moment)
    requires Tables(tables, t) && m.s.Valid() && m.s.high == {}
    ensures var r := Run(tables, timer, m);
            if r.s.channel < 0 then r.s.high == {} else r.s.high <= Pulse(t, timer, r.s.channel)
  {
    hide Wait;
    if tables != [] {
      var k := |tables| - 1;
      assert Tables(tables[..k], t);
      assert SameLayout(tables[k], t);
      OnePinAtMost(tables[..k], t, timer, m);
    }
  }

  /** The moment after interrupt i of a run. */
  function After(tables: seq<Table>, t: Table, timer: nat, m: Moment, i: nat): Moment
    requires Tables(tables, t) && m.s.Valid() && i < |tables|
  {
    assert Tables(tables[..i + 1], t);
    Run(tables[..i + 1], timer, m)
  }

  /** In a frame the pin of an active channel is high from the start of its pulse to the start of the
      next, exactly its ticks, and low at every other time. */
  lemma PinHighForItsTicks(tables: seq<Table>, t: Table, timer: nat, m: Moment, j: nat)
    requires Tables(tables, t) && Resting(m) && |tables| == Channels(t, timer) + 1
    requires DistinctPins(t) && j < Channels(t, timer)
    requires Index(timer, j) < t.count && t.servos[Index(timer, j)].active
    ensures forall i | 0 <= i <= Channels(t, timer) ::
              t.servos[Index(timer, j)].pin in After(tables, t, timer, m, i).s.high <==> i == j
    ensures tables[j] in tables
    ensures After(tables, t, timer, m, j + 1).time - After(tables, t, timer, m, j).time == Ticks(tables[j], timer, j)
  {
    hide Wait, After, Channels;
    forall i | 0 <= i <= Channels(t, timer)
      ensures t.servos[Index(timer, j)].pin in After(tables, t, timer, m, i).s.high <==> i == j
    {
      InTurn(tables, t, timer, m, i);
      if i < Channels(t, timer) {
        assert tables[i] in tables;
        OnePulse(tables[i], t, timer, i, j);
      }
    }
    InTurn(tables, t, timer, m, j);
    InTurn(tables, t, timer, m, j + 1);
  }

  lemma InTurn(tables: seq<Table>, t: Table, timer: nat, m: Moment, i: nat)
    requires Tables(tables, t) && Resting(m) && |tables| == Channels(t, timer) + 1 && i < |tables|
    ensures tables[i] in tables
    ensures var a, offset := After(tables, t, timer, m, i), Sum(tables, timer, i);
            && a.time == m.time + Wait(m.s) + offset
            && a.s.high == if i < Channels(t, timer) then Pulse(tables[i], timer, i) else {}
  {
    hide Wait, Run, Channels;
    assert tables[i] in tables;
    ChannelsInTurn(tables[..i + 1], t, timer, m);
    SumAgrees(tables[..i + 1], tables, timer, i);
    ChannelsAgree(tables[i], t, timer);
  }

  lemma ChannelsAgree(u: Table, t: Table, timer: nat)
    requires ValidTable(t) && SameLayout(u, t)
    ensures Channels(u, timer) == Channels(t, timer)
  {}

  lemma OnePulse(u: Table, t: Table, timer: nat, i: nat, j: nat)
    requires ValidTable(t) && SameLayout(u, t) && DistinctPins(t) && i < Channels(t, timer) && j < Channels(t, timer)
    requires Index(timer, j) < t.count && t.servos[Index(timer, j)].active
    ensures t.servos[Index(timer, j)].pin in Pulse(u, timer, i) <==> i == j
  {
    ChannelsIff(t, timer, i);
    var a, b := Index(timer, i), Index(timer, j);
    assert i < j ==> a < b;
    assert i > j ==> b < a;
  }
}
