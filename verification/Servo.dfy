// The pulse scheduler of Servo.cpp. Each 16-bit timer serves twelve channels: its compare interrupt
// ends one pulse, starts the next, and after the last waits for the refresh period to be over.
module ServoTimers {

  const SERVOS_PER_TIMER: nat := 12
  const REFRESH: nat := 40000  // usToTicks(REFRESH_INTERVAL), at 16 MHz
  const WRAP: nat := 65536

  datatype Entry = Entry(pin: nat, active: bool, ticks: nat)

  /** servos[] and ServoCount. */
  datatype Table = Table(servos: seq<Entry>, count: nat)

  /** Channel[timer], TCNTn, OCRnA, and the pins of the timer's servos that are high. */
  datatype Timer = Timer(channel: int, tcnt: nat, ocr: nat, high: set<nat>) {
    ghost predicate Valid() {
      -1 <= channel < SERVOS_PER_TIMER && tcnt < WRAP && ocr < WRAP
    }
  }

  ghost predicate ValidTable(t: Table) {
    t.count <= |t.servos|
  }

  function Index(timer: nat, channel: nat): nat {
    timer * SERVOS_PER_TIMER + channel
  }

  /** The pin that the channel pulses, if any. */
  function Pulse(t: Table, timer: nat, channel: nat): set<nat>
    requires ValidTable(t)
  {
    if Index(timer, channel) < t.count && t.servos[Index(timer, channel)].active then
      {t.servos[Index(timer, channel)].pin}
    else {}
  }

  /** The end of the current channel's pulse, or of the refresh period. */
  function Ended(t: Table, timer: nat, s: Timer): (r: Timer)
    requires ValidTable(t) && s.Valid()
    ensures r.Valid()
  {
    if s.channel < 0 then s.(tcnt := 0) else s.(high := s.high - Pulse(t, timer, s.channel))
  }

  /** The start of the next channel's pulse, or of the wait for the refresh period. */
  function Begun(t: Table, timer: nat, s: Timer): (r: Timer)
    requires ValidTable(t) && s.Valid()
    ensures r.Valid()
  {
    var channel := s.channel + 1;
    if Index(timer, channel) < t.count && channel < SERVOS_PER_TIMER then
      s.(channel := channel, ocr := (s.tcnt + t.servos[Index(timer, channel)].ticks) % WRAP, high := s.high + Pulse(t, timer, channel))
    else
      var soon := (s.tcnt + 4) % WRAP;
      s.(channel := -1, ocr := if soon < REFRESH then REFRESH else soon)
  }

  /** handle_interrupts, in no time. */
  function Interrupt(t: Table, timer: nat, s: Timer): (r: Timer)
    requires ValidTable(t) && s.Valid()
    ensures r.Valid()
  {
    Begun(t, timer, Ended(t, timer, s))
  }

  /** The ticks until the count next matches: a match with the count itself comes round again. */
  function Wait(s: Timer): (n: nat)
    requires s.Valid()
    ensures 1 <= n <= WRAP
  {
    if s.ocr > s.tcnt then s.ocr - s.tcnt else s.ocr + WRAP - s.tcnt
  }

  // ---- Several timers on one set of pins

  /** No two active servos share a pin. */
  ghost predicate DistinctPins(t: Table)
    requires ValidTable(t)
  {
    forall i, j | 0 <= i < j < t.count :: t.servos[i].active && t.servos[j].active ==> t.servos[i].pin != t.servos[j].pin
  }

  /** The pins of the timer's active servos. */
  ghost function Pins(t: Table, timer: nat): set<nat>
    requires ValidTable(t)
  {
    set c | 0 <= c < SERVOS_PER_TIMER && Index(timer, c) < t.count && t.servos[Index(timer, c)].active :: t.servos[Index(timer, c)].pin
  }

  lemma PulseIsPin(t: Table, timer: nat, c: nat)
    requires ValidTable(t) && c < SERVOS_PER_TIMER
    ensures Pulse(t, timer, c) <= Pins(t, timer)
  {}

  lemma OtherTimersPin(t: Table, timer: nat, other: nat, c: nat)
    requires ValidTable(t) && DistinctPins(t) && c < SERVOS_PER_TIMER && other != timer
    ensures Pulse(t, timer, c) * Pins(t, other) == {}
  {
    forall d | 0 <= d < SERVOS_PER_TIMER
      ensures Index(timer, c) != Index(other, d)
    {}
  }

  ghost function Own(t: Table, timer: nat, s: Timer): Timer
    requires ValidTable(t)
  {
    s.(high := s.high * Pins(t, timer))
  }

  lemma Apart(high: set<nat>, p: set<nat>, q: set<nat>)
    requires p * q == {}
    ensures (high - p) * q == high * q && (high + p) * q == high * q
  {
    forall x | x in q
      ensures x !in p
    {
      assert x in p ==> x in p * q;
    }
  }

  lemma EndedIsLocal(t: Table, timer: nat, other: nat, s: Timer)
    requires ValidTable(t) && s.Valid() && DistinctPins(t) && other != timer
    ensures Own(t, timer, Ended(t, timer, s)) == Ended(t, timer, Own(t, timer, s))
    ensures Ended(t, timer, s).high * Pins(t, other) == s.high * Pins(t, other)
  {
    hide Pulse, Pins, DistinctPins;
    if s.channel >= 0 {
      PulseIsPin(t, timer, s.channel);
      OtherTimersPin(t, timer, other, s.channel);
      Apart(s.high, Pulse(t, timer, s.channel), Pins(t, other));
    }
  }

  lemma BegunIsLocal(t: Table, timer: nat, other: nat, s: Timer)
    requires ValidTable(t) && s.Valid() && DistinctPins(t) && other != timer
    ensures Own(t, timer, Begun(t, timer, s)) == Begun(t, timer, Own(t, timer, s))
    ensures Begun(t, timer, s).high * Pins(t, other) == s.high * Pins(t, other)
  {
    hide Pulse, Pins, DistinctPins;
    if s.channel + 1 < SERVOS_PER_TIMER {
      PulseIsPin(t, timer, s.channel + 1);
      OtherTimersPin(t, timer, other, s.channel + 1);
      Apart(s.high, Pulse(t, timer, s.channel + 1), Pins(t, other));
    }
  }

  /** The interrupt sees and moves only the pins of its own timer's servos. */
  lemma InterruptIsLocal(t: Table, timer: nat, other: nat, s: Timer)
    requires ValidTable(t) && s.Valid() && DistinctPins(t) && other != timer
    ensures Own(t, timer, Interrupt(t, timer, s)) == Interrupt(t, timer, Own(t, timer, s))
    ensures Interrupt(t, timer, s).high * Pins(t, other) == s.high * Pins(t, other)
  {
    hide Pins, DistinctPins, Ended, Begun;
    EndedIsLocal(t, timer, other, s);
    BegunIsLocal(t, timer, other, Ended(t, timer, s));
  }

  class Servos {
    var servos: seq<Entry>
    var servoCount: nat
    var channel: seq<int>
    var tcnt: seq<nat>
    var ocr: seq<nat>
    var high: set<nat>

    function View(): Table
      reads this
    {
      Table(servos, servoCount)
    }

    ghost predicate Valid()
      reads this
    {
      && |channel| == |tcnt| == |ocr| && |servos| == |channel| * SERVOS_PER_TIMER && ValidTable(View())
      && forall i | 0 <= i < |channel| :: -1 <= channel[i] < SERVOS_PER_TIMER && tcnt[i] < WRAP && ocr[i] < WRAP
    }

    /** The timer's registers, and those of the pins that are high. */
    ghost function State(timer: nat, pins: set<nat>): (s: Timer)
      requires Valid() && timer < |channel|
      reads this
      ensures s.Valid()
    {
      Timer(channel[timer], tcnt[timer], ocr[timer], high * pins)
    }

    method DigitalWrite(pin: nat, level: bool)
      modifies this`high
      ensures high == if level then old(high) + {pin} else old(high) - {pin}
    {
      high := if level then high + {pin} else high - {pin};
    }

    /** The registers of the timer, and the pins that are high. */
    ghost predicate Is(timer: nat, s: Timer)
      requires Valid() && timer < |channel|
      reads this
    {
      channel[timer] == s.channel && tcnt[timer] == s.tcnt && ocr[timer] == s.ocr && high == s.high
    }

    ghost predicate SameElsewhere(timer: nat, a: seq<int>, b: seq<nat>, c: seq<nat>)
      reads this
    {
      && |channel| == |a| && |tcnt| == |b| && |ocr| == |c|
      && (forall u | 0 <= u < |a| && u != timer :: channel[u] == a[u])
      && (forall u | 0 <= u < |b| && u != timer :: tcnt[u] == b[u])
      && (forall u | 0 <= u < |c| && u != timer :: ocr[u] == c[u])
    }

    /** The first half of handle_interrupts. */
    method EndPulse(timer: nat)
      requires Valid() && timer < |channel|
      modifies this`tcnt, this`high
      ensures Valid() && Is(timer, Ended(View(), timer, old(Whole(timer))))
      ensures SameElsewhere(timer, old(channel), old(tcnt), old(ocr))
    {
      if channel[timer] < 0 {
        tcnt := tcnt[timer := 0];
      } else {
        var i := Index(timer, channel[timer]);
        if i < servoCount && servos[i].active {
          DigitalWrite(servos[i].pin, false);
        }
      }
    }

    /** Its second half. */
    method BeginPulse(timer: nat)
      requires Valid() && timer < |channel|
      modifies this`channel, this`ocr, this`high
      ensures Valid() && |channel| == old(|channel|) && Is(timer, Begun(View(), timer, old(Whole(timer))))
      ensures SameElsewhere(timer, old(channel), old(tcnt), old(ocr))
    {
      channel := channel[timer := channel[timer] + 1];
      var i := Index(timer, channel[timer]);
      if i < servoCount && channel[timer] < SERVOS_PER_TIMER {
        ocr := ocr[timer := (tcnt[timer] + servos[i].ticks) % WRAP];
        if servos[i].active {
          DigitalWrite(servos[i].pin, true);
        }
      } else {
        if (tcnt[timer] + 4) % WRAP < REFRESH {
          ocr := ocr[timer := REFRESH];
        } else {
          ocr := ocr[timer := (tcnt[timer] + 4) % WRAP];
        }
        channel := channel[timer := -1];
      }
    }

    ghost function Whole(timer: nat): (s: Timer)
      requires Valid() && timer < |channel|
      reads this
      ensures s.Valid()
    {
      Timer(channel[timer], tcnt[timer], ocr[timer], high)
    }

    /** handle_interrupts. */
    method HandleInterrupts(timer: nat)
      requires Valid() && timer < |channel|
      modifies this`channel, this`tcnt, this`ocr, this`high
      ensures Valid() && |channel| == old(|channel|) && Is(timer, Interrupt(View(), timer, old(Whole(timer))))
      ensures SameElsewhere(timer, old(channel), old(tcnt), old(ocr))
    {
      hide Ended, Begun;
      EndPulse(timer);
      BeginPulse(timer);
    }

    /** With distinct pins, an interrupt takes its own timer one step, and the others do not notice. */
    method Fire(timer: nat)
      requires Valid() && timer < |channel| && DistinctPins(View())
      modifies this`channel, this`tcnt, this`ocr, this`high
      ensures Valid() && |channel| == old(|channel|)
      ensures var pins := Pins(View(), timer);
              State(timer, pins) == Interrupt(View(), timer, old(State(timer, pins)))
      ensures forall u: nat | u < |channel| && u != timer ::
                State(u, Pins(View(), u)) == old(State(u, Pins(View(), u)))
    {
      hide Pins, Interrupt;
      ghost var before := Whole(timer);
      HandleInterrupts(timer);
      InterruptIsLocal(View(), timer, timer + 1, before);
      forall u: nat | u < |channel| && u != timer
        ensures State(u, Pins(View(), u)) == old(State(u, Pins(View(), u)))
      {
        InterruptIsLocal(View(), timer, u, before);
      }
    }
  }
}
