// The Servo object: what is stored for a requested pulse or angle, and what is read back.
module ServoObject {
  import opened ServoTimers

  const MIN_PULSE_WIDTH: int := 544
  const MAX_PULSE_WIDTH: int := 2400
  const TRIM_DURATION: int := 2
  const DEFAULT_TICKS: int := 3000
  const INVALID_SERVO: nat := 255

  /** The division of C. */
  function Quotient(x: int, y: int): int
    requires y != 0
  {
    if (x >= 0) == (y > 0) then Abs(x) / Abs(y) else -(Abs(x) / Abs(y))
  }

  function Abs(x: int): nat {
    if x < 0 then -x else x
  }

  function Int8(x: int): (r: int)
    ensures -128 <= r < 128
  {
    (x + 128) % 256 - 128
  }

  /** SERVO_MIN and SERVO_MAX, from the offsets that attach stores. */
  function Limit(extreme: int, offset: int): int {
    extreme - offset * 4
  }

  function Offset(extreme: int, limit: int): int {
    Int8(Quotient(extreme - limit, 4))
  }

  function Clamp(value: int, low: int, high: int): int {
    if value < low then low else if value > high then high else value
  }

  /** The ticks that writeMicroseconds stores. */
  function WrittenTicks(value: int, low: int, high: int): int {
    (Clamp(value, low, high) - TRIM_DURATION) * 2
  }

  /** What readMicroseconds makes of them, in 16 bits. */
  function ReadPulse(ticks: int): int {
    ticks * 8 % 65536 / 16 + TRIM_DURATION
  }

  /** map of the Arduino core. */
  function Map(x: int, fromLow: int, fromHigh: int, toLow: int, toHigh: int): int
    requires fromLow != fromHigh
  {
    Quotient((x - fromLow) * (toHigh - toLow), fromHigh - fromLow) + toLow
  }

  /** The pulse that write asks for: small values are angles. */
  function Requested(value: int, low: int, high: int): int {
    if value < MIN_PULSE_WIDTH then Map(Clamp(value, 0, 180), 0, 180, low, high) else value
  }

  class Servo {
    var servoIndex: nat
    var min: int
    var max: int

    ghost predicate Valid(lib: Servos)
      reads this, lib
    {
      && lib.Valid() && |lib.servos| < INVALID_SERVO && (servoIndex < |lib.servos| || servoIndex == INVALID_SERVO)
      && -128 <= min < 128 && -128 <= max < 128
    }

    function Low(): int
      reads this
    {
      Limit(MIN_PULSE_WIDTH, min)
    }

    function High(): int
      reads this
    {
      Limit(MAX_PULSE_WIDTH, max)
    }

    /** The servo's ticks are those of the requested pulse. */
    ghost predicate Stores(lib: Servos, value: int)
      requires Valid(lib)
      reads this, lib
    {
      servoIndex < |lib.servos| && lib.servos[servoIndex].ticks == WrittenTicks(value, Low(), High())
    }

    /** attach. The first active servo of a timer restarts the count. */
    method Attach(lib: Servos, pin: nat, minimum: int, maximum: int) returns (index: nat)
      requires Valid(lib)
      modifies this`min, this`max, lib`servos, lib`tcnt
      ensures Valid(lib) && index == servoIndex && Limits(Low(), High())
      ensures if servoIndex < |lib.servos| then
                && min == Offset(MIN_PULSE_WIDTH, minimum) && max == Offset(MAX_PULSE_WIDTH, maximum)
                && lib.servos == old(lib.servos)[servoIndex := old(lib.servos[servoIndex]).(pin := pin % 64, active := true)]
              else
                unchanged(this) && unchanged(lib)
      ensures forall u | 0 <= u < |lib.tcnt| :: lib.tcnt[u] ==
                if servoIndex < |lib.servos| && u == servoIndex / SERVOS_PER_TIMER
                   && (forall c | 0 <= c < SERVOS_PER_TIMER :: !old(lib.servos[Index(servoIndex / SERVOS_PER_TIMER, c)].active))
                then 0 else old(lib.tcnt)[u]
    {
      index := servoIndex;
      if servoIndex < |lib.servos| {
        lib.servos := lib.servos[servoIndex := lib.servos[servoIndex].(pin := pin % 64)];
        min := Offset(MIN_PULSE_WIDTH, minimum);
        max := Offset(MAX_PULSE_WIDTH, maximum);
        var timer := servoIndex / SERVOS_PER_TIMER;
        var active := IsTimerActive(lib, timer);
        if !active {
          lib.tcnt := lib.tcnt[timer := 0];
        }
        lib.servos := lib.servos[servoIndex := lib.servos[servoIndex].(active := true)];
      }
      StoredLimits(min, max);
    }

    static method IsTimerActive(lib: Servos, timer: nat) returns (active: bool)
      requires lib.Valid() && timer < |lib.channel|
      ensures active <==> exists c | 0 <= c < SERVOS_PER_TIMER :: lib.servos[Index(timer, c)].active
    {
      active := false;
      for c := 0 to SERVOS_PER_TIMER
        invariant forall d | 0 <= d < c :: !lib.servos[Index(timer, d)].active
      {
        if lib.servos[Index(timer, c)].active {
          return true;
        }
      }
    }

    method WriteMicroseconds(lib: Servos, value: int)
      requires Valid(lib)
      modifies lib`servos
      ensures Valid(lib)
      ensures servoIndex < |lib.servos| ==> Stores(lib, value) && 68 <= lib.servos[servoIndex].ticks <= 5820
      ensures lib.servos == if servoIndex < |lib.servos| then
                old(lib.servos)[servoIndex := old(lib.servos[servoIndex]).(ticks := WrittenTicks(value, Low(), High()))]
              else old(lib.servos)
    {
      StoredLimits(min, max);
      PulseReadsBack(value, Low(), High());
      if servoIndex < |lib.servos| {
        var v := value;
        if v < Low() { v := Low(); } else if v > High() { v := High(); }
        v := v - TRIM_DURATION;
        v := v * 2;
        lib.servos := lib.servos[servoIndex := lib.servos[servoIndex].(ticks := v)];
      }
    }

    method Write(lib: Servos, value: int)
      requires Valid(lib)
      modifies lib`servos
      ensures Valid(lib)
      ensures servoIndex < |lib.servos| ==> Stores(lib, Requested(value, Low(), High()))
      ensures lib.servos == if servoIndex < |lib.servos| then
                old(lib.servos)[servoIndex := old(lib.servos[servoIndex]).(ticks := WrittenTicks(Requested(value, Low(), High()), Low(), High()))]
              else old(lib.servos)
    {
      var v := value;
      if v < MIN_PULSE_WIDTH {
        if v < 0 { v := 0; }
        if v > 180 { v := 180; }
        v := Map(v, 0, 180, Low(), High());
      }
      WriteMicroseconds(lib, v);
    }

    /** readMicroseconds: the pulse that was last requested, moved within the limits. */
    method ReadMicroseconds(lib: Servos) returns (pulse: int)
      requires Valid(lib)
      ensures servoIndex == INVALID_SERVO ==> pulse == 0
      ensures forall v | Stores(lib, v) :: pulse == Clamp(v, Low(), High())
    {
      if servoIndex != INVALID_SERVO {
        StoredLimits(min, max);
        var ticks := lib.servos[servoIndex].ticks;
        pulse := ticks * 8 % 65536 / 16 + TRIM_DURATION;
        forall v | Stores(lib, v)
          ensures pulse == Clamp(v, Low(), High())
        {
          PulseReadsBack(v, Low(), High());
        }
      } else {
        pulse := 0;
      }
    }

    /** read: the angle that was last written; or, for a pulse that was requested, the whole degrees in
        one microsecond more than it. */
    method Read(lib: Servos) returns (angle: int)
      requires Valid(lib)
      ensures forall a: nat | a <= 180 && Stores(lib, Requested(a, Low(), High())) :: angle == a
      ensures forall v | Stores(lib, v) ::
                angle * (High() - Low()) <= (Clamp(v, Low(), High()) + 1 - Low()) * 180 < (angle + 1) * (High() - Low())
    {
      var pulse := ReadMicroseconds(lib);
      angle := Map(pulse + 1, Low(), High(), 0, 180);
      StoredLimits(min, max);
      forall v | Stores(lib, v)
        ensures angle * (High() - Low()) <= (Clamp(v, Low(), High()) + 1 - Low()) * 180 < (angle + 1) * (High() - Low())
      {
        MapIsQuotient(Clamp(v, Low(), High()) + 1, Low(), High());
      }
      forall a: nat | a <= 180 && Stores(lib, Requested(a, Low(), High()))
        ensures angle == a
      {
        AngleReadsBack(a, Low(), High());
        PulseReadsBack(Requested(a, Low(), High()), Low(), High());
      }
    }
  }

  /** Limits that attach can store. */
  ghost predicate Limits(low: int, high: int) {
    36 <= low <= 1056 && 1892 <= high <= 2912
  }

  lemma StoredLimits(min: int, max: int)
    requires -128 <= min < 128 && -128 <= max < 128
    ensures Limits(Limit(MIN_PULSE_WIDTH, min), Limit(MAX_PULSE_WIDTH, max))
  {}

  /** attach keeps the limit it was asked for if and only if the difference from the default is a
      multiple of four that fits in a signed byte after division. */
  lemma AttachKeepsLimitIff(extreme: int, limit: int)
    ensures Limit(extreme, Offset(extreme, limit)) == limit <==> (extreme - limit) % 4 == 0 && -512 <= extreme - limit < 512
  {}

  /** Whatever pulse is requested, the ticks that the scheduler counts are in range, and what is read
      back is the request moved within the limits. */
  lemma PulseReadsBack(value: int, low: int, high: int)
    requires Limits(low, high)
    ensures 68 <= WrittenTicks(value, low, high) <= 5820
    ensures ReadPulse(WrittenTicks(value, low, high)) == Clamp(value, low, high)
    ensures low == MIN_PULSE_WIDTH && high == MAX_PULSE_WIDTH ==> 1084 <= WrittenTicks(value, low, high) <= 4796
  {}

  function AngleRead(angle: int, low: int, high: int): int
    requires Limits(low, high)
  {
    Map(ReadPulse(WrittenTicks(Requested(angle, low, high), low, high)) + 1, low, high, 0, 180)
  }

  lemma QuotientIs(x: nat, y: nat, q: nat)
    requires y > 0 && q * y <= x < (q + 1) * y
    ensures Quotient(x, y) == q
  {
    var d := x / y;
    if d < q {
      assert (d + 1) * y <= q * y;
    } else if d > q {
      assert (q + 1) * y <= d * y;
    }
  }

  /** The pulse for an angle is the largest whole number of microseconds not above the exact one, and
      one microsecond more is still below the next angle. */
  lemma PulseBetweenAngles(angle: nat, span: nat, pulse: nat)
    requires angle <= 180 < span && pulse == angle * span / 180
    ensures pulse <= span
    ensures angle * span < (pulse + 1) * 180 < (angle + 1) * span
  {
    assert angle * span <= 180 * span;
  }

  lemma MapIsQuotient(x: int, low: int, high: int)
    requires Limits(low, high) && low <= x
    ensures var angle := Map(x, low, high, 0, 180);
            angle * (high - low) <= (x - low) * 180 < (angle + 1) * (high - low)
  {
    var n, span := (x - low) * 180, high - low;
    assert n >= 0 && Quotient(n, span) == n / span;
    assert n == n / span * span + n % span;
  }

  /** Every angle that is written is read back as it was, though it goes through whole microseconds
      in between. */
  lemma AngleReadsBack(angle: nat, low: int, high: int)
    requires Limits(low, high) && angle <= 180
    ensures AngleRead(angle, low, high) == angle
  {
    hide Quotient, ReadPulse, WrittenTicks;
    var span := high - low;
    assert 0 <= angle * span;
    var pulse := angle * span / 180;
    PulseBetweenAngles(angle, span, pulse);
    QuotientIs(angle * span, 180, pulse);
    PulseReadsBack(pulse + low, low, high);
    QuotientIs((pulse + 1) * 180, span, angle);
  }

  /** What a request is moved to is the nearest pulse within the limits. */
  lemma ClampIsNearest(value: int, low: int, high: int, other: int)
    requires low <= high && low <= other <= high
    ensures low <= Clamp(value, low, high) <= high && Abs(value - Clamp(value, low, high)) <= Abs(value - other)
  {}

  /** Every value of 544 and more is a pulse. Below that it is an angle: none below 0 or above 180, and the
      pulse is the largest whole number of microseconds that is not above the exact one. */
  lemma RequestedIs(value: int, low: int, high: int)
    requires Limits(low, high)
    ensures 544 <= value ==> Requested(value, low, high) == value
    ensures value <= 0 ==> Requested(value, low, high) == low
    ensures 180 <= value < 544 ==> Requested(value, low, high) == high
    ensures 0 <= value <= 180 ==>
              var pulse := Requested(value, low, high) - low; 180 * pulse <= value * (high - low) < 180 * (pulse + 1)
  {
    if value < 544 {
      var span, angle := high - low, if value < 0 then 0 else if value > 180 then 180 else value;
      assert 0 <= angle * span;
      PulseBetweenAngles(angle, span, angle * span / 180);
      QuotientIs(angle * span, 180, angle * span / 180);
      hide Quotient;
    }
  }
}
