// What holds over whole runs of checkLease, against a clock that does not wrap.
module DhcpClock {
  import opened Int32
  import opened DhcpReply
  import opened DhcpLease

  /** A call of checkLease at a true time in milliseconds, and the attempts it would make. */
  datatype Visit = Visit(time: nat, renewal: Attempt, rebinding: Attempt)

  function Step(l: Lease, v: Visit): (Lease, int) {
    Check(l, Wrap(v.time), v.renewal, v.rebinding)
  }

  function Run(l: Lease, visits: seq<Visit>): Lease {
    if visits == [] then l else Step(Run(l, visits[..|visits| - 1]), visits[|visits| - 1]).0
  }

  function Before(start: nat, visits: seq<Visit>, i: nat): nat
    requires i <= |visits|
  {
    if i == 0 then start else visits[i - 1].time
  }

  /** No visit meets a zero clock, and none comes 2^31 ms or more after the one before. */
  ghost predicate Spaced(start: nat, visits: seq<Visit>) {
    forall i | 0 <= i < |visits| ::
      Wrap(visits[i].time) != 0 && Before(start, visits, i) <= visits[i].time < Before(start, visits, i) + HALF
  }

  /** The whole seconds since the base. */
  function Seconds(base: nat, time: nat): nat
    requires base <= time
  {
    (time - base) / 1000
  }

  /** The timeout is the first whole second after the time, and the last visit was at the time. */
  ghost predicate Synced(l: Lease, base: nat, time: nat) {
    && base <= time && l.lastCheck == Wrap(time) != 0
    && l.secTimeout == Wrap(base + 1000 * Seconds(base, time) + 1000)
  }

  /** A counter after a visit: untouched if no second has passed. */
  function Counted(counter: int, factor: nat): int {
    if factor == 0 then counter else CountDown(counter, factor)
  }

  lemma LateBy(base: nat, time: nat, now: nat)
    requires base <= time <= now
    ensures var late := now - (base + 1000 * Seconds(base, time) + 1000);
            && -1000 <= late < now - time
            && Seconds(base, now) - Seconds(base, time) == (if late < 0 then 0 else late / 1000 + 1)
            && (late >= 0 ==> now + 1000 - late % 1000 == base + 1000 * Seconds(base, now) + 1000)
  {
    var q, late := Seconds(base, time), now - (base + 1000 * Seconds(base, time) + 1000);
    if late >= 0 {
      assert now - base == 1000 * (q + 1 + late / 1000) + late % 1000;
    }
  }

  /** A tick moves the timeout on by whole seconds to the next one, and takes from each counter the
      seconds that have passed. */
  lemma TickSynced(l: Lease, base: nat, time: nat, now: nat)
    requires Synced(l, base, time) && time <= now < time + HALF && Wrap(now) != 0
    ensures var factor := Seconds(base, now) - Seconds(base, time);
            && factor >= 0 && Synced(Tick(l, Wrap(now)).(lastCheck := Wrap(now)), base, now)
            && Tick(l, Wrap(now)).renew == Counted(l.renew, factor)
            && Tick(l, Wrap(now)).rebind == Counted(l.rebind, factor)
  {
    hide Wrap, Signed, Seconds;
    var timeout := base + 1000 * Seconds(base, time) + 1000;
    LateBy(base, time, now);
    SignedDifference(now, timeout);
    if now >= timeout {
      WrapOfSum(now, 1000 - (now - timeout) % 1000);
    }
  }

  lemma FirstTick(l: Lease, now: nat)
    requires l.lastCheck == 0 && Wrap(now) != 0
    ensures Synced(Tick(l, Wrap(now)).(lastCheck := Wrap(now)), now, now)
  {
    hide Wrap, Signed;
    WrapOfSum(now, 1000);
  }

  /** The lease clock does not drift. Whatever requests the visits lead to and however they are
      answered, after every visit the timeout is the first moment after it that lies a whole number
      of seconds from the first visit. */
  lemma {:induction false} NoDrift(l: Lease, visits: seq<Visit>)
    requires l.lastCheck == 0 && visits != [] && Spaced(visits[0].time, visits)
    ensures Synced(Run(l, visits), visits[0].time, visits[|visits| - 1].time)
  {
    hide Wrap, Attempts, Tick;
    var k := |visits| - 1;
    var before := Run(l, visits[..k]);
    if k == 0 {
      FirstTick(l, visits[0].time);
    } else {
      NoDrift(l, visits[..k]);
      var from := visits[k - 1].time;
      assert from == Before(visits[0].time, visits, k);
      TickSynced(before, visits[0].time, from, visits[k].time);
      AttemptsKeepClock(Tick(before, Wrap(visits[k].time)), visits[k].renewal, visits[k].rebinding);
    }
  }

  lemma AttemptsKeepClock(l: Lease, renewal: Attempt, rebinding: Attempt)
    ensures Attempts(l, renewal, rebinding).0.secTimeout == l.secTimeout
  {
    hide Turns, TypeOf;
  }

  /** A visit when the clock reads zero makes the next visit start over: the time between them is taken
      from no counter, and the timeout falls on the old whole seconds again if and only if that visit
      does. */
  lemma ZeroClockRestarts(l: Lease, v: Visit, w: Visit)
    requires Wrap(v.time) == 0 && Wrap(w.time) != 0
    ensures var m := Step(l, v).0;
            && Step(m, w) == (m.(secTimeout := Wrap(w.time + 1000), lastCheck := Wrap(w.time)), CHECK_NONE)
    ensures forall base: nat | base <= w.time ::
              Synced(Step(Step(l, v).0, w).0, base, w.time) <==> (w.time - base) % 1000 == 0
  {
    hide Wrap, Signed, Attempts;
    WrapOfSum(w.time, 1000);
    forall base: nat | base <= w.time
      ensures Wrap(w.time + 1000) == Wrap(base + 1000 * Seconds(base, w.time) + 1000) <==> (w.time - base) % 1000 == 0
    {
      WrapDiffers(w.time + 1000, base + 1000 * Seconds(base, w.time) + 1000);
    }
  }

  lemma WrapDiffers(x: int, y: int)
    requires 0 <= x - y < MODULUS
    ensures Wrap(x) == Wrap(y) <==> x == y
  {}

  // ---- The first request

  /** The seconds that visit i takes from the counters. */
  function Factor(base: nat, start: nat, visits: seq<Visit>, i: nat): int
    requires base <= start && Spaced(start, visits) && i < |visits|
  {
    Late(base, start, visits);
    Seconds(base, visits[i].time) - Seconds(base, Before(start, visits, i))
  }

  lemma {:induction false} Late(base: nat, start: nat, visits: seq<Visit>)
    requires base <= start && Spaced(start, visits)
    ensures forall i | 0 <= i <= |visits| :: base <= Before(start, visits, i)
  {
    if visits != [] {
      var k := |visits| - 1;
      assert forall i | 0 <= i <= k :: Before(start, visits[..k], i) == Before(start, visits, i);
      Late(base, start, visits[..k]);
      assert Before(start, visits, k) <= visits[k].time;
    }
  }

  /** The visits are spread evenly enough: no cycle is longer than an earlier one, nor than the counter. */
  ghost predicate Steady(base: nat, start: nat, visits: seq<Visit>, counter: int)
    requires base <= start && Spaced(start, visits)
  {
    && (forall i | 0 <= i < |visits| :: Factor(base, start, visits, i) <= counter)
    && (forall i, j | 0 <= i < j < |visits| ::
         Factor(base, start, visits, i) > 0 ==> Factor(base, start, visits, j) <= Factor(base, start, visits, i))
  }

  /** The answer of visit i of a run. */
  function Answer(l: Lease, visits: seq<Visit>, i: nat): int
    requires i < |visits|
  {
    Step(Run(l, visits[..i]), visits[i]).1
  }

  /** A lease whose clock is running and whose counters have not run out. */
  ghost predicate Counting(l: Lease, base: nat, time: nat) {
    l.state.LEASED? && 0 < l.renew && 0 < l.rebind && Synced(l, base, time)
  }

  /** The seconds until the first counter runs out. */
  function Due(l: Lease): int {
    if l.renew <= l.rebind then l.renew else l.rebind
  }

  /** A visit to such a lease asks for something if and only if what is left is below this cycle; and if
      the first counter has not run out, it is a rebinding. */
  lemma VisitCounting(l: Lease, base: nat, time: nat, v: Visit)
    requires Counting(l, base, time) && time <= v.time < time + HALF && Wrap(v.time) != 0
    ensures var factor := Seconds(base, v.time) - Seconds(base, time);
            var (m, rc) := Step(l, v);
            && factor >= 0
            && (rc == CHECK_NONE <==> factor == 0 || factor <= Due(l) - factor)
            && (rc == CHECK_NONE ==> Counting(m, base, v.time) && m.renew == l.renew - factor && m.rebind == l.rebind - factor)
            && (rc != CHECK_NONE && factor <= l.renew - factor ==> rc == REBIND_FAIL || rc == REBIND_OK)
  {
    hide Wrap, Signed, Seconds, Request;
    TickSynced(l, base, time, v.time);
  }

  /** No cycle from visit k on is longer than the counter. */
  ghost predicate Fits(base: nat, start: nat, visits: seq<Visit>, k: nat, counter: int)
    requires base <= start && Spaced(start, visits)
  {
    forall j | k <= j < |visits| :: Factor(base, start, visits, j) <= counter
  }

  lemma SteadyFits(base: nat, start: nat, visits: seq<Visit>, counter: int)
    requires base <= start && Spaced(start, visits)
    ensures Steady(base, start, visits, counter) ==> Fits(base, start, visits, 0, counter)
  {
    hide Factor, Spaced;
  }

  /** A counter that a cycle does not run out is left with room for the later cycles. */
  lemma FitsNext(base: nat, start: nat, visits: seq<Visit>, k: nat, counter: int, all: int)
    requires base <= start && Spaced(start, visits) && k < |visits|
    requires Steady(base, start, visits, all) && Fits(base, start, visits, k, counter)
    requires var factor := Factor(base, start, visits, k); factor == 0 || (factor > 0 && factor <= counter - factor)
    ensures Fits(base, start, visits, k + 1, counter - Factor(base, start, visits, k))
  {
    hide Factor, Seconds, Wrap;
  }

  /** While nothing is asked for, the counters are the true numbers of seconds left. */
  lemma {:induction false} QuietRun(l: Lease, base: nat, start: nat, visits: seq<Visit>, k: nat)
    requires base <= start && Counting(l, base, start) && Spaced(start, visits) && k <= |visits|
    requires forall j | 0 <= j < k :: Answer(l, visits, j) == CHECK_NONE
    ensures base <= Before(start, visits, k) && Counting(Run(l, visits[..k]), base, Before(start, visits, k))
    ensures var passed := Seconds(base, Before(start, visits, k)) - Seconds(base, start);
            Run(l, visits[..k]).renew == l.renew - passed && Run(l, visits[..k]).rebind == l.rebind - passed
    ensures Steady(base, start, visits, Due(l)) ==> Fits(base, start, visits, k, Due(Run(l, visits[..k])))
  {
    hide Wrap, Seconds, Factor, Check, Step, Counting, Fits, Steady, Spaced, Run, Answer;
    Late(base, start, visits);
    if k == 0 {
      RunNothing(l, visits);
      SteadyFits(base, start, visits, Due(l));
    } else {
      QuietRun(l, base, start, visits, k - 1);
      QuietStep(l, base, start, visits, k - 1);
      if Steady(base, start, visits, Due(l)) {
        FitsNext(base, start, visits, k - 1, Due(Run(l, visits[..k - 1])), Due(l));
      }
    }
  }

  lemma RunNothing(l: Lease, visits: seq<Visit>)
    ensures Run(l, visits[..0]) == l
  {
    assert visits[..0] == [];
  }

  lemma QuietStep(l: Lease, base: nat, start: nat, visits: seq<Visit>, i: nat)
    requires base <= start && Spaced(start, visits) && i < |visits| && base <= Before(start, visits, i)
    requires Counting(Run(l, visits[..i]), base, Before(start, visits, i)) && Answer(l, visits, i) == CHECK_NONE
    ensures Counting(Run(l, visits[..i + 1]), base, visits[i].time)
    ensures var m, factor := Run(l, visits[..i]), Factor(base, start, visits, i);
            && (factor == 0 || (factor > 0 && factor <= Due(m) - factor))
            && Run(l, visits[..i + 1]).renew == m.renew - factor && Run(l, visits[..i + 1]).rebind == m.rebind - factor
            && factor == Seconds(base, visits[i].time) - Seconds(base, Before(start, visits, i))
  {
    hide Wrap, Seconds, Check, Counting;
    assert visits[..i + 1][..i] == visits[..i];
    VisitCounting(Run(l, visits[..i]), base, Before(start, visits, i), visits[i]);
  }

  /** The first visit to ask for anything is the first that leaves fewer true seconds than its own
      cycle; and if the cycles are steady, the lease still has those seconds: it is early, by less
      than a cycle, and never late. */
  lemma RenewsOnTime(l: Lease, base: nat, start: nat, visits: seq<Visit>, k: nat)
    requires Counting(l, base, start) && Spaced(start, visits) && k < |visits|
    requires forall j | 0 <= j < k :: Answer(l, visits, j) == CHECK_NONE
    ensures base <= visits[k].time
    ensures var left := Due(l) - (Seconds(base, visits[k].time) - Seconds(base, start));
            && (Answer(l, visits, k) != CHECK_NONE <==> left < Factor(base, start, visits, k))
            && (Answer(l, visits, k) != CHECK_NONE && Steady(base, start, visits, Due(l)) ==> left >= 0)
  {
    hide Wrap, Seconds, Check;
    Late(base, start, visits);
    QuietRun(l, base, start, visits, k);
    VisitCounting(Run(l, visits[..k]), base, Before(start, visits, k), visits[k]);
  }

  // ---- Where the counters start

  /** A first lease whose replies carried no timers is renewed at half its time. Its rebinding time is
      the whole of it, not seven eighths, and is lost, so that every visit asks again, if and only if
      the lease is below two seconds or at least 2^31: the time of an infinite lease is 2^32 - 1. */
  lemma DefaultTimes(l: Lease)
    requires l.t1 == 0 && l.t2 == 0 && l.leaseTime != 0
    ensures var m := Granted(l);
            && m.renew == l.leaseTime / 2
            && (m.rebind <= 0 <==> l.leaseTime < 2 || HALF <= l.leaseTime)
            && (m.rebind > 0 ==> m.rebind == l.leaseTime - l.leaseTime % 2)
  {
    hide Signed, Wrap;
    var t2 := l.leaseTime - l.leaseTime % 2;
    assert l.leaseTime / 2 * 2 == t2;
    WrapSmall(t2);
    SignedBelow(l.leaseTime / 2);
    SignedBelow(t2);
  }

  lemma WrapSmall(x: uint32)
    ensures Wrap(x) == x
  {}

  lemma SignedBelow(x: uint32)
    ensures Signed(x) == if x < HALF then x else x - MODULUS
  {}

  lemma AsksAtOnce(l: Lease, v: Visit)
    requires l.state.LEASED? && (l.renew <= 0 || l.rebind <= 0) && l.lastCheck != 0
    ensures Step(l, v).1 != CHECK_NONE
  {
    hide Wrap, Signed, Turns, TypeOf;
    var t := Tick(l, Wrap(v.time));
    assert t.state.LEASED? && (t.renew <= 0 || t.rebind <= 0);
  }

  // ---- Where an attempt can leave the client

  /** The states in which checkLease does nothing. */
  predicate Stuck(s: State) {
    s.DISCOVER? || s.REQUEST? || s.REREQUEST?
  }

  /** From such a state no later visit ever asks for a lease again. */
  lemma {:induction false} StuckForever(l: Lease, visits: seq<Visit>)
    requires Stuck(l.state)
    ensures Run(l, visits).state == l.state
    ensures forall i | 0 <= i < |visits| :: Answer(l, visits, i) == CHECK_NONE
  {
    hide Tick, Request, Wrap;
    if visits != [] {
      var k := |visits| - 1;
      StuckForever(l, visits[..k]);
      TickKeepsState(Run(l, visits[..k]), Wrap(visits[k].time));
      forall i | 0 <= i < k
        ensures Answer(l, visits, i) == CHECK_NONE
      {
        assert Answer(l, visits[..k], i) == CHECK_NONE;
        assert visits[..k][..i] == visits[..i];
      }
    }
  }

  lemma TickKeepsState(l: Lease, now: uint32)
    ensures Tick(l, now).state == l.state
  {
    hide Wrap, Signed;
  }

  /** A renewal that finds no free socket fails, and is the last thing the client ever asks for. */
  lemma NoSocketStops(l: Lease, v: Visit, later: seq<Visit>)
    requires l.state.LEASED? && l.lastCheck != 0 && Tick(l, Wrap(v.time)).renew <= 0 && !v.renewal.socket
    ensures Step(l, v).1 == RENEW_FAIL
    ensures forall i | 0 <= i < |later| :: Answer(Step(l, v).0, later, i) == CHECK_NONE
  {
    hide Tick, Wrap, Turns;
    TickKeepsState(l, Wrap(v.time));
    StuckForever(Step(l, v).0, later);
  }

  lemma {:induction false} TurnsAppend(l: Lease, replies: seq<Reply>, r: Reply)
    requires !Turns(l, replies).state.LEASED?
    ensures Turns(l, replies + [r]) == Turn(Turns(l, replies), r)
    decreases |replies|
  {
    hide Turn;
    if replies == [] {
      assert ([r] + [])[1..] == [] && replies + [r] == [r];
    } else {
      assert (replies + [r])[1..] == replies[1..] + [r];
      if !l.state.LEASED? {
        TurnsAppend(Turn(l, replies[0]), replies[1..], r);
      }
    }
  }

  /** What one turn makes of a client without a lease: it can go on, or is stuck. */
  lemma GaveUpIff(l: Lease, replies: seq<Reply>, r: Reply)
    requires !Turns(l, replies + [r]).state.LEASED? && !Turns(l, replies).state.LEASED?
    ensures GaveUp(Turns(l, replies), r) <==> Turns(l, replies + [r]).state.START?
    ensures !GaveUp(Turns(l, replies), r) <==> Stuck(Turns(l, replies + [r]).state)
  {
    hide Turns, Parse, Wrap, Signed;
    TurnsAppend(l, replies, r);
    ParseKeeps(Turns(l, replies), r);
  }

  /** The turn waited for a reply and gave up, or was refused. */
  predicate GaveUp(l: Lease, r: Reply) {
    (l.state.DISCOVER? && TypeOf(l, r) == TIMEOUT) || (l.state.REQUEST? && TypeOf(l, r) in {NAK, TIMEOUT})
  }

  /** A visit to a client without a lease asks for one if and only if its rebinding counter runs out. */
  lemma VisitStart(l: Lease, base: nat, time: nat, v: Visit)
    requires l.state.START? && Synced(l, base, time) && time <= v.time < time + HALF && Wrap(v.time) != 0
    ensures var factor := Seconds(base, v.time) - Seconds(base, time);
            var (m, rc) := Step(l, v);
            && factor >= 0
            && (rc == CHECK_NONE <==> Counted(l.rebind, factor) > 0)
            && (rc == CHECK_NONE ==> m.state.START? && Synced(m, base, v.time) && m.rebind == l.rebind - factor > 0)
  {
    hide Wrap, Signed, Seconds, Request;
    TickSynced(l, base, time, v.time);
  }

  lemma StartStep(l: Lease, base: nat, start: nat, visits: seq<Visit>, i: nat)
    requires base <= start && Spaced(start, visits) && i < |visits| && base <= Before(start, visits, i)
    requires Run(l, visits[..i]).state.START? && Synced(Run(l, visits[..i]), base, Before(start, visits, i))
    requires Answer(l, visits, i) == CHECK_NONE
    ensures base <= visits[i].time
    ensures var m := Run(l, visits[..i + 1]);
            && m.state.START? && Synced(m, base, visits[i].time) && m.rebind > 0
            && m.rebind == Run(l, visits[..i]).rebind - (Seconds(base, visits[i].time) - Seconds(base, Before(start, visits, i)))
  {
    hide Wrap, Seconds, Check;
    assert visits[..i + 1][..i] == visits[..i];
    VisitStart(Run(l, visits[..i]), base, Before(start, visits, i), visits[i]);
  }

  lemma {:induction false} QuietStart(l: Lease, base: nat, start: nat, visits: seq<Visit>, k: nat)
    requires base <= start && l.state.START? && Synced(l, base, start) && Spaced(start, visits) && k <= |visits|
    requires forall j | 0 <= j < k :: Answer(l, visits, j) == CHECK_NONE
    ensures base <= Before(start, visits, k)
    ensures var m := Run(l, visits[..k]);
            && m.state.START? && Synced(m, base, Before(start, visits, k)) && (k > 0 ==> m.rebind > 0)
            && m.rebind == l.rebind - (Seconds(base, Before(start, visits, k)) - Seconds(base, start))
  {
    hide Wrap, Seconds, Step, Spaced, Run, Answer, Synced;
    Late(base, start, visits);
    if k == 0 {
      RunNothing(l, visits);
    } else {
      QuietStart(l, base, start, visits, k - 1);
      StartStep(l, base, start, visits, k - 1);
    }
  }

  /** The visits reach the moment when the rebinding counter has run out. */
  ghost predicate LongEnough(l: Lease, base: nat, start: nat, visits: seq<Visit>) {
    && visits != [] && base <= start && base <= visits[|visits| - 1].time
    && Seconds(base, visits[|visits| - 1].time) - Seconds(base, start) >= l.rebind
  }

  /** A client in START asks for a lease, at the latest when its rebinding counter has run out. */
  lemma StartAsksAgain(l: Lease, base: nat, start: nat, visits: seq<Visit>)
    requires l.state.START? && Synced(l, base, start) && Spaced(start, visits) && LongEnough(l, base, start, visits)
    ensures exists i | 0 <= i < |visits| :: Answer(l, visits, i) != CHECK_NONE
  {
    var k := |visits|;
    if forall j | 0 <= j < k :: Answer(l, visits, j) == CHECK_NONE {
      QuietStart(l, base, start, visits, k);
      assert false;
    }
  }

  /** When the counter has run out already, it is the next visit that asks. */
  lemma StartAsksAtOnce(l: Lease, v: Visit)
    requires l.state.START? && l.rebind <= 0 && l.lastCheck != 0
    ensures Step(l, v).1 != CHECK_NONE
  {
    hide Wrap, Signed, Turns, TypeOf;
    var t := Tick(l, Wrap(v.time));
    assert t.state.START? && t.rebind <= 0;
  }

  /** After an attempt that has run out of time, in a check at start, visits that go on for long enough
      ask again if and only if the last turn of the attempt gave up or was refused. Otherwise none of
      them does, for however long. */
  lemma AsksAgainIff(l: Lease, replies: seq<Reply>, r: Reply, m: Lease, base: nat, start: nat, visits: seq<Visit>)
    requires !Turns(l, replies + [r]).state.LEASED? && !Turns(l, replies).state.LEASED?
    requires m.state == Turns(l, replies + [r]).state && Synced(m, base, start) && Spaced(start, visits)
    ensures LongEnough(m, base, start, visits) ==>
              ((exists i | 0 <= i < |visits| :: Answer(m, visits, i) != CHECK_NONE) <==> GaveUp(Turns(l, replies), r))
    ensures !GaveUp(Turns(l, replies), r) ==> forall i | 0 <= i < |visits| :: Answer(m, visits, i) == CHECK_NONE
  {
    hide Turns, Answer, Wrap, Spaced, Synced, LongEnough, GaveUp;
    GaveUpIff(l, replies, r);
    if GaveUp(Turns(l, replies), r) {
      if LongEnough(m, base, start, visits) {
        StartAsksAgain(m, base, start, visits);
      }
    } else {
      StuckForever(m, visits);
    }
  }
}
