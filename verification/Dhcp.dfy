// 32-bit arithmetic of the lease clock: millis() wraps, and the code subtracts wrapped values.
module Int32 {

  const MODULUS: int := 0x1_0000_0000
  const HALF: int := 0x8000_0000

  type uint32 = x: int | 0 <= x < MODULUS
  type int32 = x: int | -HALF <= x < HALF

  function Wrap(x: int): uint32 {
    x % MODULUS
  }

  /** The conversion to signed long, and the result of signed arithmetic. */
  function Signed(x: int): int32 {
    if x % MODULUS < HALF then x % MODULUS else x % MODULUS - MODULUS
  }

  lemma Congruent(x: int, y: int, k: int)
    requires y == x + MODULUS * k
    ensures Wrap(x) == Wrap(y) && Signed(x) == Signed(y)
  {
    var p, q := x / MODULUS, y / MODULUS;
    assert Wrap(y) - Wrap(x) == MODULUS * (p + k - q);
  }

  lemma SignedIsCongruent(x: int) returns (k: int)
    ensures x == Signed(x) + MODULUS * k
  {
    k := x / MODULUS + if x % MODULUS < HALF then 0 else 1;
  }

  lemma SmallIsSigned(x: int32)
    ensures Signed(x) == x
  {}

  /** The signed difference of two wrapped clock values is the true difference, if that fits. */
  lemma SignedDifference(t: int, s: int)
    requires -HALF <= t - s < HALF
    ensures Signed(Signed(Wrap(t)) - Signed(Wrap(s))) == t - s
  {
    hide Signed, Wrap;
    var p := WrapIsCongruent(t);
    var q := WrapIsCongruent(s);
    var i := SignedIsCongruent(Wrap(t));
    var j := SignedIsCongruent(Wrap(s));
    Congruent(Signed(Wrap(t)) - Signed(Wrap(s)), t - s, i - j + p - q);
    SmallIsSigned(t - s);
  }

  lemma WrapIsCongruent(x: int) returns (k: int)
    ensures x == Wrap(x) + MODULUS * k
  {
    k := x / MODULUS;
  }

  lemma WrapOfSum(t: int, n: int)
    ensures Wrap(Signed(Wrap(t)) + n) == Wrap(t + n)
  {
    hide Signed, Wrap;
    var p := WrapIsCongruent(t);
    var i := SignedIsCongruent(Wrap(t));
    Congruent(Signed(Wrap(t)) + n, t + n, i + p);
  }
}

// The lease client of Dhcp.cpp: what an attempt at a lease does to the state and the counters, and
// the clock that checkLease keeps.
module DhcpLease {
  import opened Int32
  import opened DhcpReply

  const DEFAULT_LEASE: nat := 900

  const CHECK_NONE: int := 0
  const RENEW_FAIL: int := 1
  const RENEW_OK: int := 2
  const REBIND_FAIL: int := 3
  const REBIND_OK: int := 4

  /** A call of request_DHCP_lease: whether a socket was free, the random first transaction identifier, and
      the replies of the turns of its loop; after the last of them the time is up. */
  datatype Attempt = Attempt(socket: bool, seed: uint32, turns: seq<Reply>)

  // ---- An attempt at a lease

  function TypeOf(l: Lease, r: Reply): byte {
    Parse(l, r).1
  }

  /** The counters are set from the options, or from defaults for those that never came. */
  function Granted(l: Lease): Lease {
    var lease := if l.leaseTime == 0 then DEFAULT_LEASE else l.leaseTime;
    var t1 := if l.t1 == 0 then lease / 2 else l.t1;
    var t2 := if l.t2 == 0 then Wrap(t1 * 2) else l.t2;
    l.(state := LEASED, leaseTime := lease, t1 := t1, t2 := t2, renew := Signed(t1), rebind := Signed(t2))
  }

  /** One turn of the loop: every message that is sent has a transaction identifier of its own, but for the
      request that answers an offer. */
  function Turn(l: Lease, r: Reply): Lease
    requires !l.state.LEASED?
  {
    match l.state
    case START => l.(state := DISCOVER, xid := Wrap(l.xid + 1))
    case REREQUEST => l.(state := REQUEST, xid := Wrap(l.xid + 1))
    case DISCOVER =>
      var (m, kind, id) := Parse(l, r);
      if kind == OFFER then m.(state := REQUEST, xid := id)
      else if kind == TIMEOUT then m.(state := START) else m
    case REQUEST =>
      var (m, kind, _) := Parse(l, r);
      if kind == ACK then Granted(m)
      else if kind == NAK || kind == TIMEOUT then m.(state := START) else m
  }

  lemma TurnKeepsClock(l: Lease, r: Reply)
    requires !l.state.LEASED?
    ensures Turn(l, r).lastCheck == l.lastCheck && Turn(l, r).secTimeout == l.secTimeout
  {
    ParseKeeps(l, r);
    hide Parse, Granted;
    GrantedKeepsClock(Parse(l, r).0);
  }

  lemma GrantedKeepsClock(l: Lease)
    ensures Granted(l).lastCheck == l.lastCheck && Granted(l).secTimeout == l.secTimeout
  {}

  function Turns(l: Lease, replies: seq<Reply>): (m: Lease)
    ensures m.lastCheck == l.lastCheck && m.secTimeout == l.secTimeout
    decreases |replies|
  {
    if l.state.LEASED? || replies == [] then l
    else
      TurnKeepsClock(l, replies[0]);
      Turns(Turn(l, replies[0]), replies[1..])
  }

  /** request_DHCP_lease. */
  function Request(l: Lease, a: Attempt): (m: Lease)
    ensures m.lastCheck == l.lastCheck && m.secTimeout == l.secTimeout
  {
    var n := l.(first := a.seed, xid := a.seed);
    if a.socket then
      var m := Turns(n, a.turns);
      m.(xid := Wrap(m.xid + 1))
    else n
  }

  function Success(l: Lease): int {
    if l.state.LEASED? then 1 else 0
  }

  function Or(time: uint32, other: uint32): uint32 {
    if time == 0 then other else time
  }

  /** The identifier of the transaction that a message belongs to. */
  function IdOf(w: Message): uint32
    requires |w.head| == OPTIONS
  {
    BigEndian(w.head[4..8])
  }

  /** The addresses after an acknowledgement or an offer: those it names, or those known before. */
  ghost function Addresses(c: Config, w: Message, server: ip): Config
    requires |w.head| == OPTIONS && AllStandard(w.fields)
  {
    Config(w.head[16..20], AddressAfter(w.fields, SUBNET_MASK, c.mask), AddressAfter(w.fields, ROUTERS, c.gateway),
           server, AddressAfter(w.fields, DNS, c.dns))
  }

  /** m has the addresses of the acknowledgement, and the counters that its times, those that l knows from
      the replies before it, or the defaults give. */
  ghost predicate Grants(l: Lease, w: Message, m: Lease)
    requires |w.head| == OPTIONS && AllStandard(w.fields)
  {
    m == Lease(LEASED, l.mac, m.first, m.xid, Addresses(l.config, w, m.config.server),
               Or(TimeAfter(w.fields, LEASE_TIME, l.leaseTime), DEFAULT_LEASE),
               Or(TimeAfter(w.fields, T1_VALUE, l.t1), m.leaseTime / 2),
               Or(TimeAfter(w.fields, T2_VALUE, l.t2), Wrap(m.t1 * 2)),
               Signed(m.t1), Signed(m.t2), m.lastCheck, m.secTimeout)
  }

  /** What a client knows after a reply that keeps to the standard and is for it. */
  lemma ReplyKnown(l: Lease, r: Reply, w: Message)
    requires Bears(r, w) && ForClient(l, r.port, w.head)
    ensures var (m, kind, id) := Parse(l, r);
            && kind == KindOf(w.fields) && id == IdOf(w) && Kept(l, m) && m.config == Addresses(l.config, w, m.config.server)
            && m.leaseTime == TimeAfter(w.fields, LEASE_TIME, l.leaseTime)
            && m.t1 == TimeAfter(w.fields, T1_VALUE, l.t1) && m.t2 == TimeAfter(w.fields, T2_VALUE, l.t2)
  {
    ReplyRead(l, r, w);
    var n := l.(config := l.config.(local := w.head[16..20]));
    LastTimesCount(n, r.from, w.fields);
    LastAddressesCount(n, r.from, w.fields);
    hide Parse, ToldAll, KindOf, EncodedAll, TimeAfter, AddressAfter, Signed, ForClient, Padding, AllStandard, BigEndian;
  }

  /** An acknowledgement grants the lease. */
  lemma AckGrants(l: Lease, r: Reply, w: Message)
    requires l.state.REQUEST? && Bears(r, w) && ForClient(l, r.port, w.head) && KindOf(w.fields) == ACK
    ensures Grants(l, w, Turn(l, r)) && Kept(l, Turn(l, r).(state := l.state, rebind := l.rebind))
  {
    ReplyKnown(l, r, w);
    hide Parse, KindOf, TimeAfter, AddressAfter, Signed, Wrap, ForClient, Bears, AllStandard;
  }

  /** A refusal makes the client start over. */
  lemma NakRestarts(l: Lease, r: Reply, w: Message)
    requires l.state.REQUEST? && Bears(r, w) && ForClient(l, r.port, w.head) && KindOf(w.fields) == NAK
    ensures Turn(l, r).state.START? && Kept(l, Turn(l, r).(state := l.state))
  {
    ReplyKnown(l, r, w);
    hide Parse, KindOf, TimeAfter, AddressAfter, ForClient, Bears, AllStandard;
  }

  /** An offer is taken up: the client asks for what it offers, in its transaction. */
  lemma OfferIsTakenUp(l: Lease, r: Reply, w: Message)
    requires l.state.DISCOVER? && Bears(r, w) && ForClient(l, r.port, w.head) && KindOf(w.fields) == OFFER
    ensures var m := Turn(l, r);
            && m.state.REQUEST? && m.xid == IdOf(w) && m.config == Addresses(l.config, w, m.config.server)
            && m.leaseTime == TimeAfter(w.fields, LEASE_TIME, l.leaseTime)
            && m.t1 == TimeAfter(w.fields, T1_VALUE, l.t1) && m.t2 == TimeAfter(w.fields, T2_VALUE, l.t2)
            && Kept(l, m.(state := l.state, xid := l.xid))
  {
    ReplyKnown(l, r, w);
    hide Parse, KindOf, TimeAfter, AddressAfter, ForClient, Bears, AllStandard;
  }

  /** A message that is sent: the first of a new transaction, in both states that send one. */
  lemma Sends(l: Lease, r: Reply)
    requires (l.state.START? || l.state.REREQUEST?) && l.xid + 1 < MODULUS
    ensures Turn(l, r) == l.(xid := l.xid + 1, state := if l.state.START? then DISCOVER else REQUEST)
  {}

  /** While the client waits, a reply that is not for it changes nothing, and no reply makes it start over. */
  lemma WaitsOn(l: Lease, r: Reply, w: Message)
    requires l.state.DISCOVER? || l.state.REQUEST?
    ensures Turn(l, NoReply) == l.(state := START)
    ensures Bears(r, w) && !ForClient(l, r.port, w.head) ==> Turn(l, r) == l
  {
    if Bears(r, w) {
      ReplyRead(l, r, w);
    }
    hide Parse, Bears, ForClient, ToldAll, KindOf;
    assert Parse(l, NoReply) == (l, TIMEOUT, 0) by { SilenceParsed(l); }
  }

  lemma SilenceParsed(l: Lease)
    ensures Parse(l, NoReply) == (l, TIMEOUT, 0)
  {}

  /** An offer and an acknowledgement for this client. */
  ghost predicate Handshake(l: Lease, offer: Reply, o: Message, ack: Reply, k: Message) {
    && Bears(offer, o) && KindOf(o.fields) == OFFER && ForClient(l, offer.port, o.head)
    && Bears(ack, k) && KindOf(k.fields) == ACK && ForClient(l.(xid := IdOf(o)), ack.port, k.head)
  }

  /** What the client knows of times and addresses after an offer. */
  ghost function Offered(l: Lease, o: Message): Lease
    requires |o.head| == OPTIONS && AllStandard(o.fields)
  {
    l.(config := Addresses(l.config, o, l.config.server),
       leaseTime := TimeAfter(o.fields, LEASE_TIME, l.leaseTime),
       t1 := TimeAfter(o.fields, T1_VALUE, l.t1), t2 := TimeAfter(o.fields, T2_VALUE, l.t2))
  }

  lemma TwoTurns(l: Lease, a: Reply, b: Reply, more: seq<Reply>)
    requires !l.state.LEASED? && !Turn(l, a).state.LEASED? && Turn(Turn(l, a), b).state.LEASED?
    ensures Turns(l, [a, b] + more) == Turn(Turn(l, a), b)
  {
    hide Turn;
    assert ([a, b] + more)[1..] == [b] + more;
    assert Turns(Turn(l, a), [b] + more) == Turns(Turn(Turn(l, a), b), ([b] + more)[1..]);
  }

  lemma ThreeTurns(l: Lease, a: Reply, b: Reply, c: Reply, more: seq<Reply>)
    requires !l.state.LEASED? && !Turn(l, a).state.LEASED? && !Turn(Turn(l, a), b).state.LEASED?
    requires Turn(Turn(Turn(l, a), b), c).state.LEASED?
    ensures Turns(l, [a, b, c] + more) == Turn(Turn(Turn(l, a), b), c)
  {
    hide Turn;
    assert ([a, b, c] + more)[1..] == [b, c] + more;
    TwoTurns(Turn(l, a), b, c, more);
  }

  /** The handshake: from START a first turn asks, the offer is taken up, and its acknowledgement grants the
      lease. What would have come later is not waited for. */
  lemma HandshakeGrants(l: Lease, first: Reply, offer: Reply, o: Message, ack: Reply, k: Message, more: seq<Reply>)
    requires l.state.START? && l.xid + 1 < MODULUS && Handshake(l.(xid := l.xid + 1), offer, o, ack, k)
    ensures var m := Turns(l, [first, offer, ack] + more);
            Grants(Offered(l, o), k, m) && m.first == l.first && m.xid == IdOf(o) && m.mac == l.mac
  {
    hide Turn, Turns, TimeAfter, AddressAfter, KindOf, Signed, Wrap, ForClient, EncodedAll, Padding, AllStandard, BigEndian;
    Sends(l, first);
    var a := Turn(l, first);
    SameClient(a, l.(xid := l.xid + 1), offer.port, o.head);
    OfferIsTakenUp(a, offer, o);
    var b := Turn(a, offer);
    SameClient(b, l.(xid := IdOf(o)), ack.port, k.head);
    AckGrants(b, ack, k);
    ThreeTurns(l, first, offer, ack, more);
  }

  lemma SameClient(l: Lease, m: Lease, from: port, head: seq<byte>)
    requires |head| == OPTIONS && l.mac == m.mac && l.first == m.first && l.xid == m.xid
    ensures ForClient(l, from, head) == ForClient(m, from, head)
  {}

  /** A renewal needs an acknowledgement only. */
  lemma RenewalGrants(l: Lease, first: Reply, ack: Reply, k: Message, more: seq<Reply>)
    requires l.state.REREQUEST? && l.xid + 1 < MODULUS
    requires Bears(ack, k) && KindOf(k.fields) == ACK && ForClient(l.(xid := l.xid + 1), ack.port, k.head)
    ensures var m := Turns(l, [first, ack] + more);
            Grants(l, k, m) && m.first == l.first && m.xid == l.xid + 1 && m.mac == l.mac
  {
    Sends(l, first);
    var a := Turn(l, first);
    hide Turn, TimeAfter, AddressAfter, Bears, KindOf;
    SameClient(a, l.(xid := l.xid + 1), ack.port, k.head);
    AckGrants(a, ack, k);
    TwoTurns(l, first, ack, more);
  }

  /** So an attempt from START with a socket, in which an offer and its acknowledgement come, succeeds. */
  lemma AttemptSucceeds(l: Lease, a: Attempt, offer: Reply, o: Message, ack: Reply, k: Message)
    requires l.state.START? && a.socket && 3 <= |a.turns| && a.turns[1..3] == [offer, ack] && a.seed + 1 < MODULUS
    requires Handshake(l.(first := a.seed, xid := a.seed + 1), offer, o, ack, k)
    ensures Grants(Offered(l, o), k, Request(l, a)) && Success(Request(l, a)) == 1
    ensures Request(l, a).first == a.seed && Request(l, a).xid == Wrap(IdOf(o) + 1)
  {
    var n := l.(first := a.seed, xid := a.seed);
    assert a.turns == [a.turns[0], offer, ack] + a.turns[3..];
    hide Turns, Turn, Handshake, TimeAfter, AddressAfter, KindOf, Signed, Wrap;
    HandshakeGrants(n, a.turns[0], offer, o, ack, k, a.turns[3..]);
  }

  /** And one from REREQUEST in which an acknowledgement comes. */
  lemma RenewalSucceeds(l: Lease, a: Attempt, ack: Reply, k: Message)
    requires l.state.REREQUEST? && a.socket && 2 <= |a.turns| && a.turns[1] == ack && a.seed + 1 < MODULUS
    requires Bears(ack, k) && KindOf(k.fields) == ACK && ForClient(l.(first := a.seed, xid := a.seed + 1), ack.port, k.head)
    ensures Grants(l, k, Request(l, a)) && Success(Request(l, a)) == 1
  {
    var n := l.(first := a.seed, xid := a.seed);
    assert a.turns == [a.turns[0], ack] + a.turns[2..];
    hide Turns, Turn, Bears, ForClient, TimeAfter, AddressAfter, KindOf, Signed, Wrap;
    RenewalGrants(n, a.turns[0], ack, k, a.turns[2..]);
  }

  /** Without a socket an attempt changes nothing but the identifiers, and fails. */
  lemma NoSocketFails(l: Lease, a: Attempt)
    requires !l.state.LEASED? && !a.socket
    ensures Request(l, a) == l.(first := a.seed, xid := a.seed) && Success(Request(l, a)) == 0
  {}

  lemma TurnKeepsIds(l: Lease, r: Reply)
    requires !l.state.LEASED? && l.first <= l.xid && l.xid + 1 < MODULUS
    ensures Turn(l, r).first == l.first <= Turn(l, r).xid <= l.xid + 1
  {
    TypedIsMine(l, r);
    ParseKeeps(l, r);
    hide Parse, Signed;
  }

  /** Whatever the replies, the transaction identifiers that are answered are those of this attempt. */
  lemma {:induction false} IdsInRange(l: Lease, replies: seq<Reply>)
    requires l.first <= l.xid && l.xid + |replies| < MODULUS
    ensures Turns(l, replies).first == l.first <= Turns(l, replies).xid <= l.xid + |replies|
    decreases |replies|
  {
    hide Turn;
    if !l.state.LEASED? && replies != [] {
      TurnKeepsIds(l, replies[0]);
      IdsInRange(Turn(l, replies[0]), replies[1..]);
    }
  }

  // ---- The clock

  /** A counter after a tick of so many seconds: zero at once if less than two such ticks remain. */
  function CountDown(counter: int, factor: int): int {
    if counter < factor * 2 then 0 else counter - factor
  }

  /** What checkLease does to the clock and the counters before it looks at them. */
  function Tick(l: Lease, now: uint32): Lease {
    if l.lastCheck == 0 then l.(secTimeout := Wrap(Signed(now) + 1000))
    else
      var late := Signed(Signed(now) - Signed(l.secTimeout));
      if late < 0 then l
      else
        var factor := late / 1000 + 1;
        l.(secTimeout := Wrap(Signed(now) + 1000 - late % 1000),
           renew := CountDown(l.renew, factor), rebind := CountDown(l.rebind, factor))
  }

  /** The renewal of a lease whose first counter has run out. */
  function Renewed(l: Lease, a: Attempt): (Lease, int) {
    if l.state.LEASED? && l.renew <= 0 then
      var m := Request(l.(state := REREQUEST), a);
      (m, RENEW_FAIL + Success(m))
    else (l, CHECK_NONE)
  }

  /** The attempts that the counters call for. */
  function Attempts(l: Lease, renewal: Attempt, rebinding: Attempt): (Lease, int) {
    var (m, rc) := Renewed(l, renewal);
    if (m.state.LEASED? || m.state.START?) && m.rebind <= 0 then
      var n := Request(m.(state := START, config := CLEARED), rebinding);
      (n, REBIND_FAIL + Success(n))
    else (m, rc)
  }

  /** checkLease. */
  function Check(l: Lease, now: uint32, renewal: Attempt, rebinding: Attempt): (Lease, int) {
    var (m, rc) := if l.lastCheck == 0 then (Tick(l, now), CHECK_NONE) else Attempts(Tick(l, now), renewal, rebinding);
    (m.(lastCheck := now), rc)
  }

  /** Whether a lease is to be renewed. */
  predicate RenewalDue(t: Lease) {
    t.state.LEASED? && t.renew <= 0
  }

  /** Whether a lease is to be asked for anew. */
  predicate RebindingDue(t: Lease) {
    (t.state.LEASED? || t.state.START?) && t.rebind <= 0
  }

  /** The result tells whether something was asked for, which attempt was the last, and whether the client
      has a lease after it. */
  lemma ResultTells(l: Lease, now: uint32, a: Attempt, b: Attempt)
    requires l.lastCheck != 0
    ensures var t := Tick(l, now);
            var n := if RenewalDue(t) then Request(t.(state := REREQUEST), a) else t;
            var (m, rc) := Check(l, now, a, b);
            && (rc == 0 <==> !RenewalDue(t) && !RebindingDue(n))
            && (rc == 1 || rc == 2 <==> RenewalDue(t) && !RebindingDue(n))
            && (rc == 3 || rc == 4 <==> RebindingDue(n))
            && (rc == 2 || rc == 4 <==> rc != 0 && m.state.LEASED?)
  {
    hide Tick, Turns, Wrap;
  }

  /** A renewal that is acknowledged: the new counters, and the result 2, unless the new lease is to be asked
      for at once. */
  lemma RenewalIsGranted(l: Lease, now: uint32, a: Attempt, b: Attempt, ack: Reply, k: Message)
    requires l.lastCheck != 0 && RenewalDue(Tick(l, now)) && a.socket && 2 <= |a.turns| && a.turns[1] == ack && a.seed + 1 < MODULUS
    requires Bears(ack, k) && KindOf(k.fields) == ACK
    requires ForClient(Tick(l, now).(first := a.seed, xid := a.seed + 1), ack.port, k.head)
    ensures var n := Request(Tick(l, now).(state := REREQUEST), a);
            var (m, rc) := Check(l, now, a, b);
            Grants(l, k, n) && (n.rebind > 0 ==> rc == 2 && m == n.(lastCheck := now))
  {
    var t := Tick(l, now);
    TickKeepsTimes(l, now);
    hide Tick, Request, ForClient, KindOf, TimeAfter, AddressAfter, Signed, Wrap, EncodedAll, Padding, AllStandard, BigEndian;
    SameClient(t.(first := a.seed, xid := a.seed + 1), t.(state := REREQUEST, first := a.seed, xid := a.seed + 1), ack.port, k.head);
    RenewalSucceeds(t.(state := REREQUEST), a, ack, k);
  }

  lemma TickKeepsTimes(l: Lease, now: uint32)
    ensures var t := Tick(l, now);
            t == l.(secTimeout := t.secTimeout, renew := t.renew, rebind := t.rebind)
  {
    hide Signed, Wrap;
  }

  /** Rebinding starts from nothing: the addresses that the client had do not matter, and are zero if no
      socket is free. */
  lemma RebindingForgets(t: Lease, c: Config, a: Attempt, b: Attempt)
    requires RebindingDue(t) && !RenewalDue(t)
    ensures Attempts(t.(config := c), a, b) == Attempts(t, a, b)
    ensures !b.socket ==> Attempts(t, a, b).0.config == Config([0, 0, 0, 0], [0, 0, 0, 0], [0, 0, 0, 0], [0, 0, 0, 0], [0, 0, 0, 0])
  {
    assert t.(config := c).(state := START, config := CLEARED) == t.(state := START, config := CLEARED);
    hide Turns;
  }

  /** A rebinding in which an offer and its acknowledgement come: the new counters, and the result 4. */
  lemma RebindingIsGranted(l: Lease, now: uint32, a: Attempt, b: Attempt, offer: Reply, o: Message, ack: Reply, k: Message)
    requires l.lastCheck != 0 && RebindingDue(Tick(l, now)) && !RenewalDue(Tick(l, now))
    requires b.socket && 3 <= |b.turns| && b.turns[1..3] == [offer, ack] && b.seed + 1 < MODULUS
    requires Handshake(Tick(l, now).(state := START, config := CLEARED, first := b.seed, xid := b.seed + 1), offer, o, ack, k)
    ensures var (m, rc) := Check(l, now, a, b);
            rc == 4 && m.lastCheck == now && Grants(Offered(l.(config := CLEARED), o), k, m)
  {
    var t := Tick(l, now);
    TickKeepsTimes(l, now);
    hide Tick, Request, Handshake, TimeAfter, AddressAfter, KindOf, Signed, Wrap;
    AttemptSucceeds(t.(state := START, config := CLEARED), b, offer, o, ack, k);
  }

  /** A client that has just been told its hardware address. */
  function Begun(l: Lease, mac: seq<byte>): Lease {
    l.(state := START, mac := mac, config := CLEARED, leaseTime := 0, t1 := 0, t2 := 0, lastCheck := 0)
  }

  /** The first lease of a client with this hardware address: times and addresses are those of the
      acknowledgement, or of the offer, or the defaults and zero. */
  lemma FirstLease(l: Lease, mac: seq<byte>, a: Attempt, offer: Reply, o: Message, ack: Reply, k: Message)
    requires a.socket && 3 <= |a.turns| && a.turns[1..3] == [offer, ack] && a.seed + 1 < MODULUS
    requires Handshake(l.(mac := mac, first := a.seed, xid := a.seed + 1), offer, o, ack, k)
    ensures var m := Request(Begun(l, mac), a);
            && m.state.LEASED? && m.lastCheck == 0 && m.config.local == k.head[16..20] && Success(m) == 1
            && m.config.mask == AddressAfter(k.fields, SUBNET_MASK, AddressAfter(o.fields, SUBNET_MASK, [0, 0, 0, 0]))
            && m.config.gateway == AddressAfter(k.fields, ROUTERS, AddressAfter(o.fields, ROUTERS, [0, 0, 0, 0]))
            && m.config.dns == AddressAfter(k.fields, DNS, AddressAfter(o.fields, DNS, [0, 0, 0, 0]))
            && m.leaseTime == Or(TimeAfter(k.fields, LEASE_TIME, TimeAfter(o.fields, LEASE_TIME, 0)), 900)
            && m.t1 == Or(TimeAfter(k.fields, T1_VALUE, TimeAfter(o.fields, T1_VALUE, 0)), m.leaseTime / 2)
            && m.t2 == Or(TimeAfter(k.fields, T2_VALUE, TimeAfter(o.fields, T2_VALUE, 0)), Wrap(m.t1 * 2))
            && m.renew == Signed(m.t1) && m.rebind == Signed(m.t2)
  {
    hide Request, TimeAfter, AddressAfter, KindOf, Signed, Wrap, ForClient, EncodedAll, Padding, AllStandard, BigEndian;
    var b := Begun(l, mac);
    SameClient(b.(first := a.seed, xid := a.seed + 1), l.(mac := mac, first := a.seed, xid := a.seed + 1), offer.port, o.head);
    SameClient(b.(first := a.seed, xid := IdOf(o)), l.(mac := mac, first := a.seed, xid := IdOf(o)), ack.port, k.head);
    AttemptSucceeds(b, a, offer, o, ack, k);
  }

  class DhcpClass {
    var state: State
    var mac: seq<byte>
    var first: uint32
    var xid: uint32
    /** The five addresses. */
    var config: Config
    var leaseTime: uint32
    var t1: uint32
    var t2: uint32
    var renewInSec: int32
    var rebindInSec: int32
    var lastCheck: uint32
    var secTimeout: uint32
    /** What is unread of the datagram that was parsed last, and where it came from. */
    var rx: seq<byte>
    var from: ip

    function View(): Lease
      reads this
    {
      Lease(state, mac, first, xid, config,
            leaseTime, t1, t2, renewInSec, rebindInSec, lastCheck, secTimeout)
    }

    /** A byte of the datagram, or -1. */
    method Read() returns (b: int)
      modifies this`rx
      ensures b == (if old(rx) == [] then -1 else old(rx)[0]) && rx == Skip(old(rx), 1)
    {
      if rx == [] { return -1; }
      b := rx[0];
      rx := rx[1..];
    }

    /** A byte of the datagram as a uint8_t. */
    method ReadByte() returns (b: byte)
      modifies this`rx
      ensures b == Next(old(rx)) && rx == Skip(old(rx), 1)
    {
      var c := Read();
      b := c % 256;
    }

    method ReadBuffer(buffer: seq<byte>) returns (filled: seq<byte>)
      modifies this`rx
      ensures filled == Fill(buffer, old(rx)) && rx == Skip(old(rx), |buffer|)
    {
      var n := if |buffer| <= |rx| then |buffer| else |rx|;
      filled := rx[..n] + buffer[n..];
      rx := rx[n..];
    }

    method ReadAddress(buffer: ip) returns (filled: ip)
      modifies this`rx
      ensures filled == Fill(buffer, old(rx)) && rx == Skip(old(rx), 4)
    {
      filled := ReadBuffer(buffer);
    }

    method ReadTime(time: uint32) returns (t: uint32)
      modifies this`rx
      ensures t == ReadLong(time, old(rx)) && rx == Skip(old(rx), 4)
    {
      var memory := ReadAddress(LittleEndian(time));
      t := BigEndian(memory);
    }

    /** The loops that read bytes and drop them. */
    method Drop(n: nat)
      modifies this`rx
      ensures rx == Skip(old(rx), n)
    {
      for i := 0 to n
        invariant rx == Skip(old(rx), i)
      {
        var _ := Read();
      }
    }

    /** The cases of the switch with an address. */
    method ParseAddress(code: byte, length: byte)
      requires IsAddress(code)
      modifies this`rx, this`config
      ensures (config, rx) ==
              DhcpReply.ReadAddress(old(config), from, code, length, old(rx))
    {
      hide Fill, Skip;
      if code == SUBNET_MASK {
        var filled := ReadAddress(config.mask);
        config := config.(mask := filled);
      } else if code == ROUTERS {
        var filled := ReadAddress(config.gateway);
        config := config.(gateway := filled);
        Drop(if length >= 4 then length - 4 else 0);
      } else if code == DNS {
        var filled := ReadAddress(config.dns);
        config := config.(dns := filled);
        Drop(if length >= 4 then length - 4 else 0);
      } else if config.server == ZERO || config.server == from {
        var filled := ReadAddress(config.server);
        config := config.(server := filled);
      } else {
        Drop(length);
      }
    }

    /** The cases of the switch with a time. */
    method ParseTime(code: byte)
      requires IsTime(code)
      modifies this`rx, this`t1, this`t2, this`leaseTime, this`renewInSec
      ensures View() == DhcpReply.ReadTime(old(View()), code, old(rx)) && rx == Skip(old(rx), 4)
    {
      hide ReadLong, Signed, Skip;
      if code == T1_VALUE {
        t1 := ReadTime(t1);
      } else if code == T2_VALUE {
        t2 := ReadTime(t2);
      } else {
        leaseTime := ReadTime(leaseTime);
        renewInSec := Signed(leaseTime);
      }
    }

    /** The switch on one option. */
    method ParseOption(kind: byte) returns (next: byte)
      requires rx != []
      modifies this
      ensures (View(), rx, next) == ReadOption(old(View()), from, old(rx), kind) && from == old(from)
    {
      hide DhcpReply.ReadAddress, DhcpReply.ReadTime;
      next := kind;
      var code := Read();
      if code == END || code == PAD {
      } else if code == MESSAGE_TYPE {
        var _ := Read();
        next := ReadByte();
      } else {
        var length := ReadByte();
        if IsAddress(code) {
          ParseAddress(code, length);
        } else if IsTime(code) {
          ParseTime(code);
        } else {
          Drop(length);
        }
      }
    }

    method ParseResponse(r: Reply) returns (kind: byte, id: uint32)
      modifies this
      ensures (View(), kind, id) == Parse(old(View()), r) && (r.Packet? ==> rx == [])
    {
      hide BigEndian, ReadOption, ReadOptions, Fill, Skip;
      if r.NoReply? { return TIMEOUT, 0; }
      rx, from := r.payload, r.from;
      kind, id := 0, 0;
      var message := ReadBuffer(r.stack);
      if message[0] == BOOTREPLY && r.port == SERVER_PORT {
        id := BigEndian(message[4..8]);
        if message[28..34] != mac || id < first || id > xid {
          rx := [];
          return;
        }
        config := config.(local := message[16..20]);
        Drop(OPTIONS - FIXED);
        kind := ParseOptions();
      }
      rx := [];
    }

    /** The loop over the options. */
    method ParseOptions() returns (kind: byte)
      modifies this
      ensures (View(), kind) == ReadOptions(old(View()), from, old(rx), 0) && from == old(from)
    {
      hide ReadOption;
      kind := 0;
      while rx != []
        invariant from == old(from)
        invariant ReadOptions(View(), from, rx, kind) == ReadOptions(old(View()), from, old(rx), 0)
        decreases |rx|
      {
        kind := ParseOption(kind);
      }
    }

    /** The acknowledged lease, with defaults for the times that never came. */
    method Acknowledged()
      modifies this`state, this`leaseTime, this`t1, this`t2, this`renewInSec, this`rebindInSec
      ensures View() == Granted(old(View()))
    {
      hide Signed, Wrap;
      state := LEASED;
      leaseTime := if leaseTime == 0 then DEFAULT_LEASE else leaseTime;
      t1 := if t1 == 0 then leaseTime / 2 else t1;
      t2 := if t2 == 0 then Wrap(t1 * 2) else t2;
      renewInSec := Signed(t1);
      rebindInSec := Signed(t2);
    }

    /** One turn of the loop; the message type is kept from turn to turn. */
    method TakeTurn(reply: Reply, messageType: byte) returns (next: byte)
      requires !state.LEASED? && messageType != TIMEOUT
      modifies this
      ensures View() == Turn(old(View()), reply) && next != TIMEOUT
    {
      ParseKeeps(View(), reply);
      hide Parse, Granted, Wrap;
      next := messageType;
      match state {
        case START =>
          xid := Wrap(xid + 1);
          state := DISCOVER;
        case REREQUEST =>
          xid := Wrap(xid + 1);
          state := REQUEST;
        case DISCOVER =>
          var id;
          next, id := ParseResponse(reply);
          if next == OFFER {
            xid := id;
            state := REQUEST;
          }
        case REQUEST =>
          var id;
          next, id := ParseResponse(reply);
          if next == ACK {
            Acknowledged();
          } else if next == NAK {
            state := START;
          }
      }
      if next == TIMEOUT {
        next := 0;
        state := START;
      }
    }

    method RequestLease(a: Attempt) returns (result: int)
      requires !state.LEASED?
      modifies this
      ensures View() == Request(old(View()), a) && result == Success(View())
    {
      hide Turn;
      xid := a.seed;
      first := xid;
      result := 0;
      if !a.socket { return; }
      ghost var start := View();
      var messageType: byte := 0;
      var i := 0;
      while !state.LEASED? && i < |a.turns|
        invariant i <= |a.turns| && messageType != TIMEOUT && result == Success(View())
        invariant Turns(View(), a.turns[i..]) == Turns(start, a.turns)
      {
        messageType := TakeTurn(a.turns[i], messageType);
        if state.LEASED? { result := 1; }
        assert a.turns[i..][1..] == a.turns[i + 1..];
        i := i + 1;
      }
      xid := Wrap(xid + 1);
    }

    method ResetLease()
      modifies this`config
      ensures View() == old(View()).(config := CLEARED)
    {
      config := CLEARED;
    }

    /** beginWithDHCP. */
    method BeginWithDhcp(newMac: seq<byte>, a: Attempt) returns (result: int)
      modifies this
      ensures View() == Request(Begun(old(View()), newMac), a) && result == Success(View())
    {
      hide Request, Signed, Wrap;
      leaseTime, t1, t2, lastCheck := 0, 0, 0, 0;
      ResetLease();
      mac, state := newMac, START;
      result := RequestLease(a);
    }

    /** The clock and the counters, before checkLease looks at them. */
    method CountSeconds(now: uint32)
      requires lastCheck != 0
      modifies this`secTimeout, this`renewInSec, this`rebindInSec
      ensures View() == Tick(old(View()), now)
    {
      hide Wrap, Signed;
      var factor: int := Signed(Signed(now) - Signed(secTimeout));
      if factor >= 0 {
        secTimeout := Wrap(Signed(now) + 1000 - factor % 1000);
        factor := factor / 1000 + 1;
        if renewInSec < factor * 2 { renewInSec := 0; } else { renewInSec := renewInSec - factor; }
        if rebindInSec < factor * 2 { rebindInSec := 0; } else { rebindInSec := rebindInSec - factor; }
      }
    }

    method CheckLease(now: uint32, renewal: Attempt, rebinding: Attempt) returns (rc: int)
      modifies this
      ensures (View(), rc) == Check(old(View()), now, renewal, rebinding)
    {
      hide Request, Wrap, Signed;
      rc := CHECK_NONE;
      if lastCheck != 0 {
        CountSeconds(now);
        hide Tick;
        if state.LEASED? && renewInSec <= 0 {
          state := REREQUEST;
          var r := RequestLease(renewal);
          rc := 1 + r;
        }
        if (state.LEASED? || state.START?) && rebindInSec <= 0 {
          state := START;
          ResetLease();
          var r := RequestLease(rebinding);
          rc := 3 + r;
        }
      } else {
        secTimeout := Wrap(Signed(now) + 1000);
      }
      lastCheck := now;
    }
  }
}
