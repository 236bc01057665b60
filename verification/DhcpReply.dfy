// What parseDHCPResponse of Dhcp.cpp makes of a packet: its filter, and its loop over the options.
module DhcpReply {
  import opened Int32

  datatype Option<T> = None | Some(value: T)

  type byte = x: int | 0 <= x < 256

  type port = x: int | 0 <= x < 65536

  /** Four bytes of an address. */
  type ip = s: seq<byte> | |s| == 4 witness [0, 0, 0, 0]

  const ZERO: ip := [0, 0, 0, 0]

  const PAD: byte := 0
  const SUBNET_MASK: byte := 1
  const ROUTERS: byte := 3
  const DNS: byte := 6
  const LEASE_TIME: byte := 51
  const MESSAGE_TYPE: byte := 53
  const SERVER_IDENTIFIER: byte := 54
  const T1_VALUE: byte := 58
  const T2_VALUE: byte := 59
  const END: byte := 255

  const BOOTREPLY: byte := 2
  const SERVER_PORT: port := 67
  const FIXED: nat := 34
  const OPTIONS: nat := 240

  const OFFER: byte := 2
  const ACK: byte := 5
  const NAK: byte := 6
  const TIMEOUT: byte := 255

  datatype State = START | DISCOVER | REQUEST | LEASED | REREQUEST

  /** The twenty bytes that reset_DHCP_lease clears. */
  datatype Config = Config(local: ip, mask: ip, gateway: ip, server: ip, dns: ip)

  const CLEARED: Config := Config(ZERO, ZERO, ZERO, ZERO, ZERO)

  datatype Lease = Lease(state: State, mac: seq<byte>, first: uint32, xid: uint32, config: Config,
                         leaseTime: uint32, t1: uint32, t2: uint32,
                         renew: int32, rebind: int32, lastCheck: uint32, secTimeout: uint32)

  /** The fixed part of a message. */
  type fixed = s: seq<byte> | |s| == FIXED witness seq(34, _ => 0)

  /** What the wait for a packet comes to. stack is what the local variable for the fixed part holds before
      a packet, which may be too short, is read into it. */
  datatype Reply = NoReply | Packet(from: ip, port: port, payload: seq<byte>, stack: fixed)

  // ---- Reading a datagram

  /** read(), cut to a byte: 255 when nothing is left. */
  function Next(s: seq<byte>): byte {
    if s == [] then 255 else s[0]
  }

  /** What n calls of read(), or one of read(buffer, n), leave. */
  function Skip(s: seq<byte>, n: nat): seq<byte> {
    if n <= |s| then s[n..] else []
  }

  /** A buffer after read(buffer, len), which keeps what the datagram is too short for. */
  function Fill(buffer: seq<byte>, s: seq<byte>): (r: seq<byte>)
    ensures |r| == |buffer|
  {
    if |buffer| <= |s| then s[..|buffer|] else s + buffer[|s|..]
  }

  /** A long in memory. */
  function LittleEndian(v: uint32): ip {
    [v % 256, v / 0x100 % 256, v / 0x1_0000 % 256, v / 0x100_0000]
  }

  /** ntohl of a long in memory. */
  function BigEndian(b: ip): uint32 {
    b[0] as int * 0x100_0000 + b[1] as int * 0x1_0000 + b[2] as int * 0x100 + b[3]
  }

  /** A long that is read and then swapped. */
  function ReadLong(v: uint32, s: seq<byte>): uint32 {
    BigEndian(Fill(LittleEndian(v), s))
  }

  /** Four bytes, and the rest of an option of that length. */
  function SkipRest(s: seq<byte>, length: byte): seq<byte> {
    Skip(Skip(s, 4), if length >= 4 then length - 4 else 0)
  }

  predicate IsAddress(code: byte) {
    code == SUBNET_MASK || code == ROUTERS || code == DNS || code == SERVER_IDENTIFIER
  }

  /** An option with an address, after its code and length. */
  function ReadAddress(c: Config, from: ip, code: byte, length: byte, data: seq<byte>): (Config, seq<byte>)
    requires IsAddress(code)
  {
    if code == SUBNET_MASK then (c.(mask := Fill(c.mask, data)), Skip(data, 4))
    else if code == ROUTERS then (c.(gateway := Fill(c.gateway, data)), SkipRest(data, length))
    else if code == DNS then (c.(dns := Fill(c.dns, data)), SkipRest(data, length))
    else if c.server == ZERO || c.server == from then (c.(server := Fill(c.server, data)), Skip(data, 4))
    else (c, Skip(data, length))
  }

  predicate IsTime(code: byte) {
    code == LEASE_TIME || code == T1_VALUE || code == T2_VALUE
  }

  /** An option with a time. */
  function ReadTime(l: Lease, code: byte, data: seq<byte>): Lease
    requires IsTime(code)
  {
    if code == T1_VALUE then l.(t1 := ReadLong(l.t1, data))
    else if code == T2_VALUE then l.(t2 := ReadLong(l.t2, data))
    else
      var time := ReadLong(l.leaseTime, data);
      l.(leaseTime := time, renew := Signed(time))
  }

  /** One turn of the loop over the options: the client, what is left of the datagram, and the type. */
  function ReadOption(l: Lease, from: ip, s: seq<byte>, kind: byte): (result: (Lease, seq<byte>, byte))
    requires s != []
    ensures |result.1| < |s|
  {
    var code, length, data := s[0], Next(s[1..]), Skip(s[1..], 1);
    if code == END || code == PAD then (l, s[1..], kind)
    else if code == MESSAGE_TYPE then (l, Skip(data, 1), Next(data))
    else if IsAddress(code) then
      var (config, rest) := ReadAddress(l.config, from, code, length, data);
      (l.(config := config), rest, kind)
    else if IsTime(code) then (ReadTime(l, code, data), Skip(data, 4), kind)
    else (l, Skip(data, length), kind)
  }

  /** The loop over the options. */
  function ReadOptions(l: Lease, from: ip, s: seq<byte>, kind: byte): (Lease, byte)
    decreases |s|
  {
    if s == [] then (l, kind)
    else
      var (m, rest, next) := ReadOption(l, from, s, kind);
      ReadOptions(m, from, rest, next)
  }

  /** The transaction identifier of a message. */
  function Id(message: fixed): uint32 {
    BigEndian(message[4..8])
  }

  /** The message is for this client, and answers a message of this attempt. */
  predicate Mine(l: Lease, message: fixed) {
    message[28..34] == l.mac && l.first <= Id(message) <= l.xid
  }

  /** parseDHCPResponse: the client, the type of the message, and its transaction identifier. */
  function Parse(l: Lease, r: Reply): (Lease, byte, uint32) {
    if r.NoReply? then (l, TIMEOUT, 0)
    else
      var message := Fill(r.stack, r.payload);
      if message[0] != BOOTREPLY || r.port != SERVER_PORT then (l, 0, 0)
      else if !Mine(l, message) then (l, 0, Id(message))
      else
        var m := l.(config := l.config.(local := message[16..20]));
        var (n, kind) := ReadOptions(m, r.from, Skip(Skip(r.payload, FIXED), OPTIONS - FIXED), 0);
        (n, kind, Id(message))
  }

  lemma ReadOptionKeeps(l: Lease, from: ip, s: seq<byte>, kind: byte)
    requires s != []
    ensures Kept(l, ReadOption(l, from, s, kind).0)
  {}

  /** A reply changes these fields and no others. */
  predicate Kept(l: Lease, m: Lease) {
    m == l.(config := m.config, leaseTime := m.leaseTime, t1 := m.t1, t2 := m.t2, renew := m.renew)
  }

  lemma {:induction false} ReadOptionsKeeps(l: Lease, from: ip, s: seq<byte>, kind: byte)
    ensures Kept(l, ReadOptions(l, from, s, kind).0)
    decreases |s|
  {
    if s != [] {
      ReadOptionKeeps(l, from, s, kind);
      hide ReadOption;
      var (m, rest, next) := ReadOption(l, from, s, kind);
      ReadOptionsKeeps(m, from, rest, next);
    }
  }

  lemma ParseKeeps(l: Lease, r: Reply)
    ensures Kept(l, Parse(l, r).0)
  {
    hide ReadOptions, Fill, Skip, Mine;
    if r.Packet? {
      var m := l.(config := l.config.(local := Fill(r.stack, r.payload)[16..20]));
      ReadOptionsKeeps(m, r.from, Skip(Skip(r.payload, FIXED), OPTIONS - FIXED), 0);
    }
  }

  // ---- What the standard says of options

  /** An option, as RFC 2132 writes it: a code, a length and that many bytes. */
  datatype Field = Field(code: byte, data: seq<byte>)

  /** Sections 3 and 9 of RFC 2132: the lengths of the options that the client reads. */
  predicate Standard(f: Field) {
    && f.code != PAD && f.code != END && |f.data| <= 255
    && (f.code == MESSAGE_TYPE ==> |f.data| == 1)
    && (IsTime(f.code) || f.code == SUBNET_MASK || f.code == SERVER_IDENTIFIER ==> |f.data| == 4)
    && (f.code == ROUTERS || f.code == DNS ==> 4 <= |f.data|)
  }

  predicate AllStandard(fields: seq<Field>) {
    forall i | 0 <= i < |fields| :: Standard(fields[i])
  }

  function Encoded(f: Field): seq<byte>
    requires Standard(f)
  {
    [f.code, |f.data|] + f.data
  }

  function EncodedAll(fields: seq<Field>): seq<byte>
    requires AllStandard(fields)
  {
    if fields == [] then [] else EncodedAll(fields[..|fields| - 1]) + Encoded(fields[|fields| - 1])
  }

  /** What one option means to the client; the identifier of another server than the one it has is ignored,
      unless the message comes from the server it has. */
  function Told(l: Lease, from: ip, f: Field): Lease
    requires Standard(f)
  {
    var c := l.config;
    if f.code == SUBNET_MASK then l.(config := c.(mask := f.data))
    else if f.code == ROUTERS then l.(config := c.(gateway := f.data[..4]))
    else if f.code == DNS then l.(config := c.(dns := f.data[..4]))
    else if f.code == SERVER_IDENTIFIER then
      if c.server == ZERO || c.server == from then l.(config := c.(server := f.data)) else l
    else if f.code == T1_VALUE then l.(t1 := BigEndian(f.data))
    else if f.code == T2_VALUE then l.(t2 := BigEndian(f.data))
    else if f.code == LEASE_TIME then l.(leaseTime := BigEndian(f.data), renew := Signed(BigEndian(f.data)))
    else l
  }

  function ToldAll(l: Lease, from: ip, fields: seq<Field>): Lease
    requires AllStandard(fields)
  {
    if fields == [] then l else Told(ToldAll(l, from, fields[..|fields| - 1]), from, fields[|fields| - 1])
  }

  /** The data of the last option with this code. */
  function Last(fields: seq<Field>, code: byte): (data: Option<seq<byte>>)
    ensures AllStandard(fields) && data.Some? ==> Standard(Field(code, data.value))
  {
    if fields == [] then None
    else
      var f := fields[|fields| - 1];
      if f.code == code then Some(f.data) else Last(fields[..|fields| - 1], code)
  }

  /** The type of a message; zero if it has none. */
  function KindOf(fields: seq<Field>): byte
    requires AllStandard(fields)
  {
    if Last(fields, MESSAGE_TYPE).Some? then Last(fields, MESSAGE_TYPE).value[0] else 0
  }

  /** One option that keeps to the standard is read as what it means. */
  lemma FieldRead(l: Lease, from: ip, f: Field, more: seq<byte>, kind: byte)
    requires Standard(f)
    ensures ReadOption(l, from, Encoded(f) + more, kind) ==
            (Told(l, from, f), more, if f.code == MESSAGE_TYPE then f.data[0] else kind)
  {
    var s := Encoded(f) + more;
    var n := |f.data|;
    assert s[0] == f.code && Next(s[1..]) == n && Skip(s[1..], 1) == f.data + more;
    assert Skip(f.data + more, n) == more;
    if 4 <= n {
      assert (f.data + more)[..4] == f.data[..4];
      assert Skip(f.data + more, 4) == f.data[4..] + more;
      assert SkipRest(f.data + more, n) == more;
      hide Skip, SkipRest, BigEndian, LittleEndian, Signed;
      assert n == 4 ==> f.data[..4] == f.data;
    }
  }

  /** And so is any list of them, from whatever state. */
  lemma {:induction false} FieldsRead(l: Lease, from: ip, fields: seq<Field>, more: seq<byte>)
    requires AllStandard(fields)
    ensures ReadOptions(l, from, EncodedAll(fields) + more, 0)
         == ReadOptions(ToldAll(l, from, fields), from, more, KindOf(fields))
  {
    hide ReadOption, Told, Standard;
    if fields == [] {
      assert [] + more == more;
    } else {
      var k := |fields| - 1;
      var f := fields[k];
      FieldsRead(l, from, fields[..k], Encoded(f) + more);
      assert EncodedAll(fields) + more == EncodedAll(fields[..k]) + (Encoded(f) + more);
      FieldRead(ToldAll(l, from, fields[..k]), from, f, more, KindOf(fields[..k]));
    }
  }

  /** Padding, as section 3.1 of RFC 2132 has it, and the end of the options. */
  predicate Padding(s: seq<byte>) {
    forall b | b in s :: b == PAD || b == END
  }

  lemma {:induction false} PaddingRead(l: Lease, from: ip, s: seq<byte>, kind: byte)
    requires Padding(s)
    ensures ReadOptions(l, from, s, kind) == (l, kind)
    decreases |s|
  {
    if s != [] {
      assert s[0] in s && forall b | b in s[1..] :: b in s;
      PaddingRead(l, from, s[1..], kind);
    }
  }

  /** The message is a reply to this attempt of this client. */
  predicate ForClient(l: Lease, from: port, head: seq<byte>)
    requires |head| == OPTIONS
  {
    head[0] == BOOTREPLY && from == SERVER_PORT && head[28..34] == l.mac && l.first <= BigEndian(head[4..8]) <= l.xid
  }

  /** A reply that keeps to the standard: its fixed part up to the options, the options, and padding. */
  datatype Message = Message(head: seq<byte>, fields: seq<Field>, tail: seq<byte>)

  ghost predicate Bears(r: Reply, m: Message) {
    && r.Packet? && |m.head| == OPTIONS && AllStandard(m.fields) && Padding(m.tail)
    && r.payload == m.head + (EncodedAll(m.fields) + m.tail)
  }

  /** Such a reply is taken if and only if it is for this client, and read as what its options mean. */
  lemma ReplyRead(l: Lease, r: Reply, w: Message)
    requires Bears(r, w)
    ensures var (m, kind, id) := Parse(l, r);
            if ForClient(l, r.port, w.head) then
              && m == ToldAll(l.(config := l.config.(local := w.head[16..20])), r.from, w.fields)
              && kind == KindOf(w.fields) && id == BigEndian(w.head[4..8])
            else m == l && kind == 0
  {
    var message, head := Fill(r.stack, r.payload), w.head;
    assert message == head[..FIXED];
    assert message[28..34] == head[28..34] && message[4..8] == head[4..8] && message[16..20] == head[16..20];
    assert Skip(Skip(r.payload, FIXED), OPTIONS - FIXED) == EncodedAll(w.fields) + w.tail;
    hide ReadOptions, EncodedAll, ToldAll, KindOf, BigEndian, Fill, Skip, Standard, Padding;
    var m := l.(config := l.config.(local := head[16..20]));
    FieldsRead(m, r.from, w.fields, w.tail);
    PaddingRead(ToldAll(m, r.from, w.fields), r.from, w.tail, KindOf(w.fields));
  }

  /** A long in network order. */
  function NetworkOrder(v: uint32): ip {
    [v / 0x100 / 0x100 / 0x100 % 256, v / 0x100 / 0x100 % 256, v / 0x100 % 256, v % 256]
  }

  /** Longs are read in network order. */
  lemma LongIsRead(v: uint32, old': uint32, more: seq<byte>)
    ensures ReadLong(old', NetworkOrder(v) + more) == v == BigEndian(NetworkOrder(v))
  {
    var b := NetworkOrder(v);
    assert Fill(LittleEndian(old'), b + more) == b;
    var x, y := v / 0x100, v / 0x100 / 0x100;
    assert v == x * 0x100 + b[3] && x == y * 0x100 + b[2] && y == b[0] as int * 0x100 + b[1];
  }

  /** A message that ends before the bytes of a time turns the bytes of the old one around. */
  lemma CutTimeTurnsRound(v: uint32)
    ensures var b := NetworkOrder(v); ReadLong(v, []) == BigEndian([b[3], b[2], b[1], b[0]])
  {
    var b := NetworkOrder(v);
    ShiftsAreDivisions(v);
    assert Fill(LittleEndian(v), []) == LittleEndian(v) == [b[3], b[2], b[1], b[0]];
  }

  lemma ShiftsAreDivisions(v: uint32)
    ensures v / 0x1_0000 == v / 0x100 / 0x100 && v / 0x100_0000 == v / 0x100 / 0x100 / 0x100 < 0x100
  {}

  /** A value that the last option with a code gives, or else the one there was. */
  function TimeAfter(fields: seq<Field>, code: byte, time: uint32): uint32
    requires AllStandard(fields) && IsTime(code)
  {
    if Last(fields, code).Some? then BigEndian(Last(fields, code).value) else time
  }

  function AddressAfter(fields: seq<Field>, code: byte, address: ip): ip
    requires AllStandard(fields) && (code == SUBNET_MASK || code == ROUTERS || code == DNS)
  {
    if Last(fields, code).Some? then Last(fields, code).value[..4] else address
  }

  /** Of several options with one code it is the last that counts. */
  lemma {:induction false} LastTimesCount(l: Lease, from: ip, fields: seq<Field>)
    requires AllStandard(fields)
    ensures var m := ToldAll(l, from, fields);
            && m.t1 == TimeAfter(fields, T1_VALUE, l.t1)
            && m.t2 == TimeAfter(fields, T2_VALUE, l.t2)
            && m.leaseTime == TimeAfter(fields, LEASE_TIME, l.leaseTime)
            && m.renew == (if Last(fields, LEASE_TIME).Some? then Signed(m.leaseTime) else l.renew)
            && Kept(l, m)
  {
    hide BigEndian, Signed;
    if fields != [] {
      LastTimesCount(l, from, fields[..|fields| - 1]);
    }
  }

  lemma {:induction false} LastAddressesCount(l: Lease, from: ip, fields: seq<Field>)
    requires AllStandard(fields)
    ensures var c := ToldAll(l, from, fields).config;
            && c.mask == AddressAfter(fields, SUBNET_MASK, l.config.mask)
            && c.gateway == AddressAfter(fields, ROUTERS, l.config.gateway)
            && c.dns == AddressAfter(fields, DNS, l.config.dns)
            && c.local == l.config.local
  {
    hide BigEndian, Signed;
    if fields != [] {
      var f := fields[|fields| - 1];
      assert |f.data| == 4 ==> f.data[..4] == f.data;
      LastAddressesCount(l, from, fields[..|fields| - 1]);
    }
  }

  /** A server that is known stays, whatever messages from others say. */
  lemma {:induction false} ServerStays(l: Lease, from: ip, fields: seq<Field>)
    requires AllStandard(fields) && l.config.server != ZERO && l.config.server != from
    ensures ToldAll(l, from, fields).config.server == l.config.server
  {
    if fields != [] {
      ServerStays(l, from, fields[..|fields| - 1]);
    }
  }

  /** A client without a server takes the one that a message names, and lets that one name another. */
  lemma ServerNamed(l: Lease, from: ip, before: seq<Field>, named: Field, after: seq<Field>)
    requires AllStandard(before + [named] + after) && named.code == SERVER_IDENTIFIER && Standard(named)
    requires forall f | f in before || f in after :: f.code != SERVER_IDENTIFIER
    ensures ToldAll(l, from, before + [named] + after).config.server
         == if l.config.server == ZERO || l.config.server == from then named.data else l.config.server
  {
    var a := before + [named];
    assert [] + before == before && forall i | 0 <= i < |before| :: before[i] == (a + after)[i];
    NoServerNamed(l, from, [], before);
    NoServerNamed(l, from, a, after);
    hide ToldAll;
    ToldLast(l, from, before, named);
    NothingTold(l, from);
  }

  lemma NothingTold(l: Lease, from: ip)
    ensures ToldAll(l, from, []) == l
  {}

  lemma ToldLast(l: Lease, from: ip, fields: seq<Field>, f: Field)
    requires AllStandard(fields) && Standard(f)
    ensures AllStandard(fields + [f]) && ToldAll(l, from, fields + [f]) == Told(ToldAll(l, from, fields), from, f)
  {
    assert (fields + [f])[..|fields|] == fields;
  }

  lemma {:induction false} NoServerNamed(l: Lease, from: ip, before: seq<Field>, after: seq<Field>)
    requires AllStandard(before + after) && forall f | f in after :: f.code != SERVER_IDENTIFIER
    ensures forall i | 0 <= i < |before| :: before[i] == (before + after)[i]
    ensures ToldAll(l, from, before + after).config.server == ToldAll(l, from, before).config.server
  {
    if after == [] {
      assert before + after == before;
    } else {
      var k := |after| - 1;
      assert (before + after)[..|before| + k] == before + after[..k] && (before + after)[|before| + k] == after[k];
      assert forall f | f in after[..k] :: f in after;
      NoServerNamed(l, from, before, after[..k]);
      assert after[k] in after;
    }
  }

  /** A message with a type answers a message of this attempt. */
  lemma TypedIsMine(l: Lease, r: Reply)
    ensures Parse(l, r).1 == 0 || Parse(l, r).1 == TIMEOUT || l.first <= Parse(l, r).2 <= l.xid
  {
    hide ReadOptions, Fill, Skip;
  }

  // ---- Where the code and the standard part

  /** What follows the end of the options is read as more of them. */
  lemma EndIsPassed(l: Lease, from: ip, fields: seq<Field>, more: seq<byte>)
    requires AllStandard(fields)
    ensures ReadOptions(l, from, EncodedAll(fields) + ([END] + more), 0) == ReadOptions(l, from, EncodedAll(fields) + more, 0)
  {
    FieldsRead(l, from, fields, [END] + more);
    FieldsRead(l, from, fields, more);
    hide ToldAll, KindOf, EncodedAll;
    assert ([END] + more)[1..] == more;
  }

  /** Another type after the end of an acknowledgement makes a refusal of it. */
  lemma NakAfterEnd(l: Lease, from: ip, fields: seq<Field>)
    requires AllStandard(fields)
    ensures ReadOptions(l, from, EncodedAll(fields) + ([END] + [MESSAGE_TYPE, 1, NAK]), 0).1 == NAK
  {
    var nak := Field(MESSAGE_TYPE, [NAK]);
    EndIsPassed(l, from, fields, [MESSAGE_TYPE, 1, NAK]);
    FieldsRead(l, from, fields, [MESSAGE_TYPE, 1, NAK]);
    hide ToldAll, KindOf, EncodedAll, Told;
    var m, kind := ToldAll(l, from, fields), KindOf(fields);
    FieldRead(m, from, nak, [], kind);
    assert Encoded(nak) + [] == [MESSAGE_TYPE, 1, NAK];
    hide ReadOption;
    OneMore(m, from, [MESSAGE_TYPE, 1, NAK], kind);
  }

  lemma OneMore(l: Lease, from: ip, s: seq<byte>, kind: byte)
    requires s != [] && ReadOption(l, from, s, kind).1 == []
    ensures ReadOptions(l, from, s, kind).1 == ReadOption(l, from, s, kind).2
  {}

  /** A message that ends within its type reads like no message. */
  lemma CutReadsAsTimeout(l: Lease, from: ip, fields: seq<Field>, cut: seq<byte>)
    requires AllStandard(fields) && 1 <= |cut| <= 2 && cut[0] == MESSAGE_TYPE
    ensures ReadOptions(l, from, EncodedAll(fields) + cut, 0).1 == TIMEOUT
  {
    FieldsRead(l, from, fields, cut);
    hide ToldAll, KindOf, EncodedAll;
    assert Skip(Skip(cut[1..], 1), 1) == [];
  }

  /** A list of routers or name servers that is said to be shorter than one address is read as one. */
  lemma ShortListIsRead(l: Lease, from: ip, code: byte, length: byte, s: seq<byte>, kind: byte)
    requires (code == ROUTERS || code == DNS) && length <= 4
    ensures ReadOption(l, from, [code, length] + s, kind) == ReadOption(l, from, [code, 4] + s, kind)
    ensures ReadOption(l, from, [code, length] + s, kind).1 == if 4 <= |s| then s[4..] else []
  {
    assert ([code, length] + s)[1..][1..] == s == ([code, 4] + s)[1..][1..];
    assert Skip(Skip(s, 4), 0) == Skip(s, 4);
  }

  /** The length of an option that should have four bytes, or one, has no influence. */
  lemma LengthIgnored(l: Lease, from: ip, code: byte, length: byte, other: byte, s: seq<byte>, kind: byte)
    requires code == MESSAGE_TYPE || code == SUBNET_MASK || IsTime(code)
    ensures ReadOption(l, from, [code, length] + s, kind) == ReadOption(l, from, [code, other] + s, kind)
  {
    assert ([code, length] + s)[1..][1..] == s == ([code, other] + s)[1..][1..];
  }
}
