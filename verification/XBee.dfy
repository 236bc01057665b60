// XBee API frames (escaped mode, ATAP = 2): the sender and the resumable receiver of XBee.cpp.

/** Bytes, and the byte arithmetic of the protocol. */
module XBeeBytes {

  type byte = x: int | 0 <= x < 256

  const START_BYTE: byte := 0x7e
  const ESCAPE: byte := 0x7d
  const XON: byte := 0x11
  const XOFF: byte := 0x13

  /** b ^ 0x20. */
  function Flip(b: byte): byte {
    if b / 32 % 2 == 0 then b + 32 else b - 32
  }

  predicate NeedsEscape(b: byte) {
    b == START_BYTE || b == ESCAPE || b == XON || b == XOFF
  }

  function Escaped(b: byte): (s: seq<byte>)
    ensures 1 <= |s| <= 2
  {
    if NeedsEscape(b) then [ESCAPE, Flip(b)] else [b]
  }

  function EscapeAll(body: seq<byte>): seq<byte> {
    if body == [] then [] else Escaped(body[0]) + EscapeAll(body[1..])
  }

  /** Everything that follows the header of a frame is escaped. */
  function Wire(body: seq<byte>): seq<byte> {
    [START_BYTE] + EscapeAll(body)
  }

  function WireAll(bodies: seq<seq<byte>>): seq<byte> {
    if bodies == [] then [] else Wire(bodies[0]) + WireAll(bodies[1..])
  }

  function Sum(s: seq<byte>): nat {
    if s == [] then 0 else Sum(s[..|s| - 1]) + s[|s| - 1]
  }

  /** uint8_t addition. */
  function AddByte(t: byte, b: byte): byte {
    (t + b) % 256
  }

  function SumByte(s: seq<byte>): byte {
    Sum(s) % 256
  }

  lemma SumByteAppend(s: seq<byte>, b: byte)
    ensures SumByte(s + [b]) == AddByte(SumByte(s), b)
  {
    SumAppend(s, b);
  }

  lemma {:induction false} EscapeAllSplit(body: seq<byte>, k: nat)
    requires k < |body|
    ensures EscapeAll(body[k..]) == Escaped(body[k]) + EscapeAll(body[k + 1..])
  {
    assert body[k..][1..] == body[k + 1..];
  }

  lemma {:induction false} EscapeAllSnoc(s: seq<byte>, b: byte)
    ensures EscapeAll(s + [b]) == EscapeAll(s) + Escaped(b)
  {
    if s != [] {
      assert (s + [b])[1..] == s[1..] + [b];
      EscapeAllSnoc(s[1..], b);
    }
  }

  lemma {:induction false} SumAppend(s: seq<byte>, b: byte)
    ensures Sum(s + [b]) == Sum(s) + b
  {
    assert (s + [b])[..|s|] == s;
  }

  lemma SumByteOfPair(a: byte, b: byte)
    ensures SumByte([a, b]) == AddByte(AddByte(0, a), b)
  {
    SumByteAppend([], a);
    SumByteAppend([a], b);
    assert [] + [a] == [a] && [a] + [b] == [a, b];
  }

  lemma {:induction false} SumConcat(s: seq<byte>, t: seq<byte>)
    ensures Sum(s + t) == Sum(s) + Sum(t)
  {
    if t == [] {
      assert s + t == s;
    } else {
      var u := t[..|t| - 1];
      assert s + t == (s + u) + [t[|t| - 1]];
      SumAppend(s + u, t[|t| - 1]);
      SumConcat(s, u);
    }
  }

  lemma {:induction false} SumUpdate(s: seq<byte>, i: nat, b: byte)
    requires i < |s|
    ensures Sum(s[i := b]) == Sum(s) - s[i] + b
  {
    assert s == s[..i] + ([s[i]] + s[i + 1..]);
    assert s[i := b] == s[..i] + ([b] + s[i + 1..]);
    SumConcat(s[..i], [s[i]] + s[i + 1..]);
    SumConcat(s[..i], [b] + s[i + 1..]);
    SumConcat([s[i]], s[i + 1..]);
    SumConcat([b], s[i + 1..]);
    SumAppend([], s[i]);
    SumAppend([], b);
    assert [] + [b] == [b] && [] + [s[i]] == [s[i]];
  }
}

/** The wire format of escaped API frames, for a reader who knows nothing of the sender. */
module XBeeWireFormat {
  import opened XBeeBytes

  /** The two bytes differ in bit 5 and in no other. */
  predicate Bit5Apart(a: byte, b: byte) {
    a != b && a / 64 == b / 64 && a % 32 == b % 32
  }

  /** Neither a start byte nor a flow control character. */
  predicate Clear(b: byte) {
    b != 0x7e && b != 0x11 && b != 0x13
  }

  /** On the wire each of the bytes stands as it is, or with its bit 5 changed after an escape byte. */
  predicate Spells(wire: seq<byte>, bytes: seq<byte>)
    decreases |bytes|
  {
    if bytes == [] then wire == []
    else if wire == [] then false
    else if wire[0] == 0x7d then
      2 <= |wire| && Clear(wire[1]) && Bit5Apart(wire[1], bytes[0]) && Spells(wire[2..], bytes[1..])
    else Clear(wire[0]) && wire[0] == bytes[0] && Spells(wire[1..], bytes[1..])
  }

  function Total(s: seq<byte>): nat {
    if s == [] then 0 else s[0] + Total(s[1..])
  }

  /** A length in two bytes, the high one first. */
  function Length(high: byte, low: byte): nat {
    high as int * 0x100 + low
  }

  /** A start byte; then a length in two bytes, so many bytes, and one that makes them add up to 0xff. */
  predicate IsFrame(wire: seq<byte>, bytes: seq<byte>) {
    && wire != [] && wire[0] == 0x7e && Spells(wire[1..], bytes)
    && 3 <= |bytes| && Length(bytes[0], bytes[1]) == |bytes| - 3
    && Total(bytes[2..]) % 256 == 0xff
  }

  /** The wire carries one frame with these contents. */
  ghost predicate Carries(wire: seq<byte>, contents: seq<byte>) {
    exists bytes | IsFrame(wire, bytes) :: bytes[2..|bytes| - 1] == contents
  }

  lemma {:induction false} SpellsOnce(wire: seq<byte>, a: seq<byte>, b: seq<byte>)
    requires Spells(wire, a) && Spells(wire, b)
    ensures a == b
    decreases |a|
  {
    if a == [] || b == [] {
      assert wire == [];
    } else {
      assert a[0] == b[0];
      SpellsOnce(wire[if wire[0] == 0x7d then 2 else 1..], a[1..], b[1..]);
      assert a == [a[0]] + a[1..] && b == [b[0]] + b[1..];
    }
  }

  /** A reader has no choice. */
  lemma CarriesOnce(wire: seq<byte>, c: seq<byte>, d: seq<byte>)
    requires Carries(wire, c) && Carries(wire, d)
    ensures c == d
  {
    var a :| IsFrame(wire, a) && a[2..|a| - 1] == c;
    var b :| IsFrame(wire, b) && b[2..|b| - 1] == d;
    SpellsOnce(wire[1..], a, b);
  }
}

/** What a frame is, and what XBee::send writes for one. */
module XBeeSender {
  import opened XBeeBytes
  import opened XBeeWireFormat

  /** A request as send sees it: getApiId, getFrameId and the getFrameData bytes, counted by a uint8_t. */
  datatype Request = Request(apiId: byte, frameId: byte, data: seq<byte>) {
    ghost predicate Valid() {
      |data| <= 255
    }
  }

  /** Length, api id and frame id. */
  function Head(r: Request): seq<byte> {
    var length := |r.data| + 2;
    [length / 256 % 256, length % 256, r.apiId, r.frameId]
  }

  /** The bytes that the checksum covers. */
  function Covered(r: Request): seq<byte> {
    [r.apiId, r.frameId] + r.data
  }

  /** The unescaped bytes of a request's frame, after the start byte. */
  function Body(r: Request): seq<byte> {
    Head(r) + r.data + [255 - SumByte(Covered(r))]
  }

  lemma {:induction false} EscapedSpells(body: seq<byte>)
    ensures Spells(EscapeAll(body), body)
  {
    if body != [] {
      EscapedSpells(body[1..]);
      var wire := EscapeAll(body);
      assert wire[|Escaped(body[0])|..] == EscapeAll(body[1..]);
    }
  }

  lemma {:induction false} TotalIsSum(s: seq<byte>)
    ensures Total(s) == Sum(s)
  {
    if s != [] {
      TotalIsSum(s[1..]);
      assert s == [s[0]] + s[1..];
      SumConcat([s[0]], s[1..]);
      SumAppend([], s[0]);
      assert [] + [s[0]] == [s[0]];
    }
  }

  lemma ChecksumFits(covered: seq<byte>)
    ensures Total(covered + [255 - SumByte(covered)]) % 256 == 0xff
  {
    TotalIsSum(covered + [255 - SumByte(covered)]);
    SumAppend(covered, 255 - SumByte(covered));
    hide Total, Sum;
  }

  lemma HeadLength(r: Request)
    requires |r.data| + 2 < 0x1_0000
    ensures Length(Head(r)[0], Head(r)[1]) == |r.data| + 2
  {}

  /** What a reader of the format finds in the frame of a request: its api id, its frame id and its data. */
  lemma FrameCarries(r: Request)
    requires |r.data| + 2 < 0x1_0000
    ensures Carries(Wire(Body(r)), [r.apiId, r.frameId] + r.data)
  {
    var body, wire, covered := Body(r), Wire(Body(r)), Covered(r);
    EscapedSpells(body);
    HeadLength(r);
    ChecksumFits(covered);
    assert wire[1..] == EscapeAll(body);
    assert body[2..] == covered + [255 - SumByte(covered)];
    assert body[2..|body| - 1] == covered;
    assert body[0] == Head(r)[0] && body[1] == Head(r)[1];
    hide Total, Sum, SumByte, Spells, EscapeAll, Length, Head;
    assert IsFrame(wire, body);
  }

  /** The serial port that send writes to. */
  class SerialOut {
    var tx: seq<byte>

    constructor ()
      ensures tx == []
    {
      tx := [];
    }

    method SendByte(b: byte, escape: bool)
      modifies this
      ensures tx == old(tx) + if escape then Escaped(b) else [b]
    {
      if escape && (b == START_BYTE || b == ESCAPE || b == XON || b == XOFF) {
        tx := tx + [ESCAPE];
        tx := tx + [Flip(b)];
      } else {
        tx := tx + [b];
      }
    }

    /** One escaped byte of a frame of which `sent` has been written since tx was `before`. */
    method SendNext(b: byte, ghost before: seq<byte>, ghost sent: seq<byte>)
      requires tx == before + Wire(sent)
      modifies this
      ensures tx == before + Wire(sent + [b])
    {
      EscapeAllSnoc(sent, b);
      SendByte(b, true);
    }

    method SendHead(request: Request)
      modifies this
      ensures tx == old(tx) + Wire(Head(request))
    {
      SendByte(START_BYTE, false);
      var msbLen := (|request.data| + 2) / 256 % 256;
      var lsbLen := (|request.data| + 2) % 256;
      SendNext(msbLen, old(tx), []);
      SendNext(lsbLen, old(tx), [] + [msbLen]);
      SendNext(request.apiId, old(tx), [] + [msbLen] + [lsbLen]);
      SendNext(request.frameId, old(tx), [] + [msbLen] + [lsbLen] + [request.apiId]);
      assert [] + [msbLen] + [lsbLen] + [request.apiId] + [request.frameId] == Head(request);
    }

    /** The data loop of send, which also accumulates the checksum. */
    method SendData(request: Request, ghost before: seq<byte>) returns (checksum: byte)
      requires tx == before + Wire(Head(request))
      modifies this
      ensures tx == before + Wire(Head(request) + request.data)
      ensures checksum == SumByte(Covered(request))
    {
      hide Wire, EscapeAll, Escaped, Sum, AddByte;
      var data := request.data;
      checksum := 0;
      checksum := AddByte(checksum, request.apiId);
      checksum := AddByte(checksum, request.frameId);
      ghost var ids := [request.apiId, request.frameId];
      SumByteOfPair(request.apiId, request.frameId);
      assert ids + data[..0] == ids && Head(request) + data[..0] == Head(request);
      for i := 0 to |data|
        invariant tx == before + Wire(Head(request) + data[..i])
        invariant checksum == SumByte(ids + data[..i])
      {
        assert ids + data[..i + 1] == (ids + data[..i]) + [data[i]];
        assert Head(request) + data[..i + 1] == (Head(request) + data[..i]) + [data[i]];
        SumByteAppend(ids + data[..i], data[i]);
        SendNext(data[i], before, Head(request) + data[..i]);
        checksum := AddByte(checksum, data[i]);
      }
      assert data[..|data|] == data;
    }

    /** send writes a start byte and then the escaped bytes of the frame, which carries the request. */
    method Send(request: Request)
      requires request.Valid()
      modifies this
      ensures tx == old(tx) + Wire(Body(request))
      ensures Carries(tx[|old(tx)|..], [request.apiId, request.frameId] + request.data)
    {
      SendHead(request);
      var checksum := SendData(request, old(tx));
      SendNext(255 - checksum, old(tx), Head(request) + request.data);
      FrameCarries(request);
      assert tx[|old(tx)|..] == Wire(Body(request));
    }
  }
}
