// Partial-block reads of Sd2Card.cpp: an open block and a moving offset act as a read cache over
// the card, which should be clocked through the whole block before it takes another command.

/** The card as the SPI bus shows it. */
module SdCardBus {

  type byte = x: int | 0 <= x < 256

  const BLOCK: nat := 512
  const FRAME: nat := 514  // a block and its two CRC bytes

  /** clocked counts the bytes of the open block that have been clocked out, extra the bytes that were
      clocked for when no block could take them, and strayed the commands that came inside a block;
      such a command ends the block. */
  datatype Bus = Bus(blocks: seq<seq<byte>>, crc: seq<byte>, selected: bool, reading: bool, open: nat, clocked: nat,
                     extra: nat, strayed: nat) {
    ghost predicate Valid() {
      && (forall b | b in blocks :: |b| == BLOCK) && |crc| == FRAME - BLOCK
      && (reading ==> open < |blocks| && clocked < FRAME)
    }
  }

  function Select(b: Bus, low: bool): Bus {
    b.(selected := low)
  }

  /** The byte that the card shifts out n clocks from now: idle, unless it is selected and in a block. */
  function ByteAt(b: Bus, n: nat): byte
    requires b.Valid()
  {
    if b.selected && b.reading && b.clocked + n < FRAME then
      (if b.clocked + n < BLOCK then b.blocks[b.open][b.clocked + n] else b.crc[b.clocked + n - BLOCK])
    else 0xff
  }

  function Sent(b: Bus, n: nat): (s: seq<byte>)
    requires b.Valid()
    ensures |s| == n
  {
    seq(n, i requires 0 <= i < n => ByteAt(b, i))
  }

  /** After n bytes. Only a selected card moves, and it leaves the block after its 514th byte. */
  function Clocked(b: Bus, n: nat): (r: Bus)
    requires b.Valid()
    ensures r.Valid() && r.blocks == b.blocks && r.crc == b.crc && r.selected == b.selected && r.strayed == b.strayed
  {
    if b.selected && b.reading then
      (if b.clocked + n < FRAME then b.(clocked := b.clocked + n)
       else b.(clocked := FRAME, reading := false, extra := b.extra + (b.clocked + n - FRAME)))
    else b.(extra := b.extra + n)
  }

  function Command(b: Bus): Bus {
    b.(reading := false, strayed := b.strayed + if b.reading then 1 else 0)
  }

  function StartBlock(b: Bus, block: nat): Bus {
    b.(reading := true, open := block, clocked := 0)
  }

  function Program(b: Bus, block: nat, data: seq<byte>): Bus
    requires block < |b.blocks|
  {
    b.(blocks := b.blocks[block := data])
  }

  lemma ClockedTwice(b: Bus, m: nat, n: nat)
    requires b.Valid()
    ensures Clocked(Clocked(b, m), n) == Clocked(b, m + n)
    ensures ByteAt(Clocked(b, m), n) == ByteAt(b, m + n)
  {}

  lemma SentNext(b: Bus, n: nat)
    requires b.Valid()
    ensures Sent(b, n + 1) == Sent(b, n) + [ByteAt(b, n)]
  {}

  /** The argument of a command frame: its second to fifth byte, the high one first. */
  function Argument(frame: seq<byte>): nat
    requires |frame| == 6
  {
    frame[1] as int * 0x100_0000 + frame[2] as int * 0x1_0000 + frame[3] as int * 0x100 + frame[4]
  }

  class Card {
    var bus: Bus
    /** What the card has been sent of a command frame or a data block, and the argument of the last command. */
    var inbox: seq<byte>
    var argument: nat

    constructor (bus: Bus)
      requires bus.Valid()
      ensures this.bus == bus
    {
      this.bus := bus;
      inbox, argument := [], 0;
    }

    /** spiSend: only a selected card takes the byte. */
    method Receive(b: byte)
      modifies this`inbox
      ensures inbox == old(inbox) + if bus.selected then [b] else []
    {
      if bus.selected {
        inbox := inbox + [b];
      }
    }

    /** The card carries out the command that it has been sent. */
    method Execute()
      requires |inbox| == 6
      modifies this
      ensures bus == Command(old(bus)) && argument == Argument(old(inbox)) && inbox == []
    {
      bus, argument := Command(bus), Argument(inbox);
      inbox := [];
    }

    /** The card programs what it has been sent, without the token and the checksum, into the block. */
    method Burn(block: nat)
      requires |inbox| == BLOCK + 3 && block < |bus.blocks|
      modifies this
      ensures bus == Program(old(bus), block, old(inbox[1..BLOCK + 1])) && inbox == []
    {
      bus := Program(bus, block, inbox[1..BLOCK + 1]);
      inbox := [];
    }

    /** spiRec: eight clocks. */
    method Clock() returns (b: byte)
      requires bus.Valid()
      modifies this
      ensures bus == Clocked(old(bus), 1) && b == ByteAt(old(bus), 0)
    {
      b := 0xff;
      if bus.selected && bus.reading {
        b := if bus.clocked < BLOCK then bus.blocks[bus.open][bus.clocked] else bus.crc[bus.clocked - BLOCK];
        bus := bus.(clocked := bus.clocked + 1, reading := bus.clocked + 1 < FRAME);
      } else {
        bus := bus.(extra := bus.extra + 1);
      }
    }
  }
}

/** What the operations of the driver do to the driver and the card together. */
module SdCardSteps {
  import opened SdCardBus

  type uint16 = x: int | 0 <= x < 0x1_0000
  type uint32 = x: int | 0 <= x < 0x1_0000_0000

  const SD_CARD_ERROR_CMD17: byte := 0x3
  const SD_CARD_ERROR_CMD24: byte := 0x4
  const SD_CARD_ERROR_READ: byte := 0xd
  const SD_CARD_ERROR_READ_TIMEOUT: byte := 0xf
  const SD_CARD_ERROR_WRITE: byte := 0x11
  const SD_CARD_ERROR_WRITE_BLOCK_ZERO: byte := 0x12
  const SD_CARD_ERROR_WRITE_PROGRAMMING: byte := 0x14
  const SD_CARD_ERROR_WRITE_TIMEOUT: byte := 0x15

  /** What the card answers to a read: its response to CMD17, then its token. */
  datatype ReadReply = ReadRejected | TokenTimeout | ErrorToken | DataStart

  /** What the card answers to a write, and what the block holds when that is not what was sent. */
  datatype WriteReply = WriteRejected | DataRejected
                      | ProgramTimeout(left: seq<byte>) | ProgramError(left: seq<byte>) | Programmed

  datatype Operation =
    | Read(block: uint32, offset: uint16, count: uint16, readReply: ReadReply)
    | Write(block: uint32, data: seq<byte>, writeReply: WriteReply)
    | Mode(value: bool)

  datatype Sd = Sd(bus: Bus, inBlock: bool, offset: uint16, block: uint32, partial: bool, sdhc: bool, error: byte)

  /** What never changes: how many blocks there are, and how they are addressed. */
  datatype Kind = Kind(blocks: nat, sdhc: bool)

  function KindOf(s: Sd): Kind {
    Kind(|s.bus.blocks|, s.sdhc)
  }

  /** What a call returns: success, and the bytes read. */
  datatype Outcome = Outcome(ok: bool, data: seq<byte>)

  const FAILED := Outcome(false, [])

  /** The guard of readData, a 16-bit sum: an unsigned int has 16 bits on the AVR. */
  predicate Refused(offset: uint16, count: uint16) {
    (count + offset) % 0x1_0000 > BLOCK
  }

  /** The guard lets a range through if and only if it is inside the block or its end wraps around. */
  lemma GuardPasses(offset: uint16, count: uint16)
    ensures !Refused(offset, count) <==> offset + count <= BLOCK || 0x1_0000 <= offset + count <= 0x1_0000 + BLOCK
  {}

  /** The block a command reaches: cards other than SDHC are addressed by byte, in 32 bits. */
  function Addressed(block: uint32, sdhc: bool): nat {
    if sdhc then block else block * 512 % 0x1_0000_0000 / 512
  }

  lemma AddressedIsBlock(block: uint32, sdhc: bool)
    ensures Addressed(block, sdhc) == block <==> sdhc || block < 0x80_0000
  {}

  /** The block exists. */
  predicate Exists(kind: Kind, block: uint32) {
    Addressed(block, kind.sdhc) < kind.blocks
  }

  /** readEnd: clocks to the 514th byte, as far as the driver knows, and deselects. */
  function Ended(s: Sd): (r: Sd)
    requires s.bus.Valid()
    ensures r.bus.Valid() && !r.inBlock && KindOf(r) == KindOf(s)
  {
    if !s.inBlock then s
    else
      s.(bus := Select(Clocked(s.bus, if s.offset < FRAME then FRAME - s.offset else 0), false),
         inBlock := false, offset := ((if s.offset < FRAME then FRAME else s.offset) + 1) % 0x1_0000)
  }

  /** cardCommand, up to the card's response. */
  function Commanded(s: Sd): (r: Sd)
    requires s.bus.Valid()
    ensures r.bus.Valid() && !r.inBlock && KindOf(r) == KindOf(s)
  {
    var e := Ended(s);
    e.(bus := Command(Select(e.bus, true)))
  }

  /** readData must open a block: none is open, or not this one, or it is already past the offset. */
  predicate MustOpen(s: Sd, block: uint32, offset: uint16) {
    !s.inBlock || block != s.block || offset < s.offset
  }

  function ErrorOf(reply: ReadReply): byte {
    match reply
    case ReadRejected => SD_CARD_ERROR_CMD17
    case TokenTimeout => SD_CARD_ERROR_READ_TIMEOUT
    case _ => SD_CARD_ERROR_READ
  }

  /** CMD17 and the wait for the start token. */
  function Opened(s: Sd, block: uint32, reply: ReadReply): (r: Sd)
    requires s.bus.Valid() && (reply == DataStart ==> Exists(KindOf(s), block))
    ensures KindOf(r) == KindOf(s) && r.bus.Valid() && r.inBlock == (reply == DataStart) && (r.inBlock ==> r.offset == 0)
  {
    var c := Commanded(s.(block := block));
    if reply == DataStart then c.(bus := StartBlock(c.bus, Addressed(block, s.sdhc)), offset := 0, inBlock := true)
    else c.(bus := Select(c.bus, false), error := ErrorOf(reply))
  }

  /** The two loops of readData and what follows them: skip to the offset, transfer, and close the
      block unless more of it may be wanted. */
  function Served(s: Sd, offset: uint16, count: uint16): (r: (Sd, Outcome))
    requires s.bus.Valid() && s.offset <= offset
    ensures r.0.bus.Valid() && KindOf(r.0) == KindOf(s)
  {
    var t := Clocked(s.bus, offset - s.offset);
    var u := s.(bus := Clocked(t, count), offset := (offset + count) % 0x1_0000);
    (if !u.partial || u.offset >= BLOCK then Ended(u) else u, Outcome(true, Sent(t, count)))
  }

  function ReadStep(s: Sd, block: uint32, offset: uint16, count: uint16, reply: ReadReply): (r: (Sd, Outcome))
    requires s.bus.Valid() && (reply == DataStart ==> Exists(KindOf(s), block))
    ensures r.0.bus.Valid() && KindOf(r.0) == KindOf(s)
  {
    if count == 0 then (s, Outcome(true, []))
    else if Refused(offset, count) then (s.(bus := Select(s.bus, false)), FAILED)
    else
      var o := if MustOpen(s, block, offset) then Opened(s, block, reply) else s;
      if o.inBlock then Served(o, offset, count) else (o, FAILED)
  }

  /** The block a write changes, and what it then holds. */
  function Stored(reply: WriteReply, data: seq<byte>, before: seq<byte>): seq<byte> {
    match reply
    case WriteRejected => before
    case DataRejected => before
    case ProgramTimeout(left) => left
    case ProgramError(left) => left
    case Programmed => data
  }

  function WriteError(reply: WriteReply, error: byte): byte {
    match reply
    case WriteRejected => SD_CARD_ERROR_CMD24
    case DataRejected => SD_CARD_ERROR_WRITE
    case ProgramTimeout(_) => SD_CARD_ERROR_WRITE_TIMEOUT
    case ProgramError(_) => SD_CARD_ERROR_WRITE_PROGRAMMING
    case Programmed => error
  }

  ghost predicate PossibleWrite(kind: Kind, block: uint32, data: seq<byte>, reply: WriteReply) {
    && |data| == BLOCK && (reply.ProgramTimeout? || reply.ProgramError? ==> |reply.left| == BLOCK)
    && (reply != WriteRejected ==> Exists(kind, block))
  }

  function WriteStep(s: Sd, block: uint32, data: seq<byte>, reply: WriteReply): (r: (Sd, Outcome))
    requires s.bus.Valid() && PossibleWrite(KindOf(s), block, data, reply)
    ensures r.0.bus.Valid() && KindOf(r.0) == KindOf(s)
  {
    if block == 0 then (s.(bus := Select(s.bus, false), error := SD_CARD_ERROR_WRITE_BLOCK_ZERO), FAILED)
    else
      var c := Commanded(s);
      var at := Addressed(block, s.sdhc);
      var bus := if reply == WriteRejected then c.bus else Program(c.bus, at, Stored(reply, data, c.bus.blocks[at]));
      (c.(bus := Select(bus, false), error := WriteError(reply, c.error)), Outcome(reply == Programmed, []))
  }

  /** The replies are possible ones of such a card. */
  ghost predicate Possible(kind: Kind, op: Operation) {
    match op
    case Read(block, _, _, reply) => reply == DataStart ==> Exists(kind, block)
    case Write(block, data, reply) => PossibleWrite(kind, block, data, reply)
    case Mode(_) => true
  }

  ghost function Step(s: Sd, op: Operation): (r: (Sd, Outcome))
    requires s.bus.Valid() && Possible(KindOf(s), op)
    ensures r.0.bus.Valid() && KindOf(r.0) == KindOf(s)
  {
    match op
    case Read(block, offset, count, reply) => ReadStep(s, block, offset, count, reply)
    case Write(block, data, reply) => WriteStep(s, block, data, reply)
    case Mode(value) => (Ended(s).(partial := value), Outcome(true, []))
  }
}

/** The driver itself. */
module SdCardDriver {
  import opened SdCardBus
  import opened SdCardSteps

  lemma EndedClosed(s: Sd)
    requires s.bus.Valid() && !s.inBlock
    ensures Ended(s) == s
  {}

  lemma SameBlock(blocks: seq<seq<byte>>, at: nat)
    requires at < |blocks|
    ensures blocks[at := blocks[at]] == blocks
  {}

  /** arg >> s, as a byte. */
  function ShiftedRight(arg: uint32, s: int): byte
    requires s == 0 || s == 8 || s == 16 || s == 24
  {
    (if s == 24 then arg / 0x100_0000 else if s == 16 then arg / 0x1_0000 else if s == 8 then arg / 0x100 else arg) % 256
  }

  function ArgumentBytes(arg: uint32): seq<byte> {
    [ShiftedRight(arg, 24), ShiftedRight(arg, 16), ShiftedRight(arg, 8), ShiftedRight(arg, 0)]
  }

  lemma Halved(arg: uint32)
    ensures arg / 0x1_0000 == arg / 0x100 / 0x100 && arg / 0x100_0000 == arg / 0x1_0000 / 0x100 < 0x100
  {}

  lemma ArgumentArrives(first: byte, arg: uint32, last: byte)
    ensures Argument([first] + ArgumentBytes(arg) + [last]) == arg
  {
    var frame := [first] + ArgumentBytes(arg) + [last];
    var b, c, d := arg / 0x100, arg / 0x1_0000, arg / 0x100_0000;
    Halved(arg);
    assert arg == 0x100 * b + frame[4] && b == 0x100 * c + frame[3] && c == 0x100 * d + frame[2] && d == frame[1];
  }

  const CMD13: byte := 0x0d
  const CMD17: byte := 0x11
  const CMD24: byte := 0x18
  const DATA_START_BLOCK: byte := 0xfe

  class Sd2Card {
    const card: Card
    var inBlock: bool
    var offset: uint16
    var block: uint32
    var partialBlockRead: bool
    var sdhc: bool
    var errorCode: byte

    function View(): Sd
      reads this, card
    {
      Sd(card.bus, inBlock, offset, block, partialBlockRead, sdhc, errorCode)
    }

    constructor (card: Card, sdhc: bool)
      requires card.bus.Valid()
      ensures this.card == card && View() == Sd(card.bus, false, 0, 0, false, sdhc, 0)
    {
      this.card, this.sdhc := card, sdhc;
      inBlock, partialBlockRead, offset, block, errorCode := false, false, 0, 0, 0;
    }

    method ChipSelect(low: bool)
      requires card.bus.Valid()
      modifies card
      ensures card.bus == Select(old(card.bus), low)
    {
      card.bus := card.bus.(selected := low);
    }

    /** readEnd. */
    method ReadEnd()
      requires card.bus.Valid()
      modifies this`inBlock, this`offset, card
      ensures View() == Ended(old(View()))
    {
      if inBlock {
        ghost var from := offset;
        while offset < FRAME
          invariant from <= offset && (offset <= FRAME || offset == from)
          invariant card.bus == Clocked(old(card.bus), offset - from)
        {
          ClockedTwice(old(card.bus), offset - from, 1);
          offset := offset + 1;
          var _ := card.Clock();
        }
        offset := (offset + 1) % 0x1_0000;
        ChipSelect(false);
        inBlock := false;
      }
    }

    /** partialBlockRead. */
    method SetPartialBlockRead(value: bool)
      requires card.bus.Valid()
      modifies this, card
      ensures (View(), Outcome(true, [])) == Step(old(View()), Mode(value))
    {
      ReadEnd();
      partialBlockRead := value;
    }

    /** A command frame: command, argument and checksum, byte by byte. */
    method SendFrame(cmd: byte, arg: uint32)
      requires card.bus.selected && card.inbox == [] && cmd < 64
      modifies card`inbox
      ensures |card.inbox| == 6 && Argument(card.inbox) == arg
    {
      card.Receive(cmd + 0x40);
      var s := 24;
      while s >= 0
        invariant -8 <= s <= 24 && s % 8 == 0
        invariant card.inbox == [cmd + 0x40] + ArgumentBytes(arg)[..3 - s / 8]
      {
        card.Receive(ShiftedRight(arg, s));
        assert ArgumentBytes(arg)[..4 - s / 8] == ArgumentBytes(arg)[..3 - s / 8] + [ArgumentBytes(arg)[3 - s / 8]];
        s := s - 8;
      }
      card.Receive(0xff);
      ArgumentArrives(cmd + 0x40, arg, 0xff);
      assert card.inbox == [cmd + 0x40] + ArgumentBytes(arg) + [0xff];
    }

    /** cardCommand, up to the card's response. */
    method CardCommand(cmd: byte, arg: uint32)
      requires card.bus.Valid() && cmd < 64
      modifies this`inBlock, this`offset, card
      ensures View() == Commanded(old(View())) && card.argument == arg && card.inbox == []
    {
      ReadEnd();
      ChipSelect(true);
      card.inbox := [];
      SendFrame(cmd, arg);
      card.Execute();
    }

    /** writeData: token, block and a dummy checksum, byte by byte. */
    method WriteData(token: byte, src: seq<byte>)
      requires card.bus.selected && |src| == BLOCK
      modifies card`inbox
      ensures card.inbox == old(card.inbox) + [token] + src + [0xff, 0xff]
    {
      card.Receive(token);
      for i := 0 to BLOCK
        invariant card.inbox == old(card.inbox) + [token] + src[..i]
      {
        card.Receive(src[i]);
        assert src[..i + 1] == src[..i] + [src[i]];
      }
      assert src[..BLOCK] == src;
      card.Receive(0xff);
      card.Receive(0xff);
    }

    /** The address of a command. */
    function Address(block: uint32): uint32
      reads this
    {
      if sdhc then block else block * 512 % 0x1_0000_0000
    }

    /** The block that the card finds under the argument of the last command. */
    function Reached(): nat
      reads this, card
    {
      if sdhc then card.argument else card.argument / 512
    }

    /** CMD17 and the wait for the start token. */
    method OpenBlock(block: uint32, reply: ReadReply) returns (ok: bool)
      requires card.bus.Valid() && (reply == DataStart ==> Addressed(block, sdhc) < |card.bus.blocks|)
      modifies this, card
      ensures View() == Opened(old(View()), block, reply) && ok == inBlock
    {
      this.block := block;
      var address := Address(block);
      CardCommand(CMD17, address);
      if reply == ReadRejected {
        errorCode := SD_CARD_ERROR_CMD17;
        ChipSelect(false);
        return false;
      }
      if reply == TokenTimeout {
        errorCode := SD_CARD_ERROR_READ_TIMEOUT;
        ChipSelect(false);
        return false;
      }
      if reply == ErrorToken {
        errorCode := SD_CARD_ERROR_READ;
        ChipSelect(false);
        return false;
      }
      card.bus := StartBlock(card.bus, Reached());
      offset := 0;
      inBlock := true;
      return true;
    }

    /** The two loops of readData: skip to the offset, then transfer. */
    method Transfer(offset: uint16, count: uint16, dst: array<byte>)
      requires card.bus.Valid() && this.offset <= offset && count <= dst.Length
      modifies this`offset, card, dst
      ensures this.offset == offset
      ensures var t := Clocked(old(card.bus), offset - old(this.offset));
              card.bus == Clocked(t, count) && dst[..count] == Sent(t, count)
      ensures dst[count..] == old(dst[count..])
    {
      ghost var from, before := this.offset, card.bus;
      while this.offset < offset
        invariant from <= this.offset <= offset && card.bus == Clocked(before, this.offset - from)
        invariant dst[..] == old(dst[..])
      {
        ClockedTwice(before, this.offset - from, 1);
        var _ := card.Clock();
        this.offset := this.offset + 1;
      }
      ghost var t := card.bus;
      for i := 0 to count
        invariant this.offset == offset && card.bus == Clocked(t, i) && dst[..i] == Sent(t, i)
        invariant dst[count..] == old(dst[count..])
      {
        ClockedTwice(t, i, 1);
        ClockedTwice(t, i, 0);
        SentNext(t, i);
        dst[i] := card.Clock();
        assert dst[..i + 1] == dst[..i] + [dst[i]];
      }
    }

    /** readData. */
    method ReadData(block: uint32, offset: uint16, count: uint16, dst: array<byte>, reply: ReadReply) returns (ok: bool)
      requires card.bus.Valid() && count <= dst.Length && Possible(KindOf(View()), Read(block, offset, count, reply))
      modifies this, card, dst
      ensures var (s, outcome) := Step(old(View()), Read(block, offset, count, reply));
              View() == s && ok == outcome.ok && dst[..|outcome.data|] == outcome.data
              && dst[|outcome.data|..] == old(dst[..])[|outcome.data|..]
    {
      hide Clocked, Sent, Ended, Opened, ByteAt;
      if count == 0 {
        return true;
      }
      if Refused(offset, count) {
        ChipSelect(false);
        return false;
      }
      if !inBlock || block != this.block || offset < this.offset {
        ok := OpenBlock(block, reply);
        if !ok {
          return false;
        }
      }
      Transfer(offset, count, dst);
      this.offset := (this.offset + count) % 0x1_0000;
      if !partialBlockRead || this.offset >= BLOCK {
        ReadEnd();
      }
      return true;
    }

    /** readBlock. */
    method ReadBlock(block: uint32, dst: array<byte>, reply: ReadReply) returns (ok: bool)
      requires card.bus.Valid() && BLOCK <= dst.Length && Possible(KindOf(View()), Read(block, 0, 512, reply))
      modifies this, card, dst
      ensures var (s, outcome) := Step(old(View()), Read(block, 0, 512, reply));
              View() == s && ok == outcome.ok && dst[..|outcome.data|] == outcome.data
    {
      ok := ReadData(block, 0, 512, dst, reply);
    }

    /** writeBlock. */
    method WriteBlock(block: uint32, src: seq<byte>, reply: WriteReply) returns (ok: bool)
      requires card.bus.Valid() && Possible(KindOf(View()), Write(block, src, reply))
      modifies this, card
      ensures (View(), Outcome(ok, [])) == Step(old(View()), Write(block, src, reply))
    {
      hide Ended;
      if block == 0 {
        errorCode := SD_CARD_ERROR_WRITE_BLOCK_ZERO;
        ChipSelect(false);
        return false;
      }
      var address := Address(block);
      CardCommand(CMD24, address);
      ghost var c := View();
      var at := Reached();
      if reply != WriteRejected {
        WriteData(DATA_START_BLOCK, src);
        SameBlock(c.bus.blocks, at);
        assert card.inbox[1..BLOCK + 1] == src;
      }
      match reply {
        case WriteRejected =>
          errorCode := SD_CARD_ERROR_CMD24;
        case DataRejected =>
          errorCode := SD_CARD_ERROR_WRITE;
        case ProgramTimeout(left) =>
          card.bus := Program(card.bus, at, left);
          errorCode := SD_CARD_ERROR_WRITE_TIMEOUT;
        case ProgramError(left) =>
          card.bus := Program(card.bus, at, left);
          EndedClosed(View());
          CardCommand(CMD13, 0);
          errorCode := SD_CARD_ERROR_WRITE_PROGRAMMING;
        case Programmed =>
          card.Burn(at);
          EndedClosed(View());
          CardCommand(CMD13, 0);
      }
      ChipSelect(false);
      return reply == Programmed;
    }
  }
}
