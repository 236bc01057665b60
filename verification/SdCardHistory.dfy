/** Every history of reads, writes and mode changes, for every way the card replies. */
module SdCardHistory {
  import opened SdCardBus
  import opened SdCardSteps

  ghost predicate AllPossible(s: Sd, ops: seq<Operation>) {
    forall op | op in ops :: Possible(KindOf(s), op)
  }

  ghost function Run(s: Sd, ops: seq<Operation>): (r: Sd)
    requires s.bus.Valid() && AllPossible(s, ops)
    ensures r.bus.Valid() && KindOf(r) == KindOf(s)
  {
    if ops == [] then s else Step(Run(s, ops[..|ops| - 1]), ops[|ops| - 1]).0
  }

  /** A driver that has just been started. */
  ghost predicate Fresh(s: Sd) {
    s.bus.Valid() && !s.bus.reading && !s.bus.selected && !s.inBlock
  }

  // ---- What a caller can see of an operation before it is made

  /** A range that the guard refuses, or a write to block 0: it deselects the card and does no more. */
  predicate Deselects(op: Operation) {
    match op
    case Read(_, offset, count, _) => count > 0 && Refused(offset, count)
    case Write(block, _, _) => block == 0
    case Mode(_) => false
  }

  /** A range whose end wraps around, past the guard. */
  predicate Wraps(op: Operation) {
    op.Read? && op.count > 0 && !Refused(op.offset, op.count) && op.offset + op.count > BLOCK
  }

  predicate SendsCommand(s: Sd, op: Operation) {
    match op
    case Read(block, offset, count, _) => count > 0 && !Refused(offset, count) && MustOpen(s, block, offset)
    case Write(block, _, _) => block != 0
    case Mode(_) => false
  }

  predicate Opens(s: Sd, op: Operation) {
    op.Read? && SendsCommand(s, op) && op.readReply == DataStart
  }

  /** The operation spoils the block that is open after it. */
  ghost predicate Hits(s: Sd, op: Operation)
    requires s.bus.Valid() && Possible(KindOf(s), op)
  {
    (Deselects(op) || Wraps(op)) && Step(s, op).0.inBlock
  }

  /** spoiled: the open block has been hit since it was opened. left: the card has been left inside a
      block that was sound, and no command has been sent since. */
  datatype Watch = Watch(spoiled: bool, left: bool)

  /** How an operation changes that. */
  ghost function Next(s: Sd, m: Watch, op: Operation): Watch
    requires s.bus.Valid() && Possible(KindOf(s), op)
  {
    Watch(Step(s, op).0.inBlock && (Hits(s, op) || (m.spoiled && !Opens(s, op))),
          !SendsCommand(s, op) && (m.left || (Deselects(op) && s.inBlock && !m.spoiled)))
  }

  ghost function Watched(s: Sd, ops: seq<Operation>): Watch
    requires s.bus.Valid() && AllPossible(s, ops)
  {
    if ops == [] then Watch(false, false)
    else
      var k := |ops| - 1;
      Next(Run(s, ops[..k]), Watched(s, ops[..k]), ops[k])
  }

  /** Operation j leaves open the block that was. */
  ghost predicate Kept(s: Sd, ops: seq<Operation>, j: nat)
    requires s.bus.Valid() && AllPossible(s, ops) && j < |ops|
  {
    var before := Run(s, ops[..j]);
    Step(before, ops[j]).0.inBlock && !Opens(before, ops[j])
  }

  /** Operation i hit the block that has been open ever since. */
  ghost predicate HitAt(s: Sd, ops: seq<Operation>, i: nat)
    requires s.bus.Valid() && AllPossible(s, ops) && i < |ops|
  {
    Hits(Run(s, ops[..i]), ops[i]) && forall j | i < j < |ops| :: Kept(s, ops, j)
  }

  lemma HitPrefix(s: Sd, ops: seq<Operation>, i: nat)
    requires s.bus.Valid() && AllPossible(s, ops) && i < |ops| - 1
    ensures HitAt(s, ops, i) <==> HitAt(s, ops[..|ops| - 1], i) && Kept(s, ops, |ops| - 1)
  {
    hide Step, Run, Opens, Hits;
    var k := |ops| - 1;
    forall j | 0 <= j < k
      ensures ops[..k][..j] == ops[..j]
      ensures Kept(s, ops[..k], j) == Kept(s, ops, j)
    {
      assert ops[..k][..j] == ops[..j];
    }
    hide Kept;
    assert ops[..k][..i] == ops[..i];
  }

  /** Spoiled means what it says. */
  lemma {:induction false} SpoiledIff(s: Sd, ops: seq<Operation>)
    requires s.bus.Valid() && AllPossible(s, ops)
    ensures Watched(s, ops).spoiled <==> exists i | 0 <= i < |ops| :: HitAt(s, ops, i)
  {
    hide Step, Hits, Opens, Run, HitAt;
    if ops != [] {
      var k := |ops| - 1;
      SpoiledIff(s, ops[..k]);
      forall i | 0 <= i < k
        ensures HitAt(s, ops, i) <==> HitAt(s, ops[..k], i) && Kept(s, ops, k)
      {
        HitPrefix(s, ops, i);
      }
      HitLast(s, ops);
    }
  }

  lemma HitLast(s: Sd, ops: seq<Operation>)
    requires s.bus.Valid() && AllPossible(s, ops) && ops != []
    ensures var k := |ops| - 1;
            && (HitAt(s, ops, k) <==> Hits(Run(s, ops[..k]), ops[k]))
            && (Hits(Run(s, ops[..k]), ops[k]) ==> Step(Run(s, ops[..k]), ops[k]).0.inBlock)
  {
    hide Step;
  }

  /** Operation i left the card inside a sound block, and no command has been sent since. */
  ghost predicate LeftAt(s: Sd, ops: seq<Operation>, i: nat)
    requires s.bus.Valid() && AllPossible(s, ops) && i < |ops|
  {
    && Deselects(ops[i]) && Run(s, ops[..i]).inBlock && !Watched(s, ops[..i]).spoiled
    && forall j | i < j < |ops| :: Silent(s, ops, j)
  }

  ghost predicate Silent(s: Sd, ops: seq<Operation>, j: nat)
    requires s.bus.Valid() && AllPossible(s, ops) && j < |ops|
  {
    !SendsCommand(Run(s, ops[..j]), ops[j])
  }

  lemma LeftPrefix(s: Sd, ops: seq<Operation>, i: nat)
    requires s.bus.Valid() && AllPossible(s, ops) && i < |ops| - 1
    ensures LeftAt(s, ops, i) <==> LeftAt(s, ops[..|ops| - 1], i) && Silent(s, ops, |ops| - 1)
  {
    hide Step, Run, Watched, SendsCommand, Deselects;
    var k := |ops| - 1;
    forall j | 0 <= j < k
      ensures ops[..k][..j] == ops[..j]
      ensures Silent(s, ops[..k], j) == Silent(s, ops, j)
    {
      assert ops[..k][..j] == ops[..j];
    }
    hide Silent;
    assert ops[..k][..i] == ops[..i];
  }

  /** Left means what it says. */
  lemma {:induction false} LeftIff(s: Sd, ops: seq<Operation>)
    requires s.bus.Valid() && AllPossible(s, ops)
    ensures Watched(s, ops).left <==> exists i | 0 <= i < |ops| :: LeftAt(s, ops, i)
  {
    hide Step, Hits, Opens, Run, LeftAt, SendsCommand;
    if ops != [] {
      var k := |ops| - 1;
      LeftIff(s, ops[..k]);
      forall i | 0 <= i < k
        ensures LeftAt(s, ops, i) <==> LeftAt(s, ops[..k], i) && Silent(s, ops, k)
      {
        LeftPrefix(s, ops, i);
      }
      LeftLast(s, ops);
    }
  }

  lemma LeftLast(s: Sd, ops: seq<Operation>)
    requires s.bus.Valid() && AllPossible(s, ops) && ops != []
    ensures var k := |ops| - 1;
            LeftAt(s, ops, k) <==> Deselects(ops[k]) && Run(s, ops[..k]).inBlock && !Watched(s, ops[..k]).spoiled
    ensures Deselects(ops[|ops| - 1]) ==> Silent(s, ops, |ops| - 1)
  {
    hide Step, Run, Watched;
  }

  // ---- What every operation keeps

  /** The open block and offset are the card's, unless the block is spoiled; then the card is deaf or
      done with it. Outside a block the card is deselected, and inside one only if it was left there. */
  ghost predicate Inv(s: Sd, m: Watch) {
    && s.bus.Valid()
    && (if s.inBlock then
          s.offset < BLOCK && Exists(KindOf(s), s.block) &&
          if m.spoiled then !(s.bus.selected && s.bus.reading)
          else s.bus.selected && s.bus.reading && s.bus.clocked == s.offset && s.bus.open == Addressed(s.block, s.sdhc)
        else !m.spoiled && !s.bus.selected)
    && (m.left <==> s.bus.reading && !(s.inBlock && !m.spoiled))
  }

  lemma EndedKeeps(s: Sd, m: Watch)
    requires Inv(s, m)
    ensures Inv(Ended(s), Watch(false, m.left)) && Ended(s).bus.strayed == s.bus.strayed
    ensures !m.spoiled ==> Ended(s).bus.extra == s.bus.extra
  {}

  /** A command comes inside a block if and only if the card was left there. */
  lemma CommandedKeeps(s: Sd, m: Watch)
    requires Inv(s, m)
    ensures var c := Commanded(s);
            c.bus.Valid() && !c.inBlock && !c.bus.reading && c.bus.selected
            && c.bus.strayed == s.bus.strayed + (if m.left then 1 else 0)
            && (!m.spoiled ==> c.bus.extra == s.bus.extra)
  {
    EndedKeeps(s, m);
  }

  lemma OpenedKeeps(s: Sd, m: Watch, block: uint32, reply: ReadReply)
    requires Inv(s, m) && (reply == DataStart ==> Exists(KindOf(s), block))
    ensures Inv(Opened(s, block, reply), Watch(false, false))
    ensures Opened(s, block, reply).bus.strayed == s.bus.strayed + if m.left then 1 else 0
    ensures !m.spoiled ==> Opened(s, block, reply).bus.extra == s.bus.extra
    ensures reply == DataStart ==> Opened(s, block, reply).block == block
  {
    assert Inv(s.(block := block), m) || s.inBlock;
    CommandedAnyBlock(s, m, block);
    hide Commanded;
  }

  lemma CommandedAnyBlock(s: Sd, m: Watch, block: uint32)
    requires Inv(s, m)
    ensures Commanded(s.(block := block)) == Commanded(s).(block := block)
    ensures var c := Commanded(s);
            c.bus.Valid() && !c.inBlock && !c.bus.reading && c.bus.selected
            && c.bus.strayed == s.bus.strayed + (if m.left then 1 else 0)
            && (!m.spoiled ==> c.bus.extra == s.bus.extra)
  {
    CommandedKeeps(s, m);
  }

  lemma ServedKeeps(s: Sd, m: Watch, offset: uint16, count: uint16)
    requires Inv(s, m) && s.inBlock && s.offset <= offset && count > 0 && !Refused(offset, count)
    ensures var t := Served(s, offset, count).0;
            && Inv(t, Watch(t.inBlock && (m.spoiled || offset + count > BLOCK), m.left))
            && t.bus.strayed == s.bus.strayed
            && (!m.spoiled && offset + count <= BLOCK ==> t.bus.extra == s.bus.extra)
  {
    GuardPasses(offset, count);
    hide Refused;
  }

  /** What an operation keeps, and when it sends a command inside a block. */
  ghost predicate Keeps(s: Sd, m: Watch, op: Operation)
    requires s.bus.Valid() && Possible(KindOf(s), op)
  {
    && Inv(Step(s, op).0, Next(s, m, op))
    && Step(s, op).0.bus.strayed == s.bus.strayed + (if m.left && SendsCommand(s, op) then 1 else 0)
    && (!m.spoiled && !Wraps(op) ==> Step(s, op).0.bus.extra == s.bus.extra)
  }

  lemma ReadKeeps(s: Sd, m: Watch, block: uint32, offset: uint16, count: uint16, reply: ReadReply)
    requires Inv(s, m) && Possible(KindOf(s), Read(block, offset, count, reply))
    ensures Keeps(s, m, Read(block, offset, count, reply))
  {
    hide Refused;
    if count > 0 && !Refused(offset, count) {
      hide Opened, Served;
      if MustOpen(s, block, offset) {
        OpenedKeeps(s, m, block, reply);
        if reply == DataStart {
          ServedKeeps(Opened(s, block, reply), Watch(false, false), offset, count);
        }
      } else {
        ServedKeeps(s, m, offset, count);
      }
    }
  }

  lemma WriteKeeps(s: Sd, m: Watch, block: uint32, data: seq<byte>, reply: WriteReply)
    requires Inv(s, m) && Possible(KindOf(s), Write(block, data, reply))
    ensures Keeps(s, m, Write(block, data, reply))
  {
    CommandedKeeps(s, m);
    hide Commanded, Stored, WriteError;
  }

  lemma StepKeeps(s: Sd, m: Watch, op: Operation)
    requires Inv(s, m) && Possible(KindOf(s), op)
    ensures Keeps(s, m, op)
  {
    match op
    case Mode(_) => EndedKeeps(s, m);
    case Write(block, data, reply) =>
      hide Keeps;
      WriteKeeps(s, m, block, data, reply);
    case Read(block, offset, count, reply) =>
      hide Keeps;
      ReadKeeps(s, m, block, offset, count, reply);
  }

  lemma {:induction false} HistoryKeeps(s: Sd, ops: seq<Operation>)
    requires Fresh(s) && AllPossible(s, ops)
    ensures Inv(Run(s, ops), Watched(s, ops))
  {
    hide Step, Hits, Inv;
    FreshInv(s);
    if ops != [] {
      var k := |ops| - 1;
      HistoryKeeps(s, ops[..k]);
      StepKeeps(Run(s, ops[..k]), Watched(s, ops[..k]), ops[k]);
    }
  }

  lemma FreshInv(s: Sd)
    requires Fresh(s)
    ensures Inv(s, Watch(false, false))
  {}

  // ---- The two results

  /** The bytes of the range in the block that a read should reach. */
  function Current(s: Sd, block: uint32, offset: uint16, count: uint16): seq<byte>
    requires s.bus.Valid() && Exists(KindOf(s), block) && offset + count <= BLOCK
  {
    s.bus.blocks[Addressed(block, s.sdhc)][offset..offset + count]
  }

  function Idle(count: nat): seq<byte> {
    seq(count, _ => 0xff)
  }

  lemma SentInBlock(b: Bus, skip: nat, count: nat)
    requires b.Valid() && b.selected && b.reading && b.clocked + skip + count <= BLOCK
    ensures Sent(Clocked(b, skip), count) == b.blocks[b.open][b.clocked + skip..b.clocked + skip + count]
  {}

  lemma SentIdle(b: Bus, skip: nat, count: nat)
    requires b.Valid() && !(b.selected && b.reading)
    ensures Sent(Clocked(b, skip), count) == Idle(count)
  {}

  lemma OpenedBlocks(s: Sd, block: uint32, reply: ReadReply)
    requires s.bus.Valid() && (reply == DataStart ==> Exists(KindOf(s), block))
    ensures Opened(s, block, reply).bus.blocks == s.bus.blocks
  {}

  lemma ServedSound(s: Sd, m: Watch, offset: uint16, count: uint16)
    requires Inv(s, m) && s.inBlock && !m.spoiled && s.offset <= offset && offset + count <= BLOCK
    ensures Exists(KindOf(s), s.block) && Served(s, offset, count).1 == Outcome(true, Current(s, s.block, offset, count))
  {
    hide Clocked, Sent, Ended;
    SentInBlock(s.bus, offset - s.offset, count);
  }

  lemma ServedSpoiled(s: Sd, m: Watch, offset: uint16, count: uint16)
    requires Inv(s, m) && s.inBlock && m.spoiled && s.offset <= offset && offset + count <= BLOCK
    ensures Served(s, offset, count).1 == Outcome(true, Idle(count))
  {
    hide Clocked, Sent, Ended;
    SentIdle(s.bus, offset - s.offset, count);
  }

  /** A read of a range inside the block, from a state that the operations keep. */
  lemma ReadFrom(s: Sd, m: Watch, block: uint32, offset: uint16, count: uint16, reply: ReadReply)
    requires Inv(s, m) && Possible(KindOf(s), Read(block, offset, count, reply)) && 0 < count && offset + count <= BLOCK
    ensures var outcome := Step(s, Read(block, offset, count, reply)).1;
            && (outcome.ok <==> MustOpen(s, block, offset) ==> reply == DataStart)
            && (outcome.ok ==>
                  Exists(KindOf(s), block) &&
                  outcome.data == if !MustOpen(s, block, offset) && m.spoiled then Idle(count) else Current(s, block, offset, count))
  {
    GuardPasses(offset, count);
    hide Refused;
    if MustOpen(s, block, offset) {
      if reply == DataStart {
        OpenedKeeps(s, m, block, reply);
        OpenedBlocks(s, block, reply);
        hide Opened, Inv, Served;
        ServedSound(Opened(s, block, reply), Watch(false, false), offset, count);
      }
    } else if m.spoiled {
      ServedSpoiled(s, m, offset, count);
    } else {
      ServedSound(s, m, offset, count);
      hide Served, Inv;
    }
  }

  /** After any history, a successful read inside the block returns its bytes as they are now, unless it
      is served from an open block that has been hit since it was opened: then it returns idle bytes. */
  lemma ReadsAgree(s: Sd, ops: seq<Operation>, block: uint32, offset: uint16, count: uint16, reply: ReadReply)
    requires Fresh(s) && AllPossible(s, ops) && Possible(KindOf(s), Read(block, offset, count, reply))
    requires 0 < count && offset + count <= BLOCK
    ensures var t := Run(s, ops);
            var outcome := Step(t, Read(block, offset, count, reply)).1;
            && (outcome.ok <==> MustOpen(t, block, offset) ==> reply == DataStart)
            && (outcome.ok ==>
                  Exists(KindOf(t), block) &&
                  outcome.data == if !MustOpen(t, block, offset) && Watched(s, ops).spoiled then Idle(count)
                                  else Current(t, block, offset, count))
  {
    HistoryKeeps(s, ops);
    hide Run, Watched, Step, Inv;
    ReadFrom(Run(s, ops), Watched(s, ops), block, offset, count, reply);
  }

  /** So a read agrees with random access if and only if its block is sound, or the range is all idle
      bytes anyway. */
  lemma ReadAgreesIff(s: Sd, ops: seq<Operation>, block: uint32, offset: uint16, count: uint16, reply: ReadReply)
    requires Fresh(s) && AllPossible(s, ops) && Possible(KindOf(s), Read(block, offset, count, reply))
    requires 0 < count && offset + count <= BLOCK
    requires Step(Run(s, ops), Read(block, offset, count, reply)).1.ok
    ensures var t := Run(s, ops);
            && Exists(KindOf(t), block)
            && (Step(t, Read(block, offset, count, reply)).1.data == Current(t, block, offset, count) <==>
                MustOpen(t, block, offset) || !Watched(s, ops).spoiled || Current(t, block, offset, count) == Idle(count))
  {
    hide Step, Run, Watched, Current;
    ReadsAgree(s, ops, block, offset, count, reply);
  }

  /** After any history, an operation sends a command inside a block, before its 514th byte, if and only
      if the card has been left there. */
  lemma CommandStraysIff(s: Sd, ops: seq<Operation>, op: Operation)
    requires Fresh(s) && AllPossible(s, ops) && Possible(KindOf(s), op)
    ensures Possible(KindOf(Run(s, ops)), op)
    ensures Step(Run(s, ops), op).0.bus.strayed != Run(s, ops).bus.strayed <==>
            Watched(s, ops).left && SendsCommand(Run(s, ops), op)
  {
    HistoryKeeps(s, ops);
    hide Step, Run, Watched, Inv, Hits;
    StepKeeps(Run(s, ops), Watched(s, ops), op);
  }

  /** Callers who stay inside the block and away from block 0 never meet either; and every block that is
      opened is clocked for its 514 bytes and not one more. */
  lemma {:induction false} CarefulIsSound(s: Sd, ops: seq<Operation>)
    requires Fresh(s) && AllPossible(s, ops)
    requires forall op | op in ops :: !Deselects(op) && !Wraps(op)
    ensures Watched(s, ops) == Watch(false, false) && Run(s, ops).bus.strayed == s.bus.strayed
    ensures Run(s, ops).bus.extra == s.bus.extra && (Run(s, ops).inBlock <==> Run(s, ops).bus.reading)
  {
    if ops != [] {
      var k := |ops| - 1;
      CarefulIsSound(s, ops[..k]);
      HistoryKeeps(s, ops[..k]);
      assert ops[k] in ops;
      hide Step;
      StepKeeps(Run(s, ops[..k]), Watched(s, ops[..k]), ops[k]);
    }
  }

  /** Success, and what a write leaves on the card: the block, if the card says it has programmed it; what
      the card says, if it failed at that; no change, if it did not come to that. No other block changes. */
  lemma WriteChangesOneBlock(s: Sd, block: uint32, data: seq<byte>, reply: WriteReply)
    requires s.bus.Valid() && PossibleWrite(KindOf(s), block, data, reply) && block != 0
    ensures var (t, outcome) := WriteStep(s, block, data, reply);
            && (outcome.ok <==> reply == Programmed) && !t.inBlock
            && var at := Addressed(block, s.sdhc);
               (forall i | 0 <= i < |s.bus.blocks| && i != at :: t.bus.blocks[i] == s.bus.blocks[i])
               && (reply == Programmed ==> t.bus.blocks[at] == data)
               && (reply.ProgramTimeout? || reply.ProgramError? ==> t.bus.blocks[at] == reply.left)
               && (reply == WriteRejected || reply == DataRejected ==> t.bus.blocks == s.bus.blocks)
  {
    CommandedBlocks(s);
    hide Commanded, Addressed;
  }

  lemma CommandedBlocks(s: Sd)
    requires s.bus.Valid()
    ensures Commanded(s).bus.blocks == s.bus.blocks
  {}

  /** Nothing else changes a block. */
  lemma OthersChangeNothing(s: Sd, op: Operation)
    requires s.bus.Valid() && Possible(KindOf(s), op) && !(op.Write? && op.block != 0)
    ensures Step(s, op).0.bus.blocks == s.bus.blocks && (op.Write? ==> !Step(s, op).1.ok)
  {
    hide WriteError, Stored, Commanded;
    match op
    case Write(_, _, _) =>
    case Mode(_) =>
    case Read(block, offset, count, reply) =>
      OpenedBlocks(s, block, reply);
      hide Opened, Served;
      if count > 0 && !Refused(offset, count) && (MustOpen(s, block, offset) ==> reply == DataStart) {
        ServedBlocks(if MustOpen(s, block, offset) then Opened(s, block, reply) else s, offset, count);
      }
  }

  lemma ServedBlocks(s: Sd, offset: uint16, count: uint16)
    requires s.bus.Valid() && s.offset <= offset
    ensures Served(s, offset, count).0.bus.blocks == s.bus.blocks
  {}

  /** A successful read leaves its block open, just behind the range, if and only if partial reads are wanted
      and the range ends before the block does. */
  lemma StaysOpenIff(s: Sd, m: Watch, block: uint32, offset: uint16, count: uint16, reply: ReadReply)
    requires Inv(s, m) && Possible(KindOf(s), Read(block, offset, count, reply)) && 0 < count && offset + count <= BLOCK
    requires Step(s, Read(block, offset, count, reply)).1.ok
    ensures var t := Step(s, Read(block, offset, count, reply)).0;
            && (t.inBlock <==> s.partial && offset + count < BLOCK)
            && (t.inBlock ==> t.block == block && t.offset == offset + count)
  {
    GuardPasses(offset, count);
    hide Refused, Clocked, Sent;
  }

  /** After any history, a read that follows another needs no command if and only if partial reads are wanted,
      and it goes on in the same block at or behind the end of the other. */
  lemma FollowsWithoutCommandIff(s: Sd, ops: seq<Operation>, first: Operation, next: Operation)
    requires Fresh(s) && AllPossible(s, ops) && Possible(KindOf(s), first) && Possible(KindOf(s), next)
    requires first.Read? && 0 < first.count && first.offset + first.count <= BLOCK && Step(Run(s, ops), first).1.ok
    requires next.Read? && 0 < next.count && next.offset + next.count <= BLOCK
    ensures !SendsCommand(Step(Run(s, ops), first).0, next) <==>
            Run(s, ops).partial && next.block == first.block && first.offset + first.count <= next.offset
  {
    HistoryKeeps(s, ops);
    GuardPasses(next.offset, next.count);
    hide Run, Step, Refused, Inv, Watched;
    StaysOpenIff(Run(s, ops), Watched(s, ops), first.block, first.offset, first.count, first.readReply);
  }

  /** The mode is the one that was asked for last. */
  lemma ModeIsKept(s: Sd, op: Operation)
    requires s.bus.Valid() && Possible(KindOf(s), op)
    ensures Step(s, op).0.partial == if op.Mode? then op.value else s.partial
    ensures op.Mode? ==> !Step(s, op).0.inBlock
  {
    hide Clocked, Sent, Refused;
  }

  // ---- What is written is what is read

  /** The operation cannot change the block at this place on the card. */
  predicate Spares(sdhc: bool, at: nat, op: Operation) {
    op.Write? && op.block != 0 ==>
      Addressed(op.block, sdhc) != at || op.writeReply == WriteRejected || op.writeReply == DataRejected
  }

  lemma StepSpares(s: Sd, op: Operation, at: nat)
    requires s.bus.Valid() && Possible(KindOf(s), op) && Spares(s.sdhc, at, op) && at < |s.bus.blocks|
    ensures Step(s, op).0.bus.blocks[at] == s.bus.blocks[at]
  {
    if op.Write? && op.block != 0 {
      WriteChangesOneBlock(s, op.block, op.data, op.writeReply);
      hide WriteStep, Addressed;
    } else {
      OthersChangeNothing(s, op);
    }
  }

  lemma {:induction false} RunSpares(s: Sd, ops: seq<Operation>, k: nat, at: nat)
    requires s.bus.Valid() && AllPossible(s, ops) && k <= |ops| && at < |s.bus.blocks|
    requires forall i | k <= i < |ops| :: Spares(s.sdhc, at, ops[i])
    ensures Run(s, ops).bus.blocks[at] == Run(s, ops[..k]).bus.blocks[at]
  {
    hide Step, Spares;
    if k == |ops| {
      assert ops[..k] == ops;
    } else {
      var n := |ops| - 1;
      RunSpares(s, ops[..n], k, at);
      assert ops[..n][..k] == ops[..k];
      StepSpares(Run(s, ops[..n]), ops[n], at);
    }
  }

  lemma RunTo(s: Sd, ops: seq<Operation>, k: nat)
    requires s.bus.Valid() && AllPossible(s, ops) && k < |ops|
    ensures Possible(KindOf(s), ops[k]) && Run(s, ops[..k + 1]) == Step(Run(s, ops[..k]), ops[k]).0
  {
    hide Step;
    assert ops[k] in ops;
    assert ops[..k + 1][..k] == ops[..k] && ops[..k + 1][k] == ops[k];
  }

  /** After any history in which this was the last write that could change the block, it holds the data. */
  lemma WrittenStays(s: Sd, ops: seq<Operation>, k: nat)
    requires s.bus.Valid() && AllPossible(s, ops) && k < |ops|
    requires ops[k].Write? && ops[k].writeReply == Programmed && ops[k].block != 0
    requires forall i | k < i < |ops| :: Spares(s.sdhc, Addressed(ops[k].block, s.sdhc), ops[i])
    ensures Addressed(ops[k].block, s.sdhc) < |s.bus.blocks|
    ensures Run(s, ops).bus.blocks[Addressed(ops[k].block, s.sdhc)] == ops[k].data
  {
    hide Run, WriteStep, ReadStep, Spares, Addressed;
    RunTo(s, ops, k);
    WriteChangesOneBlock(Run(s, ops[..k]), ops[k].block, ops[k].data, Programmed);
    RunSpares(s, ops, k + 1, Addressed(ops[k].block, s.sdhc));
  }

  /** And a successful read of it returns that data if and only if its block is sound, or the data is all
      idle bytes anyway. */
  lemma WrittenReadsBack(s: Sd, ops: seq<Operation>, k: nat, block: uint32, offset: uint16, count: uint16, reply: ReadReply)
    requires Fresh(s) && AllPossible(s, ops) && Possible(KindOf(s), Read(block, offset, count, reply)) && k < |ops|
    requires ops[k].Write? && ops[k].writeReply == Programmed && ops[k].block != 0
    requires Addressed(block, s.sdhc) == Addressed(ops[k].block, s.sdhc)
    requires forall i | k < i < |ops| :: Spares(s.sdhc, Addressed(block, s.sdhc), ops[i])
    requires 0 < count && offset + count <= BLOCK && Step(Run(s, ops), Read(block, offset, count, reply)).1.ok
    ensures |ops[k].data| == BLOCK
    ensures var t := Run(s, ops);
            var wanted := ops[k].data[offset..offset + count];
            Step(t, Read(block, offset, count, reply)).1.data == wanted <==>
            MustOpen(t, block, offset) || !Watched(s, ops).spoiled || wanted == Idle(count)
  {
    assert ops[k] in ops;
    hide Step, Run, Watched, Spares;
    WrittenStays(s, ops, k);
    ReadAgreesIff(s, ops, block, offset, count, reply);
  }

  /** Every failure leaves its own code. */
  lemma FailuresTell(s: Sd, op: Operation)
    requires s.bus.Valid() && Possible(KindOf(s), op)
    ensures var (t, outcome) := Step(s, op);
            match op
            case Mode(_) => t.error == s.error
            case Write(block, _, reply) =>
              if block == 0 then t.error == 0x12
              else if reply == WriteRejected then t.error == 0x04
              else if reply == DataRejected then t.error == 0x11
              else if reply.ProgramTimeout? then t.error == 0x15
              else if reply.ProgramError? then t.error == 0x14
              else t.error == s.error && outcome.ok
            case Read(block, offset, count, reply) =>
              if outcome.ok || Refused(offset, count) then t.error == s.error
              else if reply == ReadRejected then t.error == 0x03
              else if reply == TokenTimeout then t.error == 0x0f
              else t.error == 0x0d
  {
    hide Clocked, Sent, Refused;
  }

  // ---- The three causes, each on any card

  lemma RunNext(s: Sd, ops: seq<Operation>, op: Operation)
    requires s.bus.Valid() && AllPossible(s, ops) && Possible(KindOf(s), op)
    ensures AllPossible(s, ops + [op]) && Possible(KindOf(Run(s, ops)), op) && Run(s, ops + [op]) == Step(Run(s, ops), op).0
  {
    assert (ops + [op])[..|ops|] == ops;
  }

  /** An operation after others. */
  ghost function Then(s: Sd, ops: seq<Operation>, op: Operation): (Sd, Outcome)
    requires s.bus.Valid() && AllPossible(s, ops) && Possible(KindOf(s), op)
  {
    Step(Run(s, ops), op)
  }

  /** The first byte of block 1, read in partial mode. */
  const OPENING: seq<Operation> := [Mode(true), Read(1, 0, 1, DataStart)]

  /** Block 1 is open in partial mode, and its first byte has been read. */
  ghost predicate InBlock1(s: Sd) {
    && s.bus.Valid() && |s.bus.blocks| > 1 && s.inBlock && s.partial && s.block == 1 && s.offset == 1
    && s.bus.reading && s.bus.clocked == 1
  }

  /** After the operation the rest of block 1, from the probe on, reads as an idle byte, and to ask for
      block 0 sends so many commands inside a block. */
  ghost predicate SpoilsBlock1(s: Sd, op: Operation, probe: uint16, strays: nat)
    requires s.bus.Valid() && Exists(KindOf(s), 0) && Exists(KindOf(s), 1) && Possible(KindOf(s), op)
  {
    && AllPossible(s, OPENING + [op])
    && Then(s, OPENING + [op], Read(1, probe, 1, DataStart)).1 == Outcome(true, [0xff])
    && Then(s, OPENING + [op], Read(0, 0, 1, DataStart)).0.bus.strayed == s.bus.strayed + strays
  }

  lemma OpeningSteps(s: Sd)
    requires Fresh(s) && |s.bus.blocks| > 1
    ensures Possible(KindOf(s), Read(1, 0, 1, DataStart))
    ensures var t := Step(Step(s, Mode(true)).0, Read(1, 0, 1, DataStart)).0;
            InBlock1(t) && t.bus.selected && t.bus.strayed == s.bus.strayed && |t.bus.blocks| == |s.bus.blocks|
  {
    var a := s.(partial := true);
    assert Step(s, Mode(true)).0 == a;
    var o := Opened(a, 1, DataStart);
    assert o.bus.strayed == s.bus.strayed;
    hide Opened, Ended;
    assert Step(a, Read(1, 0, 1, DataStart)) == Served(o, 0, 1);
  }

  lemma OpeningRun(s: Sd)
    requires Fresh(s) && |s.bus.blocks| > 1
    ensures AllPossible(s, OPENING)
    ensures var t := Run(s, OPENING);
            InBlock1(t) && t.bus.selected && t.bus.strayed == s.bus.strayed && |t.bus.blocks| == |s.bus.blocks|
  {
    hide Step;
    OpeningSteps(s);
    assert [] + [Mode(true)] == [Mode(true)] && [Mode(true)] + [Read(1, 0, 1, DataStart)] == OPENING;
    RunNext(s, [], Mode(true));
    RunNext(s, [Mode(true)], Read(1, 0, 1, DataStart));
  }

  /** With the card deselected, the rest of the block reads as idle bytes, and the next block is asked
      for inside it. */
  lemma DeafBlock1(s: Sd)
    requires InBlock1(s) && !s.bus.selected
    ensures Step(s, Read(1, 1, 1, DataStart)).1 == Outcome(true, [0xff])
    ensures Step(s, Read(0, 0, 1, DataStart)).0.bus.strayed == s.bus.strayed + 1
  {
    assert !MustOpen(s, 1, 1) && MustOpen(s, 0, 0) && !Refused(1, 1) && !Refused(0, 1);
    assert Step(s, Read(1, 1, 1, DataStart)) == Served(s, 1, 1);
    var o := Opened(s, 0, DataStart);
    assert o.bus.strayed == s.bus.strayed + 1;
    hide Opened, Ended;
    assert Step(s, Read(0, 0, 1, DataStart)) == Served(o, 0, 1);
    ServedStrays(o, 0, 1);
  }

  lemma ServedStrays(s: Sd, offset: uint16, count: uint16)
    requires s.bus.Valid() && s.offset <= offset
    ensures Served(s, offset, count).0.bus.strayed == s.bus.strayed
  {}

  /** After a refused range the rest of the open block reads as idle bytes, and the next block is asked
      for inside it. */
  lemma RefusedRangeSpoils(s: Sd)
    requires Fresh(s) && |s.bus.blocks| > 1 && Exists(KindOf(s), 0) && Exists(KindOf(s), 1)
    ensures Possible(KindOf(s), Read(1, 600, 1, DataStart)) && SpoilsBlock1(s, Read(1, 600, 1, DataStart), 1, 1)
  {
    hide Step, Run, InBlock1;
    OpeningRun(s);
    var op := Read(1, 600, 1, DataStart);
    RunNext(s, OPENING, op);
    RefusalDeafens(Run(s, OPENING));
    DeafBlock1(Step(Run(s, OPENING), op).0);
  }

  lemma RefusalDeafens(s: Sd)
    requires InBlock1(s)
    ensures Possible(KindOf(s), Read(1, 600, 1, DataStart))
    ensures var t := Step(s, Read(1, 600, 1, DataStart)).0;
            InBlock1(t) && !t.bus.selected && t.bus.strayed == s.bus.strayed
  {
    assert Refused(600, 1);
    hide Served, Opened;
  }

  lemma ZeroStep(s: Sd, data: seq<byte>)
    requires s.bus.Valid() && |data| == BLOCK && Exists(KindOf(s), 0)
    ensures Step(s, Write(0, data, Programmed)).0 == s.(bus := Select(s.bus, false), error := SD_CARD_ERROR_WRITE_BLOCK_ZERO)
  {
    hide Commanded, Program, Stored, WriteError;
  }

  /** So they do after a write to block 0. */
  lemma WriteToZeroSpoils(s: Sd, data: seq<byte>)
    requires Fresh(s) && |s.bus.blocks| > 1 && Exists(KindOf(s), 0) && Exists(KindOf(s), 1) && |data| == BLOCK
    ensures Possible(KindOf(s), Write(0, data, Programmed)) && SpoilsBlock1(s, Write(0, data, Programmed), 1, 1)
  {
    hide Step, Run, InBlock1;
    OpeningRun(s);
    var op := Write(0, data, Programmed);
    RunNext(s, OPENING, op);
    ZeroDeafens(Run(s, OPENING), data);
    DeafBlock1(Step(Run(s, OPENING), op).0);
  }

  lemma ZeroDeafens(s: Sd, data: seq<byte>)
    requires InBlock1(s) && |data| == BLOCK
    ensures Possible(KindOf(s), Write(0, data, Programmed))
    ensures var t := Step(s, Write(0, data, Programmed)).0;
            InBlock1(t) && !t.bus.selected && t.bus.strayed == s.bus.strayed
  {
    ZeroStep(s, data);
    hide Step;
  }

  /** After a range that wraps past the guard, the block has been read out but still counts as open. */
  lemma WrappingRangeSpoils(s: Sd)
    requires Fresh(s) && |s.bus.blocks| > 1 && Exists(KindOf(s), 0) && Exists(KindOf(s), 1)
    ensures Possible(KindOf(s), Read(1, 65535, 1, DataStart)) && SpoilsBlock1(s, Read(1, 65535, 1, DataStart), 0, 0)
  {
    hide Step, Run, InBlock1;
    OpeningRun(s);
    var op := Read(1, 65535, 1, DataStart);
    RunNext(s, OPENING, op);
    WrapDries(Run(s, OPENING));
    DryBlock1(Step(Run(s, OPENING), op).0);
  }

  lemma WrapDries(s: Sd)
    requires InBlock1(s) && s.bus.selected
    ensures Possible(KindOf(s), Read(1, 65535, 1, DataStart))
    ensures var t := Step(s, Read(1, 65535, 1, DataStart)).0;
            && t.bus.Valid() && |t.bus.blocks| > 1 && t.inBlock && t.partial && t.block == 1 && t.offset == 0
            && !t.bus.reading && t.bus.strayed == s.bus.strayed
  {
    assert !Refused(65535, 1) && !MustOpen(s, 1, 65535);
    assert Step(s, Read(1, 65535, 1, DataStart)) == Served(s, 65535, 1);
    hide Step, Opened;
  }

  lemma DryBlock1(s: Sd)
    requires s.bus.Valid() && |s.bus.blocks| > 1 && s.inBlock && s.partial && s.block == 1 && s.offset == 0 && !s.bus.reading
    ensures Step(s, Read(1, 0, 1, DataStart)).1 == Outcome(true, [0xff])
    ensures Step(s, Read(0, 0, 1, DataStart)).0.bus.strayed == s.bus.strayed
  {
    assert !MustOpen(s, 1, 0) && MustOpen(s, 0, 0) && !Refused(0, 1);
    assert Step(s, Read(1, 0, 1, DataStart)) == Served(s, 0, 1);
    var o := Opened(s, 0, DataStart);
    assert o.bus.strayed == s.bus.strayed;
    hide Opened, Ended;
    assert Step(s, Read(0, 0, 1, DataStart)) == Served(o, 0, 1);
    ServedStrays(o, 0, 1);
  }
}
