// The sentence decoder of nmea.cpp, one character at a time: its specification, and what it makes of
// whole sentences and streams.
module NmeaDecoder {
  import opened NmeaChecksum

  const DOLLAR: octet := 0x24
  const STAR: octet := 0x2A
  const COMMA: octet := 0x2C
  const CR: octet := 0x0D
  const LF: octet := 0x0A

  const SENTENCE: nat := 100
  const TERMS: nat := 30
  const TERM: nat := 15

  /** "$GPRMC," */
  const GPRMC_TERM: seq<octet> := [0x24, 0x47, 0x50, 0x52, 0x4D, 0x43, 0x2C]

  function Mix(parity: word, c: octet): word {
    WordPower();
    Exclusive(parity, Widened(c), 16)
  }

  function Dehex(c: octet): (r: int)
    ensures -176 <= r <= 72
  {
    var a: int := if c < 128 then c else c - 256;
    if a >= 65 then a - 55 else a - 48
  }

  function AfterHigh(parity: word, c: octet): word {
    (parity - 16 * Dehex(c)) % 65536
  }

  function AfterLow(parity: word, c: octet): word {
    (parity - Dehex(c)) % 65536
  }

  /** Where the decoder is: waiting, or after some characters of a sentence with so many finished
      terms; stage 1 is before '*', stages 2 and 3 before the two checksum characters. */
  datatype Phase = Idle | Reading(stage: nat, sentence: seq<octet>, done: seq<seq<octet>>, current: seq<octet>, tag: nat, parity: word)

  datatype Published = Published(sentence: seq<octet>, terms: seq<seq<octet>>)

  datatype Decoder = Decoder(phase: Phase, published: Published)

  predicate Overrun(p: Phase)
    requires p.Reading?
  {
    |p.sentence| >= SENTENCE || |p.done| >= TERMS || |p.current| >= TERM
  }

  function Tagged(sentence: seq<octet>, tag: nat, c: octet): nat
    requires sentence != []
  {
    if |sentence| < 7 && c == GPRMC_TERM[|sentence|] then tag + 1 else tag
  }

  /** A character before the checksum. */
  function Collect(p: Phase, c: octet): Phase
    requires p.Reading? && p.sentence != []
  {
    var q := p.(tag := Tagged(p.sentence, p.tag, c), sentence := p.sentence + [c]);
    if c == COMMA then q.(done := p.done + [p.current], current := [], parity := Mix(p.parity, c))
    else if c == STAR then q.(stage := 2, done := p.done + [p.current], current := [])
    else q.(current := p.current + [c], parity := Mix(p.parity, c))
  }

  /** What a C string keeps of a term. */
  function UpToNul(t: seq<octet>): seq<octet> {
    if t == [] || t[0] == 0 then [] else [t[0]] + UpToNul(t[1..])
  }

  function Copied(terms: seq<seq<octet>>): (r: seq<seq<octet>>)
    ensures |r| == |terms|
  {
    seq(|terms|, i requires 0 <= i < |terms| => UpToNul(terms[i]))
  }

  ghost predicate Legal(p: Phase) {
    p.Reading? ==> 1 <= p.stage <= 3 && p.sentence != []
  }

  /** The first character of the checksum. */
  function High(p: Phase, c: octet): Phase
    requires p.Reading?
  {
    p.(stage := 3, sentence := p.sentence + [c], current := p.current + [c], parity := AfterHigh(p.parity, c))
  }

  /** The last character of the checksum. */
  function Last(only: bool, d: Decoder, c: octet): (Decoder, nat)
    requires d.phase.Reading?
  {
    var p := d.phase;
    if AfterLow(p.parity, c) == 0 && (!only || p.tag == 6) then
      (Decoder(Idle, Published(p.sentence + [c], Copied(p.done + [p.current + [c]]))), 1)
    else
      (d.(phase := Idle), 0)
  }

  /** decode. */
  function Step(only: bool, d: Decoder, c: octet): (r: (Decoder, nat))
    requires Legal(d.phase)
    ensures Legal(r.0.phase)
  {
    var p := d.phase;
    if c == DOLLAR then (d.(phase := Reading(1, [c], [], [], 0, 0)), 0)
    else if p.Idle? || Overrun(p) || c == LF || c == CR then (d.(phase := Idle), 0)
    else if p.stage == 1 then (d.(phase := Collect(p, c)), 0)
    else if p.stage == 2 then (d.(phase := High(p, c)), 0)
    else Last(only, d, c)
  }

  function Run(only: bool, d: Decoder, s: seq<octet>): (r: Decoder)
    requires Legal(d.phase)
    ensures Legal(r.phase)
  {
    if s == [] then d else Step(only, Run(only, d, s[..|s| - 1]), s[|s| - 1]).0
  }

  /** What decode returns for character i. */
  function Answer(only: bool, d: Decoder, s: seq<octet>, i: nat): nat
    requires Legal(d.phase) && i < |s|
  {
    Step(only, Run(only, d, s[..i]), s[i]).1
  }

  lemma RunStep(only: bool, d: Decoder, s: seq<octet>, c: octet)
    requires Legal(d.phase)
    ensures Run(only, d, s + [c]) == Step(only, Run(only, d, s), c).0
  {
    assert (s + [c])[..|s|] == s;
  }

  lemma {:induction false} RunAppend(only: bool, d: Decoder, s: seq<octet>, t: seq<octet>)
    requires Legal(d.phase)
    ensures Run(only, d, s + t) == Run(only, Run(only, d, s), t)
  {
    hide Step;
    if t == [] {
      assert s + t == s;
    } else {
      var u := t[..|t| - 1];
      assert s + t == s + u + [t[|t| - 1]];
      RunStep(only, d, s + u, t[|t| - 1]);
      RunAppend(only, d, s, u);
    }
  }

  // ---- What a sentence says

  /** The terms between the commas. */
  function Split(body: seq<octet>): (r: seq<seq<octet>>)
    ensures r != []
  {
    if body == [] then [[]]
    else
      var terms, c := Split(body[..|body| - 1]), body[|body| - 1];
      if c == COMMA then terms + [[]] else terms[..|terms| - 1] + [terms[|terms| - 1] + [c]]
  }

  function Join(terms: seq<seq<octet>>): seq<octet>
    requires terms != []
  {
    if |terms| == 1 then terms[0] else Join(terms[..|terms| - 1]) + [COMMA] + terms[|terms| - 1]
  }

  lemma JoinLonger(terms: seq<seq<octet>>, last: seq<octet>, c: octet)
    ensures Join(terms + [last + [c]]) == Join(terms + [last]) + [c]
  {
    assert (terms + [last])[..|terms|] == terms == (terms + [last + [c]])[..|terms|];
  }

  lemma JoinOneMore(terms: seq<seq<octet>>)
    requires terms != []
    ensures Join(terms + [[]]) == Join(terms) + [COMMA]
  {
    assert (terms + [[]])[..|terms|] == terms;
  }

  lemma SplitLonger(body: seq<octet>, terms: seq<seq<octet>>, last: seq<octet>, c: octet)
    requires Split(body) == terms + [last]
    ensures Split(body + [c]) == if c == COMMA then terms + [last] + [[]] else terms + [last + [c]]
  {
    assert (body + [c])[..|body|] == body;
  }

  lemma LastOf<T>(s: seq<T>)
    requires s != []
    ensures s == s[..|s| - 1] + [s[|s| - 1]]
  {}

  /** Split is the one way to cut a body into terms without commas. */
  lemma {:induction false} SplitJoins(body: seq<octet>)
    ensures Join(Split(body)) == body
  {
    if body != [] {
      var b, c := body[..|body| - 1], body[|body| - 1];
      LastOf(body);
      SplitJoins(b);
      var terms := Split(b);
      LastOf(terms);
      SplitLonger(b, terms[..|terms| - 1], terms[|terms| - 1], c);
      hide Split, Join;
      if c == COMMA {
        JoinOneMore(terms);
      } else {
        JoinLonger(terms[..|terms| - 1], terms[|terms| - 1], c);
      }
    }
  }

  lemma {:induction false} SplitHasNoCommas(body: seq<octet>)
    ensures forall t | t in Split(body) :: COMMA !in t
  {
    if body != [] {
      SplitHasNoCommas(body[..|body| - 1]);
    }
  }

  lemma {:induction false} JoinSplits(terms: seq<seq<octet>>)
    requires terms != [] && forall t | t in terms :: COMMA !in t
    ensures Split(Join(terms)) == terms
    decreases |terms|, |terms[|terms| - 1]|
  {
    var k := |terms| - 1;
    var last := terms[k];
    LastOf(terms);
    assert last in terms;
    if last != [] {
      LastOf(last);
      var rest, c := last[..|last| - 1], last[|last| - 1];
      JoinSplits(terms[..k] + [rest]);
      JoinLonger(terms[..k], rest, c);
      SplitLonger(Join(terms[..k] + [rest]), terms[..k], rest, c);
    } else if k > 0 {
      JoinSplits(terms[..k]);
      JoinOneMore(terms[..k]);
      LastOf(terms[..k]);
      SplitLonger(Join(terms[..k]), terms[..k][..k - 1], terms[..k][k - 1], COMMA);
    }
  }

  function Parity(body: seq<octet>): word {
    if body == [] then 0 else Mix(Parity(body[..|body| - 1]), body[|body| - 1])
  }

  /** How many of the first characters are those of the tag. */
  function Matches(body: seq<octet>): nat {
    if body == [] then 0
    else Matches(body[..|body| - 1]) + if |body| < 7 && body[|body| - 1] == GPRMC_TERM[|body|] then 1 else 0
  }

  ghost predicate IsGprmc(body: seq<octet>) {
    GPRMC_TERM[1..] <= body
  }

  lemma {:induction false} MatchesIff(body: seq<octet>)
    ensures Matches(body) <= |body| && Matches(body) <= 6
    ensures |body| <= 6 ==> (Matches(body) == |body| <==> body == GPRMC_TERM[1..|body| + 1])
    ensures Matches(body) == 6 <==> IsGprmc(body)
  {
    if body != [] {
      var b, k := body[..|body| - 1], |body|;
      MatchesIff(b);
      assert body == b + [body[k - 1]];
      if k <= 6 {
        assert GPRMC_TERM[1..k + 1] == GPRMC_TERM[1..k] + [GPRMC_TERM[k]];
      }
      if 6 <= |b| {
        assert body[..6] == b[..6];
      }
    }
  }

  /** The decoder's buffers hold the body and its terms. */
  ghost predicate Fits(body: seq<octet>) {
    && |body| + 1 < SENTENCE && |Split(body)| <= TERMS
    && forall t | t in Split(body) :: |t| < TERM
  }

  function Init(body: seq<octet>): seq<octet>
    requires body != []
  {
    body[..|body| - 1]
  }

  lemma FitsGrows(body: seq<octet>, c: octet)
    ensures Fits(body + [c]) ==> Fits(body)
  {
    var terms := Split(body);
    assert (body + [c])[..|body|] == body;
    if Fits(body + [c]) {
      var longer := Split(body + [c]);
      forall i | 0 <= i < |terms|
        ensures |terms[i]| < TERM
      {
        assert longer[i] in longer;
      }
    }
  }

  ghost function After(body: seq<octet>): Phase {
    var terms := Split(body);
    Reading(1, [DOLLAR] + body, terms[..|terms| - 1], terms[|terms| - 1], Matches(body), Parity(body))
  }

  lemma OverrunIff(body: seq<octet>)
    requires body == [] || Fits(Init(body))
    ensures Overrun(After(body)) <==> !Fits(body)
  {
    var terms := Split(body);
    if body != [] {
      var before := Split(Init(body));
      forall i | 0 <= i < |terms| - 1
        ensures |terms[i]| < TERM
      {
        assert before[i] in before;
      }
    }
    assert forall t | t in terms :: t == terms[|terms| - 1] || t in terms[..|terms| - 1];
  }

  /** The characters of a body: none that starts or ends anything. */
  ghost predicate Plain(body: seq<octet>) {
    forall c | c in body :: IsPlain(c)
  }

  predicate IsPlain(c: octet) {
    c != DOLLAR && c != STAR && c != CR && c != LF
  }

  lemma CollectPlain(body: seq<octet>, c: octet)
    requires c != STAR
    ensures Collect(After(body), c) == After(body + [c])
  {
    hide Mix;
    assert (body + [c])[..|body|] == body && [DOLLAR] + body + [c] == [DOLLAR] + (body + [c]);
    var terms := Split(body);
    assert terms[..|terms| - 1] + [terms[|terms| - 1]] == terms;
    if c == COMMA {
      assert (terms + [[]])[..|terms|] == terms;
    } else {
      var current := terms[|terms| - 1] + [c];
      assert (terms[..|terms| - 1] + [current])[..|terms| - 1] == terms[..|terms| - 1];
    }
  }

  lemma PlainStep(only: bool, d: Decoder, body: seq<octet>, c: octet)
    requires d.phase == After(body) && IsPlain(c) && (body == [] || Fits(Init(body)))
    ensures Step(only, d, c) == (d.(phase := if Fits(body) then After(body + [c]) else Idle), 0)
  {
    hide Fits, Collect, Overrun;
    OverrunIff(body);
    CollectPlain(body, c);
  }

  lemma IdleStep(only: bool, d: Decoder, c: octet)
    requires d.phase == Idle && c != DOLLAR
    ensures Step(only, d, c) == (d, 0)
  {}

  /** Before '*' the decoder has exactly the split of what it has read, as long as that fits. */
  lemma {:induction false} BodyRead(only: bool, d: Decoder, body: seq<octet>)
    requires Legal(d.phase) && Plain(body)
    ensures Run(only, d, [DOLLAR] + body) ==
            d.(phase := if body == [] || Fits(Init(body)) then After(body) else Idle)
    ensures forall i | 0 <= i < |body| + 1 :: Answer(only, d, [DOLLAR] + body, i) == 0
  {
    hide Fits, Step, After, IsPlain;
    var s := [DOLLAR] + body;
    if body == [] {
      assert s == [DOLLAR];
      BareDollar(only, d);
    } else {
      var b, c := Init(body), body[|body| - 1];
      assert body == b + [c] && c in body && forall x | x in b :: x in body;
      BodyRead(only, d, b);
      assert s == [DOLLAR] + b + [c];
      RunStep(only, d, [DOLLAR] + b, c);
      BodyStep(only, Run(only, d, [DOLLAR] + b), b, c);
      AnswersAppend(only, d, [DOLLAR] + b, [c]);
    }
  }

  lemma BodyStep(only: bool, d: Decoder, b: seq<octet>, c: octet)
    requires IsPlain(c) && d.phase == (if b == [] || Fits(Init(b)) then After(b) else Idle)
    ensures Step(only, d, c) == (d.(phase := if Fits(b) then After(b + [c]) else Idle), 0)
  {
    hide Fits, Step, After;
    if b == [] || Fits(Init(b)) {
      PlainStep(only, d, b, c);
    } else {
      assert b == Init(b) + [b[|b| - 1]];
      FitsGrows(Init(b), b[|b| - 1]);
      IdleStep(only, d, c);
    }
  }

  /** Later characters do not change what was answered, and are answered from where the others led. */
  lemma AnswersAppend(only: bool, d: Decoder, s: seq<octet>, t: seq<octet>)
    requires Legal(d.phase)
    ensures forall i | 0 <= i < |s| :: Answer(only, d, s + t, i) == Answer(only, d, s, i)
    ensures forall i | 0 <= i < |t| :: Answer(only, d, s + t, |s| + i) == Answer(only, Run(only, d, s), t, i)
  {
    hide Step, Run;
    forall i | 0 <= i < |s|
      ensures Answer(only, d, s + t, i) == Answer(only, d, s, i)
    {
      assert (s + t)[..i] == s[..i];
    }
    forall i | 0 <= i < |t|
      ensures Answer(only, d, s + t, |s| + i) == Answer(only, Run(only, d, s), t, i)
    {
      assert (s + t)[..|s| + i] == s + t[..i];
      RunAppend(only, d, s, t[..i]);
    }
  }

  lemma BareDollar(only: bool, d: Decoder)
    requires Legal(d.phase)
    ensures Run(only, d, [DOLLAR]) == d.(phase := After([]))
    ensures Answer(only, d, [DOLLAR], 0) == 0
  {
    assert [DOLLAR][..0] == [];
    assert [DOLLAR] + [] == [DOLLAR];
  }

  // ---- Whole sentences

  function Sentence(body: seq<octet>, high: octet, low: octet): seq<octet> {
    [DOLLAR] + body + [STAR, high, low]
  }

  function Claimed(high: octet, low: octet): word {
    (16 * Dehex(high) + Dehex(low)) % 65536
  }

  /** The limits of a whole sentence: 99 characters, 28 commas, 14 characters a term. */
  ghost predicate Bounded(body: seq<octet>) {
    && |body| + 4 < SENTENCE && |Split(body)| < TERMS
    && forall t | t in Split(body) :: |t| < TERM
  }

  /** The terms fit, but the sentence is exactly as long as its buffer. */
  ghost predicate NoRoom(body: seq<octet>) {
    |body| + 4 == SENTENCE && Fits(body) && |Split(body)| < TERMS
  }

  /** The character does not make decode write the terminator past the end of the sentence buffer. */
  predicate HasRoom(p: Phase, c: octet) {
    p.Reading? && p.stage == 3 && |p.sentence| + 1 == SENTENCE && !Overrun(p) ==> c == DOLLAR || c == CR || c == LF
  }

  /** The limits in numbers. */
  lemma BoundedIff(body: seq<octet>)
    ensures Bounded(body) <==> |body| <= 95 && |Split(body)| <= 29 && forall t | t in Split(body) :: |t| <= 14
  {}

  ghost predicate Accepted(only: bool, body: seq<octet>, high: octet, low: octet) {
    Bounded(body) && Parity(body) == Claimed(high, low) && (!only || IsGprmc(body))
  }

  /** Neither checksum character restarts or resets the decoder. */
  ghost predicate Digits(high: octet, low: octet) {
    high != DOLLAR && high != CR && high != LF && low != DOLLAR && low != CR && low != LF
  }

  lemma ParityZeroIff(parity: word, high: octet, low: octet)
    ensures AfterLow(AfterHigh(parity, high), low) == 0 <==> parity == Claimed(high, low)
  {
    hide Dehex;
    Balance(parity, 16 * Dehex(high), Dehex(low));
  }

  lemma Balance(p: word, a: int, b: int)
    requires -3000 <= a <= 3000 && -3000 <= b <= 3000
    ensures ((p - a) % 65536 - b) % 65536 == 0 <==> p == (a + b) % 65536
  {
    assert (p - a) % 65536 == if p < a then p - a + 65536 else if p - a < 65536 then p - a else p - a - 65536;
  }

  /** The star and the checksum after a body that has just outgrown the buffers. */
  lemma TailOfOverrun(only: bool, d: Decoder, body: seq<octet>, high: octet, low: octet)
    requires Digits(high, low) && (body == [] || Fits(Init(body))) && !Fits(body) && d.phase == After(body)
    ensures TailRead(only, d, body, high, low)
  {
    hide Fits, Split, Collect, Last, Copied, Matches, Parity, Overrun;
    BoundedFits(body);
    OverrunIff(body);
    IdleStep(only, d.(phase := Idle), high);
    IdleStep(only, d.(phase := Idle), low);
  }

  /** The star and the checksum after a body that fits them. */
  lemma TailOfFitting(only: bool, d: Decoder, body: seq<octet>, high: octet, low: octet)
    requires Digits(high, low) && !NoRoom(body) && Fits(body) && d.phase == After(body)
    ensures TailRead(only, d, body, high, low)
  {
    hide Fits, Split, Collect, Last, AfterHigh, Claimed, Copied, Matches, Parity;
    BoundedFits(body);
    OverrunIff(body);
    StarRead(body);
    var starred := Reading(2, [DOLLAR] + body + [STAR], Split(body), [], Matches(body), Parity(body));
    assert Step(only, d, STAR) == (d.(phase := starred), 0);
    if Bounded(body) {
      LastRead(only, d.(phase := High(starred, high)), body, high, low);
    } else if |body| + 2 >= SENTENCE || |Split(body)| >= TERMS {
      IdleStep(only, d.(phase := Idle), low);
    }
  }

  lemma LastRead(only: bool, d: Decoder, body: seq<octet>, high: octet, low: octet)
    requires Bounded(body)
    requires d.phase == High(Reading(2, [DOLLAR] + body + [STAR], Split(body), [], Matches(body), Parity(body)), high)
    ensures var r := Last(only, d, low);
            && r.1 == (if Accepted(only, body, high, low) then 1 else 0)
            && r.0 == Decoder(Idle, if r.1 == 1 then Published(Sentence(body, high, low), Copied(Split(body) + [[high, low]]))
                                    else d.published)
  {
    hide Split, Claimed, Copied, Matches, Parity, AfterLow, AfterHigh, Bounded;
    MatchesIff(body);
    ParityZeroIff(Parity(body), high, low);
    assert [DOLLAR] + body + [STAR] + [high] + [low] == Sentence(body, high, low);
    assert [] + [high] + [low] == [high, low];
  }

  lemma StarRead(body: seq<octet>)
    ensures Collect(After(body), STAR) == Reading(2, [DOLLAR] + body + [STAR], Split(body), [], Matches(body), Parity(body))
  {
    hide Split, Mix, Matches;
    var terms := Split(body);
    assert terms[..|terms| - 1] + [terms[|terms| - 1]] == terms;
  }

  /** What the last three characters of a sentence do. */
  ghost predicate TailRead(only: bool, d: Decoder, body: seq<octet>, high: octet, low: octet)
    requires Legal(d.phase)
  {
    var (a, x) := Step(only, d, STAR);
    var (b, y) := Step(only, a, high);
    var (c, z) := Step(only, b, low);
    && x == y == 0 && z == (if Accepted(only, body, high, low) then 1 else 0)
    && c == Decoder(Idle, if z == 1 then Published(Sentence(body, high, low), Copied(Split(body) + [[high, low]]))
                          else d.published)
  }

  lemma TailOfIdle(only: bool, d: Decoder, body: seq<octet>, high: octet, low: octet)
    requires Digits(high, low) && body != [] && !Fits(Init(body)) && d.phase == Idle
    ensures TailRead(only, d, body, high, low)
  {
    hide Fits, Step, Copied, Split;
    BoundedFits(body);
    IdleStep(only, d, STAR);
    IdleStep(only, d, high);
    IdleStep(only, d, low);
  }

  lemma BoundedFits(body: seq<octet>)
    ensures Bounded(body) <==> Fits(body) && |body| + 4 < SENTENCE && |Split(body)| < TERMS
    ensures body != [] && Fits(body) ==> Fits(Init(body))
  {
    hide Split;
    if body != [] {
      FitsGrows(Init(body), body[|body| - 1]);
      assert Init(body) + [body[|body| - 1]] == body;
    }
  }

  /** From any state, a sentence is answered by zeros, and by 1 on its last character if and only if it
      is within the limits, its checksum is that of its body, and it passes the filter. Then the
      published sentence and terms are its own; otherwise they are as before. Only a body with
      no room for the terminator is not covered. */
  lemma SentenceDecoded(only: bool, d: Decoder, body: seq<octet>, high: octet, low: octet)
    requires Legal(d.phase) && Plain(body) && Digits(high, low) && !NoRoom(body)
    ensures var s, ok := Sentence(body, high, low), Accepted(only, body, high, low);
            && (forall i | 0 <= i < |s| - 1 :: Answer(only, d, s, i) == 0)
            && Answer(only, d, s, |s| - 1) == (if ok then 1 else 0)
            && Run(only, d, s) == Decoder(Idle, if ok then Published(s, Copied(Split(body) + [[high, low]])) else d.published)
  {
    hide Accepted, After, Fits, Copied, Split, Run, Answer, NoRoom, Step;
    var t, tail := [DOLLAR] + body, [STAR, high, low];
    BodyRead(only, d, body);
    TailDecoded(only, Run(only, d, t), body, high, low);
    RunAppend(only, d, t, tail);
    AnswersAppend(only, d, t, tail);
    var s := Sentence(body, high, low);
    assert s == t + tail;
    forall i | 0 <= i < |s| - 1
      ensures Answer(only, d, s, i) == 0
    {
      if i >= |t| {
        assert i == |t| + (i - |t|);
      }
    }
    assert Answer(only, d, s, |t| + 2) == Answer(only, Run(only, d, t), tail, 2);
  }

  lemma TailDecoded(only: bool, d: Decoder, body: seq<octet>, high: octet, low: octet)
    requires Digits(high, low) && !NoRoom(body) && d.phase == (if body == [] || Fits(Init(body)) then After(body) else Idle)
    ensures var tail, ok := [STAR, high, low], Accepted(only, body, high, low);
            && Answer(only, d, tail, 0) == Answer(only, d, tail, 1) == 0
            && Answer(only, d, tail, 2) == (if ok then 1 else 0)
            && Run(only, d, tail) ==
               Decoder(Idle, if ok then Published(Sentence(body, high, low), Copied(Split(body) + [[high, low]])) else d.published)
  {
    hide Accepted, Fits, Copied, Split, NoRoom, Step, Parity, Matches;
    BoundedFits(body);
    if Fits(body) {
      TailOfFitting(only, d, body, high, low);
    } else if body == [] || Fits(Init(body)) {
      TailOfOverrun(only, d, body, high, low);
    } else {
      TailOfIdle(only, d, body, high, low);
    }
    ThreeSteps(only, d, STAR, high, low);
  }

  lemma ThreeSteps(only: bool, d: Decoder, x: octet, y: octet, z: octet)
    requires Legal(d.phase)
    ensures var (a, p) := Step(only, d, x);
            var (b, q) := Step(only, a, y);
            var (c, r) := Step(only, b, z);
            && Run(only, d, [x, y, z]) == c
            && Answer(only, d, [x, y, z], 0) == p && Answer(only, d, [x, y, z], 1) == q && Answer(only, d, [x, y, z], 2) == r
  {
    hide Step;
    RunStep(only, d, [], x);
    RunStep(only, d, [x], y);
    RunStep(only, d, [x, y], z);
    assert [] + [x] == [x] && [x] + [y] == [x, y] && [x, y] + [z] == [x, y, z];
    assert [x, y, z][..0] == [] && [x, y, z][..1] == [x] && [x, y, z][..2] == [x, y];
  }

  // ---- The one sentence that does not fit

  /** After '*' and one character of the checksum. */
  lemma HighRead(only: bool, d: Decoder, body: seq<octet>, high: octet)
    requires Fits(body) && d.phase == After(body) && high != DOLLAR && high != CR && high != LF
    ensures var a := Step(only, d, STAR).0;
            var b := Step(only, a, high).0;
            if |body| + 2 < SENTENCE && |Split(body)| < TERMS then
              b.phase.Reading? && b.phase.stage == 3 && |b.phase.sentence| == |body| + 3
              && |b.phase.done| == |Split(body)| && |b.phase.current| == 1
            else b.phase == Idle
    ensures Step(only, d, STAR).0.phase.Reading? ==> Step(only, d, STAR).0.phase.stage == 2
  {
    hide Fits, Split, Collect, AfterHigh, Matches, Parity;
    BoundedFits(body);
    OverrunIff(body);
    StarRead(body);
  }

  /** The last three characters of a sentence have room if and only if the body leaves it. */
  lemma TailHasRoomIff(only: bool, d: Decoder, body: seq<octet>, high: octet, low: octet)
    requires Digits(high, low) && d.phase == (if body == [] || Fits(Init(body)) then After(body) else Idle)
    ensures var a := Step(only, d, STAR).0;
            var b := Step(only, a, high).0;
            HasRoom(d.phase, STAR) && HasRoom(a.phase, high) && (HasRoom(b.phase, low) <==> !NoRoom(body))
  {
    hide Fits, Collect, Split, Matches, Parity;
    BoundedFits(body);
    if Fits(body) {
      HighRead(only, d, body, high);
    } else {
      if body == [] || Fits(Init(body)) {
        OverrunIff(body);
      }
      IdleStep(only, d.(phase := Idle), high);
    }
  }

  /** No character of the stream is written past the end. */
  ghost predicate Roomy(only: bool, d: Decoder, s: seq<octet>)
    requires Legal(d.phase)
  {
    forall i | 0 <= i < |s| :: HasRoom(Run(only, d, s[..i]).phase, s[i])
  }

  lemma RoomyAppend(only: bool, d: Decoder, s: seq<octet>, t: seq<octet>)
    requires Legal(d.phase)
    ensures Roomy(only, d, s + t) <==> Roomy(only, d, s) && Roomy(only, Run(only, d, s), t)
  {
    hide Run, HasRoom;
    forall i | 0 <= i < |s|
      ensures (s + t)[..i] == s[..i] && (s + t)[i] == s[i]
    {}
    forall i | 0 <= i < |t|
      ensures Run(only, d, (s + t)[..|s| + i]) == Run(only, Run(only, d, s), t[..i])
      ensures (s + t)[|s| + i] == t[i]
    {
      assert (s + t)[..|s| + i] == s + t[..i];
      RunAppend(only, d, s, t[..i]);
    }
    if Roomy(only, d, s + t) {
      forall i | 0 <= i < |s|
        ensures HasRoom(Run(only, d, s[..i]).phase, s[i])
      {
        assert HasRoom(Run(only, d, (s + t)[..i]).phase, (s + t)[i]);
      }
      forall i | 0 <= i < |t|
        ensures HasRoom(Run(only, Run(only, d, s), t[..i]).phase, t[i])
      {
        assert HasRoom(Run(only, d, (s + t)[..|s| + i]).phase, (s + t)[|s| + i]);
      }
    }
    if Roomy(only, d, s) && Roomy(only, Run(only, d, s), t) {
      forall k | 0 <= k < |s + t|
        ensures HasRoom(Run(only, d, (s + t)[..k]).phase, (s + t)[k])
      {
        if k >= |s| {
          var i := k - |s|;
          assert HasRoom(Run(only, Run(only, d, s), t[..i]).phase, t[i]);
        }
      }
    }
  }

  lemma RoomyOne(only: bool, d: Decoder, c: octet)
    requires Legal(d.phase)
    ensures Roomy(only, d, [c]) <==> HasRoom(d.phase, c)
  {
    assert [c][..0] == [] && [c][0] == c;
  }

  /** From any state, the characters up to '*' always have room. */
  lemma {:induction false} BodyRoomy(only: bool, d: Decoder, body: seq<octet>)
    requires Legal(d.phase) && Plain(body)
    ensures Roomy(only, d, [DOLLAR] + body)
  {
    hide Roomy, Run, Fits, Split;
    RoomyOne(only, d, DOLLAR);
    if body == [] {
      assert [DOLLAR] + body == [DOLLAR];
    } else {
      var b, c := Init(body), body[|body| - 1];
      assert body == b + [c] && forall x | x in b :: x in body;
      BodyRoomy(only, d, b);
      BodyRead(only, d, b);
      assert [DOLLAR] + body == ([DOLLAR] + b) + [c];
      RoomyOne(only, Run(only, d, [DOLLAR] + b), c);
      RoomyAppend(only, d, [DOLLAR] + b, [c]);
    }
  }

  /** From any state, a sentence makes decode write past the end of its buffer if and only if its body
      has exactly 96 characters and terms that all fit. */
  lemma SentenceRoomyIff(only: bool, d: Decoder, body: seq<octet>, high: octet, low: octet)
    requires Legal(d.phase) && Plain(body) && Digits(high, low)
    ensures Roomy(only, d, Sentence(body, high, low)) <==> !NoRoom(body)
  {
    hide Roomy, Step, Fits, Split, HasRoom, NoRoom, After;
    var t := [DOLLAR] + body;
    BodyRoomy(only, d, body);
    BodyRead(only, d, body);
    var e := Run(only, d, t);
    TailHasRoomIff(only, e, body, high, low);
    RunStep(only, d, t, STAR);
    RunStep(only, d, t + [STAR], high);
    RoomyOne(only, e, STAR);
    RoomyOne(only, Run(only, d, t + [STAR]), high);
    RoomyOne(only, Run(only, d, t + [STAR] + [high]), low);
    RoomyAppend(only, d, t, [STAR]);
    RoomyAppend(only, d, t + [STAR], [high]);
    RoomyAppend(only, d, t + [STAR] + [high], [low]);
    assert Sentence(body, high, low) == t + [STAR] + [high] + [low];
  }

  /** A body that has no room: terms of eleven characters. */
  lemma SomeBodyHasNoRoom()
    ensures exists body :: Plain(body) && NoRoom(body)
  {
    var body := seq(96, i requires 0 <= i => Twelfth(i));
    TermsOfTwelves(body);
    assert NoRoom(body);
    assert Plain(body);
  }

  function Twelfth(i: nat): octet {
    if i % 12 == 11 then COMMA else 65
  }

  lemma TwelfthNext(k: nat)
    ensures if Twelfth(k) == COMMA then (k + 1) / 12 == k / 12 + 1 && (k + 1) % 12 == 0
            else (k + 1) / 12 == k / 12 && (k + 1) % 12 == k % 12 + 1 < 12
  {}

  lemma {:induction false} TermsOfTwelves(body: seq<octet>)
    requires forall i | 0 <= i < |body| :: body[i] == Twelfth(i)
    ensures var terms := Split(body);
            && |terms| == |body| / 12 + 1 && |terms[|terms| - 1]| == |body| % 12
            && forall t | t in terms :: |t| < 12
  {
    if body != [] {
      var k := |body| - 1;
      TermsOfTwelves(body[..k]);
      TwelfthNext(k);
      LastOf(body);
      var terms := Split(body[..k]);
      var most, last := terms[..|terms| - 1], terms[|terms| - 1];
      hide Split, Twelfth;
      LastOf(terms);
      SplitLonger(body[..k], most, last, body[k]);
      assert forall t | t in most :: t in terms;
    }
  }

  // ---- Streams of sentences

  /** The publications that a stream leads to, in order. */
  function Reports(only: bool, d: Decoder, s: seq<octet>): seq<Published>
    requires Legal(d.phase)
  {
    if s == [] then []
    else
      var k := |s| - 1;
      Reports(only, d, s[..k]) + if Answer(only, d, s, k) == 1 then [Run(only, d, s).published] else []
  }

  lemma {:induction false} ReportsAppend(only: bool, d: Decoder, s: seq<octet>, t: seq<octet>)
    requires Legal(d.phase)
    ensures Reports(only, d, s + t) == Reports(only, d, s) + Reports(only, Run(only, d, s), t)
  {
    hide Run, Answer;
    if t == [] {
      assert s + t == s;
    } else {
      var k := |t| - 1;
      ReportsAppend(only, d, s, t[..k]);
      assert (s + t)[..|s| + k] == s + t[..k];
      AnswersAppend(only, d, s, t);
      assert Answer(only, d, s + t, |s| + k) == Answer(only, Run(only, d, s), t, k);
      RunAppend(only, d, s, t);
    }
  }

  lemma {:induction false} NoReports(only: bool, d: Decoder, s: seq<octet>)
    requires Legal(d.phase) && forall i | 0 <= i < |s| :: Answer(only, d, s, i) == 0
    ensures Reports(only, d, s) == []
  {
    hide Run, Answer;
    if s != [] {
      var k := |s| - 1;
      assert s[..k] + s[k..] == s;
      AnswersAppend(only, d, s[..k], s[k..]);
      NoReports(only, d, s[..k]);
    }
  }

  /** A sentence, and what comes before it on the line. */
  datatype Message = Message(noise: seq<octet>, body: seq<octet>, high: octet, low: octet)

  ghost predicate WellFormed(m: Message) {
    DOLLAR !in m.noise && Plain(m.body) && Digits(m.high, m.low) && !NoRoom(m.body)
  }

  function Wire(messages: seq<Message>): seq<octet> {
    if messages == [] then []
    else
      var m := messages[|messages| - 1];
      Wire(messages[..|messages| - 1]) + m.noise + Sentence(m.body, m.high, m.low)
  }

  ghost function AcceptedOf(only: bool, messages: seq<Message>): seq<Published> {
    if messages == [] then []
    else
      var m := messages[|messages| - 1];
      AcceptedOf(only, messages[..|messages| - 1]) +
      if Accepted(only, m.body, m.high, m.low) then
        [Published(Sentence(m.body, m.high, m.low), Copied(Split(m.body) + [[m.high, m.low]]))]
      else []
  }

  lemma {:induction false} NoiseIgnored(only: bool, d: Decoder, noise: seq<octet>)
    requires d.phase == Idle && DOLLAR !in noise
    ensures Run(only, d, noise) == d && Reports(only, d, noise) == []
  {
    if noise != [] {
      NoiseIgnored(only, d, noise[..|noise| - 1]);
    }
  }

  lemma SentenceReports(only: bool, d: Decoder, m: Message)
    requires Legal(d.phase) && WellFormed(m)
    ensures var s := Sentence(m.body, m.high, m.low);
            && Run(only, d, s).phase == Idle
            && Reports(only, d, s) ==
               if Accepted(only, m.body, m.high, m.low) then [Published(s, Copied(Split(m.body) + [[m.high, m.low]]))] else []
  {
    hide Step, Accepted, Copied, Split, Run, Answer;
    var s := Sentence(m.body, m.high, m.low);
    var k := |s| - 1;
    SentenceDecoded(only, d, m.body, m.high, m.low);
    assert s == s[..k] + s[k..];
    AnswersAppend(only, d, s[..k], s[k..]);
    NoReports(only, d, s[..k]);
  }

  /** A stream of sentences, good and bad, with anything but '$' between them: the publications are
      those of the acceptable sentences, each once and in order. */
  lemma {:induction false} StreamDecoded(only: bool, d: Decoder, messages: seq<Message>)
    requires d.phase == Idle && forall m | m in messages :: WellFormed(m)
    ensures Run(only, d, Wire(messages)).phase == Idle
    ensures Reports(only, d, Wire(messages)) == AcceptedOf(only, messages)
  {
    hide Step, Accepted, Copied, Split, Run, Reports, Answer, WellFormed;
    EmptyStream(only, d);
    if messages != [] {
      var k := |messages| - 1;
      var m, before := messages[k], Wire(messages[..k]);
      StreamDecoded(only, d, messages[..k]);
      StreamStep(only, Run(only, d, before), m);
      RunAppend(only, d, before, m.noise + Sentence(m.body, m.high, m.low));
      ReportsAppend(only, d, before, m.noise + Sentence(m.body, m.high, m.low));
      assert Wire(messages) == before + (m.noise + Sentence(m.body, m.high, m.low));
    }
  }

  /** Over such a stream decode never writes past the end of a buffer. */
  lemma {:induction false} StreamRoomy(only: bool, d: Decoder, messages: seq<Message>)
    requires d.phase == Idle && forall m | m in messages :: WellFormed(m)
    ensures Roomy(only, d, Wire(messages))
  {
    hide Step, Run, Roomy, WellFormed;
    if messages == [] {
      EmptyRoomy(only, d);
    } else {
      var k := |messages| - 1;
      var m, before := messages[k], Wire(messages[..k]);
      StreamRoomy(only, d, messages[..k]);
      StreamDecoded(only, d, messages[..k]);
      MessageRoomy(only, Run(only, d, before), m);
      RoomyAppend(only, d, before, m.noise + Sentence(m.body, m.high, m.low));
      assert Wire(messages) == before + (m.noise + Sentence(m.body, m.high, m.low));
    }
  }

  lemma EmptyRoomy(only: bool, d: Decoder)
    requires Legal(d.phase)
    ensures Roomy(only, d, [])
  {}

  lemma MessageRoomy(only: bool, d: Decoder, m: Message)
    requires d.phase == Idle && WellFormed(m)
    ensures Roomy(only, d, m.noise + Sentence(m.body, m.high, m.low))
  {
    NoiseRoomy(only, d, m.noise);
    NoiseIgnored(only, d, m.noise);
    hide Step, Run, Roomy, NoRoom;
    SentenceRoomyIff(only, d, m.body, m.high, m.low);
    RoomyAppend(only, d, m.noise, Sentence(m.body, m.high, m.low));
  }

  lemma NoiseRoomy(only: bool, d: Decoder, noise: seq<octet>)
    requires d.phase == Idle && DOLLAR !in noise
    ensures Roomy(only, d, noise)
  {
    forall i | 0 <= i < |noise|
      ensures HasRoom(Run(only, d, noise[..i]).phase, noise[i])
    {
      NoiseIgnored(only, d, noise[..i]);
    }
  }

  lemma EmptyStream(only: bool, d: Decoder)
    requires Legal(d.phase)
    ensures Run(only, d, []) == d && Reports(only, d, []) == []
  {}

  lemma StreamStep(only: bool, d: Decoder, m: Message)
    requires d.phase == Idle && WellFormed(m)
    ensures var s := m.noise + Sentence(m.body, m.high, m.low);
            && Run(only, d, s).phase == Idle
            && Reports(only, d, s) == AcceptedOf(only, [m])
  {
    hide Step, Accepted, Copied, Split, Run, Reports, Answer;
    NoiseIgnored(only, d, m.noise);
    SentenceReports(only, d, m);
    RunAppend(only, d, m.noise, Sentence(m.body, m.high, m.low));
    ReportsAppend(only, d, m.noise, Sentence(m.body, m.high, m.low));
    assert [m][..0] == [];
  }

  // ---- What the checksum says

  function HexDigit(v: nat): octet
    requires v < 16
  {
    if v < 10 then 48 + v else 55 + v
  }

  /** Of the upper-case digits, exactly those of the value claim it. */
  lemma DigitsClaim(v: nat, w: nat, x: nat)
    requires v < 16 && w < 16 && x < 256
    ensures Claimed(HexDigit(v), HexDigit(w)) == x <==> v == x / 16 && w == x % 16
  {}

  lemma MixCancels(p: word, q: word, c: octet, d: octet)
    ensures Mix(p, c) == Mix(q, c) <==> p == q
    ensures Mix(p, c) == Mix(p, d) <==> c == d
  {
    hide Exclusive, Power;
    WordPower();
    ExclusiveCancels(p, q, Widened(c), 16);
    ExclusiveCommutes(p, Widened(c), 16);
    ExclusiveCommutes(p, Widened(d), 16);
    ExclusiveCancels(Widened(c), Widened(d), p, 16);
  }

  /** The checksum of a body with one character changed is another one. */
  lemma {:induction false} ParityDiffers(body: seq<octet>, i: nat, c: octet)
    requires i < |body| && c != body[i]
    ensures Parity(body[i := c]) != Parity(body)
  {
    hide Mix;
    var k := |body| - 1;
    if i == k {
      assert body[i := c][..k] == body[..k];
      MixCancels(Parity(body[..k]), 0, c, body[i]);
    } else {
      assert body[i := c][..k] == body[..k][i := c];
      ParityDiffers(body[..k], i, c);
      MixCancels(Parity(body[..k][i := c]), Parity(body[..k]), body[k], 0);
    }
  }

  // ---- What the checksum is, bit by bit

  /** How many of the characters have bit k set; those above bit 7 are the sign. */
  function Ones(body: seq<octet>, k: nat): nat {
    if body == [] then 0 else Ones(body[..|body| - 1], k) + BitOf(body[|body| - 1], if k < 8 then k else 7)
  }

  /** The checksum of a body: each of its bits is set if and only if an odd number of characters have it set. */
  lemma {:induction false} ParityIsOddness(body: seq<octet>, k: nat)
    requires k < 16
    ensures BitOf(Parity(body), k) == Low(Ones(body, k))
  {
    if body == [] {
      BitsOfZero(k);
    } else {
      var b, c := body[..|body| - 1], body[|body| - 1];
      ParityIsOddness(b, k);
      WidenedBits(c, k);
      ExclusiveBits(Parity(b), Widened(c), 16, k);
      hide Exclusive, Widened, BitOf;
      LowOfSum(Ones(b, k), BitOf(c, if k < 8 then k else 7));
    }
  }

  /** A term is copied up to its first NUL. */
  lemma {:induction false} CopiedUpToNul(t: seq<octet>)
    ensures UpToNul(t) <= t && 0 !in UpToNul(t) && (UpToNul(t) != t ==> t[|UpToNul(t)|] == 0)
  {
    if t != [] && t[0] != 0 {
      CopiedUpToNul(t[1..]);
      assert t == [t[0]] + t[1..];
    }
  }

  // ---- One changed character

  /** What a sentence leads to on its own. */
  ghost function Publishes(only: bool, body: seq<octet>, high: octet, low: octet): seq<Published> {
    if Accepted(only, body, high, low) then [Published(Sentence(body, high, low), Copied(Split(body) + [[high, low]]))] else []
  }

  lemma AloneReports(only: bool, d: Decoder, body: seq<octet>, high: octet, low: octet)
    requires Legal(d.phase) && Plain(body) && Digits(high, low) && |body| < 96
    ensures var s := Sentence(body, high, low);
            Run(only, d, s).phase == Idle && Reports(only, d, s) == Publishes(only, body, high, low)
  {
    hide Step, Run, Reports, Accepted, Split, Fits;
    SentenceReports(only, d, Message([], body, high, low));
  }

  /** The start of a sentence, without its '*', leads to nothing. */
  lemma StartReports(only: bool, d: Decoder, body: seq<octet>)
    requires Legal(d.phase) && Plain(body)
    ensures Reports(only, d, [DOLLAR] + body) == []
  {
    hide Step, Run, Reports, Answer, Fits, After;
    BodyRead(only, d, body);
    NoReports(only, d, [DOLLAR] + body);
  }

  lemma ResetReports(only: bool, d: Decoder, c: octet)
    requires Legal(d.phase) && (c == CR || c == LF)
    ensures Run(only, d, [c]) == d.(phase := Idle) && Reports(only, d, [c]) == []
  {
    assert [c][..0] == [];
  }

  lemma ChangedToReset(only: bool, d: Decoder, a: seq<octet>, c: octet, rest: seq<octet>)
    requires Legal(d.phase) && Plain(a) && (c == CR || c == LF) && DOLLAR !in rest
    ensures Reports(only, d, ([DOLLAR] + a) + [c] + rest) == []
  {
    hide Step, Run, Reports;
    var t := [DOLLAR] + a;
    StartReports(only, d, a);
    var e := Run(only, d, t);
    ResetReports(only, e, c);
    ReportsAppend(only, d, t, [c]);
    RunAppend(only, d, t, [c]);
    NoiseIgnored(only, Run(only, e, [c]), rest);
    ReportsAppend(only, d, t + [c], rest);
  }

  lemma ChangedToStar(only: bool, d: Decoder, a: seq<octet>, rest: seq<octet>)
    requires Legal(d.phase) && Plain(a) && |a| < 96 && 2 <= |rest| && Digits(rest[0], rest[1]) && DOLLAR !in rest
    ensures Reports(only, d, ([DOLLAR] + a) + [STAR] + rest) == Publishes(only, a, rest[0], rest[1])
  {
    hide Step, Run, Reports, Publishes;
    var s := Sentence(a, rest[0], rest[1]);
    AloneReports(only, d, a, rest[0], rest[1]);
    NoiseIgnored(only, Run(only, d, s), rest[2..]);
    ReportsAppend(only, d, s, rest[2..]);
    assert ([DOLLAR] + a) + [STAR] + rest == s + rest[2..];
  }

  lemma ChangedToDollar(only: bool, d: Decoder, a: seq<octet>, b: seq<octet>, high: octet, low: octet)
    requires Legal(d.phase) && Plain(a) && Plain(b) && |b| < 96 && Digits(high, low)
    ensures Reports(only, d, ([DOLLAR] + a) + Sentence(b, high, low)) == Publishes(only, b, high, low)
  {
    hide Step, Run, Reports, Publishes;
    var t := [DOLLAR] + a;
    StartReports(only, d, a);
    AloneReports(only, Run(only, d, t), b, high, low);
    ReportsAppend(only, d, t, Sentence(b, high, low));
  }

  lemma ChangedToPlain(only: bool, d: Decoder, body: seq<octet>, high: octet, low: octet, i: nat, c: octet)
    requires Legal(d.phase) && Plain(body) && Digits(high, low) && Accepted(only, body, high, low)
    requires i < |body| && c != body[i] && IsPlain(c)
    ensures Reports(only, d, Sentence(body[i := c], high, low)) == []
  {
    hide Reports, Run, Bounded, Parity, Claimed;
    assert |body| < 96 by { BoundedLength(body); }
    assert forall x | x in body[i := c] :: x == c || x in body;
    AloneReports(only, d, body[i := c], high, low);
    ParityDiffers(body, i, c);
  }

  lemma BoundedLength(body: seq<octet>)
    requires Bounded(body)
    ensures |body| < 96
  {}

  /** An acceptable sentence with one character of its body changed, from any state. Nothing is published,
      unless the new character is one that ends or starts a sentence: then it is what that leaves of the
      old one, if that happens to be acceptable. */
  lemma OneCharacterChanged(only: bool, d: Decoder, body: seq<octet>, high: octet, low: octet, i: nat, c: octet)
    requires Legal(d.phase) && Plain(body) && Digits(high, low) && Accepted(only, body, high, low)
    requires i < |body| && c != body[i]
    ensures var rest := body[i + 1..] + [STAR, high, low];
            Reports(only, d, Sentence(body[i := c], high, low)) ==
            if c == STAR then Publishes(only, body[..i], rest[0], rest[1])
            else if c == DOLLAR then Publishes(only, body[i + 1..], high, low)
            else []
  {
    hide Reports, Publishes, Accepted;
    var a, b := body[..i], body[i + 1..];
    var rest := b + [STAR, high, low];
    AcceptedLength(only, body, high, low);
    assert (forall x | x in a :: x in body) && forall x | x in b :: x in body;
    assert Sentence(body[i := c], high, low) == ([DOLLAR] + a) + [c] + rest;
    if c == STAR {
      assert forall x | x in rest :: x in b || x == STAR || x == high || x == low;
      assert rest[0] in rest && rest[1] in rest;
      ChangedToStar(only, d, a, rest);
    } else if c == DOLLAR {
      assert [DOLLAR] + rest == Sentence(b, high, low);
      assert ([DOLLAR] + a) + [c] + rest == ([DOLLAR] + a) + Sentence(b, high, low);
      ChangedToDollar(only, d, a, b, high, low);
    } else if c == CR || c == LF {
      ChangedToReset(only, d, a, c, rest);
    } else {
      ChangedToPlain(only, d, body, high, low, i, c);
    }
  }

  lemma AcceptedLength(only: bool, body: seq<octet>, high: octet, low: octet)
    requires Accepted(only, body, high, low)
    ensures |body| < 96
  {}

  // ---- When what is left is acceptable

  /** The terms p are no longer than the first of the terms q. */
  ghost predicate StartsNoLonger(p: seq<seq<octet>>, q: seq<seq<octet>>) {
    |p| <= |q| && forall j | 0 <= j < |p| :: |p[j]| <= |q[j]|
  }

  lemma StartStays(p: seq<seq<octet>>, q: seq<seq<octet>>, last: seq<octet>, c: octet)
    requires StartsNoLonger(p, q + [last])
    ensures StartsNoLonger(p, q + [last] + [[]]) && StartsNoLonger(p, q + [last + [c]])
  {
    forall j | 0 <= j < |p|
      ensures |p[j]| <= |(q + [last + [c]])[j]|
    {
      assert |p[j]| <= |(q + [last])[j]|;
    }
  }

  /** The terms of the start of a body are no longer than those of the body, and no more. */
  lemma {:induction false} SplitStart(a: seq<octet>, b: seq<octet>)
    ensures StartsNoLonger(Split(a), Split(a + b))
  {
    if b == [] {
      assert a + b == a;
    } else {
      hide StartsNoLonger;
      var k := |b| - 1;
      SplitStart(a, b[..k]);
      hide Split;
      var q := Split(a + b[..k]);
      assert a + b == a + b[..k] + [b[k]];
      LastOf(q);
      StartStays(Split(a), q[..|q| - 1], q[|q| - 1], b[k]);
      SplitLonger(a + b[..k], q[..|q| - 1], q[|q| - 1], b[k]);
    }
  }

  /** The last of the terms p are no shorter than the terms q. */
  ghost predicate EndsNoShorter(p: seq<seq<octet>>, q: seq<seq<octet>>) {
    |q| <= |p| && forall j | 0 <= j < |q| :: |q[j]| <= |p[|p| - |q| + j]|
  }

  lemma NoShorterThanNone(p: seq<seq<octet>>)
    requires p != []
    ensures EndsNoShorter(p, [[]])
  {}

  lemma BothLonger(p: seq<seq<octet>>, q: seq<seq<octet>>, last: seq<octet>, last': seq<octet>, c: octet)
    requires EndsNoShorter(p + [last], q + [last'])
    ensures EndsNoShorter(p + [last] + [[]], q + [last'] + [[]])
    ensures EndsNoShorter(p + [last + [c]], q + [last' + [c]])
  {
    assert (q + [last'])[|q|] == last' && (p + [last])[|p|] == last;
    forall j | 0 <= j < |q|
      ensures |q[j]| <= |p[|p| - |q| + j]|
    {
      assert (q + [last'])[j] == q[j];
    }
  }

  /** Nor are those of its end, counted from the last. */
  lemma {:induction false} SplitEnd(a: seq<octet>, b: seq<octet>)
    ensures EndsNoShorter(Split(a + b), Split(b))
  {
    hide EndsNoShorter;
    if b == [] {
      NoShorterThanNone(Split(a + b));
    } else {
      var k := |b| - 1;
      SplitEnd(a, b[..k]);
      var p, q := Split(a + b[..k]), Split(b[..k]);
      assert a + b == a + b[..k] + [b[k]] && b == b[..k] + [b[k]];
      hide Split;
      LastOf(p);
      LastOf(q);
      BothLonger(p[..|p| - 1], q[..|q| - 1], p[|p| - 1], q[|q| - 1], b[k]);
      SplitLonger(a + b[..k], p[..|p| - 1], p[|p| - 1], b[k]);
      SplitLonger(b[..k], q[..|q| - 1], q[|q| - 1], b[k]);
    }
  }

  lemma PartsBounded(a: seq<octet>, b: seq<octet>)
    requires Bounded(a + b)
    ensures Bounded(a) && Bounded(b)
  {
    SplitStart(a, b);
    SplitEnd(a, b);
    hide Split;
    var whole, p, q := Split(a + b), Split(a), Split(b);
    forall t | t in p
      ensures |t| < TERM
    {
      var j :| 0 <= j < |p| && p[j] == t;
      assert whole[j] in whole;
    }
    forall t | t in q
      ensures |t| < TERM
    {
      var j :| 0 <= j < |q| && q[j] == t;
      assert whole[|whole| - |q| + j] in whole;
    }
  }

  lemma {:induction false} ParityConcat(a: seq<octet>, b: seq<octet>)
    ensures Parity(a + b) == Exclusive(Parity(a), Parity(b), 16)
  {
    hide Exclusive, Power;
    if b == [] {
      assert a + b == a;
      WordPower();
      ExclusiveZero(Parity(a), 16);
    } else {
      var k := |b| - 1;
      assert (a + b)[..|a| + k] == a + b[..k] && (a + b)[|a| + k] == b[k];
      ParityConcat(a, b[..k]);
      ExclusiveAssociates(Parity(a), Parity(b[..k]), Widened(b[k]), 16);
    }
  }

  lemma SameParityIff(a: seq<octet>, b: seq<octet>)
    ensures Parity(a + b) == Parity(b) <==> Parity(a) == 0
  {
    hide Parity, Exclusive, Power;
    ParityConcat(a, b);
    WordPower();
    ExclusiveZero(Parity(b), 16);
    ExclusiveCommutes(Parity(b), 0, 16);
    ExclusiveCancels(Parity(a), 0, Parity(b), 16);
  }

  /** A character that has become '$' lets another sentence through if and only if the old characters up
      to and including it cancel out; with the filter, what follows must be of the type it asks for. */
  lemma DollarPublishesIff(only: bool, body: seq<octet>, high: octet, low: octet, i: nat)
    requires Accepted(only, body, high, low) && i < |body|
    ensures Publishes(only, body[i + 1..], high, low) != [] <==>
            Parity(body[..i + 1]) == 0 && (!only || IsGprmc(body[i + 1..]))
  {
    hide Bounded, Parity, IsGprmc, Claimed, Copied, Split;
    assert body == body[..i + 1] + body[i + 1..];
    PartsBounded(body[..i + 1], body[i + 1..]);
    SameParityIff(body[..i + 1], body[i + 1..]);
  }

  /** A character that has become '*' does if and only if the two that follow it claim the parity of those
      before it; with the filter, it must come after the type. */
  lemma StarPublishesIff(only: bool, body: seq<octet>, high: octet, low: octet, i: nat, x: octet, y: octet)
    requires Accepted(only, body, high, low) && i < |body|
    ensures Publishes(only, body[..i], x, y) != [] <==> Parity(body[..i]) == Claimed(x, y) && (!only || 6 <= i)
  {
    hide Bounded, Parity, Claimed, Copied, Split;
    assert body == body[..i] + body[i..];
    PartsBounded(body[..i], body[i..]);
    if 6 <= i && only {
      assert body[..i][..6] == body[..6];
    }
  }

  // ---- Two sentences in which that happens

  lemma ParityNext(body: seq<octet>, c: octet, p: word, w: word, q: word)
    requires Parity(body) == p && Widened(c) == w && Exclusive(p, w, 16) == q
    ensures Parity(body + [c]) == q
  {
    hide Exclusive;
    assert (body + [c])[..|body|] == body;
  }

  lemma ExclusiveValues()
    ensures Exclusive(0, 0x41, 16) == 0x41 && Exclusive(0x41, 0x42, 16) == 0x03
    ensures Exclusive(0x03, 0x34, 16) == 0x37 && Exclusive(0x37, 0x31, 16) == 0x06
    ensures Exclusive(0x41, 0x41, 16) == 0 && Exclusive(0, 0x42, 16) == 0x42
  {
    WordPower();
    hide Exclusive, Power;
    ExclusiveZero(0x41, 16);
    ExclusiveCommutes(0x41, 0, 16);
    ExclusiveZero(0x42, 16);
    ExclusiveCommutes(0x42, 0, 16);
    ExclusiveSelf(0x41, 16);
    ExclusiveSelf(0x10, 14);
    ExclusiveNext(0x20, 0x21, 15, 0);
    ExclusiveNext(0x41, 0x42, 16, 1);
    ExclusiveSelf(0, 10);
    ExclusiveNext(0, 1, 11, 0);
    ExclusiveNext(0, 3, 12, 1);
    ExclusiveNext(0, 6, 13, 3);
    ExclusiveNext(0, 13, 14, 6);
    ExclusiveNext(1, 26, 15, 13);
    ExclusiveNext(0x03, 0x34, 16, 27);
    ExclusiveSelf(6, 13);
    ExclusiveNext(0x0D, 0x0C, 14, 0);
    ExclusiveNext(0x1B, 0x18, 15, 1);
    ExclusiveNext(0x37, 0x31, 16, 3);
  }

  lemma ParityOfBodies()
    ensures Parity([0x41]) == 0x41 && Parity([0x41, 0x42, 0x34, 0x31]) == 0x06
    ensures Parity([0x41, 0x41]) == 0 && Parity([0x41, 0x41, 0x42]) == 0x42
  {
    EmptyParity();
    ExclusiveValues();
    hide Parity, Exclusive;
    assert [] + [0x41] == [0x41];
    ParityNext([], 0x41, 0, 0x41, 0x41);
    assert [0x41] + [0x42] == [0x41, 0x42] && [0x41] + [0x41] == [0x41, 0x41];
    ParityNext([0x41], 0x42, 0x41, 0x42, 0x03);
    ParityNext([0x41], 0x41, 0x41, 0x41, 0);
    assert [0x41, 0x42] + [0x34] == [0x41, 0x42, 0x34] && [0x41, 0x41] + [0x42] == [0x41, 0x41, 0x42];
    ParityNext([0x41, 0x42], 0x34, 0x03, 0x34, 0x37);
    ParityNext([0x41, 0x41], 0x42, 0, 0x42, 0x42);
    assert [0x41, 0x42, 0x34] + [0x31] == [0x41, 0x42, 0x34, 0x31];
    ParityNext([0x41, 0x42, 0x34], 0x31, 0x37, 0x31, 0x06);
  }

  lemma EmptyParity()
    ensures Parity([]) == 0
  {}

  lemma {:induction false} OneTerm(body: seq<octet>)
    requires COMMA !in body
    ensures Split(body) == [body]
  {
    if body != [] {
      var b, c := body[..|body| - 1], body[|body| - 1];
      OneTerm(b);
      hide Split;
      LastOf(body);
      assert [] + [b] == [b] && [] + [b + [c]] == [b + [c]];
      SplitLonger(b, [], b, c);
    }
  }

  lemma NoNul(t: seq<octet>)
    requires 0 !in t
    ensures UpToNul(t) == t
  {}

  lemma CopiedPair(t: seq<octet>, u: seq<octet>)
    requires 0 !in t && 0 !in u
    ensures Copied([t] + [u]) == [t, u]
  {
    NoNul(t);
    NoNul(u);
  }

  lemma AloneAccepted(body: seq<octet>, high: octet, low: octet)
    requires 0 < |body| <= 4 && COMMA !in body && Parity(body) == Claimed(high, low)
    ensures Accepted(false, body, high, low)
  {
    OneTerm(body);
    hide Split, Parity, Claimed;
  }

  lemma AlonePublished(body: seq<octet>, high: octet, low: octet)
    requires 0 < |body| <= 4 && COMMA !in body && 0 !in body && high != 0 && low != 0
    requires Parity(body) == Claimed(high, low)
    ensures Publishes(false, body, high, low) == [Published(Sentence(body, high, low), [body, [high, low]])]
  {
    hide Split, Bounded, Parity, Claimed, UpToNul, Accepted, Copied, Sentence;
    OneTerm(body);
    AloneAccepted(body, high, low);
    CopiedPair(body, [high, low]);
  }

  lemma Claims()
    ensures Claimed(0x30, 0x36) == 0x06 && Claimed(0x34, 0x31) == 0x41 && Claimed(0x34, 0x32) == 0x42
  {}

  lemma StarTakes(d: Decoder, a: seq<octet>, c: octet, x: octet, y: octet, high: octet, low: octet)
    requires Legal(d.phase) && |a| == 1 && Plain(a + [c, x, y]) && Digits(high, low) && c != STAR
    requires Parity(a + [c, x, y]) == Claimed(high, low) && Parity(a) == Claimed(x, y)
    requires COMMA !in a + [c, x, y] && 0 !in a + [c, x, y]
    ensures Accepted(false, a + [c, x, y], high, low)
    ensures Reports(false, d, Sentence(a + [STAR, x, y], high, low)) == [Published(Sentence(a, x, y), [a, [x, y]])]
  {
    hide Step, Run, Reports, Parity, Publishes, Accepted, Copied, Claimed, Sentence;
    var body := a + [c, x, y];
    assert body[..1] == a && body[1 := STAR] == a + [STAR, x, y] && body[1] == c && body[2] == x && body[3] == y;
    AloneAccepted(body, high, low);
    AlonePublished(a, x, y);
    OneCharacterChanged(false, d, body, high, low, 1, STAR);
  }

  lemma DollarTakes(d: Decoder, a: seq<octet>, c: octet, b: seq<octet>, high: octet, low: octet)
    requires Legal(d.phase) && |a| == 1 && 0 < |b| <= 2 && Plain(a + [c] + b) && Digits(high, low) && c != DOLLAR
    requires Parity(a + [c]) == 0 && Parity(b) == Claimed(high, low)
    requires COMMA !in a + [c] + b && 0 !in b && high != 0 && low != 0
    ensures Accepted(false, a + [c] + b, high, low)
    ensures Reports(false, d, Sentence(a + [DOLLAR] + b, high, low)) == [Published(Sentence(b, high, low), [b, [high, low]])]
  {
    hide Step, Run, Reports, Parity, Publishes, Accepted, Copied, Claimed, Sentence;
    var body := a + [c] + b;
    assert body[2..] == b && body[1 := DOLLAR] == a + [DOLLAR] + b && body[1] == c;
    assert forall x | x in b :: x in body;
    SameParityIff(a + [c], b);
    AloneAccepted(body, high, low);
    AlonePublished(b, high, low);
    OneCharacterChanged(false, d, body, high, low, 1, DOLLAR);
  }

  /** "$AB41*06" with its second character changed to '*' is taken for "$A*41". */
  lemma StarTakesOver(d: Decoder)
    requires Legal(d.phase)
    ensures Accepted(false, [0x41, 0x42, 0x34, 0x31], 0x30, 0x36)
    ensures Reports(false, d, Sentence([0x41, STAR, 0x34, 0x31], 0x30, 0x36))
         == [Published(Sentence([0x41], 0x34, 0x31), [[0x41], [0x34, 0x31]])]
  {
    hide Run, Reports, Parity, Accepted, Claimed, Sentence;
    ParityOfBodies();
    Claims();
    assert [0x41] + [0x42, 0x34, 0x31] == [0x41, 0x42, 0x34, 0x31] && [0x41] + [STAR, 0x34, 0x31] == [0x41, STAR, 0x34, 0x31];
    StarTakes(d, [0x41], 0x42, 0x34, 0x31, 0x30, 0x36);
  }

  /** "$AAB*42" with its second character changed to '$' is taken for "$B*42". */
  lemma DollarTakesOver(d: Decoder)
    requires Legal(d.phase)
    ensures Accepted(false, [0x41, 0x41, 0x42], 0x34, 0x32)
    ensures Reports(false, d, Sentence([0x41, DOLLAR, 0x42], 0x34, 0x32))
         == [Published(Sentence([0x42], 0x34, 0x32), [[0x42], [0x34, 0x32]])]
  {
    hide Run, Reports, Parity, Accepted, Claimed, Sentence;
    ParityOfBodies();
    Claims();
    assert [0x41] + [0x41] == [0x41, 0x41] && [0x41] + [0x41] + [0x42] == [0x41, 0x41, 0x42];
    assert [0x41] + [DOLLAR] + [0x42] == [0x41, DOLLAR, 0x42];
    SameParityIff([0x41, 0x41], [0x42]);
    assert [0x41, 0x41] + [0x42] == [0x41, 0x41, 0x42];
    DollarTakes(d, [0x41], 0x41, [0x42], 0x34, 0x32);
  }
}

// The decoder as it is: fixed buffers, each term in a row of its own that a NUL ends.
module NmeaClass {
  import opened NmeaChecksum
  import opened NmeaDecoder

  /** The space of one term. */
  type row = s: seq<octet> | |s| == TERM witness [0, 0, 0, 0, 0, 0, 0, 0, 0, 0, 0, 0, 0, 0, 0]

  /** The row holds the term as a C string. */
  ghost predicate HoldsTerm(r: row, t: seq<octet>) {
    |t| < TERM && r[..|t|] == t && r[|t|] == 0
  }

  ghost predicate HoldsTerms(rows: seq<row>, terms: seq<seq<octet>>) {
    |terms| <= |rows| && forall i | 0 <= i < |terms| :: HoldsTerm(rows[i], terms[i])
  }

  ghost predicate HoldsSentence(buffer: seq<octet>, s: seq<octet>) {
    |s| < |buffer| && buffer[..|s|] == s && buffer[|s|] == 0
  }

  class NMEA {
    const only: bool
    var state: nat
    var n: int
    var terms: nat
    var nt: nat
    var tag: nat
    var parity: word
    const sentence: array<octet>
    const term: array<row>
    const fSentence: array<octet>
    var fTerms: nat
    const fTerm: array<row>
    ghost var view: Decoder

    ghost predicate Shape()
      reads this
    {
      && sentence.Length == fSentence.Length == SENTENCE && sentence != fSentence
      && term.Length == fTerm.Length == TERMS && term != fTerm
      && -1 <= n <= SENTENCE && terms <= TERMS && nt <= TERM
    }

    /** The buffers hold what the phase says was read. */
    ghost predicate Holds(p: Phase)
      requires Shape()
      reads this, sentence, term
    {
      match p
      case Idle => state == 0
      case Reading(stage, s, done, current, tag', parity') =>
        && 1 <= stage <= 3 && state == stage && 1 <= n == |s| && terms == |done| && nt == |current|
        && tag == tag' && parity == parity'
        && sentence[..n] == s && HoldsTerms(term[..], done)
        && (if terms < TERMS then term[terms][..nt] == current else nt == 0)
        && (stage == 2 ==> current == []) && (stage == 3 ==> |current| == 1)
    }

    ghost predicate Shows(p: Published)
      requires Shape()
      reads this, fSentence, fTerm
    {
      HoldsSentence(fSentence[..], p.sentence) && fTerms == |p.terms| && HoldsTerms(fTerm[..], p.terms)
    }

    ghost predicate Valid()
      reads this, sentence, term, fSentence, fTerm
    {
      Shape() && Legal(view.phase) && Holds(view.phase) && Shows(view.published)
    }

    constructor (connect: bool)
      ensures Valid() && only == connect && view == Decoder(Idle, Published([], []))
      ensures fresh(sentence) && fresh(term) && fresh(fSentence) && fresh(fTerm)
    {
      only := connect;
      state, n, terms, nt, tag, parity, fTerms := 0, 0, 0, 0, 0, 0, 0;
      sentence := new octet[SENTENCE];
      fSentence := new octet[SENTENCE](_ => 0);
      term := new row[TERMS](_ => seq(TERM, _ => 0));
      fTerm := new row[TERMS](_ => seq(TERM, _ => 0));
      view := Decoder(Idle, Published([], []));
    }

    /** Append to the sentence. */
    method Keep(c: octet)
      requires Shape() && 0 <= n < SENTENCE
      modifies sentence, this`n
      ensures n == old(n) + 1 && sentence[..n] == old(sentence[..n]) + [c]
    {
      sentence[n] := c;
      n := n + 1;
    }

    /** Append to the current term. */
    method Extend(ghost done: seq<seq<octet>>, c: octet)
      requires Shape() && terms < TERMS && nt < TERM && |done| == terms && HoldsTerms(term[..], done)
      modifies term, this`nt
      ensures Shape() && HoldsTerms(term[..], done) && nt == old(nt) + 1 && term[terms][..nt] == old(term[terms][..nt]) + [c]
    {
      ghost var before := term[..];
      term[terms] := term[terms][nt := c];
      nt := nt + 1;
      forall i | 0 <= i < |done|
        ensures HoldsTerm(term[i], done[i])
      {
        assert term[i] == before[i];
      }
    }

    /** End the current term. */
    method EndTerm(ghost done: seq<seq<octet>>)
      requires Shape() && terms < TERMS && nt < TERM && |done| == terms && HoldsTerms(term[..], done)
      modifies term, this`terms
      ensures Shape() && terms == old(terms) + 1 && HoldsTerms(term[..], done + [old(term[terms][..nt])])
    {
      ghost var current := term[terms][..nt];
      term[terms] := term[terms][nt := 0];
      terms := terms + 1;
      assert HoldsTerm(term[terms - 1], current);
      forall i | 0 <= i < terms
        ensures HoldsTerm(term[i], (done + [current])[i])
      {
        assert i < terms - 1 ==> term[i] == old(term[..])[i];
      }
    }

    /** The copy of an accepted sentence. */
    method PublishSentence(ghost s: seq<octet>)
      requires Shape() && n == |s| + 1 && n <= SENTENCE && HoldsSentence(sentence[..], s)
      modifies fSentence, this`n
      ensures n == -1 && HoldsSentence(fSentence[..], s)
    {
      ghost var m := n;
      n := n - 1;
      while n >= 0
        invariant -1 <= n < m
        invariant forall i | n < i < m :: fSentence[i] == sentence[i]
      {
        fSentence[n] := sentence[n];
        n := n - 1;
      }
      assert sentence[..][..|s|] == s && sentence[..][|s|] == 0;
      forall i | 0 <= i < |s|
        ensures fSentence[..][..|s|][i] == s[i]
      {
        assert sentence[..][..|s|][i] == s[i];
      }
    }

    /** The copy of one term, up to its NUL. */
    method PublishTerm(ghost t: seq<octet>)
      requires Shape() && fTerms < TERMS && HoldsTerm(term[fTerms], t)
      modifies fTerm, this`nt
      ensures Shape() && HoldsTerm(fTerm[fTerms], UpToNul(t))
      ensures forall i | 0 <= i < TERMS && i != fTerms :: fTerm[i] == old(fTerm[i])
    {
      nt := 0;
      StringLength(term[fTerms], t, 0);
      while term[fTerms][nt] != 0
        invariant nt <= |UpToNul(t)| < TERM
        invariant fTerm[fTerms][..nt] == UpToNul(t)[..nt]
        invariant forall i | 0 <= i < TERMS && i != fTerms :: fTerm[i] == old(fTerm[i])
        decreases TERM - nt
      {
        StringLength(term[fTerms], t, nt);
        fTerm[fTerms] := fTerm[fTerms][nt := term[fTerms][nt]];
        assert UpToNul(t)[..nt + 1] == UpToNul(t)[..nt] + [UpToNul(t)[nt]];
        nt := nt + 1;
      }
      StringLength(term[fTerms], t, nt);
      fTerm[fTerms] := fTerm[fTerms][nt := 0];
      assert UpToNul(t)[..nt] == UpToNul(t);
    }

    method PublishTerms(ghost done: seq<seq<octet>>)
      requires Shape() && terms == |done| && HoldsTerms(term[..], done)
      modifies fTerm, this`nt, this`fTerms
      ensures Shape() && fTerms == |done| && HoldsTerms(fTerm[..], Copied(done))
    {
      fTerms := 0;
      while fTerms < terms
        invariant fTerms <= terms && Shape()
        invariant forall i | 0 <= i < fTerms :: HoldsTerm(fTerm[i], UpToNul(done[i]))
      {
        assert term[..][fTerms] == term[fTerms];
        PublishTerm(done[fTerms]);
        fTerms := fTerms + 1;
      }
    }

    /** A character before the checksum. */
    method DecodeBody(c: octet)
      requires Valid() && view.phase.Reading? && view.phase.stage == 1 && !Overrun(view.phase)
      modifies this`n, this`tag, this`parity, this`terms, this`nt, this`state, this`view, sentence, term
      ensures Valid() && view == old(view).(phase := Collect(old(view).phase, c))
    {
      hide HoldsTerms, HoldsSentence, Mix;
      ghost var p := view.phase;
      if n < 7 {
        if c == GPRMC_TERM[n] { tag := tag + 1; }
      }
      Keep(c);
      if c == COMMA {
        EndTerm(p.done);
        nt := 0;
        parity := Mix(parity, c);
      } else if c == STAR {
        EndTerm(p.done);
        nt := 0;
        state := 2;
      } else {
        Extend(p.done, c);
        parity := Mix(parity, c);
      }
      view := view.(phase := Collect(p, c));
    }

    /** Append the last character of the sentence, and its terminator. */
    method KeepLast(ghost s: seq<octet>, c: octet)
      requires Shape() && 0 <= n == |s| && n + 2 <= SENTENCE && sentence[..n] == s
      modifies sentence, this`n
      ensures n == |s| + 2 && HoldsSentence(sentence[..], s + [c])
    {
      Keep(c);
      sentence[n] := 0;
      n := n + 1;
    }

    /** The last character of the checksum. */
    method DecodeLast(c: octet) returns (r: nat)
      requires Valid() && view.phase.Reading? && view.phase.stage == 3 && !Overrun(view.phase) && n + 2 <= SENTENCE
      modifies this, sentence, term, fSentence, fTerm
      ensures Valid() && (view, r) == Last(only, old(view), c)
    {
      hide HoldsTerms, HoldsSentence, AfterLow, Copied;
      ghost var p := view.phase;
      KeepLast(p.sentence, c);
      Extend(p.done, c);
      EndTerm(p.done);
      state := 0;
      parity := AfterLow(parity, c);
      r := 0;
      view := view.(phase := Idle);
      if parity == 0 {
        if !only || tag == 6 {
          PublishSentence(p.sentence + [c]);
          PublishTerms(p.done + [p.current + [c]]);
          view := Decoder(Idle, Published(p.sentence + [c], Copied(p.done + [p.current + [c]])));
          r := 1;
        }
      }
    }

    /** A new sentence. */
    method Restart()
      requires Valid()
      modifies this`n, this`tag, this`parity, this`terms, this`nt, this`state, this`view, sentence
      ensures Valid() && view == old(view).(phase := Reading(1, [DOLLAR], [], [], 0, 0))
    {
      hide HoldsTerms, HoldsSentence;
      tag, parity, terms, nt := 0, 0, 0, 0;
      n := 0;
      Keep(DOLLAR);
      NoTerms(term[..]);
      state := 1;
      view := view.(phase := Reading(1, [DOLLAR], [], [], 0, 0));
    }

    /** The first character of the checksum. */
    method DecodeHigh(c: octet)
      requires Valid() && view.phase.Reading? && view.phase.stage == 2 && !Overrun(view.phase)
      modifies this`n, this`nt, this`parity, this`state, this`view, sentence, term
      ensures Valid() && view == old(view).(phase := High(old(view).phase, c))
    {
      hide HoldsTerms, HoldsSentence, AfterHigh;
      ghost var p := view.phase;
      Keep(c);
      Extend(p.done, c);
      parity := AfterHigh(parity, c);
      state := 3;
      view := view.(phase := High(p, c));
    }

    /** decode. The last character of a sentence of exactly 100 would have the terminator written past
        the end of its buffer. */
    method Decode(c: octet) returns (r: nat)
      requires Valid() && HasRoom(view.phase, c)
      modifies this, sentence, term, fSentence, fTerm
      ensures Valid() && (view, r) == Step(only, old(view), c)
    {
      hide HoldsTerms, HoldsSentence, Last, Collect, High;
      r := 0;
      if n >= SENTENCE || terms >= TERMS || nt >= TERM { state := 0; }
      if c == LF || c == CR { state := 0; }
      if c == DOLLAR {
        if state == 0 { view := view.(phase := Idle); }
        Restart();
        return;
      }
      match state {
        case 1 => DecodeBody(c);
        case 2 => DecodeHigh(c);
        case 3 => r := DecodeLast(c);
        case _ =>
          state := 0;
          view := view.(phase := Idle);
      }
    }
  }

  lemma NoTerms(rows: seq<row>)
    ensures HoldsTerms(rows, [])
  {}

  lemma StringLength(r: row, t: seq<octet>, k: nat)
    requires HoldsTerm(r, t) && k <= |UpToNul(t)|
    ensures |UpToNul(t)| <= |t|
    ensures r[k] == 0 <==> k == |UpToNul(t)|
    ensures k < |UpToNul(t)| ==> UpToNul(t)[k] == r[k]
  {
    CopiedUpToNul(t);
    var u := UpToNul(t);
    assert k < |u| ==> u[k] in u;
    assert k < |t| ==> r[..|t|][k] == t[k];
  }
}

/** The exclusive or of numbers, bit by bit. */
module NmeaChecksum {

  /** A char: its eight bits as a number. */
  type octet = x: int | 0 <= x < 256

  /** An int of 16 bits, as those bits. */
  type word = x: int | 0 <= x < 65536

  function Power(n: nat): nat {
    if n == 0 then 1 else 2 * Power(n - 1)
  }

  function Half(x: nat): nat {
    x / 2
  }

  function Low(x: nat): nat {
    x % 2
  }

  /** The exclusive or of so many bits. */
  function Exclusive(x: nat, y: nat, bits: nat): (r: nat)
    ensures r < Power(bits)
    decreases bits, x, y
  {
    if bits == 0 then 0 else 2 * Exclusive(Half(x), Half(y), bits - 1) + Low(x + y)
  }

  /** A char, which is signed, as an int. */
  function Widened(c: octet): word {
    if c < 128 then c else c + 0xFF00
  }

  lemma WordPower()
    ensures Power(16) == 65536
  {
    assert Power(2) == 4;
    assert Power(4) == 16;
    assert Power(6) == 64;
    assert Power(8) == 256;
    assert Power(10) == 1024;
    assert Power(12) == 4096;
    assert Power(14) == 16384;
  }

  lemma ExclusiveUnfolds(x: nat, y: nat, bits: nat)
    requires bits > 0
    ensures Exclusive(x, y, bits) == 2 * Exclusive(Half(x), Half(y), bits - 1) + Low(x + y)
  {}

  lemma LowCancels(x: nat, y: nat, z: nat)
    ensures Low(x + z) == Low(y + z) <==> Low(x) == Low(y)
    ensures x == y <==> Half(x) == Half(y) && Low(x) == Low(y)
    ensures 0 <= Low(x) <= 1
  {}

  lemma {:induction false} ExclusiveCancels(x: nat, y: nat, z: nat, bits: nat)
    requires x < Power(bits) && y < Power(bits)
    ensures Exclusive(x, z, bits) == Exclusive(y, z, bits) <==> x == y
  {
    if bits > 0 {
      assert Half(x) < Power(bits - 1) && Half(y) < Power(bits - 1);
      ExclusiveCancels(Half(x), Half(y), Half(z), bits - 1);
      LowCancels(x, y, z);
      LowCancels(x + z, y + z, 0);
      hide Half, Low, Exclusive;
      ExclusiveUnfolds(x, z, bits);
      ExclusiveUnfolds(y, z, bits);
    }
  }

  lemma {:induction false} ExclusiveCommutes(x: nat, y: nat, bits: nat)
    ensures Exclusive(x, y, bits) == Exclusive(y, x, bits)
  {
    if bits > 0 {
      ExclusiveCommutes(Half(x), Half(y), bits - 1);
    }
  }

  lemma ExclusiveHalves(x: nat, y: nat, bits: nat)
    requires bits > 0
    ensures Half(Exclusive(x, y, bits)) == Exclusive(Half(x), Half(y), bits - 1)
    ensures Low(Exclusive(x, y, bits)) == Low(x + y)
  {}

  lemma AssociateStep(x: nat, y: nat, z: nat, bits: nat)
    requires bits > 0
    requires Exclusive(Exclusive(Half(x), Half(y), bits - 1), Half(z), bits - 1)
          == Exclusive(Half(x), Exclusive(Half(y), Half(z), bits - 1), bits - 1)
    ensures Exclusive(Exclusive(x, y, bits), z, bits) == Exclusive(x, Exclusive(y, z, bits), bits)
  {
    hide Half, Low, Exclusive;
    ExclusiveHalves(x, y, bits);
    ExclusiveHalves(y, z, bits);
    LowBits(x, y, z, Exclusive(x, y, bits), Exclusive(y, z, bits));
    ExclusiveUnfolds(Exclusive(x, y, bits), z, bits);
    ExclusiveUnfolds(x, Exclusive(y, z, bits), bits);
  }

  lemma {:induction false} ExclusiveAssociates(x: nat, y: nat, z: nat, bits: nat)
    ensures Exclusive(Exclusive(x, y, bits), z, bits) == Exclusive(x, Exclusive(y, z, bits), bits)
  {
    if bits > 0 {
      ExclusiveAssociates(Half(x), Half(y), Half(z), bits - 1);
      AssociateStep(x, y, z, bits);
    }
  }

  lemma LowBits(x: nat, y: nat, z: nat, a: nat, b: nat)
    requires Low(a) == Low(x + y) && Low(b) == Low(y + z)
    ensures Low(a + z) == Low(x + b)
  {}

  lemma {:induction false} ExclusiveZero(x: nat, bits: nat)
    requires x < Power(bits)
    ensures Exclusive(x, 0, bits) == x
  {
    if bits > 0 {
      ExclusiveZero(Half(x), bits - 1);
    }
  }

  function BitOf(n: nat, k: nat): nat {
    if k == 0 then Low(n) else BitOf(Half(n), k - 1)
  }

  lemma {:induction false} ExclusiveBits(x: nat, y: nat, bits: nat, k: nat)
    requires k < bits
    ensures BitOf(Exclusive(x, y, bits), k) == Low(BitOf(x, k) + BitOf(y, k))
  {
    ExclusiveHalves(x, y, bits);
    if k == 0 {
      LowOfSum(x, y);
    } else {
      ExclusiveBits(Half(x), Half(y), bits - 1, k - 1);
      hide Half, Low, Exclusive;
    }
  }

  lemma LowOfSum(x: nat, y: nat)
    ensures Low(x + y) == Low(Low(x) + Low(y)) == Low(x + Low(y)) == Low(Low(x) + y)
  {}

  lemma HalfOfSum(n: nat, t: nat)
    ensures Half(n + 2 * t) == Half(n) + t && Low(n + 2 * t) == Low(n)
  {}

  /** Adding a multiple of a power of two leaves the bits below it, and decides those above. */
  lemma {:induction false} BitsBelow(n: nat, m: nat, j: nat, k: nat)
    requires k < j
    ensures BitOf(n + Power(j) * m, k) == BitOf(n, k)
  {
    var t := Power(j - 1) * m;
    assert Power(j) * m == 2 * t;
    HalfOfSum(n, t);
    if k > 0 {
      BitsBelow(Half(n), m, j - 1, k - 1);
    }
  }

  lemma {:induction false} BitsAbove(n: nat, m: nat, j: nat, k: nat)
    requires n < Power(j)
    ensures BitOf(n + Power(j) * m, j + k) == BitOf(m, k)
  {
    if j > 0 {
      var t := Power(j - 1) * m;
      assert Power(j) * m == 2 * t;
      HalfOfSum(n, t);
      BitsAbove(Half(n), m, j - 1, k);
    }
  }

  lemma {:induction false} BitsOfZero(k: nat)
    ensures BitOf(0, k) == 0
  {
    if k > 0 {
      BitsOfZero(k - 1);
    }
  }

  lemma BitsOf255(k: nat)
    requires k < 8
    ensures BitOf(255, k) == 1
  {
    assert BitOf(1, 0) == 1 && BitOf(3, 1) == 1;
    assert BitOf(7, 2) == 1 && BitOf(15, 3) == 1;
    assert BitOf(31, 4) == 1 && BitOf(63, 5) == 1;
    assert BitOf(127, 6) == 1 && BitOf(255, 7) == 1;
    assert BitOf(255, 0) == 1 && BitOf(255, 1) == BitOf(127, 0) == 1;
    assert BitOf(255, 2) == BitOf(63, 0) == 1 && BitOf(255, 3) == BitOf(31, 0) == 1;
    assert BitOf(255, 4) == BitOf(15, 0) == 1 && BitOf(255, 5) == BitOf(7, 0) == 1 && BitOf(255, 6) == BitOf(3, 0) == 1;
  }

  lemma SignBit(c: octet)
    ensures BitOf(c, 7) == if c < 128 then 0 else 1
  {
    assert Power(7) == 128;
    if c < 128 {
      BitsAbove(c, 0, 7, 0);
    } else {
      BitsAbove(c - 128, 1, 7, 0);
    }
  }

  lemma WidenedBits(c: octet, k: nat)
    requires k < 16
    ensures BitOf(Widened(c), k) == BitOf(c, if k < 8 then k else 7)
  {
    assert Power(8) == 256;
    SignBit(c);
    if k < 8 {
      BitsBelow(c, if c < 128 then 0 else 255, 8, k);
    } else {
      BitsAbove(c, if c < 128 then 0 else 255, 8, k - 8);
      BitsOfZero(k - 8);
      BitsOf255(k - 8);
    }
  }

  lemma {:induction false} ExclusiveSelf(x: nat, bits: nat)
    ensures Exclusive(x, x, bits) == 0
  {
    if bits > 0 {
      ExclusiveSelf(Half(x), bits - 1);
    }
  }

  lemma ExclusiveNext(x: nat, y: nat, bits: nat, r: nat)
    requires bits > 0 && Exclusive(x / 2, y / 2, bits - 1) == r
    ensures Exclusive(x, y, bits) == 2 * r + (x + y) % 2
  {}
}
