// DNS messages as in section 4 of RFC 1035, as far as Dns.cpp writes and reads them.
module DnsMessages {

  type byte = x: int | 0 <= x < 256

  type bytes = seq<byte>

  const DOT: byte := 46

  // ---- Names

  function UpToDot(s: bytes): (r: bytes)
    ensures |r| <= |s| && r == s[..|r|]
  {
    if s == [] || s[0] == DOT then [] else [s[0]] + UpToDot(s[1..])
  }

  /** The labels of a host name; empty ones do not count. */
  function Labels(name: bytes): seq<bytes>
    decreases |name|
  {
    if name == [] then []
    else
      var part := UpToDot(name);
      var rest := if |part| < |name| then name[|part| + 1..] else [];
      (if part == [] then [] else [part]) + Labels(rest)
  }

  function Dotted(labels: seq<bytes>): bytes {
    if labels == [] then []
    else if |labels| == 1 then labels[0] else labels[0] + [DOT] + Dotted(labels[1..])
  }

  ghost predicate AllLabels(labels: seq<bytes>, longest: nat) {
    forall l | l in labels :: 1 <= |l| <= longest
  }

  ghost predicate NoDots(labels: seq<bytes>) {
    forall l | l in labels :: DOT !in l
  }

  lemma {:induction false} UpToDotIs(part: bytes, rest: bytes)
    requires DOT !in part && (rest == [] || rest[0] == DOT)
    ensures UpToDot(part + rest) == part
  {
    if part != [] {
      assert part[0] in part;
      assert part[1..] + rest == (part + rest)[1..];
      UpToDotIs(part[1..], rest);
      assert part == [part[0]] + part[1..];
    } else {
      assert part + rest == rest;
    }
  }

  lemma LabelsCons(part: bytes, rest: bytes)
    requires DOT !in part && part != []
    ensures Labels(part + ([DOT] + rest)) == [part] + Labels(rest)
    ensures Labels(part) == [part] && Labels(part + [DOT]) == [part]
  {
    UpToDotIs(part, [DOT] + rest);
    UpToDotIs(part, []);
    UpToDotIs(part, [DOT]);
    assert part + [] == part && Labels([]) == [];
    assert (part + ([DOT] + rest))[|part| + 1..] == rest;
    assert (part + [DOT])[|part| + 1..] == [];
  }

  /** The labels of a name are the labels it was put together from, with or without a final dot. */
  lemma {:induction false} LabelsOfDotted(labels: seq<bytes>, longest: nat, final: bool)
    requires AllLabels(labels, longest) && NoDots(labels)
    ensures Labels(Dotted(labels) + if final then [DOT] else []) == labels
    decreases |labels|
  {
    hide Labels;
    var end := if final then [DOT] else [];
    if labels == [] {
      NoLabels();
      assert Dotted(labels) + end == end;
    } else {
      var part, others := labels[0], labels[1..];
      assert part in labels && labels == [part] + others;
      LabelsCons(part, Dotted(others) + end);
      if others == [] {
        assert part + [] == part;
      } else {
        LabelsOfDotted(others, longest, final);
        DottedCons(labels, end);
      }
    }
  }

  lemma DottedCons(labels: seq<bytes>, end: bytes)
    requires |labels| > 1
    ensures Dotted(labels) + end == labels[0] + ([DOT] + (Dotted(labels[1..]) + end))
  {}

  lemma NoLabels()
    ensures Labels([]) == [] && Labels([DOT]) == []
  {
    assert [DOT][1..] == [];
  }

  /** Every label behind a byte with its length, as far as a byte holds it, and then the rest. */
  function LabelsThen(labels: seq<bytes>, rest: bytes): bytes {
    if labels == [] then rest else [|labels[0]| % 256] + (labels[0] + LabelsThen(labels[1..], rest))
  }

  lemma Parts(a: bytes, b: bytes)
    ensures (a + b)[..|a|] == a && (a + b)[|a|..] == b
  {}

  /** What the skipping loop of a question makes of the bytes before it: the labels it passes over, and
      what it leaves. Broken: the bytes run out, and the loop with them. */
  datatype Name = Broken | Name(labels: seq<bytes>, rest: bytes)

  /** The first label is all there. */
  predicate HasPart(s: bytes) {
    s != [] && |s| > s[0] as int
  }

  function FirstPart(s: bytes): bytes
    requires HasPart(s)
  {
    s[1..1 + s[0] as int]
  }

  function AfterPart(s: bytes): (r: bytes)
    requires HasPart(s)
    ensures |r| < |s|
  {
    s[1 + s[0] as int..]
  }

  function DecodeName(s: bytes): Name
    decreases |s|
  {
    if s == [] then Broken
    else if s[0] == 0 then Name([], s[1..])
    else if !HasPart(s) then Broken
    else
      match DecodeName(AfterPart(s))
      case Broken => Broken
      case Name(labels, rest) => Name([FirstPart(s)] + labels, rest)
  }

  lemma PartThen(part: bytes, after: bytes)
    requires 1 <= |part| <= 255
    ensures var s := [|part|] + (part + after);
            HasPart(s) && s[0] == |part| && FirstPart(s) == part && AfterPart(s) == after
  {
    var s := [|part|] + (part + after);
    assert |s| == 1 + |part| + |after|;
    Parts([|part|], part + after);
    Parts(part, after);
    assert s[1..] == part + after;
    assert s[1..1 + |part|] == s[1..][..|part|];
    assert s[1 + |part|..] == s[1..][|part|..];
  }

  lemma PartsJoin(s: bytes)
    requires HasPart(s)
    ensures s == [s[0]] + (FirstPart(s) + AfterPart(s)) && |FirstPart(s)| == s[0]
  {}

  lemma DecodeNext(s: bytes)
    requires HasPart(s) && s[0] != 0
    ensures DecodeName(s) == match DecodeName(AfterPart(s))
                             case Broken => Broken
                             case Name(labels, rest) => Name([FirstPart(s)] + labels, rest)
  {
    hide FirstPart, AfterPart;
  }

  lemma DecodeEnd(rest: bytes)
    ensures DecodeName([0] + rest) == Name([], rest) && LabelsThen([], rest) == rest
  {
    Parts([0], rest);
  }

  lemma LabelsNext(part: bytes, labels: seq<bytes>, rest: bytes)
    ensures LabelsThen([part] + labels, rest) == [|part| % 256] + (part + LabelsThen(labels, rest))
  {
    assert ([part] + labels)[1..] == labels;
  }

  lemma {:induction false} DecodeOfEncoded(labels: seq<bytes>, rest: bytes)
    requires AllLabels(labels, 255)
    ensures DecodeName(LabelsThen(labels, [0] + rest)) == Name(labels, rest)
  {
    hide HasPart, FirstPart, AfterPart, DecodeName, LabelsThen;
    if labels == [] {
      DecodeEnd(rest);
      DecodeEnd([0] + rest);
    } else {
      var part, after := labels[0], LabelsThen(labels[1..], [0] + rest);
      assert part in labels && labels == [part] + labels[1..];
      DecodeOfEncoded(labels[1..], rest);
      LabelsNext(part, labels[1..], [0] + rest);
      PartThen(part, after);
      DecodeNext([|part|] + (part + after));
    }
  }

  lemma DecodeCases(s: bytes)
    requires DecodeName(s).Name?
    ensures s != [] && (s[0] == 0 ==> DecodeName(s) == Name([], s[1..]) && s == [0] + s[1..])
    ensures s[0] != 0 ==> HasPart(s) && DecodeName(AfterPart(s)).Name?
  {}

  lemma {:induction false} EncodedOfDecode(s: bytes)
    requires DecodeName(s).Name?
    ensures AllLabels(DecodeName(s).labels, 255)
    ensures s == LabelsThen(DecodeName(s).labels, [0] + DecodeName(s).rest)
    decreases |s|
  {
    DecodeCases(s);
    if s[0] == 0 {
      hide DecodeName, LabelsThen;
      DecodeEnd([0] + s[1..]);
    } else {
      PartsJoin(s);
      DecodeNext(s);
      hide HasPart, FirstPart, AfterPart, DecodeName, LabelsThen;
      EncodedOfDecode(AfterPart(s));
      var name := DecodeName(AfterPart(s));
      LabelsNext(FirstPart(s), name.labels, [0] + name.rest);
    }
  }

  /** Labels come back from their encoding if and only if none is longer than the byte for its length
      can say. */
  lemma NameSurvivesIff(labels: seq<bytes>, rest: bytes)
    requires forall l | l in labels :: l != []
    ensures DecodeName(LabelsThen(labels, [0] + rest)) == Name(labels, rest) <==> forall l | l in labels :: |l| <= 255
  {
    if forall l | l in labels :: |l| <= 255 {
      assert AllLabels(labels, 255);
      DecodeOfEncoded(labels, rest);
    }
    if DecodeName(LabelsThen(labels, [0] + rest)) == Name(labels, rest) {
      EncodedOfDecode(LabelsThen(labels, [0] + rest));
    }
  }

  /** No encoded name is the start of another: what follows the name is never in doubt. */
  lemma NamesArePrefixFree(a: seq<bytes>, x: bytes, b: seq<bytes>, y: bytes)
    requires AllLabels(a, 255) && AllLabels(b, 255)
    requires LabelsThen(a, [0] + x) == LabelsThen(b, [0] + y)
    ensures a == b && x == y
  {
    hide DecodeName, LabelsThen;
    DecodeOfEncoded(a, x);
    DecodeOfEncoded(b, y);
  }

  // ---- Records

  /** A question: an uncompressed name, then type and class. */
  datatype Question = Question(labels: seq<bytes>, typeAndClass: bytes)

  /** A name in an answer ends in a zero byte or in the two bytes of a pointer. */
  datatype Ending = Root | Pointer(first: byte, second: byte)

  datatype Answer = Answer(labels: seq<bytes>, ending: Ending, answerType: nat, answerClass: nat, ttl: bytes, data: bytes)

  ghost predicate ValidQuestion(q: Question) {
    AllLabels(q.labels, 255) && |q.typeAndClass| == 4
  }

  ghost predicate ValidEnding(e: Ending) {
    e.Pointer? ==> 192 <= e.first
  }

  ghost predicate ValidAnswer(a: Answer) {
    && AllLabels(a.labels, 63) && ValidEnding(a.ending)
    && a.answerType < 65536 && a.answerClass < 65536 && |a.ttl| == 4 && |a.data| < 65536
  }

  /** Two bytes, high byte first. */
  function Word(x: nat): (r: bytes)
    requires x < 65536
    ensures |r| == 2 && Load(r, 0) == x
  {
    [x / 256, x % 256]
  }

  function Load(s: bytes, at: nat): (r: nat)
    requires at + 2 <= |s|
    ensures r < 65536
  {
    256 * (s[at] as int) + s[at + 1]
  }

  function EncodeEnding(e: Ending): bytes {
    if e.Root? then [0] else [e.first, e.second]
  }

  function QuestionThen(q: Question, rest: bytes): bytes {
    LabelsThen(q.labels, [0] + (q.typeAndClass + rest))
  }

  /** What follows the name of an answer, and then the rest. */
  function RecordThen(a: Answer, rest: bytes): bytes
    requires ValidAnswer(a)
  {
    Word(a.answerType) + (Word(a.answerClass) + (a.ttl + (Word(|a.data|) + (a.data + rest))))
  }

  function AnswerThen(a: Answer, rest: bytes): bytes
    requires ValidAnswer(a)
  {
    LabelsThen(a.labels, EncodeEnding(a.ending) + RecordThen(a, rest))
  }

  function QuestionsThen(qs: seq<Question>, rest: bytes): bytes {
    if qs == [] then rest else QuestionThen(qs[0], QuestionsThen(qs[1..], rest))
  }

  function AnswersThen(answers: seq<Answer>, rest: bytes): bytes
    requires forall a | a in answers :: ValidAnswer(a)
  {
    if answers == [] then rest else AnswerThen(answers[0], AnswersThen(answers[1..], rest))
  }

  /** An alias behind a pointer to the name of the question, as it stands on the wire. */
  lemma AnswerExample()
    ensures var alias := Answer([], Pointer(0xc0, 0x0c), 5, 1, [0, 0, 0x0e, 0x10], [0xc0, 0x10]);
            ValidAnswer(alias) && AnswerThen(alias, []) == [0xc0, 0x0c, 0, 5, 0, 1, 0, 0, 0x0e, 0x10, 0, 2, 0xc0, 0x10]
  {
    assert Word(5) == [0, 5] && Word(1) == [0, 1] && Word(2) == [0, 2];
  }

  // ---- Results

  const SUCCESS: int := 1
  const INVALID_SERVER: int := -2
  const TRUNCATED: int := -3
  const INVALID_RESPONSE: int := -4
  const ERROR_RESPONSE: int := -5
  const NO_ANSWERS: int := -6
  const BAD_LENGTH: int := -9
  const NO_ADDRESS: int := -10

  ghost predicate IsAddress(a: Answer) {
    a.answerType == 1 && a.answerClass == 1
  }

  /** The result that the answers should lead to, and the address: the first answer that is one
      decides. */
  ghost predicate Decided(answers: seq<Answer>, code: int, address: bytes, before: bytes) {
    || ((forall a | a in answers :: !IsAddress(a)) && code == -10 && address == before)
    || (exists i | 0 <= i < |answers| :: FirstAt(answers, i) && DecidedBy(answers[i], code, address, before))
  }

  ghost predicate DecidedBy(a: Answer, code: int, address: bytes, before: bytes) {
    if |a.data| == 4 then code == 1 && address == a.data else code == -9 && address == before
  }

  ghost predicate FirstAt(answers: seq<Answer>, i: nat)
    requires i < |answers|
  {
    IsAddress(answers[i]) && forall j | 0 <= j < i :: !IsAddress(answers[j])
  }

  /** The answers leave no choice of result or address. */
  lemma DecisionIsUnique(answers: seq<Answer>, before: bytes, c: int, x: bytes, d: int, y: bytes)
    requires Decided(answers, c, x, before) && Decided(answers, d, y, before)
    ensures c == d && x == y
  {}

  /** The first answer of type 1 and class 1 gives the address, if it has four bytes, and an error otherwise;
      whatever comes before and after it. */
  lemma FirstAddressDecides(others: seq<Answer>, a: Answer, more: seq<Answer>, code: int, x: bytes, before: bytes)
    requires forall o | o in others :: o.answerType != 1 || o.answerClass != 1
    requires a.answerType == 1 && a.answerClass == 1 && Decided(others + [a] + more, code, x, before)
    ensures if |a.data| == 4 then code == 1 && x == a.data else code == -9 && x == before
  {
    var answers, n := others + [a] + more, |others|;
    assert answers[n] == a && forall j | 0 <= j < n :: answers[j] in others;
    assert answers[n] in answers && IsAddress(answers[n]);
    var i :| 0 <= i < |answers| && FirstAt(answers, i) && DecidedBy(answers[i], code, x, before);
    assert i == n;
  }

  /** Without such an answer there is no address. */
  lemma NoAddressDecides(answers: seq<Answer>, code: int, x: bytes, before: bytes)
    requires (forall o | o in answers :: o.answerType != 1 || o.answerClass != 1) && Decided(answers, code, x, before)
    ensures code == -10 && x == before
  {}

  // ---- The header

  /** What the header of a response leads to, before its questions and answers are looked at; zero if
      these decide. */
  function HeaderCode(header: bytes, id: nat): int
    requires |header| == 12
  {
    var flags := Load(header, 2);
    if header[0] + 256 * (header[1] as int) != id || flags / 0x8000 % 2 != 1 then INVALID_RESPONSE
    else if flags / 0x200 % 2 == 1 || flags % 16 != 0 then ERROR_RESPONSE
    else if Load(header, 6) == 0 then NO_ANSWERS
    else 0
  }

  /** The header of a response is turned down if it is not a response to this request; if it is cut or
      reports an error; or if it counts no answers. */
  lemma HeaderCodeIff(header: bytes, id: nat)
    requires |header| == 12 && id < 65536
    ensures var echoes := header[0] == id % 256 && header[1] == id / 256 && 128 <= header[2];
            var fails := header[2] / 2 % 2 == 1 || header[3] % 16 != 0;
            var counts := header[6] != 0 || header[7] != 0;
            && (HeaderCode(header, id) == -4 <==> !echoes)
            && (HeaderCode(header, id) == -5 <==> echoes && fails)
            && (HeaderCode(header, id) == -6 <==> echoes && !fails && !counts)
            && (HeaderCode(header, id) == 0 <==> echoes && !fails && counts)
  {
    FlagBits(header[2], header[3]);
  }

  lemma FlagBits(high: byte, low: byte)
    ensures var flags := 256 * (high as int) + low;
            && (flags / 0x8000 % 2 == 1 <==> 128 <= high) && flags / 0x200 % 2 == high / 2 % 2 && flags % 16 == low % 16
  {}

  /** The header of BuildRequest. The identifier goes out as it lies in memory. */
  function RequestHeader(id: nat): bytes
    requires id < 65536
  {
    [id % 256, id / 256] + Word(0x100) + Word(1) + Word(0) + Word(0) + Word(0)
  }

  /** A request asks one question, in a standard query that wants recursion, and carries nothing else. */
  lemma RequestHeaderIs(id: nat)
    requires id < 65536
    ensures RequestHeader(id)[2..] == [1, 0, 0, 1, 0, 0, 0, 0, 0, 0]
    ensures RequestHeader(id)[0] as int + 256 * (RequestHeader(id)[1] as int) == id
  {}

  function RequestOf(id: nat, name: bytes): bytes
    requires id < 65536
  {
    RequestHeader(id) + LabelsThen(Labels(name), [0] + (Word(1) + Word(1)))
  }

  /** A request is its header and one question. */
  lemma RequestIsQuestion(id: nat, name: bytes)
    requires id < 65536
    ensures RequestOf(id, name) == RequestHeader(id) + QuestionsThen([Question(Labels(name), [0, 1, 0, 1])], [])
  {
    assert Word(1) + Word(1) == [0, 1, 0, 1] == [0, 1, 0, 1] + [];
  }

  function SentName(id: nat, name: bytes): Name
    requires id < 65536
  {
    DecodeName(RequestOf(id, name)[12..])
  }

  lemma RequestParts(id: nat, name: bytes)
    requires id < 65536
    ensures RequestOf(id, name)[12..] == LabelsThen(Labels(name), [0] + [0, 1, 0, 1])
  {
    assert Word(1) + Word(1) == [0, 1, 0, 1];
    Parts(RequestHeader(id), LabelsThen(Labels(name), [0] + [0, 1, 0, 1]));
  }

  /** The skipping loop, run on a request, passes over exactly the labels of the name, up to the type
      and class, if and only if no label is longer than 255. */
  lemma NameIsSentIff(id: nat, name: bytes)
    requires id < 65536
    ensures SentName(id, name) == Name(Labels(name), [0, 1, 0, 1]) <==> forall l | l in Labels(name) :: |l| <= 255
  {
    RequestParts(id, name);
    LabelsNotEmpty(name);
    NameSurvivesIff(Labels(name), [0, 1, 0, 1]);
  }

  /** A label of 256 bytes: the name ends before it, and its bytes are taken for what follows. */
  lemma LongLabelEndsName(id: nat, part: bytes)
    requires id < 65536 && DOT !in part && |part| == 256
    ensures Labels(part) == [part]
    ensures SentName(id, part) == Name([], part + ([0] + [0, 1, 0, 1]))
  {
    LabelsCons(part, []);
    RequestParts(id, part);
    Parts([0], part + ([0] + [0, 1, 0, 1]));
  }

  /** A label of 257 bytes that happens to be consumed exactly: as the labels of another name. */
  lemma LongLabelReadsAsOthers(id: nat, part: bytes)
    requires id < 65536 && DOT !in part && |part| == 257 && part[1] == 255
    ensures Labels(part) == [part]
    ensures SentName(id, part) == Name([part[..1], part[2..]], [0, 1, 0, 1])
  {
    LabelsCons(part, []);
    RequestParts(id, part);
    var others := [part[..1], part[2..]];
    hide Labels, DecodeName, RequestOf;
    DecodeOfEncoded(others, [0, 1, 0, 1]);
    SameEncoding(part, [0] + [0, 1, 0, 1]);
  }

  lemma SameEncoding(part: bytes, rest: bytes)
    requires |part| == 257 && part[1] == 255
    ensures LabelsThen([part], rest) == LabelsThen([part[..1], part[2..]], rest)
  {
    var others := [part[..1], part[2..]];
    assert [part][1..] == [] && others[1..] == [part[2..]] && [part[2..]][1..] == [];
    assert part + rest == part[..1] + ([255] + (part[2..] + rest));
  }

  lemma {:induction false} LabelsNotEmpty(name: bytes)
    ensures forall l | l in Labels(name) :: l != []
    decreases |name|
  {
    if name != [] {
      var part := UpToDot(name);
      LabelsNotEmpty(if |part| < |name| then name[|part| + 1..] else []);
    }
  }

  /** A response that echoes a request's identifier and question, is marked as a response without an
      error, and has an answer, gets past the header. */
  lemma EchoPassesHeader(id: nat, flags: nat, answers: nat, rest: bytes)
    requires id < 65536 && flags < 65536 && 0 < answers < 65536 && |rest| == 4
    requires flags / 0x8000 % 2 == 1 && flags / 0x200 % 2 == 0 && flags % 16 == 0
    ensures HeaderCode(RequestHeader(id)[..2] + Word(flags) + Word(1) + Word(answers) + rest, id) == 0
  {
    var header := RequestHeader(id)[..2] + Word(flags) + Word(1) + Word(answers) + rest;
    assert header[0] == id % 256 && header[1] == id / 256;
    assert header[2] == flags / 256 && header[3] == flags % 256;
    assert header[6] == answers / 256 && header[7] == answers % 256;
  }
}

// BuildRequest and ProcessResponse, on the bytes that the UDP socket takes and gives.
module DnsClient {
  import opened DnsMessages

  class DNSClient {
    var requestId: nat
    var server: nat
    var output: bytes
    var input: bytes

    method Write(s: bytes)
      modifies this`output
      ensures output == old(output) + s
    {
      output := output + s;
    }

    method Read() returns (b: byte)
      requires input != []
      modifies this`input
      ensures b == old(input)[0] && input == old(input)[1..]
    {
      b := input[0];
      input := input[1..];
    }

    method ReadBytes(n: nat) returns (s: bytes)
      requires n <= |input|
      modifies this`input
      ensures s == old(input)[..n] && input == old(input)[n..]
    {
      s := input[..n];
      input := input[n..];
    }

    /** A loop of single reads whose bytes nobody wants. */
    method Skip(n: nat)
      requires n <= |input|
      modifies this`input
      ensures input == old(input)[n..]
    {
      for i := 0 to n
        invariant input == old(input)[i..]
      {
        var _ := Read();
      }
    }

    /** BuildRequest. */
    method BuildRequest(name: bytes, millis: nat) returns (r: nat)
      modifies this`requestId, this`output
      ensures r == 1 && requestId == millis % 65536
      ensures output == old(output) + RequestOf(requestId, name)
    {
      hide LabelsThen, Labels, Word;
      requestId := millis % 65536;
      WriteHeader();
      ghost var end := [0] + (Word(1) + Word(1));
      ghost var header := RequestHeader(requestId);
      WriteName(name, end);
      ghost var named := output;
      Write([0]);
      Write(Word(1));
      Write(Word(1));
      r := 1;
      assert output == named + end;
      assert old(output) + header + LabelsThen(Labels(name), end) == old(output) + (header + LabelsThen(Labels(name), end));
    }

    method WriteHeader()
      requires requestId < 65536
      modifies this`output
      ensures output == old(output) + RequestHeader(requestId)
    {
      hide Word;
      Write([requestId % 256, requestId / 256]);
      Write(Word(0x100));
      Write(Word(1));
      Write(Word(0));
      Write(Word(0));
      Write(Word(0));
    }

    /** The labels of the name, for whatever is to be written next. */
    method WriteName(name: bytes, ghost tail: bytes)
      modifies this`output
      ensures output + tail == old(output) + LabelsThen(Labels(name), tail)
    {
      ghost var whole := output + LabelsThen(Labels(name), tail);
      NothingPending(name, tail);
      hide Pending, LabelsThen, Labels, UpToDot;
      var start, end := 0, 0;
      while end < |name|
        invariant end <= |name| && start <= |name| + 1 && (end < |name| ==> start <= |name|)
        invariant output + Pending(name, start, end, tail) == whole
        decreases |name| + 1 - start
      {
        ghost var before := end;
        end := FindDot(name, start);
        PendingStep(name, start, before, end, tail);
        if end - start > 0 {
          WriteLabel(name[start..end], Pending(name, end + 1, end, tail));
        }
        start := end + 1;
      }
      NothingPending(name, tail);
      AllWritten(name, start, end, tail);
    }

    method WriteLabel(part: bytes, ghost rest: bytes)
      modifies this`output
      ensures output + rest == old(output) + ([|part| % 256] + (part + rest))
    {
      Write([|part| % 256]);
      Write(part);
    }

    static method FindDot(name: bytes, start: nat) returns (end: nat)
      requires start <= |name|
      ensures start <= end <= |name| && name[start..end] == UpToDot(name[start..])
      ensures end < |name| ==> name[end] == DOT
    {
      end := start;
      while end < |name| && name[end] != DOT
        invariant start <= end <= |name| && DOT !in name[start..end]
      {
        end := end + 1;
      }
      UpToDotIs(name[start..end], name[end..]);
      assert name[start..] == name[start..end] + name[end..];
    }

    /** The skipping of a name in a question. */
    method SkipQuestionName()
      requires DecodeName(input).Name?
      modifies this`input
      ensures input == DecodeName(old(input)).rest
    {
      var len := 1;
      while len != 0
        invariant if len != 0 then DecodeName(input).Name? && DecodeName(input).rest == DecodeName(old(input)).rest
                  else input == DecodeName(old(input)).rest
        decreases len != 0, |input|
      {
        ghost var before := input;
        var b := Read();
        len := b;
        if len > 0 {
          Skip(len);
          assert input == AfterPart(before);
          len := 255;
        }
      }
    }

    /** The skipping of a name in an answer. */
    method SkipAnswerName(ghost labels: seq<bytes>, ghost ending: Ending, ghost rest: bytes)
      requires AllLabels(labels, 63) && ValidEnding(ending) && input == LabelsThen(labels, EncodeEnding(ending) + rest)
      modifies this`input
      ensures input == rest
    {
      ghost var left := labels;
      var len := 1;
      while len != 0
        invariant AllLabels(left, 63)
        invariant input == if len != 0 then LabelsThen(left, EncodeEnding(ending) + rest) else rest
        decreases len != 0, |left|
      {
        Parts(EncodeEnding(ending), rest);
        if left != [] {
          FirstLabel(left, 63, EncodeEnding(ending) + rest);
        }
        var b := Read();
        len := b;
        if len < 64 {
          if len > 0 {
            Skip(len);
            len := 255;
            left := left[1..];
          }
        } else {
          var _ := Read();
          len := 0;
        }
      }
    }

    method SkipQuestions(count: nat, ghost qs: seq<Question>, ghost rest: bytes)
      requires count == |qs| && (forall q | q in qs :: ValidQuestion(q)) && input == QuestionsThen(qs, rest)
      modifies this`input
      ensures input == rest
    {
      for i := 0 to count
        invariant input == QuestionsThen(qs[i..], rest)
      {
        assert qs[i] in qs && qs[i..][1..] == qs[i + 1..];
        ghost var after := QuestionsThen(qs[i + 1..], rest);
        DecodeOfEncoded(qs[i].labels, qs[i].typeAndClass + after);
        SkipQuestionName();
        Parts(qs[i].typeAndClass, after);
        Skip(4);
      }
    }

    /** One answer: whether it decides, and how. */
    method ReadAnswer(ghost a: Answer, ghost rest: bytes, address: bytes) returns (code: int, result: bytes)
      requires ValidAnswer(a) && input == AnswerThen(a, rest)
      modifies this`input
      ensures code == 0 <==> !IsAddress(a)
      ensures code == 0 ==> input == rest && result == address
      ensures code != 0 ==> DecidedBy(a, code, result, address)
      ensures code == SUCCESS ==> input == rest
      ensures code == BAD_LENGTH ==> input == []
    {
      hide LabelsThen, Word, Load;
      SkipAnswerName(a.labels, a.ending, RecordThen(a, rest));
      Fields(a, rest);
      var answerType := ReadBytes(2);
      var answerClass := ReadBytes(2);
      Skip(4);
      var length := ReadBytes(2);
      code := 0;
      result := address;
      if Load(answerType, 0) == 1 && Load(answerClass, 0) == 1 {
        if Load(length, 0) != 4 {
          input := [];
          code := BAD_LENGTH;
        } else {
          result := ReadBytes(4);
          code := SUCCESS;
        }
      } else {
        Skip(Load(length, 0));
      }
    }

    /** ProcessResponse, once a packet has come: from whom, and what it holds. A packet that passes the
        header holds the questions and answers that the header counts, and then anything. */
    method ProcessResponse(remoteIp: nat, remotePort: nat, before: bytes,
                           ghost qs: seq<Question>, ghost answers: seq<Answer>, ghost trailer: bytes)
        returns (code: int, address: bytes)
      requires forall q | q in qs :: ValidQuestion(q)
      requires forall a | a in answers :: ValidAnswer(a)
      requires 12 <= |input| && HeaderCode(input[..12], requestId) == 0 ==>
                 && Load(input, 4) == |qs| && Load(input, 6) == |answers|
                 && input[12..] == QuestionsThen(qs, AnswersThen(answers, trailer))
      modifies this`input
      ensures var packet := old(input);
              if remoteIp != server || remotePort != 53 then code == -2 && address == before && input == packet
              else if |packet| < 12 then code == -3 && address == before && input == packet
              else if HeaderCode(packet[..12], requestId) != 0 then
                code == HeaderCode(packet[..12], requestId) && address == before && input == []
              else Decided(answers, code, address, before)
    {
      address := before;
      if remoteIp != server || remotePort != 53 {
        return INVALID_SERVER, address;
      }
      if |input| < 12 {
        return TRUNCATED, address;
      }
      var header := ReadBytes(12);
      var flags := Load(header, 2);
      if requestId != header[0] + 256 * (header[1] as int) || flags / 0x8000 % 2 != 1 {
        input := [];
        return INVALID_RESPONSE, address;
      }
      if flags / 0x200 % 2 == 1 || flags % 16 != 0 {
        input := [];
        return ERROR_RESPONSE, address;
      }
      var answerCount := Load(header, 6);
      if answerCount == 0 {
        input := [];
        return NO_ANSWERS, address;
      }
      SkipQuestions(Load(header, 4), qs, AnswersThen(answers, trailer));
      code, address := ReadAnswers(answerCount, before, answers, trailer);
    }

    method ReadAnswers(answerCount: nat, before: bytes, ghost answers: seq<Answer>, ghost trailer: bytes)
        returns (code: int, address: bytes)
      requires (forall a | a in answers :: ValidAnswer(a)) && answerCount == |answers| && input == AnswersThen(answers, trailer)
      modifies this`input
      ensures Decided(answers, code, address, before)
    {
      address := before;
      for i := 0 to answerCount
        invariant forall j | 0 <= j < i :: !IsAddress(answers[j])
        invariant input == AnswersThen(answers[i..], trailer) && address == before
      {
        assert answers[i] in answers && answers[i..][1..] == answers[i + 1..];
        code, address := ReadAnswer(answers[i], AnswersThen(answers[i + 1..], trailer), address);
        if code != 0 {
          assert FirstAt(answers, i);
          return;
        }
      }
      input := [];
      code := NO_ADDRESS;
    }
  }

  /** The fields of a record, one after the other. */
  lemma Fields(a: Answer, rest: bytes)
    requires ValidAnswer(a)
    ensures var s := RecordThen(a, rest);
            && |s| == 10 + |a.data| + |rest|
            && s[..2] == Word(a.answerType) && s[2..][..2] == Word(a.answerClass) && s[2..][2..][4..][..2] == Word(|a.data|)
            && s[2..][2..][4..][2..] == a.data + rest
            && (a.data + rest)[..|a.data|] == a.data && (a.data + rest)[|a.data|..] == rest
  {
    hide Word;
    Parts(a.data, rest);
    Parts(Word(|a.data|), a.data + rest);
    Parts(a.ttl, Word(|a.data|) + (a.data + rest));
    Parts(Word(a.answerClass), a.ttl + (Word(|a.data|) + (a.data + rest)));
    Parts(Word(a.answerType), Word(a.answerClass) + (a.ttl + (Word(|a.data|) + (a.data + rest))));
  }

  lemma FirstLabel(labels: seq<bytes>, longest: nat, rest: bytes)
    requires labels != [] && AllLabels(labels, longest) && longest < 256
    ensures var s, n := LabelsThen(labels, rest), |labels[0]|;
            && 1 <= n <= longest && n < |s| && s[0] == n && s[1..][n..] == LabelsThen(labels[1..], rest)
            && AllLabels(labels[1..], longest)
  {
    assert labels[0] in labels;
    Parts([|labels[0]|], labels[0] + LabelsThen(labels[1..], rest));
    Parts(labels[0], LabelsThen(labels[1..], rest));
  }

  /** What is still to be written when the loop has come to end, and goes on at start. */
  ghost function Pending(name: bytes, start: nat, end: nat, tail: bytes): bytes
    requires end <= |name| && (end < |name| ==> start <= |name|)
  {
    LabelsThen(if end < |name| then Labels(name[start..]) else [], tail)
  }

  lemma NothingPending(name: bytes, tail: bytes)
    ensures Pending(name, 0, 0, tail) == LabelsThen(Labels(name), tail)
  {
    assert name[0..] == name;
  }

  lemma AllWritten(name: bytes, start: nat, end: nat, tail: bytes)
    requires end == |name|
    ensures Pending(name, start, end, tail) == tail
  {}

  lemma PendingStep(name: bytes, start: nat, before: nat, end: nat, tail: bytes)
    requires before < |name| && start <= end <= |name|
    requires name[start..end] == UpToDot(name[start..]) && (end < |name| ==> name[end] == DOT)
    ensures Pending(name, start, before, tail) ==
            if start == end then Pending(name, end + 1, end, tail)
            else [|name[start..end]| % 256] + (name[start..end] + Pending(name, end + 1, end, tail))
  {
    hide Labels, LabelsThen, UpToDot;
    LabelsStep(name, start, end);
    var others := if end < |name| then Labels(name[end + 1..]) else [];
    assert Pending(name, end + 1, end, tail) == LabelsThen(others, tail);
    if start < end {
      LabelsNext(name[start..end], others, tail);
    } else {
      assert [] + others == others;
    }
  }

  lemma LabelsStep(name: bytes, start: nat, end: nat)
    requires start <= end <= |name| && name[start..end] == UpToDot(name[start..]) && (end < |name| ==> name[end] == DOT)
    ensures Labels(name[start..]) ==
            (if start == end then [] else [name[start..end]]) + if end < |name| then Labels(name[end + 1..]) else []
  {
    if start < |name| {
      assert end < |name| ==> name[start..][end - start + 1..] == name[end + 1..];
      assert Labels([]) == [];
    }
  }
}
