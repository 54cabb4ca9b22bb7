/**
 A milter conversation as a function of its frames: what state it leaves, what it
 answers and which messages it hands on (xandikos/milter.py).
 */
module Milters {
  import opened Wrappers
  import opened Octets
  import opened Frames

  const ABORT: Octet := 'A' as Octet
  const BODY: Octet := 'B' as Octet
  const MACRO: Octet := 'D' as Octet
  const BODYEOB: Octet := 'E' as Octet
  const QUIT_NC: Octet := 'K' as Octet
  const HEADER: Octet := 'L' as Octet
  const MAIL: Octet := 'M' as Octet
  const OPTNEG: Octet := 'O' as Octet
  const QUIT: Octet := 'Q' as Octet
  const RCPT: Octet := 'R' as Octet

  const ACCEPT: Octet := 'a' as Octet
  const CONTINUE: Octet := 'c' as Octet

  const PROTOCOL_VERSION: nat := 6
  const ACTIONS: nat := 0
  /** NOCONNECT, NOHELO, NOMAIL, NOUNKNOWN and NODATA. */
  const PROTOCOL_FLAGS: nat := 0x01 + 0x02 + 0x04 + 0x100 + 0x200

  const MAX_MESSAGE_SIZE: nat := 8 * 1024 * 1024

  /** `bytes.decode("utf-8", errors="replace")`; a text is kept as its UTF-8 bytes. */
  type Decoder = Bytes -> Bytes

  type Header = (Bytes, Bytes)

  datatype Envelope = Envelope(message: Bytes, rcpts: seq<Bytes>)

  // ----- frames taken apart and messages put together

  /** `_decode_cstring`. */
  function CString(text: Decoder, data: Bytes): Bytes { text(Before(data, 0)) }

  /** What stands after the first NUL. */
  function AfterNul(data: Bytes): Bytes { if |Before(data, 0)| < |data| then data[|Before(data, 0)| + 1..] else [] }

  /** `_parse_header`. */
  function ParseHeader(text: Decoder, data: Bytes): Header { (CString(text, data), CString(text, AfterNul(data))) }

  lemma {:induction false} BeforeLength(s: Bytes, b: Octet)
    ensures |Before(s, b)| <= |s| && Before(s, b) == s[..|Before(s, b)|]
    ensures |Before(s, b)| < |s| ==> s[|Before(s, b)|] == b
  {
    if s == [] || s[0] == b {
    } else {
      BeforeLength(s[1..], b);
    }
  }

  /** A header sent as name, NUL, value, NUL is taken apart again. */
  lemma HeaderIsParsed(text: Decoder, name: Bytes, value: Bytes)
    requires 0 !in name && 0 !in value
    ensures ParseHeader(text, name + [0] + value + [0]) == (text(name), text(value))
  {
    var data := name + [0] + value + [0];
    BeforeIs(data, |name|, 0);
    assert data[..|name|] == name && data[|name| + 1..] == value + [0];
    BeforeIs(value + [0], |value|, 0);
    assert (value + [0])[..|value|] == value;
  }

  function HeaderLines(headers: seq<Header>): Bytes {
    if headers == [] then []
    else
      var h := headers[|headers| - 1];
      HeaderLines(headers[..|headers| - 1]) + (h.0 + [58, 32] + h.1 + CRLF)
  }

  /** A message in the form of RFC 5322. */
  function Assembled(headers: seq<Header>, body: Bytes): Bytes { HeaderLines(headers) + CRLF + body }

  // ----- bits of the negotiation

  function BitAnd(a: nat, b: nat): nat
    decreases a
  {
    if a == 0 then 0 else (if a % 2 == 1 && b % 2 == 1 then 1 else 0) + 2 * BitAnd(a / 2, b / 2)
  }

  predicate Bit(n: nat, k: nat)
    decreases k
  {
    if k == 0 then n % 2 == 1 else Bit(n / 2, k - 1)
  }

  lemma {:induction false} AndIsBitwise(a: nat, b: nat, k: nat)
    ensures Bit(BitAnd(a, b), k) <==> Bit(a, k) && Bit(b, k)
    decreases k
  {
    if a == 0 {
      ZeroHasNoBits(k);
    } else if k > 0 {
      assert BitAnd(a, b) / 2 == BitAnd(a / 2, b / 2);
      AndIsBitwise(a / 2, b / 2, k - 1);
    }
  }

  lemma {:induction false} ZeroHasNoBits(k: nat)
    ensures !Bit(0, k)
    decreases k
  {
    if k == 0 {
    } else {
      ZeroHasNoBits(k - 1);
    }
  }

  lemma {:induction false} AndIsSmaller(a: nat, b: nat)
    ensures BitAnd(a, b) <= a
  {
    if a == 0 {
    } else {
      AndIsSmaller(a / 2, b / 2);
    }
  }

  // ----- one frame

  /** The conversation is over: the other side quits, or offers too little. */
  predicate Ends(f: Frame) { f.cmd == QUIT || f.cmd == QUIT_NC || (f.cmd == OPTNEG && |f.data| < 12) }

  predicate Unanswered(f: Frame) { f.cmd == MACRO || f.cmd == ABORT }

  /** The terms of a negotiation. */
  function Terms(data: Bytes): Bytes
    requires |data| >= 12
  {
    AndIsSmaller(ACTIONS, Number(data[4..8]));
    AndIsSmaller(PROTOCOL_FLAGS, Number(data[8..12]));
    Big(Min(PROTOCOL_VERSION, Number(data[..4]))) + Big(BitAnd(ACTIONS, Number(data[4..8]))) +
    Big(BitAnd(PROTOCOL_FLAGS, Number(data[8..12])))
  }

  /** What is agreed on is no more than either side has: the lower version, no actions,
      and just the flags that both have. */
  lemma TermsAreCommon(data: Bytes, k: nat)
    requires |data| >= 12
    ensures |Terms(data)| == 12
    ensures Number(Terms(data)[..4]) == Min(PROTOCOL_VERSION, Number(data[..4])) && Number(Terms(data)[4..8]) == 0
    ensures Bit(Number(Terms(data)[8..12]), k) <==> Bit(PROTOCOL_FLAGS, k) && Bit(Number(data[8..12]), k)
  {
    var t := Terms(data);
    var version, flags := Min(PROTOCOL_VERSION, Number(data[..4])), BitAnd(PROTOCOL_FLAGS, Number(data[8..12]));
    AndIsSmaller(PROTOCOL_FLAGS, Number(data[8..12]));
    assert t[..4] == Big(version) && t[4..8] == Big(0) && t[8..12] == Big(flags);
    NumberInvertsBig(version);
    NumberInvertsBig(0);
    NumberInvertsBig(flags);
    AndIsBitwise(PROTOCOL_FLAGS, Number(data[8..12]), k);
  }

  function Reply(f: Frame): Frame
    requires !Ends(f)
  {
    if f.cmd == OPTNEG then Frame(OPTNEG, Terms(f.data))
    else Frame(if f.cmd == BODYEOB then ACCEPT else CONTINUE, [])
  }

  /** What a transaction has brought so far, as `_Message` keeps it. */
  datatype State = State(rcpts: seq<Bytes>, headers: seq<Header>, body: Bytes, tooLarge: bool)

  const FRESH := State([], [], [], false)

  predicate Resets(f: Frame) { f.cmd == MAIL || f.cmd == BODYEOB || f.cmd == ABORT }

  function Next(text: Decoder, s: State, f: Frame): State {
    if Resets(f) then FRESH
    else if f.cmd == RCPT then
      if CString(text, f.data) == [] then s else s.(rcpts := s.rcpts + [CString(text, f.data)])
    else if f.cmd == HEADER then
      var h := ParseHeader(text, f.data);
      if h.0 == [] || s.tooLarge then s else s.(headers := s.headers + [h])
    else if f.cmd == BODY && !s.tooLarge then
      if |s.body| + |f.data| > MAX_MESSAGE_SIZE then s.(tooLarge := true, body := [])
      else s.(body := s.body + f.data)
    else s
  }

  // ----- all frames so far

  function StateAfter(text: Decoder, frames: seq<Frame>): State {
    if frames == [] then FRESH else Next(text, StateAfter(text, frames[..|frames| - 1]), frames[|frames| - 1])
  }

  /** The frames since the last that began or ended a transaction. */
  function Since(frames: seq<Frame>): seq<Frame> {
    if frames == [] || Resets(frames[|frames| - 1]) then []
    else Since(frames[..|frames| - 1]) + [frames[|frames| - 1]]
  }

  function Rcpts(text: Decoder, frames: seq<Frame>): seq<Bytes> {
    if frames == [] then []
    else
      var f := frames[|frames| - 1];
      Rcpts(text, frames[..|frames| - 1]) +
      if f.cmd == RCPT && CString(text, f.data) != [] then [CString(text, f.data)] else []
  }

  function Headers(text: Decoder, frames: seq<Frame>): seq<Header> {
    if frames == [] then []
    else
      var f := frames[|frames| - 1];
      Headers(text, frames[..|frames| - 1]) +
      if f.cmd == HEADER && ParseHeader(text, f.data).0 != [] then [ParseHeader(text, f.data)] else []
  }

  function Bodies(frames: seq<Frame>): Bytes {
    if frames == [] then []
    else Bodies(frames[..|frames| - 1]) + if frames[|frames| - 1].cmd == BODY then frames[|frames| - 1].data else []
  }

  predicate Fits(frames: seq<Frame>) { |Bodies(frames)| <= MAX_MESSAGE_SIZE }

  /** The message of a transaction. */
  function Message(text: Decoder, frames: seq<Frame>): Envelope {
    Envelope(Assembled(Headers(text, frames), Bodies(frames)), Rcpts(text, frames))
  }

  /** The messages handed on: one for every end of a body, made up of what came since the
      last reset, unless that was too large. */
  function Handed(text: Decoder, frames: seq<Frame>): seq<Envelope> {
    if frames == [] then []
    else
      var before := frames[..|frames| - 1];
      Handed(text, before) +
      if frames[|frames| - 1].cmd == BODYEOB && Fits(Since(before)) then [Message(text, Since(before))] else []
  }

  /** The state is what came since the last reset; a body that is too large is not kept. */
  ghost predicate StateIs(text: Decoder, s: State, since: seq<Frame>) {
    && s.rcpts == Rcpts(text, since)
    && (s.tooLarge <==> !Fits(since))
    && (s.tooLarge ==> s.body == [])
    && (!s.tooLarge ==> s.body == Bodies(since) && s.headers == Headers(text, since))
  }

  lemma StateStaysSo(text: Decoder, s: State, since: seq<Frame>, f: Frame)
    requires StateIs(text, s, since) && !Resets(f)
    ensures StateIs(text, Next(text, s, f), since + [f])
  {
    assert (since + [f])[..|since|] == since;
  }

  lemma {:induction false} StateIsSince(text: Decoder, frames: seq<Frame>)
    ensures StateIs(text, StateAfter(text, frames), Since(frames))
  {
    if frames == [] || Resets(frames[|frames| - 1]) {
    } else {
      var before := frames[..|frames| - 1];
      StateIsSince(text, before);
      StateStaysSo(text, StateAfter(text, before), Since(before), frames[|frames| - 1]);
    }
  }

  /** Whatever is sent, no more than the largest message is held as a body. */
  lemma BodyIsBounded(text: Decoder, frames: seq<Frame>)
    ensures |StateAfter(text, frames).body| <= 8_388_608
  {
    StateIsSince(text, frames);
  }

  lemma {:induction false} SinceReset(start: seq<Frame>, later: seq<Frame>)
    requires start != [] && Resets(start[|start| - 1])
    ensures Since(start + later) == Since(later)
  {
    if later == [] {
      assert start + later == start;
    } else {
      SinceReset(start, later[..|later| - 1]);
      assert (start + later)[..|start + later| - 1] == start + later[..|later| - 1];
    }
  }

  lemma HandedLast(text: Decoder, frames: seq<Frame>, f: Frame)
    ensures Handed(text, frames + [f]) == Handed(text, frames) +
      if f.cmd == BODYEOB && Fits(Since(frames)) then [Message(text, Since(frames))] else []
  {
    assert (frames + [f])[..|frames|] == frames;
  }

  lemma {:induction false} HandedSinceReset(text: Decoder, start: seq<Frame>, later: seq<Frame>)
    requires start != [] && Resets(start[|start| - 1])
    ensures Handed(text, start + later) == Handed(text, start) + Handed(text, later)
  {
    if later == [] {
      assert start + later == start;
    } else {
      var before, f := later[..|later| - 1], later[|later| - 1];
      HandedSinceReset(text, start, before);
      HandedStep(text, start, before, f);
      LastApart(start, later);
    }
  }

  lemma HandedStep(text: Decoder, start: seq<Frame>, before: seq<Frame>, f: Frame)
    requires start != [] && Resets(start[|start| - 1])
    requires Handed(text, start + before) == Handed(text, start) + Handed(text, before)
    ensures Handed(text, (start + before) + [f]) == Handed(text, start) + Handed(text, before + [f])
  {
    SinceReset(start, before);
    var last := if f.cmd == BODYEOB && Fits(Since(before)) then [Message(text, Since(before))] else [];
    HandedLast(text, start + before, f);
    HandedLast(text, before, f);
    InThree(Handed(text, start), Handed(text, before), last);
  }

  lemma LastApart(start: seq<Frame>, later: seq<Frame>)
    requires later != []
    ensures later == later[..|later| - 1] + [later[|later| - 1]]
    ensures start + later == (start + later[..|later| - 1]) + [later[|later| - 1]]
  {
  }

  lemma InThree(a: seq<Envelope>, b: seq<Envelope>, c: seq<Envelope>)
    ensures (a + b) + c == a + (b + c)
  {
  }

  /** After a reset all that was sent before is forgotten. */
  lemma ResetForgets(text: Decoder, before: seq<Frame>, reset: Frame, later: seq<Frame>)
    requires Resets(reset)
    ensures Since(before + [reset] + later) == Since(later)
    ensures Handed(text, before + [reset] + later) == Handed(text, before + [reset]) + Handed(text, later)
  {
    SinceReset(before + [reset], later);
    HandedSinceReset(text, before + [reset], later);
  }

  lemma {:induction false} WithoutResets(text: Decoder, frames: seq<Frame>)
    requires forall i :: 0 <= i < |frames| ==> !Resets(frames[i])
    ensures Since(frames) == frames && Handed(text, frames) == []
  {
    if frames == [] {
    } else {
      WithoutResets(text, frames[..|frames| - 1]);
      assert frames == frames[..|frames| - 1] + [frames[|frames| - 1]];
    }
  }

  /** A whole transaction, whatever came before it, hands on its message, and nothing but
      its message; or nothing just when its body is too large. */
  lemma TransactionHandsOn(text: Decoder, before: seq<Frame>, start: Frame, frames: seq<Frame>, end: Frame)
    requires start.cmd == MAIL && end.cmd == BODYEOB && forall i :: 0 <= i < |frames| ==> !Resets(frames[i])
    ensures Handed(text, before + [start] + (frames + [end])) ==
      Handed(text, before) + if Fits(frames) then [Message(text, frames)] else []
  {
    ResetForgets(text, before, start, frames + [end]);
    WithoutResets(text, frames);
    assert (before + [start])[..|before|] == before;
    assert (frames + [end])[..|frames|] == frames;
  }

  // ----- the answers

  function ReplyFrames(frames: seq<Frame>): seq<Frame>
    requires forall i :: 0 <= i < |frames| ==> !Ends(frames[i])
  {
    if frames == [] then []
    else
      var f := frames[|frames| - 1];
      ReplyFrames(frames[..|frames| - 1]) + if Unanswered(f) then [] else [Reply(f)]
  }

  lemma {:induction false} RepliesAreSmall(frames: seq<Frame>)
    requires forall i :: 0 <= i < |frames| ==> !Ends(frames[i])
    ensures Small(ReplyFrames(frames))
  {
    if frames == [] {
    } else {
      RepliesAreSmall(frames[..|frames| - 1]);
    }
  }

  function Answered(frames: seq<Frame>): nat {
    if frames == [] then 0
    else Answered(frames[..|frames| - 1]) + if Unanswered(frames[|frames| - 1]) then 0 else 1
  }

  /** The other side reads as many answers as it has sent commands that have one. */
  lemma {:induction false} OneReplyEach(frames: seq<Frame>)
    requires forall i :: 0 <= i < |frames| ==> !Ends(frames[i])
    ensures Small(ReplyFrames(frames)) && ReadAll(WriteAll(ReplyFrames(frames))) == ReplyFrames(frames)
    ensures |ReplyFrames(frames)| == Answered(frames)
  {
    RepliesAreSmall(frames);
    ReadAllInvertsWriteAll(ReplyFrames(frames));
    if frames == [] {
    } else {
      OneReplyEach(frames[..|frames| - 1]);
    }
  }

  // ----- the bytes of a whole conversation

  /** The frames acted on: up to the end of the stream, one that cannot be read or one that
      ends the conversation. */
  function Taken(s: Bytes): (frames: seq<Frame>)
    ensures forall i :: 0 <= i < |frames| ==> !Ends(frames[i])
    decreases |s|
  {
    var r := Read(s);
    if r.Got? && !Ends(r.frame) then [r.frame] + Taken(r.rest) else []
  }

  /** Frames that were written, and do not end the conversation, are all acted on. */
  lemma {:induction false} AllAreTaken(frames: seq<Frame>)
    requires Small(frames) && forall i :: 0 <= i < |frames| ==> !Ends(frames[i])
    ensures Taken(WriteAll(frames)) == frames
  {
    if frames == [] {
    } else {
      AllAreTaken(frames[1..]);
      ReadInvertsWrite(frames[0], WriteAll(frames[1..]));
    }
  }

  // ----- command by command

  /** The answer to each command, letter by letter. */
  lemma ReplyByLetter(f: Frame)
    ensures Unanswered(f) <==> f.cmd == 'D' as Octet || f.cmd == 'A' as Octet
    ensures Ends(f) <==> f.cmd == 'Q' as Octet || f.cmd == 'K' as Octet || (f.cmd == 'O' as Octet && |f.data| < 12)
    ensures f.cmd == 'O' as Octet && |f.data| >= 12 ==> Reply(f) == Frame('O' as Octet, Terms(f.data))
    ensures f.cmd == 'E' as Octet ==> Reply(f) == Frame('a' as Octet, [])
    ensures !Ends(f) && f.cmd != 'O' as Octet && f.cmd != 'E' as Octet ==> Reply(f) == Frame('c' as Octet, [])
    ensures Resets(f) <==> f.cmd == 'M' as Octet || f.cmd == 'E' as Octet || f.cmd == 'A' as Octet
  {
  }

  /** The flags asked for: no connection, greeting, sender, unknown command or DATA. */
  lemma FlagsAre(k: nat)
    ensures Bit(PROTOCOL_FLAGS, k) <==> k == 0 || k == 1 || k == 2 || k == 8 || k == 9
  {
    if k < 10 {
      FlagsBelow(k);
    } else {
      FlagsAbove(k);
    }
  }

  lemma FlagsBelow(k: nat)
    requires k < 10
    ensures Bit(775, k) <==> k == 0 || k == 1 || k == 2 || k == 8 || k == 9
  {
    assert Bit(387, 0) && Bit(193, 0) && !Bit(96, 0) && !Bit(48, 0) && !Bit(24, 0) && !Bit(12, 0) && !Bit(6, 0);
    assert Bit(3, 0) && Bit(1, 0);
    BitAt(775, k);
    if k > 0 { BitAt(387, k - 1); }
    if k > 1 { BitAt(193, k - 2); }
    if k > 2 { BitAt(96, k - 3); }
    if k > 3 { BitAt(48, k - 4); }
    if k > 4 { BitAt(24, k - 5); }
    if k > 5 { BitAt(12, k - 6); }
    if k > 6 { BitAt(6, k - 7); }
    if k > 7 { BitAt(3, k - 8); }
    if k > 8 { BitAt(1, k - 9); }
  }

  lemma BitAt(n: nat, k: nat)
    ensures Bit(n, k) <==> if k == 0 then n % 2 == 1 else Bit(n / 2, k - 1)
  {
  }

  lemma FlagsAbove(k: nat)
    requires k >= 10
    ensures !Bit(775, k)
  {
    BitAt(775, k);
    BitAt(387, k - 1);
    BitAt(193, k - 2);
    BitAt(96, k - 3);
    BitAt(48, k - 4);
    BitAt(24, k - 5);
    BitAt(12, k - 6);
    BitAt(6, k - 7);
    BitAt(3, k - 8);
    BitAt(1, k - 9);
    ZeroHasNoBits(k - 10);
  }

  /** A negotiation in numbers: version 6 at most, no actions, and of those flags the ones
      that are offered. */
  lemma TermsByNumber(data: Bytes, k: nat)
    requires |data| >= 12
    ensures Number(Terms(data)[..4]) == Min(6, Number(data[..4])) && Number(Terms(data)[4..8]) == 0
    ensures |Terms(data)| == 12
    ensures Bit(Number(Terms(data)[8..12]), k) <==>
      (k == 0 || k == 1 || k == 2 || k == 8 || k == 9) && Bit(Number(data[8..12]), k)
  {
    TermsAreCommon(data, k);
    FlagsAre(k);
  }

  /** A whole transaction, letter by letter: from a sender, to one recipient, with one header
      and one piece of body. */
  lemma MessageByLetter(text: Decoder, sender: Bytes, rcpt: Bytes, name: Bytes, value: Bytes, data: Bytes)
    requires rcpt != [] && name != [] && 0 !in rcpt && 0 !in name && 0 !in value
    requires text(rcpt) == rcpt && text(name) == name && text(value) == value
    ensures var frames := [Frame('R' as Octet, rcpt + [0]), Frame('L' as Octet, name + [0] + value + [0]),
                           Frame('B' as Octet, data)];
      Handed(text, [Frame('M' as Octet, sender)] + (frames + [Frame('E' as Octet, [])])) ==
      if |data| > 8_388_608 then []
      else [Envelope(name + [58, 32] + value + [13, 10] + [13, 10] + data, [rcpt])]
  {
    var r, l, b := Frame(RCPT, rcpt + [0]), Frame(HEADER, name + [0] + value + [0]), Frame(BODY, data);
    var start, end := Frame(MAIL, sender), Frame(BODYEOB, []);
    var frames := [r, l, b];
    TransactionHandsOn(text, [], start, frames, end);
    assert [] + [start] == [start] && Handed(text, []) == [];
    CStringIs(text, rcpt);
    HeaderIsParsed(text, name, value);
    PartsOfThree(text, r, l, b);
    assert HeaderLines([(name, value)]) == name + [58, 32] + value + CRLF by {
      assert [(name, value)][..0] == [] && HeaderLines([]) == [];
    }
  }

  lemma CStringIs(text: Decoder, s: Bytes)
    requires 0 !in s
    ensures CString(text, s + [0]) == text(s)
  {
    BeforeIs(s + [0], |s|, 0);
    assert (s + [0])[..|s|] == s;
  }

  lemma PartsOfThree(text: Decoder, r: Frame, l: Frame, b: Frame)
    requires r.cmd == RCPT && CString(text, r.data) != [] && l.cmd == HEADER && ParseHeader(text, l.data).0 != []
    requires b.cmd == BODY
    ensures Rcpts(text, [r, l, b]) == [CString(text, r.data)] && Headers(text, [r, l, b]) == [ParseHeader(text, l.data)]
    ensures Bodies([r, l, b]) == b.data
  {
    assert [r, l, b][..2] == [r, l] && [r, l][..1] == [r] && [r][..0] == [];
    assert Rcpts(text, []) == [] && Headers(text, []) == [] && Bodies([]) == [];
    assert Rcpts(text, [r]) == [CString(text, r.data)] && Headers(text, [r]) == [] && Bodies([r]) == [];
    assert Rcpts(text, [r, l]) == [CString(text, r.data)] && Bodies([r, l]) == [];
    assert Headers(text, [r, l]) == [ParseHeader(text, l.data)];
  }

  /** Each header is a line of the message: its name, a colon and a space, its value. */
  lemma {:induction false} LineOfHeader(headers: seq<Header>, i: nat) returns (before: Bytes, after: Bytes)
    requires i < |headers|
    ensures HeaderLines(headers) == before + (headers[i].0 + [58, 32] + headers[i].1 + [13, 10]) + after
    ensures before == HeaderLines(headers[..i])
  {
    var n := |headers| - 1;
    if i == n {
      before, after := HeaderLines(headers[..n]), [];
    } else {
      before, after := LineOfHeader(headers[..n], i);
      after := after + (headers[n].0 + [58, 32] + headers[n].1 + CRLF);
      assert headers[..n][..i] == headers[..i];
    }
  }

  // ----- what is not bounded

  function HeaderFrames(n: nat): seq<Frame> { seq(n, _ => Frame(HEADER, [65, 0, 66, 0])) }

  /** The header `A: B` once more takes the length of a message up by six. */
  lemma {:induction false} HeaderFramesAre(text: Decoder, n: nat)
    requires text([65]) == [65] && text([66]) == [66]
    ensures Bodies(HeaderFrames(n)) == [] && |HeaderLines(Headers(text, HeaderFrames(n)))| == 6 * n
  {
    if n == 0 {
    } else {
      HeaderFramesAre(text, n - 1);
      var f := Frame(HEADER, [65, 0, 66, 0]);
      assert HeaderFrames(n) == HeaderFrames(n - 1) + [f];
      HeaderIsParsed(text, [65], [66]);
      assert [65] + [0] + [66] + [0] == f.data;
      OneHeaderMore(text, HeaderFrames(n - 1), f);
      LinesOfMore(Headers(text, HeaderFrames(n - 1)), ([65], [66]));
    }
  }

  lemma OneHeaderMore(text: Decoder, frames: seq<Frame>, f: Frame)
    requires f.cmd == HEADER && ParseHeader(text, f.data).0 != []
    ensures Headers(text, frames + [f]) == Headers(text, frames) + [ParseHeader(text, f.data)]
    ensures Bodies(frames + [f]) == Bodies(frames)
  {
    assert (frames + [f])[..|frames|] == frames;
  }

  lemma LinesOfMore(headers: seq<Header>, h: Header)
    ensures |HeaderLines(headers + [h])| == |HeaderLines(headers)| + |h.0| + |h.1| + 4
  {
    assert (headers + [h])[..|headers|] == headers;
  }

  function HeaderSize(headers: seq<Header>): nat {
    if headers == [] then 0
    else
      var h := headers[|headers| - 1];
      HeaderSize(headers[..|headers| - 1]) + |h.0| + |h.1| + 4
  }

  lemma {:induction false} HeaderLinesSize(headers: seq<Header>)
    ensures |HeaderLines(headers)| == HeaderSize(headers)
  {
    if headers == [] {
    } else {
      HeaderLinesSize(headers[..|headers| - 1]);
    }
  }

  /** A transaction hands on a message over the limit just when its body is not, but with the
      headers it is. */
  lemma OversizedJustWhen(text: Decoder, frames: seq<Frame>, end: Frame)
    requires end.cmd == BODYEOB && forall i :: 0 <= i < |frames| ==> !Resets(frames[i])
    ensures (exists e <- Handed(text, frames + [end]) :: |e.message| > MAX_MESSAGE_SIZE) <==>
      |Bodies(frames)| <= MAX_MESSAGE_SIZE < HeaderSize(Headers(text, frames)) + 2 + |Bodies(frames)|
  {
    WithoutResets(text, frames);
    HeaderLinesSize(Headers(text, frames));
    assert (frames + [end])[..|frames|] == frames;
    assert Handed(text, frames + [end]) == if Fits(frames) then [Message(text, frames)] else [];
  }

  /** Headers do not count towards the largest message: with enough of them, a message of
      more than any size is handed on. */
  lemma HeadersAreNotBounded(text: Decoder, n: nat, end: Frame)
    requires text([65]) == [65] && text([66]) == [66] && end.cmd == BODYEOB
    ensures exists e :: Handed(text, HeaderFrames(n) + [end]) == [e] && |e.message| > n
  {
    HeaderFramesAre(text, n);
    WithoutResets(text, HeaderFrames(n));
    assert (HeaderFrames(n) + [end])[..n] == HeaderFrames(n);
    assert Handed(text, HeaderFrames(n) + [end]) == [Message(text, HeaderFrames(n))];
  }
}
