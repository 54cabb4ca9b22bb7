/**
 One conversation with a mail server (`_Message`, `_reassemble_message` and
 `handle_connection` in xandikos/milter.py).
 */
module MilterConnections {
  import opened Wrappers
  import opened Octets
  import opened Frames
  import opened Milters

  /** `_Message`. */
  class Transaction {
    var rcpts: seq<Bytes>
    var headers: seq<Header>
    var body: Bytes
    var tooLarge: bool

    function Value(): State
      reads this
    {
      State(rcpts, headers, body, tooLarge)
    }

    constructor ()
      ensures Value() == FRESH
    {
      rcpts, headers, body, tooLarge := [], [], [], false;
    }

    method Reset()
      modifies this
      ensures Value() == FRESH
    {
      rcpts, headers, body, tooLarge := [], [], [], false;
    }

    /** What a frame other than the end of a body adds or takes away. */
    method Take(text: Decoder, f: Frame)
      requires f.cmd != BODYEOB
      modifies this
      ensures Value() == Next(text, old(Value()), f)
      ensures |old(body)| <= MAX_MESSAGE_SIZE ==> |body| <= MAX_MESSAGE_SIZE
    {
      if f.cmd == MAIL || f.cmd == ABORT {
        Reset();
      } else if f.cmd == RCPT {
        var rcpt := CString(text, f.data);
        if rcpt != [] { rcpts := rcpts + [rcpt]; }
      } else if f.cmd == HEADER {
        var header := ParseHeader(text, f.data);
        if header.0 != [] && !tooLarge { headers := headers + [header]; }
      } else if f.cmd == BODY && !tooLarge {
        if |body| + |f.data| > MAX_MESSAGE_SIZE {
          tooLarge := true;
          body := [];
        } else {
          body := body + f.data;
        }
      }
    }
  }

  /** `_reassemble_message`. */
  method ReassembleMessage(headers: seq<Header>, body: Bytes) returns (buf: Bytes)
    ensures buf == Assembled(headers, body)
  {
    buf := [];
    for i := 0 to |headers|
      invariant buf == HeaderLines(headers[..i])
    {
      assert headers[..i + 1][..i] == headers[..i];
      buf := buf + (headers[i].0 + [58, 32] + headers[i].1 + CRLF);
    }
    assert headers[..|headers|] == headers;
    buf := buf + CRLF + body;
  }

  /** What a frame is answered with. */
  function Answer(f: Frame): Bytes
    requires !Ends(f)
  {
    if Unanswered(f) then [] else Write(Reply(f))
  }

  /** What a frame that meets the transaction in state `s` hands on. */
  function Offered(s: State, f: Frame): seq<Envelope> {
    if f.cmd == BODYEOB && !s.tooLarge then [Envelope(Assembled(s.headers, s.body), s.rcpts)] else []
  }

  /** Where the frames `done` leave a conversation. */
  ghost predicate Reached(text: Decoder, done: seq<Frame>, output: Bytes, handed: seq<Envelope>, s: State) {
    && (forall i :: 0 <= i < |done| ==> !Ends(done[i]))
    && Small(ReplyFrames(done)) && output == WriteAll(ReplyFrames(done))
    && handed == Handed(text, done)
    && s == StateAfter(text, done)
  }

  lemma RepliesOfOneMore(done: seq<Frame>, f: Frame)
    requires !Ends(f) && forall i :: 0 <= i < |done| ==> !Ends(done[i])
    requires Small(ReplyFrames(done))
    ensures Small(ReplyFrames(done + [f]))
    ensures WriteAll(ReplyFrames(done + [f])) == WriteAll(ReplyFrames(done)) + Answer(f)
  {
    LastReply(done, f);
    AnswerIsWritten(ReplyFrames(done), f);
  }

  lemma AnswerIsWritten(before: seq<Frame>, f: Frame)
    requires !Ends(f) && Small(before)
    ensures Unanswered(f) ==> WriteAll(before) + Answer(f) == WriteAll(before)
    ensures !Unanswered(f) ==>
      Small(before + [Reply(f)]) && WriteAll(before + [Reply(f)]) == WriteAll(before) + Answer(f)
  {
    if Unanswered(f) {
      assert WriteAll(before) + [] == WriteAll(before);
    } else {
      assert Size(Reply(f)) <= 13;
      WriteAllAppend(before, Reply(f));
    }
  }

  lemma LastReply(done: seq<Frame>, f: Frame)
    requires !Ends(f) && forall i :: 0 <= i < |done| ==> !Ends(done[i])
    ensures ReplyFrames(done + [f]) == if Unanswered(f) then ReplyFrames(done) else ReplyFrames(done) + [Reply(f)]
  {
    assert (done + [f])[..|done|] == done;
    assert ReplyFrames(done) + [] == ReplyFrames(done);
  }

  lemma OneMore(text: Decoder, done: seq<Frame>, output: Bytes, handed: seq<Envelope>, s: State, f: Frame)
    requires Reached(text, done, output, handed, s) && !Ends(f)
    ensures Reached(text, done + [f], output + Answer(f), handed + Offered(s, f), Next(text, s, f))
  {
    assert (done + [f])[..|done|] == done;
    RepliesOfOneMore(done, f);
    StateIsSince(text, done);
  }

  lemma OneTaken(done: seq<Frame>, s: Bytes)
    requires Read(s).Got? && !Ends(Read(s).frame)
    ensures done + Taken(s) == (done + [Read(s).frame]) + Taken(Read(s).rest)
  {
  }

  class Conversation {
    const text: Decoder
    const state: Transaction
    var input: Bytes
    var output: Bytes
    var handed: seq<Envelope>

    constructor (text: Decoder, input: Bytes)
      ensures this.text == text && this.input == input && output == [] && handed == []
      ensures fresh(state) && state.Value() == FRESH
    {
      this.text, this.input, output, handed := text, input, [], [];
      state := new Transaction();
    }

    /** `_write_frame`. */
    method WriteFrame(f: Frame)
      requires Size(f) <= MAX_FRAME_SIZE
      modifies this`output
      ensures output == old(output) + Write(f)
    {
      output := output + Write(f);
    }

    /** The end of a body: the message goes to the handler, which cannot fail the
        conversation, unless it was too large. */
    method HandOn()
      modifies this`handed, state
      ensures handed == old(handed) + Offered(old(state.Value()), Frame(BODYEOB, []))
      ensures state.Value() == FRESH
    {
      if !state.tooLarge {
        var message := ReassembleMessage(state.headers, state.body);
        handed := handed + [Envelope(message, state.rcpts)];
      }
      state.Reset();
    }

    /** One turn of the loop, with a frame that does not end it. */
    method Handle(f: Frame)
      requires !Ends(f)
      modifies this`output, this`handed, state
      ensures state.Value() == Next(text, old(state.Value()), f)
      ensures |old(state.body)| <= MAX_MESSAGE_SIZE ==> |state.body| <= MAX_MESSAGE_SIZE
      ensures output == old(output) + Answer(f) && handed == old(handed) + Offered(old(state.Value()), f)
    {
      if f.cmd == BODYEOB {
        HandOn();
      } else {
        state.Take(text, f);
      }
      if !Unanswered(f) { WriteFrame(Reply(f)); }
    }

    /** `handle_connection`: whatever bytes come, the answers and the messages handed on are
        those of the frames in them. */
    method HandleConnection()
      requires output == [] && handed == [] && state.Value() == FRESH
      modifies this`input, this`output, this`handed, state
      ensures Reached(text, Taken(old(input)), output, handed, state.Value())
      ensures |state.body| <= MAX_MESSAGE_SIZE
    {
      ghost var all, done: seq<Frame> := Taken(input), [];
      while true
        invariant all == done + Taken(input)
        invariant Reached(text, done, output, handed, state.Value())
        invariant |state.body| <= MAX_MESSAGE_SIZE
        decreases |input|
      {
        var r := Read(input);
        ghost var s := input;
        if !r.Got? || Ends(r.frame) {
          assert done + [] == done;
          return;
        }
        OneMore(text, done, output, handed, state.Value(), r.frame);
        Handle(r.frame);
        input := r.rest;
        OneTaken(done, s);
        done := done + [r.frame];
      }
    }
  }
}
