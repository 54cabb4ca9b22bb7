/** The frames of the milter protocol (`_read_frame` and `_write_frame` in xandikos/milter.py). */
module Frames {
  import opened Wrappers
  import opened Octets

  const MAX_FRAME_SIZE: nat := 4 * 1024 * 1024

  datatype Frame = Frame(cmd: Octet, data: Bytes)

  /** Reading a frame: none is left, one is torn off, one has a length that cannot be, or
      there is one and what follows it. */
  datatype Incoming = Eof | Torn | BadLength | Got(frame: Frame, rest: Bytes)

  /** The four bytes of a number, the highest first. */
  function Big(n: nat): Bytes
    requires n < 0x1_0000_0000
  {
    [n / 256 / 256 / 256, n / 256 / 256 % 256, n / 256 % 256, n % 256]
  }

  function Shift(n: nat, b: nat): nat { 256 * n + b }

  function Number(s: Bytes): (n: nat)
    requires |s| == 4
    ensures n < 0x1_0000_0000
  {
    Shift(Shift(Shift(s[0], s[1]), s[2]), s[3])
  }

  lemma NumberInvertsBig(n: nat)
    requires n < 0x1_0000_0000
    ensures Number(Big(n)) == n
  {
    var c := n / 256;
    var b := c / 256;
    assert Shift(b / 256, b % 256) == b && Shift(b, c % 256) == c && Shift(c, n % 256) == n;
  }

  lemma BigInvertsNumber(s: Bytes)
    requires |s| == 4
    ensures Big(Number(s)) == s
  {
    var b := Shift(s[0], s[1]);
    var c := Shift(b, s[2]);
    assert Number(s) / 256 == c && Number(s) % 256 == s[3];
    assert c / 256 == b && c % 256 == s[2];
    assert b / 256 == s[0] && b % 256 == s[1];
  }

  function Size(f: Frame): nat { 1 + |f.data| }

  /** `_write_frame`. */
  function Write(f: Frame): Bytes
    requires Size(f) < 0x1_0000_0000
  {
    Big(Size(f)) + [f.cmd] + f.data
  }

  /** `_read_frame` of a stream. */
  function Read(s: Bytes): (r: Incoming)
    ensures r.Got? ==> |r.rest| < |s|
  {
    if s == [] then Eof
    else if |s| < 4 then Torn
    else
      var n := Number(s[..4]);
      if n == 0 || n > MAX_FRAME_SIZE then BadLength
      else if |s| < 4 + n then Torn
      else Got(Frame(s[4], s[5..4 + n]), s[4 + n..])
  }

  lemma PartsOfWrite(f: Frame, rest: Bytes)
    requires Size(f) < 0x1_0000_0000
    ensures var s, n := Write(f) + rest, Size(f);
      |s| == 4 + n + |rest| && s[..4] == Big(n) && s[4] == f.cmd && s[5..4 + n] == f.data && s[4 + n..] == rest
  {
    var s := Write(f) + rest;
    assert s == Big(Size(f)) + ([f.cmd] + (f.data + rest));
    assert s[4..] == [f.cmd] + (f.data + rest);
  }

  /** A frame is read back as it was written, unless it is too large, and that is noticed. */
  lemma ReadInvertsWrite(f: Frame, rest: Bytes)
    requires Size(f) < 0x1_0000_0000
    ensures Read(Write(f) + rest) == if Size(f) <= 4_194_304 then Got(f, rest) else BadLength
  {
    PartsOfWrite(f, rest);
    NumberInvertsBig(Size(f));
  }

  /** A frame is four bytes of length, the highest first, that count its command and its
      data; then the command; then the data. */
  lemma FrameByByte(f: Frame)
    requires Size(f) < 0x1_0000_0000
    ensures var s := Write(f);
      && |s| == 5 + |f.data| && s[4] == f.cmd && s[5..] == f.data
      && 16_777_216 * (s[0] as nat) + 65_536 * (s[1] as nat) + 256 * (s[2] as nat) + s[3] as nat == 1 + |f.data|
  {
    PartsOfWrite(f, []);
    NumberInvertsBig(Size(f));
    assert Write(f) + [] == Write(f);
  }

  /** What is read was written so: frames have no other form. */
  lemma WriteInvertsRead(s: Bytes)
    requires Read(s).Got?
    ensures Size(Read(s).frame) <= MAX_FRAME_SIZE && s == Write(Read(s).frame) + Read(s).rest
  {
    var n := Number(s[..4]);
    BigInvertsNumber(s[..4]);
    assert s == s[..4] + [s[4]] + s[5..4 + n] + s[4 + n..];
  }

  // ----- several frames

  predicate Small(frames: seq<Frame>) { forall i :: 0 <= i < |frames| ==> Size(frames[i]) <= MAX_FRAME_SIZE }

  function WriteAll(frames: seq<Frame>): Bytes
    requires Small(frames)
  {
    if frames == [] then [] else Write(frames[0]) + WriteAll(frames[1..])
  }

  /** The frames of a stream, up to its end or to the first that cannot be read. */
  function ReadAll(s: Bytes): seq<Frame>
    decreases |s|
  {
    var r := Read(s);
    if r.Got? then [r.frame] + ReadAll(r.rest) else []
  }

  lemma {:induction false} ReadAllInvertsWriteAll(frames: seq<Frame>)
    requires Small(frames)
    ensures ReadAll(WriteAll(frames)) == frames
  {
    if frames == [] {
    } else {
      ReadAllInvertsWriteAll(frames[1..]);
      ReadInvertsWrite(frames[0], WriteAll(frames[1..]));
    }
  }

  lemma {:induction false} WriteAllAppend(frames: seq<Frame>, f: Frame)
    requires Small(frames) && Size(f) <= MAX_FRAME_SIZE
    ensures WriteAll(frames + [f]) == WriteAll(frames) + Write(f)
  {
    if frames == [] {
      assert frames + [f] == [f];
    } else {
      WriteAllAppend(frames[1..], f);
      assert (frames + [f])[1..] == frames[1..] + [f];
      Associates(Write(frames[0]), WriteAll(frames[1..]), Write(f));
    }
  }
}
