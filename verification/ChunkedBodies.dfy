/**
 The chunked request body: what is decoded from a stream, good or broken, and that it
 undoes the encoding (section 7.1 of RFC 9112).
 */
module ChunkedBodies {
  import opened Wrappers
  import opened Octets
  import opened ChunkSizes

  datatype Fault = ShortRead | EndOfStream | EmptySizeLine | BadSize

  /** What stands at the head of a chunk: a chunk and what follows its size line, the last
      chunk and what follows the whole body, or nothing that can be read. */
  datatype Opening = Chunk(size: int, rest: Bytes) | Last(tail: Bytes) | Bad(fault: Fault)

  /** What follows the trailers. */
  function AfterTrailers(s: Bytes): (r: Option<Bytes>)
    ensures r.Some? ==> |r.value| < |s|
    decreases |s|
  {
    var k := Eol(s);
    if k.None? then None
    else if k.value == 0 then Some(s[2..])
    else AfterTrailers(s[k.value + 2..])
  }

  function Open(s: Bytes): (r: Opening)
    ensures r.Chunk? ==> r.size != 0 && |r.rest| < |s|
    ensures r.Last? ==> |r.tail| < |s|
  {
    var k := Eol(s);
    if k.None? then Bad(EndOfStream)
    else if k.value == 0 then Bad(EmptySizeLine)
    else
      var size := SizeOf(s[..k.value]);
      var rest := s[k.value + 2..];
      if size.None? then Bad(BadSize)
      else if size.value != 0 then Chunk(size.value, rest)
      else
        var tail := AfterTrailers(rest);
        if tail.None? then Bad(EndOfStream) else Last(tail.value)
  }

  /** What can be read, and what is left of the stream after it or why no more can be read. */
  datatype Decoding = Decoding(payload: Bytes, end: Result<Bytes, Fault>)

  /** What is still to come, `left` bytes of the current chunk being unread. */
  function Decode(s: Bytes, left: int): Decoding
    decreases |s|, if left == 0 then 1 else 0
  {
    if left < 0 then Decoding([], Err(ShortRead))
    else if left > 0 then
      // the last byte of a chunk is given out only with the line break after it
      if |s| < left + 2 then Decoding(s[..Min(|s|, left - 1)], Err(ShortRead))
      else
        var later := Decode(s[left + 2..], 0);
        Decoding(s[..left] + later.payload, later.end)
    else
      match Open(s)
      case Bad(fault) => Decoding([], Err(fault))
      case Last(tail) => Decoding([], Ok(tail))
      case Chunk(size, rest) => Decode(rest, size)
  }

  // ----- encoding

  datatype Part = Part(digits: Bytes, ext: Bytes, data: Bytes)

  datatype Body = Body(parts: seq<Part>, last: Part, trailers: seq<Bytes>)

  predicate GoodPart(p: Part) { IsSizeLine(p.digits, p.ext, |p.data|) }

  /** A body as it may be sent: any chunks but empty ones, then an empty one, with any
      extensions, then any trailers. */
  predicate GoodBody(b: Body) {
    && (forall i :: 0 <= i < |b.parts| ==> GoodPart(b.parts[i]) && b.parts[i].data != [])
    && GoodPart(b.last) && b.last.data == []
    && (forall i :: 0 <= i < |b.trailers| ==> b.trailers[i] != [] && NoBreak(b.trailers[i]))
  }

  function SizeLine(p: Part): Bytes { p.digits + p.ext }

  function EncodeTrailers(trailers: seq<Bytes>, tail: Bytes): Bytes {
    if trailers == [] then [] + CRLF + tail else trailers[0] + CRLF + EncodeTrailers(trailers[1..], tail)
  }

  /** The body on the wire, before `tail`. */
  function Encode(b: Body, tail: Bytes): Bytes
    decreases |b.parts|
  {
    if b.parts == [] then SizeLine(b.last) + CRLF + EncodeTrailers(b.trailers, tail)
    else
      SizeLine(b.parts[0]) + CRLF + (b.parts[0].data + CRLF + Encode(b.(parts := b.parts[1..]), tail))
  }

  function Payload(parts: seq<Part>): Bytes {
    if parts == [] then [] else parts[0].data + Payload(parts[1..])
  }

  lemma {:induction false} TrailersAreSkipped(trailers: seq<Bytes>, tail: Bytes)
    requires forall i :: 0 <= i < |trailers| ==> trailers[i] != [] && NoBreak(trailers[i])
    ensures AfterTrailers(EncodeTrailers(trailers, tail)) == Some(tail)
  {
    if trailers == [] {
      LineIsRead([], tail);
    } else {
      TrailersAreSkipped(trailers[1..], tail);
      LineIsRead(trailers[0], EncodeTrailers(trailers[1..], tail));
    }
  }

  lemma PartIsOpened(p: Part, rest: Bytes)
    requires GoodPart(p)
    ensures var s := SizeLine(p) + CRLF + rest;
      Eol(s).Some? && Eol(s).value > 0 && SizeOf(s[..Eol(s).value]) == Some(|p.data|) && s[Eol(s).value + 2..] == rest
  {
    LineIsRead(SizeLine(p), rest);
    SizeIsRead(p.digits, p.ext, |p.data|);
  }

  lemma DataIsRead(data: Bytes, rest: Bytes)
    requires data != []
    ensures var s, later := data + CRLF + rest, Decode(rest, 0);
      Decode(s, |data|) == Decoding(data + later.payload, later.end)
  {
    var s := data + CRLF + rest;
    assert s[..|data|] == data && s[|data| + 2..] == rest;
  }

  /** Decoding undoes encoding and stops exactly where the body ends. */
  lemma {:induction false} DecodeInvertsEncode(b: Body, tail: Bytes)
    requires GoodBody(b)
    ensures Decode(Encode(b, tail), 0) == Decoding(Payload(b.parts), Ok(tail))
    decreases |b.parts|
  {
    if b.parts == [] {
      TrailersAreSkipped(b.trailers, tail);
      PartIsOpened(b.last, EncodeTrailers(b.trailers, tail));
    } else {
      var rest := b.(parts := b.parts[1..]);
      DecodeInvertsEncode(rest, tail);
      PartIsOpened(b.parts[0], b.parts[0].data + CRLF + Encode(rest, tail));
      DataIsRead(b.parts[0].data, Encode(rest, tail));
    }
  }

  // ----- on the wire

  /** An ASCII text as it is sent. */
  function Wire(s: string): Bytes
    requires forall i :: 0 <= i < |s| ==> s[i] as nat < 128
  {
    seq(|s|, i requires 0 <= i < |s| => s[i] as nat)
  }

  /** One chunk with an extension, the last chunk, no trailers: letter by letter. */
  lemma OneChunkIsDecoded(s: Bytes, data: Bytes)
    requires s == Wire("A;x=1\r\n0123456789\r\n0\r\n\r\n") && data == Wire("0123456789")
    ensures Decode(s, 0) == Decoding(data, Ok([]))
  {
    var part, last := Part(Wire("A"), Wire(";x=1"), data), Part(Wire("0"), [], []);
    PlainSizeLines(part, last);
    EncodedByLetter(part, last);
    OnePartIsDecoded(part, last);
  }

  lemma OnePartIsDecoded(part: Part, last: Part)
    requires GoodPart(part) && part.data != [] && GoodPart(last) && last.data == []
    ensures Decode(Encode(Body([part], last, []), []), 0) == Decoding(part.data, Ok([]))
  {
    DecodeInvertsEncode(Body([part], last, []), []);
    assert Payload([part]) == part.data + Payload([part][1..]) == part.data;
  }

  lemma PlainSizeLines(part: Part, last: Part)
    requires part == Part(Wire("A"), Wire(";x=1"), Wire("0123456789")) && last == Part(Wire("0"), [], [])
    ensures GoodPart(part) && GoodPart(last)
  {
    assert Stands(part.digits[0], 10) && Spells(part.digits, 10);
    assert Stands(last.digits[0], 0) && Spells(last.digits, 0);
    assert part.ext[0] == SEMICOLON && IsExtension(part.ext);
    assert part.digits + part.ext == Wire("A;x=1");
    assert last.digits + last.ext == Wire("0");
  }

  lemma EncodedByLetter(part: Part, last: Part)
    requires part == Part(Wire("A"), Wire(";x=1"), Wire("0123456789")) && last == Part(Wire("0"), [], [])
    ensures Encode(Body([part], last, []), []) == Wire("A;x=1\r\n0123456789\r\n0\r\n\r\n")
  {
    var rest := Body([], last, []);
    assert Body([part], last, []).(parts := [part][1..]) == rest;
    EndByLetter(last);
    assert SizeLine(part) + CRLF == Wire("A;x=1\r\n");
    assert part.data + CRLF == Wire("0123456789\r\n");
    WireJoins("0123456789\r\n", "0\r\n\r\n");
    WireJoins("A;x=1\r\n", "0123456789\r\n" + "0\r\n\r\n");
    assert "A;x=1\r\n" + ("0123456789\r\n" + "0\r\n\r\n") == "A;x=1\r\n0123456789\r\n0\r\n\r\n";
  }

  lemma WireJoins(a: string, b: string)
    requires (forall i :: 0 <= i < |a| ==> a[i] as nat < 128) && (forall i :: 0 <= i < |b| ==> b[i] as nat < 128)
    ensures Wire(a + b) == Wire(a) + Wire(b)
  {
  }

  lemma EndByLetter(last: Part)
    requires last == Part(Wire("0"), [], [])
    ensures Encode(Body([], last, []), []) == Wire("0\r\n\r\n")
  {
    assert EncodeTrailers([], []) == [] + CRLF + [] == Wire("\r\n");
    assert SizeLine(last) + CRLF == Wire("0\r\n");
  }

  // ----- a body that breaks off

  lemma EolOfCut(s: Bytes, n: nat)
    requires n <= |s|
    ensures Eol(s[..n]) == if Eol(s).Some? && Eol(s).value + 2 <= n then Eol(s) else None
  {
    assert forall k: nat | k < n :: BreakAt(s[..n], k) <==> BreakAt(s, k) && k + 2 <= n;
    var k := Eol(s);
    if k.Some? && k.value + 2 <= n { EolIs(s[..n], k.value); }
  }

  lemma {:induction false} TrailersOfCut(s: Bytes, n: nat)
    requires n <= |s| && AfterTrailers(s).Some? && n + |AfterTrailers(s).value| < |s|
    ensures AfterTrailers(s[..n]).None?
    decreases |s|
  {
    EolOfCut(s, n);
    var k := Eol(s).value;
    if k == 0 || n < k + 2 {
    } else {
      TrailersOfCut(s[k + 2..], n - (k + 2));
      assert s[..n][k + 2..] == s[k + 2..][..n - (k + 2)];
    }
  }

  lemma OpenOfCut(s: Bytes, n: nat)
    requires n <= |s|
    ensures Open(s).Chunk? && Open(s[..n]).Chunk? ==>
      var rest := Open(s).rest;
      var m := n - (|s| - |rest|);
      Open(s[..n]).size == Open(s).size && 0 <= m <= |rest| && Open(s[..n]).rest == rest[..m]
    ensures Open(s).Chunk? ==> Open(s[..n]).Chunk? || Open(s[..n]).Bad?
    ensures Open(s).Last? && n + |Open(s).tail| < |s| ==> Open(s[..n]).Bad?
  {
    EolOfCut(s, n);
    if Eol(s).Some? && Eol(s).value + 2 <= n {
      var k := Eol(s).value;
      assert s[..n][..k] == s[..k] && s[..n][k + 2..] == s[k + 2..][..n - (k + 2)];
      if Open(s).Last? && n + |Open(s).tail| < |s| { TrailersOfCut(s[k + 2..], n - (k + 2)); }
    }
  }

  /** What is decoded of the first `n` bytes is a broken-off start. */
  predicate Noticed(s: Bytes, left: int, n: nat)
    requires n <= |s|
  {
    var cut, whole := Decode(s[..n], left), Decode(s, left);
    cut.end.Err? && |cut.payload| <= |whole.payload| && cut.payload == whole.payload[..|cut.payload|]
  }

  lemma CutInData(s: Bytes, left: nat, n: nat)
    requires 0 < left && left + 2 <= |s| && n < left + 2
    ensures Noticed(s, left, n)
  {
    var k := Min(n, left - 1);
    assert Decode(s[..n], left).payload == s[..n][..k] == s[..k];
    assert Decode(s, left).payload[..k] == s[..left][..k] == s[..k];
  }

  lemma CutAfterData(s: Bytes, left: nat, n: nat)
    requires 0 < left && left + 2 <= n <= |s| && Noticed(s[left + 2..], 0, n - (left + 2))
    ensures Noticed(s, left, n)
  {
    var m := n - (left + 2);
    DataFirst(s, left);
    DataFirst(s[..n], left);
    assert s[..n][left + 2..] == s[left + 2..][..m] && s[..n][..left] == s[..left];
    StartOfLater(s[..left], Decode(s[left + 2..][..m], 0).payload, Decode(s[left + 2..], 0).payload);
  }

  lemma DataFirst(s: Bytes, left: nat)
    requires 0 < left && left + 2 <= |s|
    ensures var later := Decode(s[left + 2..], 0);
      Decode(s, left) == Decoding(s[..left] + later.payload, later.end)
  {
  }

  lemma StartOfLater(first: Bytes, cut: Bytes, whole: Bytes)
    requires |cut| <= |whole| && cut == whole[..|cut|]
    ensures |first + cut| <= |first + whole| && first + cut == (first + whole)[..|first + cut|]
  {
  }

  lemma CutAtOpening(s: Bytes, n: nat)
    requires n <= |s| && ((Open(s).Last? && n + |Open(s).tail| < |s|) || (Open(s).Chunk? && Open(s[..n]).Bad?))
    ensures Noticed(s, 0, n)
  {
    OpenOfCut(s, n);
    assert Decode(s[..n], 0).payload == [];
  }

  /** A body that breaks off before its end is never taken for a whole one, and what is
      read of it is a start of what the whole would have given. */
  lemma {:induction false} CutIsNoticed(s: Bytes, left: int, n: nat)
    requires n <= |s| && Decode(s, left).end.Ok? && n + |Decode(s, left).end.value| < |s|
    ensures Noticed(s, left, n)
    decreases |s|, if left == 0 then 1 else 0
  {
    OpenOfCut(s, n);
    if left > 0 && n < left + 2 {
      CutInData(s, left, n);
    } else if left > 0 {
      CutIsNoticed(s[left + 2..], 0, n - (left + 2));
      CutAfterData(s, left, n);
    } else if Open(s).Last? || Open(s[..n]).Bad? {
      CutAtOpening(s, n);
    } else {
      CutIsNoticed(Open(s).rest, Open(s).size, n - (|s| - |Open(s).rest|));
    }
  }
}
