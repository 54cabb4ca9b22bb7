/**
 The streaming decoder of chunked bodies (`_ChunkedStreamWrapper` and `_readBody` in
 xandikos/webdav.py).
 */
module ChunkedReaders {
  import opened Wrappers
  import opened Octets
  import opened ChunkSizes
  import opened ChunkedBodies

  // ----- what one read gives, as a function of what is to come

  /** Some chunk or the end of the body can be got at. */
  predicate Opens(s: Bytes, left: int) {
    left > 0 || (left == 0 && (Open(s).Last? || (Open(s).Chunk? && Open(s).size > 0)))
  }

  /** The stream can satisfy a read of that size; None asks for everything. */
  predicate Readable(s: Bytes, left: int, size: Option<nat>) {
    var d := Decode(s, left);
    d.end.Ok? || (size.Some? && if size.value == 0 then Opens(s, left) else size.value <= |d.payload|)
  }

  function Taken(d: Decoding, size: Option<nat>): Bytes {
    if size.None? then d.payload else d.payload[..Min(size.value, |d.payload|)]
  }

  /** `d` after its first `n` bytes of payload. */
  function Past(d: Decoding, n: nat): Decoding
    requires n <= |d.payload|
  {
    Decoding(d.payload[n..], d.end)
  }

  /** Reading less than a chunk leaves the rest of it. */
  lemma PartOfChunk(s: Bytes, left: nat, n: nat)
    requires n < left && n <= |s|
    ensures |Decode(s, left).payload| >= n && Decode(s, left).payload[..n] == s[..n]
    ensures Decode(s[n..], left - n) == Past(Decode(s, left), n)
  {
    if |s| < left + 2 {
      assert s[..Min(|s|, left - 1)][n..] == s[n..][..Min(|s| - n, left - n - 1)];
      assert s[..Min(|s|, left - 1)][..n] == s[..n];
    } else {
      assert s[n..][left - n + 2..] == s[left + 2..];
      assert s[..left][n..] == s[n..][..left - n];
      var later := Decode(s[left + 2..], 0).payload;
      assert (s[..left] + later)[n..] == s[n..][..left - n] + later;
      assert (s[..left] + later)[..n] == s[..n];
    }
  }

  lemma WholeChunk(s: Bytes, left: nat)
    requires 0 < left && left + 2 <= |s|
    ensures |Decode(s, left).payload| >= left && Decode(s, left).payload[..left] == s[..left]
    ensures Decode(s[left + 2..], 0) == Past(Decode(s, left), left)
  {
  }

  /** Of `d`, `given` has been given out and `rest` is to come. */
  predicate Owed(d: Decoding, given: Bytes, rest: Decoding) {
    d.payload == given + rest.payload && d.end == rest.end
  }

  lemma StillOwed(d: Decoding, given: Bytes, rest: Decoding, n: nat)
    requires Owed(d, given, rest) && n <= |rest.payload|
    ensures Owed(d, given + rest.payload[..n], Past(rest, n))
  {
    assert rest.payload == rest.payload[..n] + rest.payload[n..];
  }

  lemma OwedIsPast(d: Decoding, given: Bytes, rest: Decoding)
    requires Owed(d, given, rest)
    ensures |given| <= |d.payload| && given == d.payload[..|given|] && rest == Past(d, |given|)
  {
  }

  lemma LastTwo(s: Bytes, n: nat)
    requires 2 <= n <= |s|
    ensures s[..n][n - 2..] == CRLF <==> BreakAt(s, n - 2)
    ensures s[..n][..n - 2] == s[..n - 2]
  {
    assert s[..n][n - 2..] == [s[n - 2], s[n - 1]];
  }

  /** The first `n` bytes end in a line break just when there is one in their last two. */
  lemma EndOfLine(s: Bytes, n: nat)
    requires 2 <= n <= |s| && NoBreakBefore(s, n - 2)
    ensures if s[..n][n - 2..] == CRLF then Eol(s) == Some(n - 2) else NoBreakBefore(s, n - 1)
  {
    LastTwo(s, n);
    if BreakAt(s, n - 2) { EolIs(s, n - 2); }
  }

  class ChunkedReader {
    var stream: Bytes
    var finished: bool
    var left: int

    constructor (s: Bytes)
      ensures stream == s && Coming() == Decode(s, 0)
    {
      stream, finished, left := s, false, 0;
    }

    /** What reads from now on give. */
    function Coming(): Decoding
      reads this
    {
      if finished then Decoding([], Ok(stream)) else Decode(stream, left)
    }

    /** `_read_exact`. */
    method ReadExact(n: int) returns (r: Result<Bytes, Fault>)
      modifies this`stream
      ensures if 0 <= n <= |old(stream)|
        then r == Ok(old(stream)[..n]) && stream == old(stream)[n..]
        else r == Err(ShortRead) && stream == []
    {
      if n < 0 || |stream| < n {
        stream := [];
        return Err(ShortRead);
      }
      r := Ok(stream[..n]);
      stream := stream[n..];
    }

    /** `_read_line`. */
    method ReadLine() returns (r: Result<Bytes, Fault>)
      modifies this`stream
      ensures match Eol(old(stream))
        case None => r == Err(EndOfStream) && stream == []
        case Some(k) => r == Ok(old(stream)[..k]) && stream == old(stream)[k + 2..]
    {
      var line: Bytes := [];
      ghost var s := stream;
      while true
        invariant |line| <= |s| && line == s[..|line|] && stream == s[|line|..]
        invariant NoBreakBefore(s, if |line| == 0 then 0 else |line| - 1)
        decreases |stream|
      {
        if stream == [] { return Err(EndOfStream); }
        line := line + [stream[0]];
        stream := stream[1..];
        assert line == s[..|line|];
        if |line| >= 2 { EndOfLine(s, |line|); }
        if |line| >= 2 && line[|line| - 2..] == CRLF {
          LastTwo(s, |line|);
          return Ok(line[..|line| - 2]);
        }
      }
    }

    /** The head of `read`'s loop: the next chunk, or the end of the body with its trailers. */
    method NextChunk() returns (r: Option<Fault>)
      requires !finished && left == 0
      modifies this
      ensures match Open(old(stream))
        case Bad(fault) => r == Some(fault)
        case Last(tail) => r == None && finished && stream == tail
        case Chunk(size, rest) => r == None && !finished && left == size && stream == rest
    {
      var line := ReadLine();
      if line.Err? { return Some(line.error); }
      if line.value == [] { return Some(EmptySizeLine); }
      var size := SizeOf(line.value);
      if size.None? { return Some(BadSize); }
      if size.value == 0 {
        r := SkipTrailers();
        finished := r.None?;
        return;
      }
      left := size.value;
      return None;
    }

    method SkipTrailers() returns (r: Option<Fault>)
      modifies this`stream
      ensures match AfterTrailers(old(stream))
        case None => r == Some(EndOfStream)
        case Some(tail) => r == None && stream == tail
    {
      while true
        invariant AfterTrailers(stream) == AfterTrailers(old(stream))
        decreases |stream|
      {
        var line := ReadLine();
        if line.Err? { return Some(line.error); }
        if line.value == [] { return None; }
      }
    }

    /** The body of `read`'s loop: `n` bytes of the current chunk, with its line break if
        they are its last. */
    method ReadData(n: int) returns (r: Result<Bytes, Fault>)
      requires !finished && left != 0 && n <= left && (left > 0 ==> n >= 0)
      modifies this`stream, this`left
      ensures var d := old(Decode(stream, left)); match r
        case Err(fault) => d.end == Err(fault) && (n < 0 || |d.payload| < n)
        case Ok(data) => 0 <= n <= |d.payload| && data == d.payload[..n] && Decode(stream, left) == Past(d, n)
      ensures r.Ok? && n > 0 ==> |stream| < |old(stream)|
    {
      ghost var s, l := stream, left;
      r := ReadExact(n);
      if r.Err? { return; }
      left := left - n;
      if left != 0 {
        PartOfChunk(s, l, n);
        return;
      }
      var skipped := ReadExact(2);
      if skipped.Err? { return skipped; }
      WholeChunk(s, l);
    }

    /** One turn of `read`'s loop, with so much wanted still. */
    method Advance(wanted: Option<nat>) returns (r: Result<Bytes, Fault>)
      requires !finished
      modifies this
      ensures var d := old(Decode(stream, left)); match r
        case Err(fault) => d.end == Err(fault) && !Readable(old(stream), old(left), wanted)
        case Ok(data) =>
          && |data| <= |d.payload| && data == d.payload[..|data|] && Coming() == Past(d, |data|)
          && (wanted.Some? ==> |data| <= wanted.value)
          && (finished || wanted == Some(|data|) || |stream| < |old(stream)|)
          && (wanted == Some(0) && !finished ==> Opens(old(stream), old(left)))
          && (finished ==> d.end.Ok? && |data| == |d.payload|)
    {
      if left == 0 {
        var fault := NextChunk();
        if fault.Some? { return Err(fault.value); }
        if finished { return Ok([]); }
      }
      var toRead := if wanted.None? then left else Min(wanted.value, left);
      r := ReadData(toRead);
    }

    /** `read`: as much as was asked for, or all there is; what is not given out now is to
        come later, and the stream is left where the body ends. */
    method Read(size: Option<nat>) returns (r: Result<Bytes, Fault>)
      modifies this
      ensures r.Ok? <==> old(finished) || Readable(old(stream), old(left), size)
      ensures match r
        case Err(fault) => old(Coming()).end == Err(fault)
        case Ok(data) => data == Taken(old(Coming()), size) && Coming() == Past(old(Coming()), |data|)
      ensures old(finished) || (r.Ok? && (size.None? || |r.value| < size.value)) ==> finished
    {
      if finished { return Ok([]); }
      var result: Bytes := [];
      ghost var d := Decode(stream, left);
      while true
        invariant !finished && Owed(d, result, Decode(stream, left))
        invariant size.Some? ==> |result| < size.value || (result == [] && size.value == 0)
        invariant size == Some(0) ==> stream == old(stream) && left == old(left)
        decreases |stream|
      {
        ghost var before := Decode(stream, left);
        var data := Advance(if size.None? then None else Some(size.value - |result|));
        if data.Err? { return Err(data.error); }
        StillOwed(d, result, before, |data.value|);
        result := result + data.value;
        if finished || (size.Some? && |result| >= size.value) {
          OwedIsPast(d, result, Coming());
          return Ok(result);
        }
      }
    }
  }

  // ----- whole bodies

  /** What reads of these sizes give of a payload. */
  function Cut(p: Bytes, sizes: seq<nat>): seq<Bytes> {
    if sizes == [] then []
    else
      var n := Min(sizes[0], |p|);
      [p[..n]] + Cut(p[n..], sizes[1..])
  }

  function Total(sizes: seq<nat>): nat { if sizes == [] then 0 else sizes[0] + Total(sizes[1..]) }

  /** The pieces make up the payload, as far as the sizes go. */
  lemma {:induction false} CutIsPayload(p: Bytes, sizes: seq<nat>)
    ensures Concat(Cut(p, sizes)) == p[..Min(Total(sizes), |p|)]
  {
    if sizes == [] {
    } else {
      var n := Min(sizes[0], |p|);
      CutIsPayload(p[n..], sizes[1..]);
      var m := Min(Total(sizes[1..]), |p| - n);
      assert p[..n] + p[n..][..m] == p[..n + m];
    }
  }

  /** However a good body is read, the reads give its payload piece by piece, and once one
      gives less than it might the whole body, and no more, has been taken off the stream. */
  method ReadEach(reader: ChunkedReader, sizes: seq<nat>) returns (pieces: seq<Bytes>)
    requires reader.Coming().end.Ok?
    modifies reader
    ensures pieces == Cut(old(reader.Coming()).payload, sizes)
    ensures reader.Coming().end == old(reader.Coming()).end
    ensures old(reader.finished) || Total(sizes) > |old(reader.Coming()).payload| ==>
      reader.finished && old(reader.Coming()).end == Ok(reader.stream)
  {
    if sizes == [] { return []; }
    var piece := reader.Read(Some(sizes[0]));
    var later := ReadEach(reader, sizes[1..]);
    return [piece.value] + later;
  }

  const BODY_READ: nat := 65536

  ghost predicate Pieces(chunks: seq<Bytes>) {
    forall i :: 0 <= i < |chunks| ==> 0 < |chunks[i]| <= 65536 && (i < |chunks| - 1 ==> |chunks[i]| == 65536)
  }

  /** `_readBody`: the whole payload in pieces as large as can be, unless the body is broken. */
  method ReadBody(reader: ChunkedReader) returns (r: Result<seq<Bytes>, Fault>)
    modifies reader
    ensures match r
      case Err(fault) => old(reader.Coming()).end == Err(fault)
      case Ok(chunks) =>
        && reader.finished && old(reader.Coming()) == Decoding(Concat(chunks), Ok(reader.stream))
        && Pieces(chunks)
  {
    var chunks: seq<Bytes> := [];
    ghost var d := reader.Coming();
    while true
      invariant Collected(d, chunks, reader.Coming(), reader.finished)
      decreases |reader.Coming().payload|
    {
      ghost var before := reader.Coming();
      var chunk := reader.Read(Some(BODY_READ));
      if chunk.Err? { return Err(chunk.error); }
      if chunk.value == [] {
        assert reader.Coming() == Decoding([], Ok(reader.stream));
        return Ok(chunks);
      }
      CollectedMore(d, chunks, before, chunk.value, reader.finished);
      chunks := chunks + [chunk.value];
    }
  }

  /** The chunks read of `d` so far, `rest` being to come. */
  ghost predicate Collected(d: Decoding, chunks: seq<Bytes>, rest: Decoding, finished: bool) {
    && Owed(d, Concat(chunks), rest) && Pieces(chunks)
    && (chunks != [] && |chunks[|chunks| - 1]| < BODY_READ ==> finished)
    && (finished ==> rest.payload == [])
  }

  lemma CollectedMore(d: Decoding, chunks: seq<Bytes>, rest: Decoding, chunk: Bytes, finished: bool)
    requires Collected(d, chunks, rest, false)
    requires chunk != [] && chunk == Taken(rest, Some(BODY_READ))
    requires (|chunk| < BODY_READ ==> finished) && (finished ==> |chunk| == |rest.payload|)
    ensures Collected(d, chunks + [chunk], Past(rest, |chunk|), finished)
  {
    StillOwed(d, Concat(chunks), rest, |chunk|);
    ConcatAppend(chunks, chunk);
  }
}
