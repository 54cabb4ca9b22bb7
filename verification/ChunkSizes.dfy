/**
 The size line of a chunk: what Python's `int(line.split(b";")[0].strip(), 16)` reads, as
 `_ChunkedStreamWrapper` of xandikos/webdav.py uses it, against what section 7.1 of
 RFC 9112 lets a sender write.
 */
module ChunkSizes {
  import opened Wrappers
  import opened Octets

  const SEMICOLON: Octet := 59
  const UNDERSCORE: Octet := 95
  const PLUS: Octet := 43
  const MINUS: Octet := 45
  const ZERO: Octet := 48
  const LOWER_X: Octet := 120
  const UPPER_X: Octet := 88

  /** ASCII white space, as `bytes.strip` takes it off. */
  predicate IsSpace(b: Octet) { b == 32 || 9 <= b <= 13 }

  function StripLeft(s: Bytes): Bytes { if s != [] && IsSpace(s[0]) then StripLeft(s[1..]) else s }

  function StripRight(s: Bytes): Bytes {
    if s != [] && IsSpace(s[|s| - 1]) then StripRight(s[..|s| - 1]) else s
  }

  function DigitValue(b: Octet): Option<nat> {
    if 48 <= b <= 57 then Some(b - 48)
    else if 65 <= b <= 70 then Some(b - 55)
    else if 97 <= b <= 102 then Some(b - 87)
    else None
  }

  /** Digits, with single underscores allowed between them. */
  function ParseDigits(s: Bytes): Option<nat> {
    if s == [] then None
    else
      var n := |s| - 1;
      var last := DigitValue(s[n]);
      if last.None? || n == 0 then last
      else
        var high := ParseDigits(if n >= 2 && s[n - 1] == UNDERSCORE then s[..n - 1] else s[..n]);
        if high.None? then None else Some(16 * high.value + last.value)
  }

  /** `int(s, 16)`: an optional sign, an optional `0x`, digits. */
  function ParseHex(s: Bytes): Option<int> {
    var signed := s != [] && (s[0] == PLUS || s[0] == MINUS);
    var u := if signed then s[1..] else s;
    var prefixed := |u| >= 2 && u[0] == ZERO && (u[1] == LOWER_X || u[1] == UPPER_X);
    var v := if !prefixed then u else if |u| >= 3 && u[2] == UNDERSCORE then u[3..] else u[2..];
    var n := ParseDigits(v);
    if n.None? then None else
      var size: int := n.value;
      Some(if s[0] == MINUS then -size else size)
  }

  function SizeOf(line: Bytes): Option<int> { ParseHex(StripRight(StripLeft(Before(line, SEMICOLON)))) }

  // ----- what a sender writes

  const LOWER := "0123456789abcdef"
  const UPPER := "0123456789ABCDEF"

  /** The byte is the digit `d`, in either case. */
  predicate Stands(b: Octet, d: nat) { d < 16 && (b == LOWER[d] as nat || b == UPPER[d] as nat) }

  /** The digits spell `n` in base 16, each in either case, with any zeros before them. */
  predicate Spells(s: Bytes, n: nat) {
    && s != [] && Stands(s[|s| - 1], n % 16)
    && if |s| == 1 then n < 16 else Spells(s[..|s| - 1], n / 16)
  }

  /** A chunk extension: white space, then a semicolon and what follows it; or nothing. */
  predicate IsExtension(ext: Bytes) {
    ext == [] ||
    exists k | 0 <= k < |ext| :: ext[k] == SEMICOLON && forall j :: 0 <= j < k ==> ext[j] == 32 || ext[j] == 9
  }

  predicate IsSizeLine(digits: Bytes, ext: Bytes, size: nat) {
    Spells(digits, size) && IsExtension(ext) && NoBreak(digits + ext)
  }

  /** The digits of `n`, with the case of each as it is chosen. */
  function HexOf(n: nat, upper: nat -> bool): Bytes {
    var table := if upper(n) then UPPER else LOWER;
    (if n < 16 then [] else HexOf(n / 16, upper)) + [AsOctet(table, n % 16)]
  }

  function AsOctet(table: string, d: nat): (b: Octet)
    requires d < 16 && (table == LOWER || table == UPPER)
    ensures b == table[d] as nat
  {
    StandsForDigit(d);
    table[d] as nat
  }

  lemma StandsForDigit(d: nat)
    requires d < 16
    ensures LOWER[d] as nat < 256 && UPPER[d] as nat < 256
    ensures forall b: Octet :: Stands(b, d) ==> DigitValue(b) == Some(d)
  {
    if d < 8 {
      assert d == 0 || d == 1 || d == 2 || d == 3 || d == 4 || d == 5 || d == 6 || d == 7;
    } else {
      assert d == 8 || d == 9 || d == 10 || d == 11 || d == 12 || d == 13 || d == 14 || d == 15;
    }
  }

  /** Every size can be written, each digit in either case. */
  lemma {:induction false} HexOfSpells(n: nat, upper: nat -> bool)
    ensures Spells(HexOf(n, upper), n)
  {
    if n < 16 {
      assert |HexOf(n, upper)| == 1;
    } else {
      HexOfSpells(n / 16, upper);
      var s := HexOf(n, upper);
      assert s[..|s| - 1] == HexOf(n / 16, upper) && s[..|s| - 1] != [];
    }
  }

  predicate IsHex(s: Bytes) { s != [] && forall i :: 0 <= i < |s| ==> DigitValue(s[i]).Some? }

  /** Digits that spell a number are read as it. */
  lemma {:induction false} DigitsAreRead(s: Bytes, n: nat)
    requires Spells(s, n)
    ensures IsHex(s) && ParseDigits(s) == Some(n)
  {
    var k := |s| - 1;
    StandsForDigit(n % 16);
    if k == 0 {
    } else {
      DigitsAreRead(s[..k], n / 16);
      assert forall i :: 0 <= i < k ==> s[i] == s[..k][i];
      assert DigitValue(s[k - 1]).Some? && s[k - 1] != UNDERSCORE;
    }
  }

  lemma HexHasNoBreak(s: Bytes)
    requires IsHex(s)
    ensures NoBreak(s)
  {
    assert forall i :: 0 <= i < |s| ==> DigitValue(s[i]).Some?;
  }

  /** And what is written so is read, through the whole of the size line. */
  lemma HexOfIsRead(n: nat, upper: nat -> bool)
    ensures IsSizeLine(HexOf(n, upper), [], n) && SizeOf(HexOf(n, upper)) == Some(n)
  {
    var s := HexOf(n, upper);
    HexOfSpells(n, upper);
    DigitsAreRead(s, n);
    HexHasNoBreak(s);
    assert s + [] == s;
    SizeIsRead(s, [], n);
  }

  lemma {:induction false} PaddingIsStripped(s: Bytes, k: nat)
    requires 0 < k <= |s| && !IsSpace(s[k - 1]) && forall j :: k <= j < |s| ==> IsSpace(s[j])
    ensures StripRight(s) == s[..k]
  {
    if k < |s| {
      PaddingIsStripped(s[..|s| - 1], k);
      assert s[..|s| - 1][..k] == s[..k];
    } else {
      assert s[..k] == s;
    }
  }

  /** Digits and the padding after them, up to the semicolon, strip to the digits. */
  lemma SizeIsStripped(digits: Bytes, pad: Bytes)
    requires IsHex(digits) && forall j :: 0 <= j < |pad| ==> IsSpace(pad[j])
    ensures StripRight(StripLeft(digits + pad)) == digits
  {
    var s, n := digits + pad, |digits|;
    assert s[0] == digits[0] && s[n - 1] == digits[n - 1];
    assert !IsSpace(s[0]) && !IsSpace(s[n - 1]);
    PaddingIsStripped(s, n);
    assert s[..n] == digits;
  }

  lemma HexIsRead(digits: Bytes, n: nat)
    requires Spells(digits, n)
    ensures ParseHex(digits) == Some(n)
  {
    DigitsAreRead(digits, n);
    assert |digits| >= 2 ==> DigitValue(digits[1]).Some?;
  }

  /** Whatever size line a sender writes, its size is read. */
  lemma SizeIsRead(digits: Bytes, ext: Bytes, size: nat)
    requires IsSizeLine(digits, ext, size)
    ensures SizeOf(digits + ext) == Some(size)
  {
    var line, n := digits + ext, |digits|;
    var k := if ext == [] then 0 else FirstSemicolon(ext);
    DigitsAreRead(digits, size);
    BeforeExtension(digits, ext, k);
    SizeIsStripped(digits, ext[..k]);
    HexIsRead(digits, size);
  }

  lemma BeforeExtension(digits: Bytes, ext: Bytes, k: nat)
    requires IsHex(digits) && k <= |ext| && (k < |ext| ==> ext[k] == SEMICOLON) && (k == |ext| ==> ext == [])
    requires forall j :: 0 <= j < k ==> ext[j] != SEMICOLON
    ensures Before(digits + ext, SEMICOLON) == digits + ext[..k]
  {
    var line, n := digits + ext, |digits|;
    assert forall j :: 0 <= j < n ==> line[j] == digits[j];
    assert forall j :: 0 <= j < n ==> DigitValue(digits[j]).Some?;
    assert forall j :: n <= j < |line| ==> line[j] == ext[j - n];
    BeforeIs(line, n + k, SEMICOLON);
    assert line[..n + k] == digits + ext[..k];
  }

  function FirstSemicolon(ext: Bytes): (k: nat)
    requires ext != [] && IsExtension(ext)
    ensures k < |ext| && ext[k] == SEMICOLON && forall j :: 0 <= j < k ==> ext[j] == 32 || ext[j] == 9
  {
    if ext[0] == SEMICOLON then 0
    else
      assert IsExtension(ext[1..]) && ext[1..] != [] by {
        var k :| 0 <= k < |ext| && ext[k] == SEMICOLON && forall j :: 0 <= j < k ==> ext[j] == 32 || ext[j] == 9;
        assert ext[1..][k - 1] == SEMICOLON && forall j :: 0 <= j < k - 1 ==> ext[1..][j] == 32 || ext[1..][j] == 9;
      }
      FirstSemicolon(ext[1..]) + 1
  }

  // ----- what else is taken for a size

  /** White space: blanks, tabs, line feeds, vertical tabs, form feeds and carriage returns. */
  predicate IsWhite(s: Bytes) { forall i :: 0 <= i < |s| ==> s[i] in [32, 9, 10, 11, 12, 13] }

  /** White space on either side is passed over. */
  lemma PaddedIsRead(before: Bytes, digits: Bytes, after: Bytes, n: nat)
    requires IsWhite(before) && Spells(digits, n) && IsWhite(after)
    ensures SizeOf(before + (digits + after)) == Some(n)
  {
    var line := before + (digits + after);
    DigitsAreRead(digits, n);
    forall j | 0 <= j < |line| ensures line[j] != SEMICOLON {
      assert j < |before| ==> line[j] == before[j];
      assert |before| <= j < |before| + |digits| ==> DigitValue(digits[j - |before|]).Some?;
    }
    BeforeIs(line, |line|, SEMICOLON);
    assert line[..|line|] == line;
    LeftIsStripped(before, digits + after);
    SizeIsStripped(digits, after);
    HexIsRead(digits, n);
  }

  lemma {:induction false} LeftIsStripped(before: Bytes, rest: Bytes)
    requires IsWhite(before)
    ensures StripLeft(before + rest) == StripLeft(rest)
  {
    if before == [] {
      assert before + rest == rest;
    } else {
      LeftIsStripped(before[1..], rest);
      assert (before + rest)[1..] == before[1..] + rest;
    }
  }

  /** Inside or instead of digits it is not, nor is anything but digits, signs and
      underscores: a line that ends in another letter is no size. */
  lemma OtherEndIsRefused(line: Bytes, b: Octet)
    requires forall j :: 0 <= j < |line| ==> line[j] != ';' as Octet
    requires !IsWhite([b]) && b != ';' as Octet && forall d | 0 <= d < 16 :: !Stands(b, d)
    ensures SizeOf(line + [b]).None?
  {
    var s := line + [b];
    BeforeIs(s, |s|, SEMICOLON);
    assert s[..|s|] == s;
    NoDigit(b);
    LastStays(s);
    EndDecides(StripLeft(s));
  }

  lemma EndDecides(s: Bytes)
    requires s != [] && DigitValue(s[|s| - 1]).None?
    ensures ParseHex(s).None?
  {
    assert forall k :: 0 <= k < |s| ==> s[k..] != [] && s[k..][|s[k..]| - 1] == s[|s| - 1];
  }

  lemma NoDigit(b: Octet)
    requires forall d | 0 <= d < 16 :: !Stands(b, d)
    ensures DigitValue(b).None?
  {
    if DigitValue(b).Some? {
      var d := DigitValue(b).value;
      if b <= 57 { StandsForDigit(d); }
      assert Stands(b, d);
    }
  }

  lemma {:induction false} LastStays(s: Bytes)
    requires s != [] && !IsSpace(s[|s| - 1])
    ensures StripLeft(s) != [] && StripLeft(s)[|StripLeft(s)| - 1] == s[|s| - 1]
  {
    if IsSpace(s[0]) {
      LastStays(s[1..]);
    }
  }

  /** A prefix `0x` is passed over. */
  lemma PrefixIsRead(digits: Bytes, n: nat)
    requires Spells(digits, n)
    ensures ParseHex(['0' as Octet, 'x' as Octet] + digits) == Some(n)
    ensures ParseHex(['0' as Octet, 'X' as Octet] + digits) == Some(n)
  {
    DigitsAreRead(digits, n);
    assert (['0' as Octet, 'x' as Octet] + digits)[2..] == digits;
    assert (['0' as Octet, 'X' as Octet] + digits)[2..] == digits;
    assert DigitValue(digits[0]).Some?;
  }

  /** A sign is taken for one, so that a size can be negative. */
  lemma SignIsRead(digits: Bytes, n: nat)
    requires Spells(digits, n)
    ensures ParseHex(['+' as Octet] + digits) == Some(n)
    ensures ParseHex(['-' as Octet] + digits).Some? && ParseHex(['-' as Octet] + digits).value + n == 0
  {
    DigitsAreRead(digits, n);
    assert (['-' as Octet] + digits)[1..] == digits && (['+' as Octet] + digits)[1..] == digits;
    assert |digits| >= 2 ==> DigitValue(digits[1]).Some?;
  }

  /** A single underscore between digits is passed over. */
  lemma UnderscoreIsRead(high: Bytes, n: nat, low: Octet, d: nat)
    requires Spells(high, n) && Stands(low, d)
    ensures ParseDigits(high + ['_' as Octet] + [low]) == Some(16 * n + d)
  {
    DigitsAreRead(high, n);
    StandsForDigit(d);
    var s := high + ['_' as Octet] + [low];
    assert s[..|s| - 2] == high && s[|s| - 2] == UNDERSCORE;
  }
}
