/**
 Chunked transfer coding (section 4.1 of RFC 7230), one byte at a time.

 `Step` is the whole decoder reduced to a machine that reads a single byte; `Run` folds it
 over an input.  The laws of the coding are proved here about `Run`; the decoder itself, which
 moves whole runs of bytes inside the caller's buffer, is proved equal to `Run` in
 ChunkedDecoder.
 */
module ChunkedSpec {
  import opened Bytes

  datatype Phase = ChunkSize | ChunkExt | ChunkData | ChunkCrlf | TrailerHead | TrailerMiddle

  /** `left` bytes of the current chunk are still to come; `hex` counts the digits of its size read so far. */
  datatype Dec = Dec(left: nat, trailer: bool, hex: nat, phase: Phase)

  /** The decoder as its user must hand it in: zero-filled apart from the trailer flag. */
  function Fresh(trailer: bool): Dec {
    Dec(0, trailer, 0, ChunkSize)
  }

  datatype Verdict = Incomplete | Invalid | Complete

  /** What decoding an input gives: the data, how many bytes were read, and how it ended. */
  datatype Result = Result(dec: Dec, out: bytes, used: nat, verdict: Verdict)

  function DecodeHex(c: byte): int {
    if '0' <= c <= '9' then c as int - '0' as int
    else if 'A' <= c <= 'F' then c as int - 'A' as int + 10
    else if 'a' <= c <= 'f' then c as int - 'a' as int + 10
    else -1
  }

  // ----- The machine

  datatype Move = Next(dec: Dec, out: bytes) | Reject | Finish(dec: Dec)

  const MAX_DIGITS := 16

  function EndOfSizeLine(d: Dec): Move {
    if d.left != 0 then Next(d.(phase := ChunkData), [])
    else if d.trailer then Next(d.(phase := TrailerHead), [])
    else Finish(d)
  }

  function StepExt(d: Dec, c: byte): Move {
    if c == '\n' then EndOfSizeLine(d) else Next(d, [])
  }

  function Step(d: Dec, c: byte): Move
    requires d.phase == ChunkData ==> d.left > 0
  {
    match d.phase
    case ChunkSize =>
      if DecodeHex(c) != -1 then
        if d.hex == MAX_DIGITS then Reject
        else Next(d.(left := d.left * 16 + DecodeHex(c), hex := d.hex + 1), [])
      else if d.hex == 0 then Reject
      else StepExt(d.(hex := 0, phase := ChunkExt), c)
    case ChunkExt => StepExt(d, c)
    case ChunkData =>
      Next(d.(left := d.left - 1, phase := if d.left == 1 then ChunkCrlf else ChunkData), [c])
    case ChunkCrlf =>
      if c == '\r' then Next(d, [])
      else if c == '\n' then Next(d.(phase := ChunkSize), [])
      else Reject
    case TrailerHead =>
      if c == '\r' then Next(d, [])
      else if c == '\n' then Finish(d)
      else Next(d.(phase := TrailerMiddle), [])
    case TrailerMiddle =>
      if c == '\n' then Next(d.(phase := TrailerHead), []) else Next(d, [])
  }

  function Pow16(n: nat): nat {
    if n == 0 then 1 else 16 * Pow16(n - 1)
  }

  /** What every decoder started from `Fresh` keeps.  It bounds `left` below the width of a size_t. */
  ghost predicate Inv(d: Dec) {
    && d.hex <= MAX_DIGITS
    && d.left < SIZE_T
    && (d.phase == ChunkSize ==> d.left < Pow16(d.hex))
    && (d.phase != ChunkSize ==> d.hex == 0)
    && (d.phase == ChunkData ==> d.left > 0)
    && (d.phase in {ChunkCrlf, TrailerHead, TrailerMiddle} ==> d.left == 0)
  }

  const SIZE_T := 0x1_0000_0000_0000_0000

  lemma SizeNeverOverflows(d: Dec, v: nat)
    requires Inv(d) && d.phase == ChunkSize && d.hex < MAX_DIGITS && v < 16
    ensures d.left * 16 + v < Pow16(d.hex + 1) <= SIZE_T
    ensures (d.left * 16 + v) % SIZE_T == d.left * 16 + v
  {
    assert Pow16(4) == 0x1_0000;
    assert Pow16(8) == 0x1_0000_0000;
    assert Pow16(12) == 0x1_0000_0000_0000;
    assert Pow16(MAX_DIGITS) == SIZE_T;
    Pow16Monotone(d.hex + 1, MAX_DIGITS);
  }

  lemma Pow16Monotone(m: nat, n: nat)
    requires m <= n
    ensures 0 < Pow16(m) <= Pow16(n)
  {
    if m < n { Pow16Monotone(m, n - 1); }
  }

  lemma StepKeepsInv(d: Dec, c: byte)
    requires Inv(d)
    ensures Step(d, c).Next? ==> Inv(Step(d, c).dec)
    ensures Step(d, c).Finish? ==> Inv(Step(d, c).dec)
  {
    if d.phase == ChunkSize && DecodeHex(c) != -1 && d.hex < MAX_DIGITS {
      SizeNeverOverflows(d, DecodeHex(c));
    }
  }

  /** Decodes s from state d. */
  function Run(d: Dec, s: bytes): (r: Result)
    requires Inv(d)
    ensures Inv(r.dec) && |r.out| <= r.used <= |s|
    ensures r.verdict == Incomplete ==> r.used == |s|
    ensures r.verdict == Invalid ==> r.used < |s|
    decreases s
  {
    if s == [] then Result(d, [], 0, Incomplete)
    else
      StepKeepsInv(d, s[0]);
      match Step(d, s[0])
      case Reject => Result(d, [], 0, Invalid)
      case Finish(d') => Result(d', [], 1, Complete)
      case Next(d', out) => After(out, 1, Run(d', s[1..]))
  }

  /** The result r, preceded by n bytes of input that gave `out`. */
  function After(out: bytes, n: nat, r: Result): Result {
    r.(out := if out == [] then r.out else out + r.out, used := n + r.used)
  }

  lemma AfterAfter(x: bytes, m: nat, y: bytes, n: nat, r: Result)
    ensures After(x, m, After(y, n, r)) == After(x + y, m + n, r)
  {
    assert x + (y + r.out) == (x + y) + r.out;
    assert [] + y == y && x + [] == x;
  }

  // ----- Splitting the stream

  /** Calling the decoder on each piece as it arrives, until it no longer asks for more. */
  function Feed(d: Dec, parts: seq<bytes>): (r: Result)
    requires Inv(d)
    ensures Inv(r.dec)
    decreases parts
  {
    if parts == [] then Result(d, [], 0, Incomplete)
    else
      var r := Run(d, parts[0]);
      if r.verdict == Incomplete then After(r.out, r.used, Feed(r.dec, parts[1..])) else r
  }

  lemma {:induction false} RunAppend(d: Dec, a: bytes, b: bytes)
    requires Inv(d)
    ensures var r := Run(d, a);
            Run(d, a + b) == if r.verdict == Incomplete then After(r.out, r.used, Run(r.dec, b)) else r
    decreases a
  {
    if a == [] {
      assert a + b == b;
    } else {
      assert (a + b)[1..] == a[1..] + b;
      StepKeepsInv(d, a[0]);
      match Step(d, a[0])
      case Next(d', out) =>
        RunAppend(d', a[1..], b);
        var r := Run(d', a[1..]);
        AfterAfter(out, 1, r.out, r.used, Run(r.dec, b));
      case _ =>
    }
  }

  /** However the network cuts the stream, the data, the end and the verdict are the same. */
  lemma {:induction false} SplitInvariance(d: Dec, parts: seq<bytes>)
    requires Inv(d)
    ensures Feed(d, parts) == Run(d, Flatten(parts))
    decreases parts
  {
    if parts != [] {
      RunAppend(d, parts[0], Flatten(parts[1..]));
      var r := Run(d, parts[0]);
      if r.verdict == Incomplete {
        SplitInvariance(r.dec, parts[1..]);
      }
    }
  }

  // ----- Encoding and decoding

  /** A digit's value is its place among the digits of its case. */
  lemma DigitValue(v: nat)
    requires v < 16
    ensures DecodeHex(LOWER_DIGITS[v]) == v && DecodeHex(UPPER_DIGITS[v]) == v
  {
  }

  /** And nothing else is a digit. */
  lemma HexDigits(c: byte)
    ensures DecodeHex(c) != -1 <==> IsHexDigit(c)
  {
    var v := DecodeHex(c);
    if v != -1 {
      assert v < 16 && (c == LOWER_DIGITS[v] || c == UPPER_DIGITS[v]);
    }
  }

  /** These are the digits of n to the base 16, each in the one case or the other, with any number of leading zeros. */
  ghost predicate Denotes(digits: bytes, n: nat) {
    if digits == [] then n == 0
    else
      var k := |digits| - 1;
      Denotes(digits[..k], n / 16) && (digits[k] == LOWER_DIGITS[n % 16] || digits[k] == UPPER_DIGITS[n % 16])
  }

  lemma {:induction false} DenotesValue(digits: bytes, n: nat)
    requires Denotes(digits, n)
    ensures HexValue(digits) == n && forall c :: c in digits ==> DecodeHex(c) != -1
  {
    if digits != [] {
      hide DecodeHex, IsHexDigit;
      var k := |digits| - 1;
      DenotesValue(digits[..k], n / 16);
      DigitValue(n % 16);
      assert digits == digits[..k] + [digits[k]];
    }
  }

  /** What is read of a string of hexadecimal digits. */
  function HexValue(digits: bytes): int {
    if digits == [] then 0 else HexValue(digits[..|digits| - 1]) * 16 + DecodeHex(digits[|digits| - 1])
  }

  /** One chunk: its size in hexadecimal, an extension, and its data. */
  datatype Chunk = Chunk(size: bytes, ext: bytes, data: bytes)

  /** Digits, in either case and with leading zeros if one likes, but no more than a size_t holds. */
  ghost predicate ValidSize(size: bytes, value: nat) {
    1 <= |size| <= 16 && Denotes(size, value)
  }

  /** An extension runs to the end of the line; were its first byte a digit it would belong to the size. */
  ghost predicate ValidExt(ext: bytes) {
    '\n' !in ext && (ext != [] ==> !IsHexDigit(ext[0]))
  }

  ghost predicate ValidChunk(c: Chunk) {
    c.data != [] && ValidSize(c.size, |c.data|) && ValidExt(c.ext)
  }

  /** A trailer line is neither empty nor broken, and does not begin with the CR of an empty line. */
  ghost predicate ValidTrailer(line: bytes) {
    line != [] && line[0] != '\r' && '\n' !in line
  }

  function EncodeChunk(c: Chunk): bytes {
    c.size + c.ext + "\r\n" + (c.data + "\r\n")
  }

  function EncodeChunks(cs: seq<Chunk>): bytes {
    if cs == [] then [] else EncodeChunk(cs[0]) + EncodeChunks(cs[1..])
  }

  function EncodeTrailers(lines: seq<bytes>): bytes {
    if lines == [] then "\r\n" else lines[0] + "\r\n" + EncodeTrailers(lines[1..])
  }

  /** The body up to where a decoder with this trailer flag stops. */
  function Encode(cs: seq<Chunk>, last: Chunk, trailer: bool, lines: seq<bytes>): bytes {
    EncodeChunks(cs) + (last.size + last.ext + "\r\n" + if trailer then EncodeTrailers(lines) else [])
  }

  function Data(cs: seq<Chunk>): bytes {
    if cs == [] then [] else cs[0].data + Data(cs[1..])
  }

  /** A run of size digits is read into `left`. */
  lemma {:induction false} RunSize(d: Dec, digits: bytes)
    requires d.phase == ChunkSize && d.hex == 0 && d.left == 0 && Inv(d)
    requires |digits| <= MAX_DIGITS && forall c :: c in digits ==> DecodeHex(c) != -1
    ensures 0 <= HexValue(digits) < SIZE_T
    ensures Run(d, digits) == Result(d.(left := HexValue(digits), hex := |digits|), [], |digits|, Incomplete)
  {
    if digits != [] {
      hide Run, DecodeHex;
      var n := |digits| - 1;
      RunSize(d, digits[..n]);
      assert digits == digits[..n] + [digits[n]];
      RunAppend(d, digits[..n], [digits[n]]);
      RunDigit(Run(d, digits[..n]).dec, digits[n]);
    }
  }

  lemma RunDigit(d: Dec, c: byte)
    requires d.phase == ChunkSize && d.hex < MAX_DIGITS && Inv(d) && DecodeHex(c) != -1
    ensures var e := d.(left := d.left * 16 + DecodeHex(c), hex := d.hex + 1);
            e.left < SIZE_T && Run(d, [c]) == Result(e, [], 1, Incomplete)
  {
    hide Run;
    SizeNeverOverflows(d, DecodeHex(c));
    RunOne(d, c);
  }

  /** An extension and the end of its line are read without a trace. */
  lemma {:induction false} RunExt(d: Dec, ext: bytes)
    requires d.phase == ChunkExt && Inv(d) && '\n' !in ext
    ensures Run(d, ext) == Result(d, [], |ext|, Incomplete)
  {
    if ext != [] { RunExt(d, ext[1..]); }
  }

  lemma {:induction false} RunData(d: Dec, data: bytes)
    requires d.phase == ChunkData && Inv(d) && |data| <= d.left
    ensures Inv(d.(left := d.left - |data|, phase := if |data| == d.left then ChunkCrlf else ChunkData))
    ensures var d' := d.(left := d.left - |data|, phase := if |data| == d.left then ChunkCrlf else ChunkData);
            Run(d, data) == Result(d', data, |data|, Incomplete)
    decreases data
  {
    if data != [] {
      var d' := Step(d, data[0]).dec;
      if |data| > 1 { RunData(d', data[1..]); }
      assert data == [data[0]] + data[1..];
    }
  }

  /** As much of the current chunk as the input holds goes straight to the output. */
  lemma RunChunkData(d: Dec, s: bytes, n: nat)
    requires d.phase == ChunkData && Inv(d) && n == if |s| < d.left then |s| else d.left
    ensures var d' := d.(left := d.left - n, phase := if n == d.left then ChunkCrlf else ChunkData);
            && Inv(d')
            && Run(d, s) == if n < d.left then Result(d', s[..n], n, Incomplete)
                            else After(s[..n], n, Run(d', s[n..]))
  {
    hide Step, Run;
    RunData(d, s[..n]);
    RunAppend(d, s[..n], s[n..]);
    assert s[..n] + s[n..] == s;
    if n < d.left {
      assert s[n..] == [];
      RunNothing(d.(left := d.left - n));
      assert s[..n] + [] == s[..n];
    }
  }

  lemma RunNothing(d: Dec)
    requires Inv(d)
    ensures Run(d, []) == Result(d, [], 0, Incomplete)
  {
  }

  /** A whole size line. */
  lemma RunSizeLine(d: Dec, size: bytes, ext: bytes, value: nat)
    requires d.phase == ChunkSize && d.hex == 0 && d.left == 0 && Inv(d)
    requires ValidSize(size, value) && ValidExt(ext)
    ensures value < SIZE_T
    ensures Run(d, size + ext + "\r\n") == RunLineEnd(d.(left := value), |size + ext + "\r\n"|)
  {
    hide Run, Inv, RunLineEnd, IsHexDigit, DecodeHex;
    DenotesValue(size, value);
    RunSize(d, size);
    var d1 := Run(d, size).dec;
    RunExtLine(d1, ext);
    RunAppend(d, size, ext + "\r\n");
    assert size + (ext + "\r\n") == size + ext + "\r\n";
    LaterLineEnd(d.(left := value), |size|, |size|, |ext| + 2);
  }

  /** The rest of the line, behind the digits. */
  lemma RunExtLine(d: Dec, ext: bytes)
    requires d.phase == ChunkSize && d.hex > 0 && Inv(d) && ValidExt(ext)
    ensures Run(d, ext + "\r\n") == RunLineEnd(d, |ext| + 2)
  {
    hide Run, Inv, IsHexDigit, DecodeHex;
    var line: bytes := ext + "\r";
    NotADigit(line[0], ext);
    var e := d.(hex := 0, phase := ChunkExt);
    RunExtBegun(d, line);
    RunAppend(d, line, ['\n']);
    RunOne(e, '\n');
    assert line + ['\n'] == ext + "\r\n";
  }

  lemma NotADigit(c: byte, ext: bytes)
    requires ValidExt(ext) && c == if ext == [] then '\r' else ext[0]
    ensures DecodeHex(c) == -1
  {
    hide IsHexDigit;
    HexDigits(c);
  }

  /** The first byte after the digits is seen both as the end of the size and as part of the extension. */
  lemma RunExtBegun(d: Dec, line: bytes)
    requires d.phase == ChunkSize && d.hex > 0 && Inv(d) && line != [] && DecodeHex(line[0]) == -1 && '\n' !in line
    ensures var e := d.(hex := 0, phase := ChunkExt);
            Inv(e) && Run(d, line) == Result(e, [], |line|, Incomplete)
  {
    var e := d.(hex := 0, phase := ChunkExt);
    assert Step(d, line[0]) == Next(e, []);
    RunExt(e, line[1..]);
  }

  lemma LaterLineEnd(d: Dec, hex: nat, m: nat, n: nat)
    ensures After([], m, RunLineEnd(d.(hex := hex), n)) == RunLineEnd(d, m + n)
  {
  }

  /** What a decoder that has just read a size line, in n bytes, does next. */
  ghost function RunLineEnd(d: Dec, n: nat): Result {
    var d' := d.(hex := 0, phase := ChunkExt);
    match EndOfSizeLine(d')
    case Next(e, _) => Result(e, [], n, Incomplete)
    case Finish(e) => Result(e, [], n, Complete)
  }

  /** One encoded chunk is decoded to its data, and leaves the decoder ready for the next. */
  lemma RunChunk(d: Dec, c: Chunk)
    requires d == Fresh(d.trailer) && ValidChunk(c)
    ensures Run(d, EncodeChunk(c)) == Result(d, c.data, |EncodeChunk(c)|, Incomplete)
  {
    hide Run;
    var line: bytes := c.size + c.ext + "\r\n";
    RunSizeLine(d, c.size, c.ext, |c.data|);
    var d1 := d.(left := |c.data|, phase := ChunkData);
    var d2 := d.(phase := ChunkCrlf);
    RunData(d1, c.data);
    RunDataEnd(d2);
    RunAppend(d1, c.data, "\r\n");
    assert c.data + [] == c.data;
    RunAppend(d, line, c.data + "\r\n");
    assert EncodeChunk(c) == line + (c.data + "\r\n");
  }

  lemma RunDataEnd(d: Dec)
    requires d.phase == ChunkCrlf && Inv(d)
    ensures Run(d, "\r\n") == Result(d.(phase := ChunkSize), [], 2, Incomplete)
  {
    var crlf: bytes := "\r\n";
    assert crlf[1..] == "\n";
    assert Run(d, "\n") == Result(d.(phase := ChunkSize), [], 1, Incomplete);
  }

  lemma {:induction false} RunChunks(d: Dec, cs: seq<Chunk>)
    requires d == Fresh(d.trailer) && forall c :: c in cs ==> ValidChunk(c)
    ensures Run(d, EncodeChunks(cs)) == Result(d, Data(cs), |EncodeChunks(cs)|, Incomplete)
    decreases cs
  {
    if cs != [] {
      RunChunk(d, cs[0]);
      RunChunks(d, cs[1..]);
      RunAppend(d, EncodeChunk(cs[0]), EncodeChunks(cs[1..]));
    }
  }

  lemma {:induction false} RunTrailers(d: Dec, lines: seq<bytes>)
    requires d.phase == TrailerHead && Inv(d) && forall l :: l in lines ==> ValidTrailer(l)
    ensures Run(d, EncodeTrailers(lines)) == Result(d, [], |EncodeTrailers(lines)|, Complete)
    decreases lines
  {
    var crlf: bytes := "\r\n";
    assert crlf[1..] == "\n";
    if lines == [] {
      assert Run(d, "\n") == Result(d, [], 1, Complete);
    } else {
      RunTrailerLine(d, lines[0]);
      RunTrailers(d, lines[1..]);
      RunAppend(d, lines[0] + crlf, EncodeTrailers(lines[1..]));
    }
  }

  lemma RunOne(d: Dec, c: byte)
    requires Inv(d)
    ensures Run(d, [c]) == match Step(d, c)
                           case Next(d', out) => Result(d', out, 1, Incomplete)
                           case Finish(d') => Result(d', [], 1, Complete)
                           case Reject => Result(d, [], 0, Invalid)
  {
    hide Step;
    StepKeepsInv(d, c);
    assert [c][1..] == [];
  }

  lemma RunTrailerLine(d: Dec, line: bytes)
    requires d.phase == TrailerHead && Inv(d) && ValidTrailer(line)
    ensures Run(d, line + "\r\n") == Result(d, [], |line| + 2, Incomplete)
  {
    hide Run, Inv;
    var first, rest := [line[0]], line[1..] + "\r\n";
    assert line + "\r\n" == first + rest;
    TrailerBegins(d, line[0]);
    TrailerEnds(d.(phase := TrailerMiddle), line[1..]);
    RunAppend(d, first, rest);
  }

  lemma TrailerBegins(d: Dec, c: byte)
    requires d.phase == TrailerHead && Inv(d) && c != '\r' && c != '\n'
    ensures Inv(d.(phase := TrailerMiddle)) && Run(d, [c]) == Result(d.(phase := TrailerMiddle), [], 1, Incomplete)
  {
    hide Run;
    RunOne(d, c);
  }

  lemma TrailerEnds(d: Dec, s: bytes)
    requires d.phase == TrailerMiddle && Inv(d) && '\n' !in s
    ensures Run(d, s + "\r\n") == Result(d.(phase := TrailerHead), [], |s| + 2, Incomplete)
  {
    hide Run;
    var t := s + "\r";
    assert s + "\r\n" == t + ['\n'];
    RunMiddle(d, t);
    RunOne(d, '\n');
    RunAppend(d, t, ['\n']);
  }

  lemma {:induction false} RunMiddle(d: Dec, s: bytes)
    requires d.phase == TrailerMiddle && Inv(d) && '\n' !in s
    ensures Run(d, s) == Result(d, [], |s|, Incomplete)
    decreases s
  {
    if s != [] { RunMiddle(d, s[1..]); }
  }

  /**
   Decoding inverts encoding, whatever follows: the chunks' data comes out, decoding stops right
   after the encoding, and the tail is left over.  Without the trailer flag it stops
   after the line of the last chunk.
   */
  lemma RoundTrip(cs: seq<Chunk>, last: Chunk, trailer: bool, lines: seq<bytes>, tail: bytes)
    requires forall c :: c in cs ==> ValidChunk(c)
    requires ValidSize(last.size, 0) && ValidExt(last.ext)
    requires forall l :: l in lines ==> ValidTrailer(l)
    ensures var body := Encode(cs, last, trailer, lines);
            var r := Run(Fresh(trailer), body + tail);
            r.out == Data(cs) && r.used == |body| && r.verdict == Complete
  {
    var d := Fresh(trailer);
    var line: bytes := last.size + last.ext + "\r\n";
    RunSizeLine(d, last.size, last.ext, 0);
    var end := if trailer then EncodeTrailers(lines) else [];
    if trailer {
      RunTrailers(Run(d, line).dec, lines);
      RunAppend(d, line, end);
    } else {
      assert line + end == line;
    }
    RunChunks(d, cs);
    RunAppend(d, EncodeChunks(cs), line + end);
    RunAppend(d, Encode(cs, last, trailer, lines), tail);
  }

  // ----- What is refused

  /** Decoding stops at byte k as invalid, with nothing but these data. */
  ghost predicate RefusedAt(r: Result, k: nat, data: bytes) {
    r.verdict == Invalid && r.used == k && r.out == data
  }

  /** When the whole of `before` has been read, the next byte decides. */
  lemma NextByte(d: Dec, before: bytes, n: nat, e: Dec, out: bytes, c: byte, rest: bytes)
    requires Inv(d) && Inv(e) && Run(d, before) == Result(e, out, n, Incomplete)
    ensures RefusedAt(Run(d, before + ([c] + rest)), n, out) <==> Step(e, c).Reject?
  {
    hide *;
    FirstByte(e, c, rest);
    var behind := [c] + rest;
    RunAppend(d, before, behind);
    Behind(out, n, Run(e, behind));
  }

  lemma Behind(out: bytes, n: nat, r: Result)
    ensures RefusedAt(r, 0, []) ==> RefusedAt(After(out, n, r), n, out)
    ensures r.used > 0 ==> !RefusedAt(After(out, n, r), n, out)
  {
    assert out + [] == out;
  }

  lemma FirstByte(e: Dec, c: byte, rest: bytes)
    requires Inv(e)
    ensures var r := Run(e, [c] + rest);
            if Step(e, c).Reject? then RefusedAt(r, 0, []) else r.used > 0
  {
    hide Step, Inv;
    StepKeepsInv(e, c);
    assert ([c] + rest)[1..] == rest;
  }

  /** Behind any chunks, what is not a hexadecimal digit is refused, and a digit is not. */
  lemma SizeNeedsDigit(cs: seq<Chunk>, trailer: bool, c: byte, rest: bytes)
    requires forall k :: k in cs ==> ValidChunk(k)
    ensures var before := EncodeChunks(cs);
            RefusedAt(Run(Fresh(trailer), before + ([c] + rest)), |before|, Data(cs)) <==> !IsHexDigit(c)
  {
    var d := Fresh(trailer);
    RunChunks(d, cs);
    NextByte(d, EncodeChunks(cs), |EncodeChunks(cs)|, d, Data(cs), c, rest);
    HexDigits(c);
  }

  /** What follows the digits of a size is refused exactly if it is a seventeenth digit. */
  lemma SizeTooLong(cs: seq<Chunk>, trailer: bool, size: bytes, value: nat, c: byte, rest: bytes)
    requires (forall k :: k in cs ==> ValidChunk(k)) && ValidSize(size, value)
    ensures var before := EncodeChunks(cs) + size;
            RefusedAt(Run(Fresh(trailer), before + ([c] + rest)), |before|, Data(cs)) <==> |size| == 16 && IsHexDigit(c)
  {
    hide Run, Step, Inv, DecodeHex, IsHexDigit;
    var d := Fresh(trailer);
    RunChunks(d, cs);
    DenotesValue(size, value);
    RunSize(d, size);
    var e := Run(d, size).dec;
    RunAppend(d, EncodeChunks(cs), size);
    assert Data(cs) + [] == Data(cs);
    NextByte(d, EncodeChunks(cs) + size, |EncodeChunks(cs) + size|, e, Data(cs), c, rest);
    BehindDigits(e, c);
    HexDigits(c);
  }

  lemma BehindDigits(e: Dec, c: byte)
    requires Inv(e) && e.phase == ChunkSize && e.hex > 0
    ensures Step(e, c).Reject? <==> e.hex == 16 && DecodeHex(c) != -1
  {
  }

  /** A byte behind the data of a chunk is refused unless it is a CR or an LF, however many CRs have come before it. */
  lemma ChunkNeedsEnd(cs: seq<Chunk>, trailer: bool, chunk: Chunk, crs: bytes, c: byte, rest: bytes)
    requires (forall k :: k in cs ==> ValidChunk(k)) && ValidChunk(chunk) && forall i :: 0 <= i < |crs| ==> crs[i] == '\r'
    ensures var before := EncodeChunks(cs) + (chunk.size + chunk.ext + "\r\n" + (chunk.data + crs));
            RefusedAt(Run(Fresh(trailer), before + ([c] + rest)), |before|, Data(cs) + chunk.data) <==> c != '\r' && c != '\n'
  {
    hide Run, Step, Inv;
    var d := Fresh(trailer);
    var e := d.(phase := ChunkCrlf);
    var part: bytes := chunk.size + chunk.ext + "\r\n" + (chunk.data + crs);
    RunChunks(d, cs);
    RunToEnd(d, chunk, crs);
    RunAppend(d, EncodeChunks(cs), part);
    NextByte(d, EncodeChunks(cs) + part, |EncodeChunks(cs) + part|, e, Data(cs) + chunk.data, c, rest);
    BehindData(e, c);
  }

  lemma BehindData(e: Dec, c: byte)
    requires Inv(e) && e.phase == ChunkCrlf
    ensures Step(e, c).Reject? <==> c != '\r' && c != '\n'
  {
  }

  /** A chunk without the LF behind its data. */
  lemma RunToEnd(d: Dec, chunk: Chunk, crs: bytes)
    requires d == Fresh(d.trailer) && ValidChunk(chunk) && forall i :: 0 <= i < |crs| ==> crs[i] == '\r'
    ensures var part: bytes := chunk.size + chunk.ext + "\r\n" + (chunk.data + crs);
            Inv(d.(phase := ChunkCrlf)) && Run(d, part) == Result(d.(phase := ChunkCrlf), chunk.data, |part|, Incomplete)
  {
    hide Run;
    var line: bytes := chunk.size + chunk.ext + "\r\n";
    RunSizeLine(d, chunk.size, chunk.ext, |chunk.data|);
    var d1 := d.(left := |chunk.data|, phase := ChunkData);
    RunData(d1, chunk.data);
    RunCrs(d.(phase := ChunkCrlf), crs);
    RunAppend(d1, chunk.data, crs);
    assert chunk.data + [] == chunk.data;
    RunAppend(d, line, chunk.data + crs);
  }

  lemma {:induction false} RunCrs(d: Dec, crs: bytes)
    requires d.phase == ChunkCrlf && Inv(d) && forall i :: 0 <= i < |crs| ==> crs[i] == '\r'
    ensures Run(d, crs) == Result(d, [], |crs|, Incomplete)
    decreases crs
  {
    if crs != [] {
      RunCrs(d, crs[1..]);
    }
  }
}
