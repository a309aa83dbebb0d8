/**
 The parser as it runs: a cursor moved over the buffer by loops, with the two shortcuts of the C
 code, the eight-fold unrolled scan and the SSE scan.  Every routine is proved to return
 what PicoSpec says, so neither shortcut can change an answer; `sse` tells which of the two
 builds is meant.
 */
module PicoParser {
  import opened Bytes
  import opened PicoSpec

  type Ranges = seq<(byte, byte)>

  predicate InRanges(c: byte, ranges: Ranges) {
    exists k :: 0 <= k < |ranges| && ranges[k].0 <= c <= ranges[k].1
  }

  const TOKEN_STOPS: Ranges := [('\0', ' '), (DEL, DEL)]
  const TEXT_STOPS: Ranges := [('\0', '\U{08}'), ('\n', '\U{1F}'), (DEL, DEL)]
  const NAME_STOPS: Ranges :=
    [('\0', ' '), ('\"', '\"'), ('(', ')'), (',', ','), ('/', '/'), (':', '@'), ('[', ']'), ('{', '\U{FF}')]

  /** _mm_cmpestri on the 16 bytes at i: the index of the first one in a range, or 16. */
  method FirstOf16(s: bytes, i: nat, ranges: Ranges) returns (r: nat)
    requires i + 16 <= |s|
    ensures r <= 16 && forall k :: i <= k < i + r ==> !InRanges(s[k], ranges)
    ensures r < 16 ==> InRanges(s[i + r], ranges)
  {
    r := 0;
    while r < 16 && !InRanges(s[i + r], ranges)
      invariant r <= 16 && forall k :: i <= k < i + r ==> !InRanges(s[k], ranges)
    {
      r := r + 1;
    }
  }

  /** Skips some bytes outside the ranges; without SSE, none. */
  method FindCharFast(s: bytes, i: nat, ranges: Ranges, sse: bool) returns (j: nat, found: bool)
    requires i <= |s|
    ensures i <= j <= |s| && forall k :: i <= k < j ==> !InRanges(s[k], ranges)
    ensures found ==> j < |s| && InRanges(s[j], ranges)
  {
    j, found := i, false;
    if sse && |s| - i >= 16 {
      var left: nat := (|s| - i) / 16 * 16;
      while left != 0
        invariant i <= j <= |s| && j + left <= |s| && left % 16 == 0
        invariant forall k :: i <= k < j ==> !InRanges(s[k], ranges)
        decreases left
      {
        var r := FirstOf16(s, j, ranges);
        if r != 16 {
          return j + r, true;
        }
        j := j + 16;
        left := left - 16;
      }
    }
  }

  lemma {:induction false} SkipToken(s: bytes, i: nat, j: nat)
    requires i <= j <= |s| && forall k :: i <= k < j ==> !InRanges(s[k], TOKEN_STOPS)
    ensures TokenEnd(s, i) == TokenEnd(s, j)
    decreases j - i
  {
    if i < j {
      assert TOKEN_STOPS[0] == ('\0', ' ') && TOKEN_STOPS[1] == (DEL, DEL);
      SkipToken(s, i + 1, j);
    }
  }

  /** ADVANCE_TOKEN */
  method AdvanceToken(s: bytes, i: nat, sse: bool) returns (r: Res<()>)
    requires i <= |s|
    ensures r == TokenEnd(s, i)
  {
    var j, found := FindCharFast(s, i, TOKEN_STOPS, sse);
    SkipToken(s, i, j);
    if !found && j == |s| {
      return Partial;
    }
    while true
      invariant i <= j < |s| && TokenEnd(s, i) == TokenEnd(s, j)
      decreases |s| - j
    {
      if s[j] == ' ' {
        break;
      } else if !IsPrintable(s[j]) {
        if s[j] < ' ' || s[j] == DEL {
          return Bad;
        }
      }
      j := j + 1;
      if j == |s| {
        return Partial;
      }
    }
    r := Ok(j, ());
  }

  lemma {:induction false} SkipText(s: bytes, from: nat, i: nat, j: nat)
    requires from <= i <= j <= |s| && forall k :: i <= k < j ==> !EndsText(s[k])
    ensures TextToEol(s, from, i) == TextToEol(s, from, j)
    decreases j - i
  {
    if i < j { SkipText(s, from, i + 1, j); }
  }

  lemma TextStops(c: byte)
    ensures InRanges(c, TEXT_STOPS) <==> EndsText(c)
  {
    assert TEXT_STOPS[0] == ('\0', '\U{08}') && TEXT_STOPS[1] == ('\n', '\U{1F}') && TEXT_STOPS[2] == (DEL, DEL);
  }

  /** The unrolled scan: runs of eight printable bytes, and single bytes that are not but may stay. */
  method ScanEights(s: bytes, i: nat) returns (j: nat, found: bool)
    requires i <= |s|
    ensures i <= j <= |s| && forall k :: i <= k < j ==> !EndsText(s[k])
    ensures found ==> j < |s| && EndsText(s[j])
  {
    j := i;
    while |s| - j >= 8
      invariant i <= j <= |s| && forall k :: i <= k < j ==> !EndsText(s[k])
      decreases |s| - j
    {
      var n := 0;
      ghost var start := j;
      while n < 8 && IsPrintable(s[j])
        invariant n <= 8 && j == start + n && start + 8 <= |s|
        invariant forall k :: i <= k < j ==> !EndsText(s[k])
      {
        n, j := n + 1, j + 1;
      }
      if n < 8 {
        if (s[j] < ' ' && s[j] != '\t') || s[j] == DEL {
          return j, true;
        }
        j := j + 1;
      }
    }
    found := false;
  }

  method GetTokenToEol(s: bytes, i: nat, sse: bool) returns (r: Res<Slice>)
    requires i <= |s|
    ensures r == TextToEol(s, i, i)
  {
    var j, found;
    if sse {
      j, found := FindCharFast(s, i, TEXT_STOPS, true);
      forall c: byte { TextStops(c); }
    } else {
      j, found := ScanEights(s, i);
    }
    SkipText(s, i, i, j);
    while !found
      invariant i <= j <= |s| && TextToEol(s, i, i) == TextToEol(s, i, j)
      invariant found ==> j < |s| && EndsText(s[j])
      decreases |s| - j, !found
    {
      if j == |s| {
        return Partial;
      }
      if !IsPrintable(s[j]) && ((s[j] < ' ' && s[j] != '\t') || s[j] == DEL) {
        found := true;
      } else {
        j := j + 1;
      }
    }
    if s[j] == '\r' {
      if j + 1 == |s| { return Partial; }
      if s[j + 1] != '\n' { return Bad; }
      return Ok(j + 2, Slice(i, j));
    } else if s[j] == '\n' {
      return Ok(j + 1, Slice(i, j));
    }
    r := Bad;
  }

  method CheckComplete(s: bytes, lastLen: nat) returns (r: Res<()>)
    requires ScanFrom(lastLen) <= |s|
    ensures r == IsComplete(s, lastLen)
  {
    var count, i := 0, ScanFrom(lastLen);
    while true
      invariant i <= |s| && count < 2 && IsComplete(s, lastLen) == BlankLine(s, i, count)
      decreases |s| - i
    {
      if i == |s| { return Partial; }
      if s[i] == '\r' {
        i := i + 1;
        if i == |s| { return Partial; }
        if s[i] != '\n' { return Bad; }
        i := i + 1;
        count := count + 1;
      } else if s[i] == '\n' {
        i := i + 1;
        count := count + 1;
      } else {
        i := i + 1;
        count := 0;
      }
      if count == 2 { return Ok(i, ()); }
    }
  }

  method GetInt(s: bytes, i: nat) returns (r: Res<nat>)
    requires i <= |s|
    ensures r == Int(s, i)
  {
    if i == |s| { return Partial; }
    if !('0' <= s[i] <= '9') { return Bad; }
    var v: nat, j := 0, i;
    assert Digits(s, i, 0) == Int(s, i);
    while true
      invariant i <= j <= |s| && Digits(s, j, v) == Int(s, i)
      decreases |s| - j
    {
      if j == |s| { return Partial; }
      if '0' <= s[j] <= '9' {
        v := v * 10 + (s[j] as int - '0' as int);
      } else {
        break;
      }
      j := j + 1;
    }
    r := Ok(j, v);
  }

  method ExpectText(s: bytes, i: nat, text: bytes) returns (r: Res<()>)
    requires i <= |s|
    ensures r == Expect(s, i, text)
  {
    var j, k := i, 0;
    assert text[0..] == text;
    while k < |text|
      invariant k <= |text| && j == i + k <= |s| && Expect(s, i, text) == Expect(s, j, text[k..])
    {
      if j == |s| { return Partial; }
      if s[j] != text[k] { return Bad; }
      assert text[k..][1..] == text[k + 1..];
      j, k := j + 1, k + 1;
    }
    r := Ok(j, ());
  }

  method GetHttpVersion(s: bytes, i: nat) returns (r: Res<nat>)
    requires i <= |s|
    ensures r == HttpVersion(s, i)
  {
    var p := ExpectText(s, i, "HTTP/1.");
    if !p.Ok? { return p.PropagateFailure(); }
    r := GetInt(s, p.pos);
  }

  lemma {:induction false} SkipName(s: bytes, i: nat, j: nat)
    requires i <= j <= |s| && forall k :: i <= k < j ==> IsTokenChar(s[k])
    ensures NameEnd(s, i) == NameEnd(s, j)
    decreases j - i
  {
    if i < j { SkipName(s, i + 1, j); }
  }

  /** Every byte outside the name's ranges is a token character; `|` and `~` are inside and stop the scan early. */
  lemma NameStops(c: byte)
    ensures InRanges(c, NAME_STOPS) || IsTokenChar(c)
  {
    assert NAME_STOPS[0] == ('\0', ' ') && NAME_STOPS[1] == ('\"', '\"') && NAME_STOPS[2] == ('(', ')');
    assert NAME_STOPS[3] == (',', ',') && NAME_STOPS[4] == ('/', '/') && NAME_STOPS[5] == (':', '@');
    assert NAME_STOPS[6] == ('[', ']') && NAME_STOPS[7] == ('{', '\U{FF}');
  }

  method GetNamedHeader(s: bytes, i: nat, sse: bool) returns (r: Res<Header>)
    requires i < |s|
    ensures r == NamedHeader(s, i)
  {
    var j, found := FindCharFast(s, i, NAME_STOPS, sse);
    forall c: byte { NameStops(c); }
    SkipName(s, i, j);
    if !found && j == |s| { return Partial; }
    while true
      invariant i <= j < |s| && NameEnd(s, i) == NameEnd(s, j)
      decreases |s| - j
    {
      if s[j] == ':' {
        break;
      } else if !IsTokenChar(s[j]) {
        return Bad;
      }
      j := j + 1;
      if j == |s| { return Partial; }
    }
    if j == i { return Bad; }
    var from := j + 1;
    while true
      invariant j < from <= |s| && SkipBlanks(s, j + 1) == SkipBlanks(s, from)
      decreases |s| - from
    {
      if from == |s| { return Partial; }
      if !(s[from] == ' ' || s[from] == '\t') { break; }
      from := from + 1;
    }
    var value := GetTokenToEol(s, from, sse);
    if !value.Ok? { return value.PropagateFailure(); }
    r := Ok(value.pos, Field(Slice(i, j), value.val));
  }

  /** An optional line end: CR LF or LF. */
  method GetNewline(s: bytes, i: nat) returns (r: Res<bool>)
    requires i <= |s|
    ensures r == Newline(s, i)
  {
    if i == |s| { return Partial; }
    if s[i] == '\r' {
      if i + 1 == |s| { return Partial; }
      if s[i + 1] != '\n' { return Bad; }
      return Ok(i + 2, true);
    } else if s[i] == '\n' {
      return Ok(i + 1, true);
    }
    r := Ok(i, false);
  }

  /** What the headers read so far and the rest of the lines make together. */
  ghost function Prepend(headers: seq<Header>, r: Res<seq<Header>>): Res<seq<Header>> {
    match r
    case Ok(n, rest) => Ok(n, headers + rest)
    case Partial => Partial
    case Bad => Bad
  }

  lemma HeadersStep(s: bytes, i: nat, max: nat, headers: seq<Header>, line: Res<Header>)
    requires i < |s| && |headers| < max && Newline(s, i) == Ok(i, false) && line == HeaderLine(s, i, |headers|)
    ensures Prepend(headers, Headers(s, i, |headers|, max)) == match line
            case Ok(j, h) => Prepend(headers + [h], Headers(s, j, |headers| + 1, max))
            case Partial => Partial
            case Bad => Bad
  {
    hide HeaderLine;
    if line.Ok? {
      var r := Headers(s, line.pos, |headers| + 1, max);
      if r.Ok? { assert headers + ([line.val] + r.val) == headers + [line.val] + r.val; }
    }
  }

  method GetHeaders(s: bytes, start: nat, max: nat, sse: bool) returns (r: Res<seq<Header>>)
    requires start <= |s|
    ensures r == Headers(s, start, 0, max)
  {
    hide NamedHeader;
    var i, headers := start, [];
    ghost var goal := Headers(s, start, 0, max);
    if goal.Ok? { assert [] + goal.val == goal.val; }
    while true
      invariant start <= i <= |s| && |headers| <= max
      invariant goal == Prepend(headers, Headers(s, i, |headers|, max))
      decreases |s| - i
    {
      var nl := GetNewline(s, i);
      if !nl.Ok? { return nl.PropagateFailure(); }
      if nl.val {
        assert headers + [] == headers;
        return Ok(nl.pos, headers);
      }
      if |headers| == max { return Bad; }
      var line;
      if !(|headers| != 0 && (s[i] == ' ' || s[i] == '\t')) {
        line := GetNamedHeader(s, i, sse);
      } else {
        var value := GetTokenToEol(s, i, sse);
        line := if value.Ok? then Ok(value.pos, Continuation(value.val)) else value.PropagateFailure();
      }
      HeadersStep(s, i, max, headers, line);
      if !line.Ok? { return line.PropagateFailure(); }
      i, headers := line.pos, headers + [line.val];
    }
  }

  method GetRequestLine(s: bytes, sse: bool) returns (r: Res<Request>)
    ensures r == RequestLine(s)
  {
    hide TokenEnd, HttpVersion, Newline;
    var start := GetNewline(s, 0);
    if !start.Ok? { return start.PropagateFailure(); }
    var sp1 := AdvanceToken(s, start.pos, sse);
    if !sp1.Ok? { return sp1.PropagateFailure(); }
    var sp2 := AdvanceToken(s, sp1.pos + 1, sse);
    if !sp2.Ok? { return sp2.PropagateFailure(); }
    var eol := GetHttpVersion(s, sp2.pos + 1);
    if !eol.Ok? { return eol.PropagateFailure(); }
    var end := GetNewline(s, eol.pos);
    if !end.Ok? { return end.PropagateFailure(); }
    if !end.val { return Bad; }
    r := Ok(end.pos, Request(Slice(start.pos, sp1.pos), Slice(sp1.pos + 1, sp2.pos), eol.val, []));
  }

  /** phr_parse_request, with its int result and the out-parameters it fills in on success. */
  method PhrParse(s: bytes, max: nat, lastLen: nat, sse: bool) returns (ret: int, request: Request)
    requires ScanFrom(lastLen) <= |s|
    ensures match PhrParseRequest(s, max, lastLen)
            case Ok(n, req) => ret == n > 0 && request == req
            case Partial => ret == -2
            case Bad => ret == -1
  {
    hide RequestLine, Headers, IsComplete;
    request := Request(Slice(0, 0), Slice(0, 0), 0, []);
    if lastLen != 0 {
      var complete := CheckComplete(s, lastLen);
      if !complete.Ok? { return if complete.Partial? then -2 else -1, request; }
    }
    var line := GetRequestLine(s, sse);
    if !line.Ok? { return if line.Partial? then -2 else -1, request; }
    var headers := GetHeaders(s, line.pos, max, sse);
    if !headers.Ok? { return if headers.Partial? then -2 else -1, request; }
    return headers.pos, line.val.(headers := headers.val);
  }

  /** parse_response */
  method GetResponse(s: bytes, max: nat, sse: bool) returns (r: Res<Response>)
    ensures r == ParseResponse(s, max)
  {
    hide HttpVersion, Int, TextToEol, Headers;
    var version := GetHttpVersion(s, 0);
    if !version.Ok? { return version.PropagateFailure(); }
    if s[version.pos] != ' ' { return Bad; }
    var status := GetInt(s, version.pos + 1);
    if !status.Ok? { return status.PropagateFailure(); }
    if s[status.pos] != ' ' { return Bad; }
    var msg := GetTokenToEol(s, status.pos + 1, sse);
    if !msg.Ok? { return msg.PropagateFailure(); }
    var headers := GetHeaders(s, msg.pos, max, sse);
    if !headers.Ok? { return headers.PropagateFailure(); }
    r := Ok(headers.pos, Response(version.val, status.val, msg.val, headers.val));
  }

  /** phr_parse_response, likewise. */
  method PhrParseResp(s: bytes, max: nat, lastLen: nat, sse: bool) returns (ret: int, response: Response)
    requires ScanFrom(lastLen) <= |s|
    ensures match PhrParseResponse(s, max, lastLen)
            case Ok(n, resp) => ret == n > 0 && response == resp
            case Partial => ret == -2
            case Bad => ret == -1
  {
    hide ParseResponse, IsComplete;
    response := Response(0, 0, Slice(0, 0), []);
    if lastLen != 0 {
      var complete := CheckComplete(s, lastLen);
      if !complete.Ok? { return if complete.Partial? then -2 else -1, response; }
    }
    var r := GetResponse(s, max, sse);
    if !r.Ok? { return if r.Partial? then -2 else -1, response; }
    return r.pos, r.val;
  }
}
