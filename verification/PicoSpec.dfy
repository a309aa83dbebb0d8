/**
 What picohttpparser accepts, as functions of the bytes and a position.  A parser either
 consumes up to a position, or finds the input to be a prefix of something longer, or
 rejects it; these are the pointer, -2 and -1 of the C functions.
 */
module PicoSpec {
  import opened Bytes

  datatype Res<+T> = Ok(pos: nat, val: T) | Partial | Bad {
    predicate IsFailure() {
      !Ok?
    }

    function PropagateFailure<U>(): Res<U>
      requires !Ok?
    {
      if Partial? then Partial else Bad
    }

    function Extract(): (nat, T)
      requires Ok?
    {
      (pos, val)
    }
  }

  /** The bytes [lo, hi) of the buffer; what the C code keeps as a pointer and a length. */
  datatype Slice = Slice(lo: nat, hi: nat) {
    ghost predicate Within(n: nat) {
      lo <= hi <= n
    }

    function Of(s: bytes): bytes
      requires lo <= hi <= |s|
    {
      s[lo..hi]
    }
  }

  /** A continuation line of a folded header has no name. */
  datatype Header = Field(name: Slice, value: Slice) | Continuation(value: Slice) {
    ghost predicate Within(n: nat) {
      value.Within(n) && (Field? ==> name.Within(n) && name.lo < name.hi)
    }
  }

  datatype Request = Request(method_: Slice, path: Slice, minor: nat, headers: seq<Header>)

  datatype Response = Response(minor: nat, status: nat, msg: Slice, headers: seq<Header>)

  // ----- Character classes

  const DEL: byte := '\U{7F}'

  predicate IsPrintable(c: byte) {
    ' ' <= c < DEL
  }

  predicate IsControl(c: byte) {
    c < ' ' || c == DEL
  }

  /** What ends a header value or a reason phrase: any control but a tab. */
  predicate EndsText(c: byte) {
    IsControl(c) && c != '\t'
  }

  predicate IsDigit(c: byte) {
    '0' <= c <= '9'
  }

  predicate IsBlank(c: byte) {
    c == ' ' || c == '\t'
  }

  /** token_char_map */
  predicate IsTokenChar(c: byte) {
    || IsDigit(c) || 'A' <= c <= 'Z' || 'a' <= c <= 'z'
    || c in "!#$%&'*+-.^_`|~"
  }

  // ----- Pieces

  function Newline(s: bytes, i: nat): (r: Res<bool>)
    requires i <= |s|
    ensures r.Ok? ==> i <= r.pos <= |s| && (r.val <==> i < r.pos) && (r.val ==> s[r.pos - 1] == '\n')
  {
    if i == |s| then Partial
    else if s[i] == '\r' then
      if i + 1 == |s| then Partial else if s[i + 1] == '\n' then Ok(i + 2, true) else Bad
    else if s[i] == '\n' then Ok(i + 1, true)
    else Ok(i, false)
  }

  /** The method or the path: everything up to the next space. */
  function TokenEnd(s: bytes, i: nat): (r: Res<()>)
    requires i <= |s|
    ensures r.Ok? ==> i <= r.pos < |s| && s[r.pos] == ' '
    decreases |s| - i
  {
    if i == |s| then Partial
    else if s[i] == ' ' then Ok(i, ())
    else if IsControl(s[i]) then Bad
    else TokenEnd(s, i + 1)
  }

  function Digits(s: bytes, i: nat, v: nat): (r: Res<nat>)
    requires i <= |s|
    ensures r.Ok? ==> i <= r.pos < |s|
    decreases |s| - i
  {
    if i == |s| then Partial
    else if IsDigit(s[i]) then Digits(s, i + 1, v * 10 + (s[i] as int - '0' as int))
    else Ok(i, v)
  }

  /** A decimal number, and one more byte to know that it has ended. */
  function Int(s: bytes, i: nat): (r: Res<nat>)
    requires i <= |s|
    ensures r.Ok? ==> i < r.pos < |s|
  {
    if i == |s| then Partial else if !IsDigit(s[i]) then Bad
    else Digits(s, i + 1, s[i] as int - '0' as int)
  }

  function Expect(s: bytes, i: nat, text: bytes): (r: Res<()>)
    requires i <= |s|
    ensures r.Ok? ==> r.pos == i + |text| <= |s| && s[i..r.pos] == text
    decreases text
  {
    if text == [] then Ok(i, ())
    else if i == |s| then Partial
    else if s[i] != text[0] then Bad
    else Expect(s, i + 1, text[1..])
  }

  function HttpVersion(s: bytes, i: nat): (r: Res<nat>)
    requires i <= |s|
    ensures r.Ok? ==> i < r.pos < |s|
  {
    var (i, _) :- Expect(s, i, "HTTP/1.");
    Int(s, i)
  }

  /** Text from `from` to the end of its line, scanned from i on. */
  function TextToEol(s: bytes, from: nat, i: nat): (r: Res<Slice>)
    requires from <= i <= |s|
    ensures r.Ok? ==> i < r.pos <= |s| && r.val.lo == from && i <= r.val.hi < r.pos && s[r.pos - 1] == '\n'
    decreases |s| - i
  {
    if i == |s| then Partial
    else if !EndsText(s[i]) then TextToEol(s, from, i + 1)
    else
      var (j, ended) :- Newline(s, i);
      if ended then Ok(j, Slice(from, i)) else Bad
  }

  function NameEnd(s: bytes, i: nat): (r: Res<()>)
    requires i <= |s|
    ensures r.Ok? ==> i <= r.pos < |s| && s[r.pos] == ':'
    decreases |s| - i
  {
    if i == |s| then Partial
    else if s[i] == ':' then Ok(i, ())
    else if !IsTokenChar(s[i]) then Bad
    else NameEnd(s, i + 1)
  }

  function SkipBlanks(s: bytes, i: nat): (r: Res<()>)
    requires i <= |s|
    ensures r.Ok? ==> i <= r.pos < |s|
    decreases |s| - i
  {
    if i == |s| then Partial
    else if IsBlank(s[i]) then SkipBlanks(s, i + 1)
    else Ok(i, ())
  }

  function NamedHeader(s: bytes, i: nat): (r: Res<Header>)
    requires i <= |s|
    ensures r.Ok? ==> i < r.pos <= |s| && r.val.Within(r.pos) && s[r.pos - 1] == '\n'
  {
    var (colon, _) :- NameEnd(s, i);
    if colon == i then Bad
    else
      var (from, _) :- SkipBlanks(s, colon + 1);
      var (j, value) :- TextToEol(s, from, from);
      Ok(j, Field(Slice(i, colon), value))
  }

  /** The k-th header line; the first one cannot be a continuation. */
  function HeaderLine(s: bytes, i: nat, k: nat): (r: Res<Header>)
    requires i < |s|
    ensures r.Ok? ==> i < r.pos <= |s| && r.val.Within(r.pos) && s[r.pos - 1] == '\n'
  {
    if k != 0 && IsBlank(s[i]) then
      var (j, value) :- TextToEol(s, i, i);
      Ok(j, Continuation(value))
    else NamedHeader(s, i)
  }

  /** Header lines from the k-th on, up to and including the blank line; at most max of them. */
  function Headers(s: bytes, i: nat, k: nat, max: nat): (r: Res<seq<Header>>)
    requires i <= |s| && k <= max
    ensures r.Ok? ==> i < r.pos <= |s| && k + |r.val| <= max
    ensures r.Ok? ==> forall h :: h in r.val ==> h.Within(r.pos)
    decreases |s| - i
  {
    var (j, blank) :- Newline(s, i);
    if blank then Ok(j, [])
    else if k == max then Bad
    else
      var (j, h) :- HeaderLine(s, i, k);
      var (n, rest) :- Headers(s, j, k + 1, max);
      Ok(n, [h] + rest)
  }

  function RequestLine(s: bytes): (r: Res<Request>)
    ensures r.Ok? ==> 0 < r.pos <= |s| && s[r.pos - 1] == '\n'
    ensures r.Ok? ==> r.val.method_.Within(r.pos) && r.val.path.Within(r.pos)
  {
    var (start, _) :- Newline(s, 0);
    LineFrom(s, start)
  }

  /** The method, the path and the version. */
  function LineFrom(s: bytes, start: nat): (r: Res<Request>)
    requires start <= |s|
    ensures r.Ok? ==> start < r.pos <= |s| && s[r.pos - 1] == '\n'
    ensures r.Ok? ==> r.val.method_.Within(r.pos) && r.val.path.Within(r.pos)
  {
    var (sp1, _) :- TokenEnd(s, start);
    var (sp2, _) :- TokenEnd(s, sp1 + 1);
    var (eol, minor) :- HttpVersion(s, sp2 + 1);
    var (n, ended) :- Newline(s, eol);
    if ended then Ok(n, Request(Slice(start, sp1), Slice(sp1 + 1, sp2), minor, [])) else Bad
  }

  /** A whole request head with at most max header lines. */
  function ParseRequest(s: bytes, max: nat): (r: Res<Request>)
    ensures r.Ok? ==> 0 < r.pos <= |s| && |r.val.headers| <= max
    ensures r.Ok? ==> r.val.method_.Within(r.pos) && r.val.path.Within(r.pos)
    ensures r.Ok? ==> forall h :: h in r.val.headers ==> h.Within(r.pos)
  {
    var (i, line) :- RequestLine(s);
    var (n, headers) :- Headers(s, i, 0, max);
    Ok(n, line.(headers := headers))
  }

  function StatusLine(s: bytes): (r: Res<Response>)
    ensures r.Ok? ==> 0 < r.pos <= |s| && s[r.pos - 1] == '\n' && r.val.msg.Within(r.pos)
  {
    var (i, minor) :- HttpVersion(s, 0);
    if s[i] != ' ' then Bad
    else
      var (j, status) :- Int(s, i + 1);
      if s[j] != ' ' then Bad
      else
        var (n, msg) :- TextToEol(s, j + 1, j + 1);
        Ok(n, Response(minor, status, msg, []))
  }

  function ParseResponse(s: bytes, max: nat): (r: Res<Response>)
    ensures r.Ok? ==> 0 < r.pos <= |s| && |r.val.headers| <= max
    ensures r.Ok? ==> r.val.msg.Within(r.pos) && forall h :: h in r.val.headers ==> h.Within(r.pos)
  {
    var (i, line) :- StatusLine(s);
    var (n, headers) :- Headers(s, i, 0, max);
    Ok(n, line.(headers := headers))
  }

  // ----- The check for a complete head

  /** Scans for two line ends in a row, `count` of them being just behind. */
  function BlankLine(s: bytes, i: nat, count: nat): (r: Res<()>)
    requires i <= |s| && count < 2
    ensures r.Ok? ==> i < r.pos <= |s|
    decreases |s| - i
  {
    var (j, ended) :- Newline(s, i);
    if !ended then BlankLine(s, i + 1, 0)
    else if count == 1 then Ok(j, ())
    else BlankLine(s, j, 1)
  }

  /** Where is_complete begins: only the bytes that are new since the last call, and three before them, are scanned. */
  function ScanFrom(lastLen: nat): nat {
    if lastLen < 3 then 0 else lastLen - 3
  }

  function IsComplete(s: bytes, lastLen: nat): Res<()>
    requires ScanFrom(lastLen) <= |s|
  {
    BlankLine(s, ScanFrom(lastLen), 0)
  }

  /** phr_parse_request */
  function PhrParseRequest(s: bytes, max: nat, lastLen: nat): Res<Request>
    requires ScanFrom(lastLen) <= |s|
  {
    if lastLen != 0 && !IsComplete(s, lastLen).Ok? then IsComplete(s, lastLen).PropagateFailure()
    else ParseRequest(s, max)
  }

  /** phr_parse_response */
  function PhrParseResponse(s: bytes, max: nat, lastLen: nat): Res<Response>
    requires ScanFrom(lastLen) <= |s|
  {
    if lastLen != 0 && !IsComplete(s, lastLen).Ok? then IsComplete(s, lastLen).PropagateFailure()
    else ParseResponse(s, max)
  }
}
