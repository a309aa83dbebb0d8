/**
 The multipart parser, one byte at a time, and what splitting the input can and cannot change.

 The parser reports to callbacks.  A long header or body may be reported in several pieces, so
 traces of callbacks are compared in normal form, where adjacent pieces of one kind are joined
 and nothing else changes.
 */
module MultipartSpec {
  import opened Bytes

  datatype State =
    | Start | StartBoundary
    | HeaderFieldStart | HeaderField | HeadersAlmostDone
    | HeaderValueStart | HeaderValue | HeaderValueAlmostDone
    | PartDataStart | PartData | PartDataAlmostBoundary | PartDataBoundary
    | PartDataAlmostEnd | PartDataEnd | PartDataFinalHyphen | End

  datatype Event =
    | OnPartDataBegin
    | OnHeaderField(at: bytes)
    | OnHeaderValue(at: bytes)
    | OnHeadersComplete
    | OnPartData(at: bytes)
    | OnPartDataEnd
    | OnBodyEnd

  type Trace = seq<Event>

  predicate Joins(a: Event, b: Event) {
    || (a.OnHeaderField? && b.OnHeaderField?)
    || (a.OnHeaderValue? && b.OnHeaderValue?)
    || (a.OnPartData? && b.OnPartData?)
  }

  /** One more callback at the end of a trace in normal form. */
  function Push(t: Trace, e: Event): (r: Trace)
    ensures r != []
  {
    if t != [] && Joins(t[|t| - 1], e) then t[..|t| - 1] + [e.(at := t[|t| - 1].at + e.at)]
    else t + [e]
  }

  function Norm(t: Trace): Trace {
    if t == [] then [] else Push(Norm(t[..|t| - 1]), t[|t| - 1])
  }

  lemma NormAppend(t: Trace, e: Event)
    ensures Norm(t + [e]) == Push(Norm(t), e)
  {
    assert (t + [e])[..|t|] == t;
  }

  lemma PushJoin(t: Trace, e: Event, f: Event)
    requires Joins(e, f)
    ensures Push(Push(t, e), f) == Push(t, e.(at := e.at + f.at))
  {
    if t != [] && Joins(t[|t| - 1], e) {
      var n := |t| - 1;
      assert (t[n].at + e.at) + f.at == t[n].at + (e.at + f.at);
    }
  }

  // ----- The machine

  /**
   `pend` holds the bytes of a header name read in the current call and not reported yet: unlike
   values and bodies, they are reported only at the colon or at the end of the buffer.
   `used` counts the bytes accepted; on an unacceptable one `ok` turns false and the machine stops.
   */
  datatype Parser = Parser(state: State, index: nat, pend: bytes, log: Trace, used: nat, ok: bool)

  const INIT := Parser(Start, 0, [], [], 0, true)

  predicate IsFieldChar(c: byte) {
    var cl := ToLower(c);
    c == '-' || 'a' <= cl <= 'z'
  }

  function Emit(p: Parser, e: Event): Parser {
    p.(log := Push(p.log, e))
  }

  function To(p: Parser, state: State): Parser {
    p.(state := state)
  }

  function Fail(p: Parser): Parser {
    p.(ok := false, pend := [])
  }

  function InStartBoundary(b: bytes, p: Parser, c: byte): Parser
    requires p.index <= |b| + 1
  {
    if p.index == |b| then
      if c != '\r' then Fail(p) else p.(index := p.index + 1)
    else if p.index == |b| + 1 then
      if c != '\n' then Fail(p) else To(Emit(p.(index := 0), OnPartDataBegin), HeaderFieldStart)
    else if c != b[p.index] then Fail(p)
    else p.(index := p.index + 1)
  }

  function InHeaderField(p: Parser, c: byte): Parser {
    if c == '\r' then To(p, HeadersAlmostDone).(pend := [])
    else if c == ':' then To(Emit(p, OnHeaderField(p.pend)), HeaderValueStart).(pend := [])
    else if !IsFieldChar(c) then Fail(p)
    else p.(pend := p.pend + [c])
  }

  function InHeaderValue(p: Parser, c: byte): Parser {
    if c == '\r' then To(Emit(p, OnHeaderValue([])), HeaderValueAlmostDone)
    else Emit(p, OnHeaderValue([c]))
  }

  function InPartData(p: Parser, c: byte): Parser {
    if c == '\r' then To(Emit(p, OnPartData([])), PartDataAlmostBoundary)
    else Emit(p, OnPartData([c]))
  }

  /** What a mismatch gives back to the body. */
  function Held(b: bytes, p: Parser): bytes
    requires p.state == PartDataBoundary ==> p.index <= |b|
  {
    if p.state == PartDataBoundary then "\r\n" + b[..p.index] else "\r"
  }

  /** A mismatch in a boundary: the held bytes are body, and c is read again. */
  function GiveBack(b: bytes, p: Parser): Parser
    requires p.state == PartDataBoundary ==> p.index <= |b|
  {
    To(Emit(p, OnPartData(Held(b, p))), PartData)
  }

  ghost predicate Inv(b: bytes, p: Parser) {
    && (p.state == StartBoundary ==> p.index <= |b| + 1)
    && (p.state == PartDataBoundary ==> p.index < |b|)
    && (p.state != HeaderField ==> p.pend == [])
  }

  function React(b: bytes, p: Parser, c: byte): Parser
    requires Inv(b, p)
  {
    match p.state
    case Start => InStartBoundary(b, To(p, StartBoundary).(index := 0), c)
    case StartBoundary => InStartBoundary(b, p, c)
    case HeaderFieldStart => InHeaderField(To(p, HeaderField), c)
    case HeaderField => InHeaderField(p, c)
    case HeadersAlmostDone => if c != '\n' then Fail(p) else To(p, PartDataStart)
    case HeaderValueStart => if c == ' ' then p else InHeaderValue(To(p, HeaderValue), c)
    case HeaderValue => InHeaderValue(p, c)
    case HeaderValueAlmostDone => if c != '\n' then Fail(p) else To(p, HeaderFieldStart)
    case PartDataStart => InPartData(To(Emit(p, OnHeadersComplete), PartData), c)
    case PartData => InPartData(p, c)
    case PartDataAlmostBoundary =>
      if c == '\n' then To(p, PartDataBoundary).(index := 0) else InPartData(GiveBack(b, p), c)
    case PartDataBoundary =>
      if c != b[p.index] then InPartData(GiveBack(b, p), c)
      else if p.index + 1 == |b| then To(Emit(p.(index := |b|), OnPartDataEnd), PartDataAlmostEnd)
      else p.(index := p.index + 1)
    case PartDataAlmostEnd =>
      if c == '-' then To(p, PartDataFinalHyphen) else if c == '\r' then To(p, PartDataEnd) else Fail(p)
    case PartDataFinalHyphen => if c == '-' then To(Emit(p, OnBodyEnd), End) else Fail(p)
    case PartDataEnd => if c == '\n' then To(Emit(p, OnPartDataBegin), HeaderFieldStart) else Fail(p)
    case End => p
  }

  /** Reads one byte.  A parser that has failed reads nothing more. */
  function Step(b: bytes, p: Parser, c: byte): (r: Parser)
    requires b != [] && Inv(b, p)
    ensures Inv(b, r)
  {
    if !p.ok then p
    else
      var r := React(b, p, c);
      if r.ok then r.(used := p.used + 1) else r
  }

  function Run(b: bytes, p: Parser, s: bytes): (r: Parser)
    requires b != [] && Inv(b, p)
    ensures Inv(b, r)
    decreases s
  {
    if s == [] then p else Run(b, Step(b, p, s[0]), s[1..])
  }

  /** At the end of a buffer, a header name read so far is reported. */
  function Flush(p: Parser): Parser {
    if p.pend == [] then p else Emit(p, OnHeaderField(p.pend)).(pend := [])
  }

  /** One call of multipart_parser_execute. */
  function Call(b: bytes, p: Parser, s: bytes): (r: Parser)
    requires b != [] && Inv(b, p)
    ensures Inv(b, r) && r.pend == []
  {
    Flush(Run(b, p, s))
  }

  function Calls(b: bytes, p: Parser, parts: seq<bytes>): (r: Parser)
    requires b != [] && Inv(b, p)
    ensures Inv(b, r)
    decreases parts
  {
    if parts == [] then p else Calls(b, Call(b, p, parts[0]), parts[1..])
  }

  lemma {:induction false} RunAppend(b: bytes, p: Parser, x: bytes, y: bytes)
    requires b != [] && Inv(b, p)
    ensures Run(b, p, x + y) == Run(b, Run(b, p, x), y)
    decreases x
  {
    if x == [] {
      assert x + y == y;
    } else {
      assert (x + y)[1..] == x[1..] + y;
      RunAppend(b, Step(b, p, x[0]), x[1..], y);
    }
  }

  lemma {:induction false} RunFailed(b: bytes, p: Parser, s: bytes)
    requires b != [] && Inv(b, p) && !p.ok
    ensures Run(b, p, s) == p
    decreases s
  {
    if s != [] { RunFailed(b, p, s[1..]); }
  }
}
