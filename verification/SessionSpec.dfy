/**
 An HTTP session as a machine that is driven by reads: each read appends to the session's buffer and runs
 the states until they have to wait.  The parser, the copy it works on, and the request
 handlers are parameters.
 */
module SessionSpec {
  import opened Bytes
  import opened PicoSpec

  datatype Phase =
    | Idle | WaitingForHeaders | ProcessingHeaders | WaitingForBody | ProcessingRequest | Responding | ShuttingDown

  /** What the parser returns: its int result and, if that is positive, the request. */
  datatype Parsed = Parsed(res: int, request: Request)

  /** What a request handler is given: the bytes of the head, where its parts are, and the body. */
  datatype Call = Call(head: bytes, request: Request, body: bytes)

  /**
   `copy` is the strndup of the read buffer that the parser works on; `respond` is the response to a request, and
   `reject` the response to what is none.  Both may depend on the requests that came before, and so on anything that
   differs from one request to the next: the date, and what is stored.
   */
  datatype Env = Env(
    copy: bytes -> bytes,
    parse: (bytes, nat) -> Parsed,
    respond: (seq<Call>, Call, bool) -> bytes,
    reject: (seq<Call>, bool) -> bytes)

  /**
   The fields of a session.  Those from `head` to `body` belong to its current request; the request's slices lie in
   the first `headLen` bytes of `head`, the rest of which is what else was in the buffer.  The last three
   record what it has done: the bytes it has taken out of its buffer, the requests it
   has handed to a handler, and the responses it has sent.
   */
  datatype Session = Session(
    phase: Phase,
    wait: bool,
    readBuf: bytes,
    lastHeadersLen: nat,
    keepAlive: bool,
    head: bytes,
    headLen: nat,
    request: Request,
    bodyLen: int,
    body: bytes,
    response: bytes,
    closing: bool,
    taken: bytes,
    handled: seq<Call>,
    sent: seq<bytes>)

  const NO_REQUEST := Request(Slice(0, 0), Slice(0, 0), 0, [])

  const OPENED := Session(Idle, true, [], 0, true, [], 0, NO_REQUEST, 0, [], [], false, [], [], [])

  // ----- Headers that matter to the session

  function DigitsValue(s: bytes, i: nat, v: nat): nat
    requires i <= |s|
    decreases |s| - i
  {
    if i < |s| && IsDigit(s[i]) then DigitsValue(s, i + 1, v * 10 + (s[i] as int - '0' as int)) else v
  }

  /** strtol in base ten, without its range check: it reads on from i, not minding where a header value ends. */
  function Strtol(s: bytes, i: nat): int
    requires i <= |s|
    decreases |s| - i
  {
    if i == |s| then 0
    else if IsSpace(s[i]) then Strtol(s, i + 1)
    else if s[i] == '-' then 0 - DigitsValue(s, i + 1, 0) as int
    else if s[i] == '+' then DigitsValue(s, i + 1, 0)
    else DigitsValue(s, i, 0)
  }

  const LONG_MAX := 0x7FFF_FFFF_FFFF_FFFF

  /** The long that strtol returns, which stays in its range, truncated to the int it is assigned to. */
  function ToInt(v: int): (r: int)
    ensures -0x8000_0000 <= r < 0x8000_0000
    ensures -0x8000_0000_0000_0000 <= v < 0x8000_0000_0000_0000 ==>
              v == v / 0x1_0000_0000 * 0x1_0000_0000 + r || v == (v / 0x1_0000_0000 + 1) * 0x1_0000_0000 + r
    ensures v >= 0x8000_0000_0000_0000 ==> r == -1
    ensures v < -0x8000_0000_0000_0000 ==> r == 0
  {
    var long := if v > LONG_MAX then LONG_MAX else if v < -LONG_MAX - 1 then -LONG_MAX - 1 else v;
    var low := long % 0x1_0000_0000;
    if low >= 0x8000_0000 then low - 0x1_0000_0000 else low
  }

  /** CMP_HEADER: the name is a beginning of the literal; a continuation line has the empty name. */
  predicate Named(head: bytes, h: Header, literal: bytes)
    requires h.Within(|head|)
  {
    h.Continuation? || h.name.Of(head) <= literal
  }

  predicate IsConnection(head: bytes, h: Header)
    requires h.Within(|head|)
  {
    Named(head, h, "Connection")
  }

  predicate IsContentLength(head: bytes, h: Header)
    requires h.Within(|head|)
  {
    !IsConnection(head, h) && Named(head, h, "Content-Length")
  }

  predicate AsksToKeep(value: bytes) {
    value != [] && (value[0] == 'k' || value[0] == 'K')
  }

  /** The last Connection header decides; without one, nothing changes. */
  function KeepAliveAfter(head: bytes, hs: seq<Header>, keep: bool): bool
    requires forall h :: h in hs ==> h.Within(|head|)
  {
    if hs == [] then keep
    else
      var h := hs[|hs| - 1];
      if IsConnection(head, h) then AsksToKeep(h.value.Of(head)) else KeepAliveAfter(head, hs[..|hs| - 1], keep)
  }

  /** Likewise for Content-Length. */
  function BodyLenAfter(head: bytes, hs: seq<Header>, len: int): int
    requires forall h :: h in hs ==> h.Within(|head|)
  {
    if hs == [] then len
    else
      var h := hs[|hs| - 1];
      if IsContentLength(head, h) then ToInt(Strtol(head, h.value.lo)) else BodyLenAfter(head, hs[..|hs| - 1], len)
  }

  // ----- The states

  ghost predicate ValidEnv(env: Env) {
    && (forall s :: |env.copy(s)| == |s|)
    && (forall s, n :: env.parse(s, n).res <= |s|)
    && (forall s, n :: env.parse(s, n).res > 0 ==>
          forall h :: h in env.parse(s, n).request.headers ==> h.Within(env.parse(s, n).res))
  }

  /** While a session waits, it is not in the middle of a request it could go on with. */
  ghost predicate Inv(s: Session) {
    && s.headLen <= |s.head|
    && (s.phase == ProcessingHeaders ==> forall h :: h in s.request.headers ==> h.Within(|s.head|))
    && (s.phase == ShuttingDown ==> !s.keepAlive) && (s.closing ==> s.phase == ShuttingDown)
  }

  function WaitForHeaders(env: Env, s: Session): Session
    requires ValidEnv(env)
  {
    var buf := env.copy(s.readBuf);
    var p := env.parse(buf, s.lastHeadersLen);
    if p.res > 0 then
      s.(phase := ProcessingHeaders, head := buf, headLen := p.res, request := p.request,
         readBuf := s.readBuf[p.res..], taken := s.taken + s.readBuf[..p.res])
    else if p.res == -2 then
      s.(head := [], headLen := 0, request := NO_REQUEST, bodyLen := 0, body := [], lastHeadersLen := |s.readBuf|, wait := true)
    else
      s.(phase := Responding, response := env.reject(s.handled, s.keepAlive), keepAlive := false)
  }

  function ProcessHeaders(s: Session): Session
    requires s.phase == ProcessingHeaders && Inv(s)
  {
    var hs := s.request.headers;
    s.(phase := WaitingForBody,
       keepAlive := KeepAliveAfter(s.head, hs, s.keepAlive),
       bodyLen := BodyLenAfter(s.head, hs, s.bodyLen))
  }

  function WaitForBody(s: Session): Session {
    if s.bodyLen - |s.readBuf| != 0 then s.(wait := true)
    else s.(phase := ProcessingRequest, body := s.readBuf, readBuf := [], taken := s.taken + s.readBuf)
  }

  function ProcessRequest(env: Env, s: Session): Session
    requires s.headLen <= |s.head|
  {
    var call := Call(s.head[..s.headLen], s.request, s.body);
    s.(phase := Responding, handled := s.handled + [call], response := env.respond(s.handled, call, s.keepAlive))
  }

  function Respond(s: Session): Session {
    var r := s.(sent := s.sent + [s.response], response := [],
                head := [], headLen := 0, request := NO_REQUEST, bodyLen := 0, body := []);
    if r.keepAlive then r.(phase := Idle, wait := true) else r.(phase := ShuttingDown)
  }

  function Dispatch(env: Env, s: Session): Session
    requires ValidEnv(env) && Inv(s)
  {
    match s.phase
    case Idle => s.(phase := WaitingForHeaders)
    case WaitingForHeaders => WaitForHeaders(env, s)
    case ProcessingHeaders => ProcessHeaders(s)
    case WaitingForBody => WaitForBody(s)
    case ProcessingRequest => ProcessRequest(env, s)
    case Responding => Respond(s)
    case ShuttingDown => s.(closing := true, wait := true)
  }

  /** Each state either waits or leads to a lower one. */
  function Rank(p: Phase): nat {
    match p
    case Idle => 6
    case WaitingForHeaders => 5
    case ProcessingHeaders => 4
    case WaitingForBody => 3
    case ProcessingRequest => 2
    case Responding => 1
    case ShuttingDown => 0
  }

  lemma DispatchProgress(env: Env, s: Session)
    requires ValidEnv(env) && Inv(s) && !s.wait
    ensures var r := Dispatch(env, s);
            Inv(r) && (r.wait || Rank(r.phase) < Rank(s.phase))
  {
    if s.phase == WaitingForHeaders {
      var p := env.parse(env.copy(s.readBuf), s.lastHeadersLen);
      if p.res > 0 {
        forall h | h in p.request.headers ensures h.Within(|s.readBuf|) {
          assert h.Within(p.res);
        }
      }
    }
  }

  /** HttpSession::Routine */
  function Routine(env: Env, s: Session): (r: Session)
    requires ValidEnv(env) && Inv(s) && !s.wait
    ensures Inv(r) && r.wait
    decreases Rank(s.phase)
  {
    DispatchProgress(env, s);
    var r := Dispatch(env, s);
    if r.wait then r else Routine(env, r)
  }

  lemma RoutineStep(env: Env, s: Session)
    requires ValidEnv(env) && Inv(s) && !s.wait
    ensures var r := Dispatch(env, s);
            Inv(r) && Routine(env, s) == if r.wait then r else Routine(env, r)
  {
    DispatchProgress(env, s);
  }

  function OnRead(env: Env, s: Session, chunk: bytes): (r: Session)
    requires ValidEnv(env) && Inv(s)
    ensures Inv(r) && r.wait
  {
    Routine(env, s.(readBuf := s.readBuf + chunk, wait := false))
  }

  function OnReads(env: Env, s: Session, chunks: seq<bytes>): (r: Session)
    requires ValidEnv(env) && Inv(s)
    ensures Inv(r)
    decreases chunks
  {
    if chunks == [] then s else OnReads(env, OnRead(env, s, chunks[0]), chunks[1..])
  }
}
