/**
 One request of a session: however its head and its body are cut into reads, the session answers once, on the last
 read, and hands its handler the same request.  For the first request this holds without condition.  For a later one
 it holds exactly if the first read is shorter than the head, or a scan that begins where the stale
 last_headers_len, which is never cleared, makes it begin still finds a blank line.
 */
module OneRequest {
  import opened Bytes
  import opened PicoSpec
  import opened PicoLaws
  import opened SessionSpec
  import opened SessionLaws

  const MAX_HTTP_HEADERS := 100

  /** The environment the server provides: strndup, and the request parser. */
  ghost predicate RealEnv(env: Env) {
    && ValidEnv(env)
    && (forall s: bytes, i: nat :: i <= |s| && '\0' !in s[..i] ==> env.copy(s)[..i] == s[..i])
    && (forall s: bytes, n: nat :: ScanFrom(n) <= |s| ==>
          match PhrParseRequest(s, MAX_HTTP_HEADERS, n)
          case Ok(res, request) => env.parse(s, n) == Parsed(res, request)
          case Partial => env.parse(s, n).res == -2
          case Bad => env.parse(s, n).res == -1)
  }

  /** strndup of a buffer: what follows a NUL is not copied. */
  function Strndup(s: bytes): (r: bytes)
    ensures |r| == |s|
  {
    if s == [] then [] else if s[0] == '\0' then seq(|s|, _ => '\0') else [s[0]] + Strndup(s[1..])
  }

  function Parse(s: bytes, lastLen: nat): Parsed {
    if ScanFrom(lastLen) > |s| then Parsed(-1, NO_REQUEST)
    else
      match PhrParseRequest(s, MAX_HTTP_HEADERS, lastLen)
      case Ok(res, request) => Parsed(res, request)
      case Partial => Parsed(-2, NO_REQUEST)
      case Bad => Parsed(-1, NO_REQUEST)
  }

  lemma {:induction false} StrndupPrefix(s: bytes, i: nat)
    requires i <= |s| && '\0' !in s[..i]
    ensures Strndup(s)[..i] == s[..i]
  {
    if i > 0 {
      assert s[..i][0] == s[0] && s[..i][1..] == s[1..][..i - 1];
      StrndupPrefix(s[1..], i - 1);
      assert s[..i] == [s[0]] + s[1..][..i - 1];
    }
  }

  /** The server provides such an environment, whatever its handlers answer. */
  lemma ServerEnv(respond: (seq<Call>, Call, bool) -> bytes, reject: (seq<Call>, bool) -> bytes)
    ensures RealEnv(Env(Strndup, Parse, respond, reject))
  {
    hide PhrParseRequest, ParseRequest;
    var env := Env(Strndup, Parse, respond, reject);
    forall s: bytes, n: nat ensures env.parse(s, n).res <= |s| {
      ParsesWithin(s, n);
    }
    forall s: bytes, n: nat | env.parse(s, n).res > 0
      ensures forall h :: h in env.parse(s, n).request.headers ==> h.Within(env.parse(s, n).res)
    {
      ParsesWithin(s, n);
    }
    forall s: bytes, i: nat | i <= |s| && '\0' !in s[..i] ensures |env.copy(s)| == |s| && env.copy(s)[..i] == s[..i] {
      StrndupPrefix(s, i);
    }
  }

  lemma ParsesWithin(s: bytes, n: nat)
    ensures var p := Parse(s, n);
            p.res <= |s| && (p.res > 0 ==> forall h :: h in p.request.headers ==> h.Within(p.res))
  {
    hide ParseRequest, IsComplete;
  }

  /** A head, and a body of the length that the head announces. */
  ghost predicate Complete(head: bytes, request: Request, body: bytes) {
    && ParseRequest(head, MAX_HTTP_HEADERS) == Ok(|head|, request)
    && BodyLenAfter(head, request.headers, 0) == |body|
  }

  /** What follows the head can matter to its headers only if they announce no body. */
  lemma {:induction false} HeadersSettled(head: bytes, buf: bytes, hs: seq<Header>, keep: bool)
    requires head <= buf && head != [] && head[|head| - 1] == '\n'
    requires forall h :: h in hs ==> h.Within(|head|) && h.Within(|buf|)
    ensures KeepAliveAfter(buf, hs, keep) == KeepAliveAfter(head, hs, keep)
    ensures BodyLenAfter(head, hs, 0) != 0 ==> BodyLenAfter(buf, hs, 0) == BodyLenAfter(head, hs, 0)
    decreases hs
  {
    if hs != [] {
      var h, rest := hs[|hs| - 1], hs[..|hs| - 1];
      assert h in hs;
      assert h.value.Of(buf) == h.value.Of(head) && (h.Field? ==> h.name.Of(buf) == h.name.Of(head));
      LengthSettled(head, buf, h.value.lo);
      HeadersSettled(head, buf, rest, keep);
    }
  }

  /** A number that is not 0 has been read within the head. */
  lemma LengthSettled(head: bytes, buf: bytes, i: nat)
    requires head <= buf && head != [] && head[|head| - 1] == '\n' && i <= |head|
    ensures ToInt(Strtol(head, i)) != 0 ==> Strtol(buf, i) == Strtol(head, i)
  {
    assert head + buf[|head|..] == buf;
    if k :| i <= k < |head| && !IsSpace(head[k]) {
      StrtolStops(head, buf[|head|..], i, k);
    } else {
      StrtolRunsOff(head, i, []);
    }
  }

  /** What the session makes of Connection headers. */
  ghost function Keeps(head: bytes, request: Request): bool
    requires ParseRequest(head, MAX_HTTP_HEADERS) == Ok(|head|, request)
  {
    KeepAliveAfter(head, request.headers, true)
  }

  /** A session between two requests. */
  ghost predicate Ready(o: Session) {
    o.phase == Idle && o.wait && o.readBuf == [] && o.keepAlive && o.bodyLen == 0 && Inv(o)
  }

  /** The check for a complete head lets the buffer through to the parser. */
  predicate LetThrough(buf: bytes, lastLen: nat)
    requires ScanFrom(lastLen) <= |buf|
  {
    lastLen == 0 || IsComplete(buf, lastLen).Ok?
  }

  /** Nothing has happened yet but that bytes have arrived. */
  ghost predicate Waits(o: Session, s: Session) {
    s.wait && s.sent == o.sent && s.handled == o.handled && Inv(s)
  }

  /** A session that waits for the end of a head, in a buffer of m bytes. */
  ghost predicate InHead(o: Session, s: Session, all: bytes, m: nat)
    requires m <= |all|
  {
    && Waits(o, s) && s.phase == WaitingForHeaders && s.readBuf == all[..m]
    && s.keepAlive && s.bodyLen == 0 && s.lastHeadersLen <= m
  }

  /** A session that has overlooked the end of the head: it is in the buffer, and not where the session looks from now on. */
  ghost predicate Overlooked(o: Session, s: Session, head: bytes, body: bytes, m: nat)
    requires |head| <= m <= |head| + |body|
  {
    InHead(o, s, head + body, m) && s.lastHeadersLen == m && '\0' !in body
  }

  /** The state of a session that was o, has read the first m bytes of the request, and waits for more. */
  ghost predicate HasRead(o: Session, s: Session, head: bytes, request: Request, body: bytes, keep: bool, m: nat) {
    && m < |head| + |body| && Waits(o, s)
    && if m == 0 then s == o
       else if m < |head| then InHead(o, s, head + body, m)
       else
         || (s.readBuf == body[..m - |head|] && InBody(s, head, request, body, keep))
         || (Overlooked(o, s, head, body, m) && IsComplete(head + body, m).Ok?)
  }

  ghost predicate InBody(s: Session, head: bytes, request: Request, body: bytes, keep: bool) {
    && s.phase == WaitingForBody && s.headLen == |head| && head <= s.head && s.request == request
    && s.keepAlive == keep && s.bodyLen == |body|
  }

  /** The request has been answered, nothing is left over, and the session is ready for the next one or closing. */
  ghost predicate Answered(env: Env, o: Session, s: Session, head: bytes, request: Request, body: bytes, keep: bool) {
    var call := Call(head, request, body);
    && s.handled == o.handled + [call] && s.sent == o.sent + [env.respond(o.handled, call, keep)] && s.readBuf == []
    && if keep then Ready(s) else s.phase == ShuttingDown && s.closing
  }

  /** All of the body is there. */
  lemma BodyArrived(env: Env, o: Session, s: Session, head: bytes, request: Request, body: bytes, keep: bool)
    requires ValidEnv(env) && Inv(s) && !s.wait && s.sent == o.sent && s.handled == o.handled
    requires s.readBuf == body && InBody(s, head, request, body, keep)
    ensures Answered(env, o, Routine(env, s), head, request, body, keep)
    ensures Routine(env, s).lastHeadersLen == s.lastHeadersLen
  {
    hide Routine, ValidEnv;
    var call := Call(head, request, body);
    assert s.head[..s.headLen] == head;
    RoutineStep(env, s);
    var s1 := Dispatch(env, s);
    RoutineStep(env, s1);
    var s2 := Dispatch(env, s1);
    assert s2.handled == o.handled + [call];
    RoutineStep(env, s2);
    var s3 := Dispatch(env, s2);
    assert s3.sent == o.sent + [env.respond(o.handled, call, keep)];
    if !keep { RoutineStep(env, s3); }
  }

  /** The copy of what begins without a NUL begins with the same bytes. */
  lemma Copied(env: Env, s: bytes, n: nat)
    requires ValidEnv(env) && RealEnv(env) && n <= |s| && '\0' !in s[..n]
    ensures |env.copy(s)| == |s| && s[..n] <= env.copy(s)
  {
    assert env.copy(s)[..n] == s[..n];
  }

  lemma ParsedBy(env: Env, s: bytes, n: nat)
    requires ValidEnv(env) && RealEnv(env) && ScanFrom(n) <= |s|
    ensures match PhrParseRequest(s, MAX_HTTP_HEADERS, n)
            case Ok(res, request) => env.parse(s, n) == Parsed(res, request)
            case Partial => env.parse(s, n).res == -2
            case Bad => env.parse(s, n).res == -1
  {
  }

  /** There is no NUL in a head. */
  lemma HeadHasNoNul(head: bytes, request: Request)
    requires ParseRequest(head, MAX_HTTP_HEADERS) == Ok(|head|, request)
    ensures '\0' !in head
  {
    hide ParseRequest;
    var e := RequestTidy(head, MAX_HTTP_HEADERS);
  }

  /** The parser has not yet seen the whole head. */
  lemma HeadPending(env: Env, s: Session, head: bytes, request: Request, m: nat)
    requires ValidEnv(env) && RealEnv(env) && ParseRequest(head, MAX_HTTP_HEADERS) == Ok(|head|, request)
    requires m < |head| && s.readBuf == head[..m] && ScanFrom(s.lastHeadersLen) <= m
    ensures WaitForHeaders(env, s) == Unparsed(s)
  {
    hide ParseRequest, PhrParseRequest, RealEnv;
    HeadHasNoNul(head, request);
    assert s.readBuf[..m] == s.readBuf;
    Copied(env, s.readBuf, m);
    assert env.copy(s.readBuf) == s.readBuf;
    ParsedBy(env, s.readBuf, s.lastHeadersLen);
    HeadInPieces(head, MAX_HTTP_HEADERS, m, s.lastHeadersLen);
  }

  /** The session after the parser has answered "incomplete". */
  function Unparsed(s: Session): Session {
    s.(head := [], headLen := 0, request := NO_REQUEST, bodyLen := 0, body := [], lastHeadersLen := |s.readBuf|, wait := true)
  }

  /** The session after the parser has found the head in `buf`. */
  function HeadTaken(s: Session, buf: bytes, head: bytes, request: Request): Session
    requires |head| <= |s.readBuf|
  {
    s.(phase := ProcessingHeaders, head := buf, headLen := |head|, request := request,
       readBuf := s.readBuf[|head|..], taken := s.taken + head)
  }

  /** The parser sees the whole head, whatever follows it. */
  lemma HeadParsed(env: Env, s: Session, head: bytes, request: Request)
    requires ValidEnv(env) && RealEnv(env) && ParseRequest(head, MAX_HTTP_HEADERS) == Ok(|head|, request)
    requires head <= s.readBuf && ScanFrom(s.lastHeadersLen) <= |s.readBuf|
    requires s.lastHeadersLen <= |head| || ('\0' !in s.readBuf && LetThrough(s.readBuf, s.lastHeadersLen))
    ensures var buf := env.copy(s.readBuf);
            head <= buf && |buf| == |s.readBuf| && WaitForHeaders(env, s) == HeadTaken(s, buf, head, request)
  {
    hide ParseRequest, IsComplete, RealEnv;
    HeadHasNoNul(head, request);
    var buf := env.copy(s.readBuf);
    assert s.readBuf[..|head|] == head && s.readBuf[..|s.readBuf|] == s.readBuf && buf[..|buf|] == buf;
    Copied(env, s.readBuf, |head|);
    ParsedBy(env, buf, s.lastHeadersLen);
    RequestStable(head, buf, MAX_HTTP_HEADERS);
    if s.lastHeadersLen <= |head| {
      HeadInPieces(buf, MAX_HTTP_HEADERS, |buf|, s.lastHeadersLen);
    } else {
      Copied(env, s.readBuf, |s.readBuf|);
      assert buf == s.readBuf;
    }
  }

  /** The head is in the buffer, and the check for it says no. */
  lemma HeadNotSeen(env: Env, s: Session)
    requires ValidEnv(env) && RealEnv(env) && '\0' !in s.readBuf
    requires ScanFrom(s.lastHeadersLen) <= |s.readBuf| && !LetThrough(s.readBuf, s.lastHeadersLen)
    ensures WaitForHeaders(env, s) ==
            if IsComplete(s.readBuf, s.lastHeadersLen).Partial? then Unparsed(s)
            else s.(phase := Responding, response := env.reject(s.handled, s.keepAlive), keepAlive := false)
  {
    hide ParseRequest, IsComplete, RealEnv;
    var n := |s.readBuf|;
    assert s.readBuf[..n] == s.readBuf;
    Copied(env, s.readBuf, n);
    assert env.copy(s.readBuf) == s.readBuf;
    ParsedBy(env, s.readBuf, s.lastHeadersLen);
  }

  /** The head is there, and perhaps a part of the body. */
  lemma HeadArrived(env: Env, o: Session, s: Session, head: bytes, request: Request, body: bytes, m: nat)
    requires ValidEnv(env) && RealEnv(env) && Complete(head, request, body) && Inv(s)
    requires !s.wait && s.sent == o.sent && s.handled == o.handled
    requires |head| <= m <= |head| + |body| && s.readBuf == (head + body)[..m]
    requires s.phase == WaitingForHeaders && s.keepAlive && s.bodyLen == 0 && ScanFrom(s.lastHeadersLen) <= m
    requires s.lastHeadersLen <= |head| || ('\0' !in body && LetThrough(s.readBuf, s.lastHeadersLen))
    ensures var r, keep := Routine(env, s), Keeps(head, request);
            if m < |head| + |body| then HasRead(o, r, head, request, body, keep, m) && r.phase == WaitingForBody
            else Answered(env, o, r, head, request, body, keep)
    ensures Routine(env, s).lastHeadersLen == s.lastHeadersLen
  {
    hide ParseRequest, RealEnv, ValidEnv, Routine, KeepAliveAfter, BodyLenAfter, IsComplete;
    var keep := Keeps(head, request);
    HeadHasNoNul(head, request);
    HeadParsed(env, s, head, request);
    assert s.readBuf[|head|..] == body[..m - |head|];
    RoutineStep(env, s);
    var s1 := Dispatch(env, s);
    var e := RequestTidy(head, MAX_HTTP_HEADERS);
    HeadersSettled(head, s1.head, request.headers, true);
    if body == [] { assert s1.head == head; }
    RoutineStep(env, s1);
    var s2 := Dispatch(env, s1);
    assert InBody(s2, head, request, body, keep);
    if m == |head| + |body| {
      assert body[..|body|] == body;
      BodyArrived(env, o, s2, head, request, body, keep);
    } else {
      RoutineStep(env, s2);
    }
  }

  /** A scan that begins within three bytes behind the head, or before, finds the blank line. */
  lemma FoundInHead(head: bytes, request: Request, buf: bytes, lastLen: nat)
    requires ParseRequest(head, MAX_HTTP_HEADERS) == Ok(|head|, request) && head <= buf && lastLen <= |head|
    ensures LetThrough(buf, lastLen)
  {
    hide ParseRequest, BlankLine;
    RequestStable(head, buf, MAX_HTTP_HEADERS);
    var e := RequestTidy(buf, MAX_HTTP_HEADERS);
    BlankLineFound(buf, ScanFrom(lastLen), 0, e, |head|);
  }

  /**
   A session whose buffer holds the first n bytes of the request, the head among them, sees the head: at once, or with
   the next read, for which it looks at the last three of them again.
   */
  predicate SeesAt(all: bytes, n: nat, lastLen: nat)
    requires ScanFrom(lastLen) <= n <= |all|
  {
    || LetThrough(all[..n], lastLen)
    || (IsComplete(all[..n], lastLen).Partial? && n < |all| && LetThrough(all, n))
  }

  /** If the scan begins in what was there before, this is so if it finds a blank line in all of the request. */
  lemma SeesInTime(all: bytes, n: nat, lastLen: nat)
    requires lastLen <= n <= |all|
    ensures SeesAt(all, n, lastLen) <==> LetThrough(all, lastLen)
  {
    hide IsComplete;
    ScannedInPieces(all[..n], all, lastLen);
    if n == |all| { assert all[..n] == all; }
  }

  /** The buffer holds the head, which the session sees now or will see in time. */
  lemma AtHead(env: Env, o: Session, w: Session, head: bytes, request: Request, body: bytes, n: nat)
    requires ValidEnv(env) && RealEnv(env) && Complete(head, request, body) && Inv(w)
    requires !w.wait && w.sent == o.sent && w.handled == o.handled
    requires |head| <= n <= |head| + |body| && w.readBuf == (head + body)[..n]
    requires w.phase == WaitingForHeaders && w.keepAlive && w.bodyLen == 0 && ScanFrom(w.lastHeadersLen) <= n
    requires ('\0' in body ==> w.lastHeadersLen <= |head|) && SeesAt(head + body, n, w.lastHeadersLen)
    ensures var r, keep := Routine(env, w), Keeps(head, request);
            if n < |head| + |body| then
              HasRead(o, r, head, request, body, keep, n) && (w.lastHeadersLen <= |head| ==> r.phase == WaitingForBody)
            else Answered(env, o, r, head, request, body, keep)
  {
    hide ParseRequest, RealEnv, ValidEnv, Routine, KeepAliveAfter, BodyLenAfter, Answered, InBody, IsComplete;
    if w.lastHeadersLen <= |head| {
      HeadArrived(env, o, w, head, request, body, n);
    } else if LetThrough(w.readBuf, w.lastHeadersLen) {
      HeadArrived(env, o, w, head, request, body, n);
    } else {
      HeadHasNoNul(head, request);
      HeadNotSeen(env, w);
      RoutineStep(env, w);
    }
  }

  /** Whether the session sees the head, if its first read is of the given length. */
  ghost predicate Sees(o: Session, head: bytes, body: bytes, first: nat)
    requires Scannable(o, head, body, first)
  {
    first < |head| || SeesAt(head + body, first, o.lastHeadersLen)
  }

  /**
   The check for a complete head begins inside the buffer, or at its end.  With a NUL in the body, it does not go beyond
   the NUL, where the copy of the buffer ends.
   */
  ghost predicate Scannable(o: Session, head: bytes, body: bytes, first: nat) {
    o.lastHeadersLen <= first + 3 && first <= |head| + |body| && ('\0' in body ==> o.lastHeadersLen <= |head|)
  }

  /** A session that has read m bytes has not overlooked the end of the head. */
  predicate Steady(s: Session, head: bytes, m: nat) {
    m >= |head| ==> s.phase == WaitingForBody
  }

  /** One more read of a piece of the request. */
  lemma OneRead(env: Env, o: Session, s: Session, head: bytes, request: Request, body: bytes, m: nat, chunk: bytes)
    requires ValidEnv(env) && RealEnv(env) && Complete(head, request, body)
    requires Ready(o) && HasRead(o, s, head, request, body, Keeps(head, request), m) && chunk != []
    requires m == 0 ==> Scannable(o, head, body, |chunk|) && Sees(o, head, body, |chunk|)
    requires (head + body)[..m] + chunk <= head + body
    ensures var r, keep, n := OnRead(env, s, chunk), Keeps(head, request), m + |chunk|;
            if n < |head| + |body| then
              && HasRead(o, r, head, request, body, keep, n)
              && (o.lastHeadersLen <= |head| && Steady(s, head, m) ==> Steady(r, head, n))
            else Answered(env, o, r, head, request, body, keep)
  {
    hide ParseRequest, RealEnv, ValidEnv, Routine, KeepAliveAfter, BodyLenAfter, Answered, IsComplete, LetThrough;
    var n, keep := m + |chunk|, Keeps(head, request);
    var t := s.(readBuf := s.readBuf + chunk, wait := false);
    assert (head + body)[..m] + chunk == (head + body)[..n];
    if m > 0 && s.phase == WaitingForBody {
      MoreBody(env, o, s, head, request, body, m, chunk);
    } else {
      var w := t.(phase := WaitingForHeaders);
      assert w.readBuf == (head + body)[..n] by { if m == 0 { assert (head + body)[..0] == []; } }
      if t.phase == Idle { RoutineStep(env, t); }
      assert Routine(env, t) == Routine(env, w);
      if n < |head| {
        assert w.readBuf == head[..n];
        HeadPending(env, w, head, request, n);
        RoutineStep(env, w);
        assert HasRead(o, Routine(env, w), head, request, body, keep, n);
      } else {
        if m > 0 {
          SeesLater(o, s, head, request, body, m);
          SeesInTime(head + body, n, w.lastHeadersLen);
        }
        AtHead(env, o, w, head, request, body, n);
      }
    }
  }

  /** A session that has already read something sees the head. */
  lemma SeesLater(o: Session, s: Session, head: bytes, request: Request, body: bytes, m: nat)
    requires Complete(head, request, body) && HasRead(o, s, head, request, body, Keeps(head, request), m)
    requires 0 < m && s.phase == WaitingForHeaders
    ensures ('\0' in body ==> s.lastHeadersLen <= |head|) && s.lastHeadersLen <= m && LetThrough(head + body, s.lastHeadersLen)
  {
    hide ParseRequest, BodyLenAfter, KeepAliveAfter, IsComplete;
    if m < |head| { FoundInHead(head, request, head + body, s.lastHeadersLen); }
  }

  lemma BodyGrows(head: bytes, body: bytes, m: nat, chunk: bytes)
    requires |head| <= m <= |head| + |body| && (head + body)[..m] + chunk <= head + body
    ensures m + |chunk| <= |head| + |body| && body[..m - |head|] + chunk == body[..m + |chunk| - |head|]
  {
    var all, x := (head + body)[..m] + chunk, body[..m - |head|] + chunk;
    forall k | 0 <= k < |x| ensures x[k] == body[k] {
      assert x[k] == all[|head| + k] == (head + body)[|head| + k];
    }
  }

  /** More of the body arrives. */
  lemma MoreBody(env: Env, o: Session, s: Session, head: bytes, request: Request, body: bytes, m: nat, chunk: bytes)
    requires ValidEnv(env) && RealEnv(env) && Complete(head, request, body) && chunk != []
    requires HasRead(o, s, head, request, body, Keeps(head, request), m) && 0 < m && s.phase == WaitingForBody
    requires (head + body)[..m] + chunk <= head + body
    ensures var r, keep, n := OnRead(env, s, chunk), Keeps(head, request), m + |chunk|;
            if n < |head| + |body| then HasRead(o, r, head, request, body, keep, n) && r.phase == WaitingForBody
            else Answered(env, o, r, head, request, body, keep)
  {
    hide ParseRequest, RealEnv, ValidEnv, Routine, KeepAliveAfter, BodyLenAfter, Answered;
    var n, keep := m + |chunk|, Keeps(head, request);
    var t := s.(readBuf := s.readBuf + chunk, wait := false);
    BodyGrows(head, body, m, chunk);
    if n < |head| + |body| {
      RoutineStep(env, t);
    } else {
      assert body[..|body|] == body;
      BodyArrived(env, o, t, head, request, body, keep);
    }
  }

  ghost predicate NoneEmpty(chunks: seq<bytes>) {
    forall i :: 0 <= i < |chunks| ==> chunks[i] != []
  }

  /** The reads before the last one leave the session waiting; the last one makes it answer. */
  lemma {:induction false} ReadsToTheEnd(
      env: Env, o: Session, s: Session, head: bytes, request: Request, body: bytes, m: nat, chunks: seq<bytes>)
    requires ValidEnv(env) && RealEnv(env) && Complete(head, request, body)
    requires Ready(o) && HasRead(o, s, head, request, body, Keeps(head, request), m) && chunks != []
    requires m == 0 ==> Scannable(o, head, body, |chunks[0]|) && Sees(o, head, body, |chunks[0]|)
    requires NoneEmpty(chunks) && (head + body)[..m] + Flatten(chunks) == head + body
    ensures OnReads(env, s, chunks[..|chunks| - 1]).sent == o.sent
    ensures Answered(env, o, OnReads(env, s, chunks), head, request, body, Keeps(head, request))
    decreases chunks
  {
    hide ParseRequest, RealEnv, ValidEnv, OnRead, HasRead, Answered, Inv, BodyLenAfter, KeepAliveAfter, Sees, Scannable;
    hide SeesAt, LetThrough, ScanFrom;
    var c, rest, keep := chunks[0], chunks[1..], Keeps(head, request);
    var n := m + |c|;
    Waiting(o, s, head, request, body, keep, m);
    Piece(head + body, m, c, rest);
    OneRead(env, o, s, head, request, body, m, c);
    if rest == [] {
      assert chunks[..0] == [];
    } else {
      assert rest[0] == chunks[1];
      NotYet(head + body, n, rest);
      ReadsToTheEnd(env, o, OnRead(env, s, c), head, request, body, n, rest);
      assert chunks[..|chunks| - 1][1..] == rest[..|rest| - 1];
    }
  }

  lemma Waiting(o: Session, s: Session, head: bytes, request: Request, body: bytes, keep: bool, m: nat)
    requires HasRead(o, s, head, request, body, keep, m)
    ensures s.sent == o.sent && Inv(s) && m < |head| + |body|
  {
  }

  /** The next piece of a stream of which m bytes have been read. */
  lemma Piece(all: bytes, m: nat, c: bytes, rest: seq<bytes>)
    requires m <= |all| && all[..m] + (c + Flatten(rest)) == all
    ensures m + |c| <= |all| && all[..m] + c == all[..m + |c|] && all[..m + |c|] + Flatten(rest) == all
  {
    hide Flatten;
    assert all[..m] + c + Flatten(rest) == all;
  }

  lemma NotYet(all: bytes, n: nat, rest: seq<bytes>)
    requires n <= |all| && all[..n] + Flatten(rest) == all && rest != [] && rest[0] != []
    ensures n < |all|
  {
  }

  // ----- A head that is overlooked

  /** Once it is shutting down, a session handles nothing more. */
  lemma {:induction false} NothingMore(env: Env, s: Session, chunks: seq<bytes>)
    requires ValidEnv(env) && Inv(s) && s.phase == ShuttingDown
    ensures OnReads(env, s, chunks).handled == s.handled
    decreases chunks
  {
    hide ValidEnv;
    if chunks != [] {
      RoutineStep(env, s.(readBuf := s.readBuf + chunks[0], wait := false));
      NothingMore(env, OnRead(env, s, chunks[0]), chunks[1..]);
    }
  }

  /** A session that looks for a head where there is none handles no request. */
  lemma {:induction false} NeverSeen(env: Env, o: Session, s: Session, all: bytes, m: nat, chunks: seq<bytes>)
    requires ValidEnv(env) && RealEnv(env) && Inv(s) && s.handled == o.handled && '\0' !in all
    requires m <= |all| && s.readBuf == all[..m] && all[..m] + Flatten(chunks) == all
    requires s.phase == WaitingForHeaders || (s.phase == Idle && m == 0)
    requires NoneEmpty(chunks) && (chunks != [] ==> Misses(all, m + |chunks[0]|, s.lastHeadersLen))
    ensures OnReads(env, s, chunks).handled == o.handled
    decreases chunks
  {
    hide ValidEnv, RealEnv, IsComplete, Routine;
    if chunks != [] {
      var c, rest := chunks[0], chunks[1..];
      var n := m + |c|;
      Piece(all, m, c, rest);
      var t := s.(readBuf := s.readBuf + c, wait := false);
      var w := t.(phase := WaitingForHeaders);
      if s.phase == Idle { RoutineStep(env, t); }
      HeadNotSeen(env, w);
      RoutineStep(env, w);
      var r := Dispatch(env, w);
      if r.phase == WaitingForHeaders {
        MissesOn(all, n, rest);
        NeverSeen(env, o, r, all, n, rest);
      } else {
        SentAndClosed(env, r);
        NothingMore(env, Routine(env, r), rest);
      }
    }
  }

  ghost predicate Misses(all: bytes, n: nat, lastLen: nat) {
    ScanFrom(lastLen) <= n && (n <= |all| ==> !SeesAt(all, n, lastLen))
  }

  lemma MissesOn(all: bytes, n: nat, rest: seq<bytes>)
    requires n <= |all| && all[..n] + Flatten(rest) == all && NoneEmpty(rest) && (n < |all| ==> !LetThrough(all, n))
    ensures rest != [] ==> Misses(all, n + |rest[0]|, n)
  {
    hide IsComplete;
    if rest != [] && n + |rest[0]| <= |all| { SeesInTime(all, n + |rest[0]|, n); }
  }

  /**
   A first read that the parser refuses, and only such a one, is answered by the one rejection; no handler is called, and
   the session closes.
   */
  lemma Refused(env: Env, o: Session, c: bytes)
    requires RealEnv(env) && Inv(o) && o.phase == Idle && o.wait && o.readBuf == [] && ScanFrom(o.lastHeadersLen) <= |c|
    ensures |env.copy(c)| == |c|
    ensures var r := OnRead(env, o, c);
            (r.sent == o.sent + [env.reject(o.handled, o.keepAlive)] && r.handled == o.handled && r.phase == ShuttingDown && r.closing)
            <==> PhrParseRequest(env.copy(c), MAX_HTTP_HEADERS, o.lastHeadersLen).Bad?
  {
    assert ValidEnv(env);
    hide RealEnv, ValidEnv, PhrParseRequest, Routine, Dispatch, Inv;
    assert [] + c == c;
    var t := o.(readBuf := c, wait := false);
    var w := t.(phase := WaitingForHeaders);
    IdleLooks(env, t);
    RoutineStep(env, w);
    CopyHasLength(env, c);
    Decided(env, w);
    var r := Dispatch(env, w);
    if r.phase == Responding {
      SentAndClosed(env, r);
    } else if r.phase == ProcessingHeaders {
      HeadGoesOn(env, r);
    }
  }

  lemma IdleLooks(env: Env, t: Session)
    requires ValidEnv(env) && Inv(t) && !t.wait && t.phase == Idle
    ensures var w := t.(phase := WaitingForHeaders); Inv(w) && Routine(env, t) == Routine(env, w)
  {
    hide ValidEnv, Routine;
    RoutineStep(env, t);
  }

  /** The parser's verdict decides what a session does next. */
  lemma Decided(env: Env, w: Session)
    requires ValidEnv(env) && RealEnv(env) && w.phase == WaitingForHeaders && Inv(w) && !w.wait
    requires ScanFrom(w.lastHeadersLen) <= |w.readBuf| == |env.copy(w.readBuf)|
    ensures var r := Dispatch(env, w);
            && r.sent == w.sent && r.handled == w.handled
            && match PhrParseRequest(env.copy(w.readBuf), MAX_HTTP_HEADERS, w.lastHeadersLen)
               case Ok(_, _) => r.phase == ProcessingHeaders && !r.wait
               case Partial => r.phase == WaitingForHeaders && r.wait
               case Bad => r.phase == Responding && !r.wait && !r.keepAlive && r.response == env.reject(w.handled, w.keepAlive)
  {
    hide RealEnv, ParseRequest, IsComplete;
    ParsedBy(env, env.copy(w.readBuf), w.lastHeadersLen);
  }

  lemma SentAndClosed(env: Env, s: Session)
    requires ValidEnv(env) && Inv(s) && s.phase == Responding && !s.wait && !s.keepAlive
    ensures var r := Routine(env, s);
            r.phase == ShuttingDown && r.closing && r.handled == s.handled && r.sent == s.sent + [s.response]
  {
    hide ValidEnv, Routine;
    RoutineStep(env, s);
    RoutineStep(env, Dispatch(env, s));
  }

  lemma CopyHasLength(env: Env, c: bytes)
    requires ValidEnv(env)
    ensures |env.copy(c)| == |c|
  {
  }

  /** Once it has found a head, a session waits for the body, or handles the request. */
  lemma HeadGoesOn(env: Env, s: Session)
    requires ValidEnv(env) && Inv(s) && !s.wait && s.phase == ProcessingHeaders
    ensures var r := Routine(env, s);
            r.phase == WaitingForBody || (s.handled < r.handled && |r.handled| == |s.handled| + 1)
  {
    hide ValidEnv, Routine, KeepAliveAfter, BodyLenAfter;
    RoutineStep(env, s);
    var s1 := Dispatch(env, s);
    RoutineStep(env, s1);
    var s2 := Dispatch(env, s1);
    if !s2.wait {
      RoutineStep(env, s2);
      var s3 := Dispatch(env, s2);
      RoutineStep(env, s3);
      var s4 := Dispatch(env, s3);
      if !s4.wait { RoutineStep(env, s4); }
    }
  }

  /**
   Whatever way a request is cut into reads: nothing is sent before the last read, and on the last read the one response to
   that very request is sent, with nothing left in the buffer.  That is so exactly if the session sees the head: the first
   read is shorter than the head, or the check for a complete head lets the request through.
   */
  lemma AnyCuts(env: Env, o: Session, head: bytes, request: Request, body: bytes, chunks: seq<bytes>)
    requires RealEnv(env) && Complete(head, request, body) && Ready(o)
    requires NoneEmpty(chunks) && Flatten(chunks) == head + body
    requires chunks != [] && Scannable(o, head, body, |chunks[0]|)
    ensures OnReads(env, o, chunks[..|chunks| - 1]).sent == o.sent
            && Answered(env, o, OnReads(env, o, chunks), head, request, body, Keeps(head, request))
            <==> Sees(o, head, body, |chunks[0]|)
  {
    assert ValidEnv(env);
    hide ParseRequest, RealEnv, ValidEnv, IsComplete, BodyLenAfter, KeepAliveAfter, Inv, SeesAt, LetThrough, Flatten;
    assert (head + body)[..0] == [];
    if Sees(o, head, body, |chunks[0]|) {
      ReadsToTheEnd(env, o, o, head, request, body, 0, chunks);
    } else {
      NotSeen(env, o, head, request, body, chunks);
    }
  }

  lemma NotSeen(env: Env, o: Session, head: bytes, request: Request, body: bytes, chunks: seq<bytes>)
    requires ValidEnv(env) && RealEnv(env) && Complete(head, request, body) && Ready(o)
    requires NoneEmpty(chunks) && Flatten(chunks) == head + body && chunks != []
    requires Scannable(o, head, body, |chunks[0]|) && !Sees(o, head, body, |chunks[0]|)
    ensures OnReads(env, o, chunks).handled == o.handled
  {
    hide ParseRequest, RealEnv, ValidEnv, IsComplete, BodyLenAfter, KeepAliveAfter, LetThrough, Flatten, OnReads;
    var all, n := head + body, |chunks[0]|;
    if o.lastHeadersLen <= |head| { SeenWithin(o, head, request, body, n); }
    assert '\0' !in all by { HeadHasNoNul(head, request); }
    assert all[..0] == [] && [] + Flatten(chunks) == Flatten(chunks);
    NeverSeen(env, o, o, all, 0, chunks);
  }

  /** A scan that begins within the head finds its end. */
  lemma SeenWithin(o: Session, head: bytes, request: Request, body: bytes, n: nat)
    requires Complete(head, request, body) && Scannable(o, head, body, n) && o.lastHeadersLen <= |head|
    ensures Sees(o, head, body, n)
  {
    hide ParseRequest, IsComplete, BodyLenAfter, LetThrough;
    if n >= |head| {
      assert head <= (head + body)[..n];
      FoundInHead(head, request, (head + body)[..n], o.lastHeadersLen);
    }
  }

  // ----- Where the scans of a request begin

  /** Every scan of a run begins inside the buffer or at its end: one is made on a read while the session waits for a head. */
  ghost predicate ScansInside(env: Env, s: Session, chunks: seq<bytes>)
    requires ValidEnv(env) && Inv(s)
    decreases chunks
  {
    chunks != [] ==>
      && (s.phase in {Idle, WaitingForHeaders} ==> ScanFrom(s.lastHeadersLen) <= |s.readBuf| + |chunks[0]|)
      && ScansInside(env, OnRead(env, s, chunks[0]), chunks[1..])
  }

  lemma {:induction false} ScansOfReads(
      env: Env, o: Session, s: Session, head: bytes, request: Request, body: bytes, m: nat, chunks: seq<bytes>)
    requires ValidEnv(env) && RealEnv(env) && Complete(head, request, body)
    requires Ready(o) && HasRead(o, s, head, request, body, Keeps(head, request), m)
    requires m == 0 && chunks != [] ==> Scannable(o, head, body, |chunks[0]|) && Sees(o, head, body, |chunks[0]|)
    requires NoneEmpty(chunks) && (head + body)[..m] + Flatten(chunks) == head + body
    ensures ScansInside(env, s, chunks)
    decreases chunks
  {
    hide ParseRequest, RealEnv, ValidEnv, OnRead, HasRead, Answered, Inv, BodyLenAfter, KeepAliveAfter, Sees, Scannable;
    hide SeesAt, LetThrough;
    if chunks != [] {
      var c, rest := chunks[0], chunks[1..];
      var n := m + |c|;
      Waiting(o, s, head, request, body, Keeps(head, request), m);
      Piece(head + body, m, c, rest);
      OneRead(env, o, s, head, request, body, m, c);
      ScanOfRead(o, s, head, request, body, m, |c|);
      if rest != [] {
        assert rest[0] == chunks[1];
        NotYet(head + body, n, rest);
        ScansOfReads(env, o, OnRead(env, s, c), head, request, body, n, rest);
      } else {
        NoScans(env, OnRead(env, s, c));
      }
    }
  }

  lemma NoScans(env: Env, s: Session)
    requires ValidEnv(env) && Inv(s)
    ensures ScansInside(env, s, [])
  {
  }

  lemma ScanOfRead(o: Session, s: Session, head: bytes, request: Request, body: bytes, m: nat, n: nat)
    requires Complete(head, request, body) && HasRead(o, s, head, request, body, Keeps(head, request), m)
    requires m == 0 ==> Scannable(o, head, body, n)
    ensures s.phase in {Idle, WaitingForHeaders} ==> ScanFrom(s.lastHeadersLen) <= |s.readBuf| + n
  {
    hide ParseRequest, IsComplete, BodyLenAfter, KeepAliveAfter;
  }

  lemma {:induction false} ScansOfMissed(env: Env, s: Session, all: bytes, m: nat, chunks: seq<bytes>)
    requires ValidEnv(env) && RealEnv(env) && Inv(s) && '\0' !in all
    requires m <= |all| && s.readBuf == all[..m] && all[..m] + Flatten(chunks) == all
    requires s.phase == WaitingForHeaders || (s.phase == Idle && m == 0)
    requires NoneEmpty(chunks) && (chunks != [] ==> Misses(all, m + |chunks[0]|, s.lastHeadersLen))
    ensures ScansInside(env, s, chunks)
    decreases chunks
  {
    hide ValidEnv, RealEnv, IsComplete, Routine;
    if chunks != [] {
      var c, rest := chunks[0], chunks[1..];
      var n := m + |c|;
      Piece(all, m, c, rest);
      var t := s.(readBuf := s.readBuf + c, wait := false);
      var w := t.(phase := WaitingForHeaders);
      if s.phase == Idle { RoutineStep(env, t); }
      HeadNotSeen(env, w);
      RoutineStep(env, w);
      var r := Dispatch(env, w);
      if r.phase == WaitingForHeaders {
        MissesOn(all, n, rest);
        ScansOfMissed(env, r, all, n, rest);
      } else {
        SentAndClosed(env, r);
        NoScansMore(env, Routine(env, r), rest);
      }
    }
  }

  lemma {:induction false} NoScansMore(env: Env, s: Session, chunks: seq<bytes>)
    requires ValidEnv(env) && Inv(s) && s.phase == ShuttingDown
    ensures ScansInside(env, s, chunks)
    decreases chunks
  {
    hide ValidEnv;
    if chunks != [] {
      RoutineStep(env, s.(readBuf := s.readBuf + chunks[0], wait := false));
      NoScansMore(env, OnRead(env, s, chunks[0]), chunks[1..]);
    }
  }

  /**
   All scans of a request begin inside the buffer exactly if the stale last_headers_len is no more than three beyond the
   first read.
   */
  lemma ScansOfRequest(env: Env, o: Session, head: bytes, request: Request, body: bytes, chunks: seq<bytes>)
    requires RealEnv(env) && Complete(head, request, body) && Ready(o)
    requires NoneEmpty(chunks) && Flatten(chunks) == head + body && chunks != []
    requires '\0' in body ==> o.lastHeadersLen <= |head|
    ensures ScansInside(env, o, chunks) <==> o.lastHeadersLen <= |chunks[0]| + 3
  {
    assert ValidEnv(env);
    hide ParseRequest, RealEnv, ValidEnv, Complete, Ready, Sees, Flatten, OnRead;
    if o.lastHeadersLen <= |chunks[0]| + 3 {
      FirstWithin(head + body, chunks);
      if Sees(o, head, body, |chunks[0]|) {
        ScansIfSeen(env, o, head, request, body, chunks);
      } else {
        ScansIfNotSeen(env, o, head, request, body, chunks);
      }
    }
  }

  lemma ScansIfSeen(env: Env, o: Session, head: bytes, request: Request, body: bytes, chunks: seq<bytes>)
    requires ValidEnv(env) && RealEnv(env) && Complete(head, request, body) && Ready(o)
    requires NoneEmpty(chunks) && Flatten(chunks) == head + body && chunks != []
    requires Scannable(o, head, body, |chunks[0]|) && Sees(o, head, body, |chunks[0]|)
    ensures ScansInside(env, o, chunks)
  {
    hide ParseRequest, RealEnv, ValidEnv, BodyLenAfter, KeepAliveAfter, SeesAt, Flatten, ScansInside;
    assert (head + body)[..0] == [] && [] + Flatten(chunks) == head + body;
    ScansOfReads(env, o, o, head, request, body, 0, chunks);
  }

  lemma ScansIfNotSeen(env: Env, o: Session, head: bytes, request: Request, body: bytes, chunks: seq<bytes>)
    requires ValidEnv(env) && RealEnv(env) && Complete(head, request, body) && Ready(o)
    requires NoneEmpty(chunks) && Flatten(chunks) == head + body && chunks != []
    requires Scannable(o, head, body, |chunks[0]|) && !Sees(o, head, body, |chunks[0]|)
    ensures ScansInside(env, o, chunks)
  {
    hide ParseRequest, RealEnv, ValidEnv, BodyLenAfter, KeepAliveAfter, SeesAt, Flatten, ScansInside;
    var all := head + body;
    if o.lastHeadersLen <= |head| { SeenWithin(o, head, request, body, |chunks[0]|); }
    assert '\0' !in all by { HeadHasNoNul(head, request); }
    assert all[..0] == [] && [] + Flatten(chunks) == all;
    ScansOfMissed(env, o, all, 0, chunks);
  }

  lemma FirstWithin(all: bytes, chunks: seq<bytes>)
    requires chunks != [] && Flatten(chunks) == all
    ensures |chunks[0]| <= |all|
  {
  }

  /**
   A request without a body is seen exactly if it comes in more than one read, or last_headers_len does not exceed its
   length; by one more if its blank line is a line feed alone.
   */
  lemma WithoutBody(o: Session, head: bytes, request: Request, first: nat)
    requires Complete(head, request, []) && 0 < first && Scannable(o, head, [], first)
    ensures |head| >= 2
    ensures Sees(o, head, [], first) <==>
            first < |head| || o.lastHeadersLen <= |head| + if head[|head| - 2] == '\r' then 0 else 1
  {
    hide ParseRequest, BlankLine, BodyLenAfter;
    var e := RequestTidy(head, MAX_HTTP_HEADERS);
    assert head + [] == head && head[..|head|] == head;
    if first == |head| {
      if ScanFrom(o.lastHeadersLen) < e {
        BlankLineFound(head, ScanFrom(o.lastHeadersLen), 0, e, |head|);
      } else {
        BlankLineMissed(head, ScanFrom(o.lastHeadersLen), e);
      }
    }
  }

  /** For the first request of a session, whose last_headers_len is 0, it is always so. */
  lemma FirstRequest(env: Env, head: bytes, request: Request, body: bytes, chunks: seq<bytes>)
    requires RealEnv(env) && Complete(head, request, body)
    requires NoneEmpty(chunks) && Flatten(chunks) == head + body
    ensures chunks != [] && OnReads(env, OPENED, chunks[..|chunks| - 1]).sent == []
    ensures Answered(env, OPENED, OnReads(env, OPENED, chunks), head, request, body, Keeps(head, request))
  {
    AnyCuts(env, OPENED, head, request, body, chunks);
  }
}
