/**
 What becomes of bytes that arrive with a request but do not belong to it, and of a last_headers_len that an earlier
 request has left behind.
 */
module Pipelining {
  import opened Bytes
  import opened PicoSpec
  import opened PicoLaws
  import opened SessionSpec
  import opened SessionLaws
  import opened OneRequest
  import opened ResponseSpec

  // ----- Where reads end

  /** Some read ends after n bytes. */
  ghost predicate EndsARead(chunks: seq<bytes>, n: int) {
    exists k :: 0 <= k <= |chunks| && |Flatten(chunks[..k])| == n
  }

  lemma EndsNone(chunks: seq<bytes>, n: int)
    requires n < 0 || (chunks == [] && n != 0)
    ensures !EndsARead(chunks, n)
  {
    assert chunks == [] ==> forall k :: 0 <= k <= |chunks| ==> chunks[..k] == [];
  }

  lemma EndsStep(chunks: seq<bytes>, n: int)
    requires chunks != [] && n != 0
    ensures EndsARead(chunks, n) <==> EndsARead(chunks[1..], n - |chunks[0]|)
  {
    var rest := chunks[1..];
    forall k | 0 <= k <= |rest| ensures |Flatten(chunks[..k + 1])| == |chunks[0]| + |Flatten(rest[..k])| {
      assert chunks[..k + 1][1..] == rest[..k];
    }
    if k :| 0 <= k <= |chunks| && |Flatten(chunks[..k])| == n {
      assert |Flatten(rest[..k - 1])| == n - |chunks[0]|;
    }
    if k :| 0 <= k <= |rest| && |Flatten(rest[..k])| == n - |chunks[0]| {
      assert |Flatten(chunks[..k + 1])| == n;
    }
  }

  // ----- A session that waits for a body

  /** A session that waits for a body, and has too little of it or too much. */
  ghost predicate AwaitsBody(s: Session) {
    Inv(s) && s.phase == WaitingForBody && s.wait && |s.readBuf| != s.bodyLen
  }

  /** Such a session sends something exactly if some read ends just where the body does, and otherwise only collects. */
  lemma {:induction false} BodyExactly(env: Env, s: Session, chunks: seq<bytes>)
    requires ValidEnv(env) && AwaitsBody(s)
    ensures OnReads(env, s, chunks).sent != s.sent <==> EndsARead(chunks, s.bodyLen - |s.readBuf|)
    ensures !EndsARead(chunks, s.bodyLen - |s.readBuf|) ==>
              OnReads(env, s, chunks) == s.(readBuf := s.readBuf + Flatten(chunks))
    decreases chunks
  {
    hide ValidEnv, EndsARead, Routine;
    var n := s.bodyLen - |s.readBuf|;
    if chunks == [] {
      EndsNone(chunks, n);
      assert s.readBuf + [] == s.readBuf;
    } else {
      var c, rest := chunks[0], chunks[1..];
      EndsStep(chunks, n);
      var t := s.(readBuf := s.readBuf + c, wait := false);
      if |c| == n {
        BodyTaken(env, t);
        SentByReads(env, OnRead(env, s, c), rest);
        EndsHere(rest);
      } else {
        RoutineStep(env, t);
        BodyExactly(env, OnRead(env, s, c), rest);
        assert s.readBuf + c + Flatten(rest) == s.readBuf + Flatten(chunks);
      }
    }
  }

  lemma EndsHere(chunks: seq<bytes>)
    ensures EndsARead(chunks, 0)
  {
    assert Flatten(chunks[..0]) == [];
  }

  /** A session that has just its body in the buffer sends a response. */
  lemma BodyTaken(env: Env, t: Session)
    requires ValidEnv(env) && Inv(t) && t.phase == WaitingForBody && !t.wait && |t.readBuf| == t.bodyLen
    ensures t.sent < Routine(env, t).sent
  {
    hide ValidEnv, Routine;
    RoutineStep(env, t);
    var t1 := Dispatch(env, t);
    RoutineStep(env, t1);
    var t2 := Dispatch(env, t1);
    RoutineStep(env, t2);
    var t3 := Dispatch(env, t2);
    assert t3.sent == t.sent + [t2.response];
    if !t3.wait { SentByRoutine(env, t3); }
  }

  /** Once there is more than the body, whatever arrives is only collected. */
  lemma TooMuch(env: Env, s: Session, chunks: seq<bytes>)
    requires ValidEnv(env) && AwaitsBody(s) && |s.readBuf| > s.bodyLen
    ensures OnReads(env, s, chunks) == s.(readBuf := s.readBuf + Flatten(chunks))
  {
    hide ValidEnv, OnReads, EndsARead;
    BodyExactly(env, s, chunks);
    EndsNone(chunks, s.bodyLen - |s.readBuf|);
  }

  // ----- Bytes behind a request

  /** The last Content-Length, if there is one, is followed by something within the head. */
  ghost predicate Settled(head: bytes, hs: seq<Header>)
    requires forall h :: h in hs ==> h.Within(|head|)
  {
    if hs == [] then true
    else
      var h := hs[|hs| - 1];
      if IsContentLength(head, h) then exists k :: h.value.lo <= k < |head| && !IsSpace(head[k])
      else Settled(head, hs[..|hs| - 1])
  }

  lemma {:induction false} SettledLength(head: bytes, x: bytes, hs: seq<Header>)
    requires head != [] && head[|head| - 1] == '\n'
    requires forall h :: h in hs ==> h.Within(|head|) && h.Within(|head + x|)
    ensures Settled(head, hs) ==> BodyLenAfter(head + x, hs, 0) == BodyLenAfter(head, hs, 0)
    ensures !Settled(head, hs) ==> BodyLenAfter(head, hs, 0) == 0 && BodyLenAfter(head + x, hs, 0) == ToInt(Strtol(x, 0))
    decreases hs
  {
    if hs != [] {
      var h := hs[|hs| - 1];
      assert h in hs;
      assert h.value.Of(head + x) == h.value.Of(head) && (h.Field? ==> h.name.Of(head + x) == h.name.Of(head));
      if k :| h.value.lo <= k < |head| && !IsSpace(head[k]) {
        StrtolStops(head, x, h.value.lo, k);
      } else {
        StrtolRunsOff(head, h.value.lo, x);
      }
      SettledLength(head, x, hs[..|hs| - 1]);
    }
  }

  /** The session after the head has been taken out of a buffer that was copied to `buf`. */
  ghost function HeadDone(w: Session, buf: bytes, head: bytes, request: Request): Session
    requires |head| <= |w.readBuf| && forall h :: h in request.headers ==> h.Within(|buf|)
  {
    HeadTaken(w, buf, head, request).(
      phase := WaitingForBody,
      keepAlive := KeepAliveAfter(buf, request.headers, w.keepAlive),
      bodyLen := BodyLenAfter(buf, request.headers, w.bodyLen))
  }

  /** The head is in the buffer: the session goes on with what follows it. */
  lemma HeadRead(env: Env, w: Session, head: bytes, request: Request)
    requires ValidEnv(env) && RealEnv(env) && ParseRequest(head, MAX_HTTP_HEADERS) == Ok(|head|, request)
    requires Inv(w) && !w.wait && w.phase == WaitingForHeaders && w.lastHeadersLen <= |head| && head <= w.readBuf
    ensures var buf := env.copy(w.readBuf);
            && head <= buf && |buf| == |w.readBuf| && (forall h :: h in request.headers ==> h.Within(|buf|))
            && var r := HeadDone(w, buf, head, request);
               Inv(r) && Routine(env, w) == Routine(env, r)
  {
    hide ParseRequest, RealEnv, ValidEnv, Routine, BodyLenAfter, KeepAliveAfter;
    HeadParsed(env, w, head, request);
    RoutineStep(env, w);
    RoutineStep(env, Dispatch(env, w));
  }

  /** A read that goes beyond the end of the request leaves the session waiting, with more than the body. */
  lemma Overrun(env: Env, o: Session, s: Session, head: bytes, request: Request, body: bytes, m: nat, chunk: bytes)
    requires ValidEnv(env) && RealEnv(env) && Complete(head, request, body) && Settled(head, request.headers)
    requires Ready(o) && HasRead(o, s, head, request, body, Keeps(head, request), m) && Steady(s, head, m)
    requires o.lastHeadersLen <= |head|
    requires m + |chunk| > |head| + |body| && head + body <= (head + body)[..m] + chunk
    ensures var r := OnRead(env, s, chunk);
            AwaitsBody(r) && |r.readBuf| > r.bodyLen && r.sent == o.sent && r.handled == o.handled
  {
    hide ParseRequest, RealEnv, ValidEnv, Routine, BodyLenAfter, KeepAliveAfter, Settled, HasRead, Complete;
    StateOf(o, s, head, request, body, m);
    var t := s.(readBuf := s.readBuf + chunk, wait := false);
    if s.phase == WaitingForBody {
      RoutineStep(env, t);
    } else {
      var w := t.(phase := WaitingForHeaders);
      assert head <= head + body <= w.readBuf;
      if t.phase == Idle { RoutineStep(env, t); }
      OverrunHead(env, w, head, request, body, chunk);
    }
  }

  /** A session that has not overlooked the head waits for the rest of the body, or for the rest of the head. */
  lemma StateOf(o: Session, s: Session, head: bytes, request: Request, body: bytes, m: nat)
    requires Complete(head, request, body)
    requires Ready(o) && HasRead(o, s, head, request, body, Keeps(head, request), m) && Steady(s, head, m)
    requires o.lastHeadersLen <= |head|
    ensures Waits(o, s) && m < |head| + |body|
    ensures if s.phase == WaitingForBody then m >= |head| && s.bodyLen == |body| && |s.readBuf| == m - |head|
            else
              && s.phase in {Idle, WaitingForHeaders} && s.readBuf == (head + body)[..m]
              && s.bodyLen == 0 && s.lastHeadersLen <= |head|
  {
    hide ParseRequest, IsComplete, BodyLenAfter, KeepAliveAfter;
    assert (head + body)[..0] == [];
  }

  lemma OverrunHead(env: Env, w: Session, head: bytes, request: Request, body: bytes, chunk: bytes)
    requires ValidEnv(env) && RealEnv(env) && Complete(head, request, body) && Settled(head, request.headers)
    requires Inv(w) && !w.wait && w.phase == WaitingForHeaders && w.lastHeadersLen <= |head| && w.bodyLen == 0
    requires head <= w.readBuf && |w.readBuf| > |head| + |body|
    ensures var r := Routine(env, w);
            AwaitsBody(r) && |r.readBuf| > r.bodyLen && r.sent == w.sent && r.handled == w.handled
  {
    hide ParseRequest, RealEnv, ValidEnv, Routine, BodyLenAfter, KeepAliveAfter, Settled;
    HeadRead(env, w, head, request);
    var buf := env.copy(w.readBuf);
    LengthIn(head, buf, request);
    RoutineStep(env, HeadDone(w, buf, head, request));
  }

  /** The length that the head announces, with other bytes behind it. */
  lemma LengthIn(head: bytes, buf: bytes, request: Request)
    requires ParseRequest(head, MAX_HTTP_HEADERS) == Ok(|head|, request) && head <= buf
    requires forall h :: h in request.headers ==> h.Within(|buf|)
    ensures if Settled(head, request.headers) then
              BodyLenAfter(buf, request.headers, 0) == BodyLenAfter(head, request.headers, 0)
            else
              && BodyLenAfter(head, request.headers, 0) == 0
              && BodyLenAfter(buf, request.headers, 0) == ToInt(Strtol(buf[|head|..], 0))
  {
    hide ParseRequest, BodyLenAfter, Settled;
    var e := RequestTidy(head, MAX_HTTP_HEADERS);
    assert head + buf[|head|..] == buf;
    SettledLength(head, buf[|head|..], request.headers);
  }

  /** The request has been answered, before anything else was; or nothing has been handled or sent. */
  ghost predicate Outcome(env: Env, o: Session, r: Session, head: bytes, request: Request, body: bytes, answered: bool)
    requires ParseRequest(head, MAX_HTTP_HEADERS) == Ok(|head|, request)
  {
    var call := Call(head, request, body);
    if answered then
      o.handled + [call] <= r.handled && o.sent + [env.respond(o.handled, call, Keeps(head, request))] <= r.sent
    else r.handled == o.handled && r.sent == o.sent
  }

  /** From a session that has read m bytes of the request on: it answers exactly if some read ends where the request does. */
  lemma {:induction false} AnswersAtEnd(
      env: Env, o: Session, s: Session, head: bytes, request: Request, body: bytes, more: bytes, m: nat, chunks: seq<bytes>)
    requires ValidEnv(env) && RealEnv(env) && Complete(head, request, body) && Settled(head, request.headers)
    requires Ready(o) && HasRead(o, s, head, request, body, Keeps(head, request), m) && Steady(s, head, m)
    requires o.lastHeadersLen <= |head| && (m == 0 && chunks != [] ==> o.lastHeadersLen <= |chunks[0]| + 3)
    requires NoneEmpty(chunks) && (head + body)[..m] + Flatten(chunks) == head + body + more
    ensures Outcome(env, o, OnReads(env, s, chunks), head, request, body, EndsARead(chunks, |head| + |body| - m))
    decreases chunks
  {
    hide ParseRequest, RealEnv, ValidEnv, OnRead, HasRead, Answered, Inv, BodyLenAfter, KeepAliveAfter, Settled;
    hide EndsARead, AwaitsBody, LetThrough;
    Waiting(o, s, head, request, body, Keeps(head, request), m);
    var left := |head| + |body| - m;
    if chunks == [] {
      EndsNone(chunks, left);
    } else {
      var c, rest := chunks[0], chunks[1..];
      EndsStep(chunks, left);
      PieceOf(head + body, more, m, c, rest);
      if |c| > left {
        Overrun(env, o, s, head, request, body, m, c);
        TooMuch(env, OnRead(env, s, c), rest);
        EndsNone(rest, left - |c|);
      } else {
        if m == 0 { SeenWithin(o, head, request, body, |c|); }
        OneRead(env, o, s, head, request, body, m, c);
        if |c| == left {
          AnsweredWith(env, o, OnRead(env, s, c), head, request, body, Keeps(head, request));
          SentByReads(env, OnRead(env, s, c), rest);
          EndsHere(rest);
        } else {
          AnswersAtEnd(env, o, OnRead(env, s, c), head, request, body, more, m + |c|, rest);
        }
      }
    }
  }

  lemma PieceOf(all: bytes, more: bytes, m: nat, c: bytes, rest: seq<bytes>)
    requires m <= |all| && all[..m] + (c + Flatten(rest)) == all + more
    ensures if m + |c| > |all| then all <= all[..m] + c
            else all[..m] + c == all[..m + |c|] && all[..m + |c|] + Flatten(rest) == all + more
  {
    var text := all[..m] + c;
    assert text + Flatten(rest) == all + more;
    if m + |c| > |all| {
      assert text[..|all|] == (all + more)[..|all|] == all;
    } else {
      assert text == (all + more)[..m + |c|] == all[..m + |c|];
    }
  }

  lemma AnsweredWith(env: Env, o: Session, s: Session, head: bytes, request: Request, body: bytes, keep: bool)
    requires Answered(env, o, s, head, request, body, keep)
    ensures var call := Call(head, request, body);
            s.handled == o.handled + [call] && s.sent == o.sent + [env.respond(o.handled, call, keep)]
  {
  }

  /** A session is sent the request and then more: it answers it exactly if some read ends where the request does. */
  ghost predicate AnswersJustThen(
      env: Env, o: Session, head: bytes, request: Request, body: bytes, more: bytes, chunks: seq<bytes>)
    requires ValidEnv(env) && Inv(o) && ParseRequest(head, MAX_HTTP_HEADERS) == Ok(|head|, request)
  {
    NoneEmpty(chunks) && chunks != [] && Flatten(chunks) == head + body + more && o.lastHeadersLen <= |chunks[0]| + 3 ==>
      Outcome(env, o, OnReads(env, o, chunks), head, request, body, EndsARead(chunks, |head| + |body|))
  }

  /**
   Whatever follows a request and however the stream is cut, the request is answered exactly if some read ends where it
   does; a second request that arrives in the same read as the end of the first silences the session.  This is so
   exactly if the head does not leave the last Content-Length to be read out of what follows.
   */
  lemma WhatFollows(env: Env, o: Session, head: bytes, request: Request, body: bytes)
    requires RealEnv(env) && Complete(head, request, body) && Ready(o) && o.lastHeadersLen <= |head|
    ensures (forall more, chunks :: AnswersJustThen(env, o, head, request, body, more, chunks)) <==> Settled(head, request.headers)
  {
    assert ValidEnv(env) && Inv(o);
    hide ParseRequest, RealEnv, ValidEnv, Complete, Settled, Ready, AnswersJustThen;
    if Settled(head, request.headers) {
      forall more, chunks ensures AnswersJustThen(env, o, head, request, body, more, chunks) {
        JustThen(env, o, head, request, body, more, chunks);
      }
    } else {
      NotJustThen(env, o, head, request, body);
    }
  }

  lemma JustThen(env: Env, o: Session, head: bytes, request: Request, body: bytes, more: bytes, chunks: seq<bytes>)
    requires ValidEnv(env) && RealEnv(env) && Complete(head, request, body) && Settled(head, request.headers)
    requires Ready(o) && o.lastHeadersLen <= |head|
    ensures AnswersJustThen(env, o, head, request, body, more, chunks)
  {
    hide ParseRequest, RealEnv, ValidEnv, Settled, EndsARead, NoneEmpty, OnReads, HasRead, Complete, Steady, Keeps, Flatten;
    if NoneEmpty(chunks) && chunks != [] && Flatten(chunks) == head + body + more && o.lastHeadersLen <= |chunks[0]| + 3 {
      Beginning(o, head, request, body, Flatten(chunks));
      AnswersAtEnd(env, o, o, head, request, body, more, 0, chunks);
    }
  }

  lemma Beginning(o: Session, head: bytes, request: Request, body: bytes, text: bytes)
    requires Complete(head, request, body) && Ready(o)
    ensures HasRead(o, o, head, request, body, Keeps(head, request), 0) && Steady(o, head, 0)
    ensures (head + body)[..0] + text == text
  {
    hide ParseRequest, BodyLenAfter, KeepAliveAfter;
  }

  lemma NotJustThen(env: Env, o: Session, head: bytes, request: Request, body: bytes)
    requires ValidEnv(env) && RealEnv(env) && Complete(head, request, body) && Ready(o) && o.lastHeadersLen <= |head|
    requires !Settled(head, request.headers)
    ensures !AnswersJustThen(env, o, head, request, body, "1", [head + "1"])
  {
    hide ParseRequest, RealEnv, ValidEnv, BodyLenAfter, KeepAliveAfter, Settled, OnReads, AnswersJustThen;
    LengthFromBehind(env, o, head, request, body);
    SentTooSoon(env, o, head, request, head + "1");
    assert head + [] == head;
  }

  lemma SentTooSoon(env: Env, o: Session, head: bytes, request: Request, c: bytes)
    requires ValidEnv(env) && Inv(o) && ParseRequest(head, MAX_HTTP_HEADERS) == Ok(|head|, request)
    requires head != [] && c == head + "1" && o.lastHeadersLen <= |head|
    requires OnReads(env, o, [c]).sent != o.sent
    ensures !AnswersJustThen(env, o, head, request, [], "1", [c])
  {
    hide ValidEnv, OnReads, EndsARead, Flatten, ParseRequest, KeepAliveAfter, Inv;
    EndsLater(c, |head|);
    assert head + [] == head;
    assert NoneEmpty([c]);
  }

  lemma EndsLater(c: bytes, n: nat)
    requires 0 < n < |c|
    ensures !EndsARead([c], n) && Flatten([c]) == c
  {
    hide EndsARead;
    EndsStep([c], n);
    EndsNone([], n - |c|);
    assert [c][1..] == [];
  }

  lemma ReadAlone(env: Env, o: Session, c: bytes)
    requires ValidEnv(env) && Inv(o)
    ensures OnReads(env, o, [c]) == OnRead(env, o, c)
  {
    hide ValidEnv, OnRead, Inv;
    assert [c][1..] == [];
  }

  /**
   A head that leaves its Content-Length open: the same bytes are one request with a body if they arrive together, and a
   request without one, and the beginning of another, if they arrive one after the other.
   */
  lemma LengthFromBehind(env: Env, o: Session, head: bytes, request: Request, body: bytes)
    requires ValidEnv(env) && RealEnv(env) && Complete(head, request, body) && Ready(o) && o.lastHeadersLen <= |head|
    requires !Settled(head, request.headers)
    ensures body == []
    ensures OnReads(env, o, [head + "1"]).handled == o.handled + [Call(head, request, "1")]
    ensures OnReads(env, o, [head + "1"]).sent != o.sent
    ensures o.handled + [Call(head, request, [])] <= OnReads(env, o, [head, "1"]).handled
  {
    hide ParseRequest, RealEnv, ValidEnv, Routine, BodyLenAfter, KeepAliveAfter, Settled, IsComplete, Answered;
    var e := RequestTidy(head, MAX_HTTP_HEADERS);
    SettledLength(head, [], request.headers);
    assert head + [] == head;
    BodyBehind(env, o, head, request);
    AnyCuts(env, o, head, request, [], [head]);
    FoundInHead(head, request, head, o.lastHeadersLen);
    ReadAlone(env, o, head);
    ReadAlone(env, o, head + "1");
    var r := OnRead(env, o, head);
    AnsweredWith(env, o, r, head, request, [], Keeps(head, request));
    SentByReads(env, r, ["1"]);
    assert [head, "1"][1..] == ["1"];
  }

  lemma BodyBehind(env: Env, o: Session, head: bytes, request: Request)
    requires ValidEnv(env) && RealEnv(env) && ParseRequest(head, MAX_HTTP_HEADERS) == Ok(|head|, request)
    requires Ready(o) && o.lastHeadersLen <= |head| && !Settled(head, request.headers)
    ensures OnRead(env, o, head + "1").handled == o.handled + [Call(head, request, "1")]
    ensures OnRead(env, o, head + "1").sent != o.sent
  {
    hide ParseRequest, RealEnv, ValidEnv, Routine, BodyLenAfter, KeepAliveAfter, Settled, Answered, ToInt, Strtol;
    var buf := head + "1";
    var w := o.(readBuf := buf, phase := WaitingForHeaders, wait := false);
    FirstRead(env, o, buf);
    HeadRead(env, w, head, request);
    CopiedWhole(env, head, request, "1");
    OneBehind(head, request);
    OneLeft(env, w, HeadDone(w, buf, head, request), head, request);
  }

  lemma OneLeft(env: Env, o: Session, r: Session, head: bytes, request: Request)
    requires ValidEnv(env) && Inv(r) && !r.wait && r.sent == o.sent && r.handled == o.handled
    requires r.readBuf == "1" && InBody(r, head, request, "1", r.keepAlive)
    ensures Routine(env, r).handled == o.handled + [Call(head, request, "1")]
    ensures Routine(env, r).sent != o.sent
  {
    hide ValidEnv, Routine, Answered;
    BodyArrived(env, o, r, head, request, "1", r.keepAlive);
    AnsweredWith(env, o, Routine(env, r), head, request, "1", r.keepAlive);
  }

  /** The first read after a request. */
  lemma FirstRead(env: Env, o: Session, c: bytes)
    requires ValidEnv(env) && Ready(o)
    ensures OnRead(env, o, c) == Routine(env, o.(readBuf := c, phase := WaitingForHeaders, wait := false))
  {
    hide ValidEnv, Routine;
    assert o.readBuf + c == c;
    RoutineStep(env, o.(readBuf := c, wait := false));
  }

  lemma CopiedWhole(env: Env, head: bytes, request: Request, x: bytes)
    requires ValidEnv(env) && RealEnv(env) && ParseRequest(head, MAX_HTTP_HEADERS) == Ok(|head|, request) && '\0' !in x
    ensures env.copy(head + x) == head + x
  {
    hide ParseRequest, RealEnv;
    var buf := head + x;
    HeadHasNoNul(head, request);
    assert buf[..|buf|] == buf;
    Copied(env, buf, |buf|);
  }

  lemma OneBehind(head: bytes, request: Request)
    requires ParseRequest(head, MAX_HTTP_HEADERS) == Ok(|head|, request) && !Settled(head, request.headers)
    requires forall h :: h in request.headers ==> h.Within(|head + "1"|)
    ensures BodyLenAfter(head + "1", request.headers, 0) == 1
  {
    hide ParseRequest, BodyLenAfter, Settled, ToInt, Strtol;
    LengthIn(head, head + "1", request);
    assert (head + "1")[|head|..] == "1";
    OneIsOne();
  }

  lemma OneIsOne()
    ensures ToInt(Strtol("1", 0)) == 1
  {
    assert DigitsValue("1", 0, 0) == DigitsValue("1", 1, 1) == 1;
  }

  // ----- A stale last_headers_len

  /**
   A session whose last_headers_len points into the body of the next request, where no line ends, overlooks the head if
   the request arrives in one read: nothing is sent, and the session waits for more headers.
   */
  lemma HeadOverlooked(env: Env, o: Session, head: bytes, request: Request, body: bytes)
    requires RealEnv(env) && Complete(head, request, body) && Ready(o)
    requires |head| + 3 <= o.lastHeadersLen <= |head| + |body|
    requires forall c :: c in body ==> c !in "\0\r\n"
    ensures var r := OnRead(env, o, head + body);
            r.phase == WaitingForHeaders && r.wait && r.sent == o.sent && r.handled == o.handled
  {
    assert ValidEnv(env);
    hide ParseRequest, RealEnv, ValidEnv, Routine, BodyLenAfter, BlankLine;
    var all := head + body;
    var w := o.(readBuf := all, phase := WaitingForHeaders, wait := false);
    FirstRead(env, o, all);
    HeadHasNoNul(head, request);
    forall k | o.lastHeadersLen - 3 <= k < |all| ensures all[k] != '\r' && all[k] != '\n' {
      assert all[k] == body[k - |head|] && body[k - |head|] in body;
    }
    NoBlankLine(all, ScanFrom(o.lastHeadersLen), 0);
    HeadNotSeen(env, w);
    RoutineStep(env, w);
  }

  /** A request that comes in two reads, the first of k bytes, leaves this number behind. */
  lemma LeftBehind(env: Env, head: bytes, request: Request, k: nat)
    requires RealEnv(env) && Complete(head, request, []) && 0 < k < |head| && Keeps(head, request)
    ensures var r := OnReads(env, OPENED, [head[..k], head[k..]]);
            Ready(r) && r.lastHeadersLen == k && r.handled == [Call(head, request, [])] && |r.sent| == 1
  {
    assert ValidEnv(env);
    hide RealEnv, ValidEnv, OnRead, Complete, Keeps, Ready;
    var a, b := head[..k], head[k..];
    assert head == a + b;
    FirstPart(env, head, request, k);
    SecondPart(env, head, request, a, b);
    TwoReads(env, OPENED, a, b);
  }

  lemma SecondPart(env: Env, head: bytes, request: Request, a: bytes, b: bytes)
    requires ValidEnv(env) && RealEnv(env) && Complete(head, request, []) && Keeps(head, request)
    requires head == a + b && |a| <= |head|
    ensures var r := OnRead(env, Unparsed(OPENED.(readBuf := a, phase := WaitingForHeaders)), b);
            Ready(r) && r.lastHeadersLen == |a| && r.handled == [Call(head, request, [])] && |r.sent| == 1
  {
    hide ParseRequest, RealEnv, ValidEnv, Routine, BodyLenAfter, KeepAliveAfter, HasRead, Answered;
    var s := Unparsed(OPENED.(readBuf := a, phase := WaitingForHeaders));
    var t := s.(readBuf := head, wait := false);
    assert head + [] == head && head[..|head|] == head;
    HeadArrived(env, OPENED, t, head, request, [], |head|);
    AnsweredReady(env, OPENED, Routine(env, t), head, request, []);
  }

  lemma FirstPart(env: Env, head: bytes, request: Request, k: nat)
    requires ValidEnv(env) && RealEnv(env) && ParseRequest(head, MAX_HTTP_HEADERS) == Ok(|head|, request) && k < |head|
    ensures OnRead(env, OPENED, head[..k]) == Unparsed(OPENED.(readBuf := head[..k], phase := WaitingForHeaders))
  {
    hide ParseRequest, RealEnv, ValidEnv, Routine;
    FirstRead(env, OPENED, head[..k]);
    var w := OPENED.(readBuf := head[..k], phase := WaitingForHeaders, wait := false);
    HeadPending(env, w, head, request, k);
    RoutineStep(env, w);
  }

  lemma AnsweredReady(env: Env, o: Session, s: Session, head: bytes, request: Request, body: bytes)
    requires Answered(env, o, s, head, request, body, true)
    ensures Ready(s) && s.handled == o.handled + [Call(head, request, body)] && |s.sent| == |o.sent| + 1
  {
  }

  lemma TwoReads(env: Env, o: Session, c: bytes, d: bytes)
    requires ValidEnv(env) && Inv(o)
    ensures OnReads(env, o, [c, d]) == OnRead(env, OnRead(env, o, c), d)
  {
    hide ValidEnv, OnRead, Inv;
    ReadAlone(env, OnRead(env, o, c), d);
    assert [c, d][1..] == [d];
  }

  /** One that comes in a single read leaves 0. */
  lemma NothingLeftBehind(env: Env, head: bytes, request: Request)
    requires RealEnv(env) && Complete(head, request, []) && Keeps(head, request)
    ensures var r := OnRead(env, OPENED, head);
            Ready(r) && r.lastHeadersLen == 0 && r.handled == [Call(head, request, [])] && |r.sent| == 1
  {
    assert ValidEnv(env);
    hide ParseRequest, RealEnv, ValidEnv, Routine, BodyLenAfter, KeepAliveAfter, HasRead, Answered;
    FirstRead(env, OPENED, head);
    var w := OPENED.(readBuf := head, phase := WaitingForHeaders, wait := false);
    assert head + [] == head && head[..|head|] == head;
    HeadArrived(env, OPENED, w, head, request, [], |head|);
    AnsweredReady(env, OPENED, OnRead(env, OPENED, head), head, request, []);
  }

  /**
   The same two requests, the second of them in one read: both are answered if the first came in one read too, and the
   second is never seen if the first came in two, of which the first was as long as some part of the second that
   goes beyond its head.
   */
  lemma SecondRequestLost(env: Env, head1: bytes, request1: Request, k: nat, head2: bytes, request2: Request, body2: bytes)
    requires RealEnv(env) && Complete(head1, request1, []) && Keeps(head1, request1) && 0 < k < |head1|
    requires Complete(head2, request2, body2) && |head2| + 3 <= k <= |head2| + |body2|
    requires forall c :: c in body2 ==> c !in "\0\r\n"
    ensures var calls := [Call(head1, request1, []), Call(head2, request2, body2)];
            && OnReads(env, OPENED, [head1, head2 + body2]).handled == calls
            && var r := OnReads(env, OPENED, [head1[..k], head1[k..], head2 + body2]);
               r.handled == calls[..1] && |r.sent| == 1 && r.phase == WaitingForHeaders
  {
    assert ValidEnv(env);
    hide RealEnv, ValidEnv, Complete, Keeps, OnRead;
    var a, b, c := head1[..k], head1[k..], head2 + body2;
    NothingLeftBehind(env, head1, request1);
    SecondSeen(env, OnRead(env, OPENED, head1), head2, request2, body2);
    TwoReads(env, OPENED, head1, c);
    LeftBehind(env, head1, request1, k);
    HeadOverlooked(env, OnReads(env, OPENED, [a, b]), head2, request2, body2);
    ThreeReads(env, OPENED, a, b, c);
  }

  /** Likewise for a second request without a body: the end of the first part of the first lies just behind its head. */
  lemma SecondBodylessLost(env: Env, head1: bytes, request1: Request, k: nat, head2: bytes, request2: Request)
    requires RealEnv(env) && Complete(head1, request1, []) && Keeps(head1, request1) && 0 < k < |head1|
    requires Complete(head2, request2, []) && |head2| < k <= |head2| + 3
    requires |head2| >= 2 && (head2[|head2| - 2] == '\r' || |head2| + 1 < k)
    ensures var calls := [Call(head1, request1, []), Call(head2, request2, [])];
            && OnReads(env, OPENED, [head1, head2]).handled == calls
            && OnReads(env, OPENED, [head1[..k], head1[k..], head2]).handled == calls[..1]
  {
    assert ValidEnv(env);
    hide RealEnv, ValidEnv, Complete, Keeps, OnRead, Sees;
    var a, b := head1[..k], head1[k..];
    assert head2 + [] == head2;
    NothingLeftBehind(env, head1, request1);
    SecondSeen(env, OnRead(env, OPENED, head1), head2, request2, []);
    TwoReads(env, OPENED, head1, head2);
    LeftBehind(env, head1, request1, k);
    var o := OnReads(env, OPENED, [a, b]);
    WithoutBody(o, head2, request2, |head2|);
    assert Flatten([head2]) == head2;
    NotSeen(env, o, head2, request2, [], [head2]);
    ReadAlone(env, o, head2);
    ThreeReads(env, OPENED, a, b, head2);
  }

  /**
   After a first request that came in two reads, the first of k bytes, the scans of the second one begin inside the buffer
   exactly if k is no more than three beyond its first read.
   */
  lemma ScansOfSecond(env: Env, head1: bytes, request1: Request, k: nat,
                      head2: bytes, request2: Request, body2: bytes, chunks: seq<bytes>)
    requires RealEnv(env) && Complete(head1, request1, []) && Keeps(head1, request1) && 0 < k < |head1|
    requires Complete(head2, request2, body2) && ('\0' in body2 ==> k <= |head2|)
    requires NoneEmpty(chunks) && Flatten(chunks) == head2 + body2 && chunks != []
    ensures ScansInside(env, OnReads(env, OPENED, [head1[..k], head1[k..]]), chunks) <==> k <= |chunks[0]| + 3
  {
    LeftBehind(env, head1, request1, k);
    ScansOfRequest(env, OnReads(env, OPENED, [head1[..k], head1[k..]]), head2, request2, body2, chunks);
  }

  lemma ThreeReads(env: Env, o: Session, a: bytes, b: bytes, c: bytes)
    requires ValidEnv(env) && Inv(o)
    ensures OnReads(env, o, [a, b, c]) == OnRead(env, OnReads(env, o, [a, b]), c)
  {
    hide ValidEnv, OnRead, Inv;
    TwoReads(env, o, a, b);
    TwoReads(env, OnRead(env, o, a), b, c);
    assert [a, b, c][1..] == [b, c];
  }

  lemma SecondSeen(env: Env, o: Session, head: bytes, request: Request, body: bytes)
    requires ValidEnv(env) && RealEnv(env) && Complete(head, request, body) && Ready(o) && o.lastHeadersLen == 0
    ensures OnRead(env, o, head + body).handled == o.handled + [Call(head, request, body)]
  {
    hide ParseRequest, RealEnv, ValidEnv, BodyLenAfter, KeepAliveAfter, Answered, OnRead;
    var c := head + body;
    assert Flatten([c]) == c;
    AnyCuts(env, o, head, request, body, [c]);
    ReadAlone(env, o, c);
    AnsweredWith(env, o, OnRead(env, o, c), head, request, body, Keeps(head, request));
  }
}
