/**
 What holds of a session over every run, and what it makes of its first request however the network cuts it.
 */
module SessionLaws {
  import opened Bytes
  import opened PicoSpec
  import opened PicoLaws
  import opened SessionSpec

  // ----- Every run, whatever the parser and the handlers do

  /** The response is an answer to the k-th request, which came after those before it. */
  predicate Answers(env: Env, calls: seq<Call>, k: nat, response: bytes)
    requires k < |calls|
  {
    response == env.respond(calls[..k], calls[k], true) || response == env.respond(calls[..k], calls[k], false)
  }

  predicate Rejects(env: Env, calls: seq<Call>, response: bytes) {
    response == env.reject(calls, true) || response == env.reject(calls, false)
  }

  /** Requests are answered one by one and in order; what is no request is rejected once, and then there is no more. */
  ghost predicate Balanced(env: Env, s: Session) {
    && (forall k :: 0 <= k < |s.handled| && k < |s.sent| ==> Answers(env, s.handled, k, s.sent[k]))
    && match s.phase
       case Responding =>
         || (|s.handled| == |s.sent| + 1 && Answers(env, s.handled, |s.sent|, s.response))
         || (|s.handled| == |s.sent| && !s.keepAlive && Rejects(env, s.handled, s.response))
       case ShuttingDown =>
         || |s.handled| == |s.sent|
         || (|s.handled| + 1 == |s.sent| && Rejects(env, s.handled, s.sent[|s.handled|]))
       case _ => |s.handled| == |s.sent|
  }

  lemma HeadersLaws(env: Env, s: Session)
    requires ValidEnv(env) && Balanced(env, s) && s.phase == WaitingForHeaders
    ensures var r := WaitForHeaders(env, s);
            Balanced(env, r) && r.taken + r.readBuf == s.taken + s.readBuf && r.sent == s.sent
  {
    var p := env.parse(env.copy(s.readBuf), s.lastHeadersLen);
    if p.res > 0 {
      assert s.readBuf[..p.res] + s.readBuf[p.res..] == s.readBuf;
    }
  }

  lemma RespondLaws(env: Env, s: Session)
    requires Inv(s) && Balanced(env, s) && s.phase == Responding
    ensures var r := Respond(s);
            Balanced(env, r) && r.taken + r.readBuf == s.taken + s.readBuf && r.sent == s.sent + [s.response]
  {
  }

  lemma RequestLaws(env: Env, s: Session)
    requires Inv(s) && Balanced(env, s) && s.phase == ProcessingRequest
    ensures var r := ProcessRequest(env, s);
            Balanced(env, r) && r.taken + r.readBuf == s.taken + s.readBuf && r.sent == s.sent
  {
    var r := ProcessRequest(env, s);
    assert r.handled[..|s.sent|] == s.handled;
    forall k | 0 <= k < |s.sent| ensures Answers(env, r.handled, k, r.sent[k]) {
      assert r.handled[..k] == s.handled[..k];
    }
  }

  lemma DispatchLaws(env: Env, s: Session)
    requires ValidEnv(env) && Inv(s) && Balanced(env, s)
    ensures var r := Dispatch(env, s);
            && Balanced(env, r)
            && r.taken + r.readBuf == s.taken + s.readBuf
            && r.sent == (if s.phase == Responding then s.sent + [s.response] else s.sent)
  {
    hide WaitForHeaders, ProcessRequest, Respond, KeepAliveAfter, BodyLenAfter, ValidEnv;
    if s.phase == WaitingForHeaders {
      HeadersLaws(env, s);
    } else if s.phase == ProcessingRequest {
      RequestLaws(env, s);
    } else if s.phase == Responding {
      RespondLaws(env, s);
    }
  }

  lemma {:induction false} RoutineLaws(env: Env, s: Session)
    requires ValidEnv(env) && Inv(s) && !s.wait && Balanced(env, s)
    ensures var r := Routine(env, s);
            && Balanced(env, r)
            && r.taken + r.readBuf == s.taken + s.readBuf
            && s.sent <= r.sent && |r.sent| <= |s.sent| + (if s.phase == ShuttingDown then 0 else 1)
            && (s.phase == ShuttingDown ==> r.phase == ShuttingDown)
    decreases Rank(s.phase)
  {
    DispatchProgress(env, s);
    DispatchLaws(env, s);
    var r := Dispatch(env, s);
    if !r.wait { RoutineLaws(env, r); }
  }

  /**
   One read: no byte is lost or duplicated between what the session has consumed and what it still holds, at most one
   response is sent, and a session that is shutting down sends nothing more.
   */
  lemma OnReadLaws(env: Env, s: Session, chunk: bytes)
    requires ValidEnv(env) && Inv(s) && Balanced(env, s)
    ensures var r := OnRead(env, s, chunk);
            && Balanced(env, r)
            && r.taken + r.readBuf == s.taken + s.readBuf + chunk
            && s.sent <= r.sent && |r.sent| <= |s.sent| + 1
            && (s.phase == ShuttingDown ==> r.phase == ShuttingDown && r.sent == s.sent)
  {
    RoutineLaws(env, s.(readBuf := s.readBuf + chunk, wait := false));
  }

  /** Over any run from the opening of a session, all bytes received are accounted for and all answers are in order. */
  lemma {:induction false} RunLaws(env: Env, s: Session, chunks: seq<bytes>)
    requires ValidEnv(env) && Inv(s) && Balanced(env, s)
    ensures var r := OnReads(env, s, chunks);
            && Balanced(env, r)
            && r.taken + r.readBuf == s.taken + s.readBuf + Flatten(chunks)
            && s.sent <= r.sent && |r.sent| <= |s.sent| + |chunks|
            && (s.phase == ShuttingDown ==> r.phase == ShuttingDown && r.sent == s.sent)
    decreases chunks
  {
    if chunks != [] {
      OnReadLaws(env, s, chunks[0]);
      RunLaws(env, OnRead(env, s, chunks[0]), chunks[1..]);
    }
  }

  /** Responses that have been sent stay sent, and requests that have been handled stay handled. */
  lemma {:induction false} SentByRoutine(env: Env, s: Session)
    requires ValidEnv(env) && Inv(s) && !s.wait
    ensures s.sent <= Routine(env, s).sent && s.handled <= Routine(env, s).handled
    decreases Rank(s.phase)
  {
    hide WaitForHeaders, ProcessHeaders;
    SentByState(env, s);
    RoutineStep(env, s);
    DispatchProgress(env, s);
    var r := Dispatch(env, s);
    if !r.wait { SentByRoutine(env, r); }
  }

  lemma SentByState(env: Env, s: Session)
    requires ValidEnv(env) && Inv(s)
    ensures s.sent <= Dispatch(env, s).sent && s.handled <= Dispatch(env, s).handled
  {
  }

  lemma {:induction false} SentByReads(env: Env, s: Session, chunks: seq<bytes>)
    requires ValidEnv(env) && Inv(s)
    ensures s.sent <= OnReads(env, s, chunks).sent && s.handled <= OnReads(env, s, chunks).handled
    decreases chunks
  {
    if chunks != [] {
      SentByRoutine(env, s.(readBuf := s.readBuf + chunks[0], wait := false));
      SentByReads(env, OnRead(env, s, chunks[0]), chunks[1..]);
    }
  }

  // ----- Where strtol stops

  /**
   Reading a number from a header of `head` gives the same whatever follows the head, exactly if
   something that is not white space follows the colon within the head.  An empty Content-Length at the end of the head
   is read out of the body.
   */
  lemma StrtolSettled(head: bytes, i: nat)
    requires i < |head| && head[|head| - 1] == '\n'
    ensures (forall x: bytes :: Strtol(head + x, i) == Strtol(head, i)) <==> exists k :: i <= k < |head| && !IsSpace(head[k])
  {
    if k :| i <= k < |head| && !IsSpace(head[k]) {
      forall x: bytes ensures Strtol(head + x, i) == Strtol(head, i) { StrtolStops(head, x, i, k); }
    } else {
      StrtolRunsOff(head, i, "1");
      assert Strtol(head + "1", i) != Strtol(head, i);
    }
  }

  lemma {:induction false} DigitsStop(head: bytes, x: bytes, i: nat, v: nat)
    requires i < |head| && head[|head| - 1] == '\n'
    ensures DigitsValue(head + x, i, v) == DigitsValue(head, i, v)
    decreases |head| - i
  {
    if IsDigit(head[i]) { DigitsStop(head, x, i + 1, v * 10 + (head[i] as int - '0' as int)); }
  }

  lemma {:induction false} StrtolStops(head: bytes, x: bytes, i: nat, k: nat)
    requires i <= k < |head| && !IsSpace(head[k]) && head[|head| - 1] == '\n'
    ensures Strtol(head + x, i) == Strtol(head, i)
    decreases k - i
  {
    if IsSpace(head[i]) {
      StrtolStops(head, x, i + 1, k);
    } else {
      DigitsStop(head, x, i, 0);
      DigitsStop(head, x, i + 1, 0);
    }
  }

  lemma {:induction false} StrtolRunsOff(head: bytes, i: nat, x: bytes)
    requires i <= |head| && forall k :: i <= k < |head| ==> IsSpace(head[k])
    ensures Strtol(head, i) == 0 && Strtol(head + x, i) == Strtol(x, 0)
    decreases |head| - i
  {
    if i < |head| { StrtolRunsOff(head, i + 1, x); } else { StrtolShift(head, x, 0); }
  }

  lemma {:induction false} StrtolShift(head: bytes, x: bytes, i: nat)
    requires i <= |x|
    ensures Strtol(head + x, |head| + i) == Strtol(x, i)
    decreases |x| - i
  {
    if i < |x| {
      if IsSpace(x[i]) {
        StrtolShift(head, x, i + 1);
      } else {
        DigitsShift(head, x, i, 0);
        DigitsShift(head, x, i + 1, 0);
      }
    }
  }

  lemma {:induction false} DigitsShift(head: bytes, x: bytes, i: nat, v: nat)
    requires i <= |x|
    ensures DigitsValue(head + x, |head| + i, v) == DigitsValue(x, i, v)
    decreases |x| - i
  {
    if i < |x| && IsDigit(x[i]) { DigitsShift(head, x, i + 1, v * 10 + (x[i] as int - '0' as int)); }
  }
}
