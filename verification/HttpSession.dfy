/**
 The HTTP session as it runs: a loop over states, each a method that updates the session's fields.
 Every read is proved to change the session as SessionSpec.OnRead says.
 */
module HttpSessions {
  import opened Bytes
  import opened ByteArrays
  import opened PicoSpec
  import opened TcpSessions
  import opened SessionSpec

  lemma ScanNothing(head: bytes, keep: bool, len: int)
    ensures KeepAliveAfter(head, [], keep) == keep && BodyLenAfter(head, [], len) == len
  {
  }

  lemma ScanOneMore(head: bytes, hs: seq<Header>, i: nat, keep: bool, len: int)
    requires i < |hs| && forall h :: h in hs ==> h.Within(|head|)
    ensures KeepAliveAfter(head, hs[..i + 1], keep) ==
            if IsConnection(head, hs[i]) then AsksToKeep(hs[i].value.Of(head)) else KeepAliveAfter(head, hs[..i], keep)
    ensures BodyLenAfter(head, hs[..i + 1], len) ==
            if IsContentLength(head, hs[i]) then ToInt(Strtol(head, hs[i].value.lo)) else BodyLenAfter(head, hs[..i], len)
  {
    assert hs[..i + 1][..i] == hs[..i];
  }

  lemma EnvGives(env: Env, data: bytes, n: nat)
    requires ValidEnv(env)
    ensures var buf, p := env.copy(data), env.parse(env.copy(data), n);
            && |buf| == |data| && p.res <= |buf|
            && (p.res > 0 ==> forall h :: h in p.request.headers ==> h.Within(|buf|))
  {
    var p := env.parse(env.copy(data), n);
    if p.res > 0 {
      forall h | h in p.request.headers ensures h.Within(|data|) { assert h.Within(p.res); }
    }
  }

  /** What the session makes of a read, as the connection sees it. */
  function HttpReaction(env: Env, s: Session, data: bytes): Reaction
    requires ValidEnv(env) && Inv(s)
  {
    var r := OnRead(env, s, data);
    var sends := |r.sent| > |s.sent|;
    Reaction(sends, if sends then r.sent[|r.sent| - 1] else [], r.closing)
  }

  lemma ReactionIs(env: Env, s: Session, data: bytes, c: Conn, d: Conn)
    requires ValidEnv(env) && Inv(s) && s.sent <= OnRead(env, s, data).sent
    requires var r := OnRead(env, s, data);
             && d.unread == [] && d.writeBufOffset == c.writeBufOffset && d.closing == (c.closing || r.closing)
             && (if r.sent == s.sent then d.writeBuf == c.writeBuf && d.writeBufLen == c.writeBufLen
                 else d.writeBuf == r.sent[|r.sent| - 1] && d.writeBufLen == |d.writeBuf|)
    ensures d == React(c, HttpReaction(env, s, data))
  {
    hide ValidEnv, OnRead;
  }

  class HttpSession {
    const env: Env
    const tcp: TcpSession
    const readBuf: ByteArray
    var state: Phase
    var shouldWait: bool
    var lastHeadersLen: nat
    var keepAlive: bool
    var headersRaw: bytes
    var headersLen: nat
    var request: Request
    var bodyLen: int
    var body: bytes
    var response: bytes
    ghost var closing: bool
    ghost var taken: bytes
    /** What handlers may go by, in whatever they have stored or measured since. */
    var handled: seq<Call>
    ghost var sent: seq<bytes>

    /** The objects of the session, apart from the storage of its buffers. */
    ghost predicate Valid()
      reads this, readBuf, tcp
    {
      && ValidEnv(env) && readBuf.Valid() && tcp.Valid()
      && readBuf.data != tcp.readBuf
      && headersLen <= |headersRaw|
      && (state == ProcessingHeaders ==> forall h :: h in request.headers ==> h.Within(|headersRaw|))
      && (state == ShuttingDown ==> !keepAlive) && (closing ==> state == ShuttingDown && tcp.wantToClose)
    }

    ghost function View(): Session
      requires readBuf.Valid()
      reads this, readBuf, readBuf.data
    {
      Session(state, shouldWait, readBuf.Contents(), lastHeadersLen, keepAlive, headersRaw, headersLen, request,
              bodyLen, body, response, closing, taken, handled, sent)
    }

    constructor (env: Env, tcp: TcpSession)
      requires ValidEnv(env) && tcp.Valid()
      ensures Valid() && View() == OPENED && this.env == env && this.tcp == tcp && fresh(readBuf)
    {
      this.env, this.tcp := env, tcp;
      readBuf := new ByteArray();
      state, shouldWait, lastHeadersLen, keepAlive := Idle, true, 0, true;
      headersRaw, headersLen, request, bodyLen, body, response := [], 0, NO_REQUEST, 0, [], [];
      closing, taken, handled, sent := false, [], [], [];
    }

    method ProcessStateWaitingForHeaders()
      requires Valid() && state == WaitingForHeaders
      modifies this, readBuf, readBuf.data
      ensures Valid() && readBuf.data == old(readBuf.data)
      ensures View() == WaitForHeaders(env, old(View())) && sent == old(sent) && closing == old(closing)
    {
      hide ValidEnv;
      var data := readBuf.Read();
      EnvGives(env, data, lastHeadersLen);
      var buf := env.copy(data);
      var parsed := env.parse(buf, lastHeadersLen);
      if parsed.res > 0 {
        TakeHead(buf, parsed, data);
      } else if parsed.res == -2 {
        WaitForMoreHeaders();
      } else {
        response := env.reject(handled, keepAlive);
        keepAlive := false;
        state := Responding;
      }
    }

    method WaitForMoreHeaders()
      requires Valid()
      modifies this
      ensures Valid() && sent == old(sent) && closing == old(closing)
      ensures View() == old(View()).(head := [], headLen := 0, request := NO_REQUEST, bodyLen := 0, body := [],
                                     lastHeadersLen := |old(readBuf.Contents())|, wait := true)
    {
      hide ValidEnv;
      ResetRequest();
      lastHeadersLen := readBuf.size;
      shouldWait := true;
    }

    method TakeHead(buf: bytes, parsed: Parsed, ghost data: bytes)
      requires Valid() && !closing && data == readBuf.Contents() && 0 < parsed.res <= |data| == |buf|
      requires forall h :: h in parsed.request.headers ==> h.Within(|buf|)
      modifies this, readBuf, readBuf.data
      ensures Valid() && readBuf.data == old(readBuf.data)
      ensures View() == old(View()).(phase := ProcessingHeaders, head := buf, headLen := parsed.res, request := parsed.request,
                                     readBuf := data[parsed.res..], taken := old(taken) + data[..parsed.res])
    {
      hide ValidEnv;
      ghost var s := View();
      request := parsed.request;
      headersRaw := buf;
      headersLen := parsed.res;
      readBuf.Truncate(parsed.res);
      assert readBuf.Contents() == data[parsed.res..];
      taken := taken + data[..parsed.res];
      state := ProcessingHeaders;
      assert View() == s.(phase := ProcessingHeaders, head := buf, headLen := parsed.res, request := parsed.request,
                          readBuf := data[parsed.res..], taken := s.taken + data[..parsed.res]);
    }

    method ResetRequest()
      requires Valid()
      modifies this`headersRaw, this`headersLen, this`request, this`bodyLen, this`body
      ensures Valid() && View() == old(View()).(head := [], headLen := 0, request := NO_REQUEST, bodyLen := 0, body := [])
    {
      hide ValidEnv;
      headersRaw, headersLen, request, bodyLen, body := [], 0, NO_REQUEST, 0, [];
    }

    method ProcessStateProcessingHeaders()
      requires Valid() && state == ProcessingHeaders
      modifies this
      ensures Valid()
      ensures View() == ProcessHeaders(old(View())) && sent == old(sent) && closing == old(closing)
    {
      hide ValidEnv, KeepAliveAfter, BodyLenAfter;
      ScanHeaders();
      state := WaitingForBody;
    }

    /** The loop over the headers; cookies and dates are left to the request handlers. */
    method ScanHeaders()
      requires Valid() && state == ProcessingHeaders
      modifies `keepAlive, `bodyLen
      ensures keepAlive == KeepAliveAfter(headersRaw, request.headers, old(keepAlive))
      ensures bodyLen == BodyLenAfter(headersRaw, request.headers, old(bodyLen))
    {
      hide ValidEnv, KeepAliveAfter, BodyLenAfter, Named, Strtol, ToInt, AsksToKeep;
      var hs := request.headers;
      ScanNothing(headersRaw, keepAlive, bodyLen);
      assert hs[..|hs|] == hs;
      for i := 0 to |hs|
        invariant keepAlive == KeepAliveAfter(headersRaw, hs[..i], old(keepAlive))
        invariant bodyLen == BodyLenAfter(headersRaw, hs[..i], old(bodyLen))
      {
        var h := hs[i];
        ScanOneMore(headersRaw, hs, i, old(keepAlive), old(bodyLen));
        assert h in hs;
        if IsConnection(headersRaw, h) {
          keepAlive := AsksToKeep(h.value.Of(headersRaw));
        } else if IsContentLength(headersRaw, h) {
          bodyLen := ToInt(Strtol(headersRaw, h.value.lo));
        }
      }
    }

    method ProcessStateWaitingForBody()
      requires Valid() && state == WaitingForBody
      modifies this, readBuf, readBuf.data
      ensures Valid() && readBuf.data == old(readBuf.data)
      ensures View() == WaitForBody(old(View())) && sent == old(sent) && closing == old(closing)
    {
      hide ValidEnv;
      var pending := bodyLen - readBuf.size;
      if pending != 0 {
        shouldWait := true;
      } else {
        TakeBody();
      }
    }

    method TakeBody()
      requires Valid() && state == WaitingForBody && bodyLen == readBuf.size
      modifies this, readBuf, readBuf.data
      ensures Valid() && readBuf.data == old(readBuf.data)
      ensures View() == WaitForBody(old(View())) && sent == old(sent) && closing == old(closing)
    {
      hide ValidEnv;
      ghost var s := View();
      var all := readBuf.Read();
      readBuf.Truncate(bodyLen);
      assert readBuf.Contents() == [];
      body := all;
      taken := taken + all;
      state := ProcessingRequest;
      assert View() == s.(phase := ProcessingRequest, body := all, readBuf := [], taken := s.taken + all);
    }

    method ProcessStateProcessingRequest()
      requires Valid() && state == ProcessingRequest
      modifies this
      ensures Valid()
      ensures View() == ProcessRequest(env, old(View())) && sent == old(sent) && closing == old(closing)
    {
      hide ValidEnv;
      var call := Call(headersRaw[..headersLen], request, body);
      response := env.respond(handled, call, keepAlive);
      handled := handled + [call];
      state := Responding;
    }

    method ProcessStateResponding()
      requires Valid() && state == Responding
      modifies this, tcp, tcp.fdH`wantWrite
      ensures Valid() && Sent(old(response))
      ensures View() == SessionSpec.Respond(old(View())) && closing == old(closing)
    {
      hide ValidEnv;
      Respond();
      ResetRequest();
      response := [];
      if !keepAlive {
        state := ShuttingDown;
        return;
      }
      shouldWait := true;
      state := Idle;
    }

    /** The response has gone to the connection, and nothing else about the connection has changed. */
    twostate predicate Sent(r: bytes)
      reads this, tcp
    {
      && sent == old(sent) + [r]
      && tcp.writeBuf == r && tcp.writeBufLen == |r| && tcp.writeBufOffset == old(tcp.writeBufOffset)
      && tcp.readBufLen == old(tcp.readBufLen) && tcp.wantToClose == old(tcp.wantToClose)
    }

    method Respond()
      requires Valid()
      modifies this`sent, tcp, tcp.fdH`wantWrite
      ensures Valid() && Sent(response)
      ensures View() == old(View()).(sent := old(sent) + [response])
    {
      hide ValidEnv;
      tcp.Send(response);
      sent := sent + [response];
    }

    /** What a round of the loop promises besides the session's own state. */
    twostate predicate Framed()
      reads this, readBuf, tcp, tcp.fdH
    {
      && readBuf.data == old(readBuf.data)
      && tcp.readBufLen == old(tcp.readBufLen)
      && tcp.wantToClose == (old(tcp.wantToClose) || closing) && (old(closing) ==> closing)
      && old(sent) <= sent
      && (sent == old(sent) ==> tcp.writeBuf == old(tcp.writeBuf) && tcp.writeBufLen == old(tcp.writeBufLen))
      && (sent != old(sent) ==> tcp.writeBuf == sent[|sent| - 1] && tcp.writeBufLen == |tcp.writeBuf|)
      && tcp.writeBufOffset == old(tcp.writeBufOffset)
    }

    /** The switch over the states. */
    method DispatchState()
      requires Valid() && !shouldWait
      modifies this, readBuf, readBuf.data, tcp, tcp.fdH
      ensures Valid() && Framed()
      ensures View() == Dispatch(env, old(View()))
    {
      hide ValidEnv, WaitForHeaders, ProcessHeaders, WaitForBody, ProcessRequest, SessionSpec.Respond;
      match state {
        case Idle => state := WaitingForHeaders;
        case WaitingForHeaders => ProcessStateWaitingForHeaders();
        case ProcessingHeaders => ProcessStateProcessingHeaders();
        case WaitingForBody => ProcessStateWaitingForBody();
        case ProcessingRequest => ProcessStateProcessingRequest();
        case Responding => ProcessStateResponding();
        case ShuttingDown =>
          tcp.Shutdown();
          closing := true;
          shouldWait := true;
      }
    }

    /** The loop over the states, until one of them waits. */
    method Routine()
      requires Valid() && !shouldWait
      modifies this, readBuf, readBuf.data, tcp, tcp.fdH
      ensures Valid() && Framed()
      ensures View() == SessionSpec.Routine(env, old(View()))
    {
      hide ValidEnv, SessionSpec.Routine, Dispatch;
      ghost var goal := SessionSpec.Routine(env, View());
      while true
        invariant Valid() && Framed() && !shouldWait
        invariant SessionSpec.Routine(env, View()) == goal
        decreases Rank(state)
      {
        DispatchProgress(env, View());
        RoutineStep(env, View());
        DispatchState();
        if shouldWait {
          return;
        }
      }
    }

    /**
     A read: what has arrived is appended, and the states run.  The connection is given what the session
     sends, and is shut down when the session closes.
     */
    method OnRead()
      requires Valid()
      modifies this, readBuf, readBuf.data, tcp, tcp.fdH
      ensures Valid() && (readBuf.data == old(readBuf.data) || fresh(readBuf.data))
      ensures View() == SessionSpec.OnRead(env, old(View()), old(tcp.Unread()))
      ensures tcp.View() == React(old(tcp.View()), HttpReaction(env, old(View()), old(tcp.Unread())))
    {
      hide ValidEnv, SessionSpec.Routine, HttpReaction, React;
      var chunk := tcp.GetReadBuf();
      readBuf.Append(chunk);
      shouldWait := false;
      Routine();
      ReactionIs(env, old(View()), old(tcp.Unread()), old(tcp.View()), tcp.View());
    }

    /**
     The connection's descriptor is readable: the connection and the session change together, the connection as it does for
     this session's reaction.
     */
    method OnReadable(input: bytes, failed: bool)
      requires Valid() && |input| <= READ_BUF_SIZE - tcp.readBufLen
      modifies this, readBuf, readBuf.data, tcp, tcp.fdH, tcp.readBuf
      ensures Valid() && (readBuf.data == old(readBuf.data) || fresh(readBuf.data))
      ensures View() == if failed || input == [] then old(View()) else SessionSpec.OnRead(env, old(View()), old(tcp.Unread()) + input)
      ensures tcp.View() == AfterRead(old(tcp.View()), input, failed, HttpReaction(env, old(View()), old(tcp.Unread()) + input))
    {
      hide ValidEnv, SessionSpec.OnRead;
      var ok := tcp.ReadToBuf(input, failed);
      if !ok {
        tcp.Shutdown();
        return;
      }
      OnRead();
    }
  }
}
