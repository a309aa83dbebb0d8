/**
 A connection and its HTTP session together: what a client receives over a run of reads and writes.
 */
module Connections {
  import opened Bytes
  import opened TcpSessions
  import opened SessionSpec
  import opened SessionLaws
  import opened HttpSessions

  /** The state of both, and what the socket has taken so far. */
  datatype Line = Line(conn: Conn, session: Session, out: bytes)

  const NEW_LINE := Line(NEW_CONN, OPENED, [])

  /** A read, which gives some bytes or fails, or a write, which takes n bytes. */
  datatype Event = Arrives(data: bytes, failed: bool) | Departs(n: int, stray: bytes)

  /** The event as the connection sees it. */
  function IoOf(env: Env, l: Line, e: Event): Io
    requires ValidEnv(env) && Inv(l.session)
  {
    match e
    case Arrives(data, failed) => Input(data, failed, HttpReaction(env, l.session, l.conn.unread + data))
    case Departs(n, stray) => Output(n, stray)
  }

  ghost predicate Fits(env: Env, l: Line, e: Event) {
    ValidEnv(env) && Inv(l.session) && l.conn.Sized() && Possible(l.conn, IoOf(env, l, e))
  }

  function Next(env: Env, l: Line, e: Event): (r: Line)
    requires Fits(env, l, e)
    ensures Inv(r.session) && r.conn.Sized()
  {
    var io := IoOf(env, l, e);
    StaysSized(l.conn, io);
    Line(After(l.conn, io),
         if e.Arrives? && !e.failed && e.data != [] then OnRead(env, l.session, l.conn.unread + e.data) else l.session,
         l.out + Written(l.conn, io))
  }

  /** Every write takes no more than it is given. */
  ghost predicate AllFit(env: Env, l: Line, es: seq<Event>)
    decreases es
  {
    es != [] ==> Fits(env, l, es[0]) && AllFit(env, Next(env, l, es[0]), es[1..])
  }

  ghost function Run(env: Env, l: Line, es: seq<Event>): Line
    requires AllFit(env, l, es)
    decreases es
  {
    if es == [] then l else Run(env, Next(env, l, es[0]), es[1..])
  }

  /** The same run as the connection sees it. */
  ghost function IosOf(env: Env, l: Line, es: seq<Event>): seq<Io>
    requires AllFit(env, l, es)
    decreases es
  {
    if es == [] then [] else [IoOf(env, l, es[0])] + IosOf(env, Next(env, l, es[0]), es[1..])
  }

  lemma {:induction false} RunOfConnection(env: Env, l: Line, es: seq<Event>)
    requires AllFit(env, l, es) && l.conn.Sized()
    ensures var ios, r := IosOf(env, l, es), Run(env, l, es);
            AllPossible(l.conn, ios) && AfterAll(l.conn, ios) == r.conn && r.out == l.out + WrittenAll(l.conn, ios)
    decreases es
  {
    hide After, Possible, Written, ValidEnv, OnRead, IoOf;
    if es == [] {
      assert l.out + [] == l.out;
    } else {
      var io, m, ios := IoOf(env, l, es[0]), Next(env, l, es[0]), IosOf(env, Next(env, l, es[0]), es[1..]);
      RunOfConnection(env, m, es[1..]);
      assert ([io] + ios)[1..] == ios;
      Regroup(l.out, Written(l.conn, io), WrittenAll(m.conn, ios));
    }
  }

  lemma FlattenAppend(a: seq<bytes>, x: bytes)
    ensures Flatten(a + [x]) == Flatten(a) + x
  {
    if a == [] {
      assert a + [x] == [x] && x + [] == x;
    } else {
      assert (a + [x])[1..] == a[1..] + [x];
      FlattenAppend(a[1..], x);
      Regroup(a[0], Flatten(a[1..]), x);
    }
  }

  /** What one event adds to the responses is what it hands to the connection. */
  lemma StepSends(env: Env, l: Line, e: Event)
    requires Fits(env, l, e) && Balanced(env, l.session)
    ensures var r := Next(env, l, e);
            && Balanced(env, r.session)
            && Flatten(r.session.sent) == Flatten(l.session.sent) + Reply(IoOf(env, l, e))
            && l.session.sent <= r.session.sent
            && (Sends(IoOf(env, l, e)) <==> r.session.sent != l.session.sent)
  {
    hide ValidEnv, OnRead, Balanced;
    var s, r := l.session, Next(env, l, e);
    assert Flatten(s.sent) + [] == Flatten(s.sent);
    if e.Arrives? && !e.failed && e.data != [] {
      OnReadLaws(env, s, l.conn.unread + e.data);
      if |r.session.sent| > |s.sent| {
        var last := r.session.sent[|s.sent|];
        assert r.session.sent == s.sent + [last];
        FlattenAppend(s.sent, last);
      } else {
        assert r.session.sent == s.sent;
      }
    }
  }

  lemma {:induction false} RunOfSession(env: Env, l: Line, es: seq<Event>)
    requires AllFit(env, l, es) && Balanced(env, l.session)
    ensures var r := Run(env, l, es);
            Balanced(env, r.session) && Flatten(r.session.sent) == Flatten(l.session.sent) + Replies(IosOf(env, l, es))
    decreases es
  {
    hide ValidEnv, Balanced, Next, IoOf, Reply;
    if es == [] {
      assert Flatten(l.session.sent) + [] == Flatten(l.session.sent);
    } else {
      var io, m, ios := IoOf(env, l, es[0]), Next(env, l, es[0]), IosOf(env, Next(env, l, es[0]), es[1..]);
      StepSends(env, l, es[0]);
      RunOfSession(env, m, es[1..]);
      assert ([io] + ios)[1..] == ios;
      Regroup(Flatten(l.session.sent), Reply(io), Replies(ios));
    }
  }

  /** Whenever a response is sent, the one before has been written. */
  ghost predicate InTurn(env: Env, l: Line, es: seq<Event>)
    requires AllFit(env, l, es)
    decreases es
  {
    es != [] ==>
      var m := Next(env, l, es[0]);
      (m.session.sent != l.session.sent ==> l.conn.writeBufLen == 0) && InTurn(env, m, es[1..])
  }

  lemma {:induction false} InTurnIsUninterrupted(env: Env, l: Line, es: seq<Event>)
    requires AllFit(env, l, es) && l.conn.Sized() && Balanced(env, l.session)
    requires AllPossible(l.conn, IosOf(env, l, es))
    ensures InTurn(env, l, es) <==> Uninterrupted(l.conn, IosOf(env, l, es))
    decreases es
  {
    hide ValidEnv, Balanced, OnRead, After, Written, Sends, IoOf;
    if es != [] {
      var io, m, ios := IoOf(env, l, es[0]), Next(env, l, es[0]), IosOf(env, Next(env, l, es[0]), es[1..]);
      StepSends(env, l, es[0]);
      assert ([io] + ios)[1..] == ios;
      InTurnIsUninterrupted(env, m, es[1..]);
    }
  }

  /**
   From the opening of a connection on, over any run of reads and writes: the responses answer the requests in order, and
   what the client gets is these responses one after the other, as far as they have been written, exactly
   if each was sent only when the one before had been written.
   */
  lemma ResponsesInOrder(env: Env, es: seq<Event>)
    requires AllFit(env, NEW_LINE, es)
    ensures var r := Run(env, NEW_LINE, es);
            && Balanced(env, r.session)
            && (MakesUp(r.conn, r.out, Flatten(r.session.sent)) <==> InTurn(env, NEW_LINE, es))
  {
    hide ValidEnv, Next, MakesUp, Fits;
    var ios := IosOf(env, NEW_LINE, es);
    RunOfConnection(env, NEW_LINE, es);
    RunOfSession(env, NEW_LINE, es);
    InTurnIsUninterrupted(env, NEW_LINE, es);
    RepliesInOrder(NEW_LINE.conn, ios);
    assert [] + Replies(ios) == Replies(ios);
    assert [] + WrittenAll(NEW_LINE.conn, ios) == WrittenAll(NEW_LINE.conn, ios);
  }
}
