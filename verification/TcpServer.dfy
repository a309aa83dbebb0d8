/**
 The server: its array of sessions, and the selector that watches them.  Through accepting, reading,
 closing and timing out, the two agree on who is there.
 */
module TcpServers {
  import opened Bytes
  import opened Sequences
  import opened Sue
  import opened TcpSessions

  const MAX_FD := 1024

  /** How many descriptors an fd_set has room for. */
  const FD_SETSIZE := 1024

  /** What happens at a descriptor that is ready: what can be read, what the layer above does, what a write takes. */
  datatype Event = Event(input: bytes, readFails: bool, reaction: Reaction, written: int)

  /** What a read takes: all, or as much as there is room for. */
  function Admitted(c: Conn, input: bytes): (r: bytes)
    ensures r <= input && (|c.unread| <= READ_BUF_SIZE ==> |c.unread + r| <= READ_BUF_SIZE)
    ensures r == input || |c.unread + r| >= READ_BUF_SIZE
  {
    var room := READ_BUF_SIZE - |c.unread|;
    if room < 0 then [] else if |input| > room then input[..room] else input
  }

  /** A ready descriptor: a read takes what there is room for, and then a write no more than is left to be written. */
  function AfterEvent(c: Conn, r: bool, w: bool, event: Event): Conn {
    var d := if r then AfterRead(c, Admitted(c, event.input), event.readFails, event.reaction) else c;
    if w then AfterWrite(d, d.Capped(event.written)) else d
  }

  /** The same as a run of at most two steps, the read coming first; `stray` is what a write beyond the buffer takes. */
  function Steps(c: Conn, r: bool, w: bool, event: Event, stray: nat -> bytes): seq<Io> {
    var read := if r then [Input(Admitted(c, event.input), event.readFails, event.reaction)] else [];
    var d := if r then AfterRead(c, Admitted(c, event.input), event.readFails, event.reaction) else c;
    var n := d.Capped(event.written);
    read + if w then [Output(n, if n > 0 then stray(n) else [])] else []
  }

  /** What happens at a ready descriptor is such a run, and a write that fails or takes nothing ends the connection. */
  lemma EventIsRun(c: Conn, r: bool, w: bool, event: Event, stray: nat -> bytes)
    requires c.Sized() && forall n :: |stray(n)| == n
    ensures var ios := Steps(c, r, w, event, stray);
            AllPossible(c, ios) && AfterAll(c, ios) == AfterEvent(c, r, w, event)
    ensures w && event.written <= 0 ==> AfterEvent(c, r, w, event).closing
  {
    hide Admitted;
    var d := if r then AfterRead(c, Admitted(c, event.input), event.readFails, event.reaction) else c;
    var ios := Steps(c, r, w, event, stray);
    if r && w {
      assert ios[1..] == [ios[1]];
      RunOfOne(d, ios[1]);
    } else if r || w {
      assert ios == [ios[0]];
      RunOfOne(c, ios[0]);
    }
  }

  lemma RunOfOne(c: Conn, io: Io)
    requires Possible(c, io)
    ensures AllPossible(c, [io]) && AfterAll(c, [io]) == After(c, io)
  {
    assert [io][1..] == [];
    assert AfterAll(After(c, io), []) == After(c, io);
  }

  /** What the layer above sends is never empty. */
  predicate Speaks(event: Event) {
    event.reaction.sends ==> event.reaction.reply != []
  }

  /** What accept meets: whether a connection is waiting, and whether its socket can be put into blocking mode. */
  datatype Arrival = Arrival(connecting: bool, blocking: bool)

  /**
   What one turn of the event loop meets: whether pselect fails, what it finds ready, the time then and when the
   handlers run, and the descriptors that are open besides the watched ones.
   */
  datatype Turn = Turn(fails: bool, readable: set<nat>, writable: set<nat>, sec: int, usec: Micros, thenSec: int, thenUsec: Micros,
                       events: nat -> Event, arrival: Arrival, others: set<nat>)

  /** When a session was accepted or last read from, as its deadline tells. */
  ghost function LastUse(s: TcpSession): int
    reads s.toutH
  {
    s.toutH.Deadline() - Time(IDLE_TIMEOUT, 0)
  }

  class TcpServer {
    const selector: Selector
    const listenFdH: FdHandler
    const sessions: array<TcpSession?>
    var nSessions: nat
    ghost var live: set<TcpSession>

    /** The array holds the live sessions, each once. */
    ghost predicate Listed()
      reads `nSessions, `live, sessions
    {
      && sessions.Length == MAX_FD && nSessions == |live| <= MAX_FD
      && (forall i :: 0 <= i < nSessions ==> sessions[i] in live)
      && (forall i, j :: 0 <= i < j < nSessions ==> sessions[i] != sessions[j])
      && (forall s :: s in live ==> exists i :: 0 <= i < nSessions && sessions[i] == s)
    }

    /** Descriptors and timeout handlers are not shared. */
    ghost predicate Apart(ss: set<TcpSession>)
    {
      && (forall s :: s in ss ==> s.fdH.fd <= MAX_FD && s.fdH.fd != listenFdH.fd)
      && (forall s, t :: s in ss && t in ss && s != t ==> s.fdH.fd != t.fdH.fd && s.toutH != t.toutH && s.readBuf != t.readBuf)
    }

    /** Just the listening handler and those of the live sessions are registered, each under its descriptor. */
    ghost predicate Watched()
      reads `live, selector`fdHandlers, selector`maxFd, selector.fdHandlers
    {
      && listenFdH.fd <= MAX_FD && selector.maxFd <= MAX_FD
      && selector.At(listenFdH.fd) == listenFdH
      && (forall s :: s in live ==> selector.At(s.fdH.fd) == s.fdH)
      && (forall fd: nat :: selector.At(fd) != null ==>
            selector.At(fd) == listenFdH || exists s :: s in live && selector.At(fd) == s.fdH)
    }

    /** Each live session, but the one whose timeout is being handled, has exactly one entry in the list of timeouts. */
    ghost predicate Timed(handling: set<TcpSession>)
      reads `live, selector`timeouts
    {
      && NoRepeats(selector.timeouts)
      && (forall s :: s in live - handling ==> s.toutH in selector.timeouts)
      && (forall t :: t in selector.timeouts ==> exists s :: s in live - handling && s.toutH == t)
    }

    ghost predicate Consistent(handling: set<TcpSession>)
      reads this, sessions, selector, selector.fdHandlers, selector.timeouts
    {
      handling <= live && selector.Valid() && Listed() && Apart(live) && Watched() && Timed(handling)
    }

    ghost predicate Valid()
      reads this, sessions, selector, selector.fdHandlers, selector.timeouts
    {
      Consistent({})
    }

    /** Init: the listening descriptor is watched, and there are no sessions. */
    constructor (selector: Selector, listenFd: nat)
      requires selector.Valid() && selector.timeouts == [] && selector.maxFd == -1
      requires listenFd < selector.fdHandlers.Length + FD_HANDLERS_STEP && listenFd <= MAX_FD
      modifies selector, selector.fdHandlers
      ensures Valid() && live == {} && this.selector == selector && listenFdH.fd == listenFd && fresh(sessions)
    {
      this.selector := selector;
      listenFdH := new FdHandler(listenFd);
      sessions := new TcpSession?[MAX_FD](_ => null);
      nSessions, live := 0, {};
      new;
      listenFdH.wantRead := true;
      selector.RegisterFdHandler(listenFdH);
    }

    /** There is room in the array for one more session, for there are no more descriptors than that. */
    lemma Room(fd: nat)
      requires Apart(live) && listenFdH.fd <= MAX_FD && fd <= MAX_FD && fd != listenFdH.fd
      requires forall s :: s in live ==> s.fdH.fd != fd
      ensures |live| < MAX_FD
    {
      var fds: set<int> := set s | s in live :: s.fdH.fd;
      FdsOfLive(live);
      TwoLeftOut(fds, fd, listenFdH.fd);
    }

    static lemma {:induction false} FdsOfLive(ss: set<TcpSession>)
      requires forall s, t :: s in ss && t in ss && s != t ==> s.fdH.fd != t.fdH.fd
      ensures |set s | s in ss :: s.fdH.fd| == |ss|
    {
      if ss != {} {
        var x :| x in ss;
        var rest := ss - {x};
        FdsOfLive(rest);
        assert (set s | s in ss :: s.fdH.fd) == (set s | s in rest :: s.fdH.fd) + {x.fdH.fd};
      }
    }

    /**
     Accepts a connection, if accept gave a descriptor.  A descriptor above MAX_FD is closed again; a socket that
     cannot be put into blocking mode is not.
     */
    method CreateTcpSession(fd: int, blocking: bool, nowSec: int, nowUsec: Micros) returns (session: TcpSession?)
      requires Valid()
      requires fd == -1 || (0 <= fd < selector.fdHandlers.Length + FD_HANDLERS_STEP && selector.At(fd) == null)
      modifies this, sessions, selector, selector.fdHandlers
      ensures Valid() && (session != null <==> 0 <= fd <= MAX_FD && blocking)
      ensures session == null ==> unchanged(this) && unchanged(sessions) && unchanged(selector)
      ensures session == null ==> forall k: nat :: selector.At(k) == old(selector.At(k))
      ensures session != null ==> fresh(Owned(session)) && session.fdH.fd == fd && live == old(live) + {session}
      ensures session != null ==> LastUse(session) == Time(nowSec, nowUsec)
      ensures session != null ==> session.Valid() && session.View() == NEW_CONN && session.Attentive()
      ensures selector.fdHandlers == old(selector.fdHandlers) || fresh(selector.fdHandlers)
      ensures old(selector.fdHandlers.Length) <= selector.fdHandlers.Length
    {
      if fd == -1 || !blocking || fd > MAX_FD {
        return null;
      }
      Free(fd);
      session := Admit(fd, nowSec, nowUsec);
    }

    method Admit(fd: nat, nowSec: int, nowUsec: Micros) returns (session: TcpSession)
      requires selector.Valid() && Listed() && Apart(live) && Watched() && Timed({})
      requires fd < selector.fdHandlers.Length + FD_HANDLERS_STEP && selector.At(fd) == null
      requires fd <= MAX_FD && listenFdH.fd <= MAX_FD && fd != listenFdH.fd
      requires forall s :: s in live ==> s.fdH.fd != fd
      modifies this, sessions, selector, selector.fdHandlers
      ensures selector.Valid() && Listed() && Apart(live) && Watched() && Timed({})
      ensures fresh(Owned(session)) && session.fdH.fd == fd && live == old(live) + {session}
      ensures session.Valid() && session.View() == NEW_CONN && session.Attentive()
      ensures LastUse(session) == Time(nowSec, nowUsec)
      ensures selector.fdHandlers == old(selector.fdHandlers) || fresh(selector.fdHandlers)
      ensures old(selector.fdHandlers.Length) <= selector.fdHandlers.Length
    {
      hide Listed, Apart, Timed, Watched, NoRepeats, Selector.Valid, Selector.At;
      hide TcpSession.Valid, TcpSession.Writable, TcpSession.View, TcpSession.Unread, TcpSession.Pending, TcpSession.Attentive;
      Room(fd);
      EntriesDiffer({});
      session := Connect(fd, nowSec, nowUsec);
      ApartAfterAdd(live, session);
      Enlist(session);
      WatchedAfterAdd(session, fd);
      TimedAfterAdd(session);
    }

    /** Makes a session that the selector watches, and whose idle time it watches. */
    method Connect(fd: nat, nowSec: int, nowUsec: Micros) returns (session: TcpSession)
      requires selector.Valid() && NoRepeats(selector.timeouts)
      requires fd < selector.fdHandlers.Length + FD_HANDLERS_STEP
      modifies selector`maxFd, selector`fdHandlers, selector.fdHandlers, selector`timeouts
      ensures fresh(Owned(session)) && session.fdH.fd == fd
      ensures session.Valid() && session.View() == NEW_CONN && session.Attentive()
      ensures LastUse(session) == Time(nowSec, nowUsec)
      ensures selector.Valid() && NoRepeats(selector.timeouts)
      ensures selector.fdHandlers == old(selector.fdHandlers) || fresh(selector.fdHandlers)
      ensures old(selector.fdHandlers.Length) <= selector.fdHandlers.Length
      ensures forall k: nat :: selector.At(k) == if k == fd then session.fdH else old(selector.At(k))
      ensures selector.maxFd == if fd > old(selector.maxFd) then fd else old(selector.maxFd)
      ensures forall t :: t in selector.timeouts <==> t in old(selector.timeouts) || t == session.toutH
    {
      session := new TcpSession(fd);
      session.InitFdHandler(selector);
      InitIdleTout(session, nowSec, nowUsec);
    }

    /** A descriptor that is not registered belongs to no session. */
    lemma Free(fd: nat)
      requires Watched() && selector.At(fd) == null
      ensures listenFdH.fd <= MAX_FD && fd != listenFdH.fd && forall s :: s in live ==> s.fdH.fd != fd
    {
    }

    lemma ApartAfterAdd(ss: set<TcpSession>, session: TcpSession)
      requires Apart(ss) && session.fdH.fd <= MAX_FD && session.fdH.fd != listenFdH.fd
      requires forall s :: s in ss ==> s.fdH.fd != session.fdH.fd && s.toutH != session.toutH && s.readBuf != session.readBuf
      ensures Apart(ss + {session})
    {
    }

    twostate lemma WatchedAfterAdd(new session: TcpSession, fd: nat)
      requires session.fdH.fd == fd <= MAX_FD && old(Watched()) && old(selector.At(fd)) == null
      requires live == old(live) + {session}
      requires forall k: nat :: selector.At(k) == if k == fd then session.fdH else old(selector.At(k))
      requires selector.maxFd == if fd > old(selector.maxFd) then fd else old(selector.maxFd)
      ensures Watched()
    {
      forall k: nat | selector.At(k) != null && selector.At(k) != listenFdH
        ensures exists s :: s in live && selector.At(k) == s.fdH
      {
        if k == fd {
          assert session in live && selector.At(k) == session.fdH;
        } else {
          var s :| s in old(live) && old(selector.At(k)) == s.fdH;
          assert s in live && selector.At(k) == s.fdH;
        }
      }
    }

    lemma EntriesDiffer(handling: set<TcpSession>)
      requires Timed(handling)
      ensures NoRepeats(selector.timeouts)
    {
    }

    twostate lemma TimedAfterAdd(new session: TcpSession)
      requires old(Timed({})) && session.toutH !in old(selector.timeouts) && live == old(live) + {session}
      requires NoRepeats(selector.timeouts)
      requires forall t :: t in selector.timeouts <==> t in old(selector.timeouts) || t == session.toutH
      ensures Timed({})
    {
      forall t | t in selector.timeouts ensures exists s :: s in live - {} && s.toutH == t {
        if t == session.toutH {
          assert session in live - {} && session.toutH == t;
        } else {
          var s :| s in old(live) - {} && s.toutH == t;
          assert s in live - {} && s.toutH == t;
        }
      }
    }

    /** The session joins the array; the selector and the session itself stay as they are. */
    method Enlist(session: TcpSession)
      requires Listed() && |live| < MAX_FD && session !in live
      requires selector.Valid() && NoRepeats(selector.timeouts) && session.Valid()
      modifies `nSessions, `live, sessions
      ensures Listed() && live == old(live) + {session}
      ensures selector.Valid() && selector.timeouts == old(selector.timeouts)
      ensures session.Valid() && session.View() == old(session.View()) && session.Attentive() == old(session.Attentive())
    {
      hide Listed, NoRepeats, Selector.Valid, TcpSession.Valid, TcpSession.View, TcpSession.Attentive;
      AddSession(session);
    }

    method AddSession(session: TcpSession)
      requires Listed() && |live| < MAX_FD && session !in live
      modifies `nSessions, `live, sessions
      ensures Listed() && live == old(live) + {session}
    {
      ghost var before := sessions[..nSessions];
      sessions[nSessions] := session;
      nSessions := nSessions + 1;
      live := live + {session};
      assert forall i :: 0 <= i < nSessions ==> sessions[i] == if i < |before| then before[i] else session;
      forall s | s in live ensures exists i :: 0 <= i < nSessions && sessions[i] == s {
        if s == session {
          assert sessions[nSessions - 1] == s;
        } else {
          var i :| 0 <= i < |before| && before[i] == s;
          assert sessions[i] == s;
        }
      }
    }

    /** Sets the idle deadline of a session that has no entry in the list, and enters it. */
    method InitIdleTout(session: TcpSession, nowSec: int, nowUsec: Micros)
      requires selector.Valid() && session.toutH !in selector.timeouts && NoRepeats(selector.timeouts)
      modifies session.toutH, selector`timeouts
      ensures selector.Valid() && NoRepeats(selector.timeouts)
      ensures LastUse(session) == Time(nowSec, nowUsec)
      ensures forall t :: t in selector.timeouts <==> t in old(selector.timeouts) || t == session.toutH
    {
      session.toutH.SetFromNow(nowSec, nowUsec, IDLE_TIMEOUT, 0);
      ghost var ts := selector.timeouts;
      selector.RegisterTimeoutHandler(session.toutH);
      ghost var p :| 0 <= p <= |ts| && selector.timeouts == ts[..p] + [session.toutH] + ts[p..];
      NoRepeatsInsert(ts, p, session.toutH);
    }

    /** Takes a session's entry out of the list, if it has one. */
    method RemoveTout(session: TcpSession)
      requires selector.Valid() && NoRepeats(selector.timeouts)
      modifies selector`timeouts
      ensures selector.Valid() && NoRepeats(selector.timeouts)
      ensures forall t :: t in selector.timeouts <==> t in old(selector.timeouts) && t != session.toutH
    {
      ghost var ts := selector.timeouts;
      selector.RemoveTimeoutHandler(session.toutH);
      if session.toutH in ts {
        ghost var p :| 0 <= p < |ts| && ts[p] == session.toutH && selector.timeouts == ts[..p] + ts[p + 1..];
        NoRepeatsRemove(ts, p);
      }
    }

    /** Index of the session with the given descriptor; the source's loop stops one past it. */
    method IndexOf(session: TcpSession) returns (i: nat)
      requires Listed() && Apart(live) && session in live
      ensures i < nSessions && sessions[i] == session
    {
      ghost var k :| 0 <= k < nSessions && sessions[k] == session;
      i := 0;
      while sessions[i].fdH.fd != session.fdH.fd
        invariant i <= k
        decreases k - i
      {
        i := i + 1;
      }
    }

    /** Moves the entries after i down by one. */
    method ShiftDown(i: nat)
      requires i < nSessions <= sessions.Length
      modifies sessions
      ensures forall j :: 0 <= j < i ==> sessions[j] == old(sessions[j])
      ensures forall j :: i <= j < nSessions - 1 ==> sessions[j] == old(sessions[j + 1])
    {
      for k := i + 1 to nSessions
        invariant forall j :: 0 <= j < i ==> sessions[j] == old(sessions[j])
        invariant forall j :: i <= j < k - 1 ==> sessions[j] == old(sessions[j + 1])
        invariant forall j :: k - 1 <= j < sessions.Length ==> sessions[j] == old(sessions[j])
      {
        sessions[k - 1] := sessions[k];
      }
    }

    /** Drops the entry at i. */
    method DropSession(i: nat)
      requires Listed() && i < nSessions
      modifies `nSessions, `live, sessions
      ensures Listed() && live == old(live) - {old(sessions[i])}
    {
      ghost var gone, before := sessions[i], sessions[..];
      ShiftDown(i);
      nSessions := nSessions - 1;
      live := live - {gone};
      forall j | 0 <= j < nSessions ensures sessions[j] in live {
        assert sessions[j] == before[if j < i then j else j + 1];
      }
      forall s | s in live ensures exists j :: 0 <= j < nSessions && sessions[j] == s {
        var j :| 0 <= j < nSessions + 1 && before[j] == s;
        assert sessions[if j < i then j else j - 1] == s;
      }
    }

    /** Closes a live session; it may be the one whose timeout is being handled, and so have no entry. */
    method CloseTcpSession(session: TcpSession, ghost handling: set<TcpSession>)
      requires Consistent(handling) && session in live && handling <= {session}
      modifies `nSessions, `live, sessions, selector`maxFd, selector`timeouts, selector.fdHandlers
      ensures Valid() && live == old(live) - {session} && selector.fdHandlers == old(selector.fdHandlers)
    {
      hide Listed, Apart, Watched, Timed, NoRepeats, Selector.Valid, Selector.At;
      RegisteredAs(session);
      EntriesDiffer(handling);
      selector.RemoveFdHandler(session.fdH);
      RemoveTout(session);
      var i := IndexOf(session);
      DropSession(i);
      ApartAfterDrop(old(live), session);
      WatchedAfterDrop(session);
      TimedAfterDrop(session, handling);
    }

    lemma ApartAfterDrop(ss: set<TcpSession>, session: TcpSession)
      requires Apart(ss)
      ensures Apart(ss - {session})
    {
    }

    lemma RegisteredAs(session: TcpSession)
      requires Watched() && session in live
      ensures selector.At(session.fdH.fd) == session.fdH
    {
    }

    twostate lemma WatchedAfterDrop(session: TcpSession)
      requires Apart(old(live)) && old(Watched()) && session in old(live) && live == old(live) - {session}
      requires forall k: nat :: selector.At(k) == if k == session.fdH.fd then null else old(selector.At(k))
      requires selector.maxFd == old(selector.maxFd) && old(selector.Valid())
      ensures Watched()
    {
      forall k: nat | selector.At(k) != null && selector.At(k) != listenFdH
        ensures exists s :: s in live && selector.At(k) == s.fdH
      {
        var s :| s in old(live) && old(selector.At(k)) == s.fdH;
        assert s in live && selector.At(k) == s.fdH;
      }
    }

    twostate lemma TimedAfterDrop(new session: TcpSession, handling: set<TcpSession>)
      requires session in old(live) && handling <= {session} && Apart(old(live)) && old(Timed(handling))
      requires live == old(live) - {session} && NoRepeats(selector.timeouts)
      requires forall t :: t in selector.timeouts <==> t in old(selector.timeouts) && t != session.toutH
      ensures Timed({})
    {
      forall t | t in selector.timeouts ensures exists s :: s in live - {} && s.toutH == t {
        var s :| s in old(live) - handling && s.toutH == t;
        assert s in live - {} && s.toutH == t;
      }
    }

    /** Moves a session's idle deadline to a minute from now. */
    method ResetIdleTout(session: TcpSession, nowSec: int, nowUsec: Micros)
      requires Valid() && session in live
      modifies session.toutH, selector`timeouts
      ensures Valid() && LastUse(session) == Time(nowSec, nowUsec)
    {
      RemoveTout(session);
      InitIdleTout(session, nowSec, nowUsec);
    }

    /**
     A descriptor of a session is ready.  The session is closed exactly if it is to be shut down and nothing is
     left to be written; its idle time starts anew if it was readable.
     */
    method FdHandler(session: TcpSession, r: bool, w: bool, event: Event, nowSec: int, nowUsec: Micros)
      requires Valid() && session in live && session.Valid()
      modifies `nSessions, `live, sessions, selector`maxFd, selector`timeouts, selector.fdHandlers
      modifies session, session.toutH, session.fdH`wantWrite, session.readBuf
      ensures Valid() && session.Valid() && selector.fdHandlers == old(selector.fdHandlers)
      ensures session.View() == AfterEvent(old(session.View()), r, w, event)
      ensures live == if Closes(session.View()) then old(live) - {session} else old(live)
      ensures r ==> LastUse(session) == Time(nowSec, nowUsec)
      ensures !r ==> LastUse(session) == old(LastUse(session))
      ensures old(session.Attentive()) && Speaks(event) ==> session.Attentive()
    {
      hide Listed, Apart, Watched, Timed, NoRepeats, Selector.Valid, Selector.At;
      hide AfterRead, AfterWrite, Taken, Conn.Writable, TcpSession.Writable, TcpSession.Attentive;
      if r {
        ResetIdleTout(session, nowSec, nowUsec);
        var room := READ_BUF_SIZE - session.readBufLen;
        var input := if |event.input| > room then event.input[..room] else event.input;
        var _ := session.OnRead(input, event.readFails, event.reaction);
      }
      if w {
        var left := session.writeBufLen - session.writeBufOffset;
        ghost var _ := session.OnWrite(if left < 0 || event.written <= left then event.written else left);
      }
      if session.ShouldClose() {
        CloseTcpSession(session, {});
      }
    }

    /** The sessions whose deadline is before the given time. */
    ghost function Expired(nowSec: int, nowUsec: Micros): set<TcpSession>
      reads `live, (set s | s in live :: s.toutH)
    {
      set s | s in live && s.toutH.Deadline() < Time(nowSec, nowUsec)
    }

    /** Some session was used no longer than a minute ago. */
    ghost predicate InUse(nowSec: int, nowUsec: Micros)
      reads `live, (set s | s in live :: s.toutH)
    {
      exists s :: s in live && Time(nowSec, nowUsec) <= LastUse(s) + Time(60, 0)
    }

    /** The session that a timeout handler belongs to: its userdata. */
    method SessionOfTimeout(t: TimeoutHandler) returns (session: TcpSession)
      requires Listed() && exists s :: s in live && s.toutH == t
      ensures session in live && session.toutH == t
    {
      ghost var s :| s in live && s.toutH == t;
      ghost var k :| 0 <= k < nSessions && sessions[k] == s;
      var i := 0;
      while sessions[i].toutH != t
        invariant i <= k
        decreases k - i
      {
        i := i + 1;
      }
      session := sessions[i];
    }

    /** Runs the first timeout of the list, which is out of the list by then. */
    method FirstTimeout()
      requires Valid() && selector.timeouts != []
      modifies `nSessions, `live, sessions, selector`maxFd, selector`timeouts, selector.fdHandlers
      ensures Valid() && live < old(live) && selector.fdHandlers == old(selector.fdHandlers)
    {
      hide Listed, Apart, Watched, NoRepeats, Selector.At;
      var t := selector.timeouts[0];
      OwnerOf(t);
      selector.timeouts := selector.timeouts[1..];
      var session := SessionOfTimeout(t);
      FirstTaken(session);
      CloseTcpSession(session, {session});
    }

    lemma OwnerOf(t: TimeoutHandler)
      requires Timed({}) && t in selector.timeouts
      ensures exists s :: s in live && s.toutH == t
    {
      var s :| s in live - {} && s.toutH == t;
    }

    twostate lemma FirstTaken(session: TcpSession)
      requires old(Timed({})) && Apart(live) && live == old(live) && session in live
      requires old(selector.timeouts) != [] && old(selector.timeouts)[0] == session.toutH
      requires selector.timeouts == old(selector.timeouts)[1..]
      ensures Timed({session})
    {
      var ts := old(selector.timeouts);
      assert ts == [ts[0]] + ts[1..];
      forall t | t in selector.timeouts ensures exists s :: s in live - {session} && s.toutH == t {
        assert t in ts;
        var s :| s in live - {} && s.toutH == t;
        assert s in live - {session} && s.toutH == t;
      }
    }

    lemma AllExpired(nowSec: int, nowUsec: Micros)
      requires Timed({}) && Sorted(selector.timeouts)
      requires selector.timeouts != [] && selector.timeouts[0].Deadline() < Time(nowSec, nowUsec)
      ensures Expired(nowSec, nowUsec) == live
    {
      forall s | s in live ensures s.toutH.Deadline() < Time(nowSec, nowUsec) {
        assert s in live - {} && s.toutH in selector.timeouts;
      }
    }

    lemma NotAllExpired(nowSec: int, nowUsec: Micros)
      requires Timed({})
      requires selector.timeouts != [] && selector.timeouts[0].Deadline() >= Time(nowSec, nowUsec)
      ensures exists s :: s in live && s !in Expired(nowSec, nowUsec)
    {
      var t := selector.timeouts[0];
      assert t in selector.timeouts;
      var s :| s in live - {} && s.toutH == t;
      assert s in live && s !in Expired(nowSec, nowUsec);
    }

    lemma NoneLeft()
      requires Timed({}) && selector.timeouts == []
      ensures live == {}
    {
      assert live - {} == live;
    }

    /**
     handle_timeouts.  As the list has the latest deadline first, the loop stops at once unless all deadlines have
     passed: either every session is closed or none is.  None is as long as one of them was used no longer
     than a minute ago.
     */
    method HandleTimeouts(nowSec: int, nowUsec: Micros)
      requires Valid()
      modifies `nSessions, `live, sessions, selector`maxFd, selector`timeouts, selector.fdHandlers
      ensures Valid() && selector.fdHandlers == old(selector.fdHandlers)
      ensures live == if old(Expired(nowSec, nowUsec)) == old(live) then {} else old(live)
      ensures old(InUse(nowSec, nowUsec)) ==> live == old(live)
      ensures live == old(live) - old(Expired(nowSec, nowUsec)) <==>
              old(Expired(nowSec, nowUsec)) == {} || old(Expired(nowSec, nowUsec)) == old(live)
    {
      hide Listed, Apart, Watched, Timed, NoRepeats, Selector.At, EarlierThan;
      while selector.timeouts != [] && EarlierThan(selector.timeouts[0], nowSec, nowUsec)
        invariant Valid() && selector.fdHandlers == old(selector.fdHandlers) && live <= old(live)
        invariant live == old(live) || old(Expired(nowSec, nowUsec)) == old(live)
        decreases |live|
      {
        if live == old(live) {
          AllExpired(nowSec, nowUsec);
        }
        ghost var before := live;
        FirstTimeout();
        Fewer(live, before);
      }
      if selector.timeouts == [] {
        NoneLeft();
      } else {
        NotAllExpired(nowSec, nowUsec);
      }
      TimeoutsOnTime(old(live), old(Expired(nowSec, nowUsec)), live);
    }

    static lemma Fewer(a: set<TcpSession>, b: set<TcpSession>)
      requires a < b
      ensures |a| < |b|
    {
      assert b == a + (b - a);
      var x :| x in b - a;
    }

    /**
     Closing the sessions whose deadline has passed is what handling the timeouts does exactly when that is none
     or all of them.
     */
    lemma TimeoutsOnTime(before: set<TcpSession>, expired: set<TcpSession>, after: set<TcpSession>)
      requires expired <= before && after == if expired == before then {} else before
      ensures after == before - expired <==> expired == {} || expired == before
    {
      if expired != before && expired != {} {
        var x :| x in expired;
        assert x in before && x !in before - expired;
      }
    }

    ghost predicate Buffered()
      reads `live, live
    {
      forall s :: s in live ==> s.Valid()
    }

    /** Every session is watched for writing just while it has something to write. */
    ghost predicate Attended()
      reads `live, live, set s | s in live :: s.fdH
    {
      forall s :: s in live ==> s.Attentive()
    }

    /** The objects of a session's own. */
    static ghost function Owned(s: TcpSession): set<object> {
      {s, s.toutH, s.fdH, s.readBuf}
    }

    static ghost function OwnedBy(ss: set<TcpSession>): set<object> {
      set s, o | s in ss && o in Owned(s) :: o
    }

    static lemma OwnedIn(s: TcpSession, ss: set<TcpSession>)
      ensures s in ss ==> Owned(s) <= OwnedBy(ss)
    {
    }

    lemma InRange()
      requires Watched()
      ensures selector.maxFd <= MAX_FD
    {
    }

    lemma OwnerOfFd(fd: nat)
      requires selector.Valid() && Watched() && selector.At(fd) != null && selector.At(fd) != listenFdH
      ensures selector.At(fd).fd == fd && exists s :: s in live && s.fdH == selector.At(fd)
    {
    }

    /** The session that a descriptor's handler belongs to: its userdata. */
    method SessionOfFd(h: Sue.FdHandler) returns (session: TcpSession)
      requires Listed() && exists s :: s in live && s.fdH == h
      ensures session in live && session.fdH == h
    {
      ghost var s :| s in live && s.fdH == h;
      ghost var k :| 0 <= k < nSessions && sessions[k] == s;
      var i := 0;
      while sessions[i].fdH != h
        invariant i <= k
        decreases k - i
      {
        i := i + 1;
      }
      session := sessions[i];
    }

    /** The descriptor that accept gives: the lowest that is not open.  `others` are those open besides the watched ones. */
    method LowestFree(others: set<nat>) returns (fd: nat)
      requires |others| < FD_HANDLERS_STEP
      ensures selector.At(fd) == null && fd !in others
      ensures forall k: nat :: k < fd ==> selector.At(k) != null || k in others
      ensures fd < selector.fdHandlers.Length + FD_HANDLERS_STEP
    {
      fd := 0;
      while selector.At(fd) != null || fd in others
        invariant forall k: nat :: k < fd ==> selector.At(k) != null || k in others
        invariant fd < selector.fdHandlers.Length + FD_HANDLERS_STEP
        decreases selector.fdHandlers.Length + FD_HANDLERS_STEP - fd
      {
        NotAllOpen(selector.fdHandlers.Length, others);
        fd := fd + 1;
      }
    }

    ghost predicate Unused(fd: nat, others: set<nat>)
      reads selector`fdHandlers, selector.fdHandlers
    {
      selector.At(fd) == null && fd !in others
    }

    /** Some descriptor that may become a session's is free. */
    ghost predicate HasUnused(others: set<nat>)
      reads selector`fdHandlers, selector.fdHandlers
    {
      exists fd: nat :: fd <= MAX_FD && Unused(fd, others)
    }

    lemma LowestUnused(fd: nat, others: set<nat>)
      requires Unused(fd, others) && forall k: nat :: k < fd ==> !Unused(k, others)
      ensures HasUnused(others) <==> fd <= MAX_FD
    {
    }

    static ghost function Just(s: TcpSession?): set<TcpSession> {
      if s == null then {} else {s}
    }

    /** A session that has just been accepted. */
    ghost predicate IsNew(s: TcpSession)
      reads `live, s, s.readBuf, s.fdH
    {
      s in live && s.Valid() && s.View() == NEW_CONN && s.Attentive() && s.fdH.fd <= MAX_FD && s.fdH.fd != listenFdH.fd
    }

    /**
     The listening descriptor is ready.  A connection becomes a session if one is waiting, its socket can be put into
     blocking mode, and some descriptor up to MAX_FD is free.
     */
    method ListenFdHandler(arrival: Arrival, others: set<nat>, nowSec: int, nowUsec: Micros) returns (newcomer: TcpSession?)
      requires Valid() && Buffered() && |others| < FD_HANDLERS_STEP
      modifies this, sessions, selector, selector.fdHandlers
      ensures Valid() && Buffered() && (old(Attended()) ==> Attended())
      ensures live == old(live) + Just(newcomer)
      ensures newcomer != null <==> arrival.connecting && arrival.blocking && old(HasUnused(others))
      ensures newcomer != null ==> fresh(Owned(newcomer)) && IsNew(newcomer) && LastUse(newcomer) == Time(nowSec, nowUsec)
      ensures newcomer != null ==> var fd := newcomer.fdH.fd; old(Unused(fd, others))
      ensures selector.fdHandlers == old(selector.fdHandlers) || fresh(selector.fdHandlers)
    {
      hide Listed, Watched, Timed, NoRepeats, Selector.Valid, TcpSession.View;
      var fd: int := -1;
      if arrival.connecting {
        fd := LowestFree(others);
        LowestUnused(fd, others);
      }
      newcomer := CreateTcpSession(fd, arrival.blocking, nowSec, nowUsec);
    }

    /** Sessions that were live at some time, and share nothing with those that are live. */
    ghost predicate Known(all: set<TcpSession>)
      reads `live, all
    {
      && (forall s :: s in all ==> s.Valid())
      && (forall s, t :: s in all && t in live && s != t ==> s.readBuf != t.readBuf && s.toutH != t.toutH)
    }

    /** A watched descriptor, but not the listening one, is ready. */
    method SessionFdHandler(fd: nat, r: bool, w: bool, event: Event, nowSec: int, nowUsec: Micros, ghost all: set<TcpSession>)
      requires Valid() && Buffered() && selector.At(fd) != null && selector.At(fd) != listenFdH && Known(all)
      modifies `nSessions, `live, sessions, selector`maxFd, selector`timeouts, selector.fdHandlers, OwnedBy(live)
      ensures Valid() && Buffered() && selector.fdHandlers == old(selector.fdHandlers)
      ensures Known(all) && live <= old(live)
      ensures forall s :: s in all && s in old(live) && s.fdH.fd == fd ==>
                            s.View() == AfterEvent(old(s.View()), r, w, event)
                            && LastUse(s) == if r then Time(nowSec, nowUsec) else old(LastUse(s))
      ensures forall s :: s in all && !(s in old(live) && s.fdH.fd == fd) ==> s.View() == old(s.View()) && LastUse(s) == old(LastUse(s))
      ensures forall s :: s in all && s in old(live) ==> (s in live <==> s.fdH.fd != fd || !Closes(s.View()))
      ensures old(Attended()) && Speaks(event) ==> Attended()
    {
      hide Listed, Apart, Watched, Timed, NoRepeats, Selector.Valid, OwnedBy, AfterEvent;
      OwnerOfFd(fd);
      var session := SessionOfFd(selector.At(fd));
      OwnedIn(session, live);
      Others(session);
      FdHandler(session, r, w, event, nowSec, nowUsec);
    }

    lemma Others(session: TcpSession)
      requires Apart(live) && session in live
      ensures forall s :: s in live && s != session ==> s.readBuf != session.readBuf && s.toutH != session.toutH && s.fdH.fd != session.fdH.fd
    {
    }

    lemma AllRegistered()
      requires Watched() && Apart(live)
      ensures forall s :: s in live ==> selector.At(s.fdH.fd) == s.fdH && s.fdH.fd != listenFdH.fd && s.fdH.fd <= MAX_FD
    {
    }

    lemma HandlerAt(fd: nat)
      requires selector.Valid() && selector.At(fd) != null
      ensures selector.At(fd).fd == fd
    {
    }

    /** The i-th slot of the table is looked at; r and w are whether its descriptor is ready. */
    method Visit(i: nat, r: bool, w: bool, event: Event, arrival: Arrival, others: set<nat>, nowSec: int, nowUsec: Micros,
                 ghost all: set<TcpSession>)
      returns (newcomer: TcpSession?)
      requires Valid() && Buffered() && |others| < FD_HANDLERS_STEP && Known(all)
      modifies this, sessions, selector, selector.fdHandlers, OwnedBy(live)
      ensures Valid() && Buffered() && Known(all) && (old(Attended()) && Speaks(event) ==> Attended())
      ensures selector.fdHandlers == old(selector.fdHandlers) || fresh(selector.fdHandlers)
      ensures live <= old(live) + Just(newcomer)
      ensures newcomer != null ==> i == listenFdH.fd && (r || w) && fresh(Owned(newcomer)) && IsNew(newcomer)
      ensures newcomer != null ==> LastUse(newcomer) == Time(nowSec, nowUsec)
      ensures newcomer != null ==> Known({newcomer})
      ensures newcomer != null ==> var fd := newcomer.fdH.fd; old(Unused(fd, others))
      ensures forall s :: s in all && s in old(live) && s.fdH.fd == i && (r || w) ==>
                            s.View() == AfterEvent(old(s.View()), r, w, event) && (s in live <==> !Closes(s.View()))
                            && LastUse(s) == if r then Time(nowSec, nowUsec) else old(LastUse(s))
      ensures forall s :: s in all && !(s in old(live) && s.fdH.fd == i && (r || w)) ==>
                            s.View() == old(s.View()) && (s in live <==> s in old(live)) && LastUse(s) == old(LastUse(s))
    {
      hide Listed, Apart, Watched, Timed, NoRepeats, Selector.Valid, OwnedBy, AfterEvent, TcpSession.View;
      AllRegistered();
      newcomer := null;
      var h := selector.At(i);
      if h != null && (r || w) {
        if h == listenFdH {
          HandlerAt(i);
          newcomer := ListenFdHandler(arrival, others, nowSec, nowUsec);
          KnownStill(all);
          AllKnown();
        } else {
          SessionFdHandler(i, r, w, event, nowSec, nowUsec, all);
        }
      }
    }

    /** What becomes of a session when the descriptors below i have been looked at. */
    twostate predicate SeenTo(s: TcpSession, i: nat, rd: set<nat>, wr: set<nat>, events: nat -> Event, now: int)
      requires old(s.Valid()) && s.Valid()
      reads `live, s, s.readBuf, s.toutH
    {
      var fd := s.fdH.fd;
      LastUse(s) == (if s in old(live) && fd < i && fd in rd then now else old(LastUse(s))) &&
      if s !in old(live) then s.View() == old(s.View()) && s !in live
      else if fd < i && fd in rd + wr then
        s.View() == AfterEvent(old(s.View()), fd in rd, fd in wr, events(fd)) && (s in live <==> !Closes(s.View()))
      else s.View() == old(s.View()) && s in live
    }

    /** What becomes of a session that is accepted in the same pass: it may be handed an event of its descriptor's last owner. */
    ghost predicate Newly(s: TcpSession, i: nat, rd: set<nat>, wr: set<nat>, events: nat -> Event, now: int)
      requires s.Valid()
      reads `live, s, s.readBuf, s.toutH
    {
      var fd := s.fdH.fd;
      LastUse(s) == now &&
      if listenFdH.fd < fd < i && fd in rd + wr then
        s.View() == AfterEvent(NEW_CONN, fd in rd, fd in wr, events(fd)) && (s in live <==> !Closes(s.View()))
      else s.View() == NEW_CONN && s in live
    }

    /** The sessions that a pass keeps track of. */
    static ghost function Tracked(all: set<TcpSession>, newcomer: TcpSession?): set<TcpSession> {
      all + Just(newcomer)
    }

    /**
     handle_fds.  A handler is called once for each ready descriptor, in the order of descriptors, and may change what
     is registered.
     */
    method HandleFds(rd: set<nat>, wr: set<nat>, events: nat -> Event, arrival: Arrival, others: set<nat>,
                     nowSec: int, nowUsec: Micros, ghost all: set<TcpSession>)
      returns (ghost newcomer: TcpSession?)
      requires Valid() && Buffered() && |others| < FD_HANDLERS_STEP && Known(all)
      modifies this, sessions, selector, selector.fdHandlers, OwnedBy(live)
      ensures Valid() && Buffered() && (old(Attended()) && (forall fd :: Speaks(events(fd))) ==> Attended())
      ensures live <= old(live) + Just(newcomer)
      ensures Known(all) && forall s :: s in all ==> SeenTo(s, MAX_FD + 1, rd, wr, events, Time(nowSec, nowUsec))
      ensures newcomer != null ==> fresh(Owned(newcomer)) && newcomer.Valid() && Newly(newcomer, MAX_FD + 1, rd, wr, events, Time(nowSec, nowUsec))
      ensures newcomer != null ==> listenFdH.fd in rd + wr && newcomer.fdH.fd !in others && newcomer.fdH.fd != listenFdH.fd
      ensures newcomer != null && newcomer.fdH.fd > listenFdH.fd ==>
                forall s :: s in all && s in old(live) ==> s.fdH.fd != newcomer.fdH.fd
      ensures selector.fdHandlers == old(selector.fdHandlers) || fresh(selector.fdHandlers)
    {
      hide Listed, Apart, Watched, Timed, NoRepeats, Selector.Valid, OwnedBy, Owned, AfterEvent, TcpSession.View, TcpSession.Valid;
      hide Attended, TcpSession.Attentive, Time, LastUse, Speaks, Closes;
      AllRegistered();
      newcomer := null;
      var i := 0;
      while i <= selector.maxFd
        invariant Valid() && Buffered() && i <= MAX_FD + 1 && Known(Tracked(all, newcomer))
        invariant old(Attended()) && (forall fd :: Speaks(events(fd))) ==> Attended()
        invariant selector.fdHandlers == old(selector.fdHandlers) || fresh(selector.fdHandlers)
        invariant live <= old(live) + Just(newcomer)
        invariant forall s :: s in all ==> SeenTo(s, i, rd, wr, events, Time(nowSec, nowUsec))
        invariant newcomer != null ==> fresh(Owned(newcomer)) && newcomer !in all && listenFdH.fd < i && listenFdH.fd in rd + wr
        invariant newcomer != null ==> newcomer.fdH.fd <= MAX_FD && newcomer.fdH.fd !in others
        invariant newcomer != null ==> newcomer.fdH.fd != listenFdH.fd && Newly(newcomer, i, rd, wr, events, Time(nowSec, nowUsec))
        invariant newcomer != null && newcomer.fdH.fd > listenFdH.fd ==>
                    forall s :: s in all && s in old(live) ==> s.fdH.fd != newcomer.fdH.fd
        decreases MAX_FD + 1 - i
      {
        InRange();
        AllRegistered();
        OwnedByOldOrNew(live, old(live));
        var accepted := Visit(i, i in rd, i in wr, events(i), arrival, others, nowSec, nowUsec, Tracked(all, newcomer));
        if accepted != null {
          KnownPart(all, Tracked(all, newcomer));
          KnownBoth(all, {accepted});
          newcomer := accepted;
        }
        i := i + 1;
      }
      KnownPart(all, Tracked(all, newcomer));
      AllInRange();
    }

    lemma KnownPart(part: set<TcpSession>, all: set<TcpSession>)
      requires Known(all) && part <= all
      ensures Known(part)
    {
    }

    lemma KnownBoth(some: set<TcpSession>, others: set<TcpSession>)
      requires Known(some) && Known(others)
      ensures Known(some + others)
    {
    }

    /** New sessions have buffers of their own. */
    twostate lemma KnownStill(all: set<TcpSession>)
      requires old(Known(all)) && forall s :: s in all ==> s.Valid()
      requires forall t :: t in live ==> t in old(live) || fresh(Owned(t))
      ensures Known(all)
    {
      forall s, t | s in all && t in live && s != t ensures s.readBuf != t.readBuf && s.toutH != t.toutH {
        assert t.readBuf in Owned(t) && t.toutH in Owned(t);
      }
    }

    lemma AllKnown()
      requires Apart(live) && Buffered()
      ensures Known(live)
    {
    }

    lemma AllInRange()
      requires Watched() && selector.Valid()
      ensures forall s :: s in live ==> s.fdH.fd <= selector.maxFd
    {
      forall s | s in live ensures s.fdH.fd <= selector.maxFd {
        assert selector.At(s.fdH.fd) == s.fdH;
      }
    }

    twostate lemma OwnedByOldOrNew(new now: set<TcpSession>, before: set<TcpSession>)
      requires forall s :: s in now ==> s in before || fresh(Owned(s))
      ensures forall o :: o in OwnedBy(now) ==> o in OwnedBy(before) || fresh(o)
    {
    }

    /**
     What is watched fits the fd_sets exactly if nobody has the descriptor MAX_FD.  It is let in all the same: only those
     above it are turned away.
     */
    lemma WatchedFit()
      requires Valid()
      ensures (forall fd: nat :: selector.At(fd) != null ==> fd < FD_SETSIZE) <==>
              listenFdH.fd != MAX_FD && forall s :: s in live ==> s.fdH.fd != MAX_FD
    {
      hide Listed, Apart, Timed;
      if forall fd: nat :: selector.At(fd) != null ==> fd < FD_SETSIZE {
        forall s | s in live ensures s.fdH.fd != MAX_FD {
          assert selector.At(s.fdH.fd) != null;
        }
      } else {
        var fd: nat :| selector.At(fd) != null && fd >= FD_SETSIZE;
        assert fd <= selector.maxFd;
      }
    }

    /** What pselect leaves in the sets: what was asked for and is ready. */
    ghost predicate Ready(t: Turn, rd: set<nat>, wr: set<nat>)
      reads selector`fdHandlers, selector.fdHandlers
      reads set fd: nat | fd < selector.fdHandlers.Length && selector.At(fd) != null :: selector.At(fd)
    {
      && (forall fd: nat :: fd in rd <==> selector.At(fd) != null && selector.At(fd).wantRead && fd in t.readable)
      && (forall fd: nat :: fd in wr <==> selector.At(fd) != null && selector.At(fd).wantWrite && fd in t.writable)
    }

    method Poll(t: Turn) returns (rd: set<nat>, wr: set<nat>)
      requires selector.Valid()
      ensures Ready(t, rd, wr)
    {
      var wantRd, wantWr := selector.FillSelectSets();
      rd, wr := wantRd * t.readable, wantWr * t.writable;
    }

    /**
     What becomes of a session in a turn.  If all deadlines have passed, it goes; otherwise its handler is called once
     if it is ready, and it goes only if it is to be closed then.  A read counts as its last use.
     */
    twostate predicate Turned(s: TcpSession, t: Turn, rd: set<nat>, wr: set<nat>)
      requires old(s.Valid()) && s.Valid()
      reads `live, s, s.readBuf, s.toutH
    {
      if old(Expired(t.sec, t.usec)) == old(live) then s.View() == old(s.View()) && LastUse(s) == old(LastUse(s)) && s !in live
      else SeenTo(s, MAX_FD + 1, rd, wr, t.events, Time(t.thenSec, t.thenUsec))
    }

    /** What is ready is the listening descriptor or a session's. */
    lemma OwnersReady(t: Turn, rd: set<nat>, wr: set<nat>)
      requires Watched() && Ready(t, rd, wr) && selector.Valid()
      ensures forall fd :: fd in rd + wr ==> fd == listenFdH.fd || exists s :: s in live && s.fdH.fd == fd
    {
      forall fd | fd in rd + wr && fd != listenFdH.fd ensures exists s :: s in live && s.fdH.fd == fd {
        assert selector.At(fd) != null && selector.At(fd).fd == fd;
        var s :| s in live && s.fdH == selector.At(fd);
      }
    }

    /** The timeouts, and then what is ready. */
    method HandleTurn(t: Turn, rd: set<nat>, wr: set<nat>) returns (ghost newcomer: TcpSession?)
      requires Valid() && Buffered() && |t.others| < FD_HANDLERS_STEP && Ready(t, rd, wr)
      modifies this, sessions, selector, selector.fdHandlers, OwnedBy(live)
      ensures Valid() && Buffered() && (old(Attended()) && (forall fd :: Speaks(t.events(fd))) ==> Attended())
      ensures live <= old(live) + Just(newcomer)
      ensures selector.fdHandlers == old(selector.fdHandlers) || fresh(selector.fdHandlers)
      ensures Known(old(live)) && forall s :: s in old(live) ==> Turned(s, t, rd, wr)
      ensures newcomer != null ==> fresh(Owned(newcomer)) && newcomer.Valid() && Newly(newcomer, MAX_FD + 1, rd, wr, t.events, Time(t.thenSec, t.thenUsec))
      ensures newcomer != null ==> listenFdH.fd in rd + wr && newcomer.fdH.fd !in t.others
      ensures newcomer != null && listenFdH.fd < newcomer.fdH.fd && newcomer.fdH.fd in rd + wr ==>
                old(Expired(t.sec, t.usec)) == old(live)
    {
      hide Listed, Apart, Timed, NoRepeats, Selector.At, OwnedBy, Owned, AfterEvent, TcpSession.View, TcpSession.Valid;
      hide Ready, Newly, TcpSession.Attentive, Attended, Buffered, Expired, InUse, Sorted, LastUse, Time, Known;
      AllKnown();
      OwnersReady(t, rd, wr);
      HandleTimeouts(t.sec, t.usec);
      FewerLive(old(live));
      OwnedByOldOrNew(live, old(live));
      newcomer := HandleReady(rd, wr, t.events, t.arrival, t.others, t.thenSec, t.thenUsec, old(live));
    }

    /**
     The rest of a turn of the loop of sue_event_selector_go, after pselect, without its signals and hooks.  A session that
     is accepted in this turn is handed the event of another exactly if its descriptor is behind the listening one
     and was found ready; and then all sessions have timed out in this very turn.
     */
    method TakeTurn(t: Turn, rd: set<nat>, wr: set<nat>) returns (ghost newcomer: TcpSession?)
      requires Valid() && Buffered() && |t.others| < FD_HANDLERS_STEP && Ready(t, rd, wr)
      modifies this, sessions, selector, selector.fdHandlers, OwnedBy(live)
      ensures Valid() && Buffered() && (old(Attended()) && (forall fd :: Speaks(t.events(fd))) ==> Attended())
      ensures live <= old(live) + Just(newcomer)
      ensures selector.fdHandlers == old(selector.fdHandlers) || fresh(selector.fdHandlers)
      ensures Known(old(live)) && forall s :: s in old(live) ==> Turned(s, t, rd, wr)
      ensures newcomer != null ==> fresh(Owned(newcomer)) && newcomer.Valid() && Newly(newcomer, MAX_FD + 1, rd, wr, t.events, Time(t.thenSec, t.thenUsec))
      ensures newcomer != null ==> listenFdH.fd in rd + wr && newcomer.fdH.fd !in t.others
      ensures newcomer != null && listenFdH.fd < newcomer.fdH.fd && newcomer.fdH.fd in rd + wr ==>
                old(Expired(t.sec, t.usec)) == old(live)
      ensures old(InUse(t.sec, t.usec)) ==> forall s :: s in old(live) && s !in live ==> s.fdH.fd in rd + wr && Closes(s.View())
    {
      hide *;
      newcomer := HandleTurn(t, rd, wr);
      NoneTimedOut(t, rd, wr);
    }

    twostate lemma NoneTimedOut(new t: Turn, new rd: set<nat>, new wr: set<nat>)
      requires old(Buffered()) && Known(old(live)) && forall s :: s in old(live) ==> Turned(s, t, rd, wr)
      ensures old(InUse(t.sec, t.usec)) ==> forall s :: s in old(live) && s !in live ==> s.fdH.fd in rd + wr && Closes(s.View())
    {
      hide AfterEvent, TcpSession.View;
      if old(InUse(t.sec, t.usec)) {
        var s :| s in old(live) && Time(t.sec, t.usec) <= old(LastUse(s)) + Time(60, 0);
        assert s !in old(Expired(t.sec, t.usec));
      }
    }

    /** Sessions that go take nothing from those that stay. */
    twostate lemma FewerLive(all: set<TcpSession>)
      requires old(Buffered()) && all == old(live) && old(Known(all)) && live <= old(live)
      requires forall s :: s in all ==> unchanged(s) && unchanged(s.fdH) && unchanged(s.readBuf) && unchanged(s.toutH)
      ensures Buffered() && (old(Attended()) ==> Attended()) && Known(all)
      ensures forall s :: s in all ==> s.View() == old(s.View()) && LastUse(s) == old(LastUse(s))
    {
    }

    /** handle_fds, which is not called if nothing is ready. */
    method HandleReady(rd: set<nat>, wr: set<nat>, events: nat -> Event, arrival: Arrival, others: set<nat>,
                       nowSec: int, nowUsec: Micros, ghost all: set<TcpSession>)
      returns (ghost newcomer: TcpSession?)
      requires Valid() && Buffered() && |others| < FD_HANDLERS_STEP && Known(all)
      modifies this, sessions, selector, selector.fdHandlers, OwnedBy(live)
      ensures Valid() && Buffered() && (old(Attended()) && (forall fd :: Speaks(events(fd))) ==> Attended())
      ensures live <= old(live) + Just(newcomer)
      ensures Known(all) && forall s :: s in all ==> SeenTo(s, MAX_FD + 1, rd, wr, events, Time(nowSec, nowUsec))
      ensures newcomer != null ==> fresh(Owned(newcomer)) && newcomer.Valid() && Newly(newcomer, MAX_FD + 1, rd, wr, events, Time(nowSec, nowUsec))
      ensures newcomer != null ==> listenFdH.fd in rd + wr && newcomer.fdH.fd !in others && newcomer.fdH.fd != listenFdH.fd
      ensures newcomer != null && newcomer.fdH.fd > listenFdH.fd ==>
                forall s :: s in all && s in old(live) ==> s.fdH.fd != newcomer.fdH.fd
      ensures selector.fdHandlers == old(selector.fdHandlers) || fresh(selector.fdHandlers)
    {
      hide Listed, Apart, Watched, Timed, NoRepeats, Selector.Valid, OwnedBy, Owned, AfterEvent, TcpSession.View, TcpSession.Valid;
      hide Attended, Newly;
      newcomer := null;
      if rd + wr != {} {
        newcomer := HandleFds(rd, wr, events, arrival, others, nowSec, nowUsec, all);
      }
    }

    /** The event loop, whatever it meets: the server and the selector agree after every turn. */
    method Go(turns: seq<Turn>)
      requires Valid() && Buffered() && forall t :: t in turns ==> |t.others| < FD_HANDLERS_STEP
      modifies this, sessions, selector, selector.fdHandlers, OwnedBy(live)
      ensures Valid() && Buffered() && selector.maxFd <= MAX_FD && nSessions <= MAX_FD
      ensures old(Attended()) && (forall t, fd :: t in turns ==> Speaks(t.events(fd))) ==> Attended()
    {
      hide Apart, Timed, NoRepeats, Selector.At, OwnedBy, Owned, Attended, Buffered, Turned, Newly, Ready, Known, Speaks, Sorted;
      for k := 0 to |turns|
        invariant Valid() && Buffered()
        invariant old(Attended()) && (forall t, fd :: t in turns ==> Speaks(t.events(fd))) ==> Attended()
        invariant selector.fdHandlers == old(selector.fdHandlers) || fresh(selector.fdHandlers)
        invariant forall s :: s in live ==> s in old(live) || fresh(Owned(s))
      {
        OwnedByOldOrNew(live, old(live));
        var rd, wr := Poll(turns[k]);
        if turns[k].fails {
          break;
        }
        ghost var _ := TakeTurn(turns[k], rd, wr);
      }
    }
  }

  lemma TwoLeftOut(fds: set<int>, a: nat, b: nat)
    requires forall k :: k in fds ==> 0 <= k <= MAX_FD
    requires a <= MAX_FD && b <= MAX_FD && a != b && a !in fds && b !in fds
    ensures |fds| < MAX_FD
  {
    var more: set<int> := fds + {a};
    assert |more| == |fds| + 1;
    var most := more + {b};
    assert |most| == |more| + 1;
    SubsetSize(most, UpTo(MAX_FD + 1));
  }

  /** The numbers from a table's size on, as far as one step of growth goes, are too many to be all open. */
  lemma NotAllOpen(size: nat, others: set<int>)
    requires |others| < FD_HANDLERS_STEP
    ensures exists k: nat :: size <= k < size + FD_HANDLERS_STEP && k !in others
  {
    var below, upTo := UpTo(size), UpTo(size + FD_HANDLERS_STEP);
    assert below * upTo == below;
    if upTo - below <= others {
      SubsetSize(upTo - below, others);
    }
    var k :| k in upTo - below && k !in others;
  }

  /** The numbers below n. */
  ghost function UpTo(n: nat): (r: set<int>)
    ensures |r| == n && forall k :: k in r <==> 0 <= k < n
  {
    if n == 0 then {} else UpTo(n - 1) + {n - 1}
  }

  lemma {:induction false} SubsetSize(a: set<int>, b: set<int>)
    requires a <= b
    ensures |a| <= |b|
  {
    if exists x :: x in a {
      var x :| x in a;
      SubsetSize(a - {x}, b - {x});
    } else {
      assert a == {};
    }
  }
}
