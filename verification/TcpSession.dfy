/**
 One connection: a fixed read buffer that each read fills and the layer above empties, and one buffer
 of bytes to be written, which each write shortens from the front.
 */
module TcpSessions {
  import opened Bytes
  import opened ByteArrays
  import opened Sue

  const READ_BUF_SIZE := 4096
  const IDLE_TIMEOUT := 60

  /** What the layer above does with what was read: it may send a reply, and it may shut the session down. */
  datatype Reaction = Reaction(sends: bool, reply: bytes, shutdown: bool)

  /** The buffers and the flag of a connection. */
  datatype Conn = Conn(unread: bytes, writeBuf: bytes, writeBufLen: nat, writeBufOffset: nat, closing: bool) {
    predicate Sized() {
      writeBufLen == |writeBuf|
    }

    /** The write buffer is as Send and Flush leave it when no Send interrupts another. */
    predicate Writable() {
      Sized() && writeBufOffset <= writeBufLen && (writeBufOffset == writeBufLen ==> writeBufLen == 0)
    }

    /**
     How many bytes are still to be written; less than none when a shorter buffer has come in for one half written.
     */
    function Left(): int {
      writeBufLen - writeBufOffset
    }

    /** write takes no more than what it is asked to.  A count below 0 becomes a very large one. */
    predicate Takes(n: int) {
      n <= 0 || Left() < 0 || n <= Left()
    }

    /** What write can take at most of n bytes. */
    function Capped(n: int): (r: int)
      ensures Takes(r) && r <= n && forall k :: k <= n && Takes(k) ==> k <= r
    {
      if Left() < 0 || n <= Left() then n else Left()
    }
  }

  const NEW_CONN := Conn([], [], 0, 0, false)

  /** The layer above has taken all there is, and reacts. */
  function React(c: Conn, reaction: Reaction): Conn {
    var d := c.(unread := [], closing := c.closing || reaction.shutdown);
    if reaction.sends then d.(writeBuf := reaction.reply, writeBufLen := |reaction.reply|) else d
  }

  /** After a read: the layer above reacts, or the connection shuts down. */
  function AfterRead(c: Conn, input: bytes, failed: bool, reaction: Reaction): Conn {
    if failed || input == [] then c.(closing := true) else React(c, reaction)
  }

  /** What goes to the socket when n bytes of the write buffer are written. */
  function Taken(c: Conn, n: int): bytes
    requires c.Sized() && c.Takes(n) && (n <= 0 || c.Left() >= 0)
  {
    if n <= 0 then [] else c.writeBuf[c.writeBufOffset..c.writeBufOffset + n]
  }

  function AfterWrite(c: Conn, n: int): Conn
    requires c.Takes(n)
  {
    if n <= 0 then c.(closing := true)
    else if c.writeBufOffset + n == c.writeBufLen then c.(writeBuf := [], writeBufLen := 0, writeBufOffset := 0)
    else c.(writeBufOffset := c.writeBufOffset + n)
  }

  /** The connection is to be closed, for nothing is left to be written. */
  predicate Closes(c: Conn) {
    c.closing && c.writeBufLen == 0
  }

  /** A connection that is to be shut down is closed just when all replies have been written. */
  lemma ClosesWhenWritten(c: Conn)
    requires c.Writable()
    ensures Closes(c) <==> c.closing && c.writeBuf[c.writeBufOffset..] == []
  {
  }

  class TcpSession {
    const fdH: FdHandler
    const toutH: TimeoutHandler
    const readBuf: array<byte>
    var readBufLen: nat
    var writeBuf: bytes
    var writeBufLen: nat
    var writeBufOffset: nat
    var wantToClose: bool

    ghost predicate Valid()
      reads this
    {
      readBuf.Length == READ_BUF_SIZE && readBufLen <= READ_BUF_SIZE && writeBufLen == |writeBuf|
    }

    /** What has been read and not been picked up. */
    ghost function Unread(): bytes
      requires Valid()
      reads this, readBuf
    {
      readBuf[..readBufLen]
    }

    ghost function View(): Conn
      requires Valid()
      reads this, readBuf
    {
      Conn(Unread(), writeBuf, writeBufLen, writeBufOffset, wantToClose)
    }

    ghost predicate Writable()
      reads this
    {
      Conn([], writeBuf, writeBufLen, writeBufOffset, wantToClose).Writable()
    }

    /** The descriptor is watched for writing just while there is something to write. */
    ghost predicate Attentive()
      reads this, fdH
    {
      fdH.wantWrite <==> writeBufLen != 0
    }

    /** What has been sent and not been written yet. */
    ghost function Pending(): bytes
      requires Writable()
      reads this
    {
      writeBuf[writeBufOffset..]
    }

    constructor (fd: nat)
      ensures Valid() && Writable() && View() == NEW_CONN && Attentive()
      ensures fdH.fd == fd && fresh(fdH) && fresh(toutH) && fresh(readBuf)
    {
      fdH := new FdHandler(fd);
      toutH := new TimeoutHandler();
      readBuf := new byte[READ_BUF_SIZE];
      readBufLen, writeBuf, writeBufLen, writeBufOffset, wantToClose := 0, [], 0, 0, false;
    }

    /** One read(2), which gave `data`, or nothing at the end of the stream, or failed. */
    method ReadToBuf(data: bytes, failed: bool) returns (ok: bool)
      requires Valid() && |data| <= READ_BUF_SIZE - readBufLen
      modifies this`readBufLen, readBuf
      ensures Valid()
      ensures ok == (!failed && data != [])
      ensures Unread() == old(Unread()) + if ok then data else []
    {
      if failed || |data| == 0 {
        return false;
      }
      forall i | 0 <= i < |data| {
        readBuf[readBufLen + i] := data[i];
      }
      assert readBuf[..readBufLen + |data|] == old(readBuf[..readBufLen]) + data;
      readBufLen := readBufLen + |data|;
      ok := true;
    }

    method GetReadBuf() returns (copy: ByteArray)
      requires Valid()
      modifies this`readBufLen
      ensures Valid() && Unread() == []
      ensures fresh(copy) && copy.Valid() && copy.data != null && fresh(copy.data) && copy.Contents() == old(Unread())
    {
      copy := new ByteArray.Copy(readBuf[..readBufLen]);
      readBufLen := 0;
    }

    /** Replaces whatever was to be written; the offset into the old buffer stays. */
    method Send(buf: bytes)
      modifies this`writeBuf, this`writeBufLen, fdH`wantWrite
      ensures writeBuf == buf && writeBufLen == |buf| && fdH.wantWrite
      ensures old(Writable() && Pending() == []) && buf != [] ==> Writable() && Pending() == buf
    {
      writeBufLen := |buf|;
      writeBuf := buf;
      fdH.wantWrite := true;
    }

    /** One write(2), which took n bytes of those pending, or failed if n is not positive. */
    method Flush(n: int) returns (ok: bool)
      requires n <= 0 || writeBufOffset > writeBufLen || writeBufOffset + n <= writeBufLen
      modifies this`writeBuf, this`writeBufLen, this`writeBufOffset, fdH`wantWrite
      ensures ok == (n > 0)
      ensures !ok ==> unchanged(this) && unchanged(fdH)
      ensures ok && old(writeBufOffset) + n == old(writeBufLen) ==> writeBuf == [] && writeBufLen == 0 && writeBufOffset == 0
      ensures ok && old(writeBufOffset) + n != old(writeBufLen) ==>
                writeBuf == old(writeBuf) && writeBufLen == old(writeBufLen) && writeBufOffset == old(writeBufOffset) + n
      ensures old(Writable()) ==> Writable() && Pending() == old(Pending())[if ok then n else 0..]
      ensures ok ==> fdH.wantWrite == (old(fdH.wantWrite) && old(writeBufOffset) + n != old(writeBufLen))
    {
      if n <= 0 {
        return false;
      }
      writeBufOffset := writeBufOffset + n;
      if writeBufOffset == writeBufLen {
        writeBuf, writeBufLen, writeBufOffset := [], 0, 0;
        fdH.wantWrite := false;
      }
      ok := true;
    }

    method Shutdown()
      modifies this`wantToClose
      ensures wantToClose
    {
      wantToClose := true;
    }

    /**
     The descriptor is readable: what has been read goes to the layer above, which picks it all up and may answer and
     shut down.  At the end of the stream, and when reading fails, the session shuts down by itself.
     */
    method OnRead(input: bytes, failed: bool, reaction: Reaction) returns (got: bytes)
      requires Valid() && |input| <= READ_BUF_SIZE - readBufLen
      modifies this`readBufLen, readBuf, this`wantToClose, this`writeBuf, this`writeBufLen, fdH`wantWrite
      ensures Valid() && View() == AfterRead(old(View()), input, failed, reaction)
      ensures got == if failed || input == [] then [] else old(Unread()) + input
      ensures fdH.wantWrite == (old(fdH.wantWrite) || (!failed && input != [] && reaction.sends))
      ensures old(Attentive()) && (reaction.sends ==> reaction.reply != []) ==> Attentive()
    {
      var ok := ReadToBuf(input, failed);
      if !ok {
        Shutdown();
        return [];
      }
      var copy := GetReadBuf();
      got := copy.Read();
      if reaction.sends {
        Send(reaction.reply);
      }
      if reaction.shutdown {
        Shutdown();
      }
    }

    /** The descriptor is writable; `out` is what the socket takes of the buffer. */
    method OnWrite(n: int) returns (ghost out: bytes)
      requires Valid() && View().Takes(n)
      modifies this`wantToClose, this`writeBuf, this`writeBufLen, this`writeBufOffset, fdH`wantWrite
      ensures Valid() && View() == AfterWrite(old(View()), n)
      ensures old(View()).Left() >= 0 ==> out == Taken(old(View()), n)
      ensures fdH.wantWrite == (old(fdH.wantWrite) && !(n > 0 && n == old(View()).Left()))
      ensures old(Attentive()) ==> Attentive()
      ensures old(Writable()) ==> Writable() && Pending() == old(Pending())[if n > 0 then n else 0..]
    {
      out := if View().Left() >= 0 then Taken(View(), n) else [];
      var ok := Flush(n);
      if !ok {
        Shutdown();
      }
    }

    predicate ShouldClose()
      reads this
    {
      wantToClose && writeBufLen == 0
    }

    /** InitFdHandler: the descriptor is watched for input. */
    method InitFdHandler(selector: Selector)
      requires selector.Valid() && fdH.fd < selector.fdHandlers.Length + FD_HANDLERS_STEP
      modifies fdH`wantRead, selector`maxFd, selector`fdHandlers, selector.fdHandlers
      ensures selector.Valid() && selector.timeouts == old(selector.timeouts) && fdH.wantRead
      ensures selector.fdHandlers == old(selector.fdHandlers) || fresh(selector.fdHandlers)
      ensures forall fd: nat :: selector.At(fd) == if fd == fdH.fd then fdH else old(selector.At(fd))
      ensures selector.maxFd == if fdH.fd > old(selector.maxFd) then fdH.fd else old(selector.maxFd)
      ensures old(selector.fdHandlers.Length) <= selector.fdHandlers.Length
    {
      fdH.wantRead := true;
      selector.RegisterFdHandler(fdH);
    }
  }

  // ----- What goes out over a run

  /**
   What happens to a connection: a read and what the layer above makes of it, or a write that takes n bytes.  If it has to
   take them from behind the buffer, they are any bytes.
   */
  datatype Io = Input(data: bytes, failed: bool, reaction: Reaction) | Output(n: int, stray: bytes)

  predicate Sends(io: Io) {
    io.Input? && !io.failed && io.data != [] && io.reaction.sends
  }

  function Reply(io: Io): bytes {
    if Sends(io) then io.reaction.reply else []
  }

  predicate Possible(c: Conn, io: Io) {
    io.Output? ==> c.Takes(io.n) && (io.n > 0 && c.Left() < 0 ==> |io.stray| == io.n)
  }

  function After(c: Conn, io: Io): Conn
    requires Possible(c, io)
  {
    match io
    case Input(data, failed, reaction) => AfterRead(c, data, failed, reaction)
    case Output(n, _) => AfterWrite(c, n)
  }

  function Written(c: Conn, io: Io): bytes
    requires c.Sized() && Possible(c, io)
  {
    if io.Input? then [] else if io.n > 0 && c.Left() < 0 then io.stray else Taken(c, io.n)
  }

  lemma StaysSized(c: Conn, io: Io)
    requires c.Sized() && Possible(c, io)
    ensures After(c, io).Sized()
  {
  }

  predicate AllPossible(c: Conn, ios: seq<Io>)
    decreases ios
  {
    ios != [] ==> Possible(c, ios[0]) && AllPossible(After(c, ios[0]), ios[1..])
  }

  function AfterAll(c: Conn, ios: seq<Io>): Conn
    requires AllPossible(c, ios)
    decreases ios
  {
    if ios == [] then c else AfterAll(After(c, ios[0]), ios[1..])
  }

  /** The bytes that the socket has taken. */
  function WrittenAll(c: Conn, ios: seq<Io>): bytes
    requires c.Sized() && AllPossible(c, ios)
    decreases ios
  {
    if ios == [] then []
    else
      StaysSized(c, ios[0]);
      Written(c, ios[0]) + WrittenAll(After(c, ios[0]), ios[1..])
  }

  /** The replies one after the other. */
  function Replies(ios: seq<Io>): bytes {
    if ios == [] then [] else Reply(ios[0]) + Replies(ios[1..])
  }

  /** No reply is sent while there is a buffer to be written. */
  predicate Uninterrupted(c: Conn, ios: seq<Io>)
    requires AllPossible(c, ios)
    decreases ios
  {
    ios != [] ==> (Sends(ios[0]) ==> c.writeBufLen == 0) && Uninterrupted(After(c, ios[0]), ios[1..])
  }

  /** What has been written and what is still to be written make up `all`. */
  predicate MakesUp(c: Conn, out: bytes, all: bytes) {
    c.writeBufOffset <= |c.writeBuf| && out + c.writeBuf[c.writeBufOffset..] == all
  }

  lemma StepKeepsStream(c: Conn, io: Io, out: bytes, all: bytes)
    requires c.Writable() && Possible(c, io) && MakesUp(c, out, all) && (Sends(io) ==> c.writeBufLen == 0)
    ensures var d := After(c, io);
            d.Writable() && MakesUp(d, out + Written(c, io), all + Reply(io))
  {
    var d, rest := After(c, io), c.writeBuf[c.writeBufOffset..];
    if io.Output? && io.n > 0 {
      assert rest == Taken(c, io.n) + rest[io.n..];
      assert d.writeBuf[d.writeBufOffset..] == rest[io.n..];
    }
  }

  lemma {:induction false} StreamKept(c: Conn, ios: seq<Io>, out: bytes, all: bytes)
    requires c.Writable() && AllPossible(c, ios) && Uninterrupted(c, ios) && MakesUp(c, out, all)
    ensures MakesUp(AfterAll(c, ios), out + WrittenAll(c, ios), all + Replies(ios))
    decreases ios
  {
    hide MakesUp, After, Written, Reply, Sends, Possible;
    if ios == [] {
      assert out + [] == out && all + [] == all;
    } else {
      StepKeepsStream(c, ios[0], out, all);
      var d, w, x := After(c, ios[0]), Written(c, ios[0]), Reply(ios[0]);
      StreamKept(d, ios[1..], out + w, all + x);
      Regroup(out, w, WrittenAll(d, ios[1..]));
      Regroup(all, x, Replies(ios[1..]));
    }
  }

  /** Bytes are only ever lost, and a reply that interrupts another loses some. */
  lemma {:induction false} BytesLost(c: Conn, ios: seq<Io>)
    requires c.Sized() && AllPossible(c, ios)
    ensures |WrittenAll(c, ios)| + AfterAll(c, ios).Left() <= c.Left() + |Replies(ios)|
    ensures !Uninterrupted(c, ios) ==> |WrittenAll(c, ios)| + AfterAll(c, ios).Left() < c.Left() + |Replies(ios)|
    ensures AfterAll(c, ios).Sized()
    decreases ios
  {
    if ios != [] {
      StaysSized(c, ios[0]);
      StepLoses(c, ios[0]);
      BytesLost(After(c, ios[0]), ios[1..]);
    }
  }

  lemma StepLoses(c: Conn, io: Io)
    requires c.Sized() && Possible(c, io)
    ensures |Written(c, io)| + After(c, io).Left() == c.Left() + |Reply(io)| - if Sends(io) then c.writeBufLen else 0
  {
  }

  /**
   Over any run of reads and writes, what has been written followed by what is still to be written is what was to be
   written at first and then all replies in order, exactly if none of them was sent while a buffer was being written.
   */
  lemma RepliesInOrder(c: Conn, ios: seq<Io>)
    requires c.Writable() && AllPossible(c, ios)
    ensures MakesUp(AfterAll(c, ios), WrittenAll(c, ios), c.writeBuf[c.writeBufOffset..] + Replies(ios)) <==>
            Uninterrupted(c, ios)
  {
    var pending := c.writeBuf[c.writeBufOffset..];
    if Uninterrupted(c, ios) {
      assert [] + pending == pending;
      StreamKept(c, ios, [], pending);
      assert [] + WrittenAll(c, ios) == WrittenAll(c, ios);
    } else {
      BytesLost(c, ios);
    }
  }

  /** No write of the run is asked for a count below 0, which would take it behind the buffer. */
  predicate CountsInside(c: Conn, ios: seq<Io>)
    requires AllPossible(c, ios)
    decreases ios
  {
    ios != [] ==> (ios[0].Output? ==> c.Left() >= 0) && CountsInside(After(c, ios[0]), ios[1..])
  }

  /** That is so if no reply interrupts another. */
  lemma {:induction false} InsideIfUninterrupted(c: Conn, ios: seq<Io>)
    requires c.Writable() && AllPossible(c, ios) && Uninterrupted(c, ios)
    ensures CountsInside(c, ios)
    decreases ios
  {
    if ios != [] {
      assert After(c, ios[0]).Writable();
      InsideIfUninterrupted(After(c, ios[0]), ios[1..]);
    }
  }

  /** A reply that is shorter than what has been written of the one before takes the next write behind the buffer. */
  lemma ShorterReply(c: Conn, data: bytes, reaction: Reaction, io: Io)
    requires c.Writable() && data != [] && reaction.sends && io.Output?
    requires AllPossible(c, [Input(data, false, reaction), io])
    ensures CountsInside(c, [Input(data, false, reaction), io]) <==> |reaction.reply| >= c.writeBufOffset
  {
    var input := Input(data, false, reaction);
    var d := After(c, input);
    assert [input, io][1..] == [io] && [io][1..] == [];
    assert CountsInside(After(d, io), []);
    assert CountsInside(d, [io]) <==> d.Left() >= 0;
  }

  /** A reply keeps the stream exactly if there was nothing left of the one before. */
  lemma SendKeepsStream(c: Conn, data: bytes, reaction: Reaction)
    requires c.Writable() && data != [] && reaction.sends
    ensures MakesUp(AfterRead(c, data, false, reaction), [], c.writeBuf[c.writeBufOffset..] + reaction.reply) <==>
            c.writeBufLen == 0
  {
    var io := Input(data, false, reaction);
    assert [io][1..] == [];
    RepliesInOrder(c, [io]);
    assert reaction.reply + [] == reaction.reply;
  }

  /** Two replies with no write between them: the first one is lost. */
  lemma FirstReplyLost(c: Conn, data: bytes, first: bytes, second: bytes)
    requires c.Writable() && c.writeBufLen == 0 && data != [] && first != []
    ensures var ios := [Input(data, false, Reaction(true, first, false)), Input(data, false, Reaction(true, second, false))];
            AllPossible(c, ios) && !Uninterrupted(c, ios) && AfterAll(c, ios).writeBuf == second && WrittenAll(c, ios) == []
  {
    var io, io2 := Input(data, false, Reaction(true, first, false)), Input(data, false, Reaction(true, second, false));
    var d := After(c, io);
    var e := After(d, io2);
    assert [io, io2][1..] == [io2] && [io2][1..] == [];
    assert AfterAll(e, []) == e && AfterAll(d, [io2]) == e;
    assert WrittenAll(d, [io2]) == Written(d, io2) + WrittenAll(e, []) == [];
  }
}
