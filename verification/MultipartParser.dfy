/**
 The multipart parser as it runs: one loop over the buffer with a cursor and a mark, reporting
 stretches of the caller's buffer, and a lookbehind buffer for what might have been a boundary.
 Every call is proved to report, in normal form, what MultipartSpec.Call says.
 */
module MultipartParsing {
  import opened Bytes
  import opened MultipartSpec

  /** A byte of input was read, is to be read again, or is not acceptable. */
  datatype Flow = Advance | Reread | Stop

  /** A trace in which what has been read as part of e but not reported yet is reported. */
  function Reported(t: Trace, e: Event): Trace
    requires e.OnHeaderField? || e.OnHeaderValue? || e.OnPartData?
  {
    if e.at == [] then t else Push(t, e)
  }

  lemma NothingYet(t: Trace, e: Event)
    requires e.OnHeaderField? || e.OnHeaderValue? || e.OnPartData?
    ensures Reported(t, e) == if e.at == [] then t else Push(t, e)
  {
  }

  lemma ReportMore(t: Trace, e: Event, f: Event)
    requires Joins(e, f)
    ensures Push(Reported(t, e), f) == Push(t, e.(at := e.at + f.at))
  {
    if e.at == [] { assert e.at + f.at == f.at; } else { PushJoin(t, e, f); }
  }

  class MultipartParser {
    const boundary: bytes
    const lookbehind: array<byte>
    var state: State
    var index: nat
    /** The calls of the callbacks, all of which return 0. */
    var log: Trace

    ghost predicate Valid()
      reads this, lookbehind
    {
      && boundary != []
      && lookbehind.Length == |boundary| + 9
      && (state == StartBoundary ==> index <= |boundary| + 1)
      && (state == PartDataBoundary ==> index < |boundary|)
      && (state == PartDataAlmostBoundary ==> lookbehind[0] == '\r')
      && (state == PartDataBoundary ==> lookbehind[..2 + index] == "\r\n" + boundary[..index])
    }

    /** The abstract parser between two calls. */
    ghost function View(): Parser
      reads this
    {
      Parser(state, index, [], Norm(log), 0, true)
    }

    constructor (boundary: bytes)
      requires boundary != []
      ensures Valid() && fresh(lookbehind) && this.boundary == boundary && View() == INIT
    {
      this.boundary := boundary;
      lookbehind := new byte[|boundary| + 9];
      state, index, log := Start, 0, [];
    }

    /**
     In the middle of a call, before byte i, this object is the abstract parser p; of the bytes from mark
     on, those of a name, a value or a body are still to be reported, unless the buffer is at its end.
     */
    ghost predicate Shows(p: Parser, buf: bytes, mark: nat, i: nat)
      reads this
    {
      && mark <= i <= |buf|
      && p.ok && p.state == state && p.index == index && p.used == i
      && if i == |buf| then Flush(p).log == Norm(log) else
         match state
         case HeaderField => p.pend == buf[mark..i] && p.log == Norm(log)
         case HeaderValue => p.pend == [] && p.log == Reported(Norm(log), OnHeaderValue(buf[mark..i]))
         case PartData => p.pend == [] && p.log == Reported(Norm(log), OnPartData(buf[mark..i]))
         case _ => p.pend == [] && p.log == Norm(log)
    }

    /** What reading byte i with the outcome `flow` has made of the parser that was p. */
    ghost predicate Moved(p: Parser, buf: bytes, i: nat, mark: nat, flow: Flow)
      requires boundary != [] && Inv(boundary, p) && i < |buf|
      reads this
    {
      var r := Step(boundary, p, buf[i]);
      match flow
      case Advance => Shows(r, buf, mark, i + 1)
      case Reread => p.state in {PartDataAlmostBoundary, PartDataBoundary} && state == PartData
                     && Shows(GiveBack(boundary, p), buf, mark, i)
                     && Step(boundary, GiveBack(boundary, p), buf[i]) == r
      case Stop => !r.ok && r.used == i && r.pend == [] && r.state == state && r.index == index && r.log == Norm(log)
    }

    lemma Begins(buf: bytes)
      requires Valid()
      ensures Inv(boundary, View()) && Shows(View(), buf, 0, 0)
      ensures Run(boundary, View(), buf[0..]) == Run(boundary, View(), buf)
    {
      assert buf[0..] == buf;
    }

    /** One round of the loop, seen by the abstract parser. */
    lemma Continues(p: Parser, buf: bytes, i: nat, mark: nat, flow: Flow)
      requires boundary != [] && Inv(boundary, p) && i < |buf| && Moved(p, buf, i, mark, flow)
      ensures var r, goal := Step(boundary, p, buf[i]), Run(boundary, p, buf[i..]);
              match flow
              case Advance => Inv(boundary, r) && Shows(r, buf, mark, i + 1) && Run(boundary, r, buf[i + 1..]) == goal
              case Reread =>
                var g := GiveBack(boundary, p);
                && p.state in {PartDataAlmostBoundary, PartDataBoundary} && state == PartData
                && Inv(boundary, g) && Shows(g, buf, mark, i) && Run(boundary, g, buf[i..]) == goal
              case Stop => goal == r == Flush(r) && !r.ok && r.used == i && r.state == state && r.index == index && r.log == Norm(log)
    {
      var r := Step(boundary, p, buf[i]);
      assert buf[i..][1..] == buf[i + 1..];
      if flow == Stop { RunFailed(boundary, r, buf[i + 1..]); }
    }

    lemma Ends(p: Parser, buf: bytes, mark: nat)
      requires boundary != [] && Inv(boundary, p) && Shows(p, buf, mark, |buf|)
      ensures var r := Flush(Run(boundary, p, buf[|buf|..]));
              r.ok && r.state == state && r.index == index && r.log == Norm(log) && r.used == |buf|
    {
    }

    lemma IndexInside(p: Parser)
      requires Inv(boundary, p)
      ensures p.state == PartDataBoundary ==> p.index < |boundary|
    {
    }

    lemma ShowsState(p: Parser, buf: bytes, mark: nat, i: nat)
      requires Shows(p, buf, mark, i)
      ensures p.state == state && p.used == i
    {
    }

    /** A callback: the event is recorded. */
    method Notify(e: Event)
      modifies this`log
      ensures log == old(log) + [e] && Norm(log) == Push(old(Norm(log)), e)
    {
      NormAppend(log, e);
      log := log + [e];
    }

    method ReadStartBoundary(buf: bytes, mark: nat, i: nat, ghost p: Parser) returns (flow: Flow)
      requires Valid() && i < |buf| && Inv(boundary, p) && Shows(p, buf, mark, i)
      requires state in {Start, StartBoundary}
      modifies this
      ensures Valid() && old(log) <= log && Moved(p, buf, i, mark, flow)
    {
      hide Norm, Push;
      var c := buf[i];
      if state == Start {
        index := 0;
        state := StartBoundary;
      }
      if index == |boundary| {
        if c != '\r' { return Stop; }
        index := index + 1;
      } else if index == |boundary| + 1 {
        if c != '\n' { return Stop; }
        index := 0;
        Notify(OnPartDataBegin);
        state := HeaderFieldStart;
      } else {
        if c != boundary[index] { return Stop; }
        index := index + 1;
      }
      flow := Advance;
    }

    method ReadHeaderField(buf: bytes, mark0: nat, i: nat, ghost p: Parser) returns (mark: nat, flow: Flow)
      requires Valid() && i < |buf| && Inv(boundary, p) && Shows(p, buf, mark0, i)
      requires state in {HeaderFieldStart, HeaderField}
      modifies this
      ensures Valid() && old(log) <= log && Moved(p, buf, i, mark, flow)
    {
      hide Norm, Push;
      var c := buf[i];
      mark := mark0;
      if state == HeaderFieldStart {
        mark := i;
        state := HeaderField;
      }
      assert buf[mark..i] == p.pend && buf[mark..i + 1] == p.pend + [c];
      if c == '\r' {
        state := HeadersAlmostDone;
        return mark, Advance;
      }
      if c == ':' {
        Notify(OnHeaderField(buf[mark..i]));
        state := HeaderValueStart;
        return mark, Advance;
      }
      if !IsFieldChar(c) {
        return mark, Stop;
      }
      if i == |buf| - 1 {
        Notify(OnHeaderField(buf[mark..i + 1]));
      }
      flow := Advance;
    }

    method ReadHeaderValue(buf: bytes, mark0: nat, i: nat, ghost p: Parser) returns (mark: nat, flow: Flow)
      requires Valid() && i < |buf| && Inv(boundary, p) && Shows(p, buf, mark0, i)
      requires state in {HeaderValueStart, HeaderValue}
      modifies this
      ensures Valid() && old(log) <= log && Moved(p, buf, i, mark, flow)
    {
      hide Norm, Push;
      var c := buf[i];
      mark := mark0;
      if state == HeaderValueStart {
        if c == ' ' {
          return mark, Advance;
        }
        mark := i;
        state := HeaderValue;
      }
      ghost var x := buf[mark..i];
      assert buf[mark..i + 1] == x + [c];
      ReportMore(Norm(log), OnHeaderValue(x), OnHeaderValue([c]));
      ReportMore(Norm(log), OnHeaderValue(x), OnHeaderValue([]));
      assert x + [] == x;
      if c == '\r' {
        Notify(OnHeaderValue(buf[mark..i]));
        state := HeaderValueAlmostDone;
        return mark, Advance;
      }
      if i == |buf| - 1 {
        Notify(OnHeaderValue(buf[mark..i + 1]));
      }
      flow := Advance;
    }

    /** The first byte of a body; it falls through to the next state. */
    method ReadPartDataStart(buf: bytes, mark0: nat, i: nat, ghost p: Parser) returns (mark: nat, flow: Flow)
      requires Valid() && i < |buf| && Inv(boundary, p) && Shows(p, buf, mark0, i) && state == PartDataStart
      modifies this, lookbehind
      ensures Valid() && old(log) <= log && Moved(p, buf, i, mark, flow)
    {
      hide Norm, Push, Reported;
      Notify(OnHeadersComplete);
      state := PartData;
      assert buf[i..i] == [];
      ghost var q := To(Emit(p, OnHeadersComplete), PartData);
      assert Shows(q, buf, i, i) by { NothingYet(Norm(log), OnPartData([])); }
      assert Step(boundary, p, buf[i]) == Step(boundary, q, buf[i]);
      mark, flow := ReadPartData(buf, i, i, q);
    }

    method ReadPartData(buf: bytes, mark0: nat, i: nat, ghost p: Parser) returns (mark: nat, flow: Flow)
      requires Valid() && i < |buf| && Inv(boundary, p) && Shows(p, buf, mark0, i) && state == PartData
      modifies this, lookbehind
      ensures Valid() && old(log) <= log && flow == Advance && Moved(p, buf, i, mark, flow)
    {
      hide Norm, Push, Reported;
      var c := buf[i];
      mark := mark0;
      ghost var x := buf[mark..i];
      assert buf[mark..i + 1] == x + [c];
      NothingYet(Norm(log), OnPartData(x + [c]));
      ReportMore(Norm(log), OnPartData(x), OnPartData([c]));
      ReportMore(Norm(log), OnPartData(x), OnPartData([]));
      assert x + [] == x;
      if c == '\r' {
        Notify(OnPartData(buf[mark..i]));
        mark := i;
        state := PartDataAlmostBoundary;
        lookbehind[0] := '\r';
        return mark, Advance;
      }
      if i == |buf| - 1 {
        Notify(OnPartData(buf[mark..i + 1]));
      }
      flow := Advance;
    }

    /** After the CR that may begin a delimiter. */
    method ReadAlmostBoundary(buf: bytes, mark0: nat, i: nat, ghost p: Parser) returns (mark: nat, flow: Flow)
      requires Valid() && i < |buf| && Inv(boundary, p) && Shows(p, buf, mark0, i)
      requires state == PartDataAlmostBoundary
      modifies this, lookbehind
      ensures Valid() && old(log) <= log && Moved(p, buf, i, mark, flow)
    {
      hide Norm, Push, InStartBoundary, InHeaderField, InHeaderValue, InPartData;
      mark := mark0;
      if buf[i] == '\n' {
        state := PartDataBoundary;
        lookbehind[1] := '\n';
        index := 0;
        assert lookbehind[..2] == "\r\n" + boundary[..0];
        return mark, Advance;
      }
      assert lookbehind[..1] == "\r";
      Notify(OnPartData(lookbehind[..1]));
      state := PartData;
      mark := i;
      flow := Reread;
    }

    method ReadPartDataBoundary(buf: bytes, mark0: nat, i: nat, ghost p: Parser) returns (mark: nat, flow: Flow)
      requires Valid() && i < |buf| && Inv(boundary, p) && Shows(p, buf, mark0, i)
      requires state == PartDataBoundary
      modifies this, lookbehind
      ensures Valid() && old(log) <= log && Moved(p, buf, i, mark, flow)
    {
      hide Norm, Push, InStartBoundary, InHeaderField, InHeaderValue, InPartData;
      var c := buf[i];
      mark := mark0;
      if boundary[index] != c {
        Notify(OnPartData(lookbehind[..2 + index]));
        state := PartData;
        mark := i;
        return mark, Reread;
      }
      ghost var held := lookbehind[..2 + index];
      lookbehind[2 + index] := c;
      assert lookbehind[..2 + index + 1] == held + [c] == "\r\n" + boundary[..index + 1];
      index := index + 1;
      if index == |boundary| {
        Notify(OnPartDataEnd);
        state := PartDataAlmostEnd;
      }
      flow := Advance;
    }

    /** The line feed at the end of a header line, or of the headers. */
    method ReadLineFeed(buf: bytes, mark: nat, i: nat, ghost p: Parser) returns (flow: Flow)
      requires Valid() && i < |buf| && Inv(boundary, p) && Shows(p, buf, mark, i)
      requires state in {HeadersAlmostDone, HeaderValueAlmostDone}
      modifies this
      ensures Valid() && old(log) <= log && Moved(p, buf, i, mark, flow)
    {
      hide Norm, Push, InStartBoundary, InHeaderField, InHeaderValue, InPartData;
      if buf[i] != '\n' { return Stop; }
      state := if state == HeadersAlmostDone then PartDataStart else HeaderFieldStart;
      flow := Advance;
    }

    /** The states behind a boundary, which look at a single byte only. */
    method ReadDelimiter(buf: bytes, mark: nat, i: nat, ghost p: Parser) returns (flow: Flow)
      requires Valid() && i < |buf| && Inv(boundary, p) && Shows(p, buf, mark, i)
      requires state in {PartDataAlmostEnd, PartDataFinalHyphen, PartDataEnd, End}
      modifies this
      ensures Valid() && old(log) <= log && Moved(p, buf, i, mark, flow)
    {
      hide Norm, Push, InStartBoundary, InHeaderField, InHeaderValue, InPartData;
      var c := buf[i];
      match state {
        case PartDataAlmostEnd =>
          if c == '-' {
            state := PartDataFinalHyphen;
          } else if c == '\r' {
            state := PartDataEnd;
          } else {
            return Stop;
          }
        case PartDataFinalHyphen =>
          if c != '-' { return Stop; }
          Notify(OnBodyEnd);
          state := End;
        case PartDataEnd =>
          if c != '\n' { return Stop; }
          state := HeaderFieldStart;
          Notify(OnPartDataBegin);
        case _ =>
      }
      flow := Advance;
    }

    /** The switch over the states. */
    method ReadByte(buf: bytes, mark0: nat, i: nat, ghost p: Parser) returns (mark: nat, flow: Flow)
      requires Valid() && i < |buf| && Inv(boundary, p) && p.state == state && Shows(p, buf, mark0, i)
      modifies this, lookbehind
      ensures Valid() && old(log) <= log && Moved(p, buf, i, mark, flow)
    {
      hide Shows, Moved, Inv, Norm;
      mark := mark0;
      match state {
        case Start | StartBoundary => flow := ReadStartBoundary(buf, mark0, i, p);
        case HeaderFieldStart | HeaderField => mark, flow := ReadHeaderField(buf, mark0, i, p);
        case HeaderValueStart | HeaderValue => mark, flow := ReadHeaderValue(buf, mark0, i, p);
        case PartDataStart => mark, flow := ReadPartDataStart(buf, mark0, i, p);
        case PartData => mark, flow := ReadPartData(buf, mark0, i, p);
        case PartDataAlmostBoundary => mark, flow := ReadAlmostBoundary(buf, mark0, i, p);
        case PartDataBoundary => mark, flow := ReadPartDataBoundary(buf, mark0, i, p);
        case HeadersAlmostDone | HeaderValueAlmostDone => flow := ReadLineFeed(buf, mark0, i, p);
        case _ => flow := ReadDelimiter(buf, mark0, i, p);
      }
    }

    /** multipart_parser_execute; the result is less than the length exactly when the input is unacceptable. */
    method Execute(buf: bytes) returns (n: nat)
      requires Valid()
      modifies this, lookbehind
      ensures Valid() && old(log) <= log
      ensures var r := Call(boundary, old(View()), buf);
              && r.state == state && r.index == index && r.log == Norm(log)
              && n == r.used <= |buf| && (n < |buf| <==> !r.ok)
    {
      hide Shows, Moved, Step, Run, Inv, Norm, Flush;
      var i, mark := 0, 0;
      ghost var p := View();
      Begins(buf);
      ghost var goal := Run(boundary, p, buf);
      while i < |buf|
        invariant Valid() && i <= |buf| && Inv(boundary, p) && Shows(p, buf, mark, i)
        invariant old(log) <= log && Run(boundary, p, buf[i..]) == goal
        decreases |buf| - i, if state in {PartDataAlmostBoundary, PartDataBoundary} then 1 else 0
      {
        var flow;
        ShowsState(p, buf, mark, i);
        mark, flow := ReadByte(buf, mark, i, p);
        Continues(p, buf, i, mark, flow);
        if flow == Stop {
          return i;
        }
        if flow == Advance {
          p := Step(boundary, p, buf[i]);
          i := i + 1;
        } else {
          IndexInside(p);
          p := GiveBack(boundary, p);
        }
      }
      Ends(p, buf, mark);
      return |buf|;
    }
  }
}
