/**
 What cutting the input into several calls can change.

 Header values, bodies, all notifications, the state and the verdict do not depend on the cuts.
 Header names do, in one case: a name that ends without a colon is not reported, except
 for the part of it that an end of buffer has already flushed.
 */
module MultipartSplit {
  import opened Bytes
  import opened MultipartSpec

  /** The trace without the names of headers. */
  function Strip(t: Trace): Trace {
    if t == [] then []
    else if t[|t| - 1].OnHeaderField? then Strip(t[..|t| - 1])
    else Strip(t[..|t| - 1]) + [t[|t| - 1]]
  }

  /** How many bytes of names a trace reports. */
  function FieldBytes(t: Trace): nat {
    if t == [] then 0
    else FieldBytes(t[..|t| - 1]) + if t[|t| - 1].OnHeaderField? then |t[|t| - 1].at| else 0
  }

  /** s goes on with name characters and then a byte that is neither one nor a colon. */
  predicate DropsName(s: bytes) {
    s != [] && (if IsFieldChar(s[0]) then DropsName(s[1..]) else s[0] != ':')
  }

  /** No cut falls inside a name that is then dropped. */
  ghost predicate CleanCuts(b: bytes, p: Parser, parts: seq<bytes>)
    requires b != [] && Inv(b, p)
    decreases parts
  {
    parts != [] ==>
      && (Run(b, p, parts[0]).pend == [] || !DropsName(Flatten(parts[1..])))
      && CleanCuts(b, Call(b, p, parts[0]), parts[1..])
  }

  /** Equal but for names of headers. */
  ghost predicate Alike(p: Parser, q: Parser) {
    && p.state == q.state && p.index == q.index && p.used == q.used && p.ok == q.ok && p.pend == q.pend
    && Strip(p.log) == Strip(q.log)
  }

  lemma {:induction false} StripAppend(a: Trace, x: Trace)
    ensures Strip(a + x) == Strip(a) + Strip(x)
    ensures FieldBytes(a + x) == FieldBytes(a) + FieldBytes(x)
    decreases x
  {
    if x == [] {
      assert a + x == a;
    } else {
      assert (a + x)[..|a + x| - 1] == a + x[..|x| - 1];
      StripAppend(a, x[..|x| - 1]);
    }
  }

  lemma StripField(t: Trace, q: bytes)
    ensures var r := Push(t, OnHeaderField(q));
            Strip(r) == Strip(t) && FieldBytes(r) == FieldBytes(t) + |q|
  {
    var e := OnHeaderField(q);
    if t != [] && Joins(t[|t| - 1], e) {
      assert Push(t, e)[..|t| - 1] == t[..|t| - 1];
    } else {
      assert (t + [e])[..|t|] == t;
    }
  }

  // ----- A trace is only ever extended at its last event

  lemma PushFrame(a: Trace, x: Trace, e: Event)
    requires x != []
    ensures Push(a + x, e) == a + Push(x, e)
  {
    if Joins(x[|x| - 1], e) {
      assert (a + x)[..|a + x| - 1] == a + x[..|x| - 1];
    }
  }

  function Under(a: Trace, p: Parser): Parser {
    p.(log := a + p.log)
  }

  lemma EmitFrame(a: Trace, p: Parser, e: Event)
    requires p.log != []
    ensures Emit(Under(a, p), e) == Under(a, Emit(p, e))
  {
    PushFrame(a, p.log, e);
  }

  lemma PartDataFrame(a: Trace, p: Parser, c: byte)
    requires p.log != []
    ensures InPartData(p, c).log != [] && InPartData(Under(a, p), c) == Under(a, InPartData(p, c))
  {
    hide Push;
    EmitFrame(a, p, OnPartData(if c == '\r' then [] else [c]));
    EmitSome(p, OnPartData(if c == '\r' then [] else [c]));
  }

  lemma EmitSome(p: Parser, e: Event)
    ensures Emit(p, e).log != []
  {
  }

  lemma BodyFrame(b: bytes, a: Trace, p: Parser, c: byte)
    requires b != [] && Inv(b, p) && p.log != []
    requires p.state in {PartDataStart, PartData, PartDataAlmostBoundary, PartDataBoundary}
    ensures React(b, p, c).log != [] && React(b, Under(a, p), c) == Under(a, React(b, p, c))
  {
    hide Push, InPartData, Emit;
    EmitFrame(a, p, OnHeadersComplete);
    EmitSome(p, OnHeadersComplete);
    PartDataFrame(a, p, c);
    PartDataFrame(a, To(Emit(p, OnHeadersComplete), PartData), c);
    if p.state in {PartDataAlmostBoundary, PartDataBoundary} {
      EmitFrame(a, p.(index := |b|), OnPartDataEnd);
      EmitSome(p.(index := |b|), OnPartDataEnd);
      EmitFrame(a, p, OnPartData(Held(b, p)));
      EmitSome(p, OnPartData(Held(b, p)));
      PartDataFrame(a, GiveBack(b, p), c);
    }
  }

  lemma HeaderValueFrame(a: Trace, p: Parser, c: byte)
    requires p.log != []
    ensures InHeaderValue(p, c).log != [] && InHeaderValue(Under(a, p), c) == Under(a, InHeaderValue(p, c))
    ensures var q := To(p, HeaderValue);
            InHeaderValue(q, c).log != [] && InHeaderValue(Under(a, q), c) == Under(a, InHeaderValue(q, c))
  {
    hide Push;
    EmitFrame(a, p, OnHeaderValue(if c == '\r' then [] else [c]));
  }

  lemma HeaderFieldFrame(a: Trace, p: Parser, c: byte)
    requires p.log != []
    ensures InHeaderField(p, c).log != [] && InHeaderField(Under(a, p), c) == Under(a, InHeaderField(p, c))
    ensures var q := To(p, HeaderField);
            InHeaderField(q, c).log != [] && InHeaderField(Under(a, q), c) == Under(a, InHeaderField(q, c))
  {
    hide Push;
    EmitFrame(a, p, OnHeaderField(p.pend));
  }

  lemma BoundaryFrame(b: bytes, a: Trace, p: Parser, c: byte)
    requires p.index <= |b| + 1 && p.log != []
    ensures var r := InStartBoundary(b, p, c);
            r.log != [] && InStartBoundary(b, Under(a, p), c) == Under(a, r)
  {
    hide Push;
    EmitFrame(a, p.(index := 0), OnPartDataBegin);
  }

  lemma HeadFrame(b: bytes, a: Trace, p: Parser, c: byte)
    requires b != [] && Inv(b, p) && p.log != []
    requires p.state !in {PartDataStart, PartData, PartDataAlmostBoundary, PartDataBoundary}
    ensures React(b, p, c).log != [] && React(b, Under(a, p), c) == Under(a, React(b, p, c))
  {
    hide Push, InHeaderValue, InPartData, InHeaderField, InStartBoundary;
    match p.state
    case Start => BoundaryFrame(b, a, To(p, StartBoundary).(index := 0), c);
    case StartBoundary => BoundaryFrame(b, a, p, c);
    case HeaderField | HeaderFieldStart => HeaderFieldFrame(a, p, c);
    case HeaderValueStart | HeaderValue => HeaderValueFrame(a, p, c);
    case PartDataFinalHyphen => EmitFrame(a, p, OnBodyEnd);
    case _ => EmitFrame(a, p, OnPartDataBegin);
  }

  lemma StepFrame(b: bytes, a: Trace, p: Parser, c: byte)
    requires b != [] && Inv(b, p) && p.log != []
    ensures Step(b, p, c).log != []
    ensures Step(b, Under(a, p), c) == Under(a, Step(b, p, c))
  {
    hide React;
    if p.state in {PartDataStart, PartData, PartDataAlmostBoundary, PartDataBoundary} {
      BodyFrame(b, a, p, c);
    } else {
      HeadFrame(b, a, p, c);
    }
  }

  lemma {:induction false} RunFrame(b: bytes, a: Trace, p: Parser, s: bytes)
    requires b != [] && Inv(b, p) && p.log != []
    ensures Run(b, Under(a, p), s) == Under(a, Run(b, p, s))
    ensures Run(b, p, s).log != []
    decreases s
  {
    if s != [] {
      StepFrame(b, a, p, s[0]);
      RunFrame(b, a, Step(b, p, s[0]), s[1..]);
    }
  }

  lemma FlushFrame(a: Trace, p: Parser)
    requires p.log != []
    ensures Flush(Under(a, p)) == Under(a, Flush(p))
  {
    if p.pend != [] { EmitFrame(a, p, OnHeaderField(p.pend)); }
  }

  // ----- A cut inside a name

  /** p has all of q pending; p' has had q flushed by the end of a buffer. */
  ghost predicate Lags(p: Parser, p': Parser, q: bytes) {
    && p.state == HeaderField && p.ok && q != [] && q <= p.pend
    && p' == Emit(p, OnHeaderField(q)).(pend := p.pend[|q|..])
  }

  /** A name has been dropped by p and, in part, reported by p'; nothing has been reported since. */
  ghost predicate Dropped(p: Parser, p': Parser, q: bytes) {
    && p.pend == [] && p' == Emit(p, OnHeaderField(q))
    && (p.ok ==> p.state in {HeadersAlmostDone, PartDataStart})
  }

  /** Until something is reported again, both go on in the same way. */
  lemma DroppedNext(b: bytes, p: Parser, p': Parser, q: bytes, c: byte)
    requires b != [] && Inv(b, p) && Inv(b, p') && Dropped(p, p', q) && !(p.ok && p.state == PartDataStart)
    ensures Dropped(Step(b, p, c), Step(b, p', c), q)
  {
    hide Push;
  }

  /** The next event cannot be joined to a name, so both traces go on in the same way. */
  lemma DroppedAhead(b: bytes, p: Parser, p': Parser, q: bytes, s: bytes)
    requires b != [] && Inv(b, p) && Inv(b, p') && Dropped(p, p', q) && p.ok && p.state == PartDataStart && s != []
    ensures var r, r' := Call(b, p, s), Call(b, p', s);
            Alike(r, r') && FieldBytes(r'.log) == FieldBytes(r.log) + |q|
  {
    hide Push, Run, Step, Flush, FieldBytes, Strip;
    var x := Step(b, p.(log := []), s[0]);
    DroppedStep(b, p, s[0]);
    DroppedStep(b, p', s[0]);
    assert p'.(log := []) == p.(log := []);
    RunFrom(b, p, x, s);
    RunFrom(b, p', x, s);
    var y := Flush(Run(b, x, s[1..]));
    StripField(p.log, q);
    StripAppend(p.log, y.log);
    StripAppend(p'.log, y.log);
  }

  lemma RunFrom(b: bytes, p: Parser, x: Parser, s: bytes)
    requires b != [] && Inv(b, p) && Inv(b, x) && s != [] && x.log != [] && Step(b, p, s[0]) == Under(p.log, x)
    ensures Call(b, p, s) == Under(p.log, Flush(Run(b, x, s[1..])))
  {
    hide Step, Inv, Flush;
    RunFrame(b, p.log, x, s[1..]);
    FlushFrame(p.log, Run(b, x, s[1..]));
  }

  /** From then on the two differ by that report only. */
  lemma {:induction false} DroppedRun(b: bytes, p: Parser, p': Parser, q: bytes, s: bytes)
    requires b != [] && Inv(b, p) && Inv(b, p') && Dropped(p, p', q)
    ensures var r, r' := Call(b, p, s), Call(b, p', s);
            Alike(r, r') && FieldBytes(r'.log) == FieldBytes(r.log) + |q|
    decreases s
  {
    hide Push, Step, FieldBytes, Strip, Inv;
    if s == [] {
      StripField(p.log, q);
    } else if p.ok && p.state == PartDataStart {
      DroppedAhead(b, p, p', q, s);
    } else {
      DroppedNext(b, p, p', q, s[0]);
      DroppedRun(b, Step(b, p, s[0]), Step(b, p', s[0]), q, s[1..]);
    }
  }

  lemma DroppedStep(b: bytes, p: Parser, c: byte)
    requires b != [] && Inv(b, p) && p.ok && p.state == PartDataStart
    ensures var x := Step(b, p.(log := []), c);
            x.log != [] && Step(b, p, c) == Under(p.log, x)
  {
    hide Inv, Push, Emit, InPartData;
    var h := Emit(p.(log := []), OnHeadersComplete);
    CompleteApart(p);
    PartDataFrame(p.log, To(h, PartData), c);
  }

  lemma CompleteApart(p: Parser)
    ensures var h := Emit(p.(log := []), OnHeadersComplete);
            h.log != [] && Emit(p, OnHeadersComplete) == Under(p.log, h)
  {
  }

  lemma LagStep(b: bytes, p: Parser, p': Parser, q: bytes, c: byte)
    requires b != [] && Inv(b, p) && Inv(b, p') && Lags(p, p', q)
    ensures var t, t' := Step(b, p, c), Step(b, p', c);
            if IsFieldChar(c) then Lags(t, t', q) else if c == ':' then t == t' else Dropped(t, t', q)
  {
    hide Push;
    var x := p'.pend;
    if IsFieldChar(c) {
      assert (p.pend + [c])[|q|..] == x + [c];
    } else {
      LagFlush(p, p', q);
    }
  }

  lemma LagFlush(p: Parser, p': Parser, q: bytes)
    requires Lags(p, p', q)
    ensures Push(p'.log, OnHeaderField(p'.pend)) == Push(p.log, OnHeaderField(p.pend))
    ensures Flush(p') == Flush(p)
  {
    var x := p'.pend;
    assert p.pend == q + x;
    PushJoin(p.log, OnHeaderField(q), OnHeaderField(x));
    if x == [] { assert q + x == q; }
  }

  lemma {:induction false} LagRun(b: bytes, p: Parser, p': Parser, q: bytes, s: bytes)
    requires b != [] && Inv(b, p) && Inv(b, p') && Lags(p, p', q)
    ensures var r, r' := Call(b, p, s), Call(b, p', s);
            && Alike(r, r')
            && (!DropsName(s) ==> r == r')
            && FieldBytes(r'.log) == FieldBytes(r.log) + if DropsName(s) then |q| else 0
    decreases s
  {
    hide Step, Inv, Lags, Dropped, Flush;
    if s == [] {
      LagFlush(p, p', q);
    } else {
      var t, t' := Step(b, p, s[0]), Step(b, p', s[0]);
      LagStep(b, p, p', q, s[0]);
      if IsFieldChar(s[0]) {
        LagRun(b, t, t', q, s[1..]);
      } else if s[0] != ':' {
        DroppedRun(b, t, t', q, s[1..]);
      }
    }
  }

  /** One cut: two calls against one. */
  lemma OneCut(b: bytes, p: Parser, x: bytes, y: bytes)
    requires b != [] && Inv(b, p) && p.pend == []
    ensures var one, two := Call(b, p, x + y), Call(b, Call(b, p, x), y);
            var q := Run(b, p, x).pend;
            && Alike(one, two)
            && (q == [] || !DropsName(y) ==> one == two)
            && FieldBytes(two.log) == FieldBytes(one.log) + if DropsName(y) then |q| else 0
  {
    RunAppend(b, p, x, y);
    var m := Run(b, p, x);
    if m.pend != [] {
      RunPend(b, p, x);
      assert m.pend[|m.pend|..] == [];
      LagRun(b, m, Flush(m), m.pend, y);
    }
  }

  /** Only a parser that goes on has a name pending. */
  lemma {:induction false} RunPend(b: bytes, p: Parser, s: bytes)
    requires b != [] && Inv(b, p) && (p.pend != [] ==> p.ok)
    ensures Run(b, p, s).pend != [] ==> Run(b, p, s).ok
    decreases s
  {
    if s != [] { RunPend(b, Step(b, p, s[0]), s[1..]); }
  }

  /**
   Any cuts: calling the parser on the pieces one by one ends in the same state and with the same
   verdict as calling it once on all of the input, and reports the same, names of headers apart.  The
   reports are entirely the same exactly when no cut falls inside a name that is then dropped.
   */
  lemma {:induction false} SplitInvariance(b: bytes, p: Parser, parts: seq<bytes>)
    requires b != [] && Inv(b, p) && p.pend == []
    ensures var one, many := Call(b, p, Flatten(parts)), Calls(b, p, parts);
            && Alike(one, many)
            && (many == one <==> CleanCuts(b, p, parts))
            && (many != one ==> FieldBytes(many.log) > FieldBytes(one.log))
    decreases parts
  {
    if parts != [] {
      var rest := Flatten(parts[1..]);
      OneCut(b, p, parts[0], rest);
      SplitInvariance(b, Call(b, p, parts[0]), parts[1..]);
    }
  }
}
