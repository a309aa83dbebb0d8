/**
 Multipart documents (section 5.1.1 of RFC 2046) and what the parser makes of them: printing a
 list of parts and parsing the result reports exactly those headers and bodies, in order.
 The boundary includes its two leading hyphens, as the parser's user must pass it.
 */
module MultipartDocument {
  import opened Bytes
  import opened Search
  import opened MultipartSpec
  import opened MultipartSplit

  datatype Field = Field(name: bytes, pad: bytes, value: bytes)

  datatype Part = Part(fields: seq<Field>, body: bytes)

  /** Hyphens and letters of either case. */
  ghost predicate NameByte(c: byte) {
    c == '-' || 'a' <= c <= 'z' || 'A' <= c <= 'Z'
  }

  ghost predicate ValidField(f: Field) {
    && (forall c :: c in f.name ==> NameByte(c))
    && (forall c :: c in f.pad ==> c == ' ')
    && '\r' !in f.value && (f.value != [] ==> f.value[0] != ' ')
  }

  /** CR LF and the boundary: what ends a body. */
  function Delimiter(b: bytes): bytes {
    "\r\n" + b
  }

  /** The body does not contain what ends it. */
  ghost predicate ValidPart(b: bytes, p: Part) {
    (forall f :: f in p.fields ==> ValidField(f)) && forall q: nat :: !OccursAt(Delimiter(b), p.body, q)
  }

  function PrintField(f: Field): bytes {
    f.name + ":" + f.pad + (f.value + "\r\n")
  }

  function PrintFields(fs: seq<Field>): bytes {
    if fs == [] then "\r\n" else PrintField(fs[0]) + PrintFields(fs[1..])
  }

  function PrintPart(b: bytes, p: Part): bytes {
    PrintFields(p.fields) + p.body + Delimiter(b)
  }

  /** What follows the boundary line of the first part. */
  function PrintParts(b: bytes, ps: seq<Part>): bytes
    requires ps != []
  {
    if |ps| == 1 then PrintPart(b, ps[0]) + "--" else PrintPart(b, ps[0]) + "\r\n" + PrintParts(b, ps[1..])
  }

  function Print(b: bytes, ps: seq<Part>): bytes
    requires ps != []
  {
    b + "\r\n" + PrintParts(b, ps)
  }

  function FieldEvents(fs: seq<Field>): Trace {
    if fs == [] then [] else [OnHeaderField(fs[0].name), OnHeaderValue(fs[0].value)] + FieldEvents(fs[1..])
  }

  /** A part's events, without the one that its boundary line has given already. */
  function PartEvents(p: Part): Trace {
    FieldEvents(p.fields) + [OnHeadersComplete, OnPartData(p.body), OnPartDataEnd]
  }

  function Events(ps: seq<Part>): Trace {
    if ps == [] then [OnBodyEnd] else [OnPartDataBegin] + (PartEvents(ps[0]) + Events(ps[1..]))
  }

  // ----- Names that end with a colon

  /** Reading s from p, every name of a header that has been begun ends with a colon. */
  ghost predicate NamesEnd(b: bytes, p: Parser, s: bytes)
    requires b != [] && Inv(b, p)
    decreases s
  {
    s != [] ==>
      && (p.state == HeaderField ==> IsFieldChar(s[0]) || s[0] == ':')
      && NamesEnd(b, Step(b, p, s[0]), s[1..])
  }

  lemma {:induction false} NamesEndAppend(b: bytes, p: Parser, s: bytes, t: bytes)
    requires b != [] && Inv(b, p)
    ensures NamesEnd(b, p, s + t) <==> NamesEnd(b, p, s) && NamesEnd(b, Run(b, p, s), t)
    decreases s
  {
    if s == [] {
      assert s + t == t;
    } else {
      assert (s + t)[1..] == s[1..] + t;
      NamesEndAppend(b, Step(b, p, s[0]), s[1..], t);
    }
  }

  /** What is pending and what has been reported do not matter. */
  lemma {:induction false} NamesEndAlike(b: bytes, p: Parser, q: Parser, s: bytes)
    requires b != [] && Inv(b, p) && Inv(b, q) && p.state == q.state && p.index == q.index && p.ok == q.ok
    ensures NamesEnd(b, p, s) <==> NamesEnd(b, q, s)
    decreases s
  {
    hide Push, Step;
    if s != [] {
      StepAlike(b, p, q, s[0]);
      NamesEndAlike(b, Step(b, p, s[0]), Step(b, q, s[0]), s[1..]);
    }
  }

  predicate InBody(p: Parser) {
    p.state in {PartDataStart, PartData, PartDataAlmostBoundary, PartDataBoundary}
  }

  /** At the same place, whatever has been reported. */
  ghost predicate SamePlace(p: Parser, q: Parser) {
    p.state == q.state && p.index == q.index && p.ok == q.ok
  }

  lemma PartDataAlike(p: Parser, q: Parser, c: byte)
    requires SamePlace(p, q)
    ensures SamePlace(InPartData(p, c), InPartData(q, c))
  {
    hide Push;
  }

  lemma BodyAlike(b: bytes, p: Parser, q: Parser, c: byte)
    requires b != [] && Inv(b, p) && Inv(b, q) && SamePlace(p, q) && InBody(p)
    ensures SamePlace(React(b, p, c), React(b, q, c))
  {
    hide Push, Held, InPartData, InStartBoundary, InHeaderField, InHeaderValue;
    PartDataAlike(p, q, c);
    PartDataAlike(To(Emit(p, OnHeadersComplete), PartData), To(Emit(q, OnHeadersComplete), PartData), c);
    if p.state in {PartDataAlmostBoundary, PartDataBoundary} {
      PartDataAlike(GiveBack(b, p), GiveBack(b, q), c);
    }
  }

  lemma BoundaryAlike(b: bytes, p: Parser, q: Parser, c: byte)
    requires b != [] && Inv(b, p) && Inv(b, q) && SamePlace(p, q) && p.state in {Start, StartBoundary}
    ensures SamePlace(React(b, p, c), React(b, q, c))
  {
    hide Push, InPartData, InHeaderField, InHeaderValue;
  }

  lemma HeaderAlike(p: Parser, q: Parser, c: byte)
    requires SamePlace(p, q)
    ensures SamePlace(InHeaderField(p, c), InHeaderField(q, c)) && SamePlace(InHeaderValue(p, c), InHeaderValue(q, c))
  {
    hide Push;
  }

  lemma OtherAlike(b: bytes, p: Parser, q: Parser, c: byte)
    requires b != [] && Inv(b, p) && Inv(b, q) && SamePlace(p, q) && !InBody(p) && p.state !in {Start, StartBoundary}
    ensures SamePlace(React(b, p, c), React(b, q, c))
  {
    hide Push, InStartBoundary, InPartData, InHeaderField, InHeaderValue;
    HeaderAlike(p, q, c);
    HeaderAlike(To(p, HeaderField), To(q, HeaderField), c);
    HeaderAlike(To(p, HeaderValue), To(q, HeaderValue), c);
  }

  lemma StepAlike(b: bytes, p: Parser, q: Parser, c: byte)
    requires b != [] && Inv(b, p) && Inv(b, q) && SamePlace(p, q)
    ensures SamePlace(Step(b, p, c), Step(b, q, c))
  {
    hide React;
    if InBody(p) {
      BodyAlike(b, p, q, c);
    } else if p.state in {Start, StartBoundary} {
      BoundaryAlike(b, p, q, c);
    } else {
      OtherAlike(b, p, q, c);
    }
  }

  lemma {:induction false} NameNotDropped(b: bytes, p: Parser, s: bytes)
    requires b != [] && Inv(b, p) && p.ok && p.state == HeaderField && NamesEnd(b, p, s)
    ensures !DropsName(s)
    decreases s
  {
    if s != [] && IsFieldChar(s[0]) { NameNotDropped(b, Step(b, p, s[0]), s[1..]); }
  }

  lemma {:induction false} AllCutsClean(b: bytes, p: Parser, parts: seq<bytes>)
    requires b != [] && Inv(b, p) && p.pend == [] && NamesEnd(b, p, Flatten(parts))
    ensures CleanCuts(b, p, parts)
    decreases parts
  {
    if parts != [] {
      var m, rest := Run(b, p, parts[0]), Flatten(parts[1..]);
      NamesEndAppend(b, p, parts[0], rest);
      if m.pend != [] {
        RunPend(b, p, parts[0]);
        NameNotDropped(b, m, rest);
      }
      NamesEndAlike(b, m, Flush(m), rest);
      AllCutsClean(b, Flush(m), parts[1..]);
    }
  }

  // ----- Stretches of input

  /** Reading s takes the parser from p to q. */
  ghost predicate Takes(b: bytes, p: Parser, s: bytes, q: Parser) {
    b != [] && Inv(b, p) && Inv(b, q) && p.ok && q.ok && Run(b, p, s) == q && NamesEnd(b, p, s)
  }

  lemma Then(b: bytes, p: Parser, s: bytes, q: Parser, t: bytes, r: Parser)
    requires Takes(b, p, s, q) && Takes(b, q, t, r)
    ensures Takes(b, p, s + t, r)
  {
    RunAppend(b, p, s, t);
    NamesEndAppend(b, p, s, t);
  }

  lemma TakesByte(b: bytes, p: Parser, c: byte)
    requires b != [] && Inv(b, p) && p.ok && Step(b, p, c).ok
    requires p.state == HeaderField ==> IsFieldChar(c) || c == ':'
    ensures Takes(b, p, [c], Step(b, p, c))
  {
    assert [c][1..] == [];
  }

  lemma TakesTwo(b: bytes, p: Parser, c: byte, d: byte)
    requires b != [] && Inv(b, p) && p.ok && p.state != HeaderField
    requires Step(b, p, c).ok && Step(b, p, c).state != HeaderField && Step(b, Step(b, p, c), d).ok
    ensures Takes(b, p, [c, d], Step(b, Step(b, p, c), d))
  {
    TakesByte(b, p, c);
    TakesByte(b, Step(b, p, c), d);
    Then(b, p, [c], Step(b, p, c), [d], Step(b, Step(b, p, c), d));
    assert [c] + [d] == [c, d];
  }

  lemma TakesMore(b: bytes, p: Parser, s: bytes, q: Parser)
    requires b != [] && Inv(b, p) && p.ok && s != [] && Takes(b, Step(b, p, s[0]), s[1..], q)
    requires p.state == HeaderField ==> IsFieldChar(s[0]) || s[0] == ':'
    ensures Takes(b, p, s, q)
  {
  }

  /** A state that falls through to another reads like the other. */
  lemma FallsThrough(b: bytes, p: Parser, p': Parser, s: bytes, q: Parser)
    requires b != [] && s != [] && Inv(b, p) && p.ok && p.state != HeaderField
    requires Takes(b, p', s, q) && Step(b, p, s[0]) == Step(b, p', s[0])
    ensures Takes(b, p, s, q)
  {
  }

  lemma {:induction false} TakesName(b: bytes, p: Parser, s: bytes)
    requires b != [] && p.state == HeaderField && p.ok && forall c :: c in s ==> IsFieldChar(c)
    ensures Takes(b, p, s, p.(pend := p.pend + s, used := p.used + |s|))
    decreases s
  {
    if s == [] {
      assert p.pend + s == p.pend;
    } else {
      assert s[0] in s;
      TakesName(b, Step(b, p, s[0]), s[1..]);
      assert p.pend + [s[0]] + s[1..] == p.pend + s;
    }
  }

  lemma {:induction false} TakesSpaces(b: bytes, p: Parser, s: bytes)
    requires b != [] && p.state == HeaderValueStart && p.pend == [] && p.ok && forall c :: c in s ==> c == ' '
    ensures Takes(b, p, s, p.(used := p.used + |s|))
    decreases s
  {
    if s != [] {
      assert s[0] in s && forall c :: c in s[1..] ==> c in s;
      TakesSpaces(b, Step(b, p, s[0]), s[1..]);
    }
  }

  /** The rest of a value of which v has been read. */
  lemma {:induction false} TakesValue(b: bytes, p: Parser, t: Trace, v: bytes, s: bytes)
    requires b != [] && p.state == HeaderValue && p.pend == [] && p.ok && '\r' !in s
    requires p.log == Push(t, OnHeaderValue(v))
    ensures Takes(b, p, s, p.(log := Push(t, OnHeaderValue(v + s)), used := p.used + |s|))
    decreases s
  {
    hide Push;
    if s == [] {
      assert v + s == v;
    } else {
      PushJoin(t, OnHeaderValue(v), OnHeaderValue([s[0]]));
      TakesValue(b, Step(b, p, s[0]), t, v + [s[0]], s[1..]);
      assert v + [s[0]] + s[1..] == v + s;
    }
  }

  // ----- Headers

  lemma TakesNameLine(b: bytes, p: Parser, f: Field)
    requires b != [] && p.state == HeaderFieldStart && p.pend == [] && p.ok && ValidField(f)
    ensures var s := f.name + ":" + f.pad;
            Takes(b, p, s, To(Emit(p, OnHeaderField(f.name)), HeaderValueStart).(used := p.used + |s|))
  {
    hide Push, Takes;
    var p0 := To(p, HeaderField);
    TakesName(b, p0, f.name);
    var p1 := p0.(pend := f.name, used := p.used + |f.name|);
    assert [] + f.name == f.name;
    TakesByte(b, p1, ':');
    Then(b, p0, f.name, p1, ":", Step(b, p1, ':'));
    TakesSpaces(b, Step(b, p1, ':'), f.pad);
    var q := To(Emit(p, OnHeaderField(f.name)), HeaderValueStart).(used := p.used + |f.name + ":" + f.pad|);
    Then(b, p0, f.name + ":", Step(b, p1, ':'), f.pad, q);
    FallsThrough(b, p, p0, f.name + ":" + f.pad, q);
  }

  /**
   A name is accepted up to its colon and reported exactly if it is made of hyphens and letters; otherwise the
   parser stops at the first byte that is neither, and reports nothing of it.  k is where that is.
   */
  lemma NameRead(b: bytes, p: Parser, name: bytes, k: nat, rest: bytes)
    requires b != [] && p.state == HeaderFieldStart && p.pend == [] && p.ok && ':' !in name && '\r' !in name
    requires k <= |name| && (forall i :: 0 <= i < k ==> NameByte(name[i])) && (k < |name| ==> !NameByte(name[k]))
    ensures var one := Run(b, p, name + ":");
            one.ok <==> k == |name|
    ensures k == |name| ==> Run(b, p, name + ":") == To(Emit(p, OnHeaderField(name)), HeaderValueStart).(used := p.used + |name| + 1)
    ensures k < |name| ==> var r := Call(b, p, name + (":" + rest)); !r.ok && r.used == p.used + k && r.log == p.log
  {
    hide Takes, NameByte, Push;
    if k == |name| {
      var f := Field(name, [], []);
      TakesNameLine(b, p, f);
      assert name + ":" + [] == name + ":";
      Taken(b, p, name + ":", To(Emit(p, OnHeaderField(name)), HeaderValueStart).(used := p.used + |name + ":"|));
    } else {
      var c, more := name[k], name[k + 1..];
      NameStops(b, p, name[..k], c, more + ":");
      NameStops(b, p, name[..k], c, more + (":" + rest));
      assert name[..k] + ([c] + (more + ":")) == name + ":";
      assert name[..k] + ([c] + (more + (":" + rest))) == name + (":" + rest);
    }
  }

  lemma NameStops(b: bytes, p: Parser, good: bytes, c: byte, rest: bytes)
    requires b != [] && p.state == HeaderFieldStart && p.pend == [] && p.ok && c != ':' && c != '\r'
    requires (forall x :: x in good ==> NameByte(x)) && !NameByte(c)
    ensures var r := Run(b, p, good + ([c] + rest)); !r.ok && r.pend == [] && r.used == p.used + |good| && r.log == p.log
  {
    hide Takes, Push;
    var p0 := To(p, HeaderField);
    var p1 := if good == [] then p else p0.(pend := p0.pend + good, used := p0.used + |good|);
    if good == [] {
      assert Run(b, p, good) == p1;
    } else {
      TakesName(b, p0, good);
      FallsThrough(b, p, p0, good, p1);
      Taken(b, p, good, p1);
    }
    RunAppend(b, p, good, [c] + rest);
    assert ([c] + rest)[1..] == rest;
    RunFailed(b, Step(b, p1, c), rest);
  }

  /** A value and its line end, read in the state for values. */
  lemma TakesValueEnd(b: bytes, p: Parser, s: bytes, q: Parser)
    requires b != [] && p.state == HeaderValue && p.pend == [] && p.ok && '\r' !in s && p.log == Push(q.log, OnHeaderValue([]))
    requires q == p.(log := q.log)
    ensures Takes(b, p, s + "\r\n", To(Emit(q, OnHeaderValue(s)), HeaderFieldStart).(used := p.used + |s| + 2))
  {
    hide Push, Takes;
    TakesValue(b, p, q.log, [], s);
    assert [] + s == s && s + [] == s;
    var p1 := p.(log := Push(q.log, OnHeaderValue(s)), used := p.used + |s|);
    PushJoin(q.log, OnHeaderValue(s), OnHeaderValue([]));
    TakesTwo(b, p1, '\r', '\n');
    Then(b, p, s, p1, "\r\n", Step(b, Step(b, p1, '\r'), '\n'));
  }

  lemma TakesValueLine(b: bytes, p: Parser, f: Field)
    requires b != [] && p.state == HeaderValueStart && p.pend == [] && p.ok && ValidField(f)
    ensures var s := f.value + "\r\n";
            Takes(b, p, s, To(Emit(p, OnHeaderValue(f.value)), HeaderFieldStart).(used := p.used + |s|))
  {
    hide Push, Takes, Step, Run;
    var s := f.value + "\r\n";
    var p0 := To(Emit(p, OnHeaderValue([])), HeaderValue);
    TakesValueEnd(b, p0, f.value, To(p, HeaderValue));
    ValueBegins(b, p, s[0]);
    FallsThrough(b, p, p0, s, To(Emit(p, OnHeaderValue(f.value)), HeaderFieldStart).(used := p.used + |s|));
  }

  lemma ValueBegins(b: bytes, p: Parser, c: byte)
    requires b != [] && p.state == HeaderValueStart && p.pend == [] && p.ok && c != ' '
    ensures Step(b, p, c) == Step(b, To(Emit(p, OnHeaderValue([])), HeaderValue), c)
  {
    hide Push;
    PushJoin(p.log, OnHeaderValue([]), OnHeaderValue([c]));
    PushJoin(p.log, OnHeaderValue([]), OnHeaderValue([]));
    var none: bytes := [];
    assert none + [c] == [c] && none + none == none;
  }

  /** No name has been reported last, so that the next one begins an event of its own. */
  ghost predicate NameMayBegin(t: Trace) {
    t != [] && (t[|t| - 1].OnPartDataBegin? || t[|t| - 1].OnHeaderValue?)
  }

  /** The parser q is p after n more bytes and the events t. */
  function Later(p: Parser, state: State, t: Trace, n: nat): Parser {
    p.(state := state, log := p.log + t, used := p.used + n)
  }

  lemma TakesField(b: bytes, p: Parser, f: Field)
    requires b != [] && p.state == HeaderFieldStart && p.pend == [] && p.ok && ValidField(f) && NameMayBegin(p.log)
    ensures var q := Later(p, HeaderFieldStart, [OnHeaderField(f.name), OnHeaderValue(f.value)], |PrintField(f)|);
            Takes(b, p, PrintField(f), q) && NameMayBegin(q.log)
  {
    hide Takes;
    var s, s' := f.name + ":" + f.pad, f.value + "\r\n";
    TakesNameLine(b, p, f);
    var p1 := To(Emit(p, OnHeaderField(f.name)), HeaderValueStart).(used := p.used + |s|);
    TakesValueLine(b, p1, f);
    var p2 := To(Emit(p1, OnHeaderValue(f.value)), HeaderFieldStart).(used := p1.used + |s'|);
    Then(b, p, s, p1, s', p2);
    assert p2.log == p.log + [OnHeaderField(f.name), OnHeaderValue(f.value)];
  }

  lemma {:induction false} TakesFields(b: bytes, p: Parser, fs: seq<Field>)
    requires b != [] && p.state == HeaderFieldStart && p.pend == [] && p.ok && forall f :: f in fs ==> ValidField(f)
    requires NameMayBegin(p.log)
    ensures Takes(b, p, PrintFields(fs), Later(p, PartDataStart, FieldEvents(fs), |PrintFields(fs)|))
    decreases fs
  {
    hide Takes, NameMayBegin, ValidField;
    if fs == [] {
      TakesTwo(b, p, '\r', '\n');
      assert p.log + [] == p.log;
    } else {
      var e := [OnHeaderField(fs[0].name), OnHeaderValue(fs[0].value)];
      TakesField(b, p, fs[0]);
      var q := Later(p, HeaderFieldStart, e, |PrintField(fs[0])|);
      TakesFields(b, q, fs[1..]);
      assert q.log + FieldEvents(fs[1..]) == p.log + (e + FieldEvents(fs[1..]));
      Then(b, p, PrintField(fs[0]), q, PrintFields(fs[1..]), Later(p, PartDataStart, FieldEvents(fs), |PrintFields(fs)|));
    }
  }

  // ----- Bodies

  /** How much of the delimiter the parser has matched, in the states that look for it. */
  ghost predicate Matching(b: bytes, p: Parser, k: nat) {
    match p.state
    case PartData => k == 0
    case PartDataAlmostBoundary => k == 1
    case PartDataBoundary => k == 2 + p.index < |Delimiter(b)|
    case _ => false
  }

  /** The last byte of the delimiter. */
  lemma TakesDelimiterEnd(b: bytes, p: Parser, t: Trace, v: bytes, k: nat, c: byte)
    requires b != [] && p.ok && p.pend == [] && Matching(b, p, k) && p.log == Push(t, OnPartData(v))
    requires k + 1 == |Delimiter(b)| && c == Delimiter(b)[k]
    ensures Takes(b, p, [c], Parser(PartDataAlmostEnd, |b|, [], Push(Push(t, OnPartData(v)), OnPartDataEnd), p.used + 1, true))
  {
    hide Push, Takes;
    TakesByte(b, p, c);
  }

  /** After v, the body is what the search for the delimiter lets through. */
  lemma {:induction false} TakesBody(b: bytes, p: Parser, t: Trace, v: bytes, k: nat, s: bytes)
    requires b != [] && p.ok && p.pend == [] && Matching(b, p, k) && p.log == Push(t, OnPartData(v))
    requires Scan(Delimiter(b), k, s).found && Scan(Delimiter(b), k, s).used == |s|
    ensures var log := Push(Push(t, OnPartData(v + Scan(Delimiter(b), k, s).out)), OnPartDataEnd);
            Takes(b, p, s, Parser(PartDataAlmostEnd, |b|, [], log, p.used + |s|, true))
    decreases |s|, k
  {
    hide Push, Takes, InHeaderField, InHeaderValue, InStartBoundary, IsFieldChar;
    var d := Delimiter(b);
    var r := Scan(d, k, s);
    var c := s[0];
    var q := Parser(PartDataAlmostEnd, |b|, [], Push(Push(t, OnPartData(v + r.out)), OnPartDataEnd), p.used + |s|, true);
    if c == d[k] {
      assert v + [] == v;
      if k + 1 == |d| {
        TakesDelimiterEnd(b, p, t, v, k, c);
        assert s == [c];
      } else {
        PushJoin(t, OnPartData(v), OnPartData([]));
        var out := Scan(d, k + 1, s[1..]).out;
        assert [] + out == out && r.out == out;
        var p1 := Step(b, p, c);
        assert p1.used + |s[1..]| == p.used + |s|;
        TakesBody(b, p1, t, v, k + 1, s[1..]);
        TakesMore(b, p, s, q);
      }
    } else if k > 0 {
      PushJoin(t, OnPartData(v), OnPartData(d[..k]));
      assert Held(b, p) == d[..k];
      var out := Scan(d, 0, s).out;
      assert v + d[..k] + out == v + (d[..k] + out);
      TakesBody(b, GiveBack(b, p), t, v + d[..k], 0, s);
      FallsThrough(b, p, GiveBack(b, p), s, q);
    } else {
      PushJoin(t, OnPartData(v), OnPartData([c]));
      var out := Scan(d, 0, s[1..]).out;
      assert v + [c] + out == v + ([c] + out);
      TakesBody(b, Step(b, p, c), t, v + [c], 0, s[1..]);
      TakesMore(b, p, s, q);
    }
  }

  /** A delimiter that is not in the body does not straddle its end either. */
  lemma BodyEndsThere(b: bytes, body: bytes)
    requires b != [] && '\r' !in b && forall q: nat :: !OccursAt(Delimiter(b), body, q)
    ensures FirstAt(Delimiter(b), body + Delimiter(b), |body|)
  {
    var d := Delimiter(b);
    var s := body + d;
    assert s[|body|..|body| + |d|] == d;
    assert Once(d);
    forall q: nat | q < |body| ensures !OccursAt(d, s, q) {
      if q + |d| <= |body| {
        assert !OccursAt(d, body, q) && s[q..q + |d|] == body[q..q + |d|];
      } else if q + |d| <= |s| {
        assert s[q..q + |d|][|body| - q] == s[|body|] == d[0] != d[|body| - q];
      }
    }
  }

  /** In a whole body, the search lets through the body and stops at the end of the delimiter. */
  lemma BodyFound(b: bytes, body: bytes)
    requires b != [] && '\r' !in b && FirstAt(Delimiter(b), body + Delimiter(b), |body|)
    ensures Scan(Delimiter(b), 0, body + Delimiter(b)) == Scanned(body, |body + Delimiter(b)|, |Delimiter(b)|, true)
    ensures body + Delimiter(b) != []
  {
    var d := Delimiter(b);
    assert d[..0] + (body + d) == body + d && (body + d)[..|body|] == body;
    OnceNeedsNone(d);
    ScanFinds(d, 0, body + d, |body|);
  }

  /** A body and the delimiter after it, from the end of the headers on. */
  lemma TakesWholeBody(b: bytes, p: Parser, body: bytes)
    requires b != [] && '\r' !in b && p.state == PartDataStart && p.pend == [] && p.ok
    requires FirstAt(Delimiter(b), body + Delimiter(b), |body|)
    ensures var s := body + Delimiter(b);
            Takes(b, p, s, Later(p, PartDataAlmostEnd, [OnHeadersComplete, OnPartData(body), OnPartDataEnd], |s|).(index := |b|))
  {
    hide Takes, FirstAt, Scan, Push, Delimiter, Step, Run;
    var s := body + Delimiter(b);
    BodyFound(b, body);
    var t := p.log + [OnHeadersComplete];
    NewEvent(t, OnPartData([]));
    NewEvent(t, OnPartData(body));
    NewEvent(t + [OnPartData(body)], OnPartDataEnd);
    var p1 := To(p, PartData).(log := t + [OnPartData([])]);
    TakesBody(b, p1, t, [], 0, s);
    assert [] + body == body;
    var q := Later(p, PartDataAlmostEnd, [OnHeadersComplete, OnPartData(body), OnPartDataEnd], |s|).(index := |b|);
    assert q.log == t + [OnPartData(body)] + [OnPartDataEnd];
    BodyBegins(b, p, s[0]);
    FallsThrough(b, p, p1, s, q);
  }

  lemma BodyBegins(b: bytes, p: Parser, c: byte)
    requires b != [] && p.state == PartDataStart && p.pend == [] && p.ok
    ensures Step(b, p, c) == Step(b, To(p, PartData).(log := p.log + [OnHeadersComplete] + [OnPartData([])]), c)
  {
    hide Push;
    var t := p.log + [OnHeadersComplete];
    PushJoin(t, OnPartData([]), OnPartData([c]));
    PushJoin(t, OnPartData([]), OnPartData([]));
    var none: bytes := [];
    assert none + [c] == [c] && none + none == none;
    NewEvent(p.log, OnHeadersComplete);
    NewEvent(t, OnPartData([]));
  }

  lemma NewEvent(t: Trace, e: Event)
    requires t == [] || !Joins(t[|t| - 1], e)
    ensures Push(t, e) == t + [e]
  {
  }

  lemma TakesPart(b: bytes, p: Parser, part: Part)
    requires b != [] && '\r' !in b && p.state == HeaderFieldStart && p.pend == [] && p.ok && ValidPart(b, part)
    requires p.log != [] && p.log[|p.log| - 1] == OnPartDataBegin
    ensures Takes(b, p, PrintPart(b, part), Later(p, PartDataAlmostEnd, PartEvents(part), |PrintPart(b, part)|).(index := |b|))
  {
    hide Takes, FirstAt, ValidField, OccursAt;
    BodyEndsThere(b, part.body);
    var s, s' := PrintFields(part.fields), part.body + Delimiter(b);
    TakesFields(b, p, part.fields);
    var q := Later(p, PartDataStart, FieldEvents(part.fields), |s|);
    TakesWholeBody(b, q, part.body);
    var e := [OnHeadersComplete, OnPartData(part.body), OnPartDataEnd];
    var r := Later(q, PartDataAlmostEnd, e, |s'|).(index := |b|);
    Then(b, p, s, q, s', r);
    assert s + s' == PrintPart(b, part);
    assert PartEvents(part) == FieldEvents(part.fields) + e;
    assert r.log == p.log + PartEvents(part);
  }

  // ----- Documents

  /** A part that is not the last, and the boundary line after it. */
  lemma TakesPartLine(b: bytes, p: Parser, part: Part)
    requires b != [] && '\r' !in b && p.state == HeaderFieldStart && p.pend == [] && p.ok && ValidPart(b, part)
    requires p.log != [] && p.log[|p.log| - 1] == OnPartDataBegin
    ensures var s := PrintPart(b, part) + "\r\n";
            Takes(b, p, s, Later(p, HeaderFieldStart, PartEvents(part) + [OnPartDataBegin], |s|).(index := |b|))
  {
    hide Takes, ValidPart, PartEvents, PrintPart;
    var s, e := PrintPart(b, part), PartEvents(part);
    TakesPart(b, p, part);
    var q := Later(p, PartDataAlmostEnd, e, |s|).(index := |b|);
    TakesTwo(b, q, '\r', '\n');
    var r := Step(b, Step(b, q, '\r'), '\n');
    assert r.log == p.log + (e + [OnPartDataBegin]);
    Then(b, p, s, q, "\r\n", r);
  }

  lemma TakesLastPart(b: bytes, p: Parser, part: Part)
    requires b != [] && '\r' !in b && p.state == HeaderFieldStart && p.pend == [] && p.ok && ValidPart(b, part)
    requires p.log != [] && p.log[|p.log| - 1] == OnPartDataBegin
    ensures var s := PrintPart(b, part) + "--";
            Takes(b, p, s, Later(p, End, PartEvents(part) + [OnBodyEnd], |s|).(index := |b|))
  {
    hide Takes, ValidPart, PartEvents, PrintPart;
    var s, e := PrintPart(b, part), PartEvents(part);
    TakesPart(b, p, part);
    var q := Later(p, PartDataAlmostEnd, e, |s|).(index := |b|);
    TakesTwo(b, q, '-', '-');
    var r := Step(b, Step(b, q, '-'), '-');
    assert r.log == p.log + (e + [OnBodyEnd]);
    Then(b, p, s, q, "--", r);
  }

  lemma EventsTail(ps: seq<Part>)
    requires ps != []
    ensures Events(ps)[1..] == PartEvents(ps[0]) + Events(ps[1..])
    ensures |ps| > 1 ==> Events(ps[1..]) == [OnPartDataBegin] + Events(ps[1..])[1..]
    ensures |ps| == 1 ==> Events(ps[1..]) == [OnBodyEnd]
  {
    hide PartEvents;
    if |ps| > 1 {
      var rest := PartEvents(ps[1..][0]) + Events(ps[1..][1..]);
      assert Events(ps[1..]) == [OnPartDataBegin] + rest;
    }
  }

  /** From the first part's headers to the end of the last boundary. */
  lemma {:induction false} TakesParts(b: bytes, p: Parser, ps: seq<Part>)
    requires b != [] && '\r' !in b && p.state == HeaderFieldStart && p.pend == [] && p.ok
    requires ps != [] && forall part :: part in ps ==> ValidPart(b, part)
    requires p.log != [] && p.log[|p.log| - 1] == OnPartDataBegin
    ensures Takes(b, p, PrintParts(b, ps), Later(p, End, Events(ps)[1..], |PrintParts(b, ps)|).(index := |b|))
    decreases ps
  {
    hide Takes, ValidPart, PartEvents, PrintPart, Step, Run, Inv, Events;
    var e, rest := PartEvents(ps[0]), ps[1..];
    EventsTail(ps);
    if |ps| == 1 {
      TakesLastPart(b, p, ps[0]);
    } else {
      var s := PrintPart(b, ps[0]) + "\r\n";
      TakesPartLine(b, p, ps[0]);
      var r := Later(p, HeaderFieldStart, e + [OnPartDataBegin], |s|).(index := |b|);
      TakesParts(b, r, rest);
      var t := Events(rest)[1..];
      assert p.log + (e + [OnPartDataBegin]) + t == p.log + (e + ([OnPartDataBegin] + t));
      Then(b, p, s, r, PrintParts(b, rest), Later(r, End, t, |PrintParts(b, rest)|).(index := |b|));
    }
  }

  lemma {:induction false} TakesBoundary(b: bytes, p: Parser, s: bytes)
    requires b != [] && p.state == StartBoundary && p.pend == [] && p.ok && p.index <= |b| && s == b[p.index..]
    ensures Takes(b, p, s, p.(index := |b|, used := p.used + |s|))
    decreases s
  {
    if s != [] {
      TakesBoundary(b, Step(b, p, s[0]), s[1..]);
    }
  }

  lemma TakesFirstBoundary(b: bytes)
    requires b != []
    ensures Takes(b, INIT, b + "\r\n", Parser(HeaderFieldStart, 0, [], [OnPartDataBegin], |b| + 2, true))
  {
    var p0 := To(INIT, StartBoundary);
    TakesBoundary(b, p0, b);
    var p1 := p0.(index := |b|, used := |b|);
    TakesTwo(b, p1, '\r', '\n');
    var r := Step(b, Step(b, p1, '\r'), '\n');
    Then(b, p0, b, p1, "\r\n", r);
    FallsThrough(b, INIT, p0, b + "\r\n", r);
  }

  lemma {:induction false} TakesEpilogue(b: bytes, p: Parser, s: bytes)
    requires b != [] && p.state == End && p.pend == [] && p.ok
    ensures Takes(b, p, s, p.(used := p.used + |s|))
    decreases s
  {
    if s != [] { TakesEpilogue(b, Step(b, p, s[0]), s[1..]); }
  }

  /**
   Parsing inverts printing: whatever follows the last boundary, and however the document is cut into
   calls, the parser reports exactly the given headers and bodies, in order, and ends in its
   final state.
   */
  lemma RoundTrip(b: bytes, ps: seq<Part>, epilogue: bytes, parts: seq<bytes>)
    requires b != [] && '\r' !in b && ps != [] && forall part :: part in ps ==> ValidPart(b, part)
    requires Flatten(parts) == Print(b, ps) + epilogue
    ensures var r := Calls(b, INIT, parts);
            r.log == Events(ps) && r.state == End && r.ok && r.used == |Flatten(parts)|
  {
    hide Takes, ValidPart;
    TakesFirstBoundary(b);
    var q := Parser(HeaderFieldStart, 0, [], [OnPartDataBegin], |b| + 2, true);
    TakesParts(b, q, ps);
    var r := Later(q, End, Events(ps)[1..], |PrintParts(b, ps)|).(index := |b|);
    assert r.log == Events(ps) by { assert Events(ps)[0] == OnPartDataBegin; }
    Then(b, INIT, b + "\r\n", q, PrintParts(b, ps), r);
    TakesEpilogue(b, r, epilogue);
    var z := r.(used := r.used + |epilogue|);
    Then(b, INIT, Print(b, ps), r, epilogue, z);
    Taken(b, INIT, Flatten(parts), z);
    AllCutsClean(b, INIT, parts);
    SplitInvariance(b, INIT, parts);
  }

  lemma Taken(b: bytes, p: Parser, s: bytes, q: Parser)
    requires Takes(b, p, s, q)
    ensures b != [] && Inv(b, p) && Run(b, p, s) == q && NamesEnd(b, p, s)
  {
  }

  // ----- What is refused

  lemma OneByte(b: bytes, p: Parser, s: bytes, c: byte)
    requires b != [] && Inv(b, p)
    ensures Run(b, p, s + [c]) == Step(b, Run(b, p, s), c)
  {
    hide Step, Inv;
    RunAppend(b, p, s, [c]);
    assert [c][1..] == [];
  }

  lemma {:induction false} BoundaryBegun(b: bytes, i: nat)
    requires b != [] && i <= |b|
    ensures Run(b, To(INIT, StartBoundary), b[..i]) == To(INIT, StartBoundary).(index := i, used := i)
  {
    hide Run;
    var p := To(INIT, StartBoundary);
    if i == 0 {
      RunNothing(b, p);
    } else {
      BoundaryBegun(b, i - 1);
      OneByte(b, p, b[..i - 1], b[i - 1]);
      assert b[..i - 1] + [b[i - 1]] == b[..i];
    }
  }

  lemma RunNothing(b: bytes, p: Parser)
    requires b != [] && Inv(b, p)
    ensures Run(b, p, []) == p
  {
  }

  lemma SameFromStart(b: bytes, s: bytes)
    requires b != [] && s != []
    ensures Run(b, INIT, s) == Run(b, To(INIT, StartBoundary), s)
  {
    hide InStartBoundary;
    assert Step(b, INIT, s[0]) == Step(b, To(INIT, StartBoundary), s[0]);
  }

  /** What the next byte of the first boundary line must be. */
  lemma BoundaryByte(b: bytes, i: nat, c: byte)
    requires b != [] && i <= |b| + 1
    ensures var p := To(INIT, StartBoundary).(index := i, used := i);
            var r := Step(b, p, c);
            && (r.ok <==> c == if i < |b| then b[i] else if i == |b| then '\r' else '\n')
            && (r.ok && i <= |b| ==> r == p.(index := i + 1, used := i + 1))
            && (!r.ok ==> r.used == i)
  {
    hide Push;
  }

  /** Of the first boundary line each byte must be the right one; the parser stops at the first that is not. */
  lemma FirstLineRigid(b: bytes, i: nat, c: byte)
    requires b != [] && i < |b| + 2
    ensures var line, r := b + "\r\n", Run(b, INIT, (b + "\r\n")[..i] + [c]);
            (r.ok <==> c == line[i]) && (c != line[i] ==> r.used == i)
  {
    hide Run, Step;
    var p, line := To(INIT, StartBoundary), b + "\r\n";
    SameFromStart(b, line[..i] + [c]);
    OneByte(b, p, line[..i], c);
    BoundaryByte(b, i, c);
    if i <= |b| {
      BoundaryBegun(b, i);
      assert line[..i] == b[..i];
    } else {
      BoundaryBegun(b, |b|);
      OneByte(b, p, b, '\r');
      BoundaryByte(b, |b|, '\r');
      assert b[..|b|] == b && line[..i] == b + ['\r'];
    }
  }

  /** Behind the boundary at the end of a part there must be two hyphens or a line end. */
  lemma AfterPart(b: bytes, p: Parser, part: Part, x: byte, y: byte)
    requires b != [] && '\r' !in b && p.state == HeaderFieldStart && p.pend == [] && p.ok && ValidPart(b, part)
    requires p.log != [] && p.log[|p.log| - 1] == OnPartDataBegin
    ensures Run(b, p, PrintPart(b, part) + [x] + [y]).ok <==> (x == '-' && y == '-') || (x == '\r' && y == '\n')
  {
    hide Takes, ValidPart, Run, PrintPart, PartEvents, Push;
    TakesPart(b, p, part);
    var q := Later(p, PartDataAlmostEnd, PartEvents(part), |PrintPart(b, part)|).(index := |b|);
    Taken(b, p, PrintPart(b, part), q);
    OneByte(b, p, PrintPart(b, part), x);
    OneByte(b, p, PrintPart(b, part) + [x], y);
  }

  /** Bytes of a value, whatever has been reported. */
  lemma {:induction false} InValue(b: bytes, p: Parser, s: bytes)
    requires b != [] && p.state == HeaderValue && p.pend == [] && p.ok && '\r' !in s
    ensures var r := Run(b, p, s); r.state == HeaderValue && r.pend == [] && r.ok && r.used == p.used + |s|
    decreases s
  {
    hide Push;
    if s != [] {
      InValue(b, Step(b, p, s[0]), s[1..]);
    }
  }

  lemma ValueEnds(b: bytes, p: Parser, f: Field)
    requires b != [] && p.state == HeaderValueStart && p.pend == [] && p.ok && ValidField(f)
    ensures var r := Run(b, p, f.value + "\r"); r.state == HeaderValueAlmostDone && r.pend == [] && r.ok
  {
    hide Push, Run, NameByte;
    var q := To(p, HeaderValue);
    InValue(b, q, f.value);
    OneByte(b, q, f.value, '\r');
    SameInValue(b, p, f.value + ['\r']);
  }

  lemma SameInValue(b: bytes, p: Parser, s: bytes)
    requires b != [] && p.state == HeaderValueStart && p.pend == [] && p.ok && s != [] && s[0] != ' '
    ensures Run(b, p, s) == Run(b, To(p, HeaderValue), s)
  {
    hide InHeaderValue;
    assert Step(b, p, s[0]) == Step(b, To(p, HeaderValue), s[0]);
  }

  /** The CR at the end of a header line must be followed by a LF. */
  lemma FieldNeedsLineFeed(b: bytes, p: Parser, f: Field, c: byte)
    requires b != [] && p.state == HeaderFieldStart && p.pend == [] && p.ok && ValidField(f)
    ensures Run(b, p, f.name + ":" + f.pad + (f.value + "\r") + [c]).ok <==> c == '\n'
  {
    hide Takes, Run, ValidField, Push;
    var s := f.name + ":" + f.pad;
    var q := To(Emit(p, OnHeaderField(f.name)), HeaderValueStart).(used := p.used + |s|);
    TakesNameLine(b, p, f);
    Taken(b, p, s, q);
    ValueEnds(b, q, f);
    RunAppend(b, p, s, f.value + "\r");
    OneByte(b, p, s + (f.value + "\r"), c);
  }

  /** So must the CR of the empty line behind the headers. */
  lemma HeadersNeedLineFeed(b: bytes, p: Parser, c: byte)
    requires b != [] && p.state == HeaderFieldStart && p.pend == [] && p.ok
    ensures Run(b, p, "\r" + [c]).ok <==> c == '\n'
  {
    hide Run;
    OneByte(b, p, [], '\r');
    RunNothing(b, p);
    assert [] + ['\r'] == "\r";
    OneByte(b, p, "\r", c);
  }
}
