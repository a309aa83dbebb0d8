/**
 What sessions make of requests that a client has printed: that they are complete, and when the connection is kept.  Some
 of them show what a session does when nothing has been promised about what it met before or about
 what follows.
 */
module PrintedRequests {
  import opened Bytes
  import opened PicoSpec
  import opened SessionSpec
  import opened SessionLaws
  import opened OneRequest
  import opened Pipelining
  import opened ResponseSpec
  import opened RequestText

  // ----- The headers that matter

  lemma {:induction false} TextsAppend(i: nat, hs: seq<Pair>, h: Pair)
    ensures HeaderTexts(hs + [h]) == HeaderTexts(hs) + HeaderText(h)
    ensures FieldsAt(i, hs + [h]) == FieldsAt(i, hs) + [FieldAt(i + |HeaderTexts(hs)|, h)]
    decreases |hs|
  {
    hide HeaderText, FieldAt;
    if hs == [] {
      assert hs + [h] == [h];
    } else {
      var all, rest := hs + [h], hs[1..];
      assert all[0] == hs[0] && all[1..] == rest + [h];
      TextsAppend(i + |HeaderText(hs[0])|, rest, h);
      Regroup(HeaderText(hs[0]), HeaderTexts(rest), HeaderText(h));
    }
  }

  /** What stands before and behind the value of the last header. */
  lemma LastValue(l: Line, hs: seq<Pair>, h: Pair)
    ensures var head, lo := Head(l, hs + [h]), |l.Text()| + |HeaderTexts(hs)| + |h.0| + 2;
            lo <= |head| && head == head[..lo] + (h.1 + "\r\n\r\n")
  {
    hide HeaderTexts, Line.Text;
    TextsAppend(0, hs, h);
    var before := l.Text() + HeaderTexts(hs) + h.0 + ": ";
    assert Head(l, hs + [h]) == before + (h.1 + "\r\n\r\n");
  }

  /** A Content-Length that comes last is what counts, whatever comes before. */
  lemma LengthLast(head: bytes, hs: seq<Header>, v: bytes)
    requires hs != [] && forall h :: h in hs ==> h.Within(|head|)
    requires var h := hs[|hs| - 1];
             h.Field? && h.Within(|head|) && h.name.Of(head) == "Content-Length" && head[h.value.lo..] == v + "\r\n\r\n"
    ensures BodyLenAfter(head, hs, 0) == ToInt(Strtol(v + "\r\n\r\n", 0))
  {
    hide ToInt, Strtol;
    var h := hs[|hs| - 1];
    NotConnection();
    assert h in hs && head == head[..h.value.lo] + (v + "\r\n\r\n");
    StrtolShift(head[..h.value.lo], v + "\r\n\r\n", 0);
  }

  lemma LastLength(l: Line, hs: seq<Pair>, v: bytes)
    requires PlainLine(l) && AllFine(hs + [("Content-Length", v)]) && |hs| < MAX_HTTP_HEADERS
    ensures var all := hs + [("Content-Length", v)];
            && (forall h :: h in RequestOf(l, all).headers ==> h.Within(|Head(l, all)|))
            && BodyLenAfter(Head(l, all), RequestOf(l, all).headers, 0) == ToInt(Strtol(v + "\r\n\r\n", 0))
  {
    hide ParseRequest, HeaderTexts, FieldsAt, ToInt, Strtol, Fine, Line.Text, PlainLine, BodyLenAfter;
    var h: Pair := ("Content-Length", v);
    var all := hs + [h];
    var head, fields := Head(l, all), FieldsAt(|l.Text()|, all);
    PrintedParsed(l, all);
    TextsAppend(|l.Text()|, hs, h);
    LastValue(l, hs, h);
    FieldAtText(l, all, |hs|);
    LengthLast(head, fields, v);
  }

  lemma NotConnection()
    ensures !("Content-Length" <= "Connection")
  {
    assert "Content-Length"[3] != "Connection"[3];
  }

  // ----- Keeping the connection

  /** The k-th header is the last of those whose name is, or is a beginning of, Connection. */
  ghost predicate LastConnection(hs: seq<Pair>, k: nat) {
    k < |hs| && hs[k].0 <= "Connection" && forall j :: k < j < |hs| ==> !(hs[j].0 <= "Connection")
  }

  ghost predicate BeginsWithK(value: bytes) {
    value != [] && (value[0] == 'k' || value[0] == 'K')
  }

  /** Of several Connection headers the last decides, and it decides by its first letter. */
  lemma {:induction false} LastDecides(l: Line, hs: seq<Pair>, k: nat, n: nat)
    requires PlainLine(l) && AllFine(hs) && |hs| <= MAX_HTTP_HEADERS && LastConnection(hs, k) && k < n <= |hs|
    ensures forall h :: h in RequestOf(l, hs).headers ==> h.Within(|Head(l, hs)|)
    ensures KeepAliveAfter(Head(l, hs), RequestOf(l, hs).headers[..n], true) <==> BeginsWithK(hs[k].1)
    decreases n
  {
    hide ParseRequest, HeaderTexts, FieldsAt, Fine, Line.Text, PlainLine;
    PrintedParsed(l, hs);
    var fields := RequestOf(l, hs).headers;
    assert fields[..n][..n - 1] == fields[..n - 1];
    FieldAtText(l, hs, n - 1);
    if n > k + 1 {
      LastDecides(l, hs, k, n - 1);
    }
  }

  /** Headers whose names are not taken for Connection leave the session keeping its connection. */
  lemma {:induction false} KeptAfter(l: Line, hs: seq<Pair>, n: nat)
    requires PlainLine(l) && AllFine(hs) && |hs| <= MAX_HTTP_HEADERS && n <= |hs|
    requires forall k :: 0 <= k < |hs| ==> !(hs[k].0 <= "Connection")
    ensures forall h :: h in RequestOf(l, hs).headers ==> h.Within(|Head(l, hs)|)
    ensures KeepAliveAfter(Head(l, hs), RequestOf(l, hs).headers[..n], true)
    decreases n
  {
    hide ParseRequest, HeaderTexts, FieldsAt, Fine, Line.Text, PlainLine;
    PrintedParsed(l, hs);
    if n > 0 {
      var fields := RequestOf(l, hs).headers;
      assert fields[..n][..n - 1] == fields[..n - 1];
      FieldAtText(l, hs, n - 1);
      KeptAfter(l, hs, n - 1);
    }
  }

  /** A name that is a beginning of Content-Length, and not also one of Connection. */
  ghost predicate NamesLength(name: bytes) {
    name <= "Content-Length" && !(name <= "Connection")
  }

  /** The number that the k-th of the headers shows, counted from 1, and 0 if k is 0. */
  ghost function LengthShown(head: bytes, fields: seq<Header>, k: nat): int
    requires k <= |fields| && forall h :: h in fields ==> h.Within(|head|)
  {
    if k == 0 then 0
    else
      var h := fields[k - 1];
      assert h in fields && h.Within(|head|);
      ToInt(Strtol(head, h.value.lo))
  }

  /** The last header with such a name decides the length; without one it is 0. */
  lemma {:induction false} LastLengthDecides(l: Line, hs: seq<Pair>, k: nat, n: nat)
    requires PlainLine(l) && AllFine(hs) && |hs| <= MAX_HTTP_HEADERS && k <= n <= |hs|
    requires k > 0 ==> NamesLength(hs[k - 1].0)
    requires forall j :: k <= j < |hs| ==> !NamesLength(hs[j].0)
    ensures forall h :: h in RequestOf(l, hs).headers ==> h.Within(|Head(l, hs)|)
    ensures BodyLenAfter(Head(l, hs), RequestOf(l, hs).headers[..n], 0) ==
            LengthShown(Head(l, hs), RequestOf(l, hs).headers, k)
    decreases n
  {
    hide ParseRequest, HeaderTexts, FieldsAt, Fine, Line.Text, PlainLine, ToInt, Strtol;
    PrintedParsed(l, hs);
    if n > 0 {
      var fields := RequestOf(l, hs).headers;
      assert fields[..n][..n - 1] == fields[..n - 1];
      FieldAtText(l, hs, n - 1);
      if n > k {
        LastLengthDecides(l, hs, k, n - 1);
      }
    }
  }

  // ----- Requests with bodies

  /** The head of a request for a body of the given length, after other headers. */
  function HeadFor(l: Line, hs: seq<Pair>, body: bytes): bytes {
    Head(l, hs + [LengthHeader(body)])
  }

  function RequestFor(l: Line, hs: seq<Pair>, body: bytes): Request {
    RequestOf(l, hs + [LengthHeader(body)])
  }

  /**
   A printed request with a body of the length it states is one that sessions answer, however it is cut, exactly if
   that length fits an int.
   */
  lemma PrintedComplete(l: Line, hs: seq<Pair>, body: bytes)
    requires PlainLine(l) && AllFine(hs) && |hs| < MAX_HTTP_HEADERS
    ensures Complete(HeadFor(l, hs, body), RequestFor(l, hs, body), body) <==> |body| < 0x8000_0000
  {
    hide ParseRequest, Strtol, Fine, Decimal, Head, RequestOf, PlainLine;
    LengthFine(body);
    AllFineAnd(hs, LengthHeader(body));
    PrintedParsed(l, hs + [LengthHeader(body)]);
    LastLength(l, hs, Decimal(|body|));
    DecimalRead(|body|, "\r\n\r\n");
  }

  /** A printed request with a body, whose k-th header is its last Connection header. */
  lemma KeepsIf(l: Line, hs: seq<Pair>, body: bytes, k: nat)
    requires PlainLine(l) && AllFine(hs) && |hs| < MAX_HTTP_HEADERS && |body| < 0x8000_0000
    requires LastConnection(hs, k) || (k == |hs| && forall j :: 0 <= j < |hs| ==> !(hs[j].0 <= "Connection"))
    ensures Complete(HeadFor(l, hs, body), RequestFor(l, hs, body), body)
    ensures Keeps(HeadFor(l, hs, body), RequestFor(l, hs, body)) <==> k == |hs| || BeginsWithK(hs[k].1)
  {
    hide ParseRequest, HeaderTexts, FieldsAt, Fine, BodyLenAfter, BeginsWithK, PlainLine, Line.Text;
    PrintedComplete(l, hs, body);
    LengthFine(body);
    AllFineAnd(hs, LengthHeader(body));
    NotConnection();
    var all := hs + [LengthHeader(body)];
    assert RequestOf(l, all).headers[..|all|] == RequestOf(l, all).headers;
    if k == |hs| {
      KeptAfter(l, all, |all|);
    } else {
      assert all[k] == hs[k];
      LastDecides(l, all, k, |all|);
    }
  }

  /**
   However a printed request is cut into reads, once it has been answered the session is ready for the next one exactly
   if the value of the last Connection header begins with a k, small or capital, or there is none; otherwise
   it is shutting down and closing.
   */
  lemma KeptAsAsked(env: Env, o: Session, l: Line, hs: seq<Pair>, body: bytes, k: nat, chunks: seq<bytes>)
    requires RealEnv(env) && Ready(o)
    requires PlainLine(l) && AllFine(hs) && |hs| < MAX_HTTP_HEADERS && |body| < 0x8000_0000
    requires LastConnection(hs, k) || (k == |hs| && forall j :: 0 <= j < |hs| ==> !(hs[j].0 <= "Connection"))
    requires NoneEmpty(chunks) && Flatten(chunks) == HeadFor(l, hs, body) + body && chunks != []
    requires Scannable(o, HeadFor(l, hs, body), body, |chunks[0]|) && Sees(o, HeadFor(l, hs, body), body, |chunks[0]|)
    ensures var r := OnReads(env, o, chunks);
            && |r.sent| == |o.sent| + 1
            && (Ready(r) <==> k == |hs| || (hs[k].1 != [] && (hs[k].1[0] == 'k' || hs[k].1[0] == 'K')))
            && (Ready(r) <==> !(r.phase == ShuttingDown && r.closing))
  {
    hide ParseRequest, Complete, HeadFor, RequestFor, Fine, OnReads, Sees, Scannable, RealEnv, PlainLine;
    KeepsIf(l, hs, body, k);
    AnyCuts(env, o, HeadFor(l, hs, body), RequestFor(l, hs, body), body, chunks);
  }

  // ----- Folded headers close the connection

  /** The head of a request for a body, in which a folded line follows some of the headers. */
  function FoldedFor(l: Line, hs: seq<Pair>, fold: bytes, more: seq<Pair>, body: bytes): bytes {
    FoldedHead(l, hs, fold, more + [LengthHeader(body)])
  }

  function FoldedRequestFor(l: Line, hs: seq<Pair>, fold: bytes, more: seq<Pair>, body: bytes): Request {
    FoldedRequest(l, hs, fold, more + [LengthHeader(body)])
  }

  /** What is behind the folded line stands in the head as it was printed. */
  lemma BehindFold(l: Line, hs: seq<Pair>, fold: bytes, more: seq<Pair>, k: nat)
    requires k < |more|
    ensures var s, i := FoldedHead(l, hs, fold, more), |l.Text()| + |HeaderTexts(hs)|;
            var f := FieldsAt(i + |fold| + 2, more)[k];
            && i + |fold| <= |s| && s[i..i + |fold|] == fold
            && f.Field? && f.name.lo <= f.name.hi <= |s| && f.name.Of(s) == more[k].0
            && f.value.lo <= f.value.hi <= |s| && f.value.Of(s) == more[k].1
  {
    hide HeaderTexts, FieldsAt, Line.Text, Stands;
    var s, text := FoldedHead(l, hs, fold, more), l.Text();
    var a, b, c := HeaderTexts(hs), fold + "\r\n", HeaderTexts(more) + "\r\n";
    StandsSelf(s);
    StandsIn(s, 0, text, a + (b + c));
    StandsIn(s, |text|, a, b + c);
    StandsIn(s, |text| + |a|, b, c);
    StandsIn(s, |text| + |a|, fold, "\r\n");
    StandsWithin(s, |text| + |a|, fold);
    FieldsText(s, |text| + |a| + |b|, more, k);
  }

  lemma LastBehindFold(l: Line, hs: seq<Pair>, fold: bytes, more: seq<Pair>, v: bytes)
    ensures var all := more + [("Content-Length", v)];
            var s, lo := FoldedHead(l, hs, fold, all), |l.Text()| + |HeaderTexts(hs)| + |fold| + 2 + |HeaderTexts(more)| + 16;
            lo <= |s| && s[lo..] == v + "\r\n\r\n"
            && FieldsAt(0, all)[|more|].value.lo == |HeaderTexts(more)| + 16
  {
    hide HeaderTexts, Line.Text, FieldsAt;
    var h: Pair := ("Content-Length", v);
    TextsAppend(0, more, h);
    var before := l.Text() + HeaderTexts(hs) + fold + "\r\n" + HeaderTexts(more) + "Content-Length: ";
    assert FoldedHead(l, hs, fold, more + [h]) == before + (v + "\r\n\r\n");
  }

  /** Headers at the end that are not taken for Connection do not matter to the connection. */
  lemma {:induction false} NotNamed(head: bytes, some: seq<Header>, more: seq<Header>, keep: bool)
    requires forall h :: h in some + more ==> h.Within(|head|)
    requires forall k :: 0 <= k < |more| ==> more[k].Within(|head|) && !IsConnection(head, more[k])
    ensures forall h :: h in some ==> h.Within(|head|)
    ensures KeepAliveAfter(head, some + more, keep) == KeepAliveAfter(head, some, keep)
    decreases |more|
  {
    hide IsConnection, AsksToKeep;
    forall h | h in some ensures h.Within(|head|) {
      assert h in some + more;
    }
    if more == [] {
      assert some + more == some;
    } else {
      var n := |more| - 1;
      assert (some + more)[..|some| + n] == some + more[..n];
      NotNamed(head, some, more[..n], keep);
    }
  }

  /** A line without a name counts as a Connection header, and one that begins with a blank does not ask to keep it. */
  lemma FoldNamed(head: bytes, some: seq<Header>, h: Header, keep: bool)
    requires (forall x :: x in some + [h] ==> x.Within(|head|)) && h.Within(|head|)
    requires h.Continuation? && Fold(h.value.Of(head))
    ensures !KeepAliveAfter(head, some + [h], keep)
  {
    assert (some + [h])[|some|] == h;
  }

  /** The folded line, which has no name, is taken for a Connection header. */
  lemma FoldedCloses(l: Line, hs: seq<Pair>, fold: bytes, more: seq<Pair>, body: bytes)
    requires PlainLine(l) && AllFine(hs) && hs != [] && Fold(fold) && AllFine(more) && |hs| + |more| + 2 <= MAX_HTTP_HEADERS
    requires |body| < 0x8000_0000 && forall k :: 0 <= k < |more| ==> !(more[k].0 <= "Connection")
    ensures var head, request := FoldedFor(l, hs, fold, more, body), FoldedRequestFor(l, hs, fold, more, body);
            Complete(head, request, body) && !Keeps(head, request)
  {
    hide ParseRequest, HeaderTexts, FieldsAt, Fine, Fold, PlainLine, Line.Text, BodyLenAfter, KeepAliveAfter, Decimal, Strtol;
    var all, head, request := more + [LengthHeader(body)], FoldedFor(l, hs, fold, more, body), FoldedRequestFor(l, hs, fold, more, body);
    LengthFine(body);
    AllFineAnd(more, LengthHeader(body));
    FoldedParsed(l, hs, fold, all);
    NotConnection();
    var i := |l.Text()| + |HeaderTexts(hs)|;
    var h := Continuation(Slice(i, i + |fold|));
    var before, after := FieldsAt(|l.Text()|, hs), FieldsAt(i + |fold| + 2, all);
    assert request.headers == before + [h] + after;
    forall k | 0 <= k < |all| ensures after[k].Within(|head|) && !IsConnection(head, after[k]) {
      BehindFold(l, hs, fold, all, k);
      assert after[k] in request.headers;
    }
    BehindFold(l, hs, fold, all, |more|);
    NotNamed(head, before + [h], after, true);
    FoldNamed(head, before, h, true);
    FieldsShift(i + |fold| + 2, all, |more|);
    LastBehindFold(l, hs, fold, more, Decimal(|body|));
    LengthLast(head, request.headers, Decimal(|body|));
    DecimalRead(|body|, "\r\n\r\n");
  }

  /**
   Once a request with a folded header has been answered, the session closes, unless a Connection header follows: the
   folded line is taken for one.
   */
  lemma FoldedEnds(env: Env, l: Line, hs: seq<Pair>, fold: bytes, more: seq<Pair>, body: bytes, chunks: seq<bytes>)
    requires RealEnv(env)
    requires PlainLine(l) && AllFine(hs) && hs != [] && Fold(fold) && AllFine(more) && |hs| + |more| + 2 <= MAX_HTTP_HEADERS
    requires |body| < 0x8000_0000 && forall k :: 0 <= k < |more| ==> !(more[k].0 <= "Connection")
    requires NoneEmpty(chunks) && Flatten(chunks) == FoldedFor(l, hs, fold, more, body) + body
    ensures var r := OnReads(env, OPENED, chunks);
            |r.sent| == 1 && r.phase == ShuttingDown && r.closing
  {
    hide ParseRequest, Complete, FoldedFor, FoldedRequestFor, Fine, Fold, OnReads, RealEnv, PlainLine;
    FoldedCloses(l, hs, fold, more, body);
    FirstRequest(env, FoldedFor(l, hs, fold, more, body), FoldedRequestFor(l, hs, fold, more, body), body, chunks);
  }

  lemma {:induction false} FieldsShift(i: nat, hs: seq<Pair>, k: nat)
    requires k < |hs|
    ensures FieldsAt(i, hs)[k].value.lo == i + FieldsAt(0, hs)[k].value.lo
    decreases |hs|
  {
    if k > 0 {
      FieldsShift(i + |HeaderText(hs[0])|, hs[1..], k - 1);
      FieldsShift(|HeaderText(hs[0])|, hs[1..], k - 1);
    }
  }

  // ----- Two requests for which it matters how they arrive

  const ACCEPT: seq<Pair> := [("Accept", "text/html")]

  lemma AcceptIsFine()
    ensures AllFine(ACCEPT) && AllFine([])
  {
  }

  /** A request that is lost if the one before it came in two reads. */
  lemma StaleExample(env: Env)
    requires RealEnv(env)
    ensures var head1, head2, k := HeadFor(POST, ACCEPT, []), HeadFor(POST, [], "abc"), |HeadFor(POST, [], "abc")| + 3;
            var calls := [Call(head1, RequestFor(POST, ACCEPT, []), []), Call(head2, RequestFor(POST, [], "abc"), "abc")];
            && k < |head1|
            && OnReads(env, OPENED, [head1, head2 + "abc"]).handled == calls
            && OnReads(env, OPENED, [head1[..k], head1[k..], head2 + "abc"]).handled == calls[..1]
  {
    hide RealEnv, ParseRequest, Complete, HeaderTexts, FieldsAt, Fine, OnReads, BodyLenAfter, KeepAliveAfter;
    AcceptIsFine();
    PrintedComplete(POST, ACCEPT, []);
    PrintedComplete(POST, [], "abc");
    var head1, head2 := HeadFor(POST, ACCEPT, []), HeadFor(POST, [], "abc");
    Lengths();
    AcceptKeeps();
    SecondRequestLost(env, head1, RequestFor(POST, ACCEPT, []), |head2| + 3, head2, RequestFor(POST, [], "abc"), "abc");
  }

  lemma Lengths()
    ensures |HeadFor(POST, [], "abc")| + 3 < |HeadFor(POST, ACCEPT, [])| && |HeadFor(POST, [], [])| + 4 < |HeadFor(POST, ACCEPT, [])|
  {
    TextsAppend(0, [], LengthHeader("abc"));
    TextsAppend(0, [], LengthHeader([]));
    TextsAppend(0, ACCEPT, LengthHeader([]));
    TextsAppend(0, [], ACCEPT[0]);
    assert [] + [ACCEPT[0]] == ACCEPT;
  }

  /** A request without a body that is lost if the one before it came in two reads, the first just longer than it. */
  lemma BodylessExample(env: Env, k: nat)
    requires RealEnv(env) && |HeadFor(POST, [], [])| < k <= |HeadFor(POST, [], [])| + 3
    ensures var head1, head2 := HeadFor(POST, ACCEPT, []), HeadFor(POST, [], []);
            var calls := [Call(head1, RequestFor(POST, ACCEPT, []), []), Call(head2, RequestFor(POST, [], []), [])];
            && k < |head1|
            && OnReads(env, OPENED, [head1, head2]).handled == calls
            && OnReads(env, OPENED, [head1[..k], head1[k..], head2]).handled == calls[..1]
  {
    hide RealEnv, ParseRequest, Complete, HeaderTexts, FieldsAt, Fine, OnReads, BodyLenAfter, KeepAliveAfter;
    AcceptIsFine();
    PrintedComplete(POST, ACCEPT, []);
    PrintedComplete(POST, [], []);
    Lengths();
    AcceptKeeps();
    EndsInLines([LengthHeader([])]);
    SecondBodylessLost(env, HeadFor(POST, ACCEPT, []), RequestFor(POST, ACCEPT, []), k, HeadFor(POST, [], []), RequestFor(POST, [], []));
  }

  lemma EndsInLines(hs: seq<Pair>)
    requires hs != []
    ensures |Head(POST, hs)| >= 2 && Head(POST, hs)[|Head(POST, hs)| - 2] == '\r'
  {
    hide HeaderTexts;
  }

  /** The same two requests, when the first read is longer still: the scan of the second begins behind the buffer. */
  lemma OutsideExample(env: Env, k: nat)
    requires RealEnv(env) && |HeadFor(POST, [], [])| + 3 < k < |HeadFor(POST, ACCEPT, [])|
    ensures !ScansInside(env, OnReads(env, OPENED, [HeadFor(POST, ACCEPT, [])[..k], HeadFor(POST, ACCEPT, [])[k..]]), [HeadFor(POST, [], [])])
    ensures |HeadFor(POST, [], [])| + 4 < |HeadFor(POST, ACCEPT, [])|
  {
    hide RealEnv, ParseRequest, Complete, HeaderTexts, FieldsAt, Fine, OnReads, BodyLenAfter, KeepAliveAfter, ScansInside;
    AcceptIsFine();
    PrintedComplete(POST, ACCEPT, []);
    PrintedComplete(POST, [], []);
    Lengths();
    AcceptKeeps();
    var head2 := HeadFor(POST, [], []);
    assert Flatten([head2]) == head2 + [];
    ScansOfSecond(env, HeadFor(POST, ACCEPT, []), RequestFor(POST, ACCEPT, []), k, head2, RequestFor(POST, [], []), [], [head2]);
  }

  lemma AcceptKeeps()
    requires Complete(HeadFor(POST, ACCEPT, []), RequestFor(POST, ACCEPT, []), [])
    ensures Keeps(HeadFor(POST, ACCEPT, []), RequestFor(POST, ACCEPT, []))
  {
    hide ParseRequest, HeaderTexts, FieldsAt, Fine, BodyLenAfter;
    var hs := ACCEPT + [LengthHeader([])];
    AcceptIsFine();
    LengthFine([]);
    AllFineAnd(ACCEPT, LengthHeader([]));
    assert !("Accept" <= "Connection") by { assert "Accept"[0] != "Connection"[0]; }
    NotConnection();
    KeptAfter(POST, hs, |hs|);
    assert RequestOf(POST, hs).headers[..|hs|] == RequestOf(POST, hs).headers;
  }

  const OPEN_LENGTH: Pair := ("Content-Length", [])

  /** A request whose body depends on whether the byte behind it arrives with it. */
  lemma EmptyLengthExample(env: Env)
    requires RealEnv(env)
    ensures var head := Head(POST, [OPEN_LENGTH]);
            OnReads(env, OPENED, [head + "1"]).handled != OnReads(env, OPENED, [head, "1"]).handled
  {
    assert ValidEnv(env);
    hide RealEnv, ValidEnv, ParseRequest, OnReads, Settled, Head, RequestOf;
    OpenLength();
    var head, request := Head(POST, [OPEN_LENGTH]), RequestOf(POST, [OPEN_LENGTH]);
    LengthFromBehind(env, OPENED, head, request, []);
    var call := Call(head, request, []);
    assert OnReads(env, OPENED, [head, "1"]).handled[0] == call;
  }

  lemma OpenLength()
    ensures var head, request := Head(POST, [OPEN_LENGTH]), RequestOf(POST, [OPEN_LENGTH]);
            Complete(head, request, []) && !Settled(head, request.headers)
  {
    hide ParseRequest, HeaderTexts, FieldsAt, BodyLenAfter;
    assert AllFine([OPEN_LENGTH]);
    assert [] + [OPEN_LENGTH] == [OPEN_LENGTH];
    PrintedParsed(POST, [OPEN_LENGTH]);
    LastLength(POST, [], []);
    BlankIsZero();
    OpenValue();
  }

  lemma BlankIsZero()
    ensures ToInt(Strtol([] + "\r\n\r\n", 0)) == 0
  {
    var blank: bytes := [] + "\r\n\r\n";
    StrtolRunsOff(blank, 0, []);
  }

  lemma OpenValue()
    requires forall h :: h in RequestOf(POST, [OPEN_LENGTH]).headers ==> h.Within(|Head(POST, [OPEN_LENGTH])|)
    ensures !Settled(Head(POST, [OPEN_LENGTH]), RequestOf(POST, [OPEN_LENGTH]).headers)
  {
    hide HeaderTexts, FieldsAt, IsSpace;
    var hs := [OPEN_LENGTH];
    var head := Head(POST, hs);
    TextsAppend(|POST.Text()|, [], OPEN_LENGTH);
    assert [] + hs == hs;
    LastValue(POST, [], OPEN_LENGTH);
    FieldAtText(POST, hs, 0);
    NotConnection();
    var f := RequestOf(POST, hs).headers[0];
    forall k | f.value.lo <= k < |head| ensures IsSpace(head[k]) {
      assert head[k] == "\r\n\r\n"[k - f.value.lo];
      LineEndsAreSpace();
    }
    assert IsContentLength(head, f);
  }

  lemma LineEndsAreSpace()
    ensures IsSpace('\r') && IsSpace('\n')
  {
  }
}
