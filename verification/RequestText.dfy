/**
 Requests as a client prints them, and that they are parsed back: the method, the path, the version and the headers, byte
 for byte, exactly if each of them can stand where it was printed.
 */
module RequestText {
  import opened Bytes
  import opened PicoSpec
  import opened OneRequest
  import opened ResponseSpec

  /** The request line, and an empty line that may come before it. */
  datatype Line = Line(lead: bytes, method_: bytes, path: bytes, minor: nat) {
    function Text(): bytes {
      lead + (method_ + " " + path + " HTTP/1." + Decimal(minor) + "\r\n")
    }
  }

  const POST := Line([], "POST", "/", 1)

  /** What can stand for a method or a path: no spaces and no controls. */
  ghost predicate Plain(token: bytes) {
    forall k :: 0 <= k < |token| ==> ' ' < token[k] && token[k] != '\U{7F}'
  }

  ghost predicate PlainLine(l: Line) {
    Plain(l.method_) && Plain(l.path) && (l.lead == [] || l.lead == "\n" || l.lead == "\r\n")
  }

  /** The head of a request with the given headers. */
  function Head(l: Line, hs: seq<Pair>): bytes {
    l.Text() + HeaderTexts(hs) + "\r\n"
  }

  /** Where its parts are. */
  function RequestOf(l: Line, hs: seq<Pair>): Request {
    var sp1 := |l.lead| + |l.method_|;
    Request(Slice(|l.lead|, sp1), Slice(sp1 + 1, sp1 + 1 + |l.path|), l.minor, FieldsAt(|l.Text()|, hs))
  }

  /** Its parts, as bytes. */
  ghost predicate Reads(s: bytes, r: Request, l: Line, hs: seq<Pair>) {
    && r.method_.Within(|s|) && r.method_.Of(s) == l.method_
    && r.path.Within(|s|) && r.path.Of(s) == l.path
    && r.minor == l.minor
    && |r.headers| == |hs| && forall k :: 0 <= k < |hs| ==> ReadsHeader(s, r.headers[k], hs[k])
  }

  ghost predicate ReadsHeader(s: bytes, h: Header, pair: Pair) {
    h.Field? && h.Within(|s|) && h.name.Of(s) == pair.0 && h.value.Of(s) == pair.1
  }

  // ----- What is printed is parsed

  lemma {:induction false} TokenEndAt(s: bytes, i: nat, j: nat)
    requires i <= j < |s| && s[j] == ' ' && forall k :: i <= k < j ==> ' ' < s[k] && s[k] != '\U{7F}'
    ensures TokenEnd(s, i) == Ok(j, ())
    decreases j - i
  {
    if i < j { TokenEndAt(s, i + 1, j); }
  }

  lemma TokenStands(s: bytes, i: nat, token: bytes)
    requires Stands(s, i, token) && Plain(token) && i + |token| < |s| && s[i + |token|] == ' '
    ensures TokenEnd(s, i) == Ok(i + |token|, ())
  {
    forall k | i <= k < i + |token| ensures ' ' < s[k] && s[k] != '\U{7F}' {
      StandsAt(s, i, token, k - i);
    }
    TokenEndAt(s, i, i + |token|);
  }

  lemma {:induction false} DigitsParsed(s: bytes, i: nat, n: nat)
    requires Stands(s, i, Decimal(n))
    ensures i + |Decimal(n)| <= |s| && Digits(s, i, 0) == Digits(s, i + |Decimal(n)|, n)
  {
    var d := Decimal(n);
    StandsAt(s, i, d, |d| - 1);
    if n >= 10 {
      StandsIn(s, i, Decimal(n / 10), [Digit(n % 10)]);
      DigitsParsed(s, i, n / 10);
    }
  }

  /** A number of any length. */
  lemma IntParsed(s: bytes, i: nat, n: nat)
    requires Stands(s, i, Decimal(n)) && i + |Decimal(n)| < |s| && !IsDigit(s[i + |Decimal(n)|])
    ensures Int(s, i) == Ok(i + |Decimal(n)|, n)
  {
    DigitsParsed(s, i, n);
    StandsAt(s, i, Decimal(n), 0);
    assert Decimal(n)[0] in Decimal(n);
  }

  /** The parts of a line that stands at i, without what leads to it. */
  lemma LineParts(s: bytes, i: nat, l: Line)
    requires Stands(s, i, l.method_ + " " + l.path + " HTTP/1." + Decimal(l.minor) + "\r\n")
    ensures var sp1 := i + |l.method_|;
            var sp2 := sp1 + 1 + |l.path|;
            var eol := sp2 + 8 + |Decimal(l.minor)|;
            && eol + 2 <= |s| && s[sp1] == ' ' && s[sp2] == ' ' && s[eol] == '\r' && s[eol + 1] == '\n'
            && Stands(s, i, l.method_) && Stands(s, sp1 + 1, l.path)
            && Stands(s, sp2 + 1, "HTTP/1.") && Stands(s, sp2 + 8, Decimal(l.minor))
  {
    hide Decimal, Stands;
    var m, p, d := l.method_, l.path, Decimal(l.minor);
    var sp1 := i + |m|;
    var sp2 := sp1 + 1 + |p|;
    var eol := sp2 + 8 + |d|;
    assert m + " " + p + " HTTP/1." + d + "\r\n" == m + " " + p + " " + "HTTP/1." + d + "\r\n";
    StandsIn(s, i, m + " " + p + " " + "HTTP/1." + d, "\r\n");
    StandsIn(s, i, m + " " + p + " " + "HTTP/1.", d);
    StandsIn(s, i, m + " " + p + " ", "HTTP/1.");
    StandsIn(s, i, m + " " + p, " ");
    StandsIn(s, i, m + " ", p);
    StandsIn(s, i, m, " ");
    StandsAt(s, sp1, " ", 0);
    StandsAt(s, sp2, " ", 0);
    StandsAt(s, eol, "\r\n", 0);
    StandsAt(s, eol, "\r\n", 1);
    StandsWithin(s, eol, "\r\n");
  }

  lemma StandsWithin(s: bytes, i: nat, text: bytes)
    requires Stands(s, i, text)
    ensures i + |text| <= |s| && s[i..i + |text|] == text
  {
  }

  lemma LineParsed(s: bytes, i: nat, l: Line)
    requires Stands(s, i, l.method_ + " " + l.path + " HTTP/1." + Decimal(l.minor) + "\r\n")
    requires Plain(l.method_) && Plain(l.path)
    ensures var sp1, n := i + |l.method_|, i + |l.method_| + |l.path| + |Decimal(l.minor)| + 11;
            i <= |s| && LineFrom(s, i) == Ok(n, Request(Slice(i, sp1), Slice(sp1 + 1, sp1 + 1 + |l.path|), l.minor, []))
  {
    hide TokenEnd, Expect, Int, Stands, Decimal;
    LineParts(s, i, l);
    var sp1 := i + |l.method_|;
    var sp2 := sp1 + 1 + |l.path|;
    TokenStands(s, i, l.method_);
    TokenStands(s, sp1 + 1, l.path);
    ExpectStands(s, sp2 + 1, "HTTP/1.");
    IntParsed(s, sp2 + 8, l.minor);
  }

  /** An empty line before the request line is passed over, and no more than that. */
  lemma LeadPassed(s: bytes, l: Line)
    requires l.Text() <= s && PlainLine(l)
    ensures Newline(s, 0).Ok? && Newline(s, 0).pos == |l.lead|
    ensures Stands(s, |l.lead|, l.method_ + " " + l.path + " HTTP/1." + Decimal(l.minor) + "\r\n")
  {
    hide Decimal;
    var text := l.Text();
    var line := l.method_ + " " + l.path + " HTTP/1." + Decimal(l.minor) + "\r\n";
    assert Stands(s, 0, l.lead + line) by { assert s[0..|text|] == text; }
    StandsIn(s, 0, l.lead, line);
    assert line[0] == if l.method_ == [] then ' ' else l.method_[0];
    assert text[0] == if l.lead == [] then line[0] else l.lead[0];
    if l.lead == "\r\n" { assert text[1] == l.lead[1]; }
    assert s[..|text|][0] == text[0] && s[..|text|][1] == text[1];
  }

  /** A request that was printed of plain parts is parsed, and they are where they were printed. */
  lemma PrintedParsed(l: Line, hs: seq<Pair>)
    requires |hs| <= MAX_HTTP_HEADERS && PlainLine(l) && AllFine(hs)
    ensures ParseRequest(Head(l, hs), MAX_HTTP_HEADERS) == Ok(|Head(l, hs)|, RequestOf(l, hs))
  {
    hide LineFrom, Newline, Headers, HeaderTexts, FieldsAt, Fine, PlainLine, Line.Text, Decimal;
    var s, text, texts := Head(l, hs), l.Text(), HeaderTexts(hs) + "\r\n";
    assert s == text + texts;
    StandsSelf(s);
    StandsIn(s, 0, text, texts);
    LeadPassed(s, l);
    PlainParts(l);
    LineParsed(s, |l.lead|, l);
    HeadersBack(s, |text|, 0, MAX_HTTP_HEADERS, hs);
  }

  lemma PlainParts(l: Line)
    requires PlainLine(l)
    ensures Plain(l.method_) && Plain(l.path) && |l.Text()| == |l.lead| + |l.method_| + |l.path| + |Decimal(l.minor)| + 11
  {
  }

  /** The fields of a printed request. */
  lemma FieldAtText(l: Line, hs: seq<Pair>, k: nat)
    requires k < |hs|
    ensures var f := FieldsAt(|l.Text()|, hs)[k];
            && f.Field? && f.Within(|Head(l, hs)|) == (hs[k].0 != [])
            && f.name.lo <= f.name.hi <= |Head(l, hs)| && f.name.Of(Head(l, hs)) == hs[k].0
            && f.value.lo <= f.value.hi <= |Head(l, hs)| && f.value.Of(Head(l, hs)) == hs[k].1
  {
    hide HeaderTexts, FieldsAt, Line.Text;
    var s, text, texts := Head(l, hs), l.Text(), HeaderTexts(hs) + "\r\n";
    assert s == text + texts;
    StandsSelf(s);
    StandsIn(s, 0, text, texts);
    FieldsText(s, |text|, hs, k);
  }

  lemma LineRead(l: Line, s: bytes)
    requires PlainLine(l) && l.Text() <= s
    ensures var r := RequestOf(l, []);
            && r.method_.Within(|s|) && r.method_.Of(s) == l.method_
            && r.path.Within(|s|) && r.path.Of(s) == l.path
  {
    hide Decimal;
    LeadPassed(s, l);
    LineParts(s, |l.lead|, l);
  }

  /** As bytes they are what was printed. */
  lemma PartsRead(l: Line, hs: seq<Pair>)
    requires PlainLine(l) && AllFine(hs)
    ensures Reads(Head(l, hs), RequestOf(l, hs), l, hs)
  {
    hide HeaderTexts, FieldsAt, Fine, Decimal, Line.Text, PlainLine, ReadsHeader;
    var s := Head(l, hs);
    assert s == l.Text() + (HeaderTexts(hs) + "\r\n");
    LineRead(l, s);
    forall k | 0 <= k < |hs| ensures ReadsHeader(s, RequestOf(l, hs).headers[k], hs[k]) {
      HeaderRead(l, hs, k);
    }
  }

  lemma HeaderRead(l: Line, hs: seq<Pair>, k: nat)
    requires AllFine(hs) && k < |hs|
    ensures ReadsHeader(Head(l, hs), RequestOf(l, hs).headers[k], hs[k])
  {
    hide HeaderTexts, FieldsAt, Line.Text, Head;
    FieldAtText(l, hs, k);
    assert Fine(hs[k]);
  }

  // ----- What is parsed is plain

  lemma {:induction false} TokenPlain(s: bytes, i: nat)
    requires i <= |s| && TokenEnd(s, i).Ok?
    ensures Plain(s[i..TokenEnd(s, i).pos])
    decreases |s| - i
  {
    if s[i] != ' ' {
      TokenPlain(s, i + 1);
      var token := s[i..TokenEnd(s, i).pos];
      assert token == [s[i]] + token[1..];
    }
  }

  /** Whatever is parsed, its method and its path hold no spaces and no controls. */
  lemma ParsedIsPlain(s: bytes, max: nat)
    requires ParseRequest(s, max).Ok?
    ensures var r := ParseRequest(s, max).val;
            Plain(r.method_.Of(s)) && Plain(r.path.Of(s))
  {
    hide TokenEnd, HttpVersion, Headers, Plain;
    var start := Newline(s, 0).pos;
    TokenPlain(s, start);
    TokenPlain(s, TokenEnd(s, start).pos + 1);
  }

  lemma {:induction false} NameIsToken(s: bytes, i: nat)
    requires i <= |s| && NameEnd(s, i).Ok?
    ensures forall k :: i <= k < NameEnd(s, i).pos ==> IsTokenChar(s[k])
    decreases |s| - i
  {
    if s[i] != ':' {
      NameIsToken(s, i + 1);
    }
  }

  lemma {:induction false} ValueIsText(s: bytes, from: nat, i: nat)
    requires from <= i <= |s| && TextToEol(s, from, i).Ok?
    ensures forall k :: i <= k < TextToEol(s, from, i).val.hi ==> !EndsText(s[k])
    decreases |s| - i
  {
    if !EndsText(s[i]) {
      ValueIsText(s, from, i + 1);
    }
  }

  lemma {:induction false} BlanksEnd(s: bytes, i: nat)
    requires i <= |s| && SkipBlanks(s, i).Ok?
    ensures !IsBlank(s[SkipBlanks(s, i).pos])
    decreases |s| - i
  {
    if IsBlank(s[i]) {
      BlanksEnd(s, i + 1);
    }
  }

  /** And the name and the value of a header are fine. */
  lemma HeaderIsFine(s: bytes, i: nat)
    requires i <= |s| && NamedHeader(s, i).Ok?
    ensures var h := NamedHeader(s, i).val;
            h.Field? && Fine((h.name.Of(s), h.value.Of(s)))
  {
    hide NameEnd, SkipBlanks, TextToEol, Fine;
    var colon := NameEnd(s, i).pos;
    var from := SkipBlanks(s, colon + 1).pos;
    NameIsToken(s, i);
    BlanksEnd(s, colon + 1);
    ValueIsText(s, from, from);
    var h := NamedHeader(s, i).val;
    assert h == Field(Slice(i, colon), TextToEol(s, from, from).val);
    FineIs((h.name.Of(s), h.value.Of(s)));
  }

  lemma {:induction false} HeadersAreFine(s: bytes, i: nat, k: nat, max: nat)
    requires i <= |s| && k <= max && Headers(s, i, k, max).Ok?
    ensures forall h :: h in Headers(s, i, k, max).val && h.Field? ==> Fine((h.name.Of(s), h.value.Of(s)))
    decreases |s| - i
  {
    hide NamedHeader, TextToEol, Fine, Newline;
    if !Newline(s, i).val {
      var j := Newline(s, i).pos;
      if !(k != 0 && IsBlank(s[j])) { HeaderIsFine(s, j); }
      HeadersAreFine(s, HeaderLine(s, j, k).pos, k + 1, max);
    }
  }

  /**
   A request that was printed is parsed back, part by part, exactly if the method and the path hold no spaces and no
   controls, and the headers are fine.
   */
  lemma RequestBack(l: Line, hs: seq<Pair>)
    requires |hs| <= MAX_HTTP_HEADERS && (l.lead == [] || l.lead == "\n" || l.lead == "\r\n")
    ensures var s, r := Head(l, hs), ParseRequest(Head(l, hs), MAX_HTTP_HEADERS);
            r.Ok? && r.pos == |s| && Reads(s, r.val, l, hs) <==> Plain(l.method_) && Plain(l.path) && AllFine(hs)
  {
    hide ParseRequest, Head, RequestOf, Fine, Plain;
    var s, r := Head(l, hs), ParseRequest(Head(l, hs), MAX_HTTP_HEADERS);
    if PlainLine(l) && AllFine(hs) {
      PrintedParsed(l, hs);
      PartsRead(l, hs);
    }
    if r.Ok? && Reads(s, r.val, l, hs) {
      ParsedIsPlain(s, MAX_HTTP_HEADERS);
      ParsedIsFine(s, MAX_HTTP_HEADERS);
      forall k | 0 <= k < |hs| ensures Fine(hs[k]) {
        assert ReadsHeader(s, r.val.headers[k], hs[k]) && r.val.headers[k] in r.val.headers;
      }
    }
  }

  lemma ParsedIsFine(s: bytes, max: nat)
    requires ParseRequest(s, max).Ok?
    ensures forall h :: h in ParseRequest(s, max).val.headers && h.Field? ==> Fine((h.name.Of(s), h.value.Of(s)))
  {
    hide RequestLine, Headers, Fine;
    HeadersAreFine(s, RequestLine(s).pos, 0, max);
  }

  // ----- Folded headers, and too many of them

  /** What parsing gives if some headers come before the others. */
  function Before(fields: seq<Header>, r: Res<seq<Header>>): Res<seq<Header>> {
    if r.Ok? then Ok(r.pos, fields + r.val) else r
  }

  lemma OneBefore(s: bytes, i: nat, k: nat, max: nat, h: Pair)
    requires Stands(s, i, HeaderText(h)) && Fine(h) && k < max
    ensures i + |HeaderText(h)| <= |s|
            && Headers(s, i, k, max) == Before([FieldAt(i, h)], Headers(s, i + |HeaderText(h)|, k + 1, max))
  {
    hide Stands, HeaderText, NamedHeader, Fine, Newline, FieldAt;
    StandsWithin(s, i, HeaderText(h));
    LineBack(s, i, h);
    FineLine(s, i, k, h);
  }

  /** Fine headers are parsed one after the other, whatever follows them. */
  lemma {:induction false} HeadersBefore(s: bytes, i: nat, k: nat, max: nat, hs: seq<Pair>)
    requires Stands(s, i, HeaderTexts(hs)) && AllFine(hs) && k + |hs| <= max
    ensures i + |HeaderTexts(hs)| <= |s|
            && Headers(s, i, k, max) == Before(FieldsAt(i, hs), Headers(s, i + |HeaderTexts(hs)|, k + |hs|, max))
    decreases |hs|
  {
    hide HeaderText, Fine, FieldAt, Headers, AllFine, Stands;
    StandsWithin(s, i, HeaderTexts(hs));
    if hs == [] {
      NothingBefore(Headers(s, i, k, max));
    } else {
      var text, rest := HeaderText(hs[0]), hs[1..];
      AllFineStep(hs);
      StandsIn(s, i, text, HeaderTexts(rest));
      OneBefore(s, i, k, max, hs[0]);
      HeadersBefore(s, i + |text|, k + 1, max, rest);
      BeforeBefore([FieldAt(i, hs[0])], FieldsAt(i + |text|, rest), Headers(s, i + |HeaderTexts(hs)|, k + |hs|, max));
    }
  }

  lemma NothingBefore(r: Res<seq<Header>>)
    ensures Before([], r) == r
  {
    if r.Ok? { assert [] + r.val == r.val; }
  }

  lemma BeforeBefore(a: seq<Header>, b: seq<Header>, r: Res<seq<Header>>)
    ensures Before(a, Before(b, r)) == Before(a + b, r)
  {
    if r.Ok? { assert a + (b + r.val) == a + b + r.val; }
  }

  /** A line that begins with a blank, and holds no controls but tabs. */
  ghost predicate Fold(line: bytes) {
    && line != [] && (line[0] == ' ' || line[0] == '\t')
    && forall k :: 0 <= k < |line| ==> line[k] == '\t' || (' ' <= line[k] && line[k] != '\U{7F}')
  }

  /** Such a line continues the header before it, and cannot come first. */
  lemma FoldParsed(s: bytes, i: nat, k: nat, max: nat, fold: bytes)
    requires Stands(s, i, fold + "\r\n") && Fold(fold) && k < max
    ensures var j := i + |fold| + 2;
            j <= |s| && Headers(s, i, k, max) ==
                        if k == 0 then Bad else Before([Continuation(Slice(i, i + |fold|))], Headers(s, j, k + 1, max))
  {
    hide Stands, Headers;
    var hi := i + |fold|;
    StandsWithin(s, i, fold + "\r\n");
    StandsIn(s, i, fold, "\r\n");
    StandsAt(s, hi, "\r\n", 0);
    StandsAt(s, hi, "\r\n", 1);
    forall n | i <= n < hi ensures !EndsText(s[n]) && s[n] == fold[n - i] {
      StandsAt(s, i, fold, n - i);
    }
    TextToEolAt(s, i, i, hi);
    FoldStep(s, i, k, max, hi);
  }

  lemma FoldStep(s: bytes, i: nat, k: nat, max: nat, hi: nat)
    requires i < hi && hi + 2 <= |s| && (s[i] == ' ' || s[i] == '\t') && k < max && TextToEol(s, i, i) == Ok(hi + 2, Slice(i, hi))
    ensures Headers(s, i, k, max) == if k == 0 then Bad else Before([Continuation(Slice(i, hi))], Headers(s, hi + 2, k + 1, max))
  {
    hide TextToEol;
    assert !IsTokenChar(s[i]) && s[i] != ':';
    assert NameEnd(s, i) == Bad;
    assert Newline(s, i) == Ok(i, false);
  }

  /** A head with a folded line between other headers. */
  function FoldedHead(l: Line, hs: seq<Pair>, fold: bytes, more: seq<Pair>): bytes {
    l.Text() + (HeaderTexts(hs) + (fold + "\r\n" + (HeaderTexts(more) + "\r\n")))
  }

  function FoldedRequest(l: Line, hs: seq<Pair>, fold: bytes, more: seq<Pair>): Request {
    var i := |l.Text()| + |HeaderTexts(hs)|;
    RequestOf(l, hs).(headers := FieldsAt(|l.Text()|, hs) + ([Continuation(Slice(i, i + |fold|))] + FieldsAt(i + |fold| + 2, more)))
  }

  /** A folded line is parsed as a header without a name, unless it is the first one: then there is no request. */
  lemma FoldedParsed(l: Line, hs: seq<Pair>, fold: bytes, more: seq<Pair>)
    requires PlainLine(l) && AllFine(hs) && Fold(fold) && AllFine(more) && |hs| + 1 + |more| <= MAX_HTTP_HEADERS
    ensures var s := FoldedHead(l, hs, fold, more);
            ParseRequest(s, MAX_HTTP_HEADERS) == if hs == [] then Bad else Ok(|s|, FoldedRequest(l, hs, fold, more))
  {
    hide LineFrom, Newline, Headers, HeaderTexts, FieldsAt, Fine, PlainLine, Line.Text, Decimal, Fold, Stands;
    var s, text := FoldedHead(l, hs, fold, more), l.Text();
    var a, b, c := HeaderTexts(hs), fold + "\r\n", HeaderTexts(more) + "\r\n";
    var i := |text| + |a|;
    StandsSelf(s);
    StandsIn(s, 0, text, a + (b + c));
    StandsIn(s, |text|, a, b + c);
    StandsIn(s, i, b, c);
    LeadPassed(s, l);
    PlainParts(l);
    LineParsed(s, |l.lead|, l);
    HeadersBefore(s, |text|, 0, MAX_HTTP_HEADERS, hs);
    FoldParsed(s, i, |hs|, MAX_HTTP_HEADERS, fold);
    HeadersBack(s, i + |b|, |hs| + 1, MAX_HTTP_HEADERS, more);
    NoTexts(hs);
  }

  lemma NoTexts(hs: seq<Pair>)
    ensures hs == [] ==> HeaderTexts(hs) == [] && FieldsAt(0, hs) == []
  {
  }

  /** With more headers than there is room for, there is no request. */
  lemma TooManyHeaders(l: Line, hs: seq<Pair>)
    requires PlainLine(l) && AllFine(hs) && |hs| > MAX_HTTP_HEADERS
    ensures ParseRequest(Head(l, hs), MAX_HTTP_HEADERS) == Bad
  {
    hide LineFrom, Newline, Headers, HeaderTexts, FieldsAt, Fine, PlainLine, Line.Text, Decimal, Stands;
    var s, text := Head(l, hs), l.Text();
    var some, more := hs[..MAX_HTTP_HEADERS], hs[MAX_HTTP_HEADERS..];
    assert hs == some + more;
    TextsOfBoth(some, more);
    var a, b := HeaderTexts(some), HeaderTexts(more) + "\r\n";
    assert s == text + (a + b);
    StandsSelf(s);
    StandsIn(s, 0, text, a + b);
    StandsIn(s, |text|, a, b);
    LeadPassed(s, l);
    PlainParts(l);
    LineParsed(s, |l.lead|, l);
    HeadersBefore(s, |text|, 0, MAX_HTTP_HEADERS, some);
    assert more[0] == hs[MAX_HTTP_HEADERS];
    TextsStep(s, |text| + |a|, more);
    OneTooMany(s, |text| + |a|, more[0]);
  }

  lemma OneTooMany(s: bytes, i: nat, h: Pair)
    requires Stands(s, i, HeaderText(h)) && Fine(h)
    ensures i <= |s| && Headers(s, i, MAX_HTTP_HEADERS, MAX_HTTP_HEADERS) == Bad
  {
    FineLine(s, i, 0, h);
  }

  lemma {:induction false} TextsOfBoth(a: seq<Pair>, b: seq<Pair>)
    ensures HeaderTexts(a + b) == HeaderTexts(a) + HeaderTexts(b)
    decreases |a|
  {
    hide HeaderText;
    if a == [] {
      assert a + b == b;
    } else {
      assert (a + b)[1..] == a[1..] + b;
      TextsOfBoth(a[1..], b);
      Regroup(HeaderText(a[0]), HeaderTexts(a[1..]), HeaderTexts(b));
    }
  }
}
