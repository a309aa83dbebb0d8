/**
 The responses that the server builds, and what a parser makes of them.
 */
module ResponseSpec {
  import opened Bytes
  import opened PicoSpec
  import SessionSpec

  /** http_status_t */
  datatype Status =
    | Continue | Success | Created | NoContent | SeeOther | NotModified | PermanentRedirect | BadRequest
    | Unauthorized | Forbidden | NotFound | InternalError | NotImplemented | InsufficientStorage

  function Number(c: Status): nat {
    match c
    case Continue => 100
    case Success => 200
    case Created => 201
    case NoContent => 204
    case SeeOther => 303
    case NotModified => 304
    case PermanentRedirect => 308
    case BadRequest => 400
    case Unauthorized => 401
    case Forbidden => 403
    case NotFound => 404
    case InternalError => 500
    case NotImplemented => 501
    case InsufficientStorage => 507
  }

  /** The code that the status line shows. */
  function Shown(c: Status): bytes {
    match c
    case Continue => "100"
    case Success => "200"
    case Created => "201"
    case NoContent => "204"
    case SeeOther => "303"
    case NotModified => "304"
    case PermanentRedirect => "308"
    case BadRequest => "400"
    case Unauthorized => "401"
    case Forbidden => "401"
    case NotFound => "404"
    case InternalError => "500"
    case NotImplemented => "501"
    case InsufficientStorage => "507"
  }

  /** The reason that follows it. */
  function Reason(c: Status): bytes {
    match c
    case Continue => "CONTINUE"
    case Success => "OK"
    case Created => "CREATED"
    case NoContent => "NO CONTENT"
    case SeeOther => "SEE OTHER"
    case NotModified => "NOT MODIFIED"
    case PermanentRedirect => "PERMANENT REDIRECT"
    case BadRequest => "BAD REQUEST"
    case Unauthorized => "UNAUTHORIZED"
    case Forbidden => "FORBIDDEN"
    case NotFound => "NOT FOUND"
    case InternalError => "INTERNAL SERVER ERROR"
    case NotImplemented => "NOT IMPLEMENTED"
    case InsufficientStorage => "INSUFFICIENT STORAGE"
  }

  function Digit(n: nat): byte
    requires n < 10
  {
    ('0' as int + n) as char
  }

  /** printf's %d for a number that is not negative. */
  function Decimal(n: nat): (r: bytes)
    ensures r != [] && forall c :: c in r ==> IsDigit(c)
  {
    if n < 10 then [Digit(n)] else Decimal(n / 10) + [Digit(n % 10)]
  }

  /** printf's %d */
  function Signed(n: int): bytes {
    if n < 0 then "-" + Decimal(-n) else Decimal(n)
  }

  /** What snprintf is asked to print. */
  function WantedStatusLine(minor: int, c: Status): bytes {
    "HTTP/1." + Signed(minor) + " " + Shown(c) + " " + Reason(c) + "\r\n"
  }

  /** It prints no more than one digit of the version leaves room for. */
  function StatusText(minor: int, c: Status): (r: bytes) {
    var wanted, len := WantedStatusLine(minor, c), 11 + |Shown(c)| + 1 + |Reason(c)|;
    if |wanted| <= len then wanted else wanted[..len]
  }

  type Pair = (bytes, bytes)

  function HeaderText(h: Pair): bytes {
    h.0 + ": " + h.1 + "\r\n"
  }

  function HeaderTexts(hs: seq<Pair>): bytes {
    if hs == [] then [] else HeaderText(hs[0]) + HeaderTexts(hs[1..])
  }

  /** A whole response: the headers that were added, the length of the body, a blank line and the body. */
  function Whole(minor: int, c: Status, hs: seq<Pair>, body: bytes): bytes {
    StatusText(minor, c) + HeaderTexts(hs + [("Content-Length", Decimal(|body|))]) + "\r\n" + body
  }

  // ----- Parsing pieces of it back

  /** What is in s at i. */
  ghost predicate Stands(s: bytes, i: nat, text: bytes) {
    i + |text| <= |s| && s[i..i + |text|] == text
  }

  lemma StandsAt(s: bytes, i: nat, text: bytes, k: nat)
    requires Stands(s, i, text) && k < |text|
    ensures s[i + k] == text[k]
  {
    assert s[i..i + |text|][k] == text[k];
  }

  lemma StandsIn(s: bytes, i: nat, a: bytes, b: bytes)
    ensures Stands(s, i, a + b) <==> Stands(s, i, a) && Stands(s, i + |a|, b)
  {
    if i + |a + b| <= |s| {
      assert s[i..i + |a + b|] == s[i..i + |a|] + s[i + |a|..i + |a| + |b|];
      assert (a + b)[..|a|] == a && (a + b)[|a|..] == b;
    }
  }

  lemma {:induction false} NameEndAt(s: bytes, i: nat, colon: nat)
    requires i <= colon < |s| && s[colon] == ':'
    ensures (NameEnd(s, i).Ok? && NameEnd(s, i).pos == colon) <==> forall k :: i <= k < colon ==> IsTokenChar(s[k])
    decreases colon - i
  {
    if i < colon && IsTokenChar(s[i]) {
      NameEndAt(s, i + 1, colon);
    } else if i < colon && s[i] != ':' {
      assert NameEnd(s, i).Bad?;
    }
  }

  /** The text of a line, if it is to end at hi. */
  lemma {:induction false} TextToEolAt(s: bytes, from: nat, i: nat, hi: nat)
    requires from <= i <= hi && hi + 2 <= |s| && s[hi] == '\r' && s[hi + 1] == '\n'
    ensures (TextToEol(s, from, i).Ok? && TextToEol(s, from, i).val == Slice(from, hi)) <==>
            forall k :: i <= k < hi ==> !EndsText(s[k])
    ensures (forall k :: i <= k < hi ==> !EndsText(s[k])) ==> TextToEol(s, from, i).pos == hi + 2
    decreases hi - i
  {
    if i < hi && !EndsText(s[i]) {
      TextToEolAt(s, from, i + 1, hi);
    }
  }

  // ----- Headers

  /** What a name is made of (section 3.2.6 of RFC 7230). */
  ghost predicate TokenByte(c: byte) {
    c in CAPITALS || c in SMALLS || c in "0123456789" || c in "!#$%&'*+-.^_`|~"
  }

  /** A name that is a token, and a value without controls or blanks in front: what a header line can carry. */
  ghost predicate Fine(h: Pair) {
    && h.0 != [] && (forall k :: 0 <= k < |h.0| ==> TokenByte(h.0[k]))
    && (forall k :: 0 <= k < |h.1| ==> h.1[k] == '\t' || (' ' <= h.1[k] && h.1[k] != '\U{7F}'))
    && (h.1 != [] ==> h.1[0] != ' ' && h.1[0] != '\t')
  }

  /** That is what the parser lets through. */
  lemma TokenBytes(c: byte)
    ensures IsTokenChar(c) <==> TokenByte(c)
  {
    Capital(c);
    Small(c);
    if IsDigit(c) {
      assert c == "0123456789"[c as int - '0' as int];
    }
  }

  lemma FineIs(h: Pair)
    ensures Fine(h) <==>
            && h.0 != [] && (forall k :: 0 <= k < |h.0| ==> IsTokenChar(h.0[k]))
            && (forall k :: 0 <= k < |h.1| ==> !EndsText(h.1[k])) && (h.1 != [] ==> !IsBlank(h.1[0]))
  {
    hide TokenByte, IsTokenChar;
    forall k | 0 <= k < |h.0| ensures IsTokenChar(h.0[k]) <==> TokenByte(h.0[k]) {
      TokenBytes(h.0[k]);
    }
  }

  /** Where the name and the value of a header line at i are. */
  function FieldAt(i: nat, h: Pair): Header {
    Field(Slice(i, i + |h.0|), Slice(i + |h.0| + 2, i + |h.0| + 2 + |h.1|))
  }

  function FieldsAt(i: nat, hs: seq<Pair>): (r: seq<Header>)
    ensures |r| == |hs|
    decreases |hs|
  {
    if hs == [] then [] else [FieldAt(i, hs[0])] + FieldsAt(i + |HeaderText(hs[0])|, hs[1..])
  }

  /** The parts of a header line that stands at i. */
  lemma LineParts(s: bytes, i: nat, h: Pair)
    requires Stands(s, i, HeaderText(h))
    ensures var colon, hi := i + |h.0|, i + |h.0| + 2 + |h.1|;
            && hi + 2 == i + |HeaderText(h)| <= |s|
            && s[colon] == ':' && s[colon + 1] == ' ' && s[hi] == '\r' && s[hi + 1] == '\n'
            && Stands(s, i, h.0) && Stands(s, colon + 2, h.1)
  {
    var colon, hi := i + |h.0|, i + |h.0| + 2 + |h.1|;
    StandsIn(s, i, h.0 + ": " + h.1, "\r\n");
    StandsIn(s, i, h.0 + ": ", h.1);
    StandsIn(s, i, h.0, ": ");
    StandsAt(s, hi, "\r\n", 0);
    StandsAt(s, hi, "\r\n", 1);
    StandsAt(s, colon, ": ", 0);
    StandsAt(s, colon, ": ", 1);
  }

  lemma NameFine(s: bytes, i: nat, h: Pair)
    requires Stands(s, i, HeaderText(h))
    ensures (NameEnd(s, i).Ok? && NameEnd(s, i).pos == i + |h.0|) <==> forall k :: 0 <= k < |h.0| ==> IsTokenChar(h.0[k])
  {
    LineParts(s, i, h);
    var colon := i + |h.0|;
    NameEndAt(s, i, colon);
    assert forall k :: 0 <= k < |h.0| ==> h.0[k] == s[i..colon][k] == s[i + k];
    assert forall k :: i <= k < colon ==> s[k] == h.0[k - i];
  }

  lemma ValueFine(s: bytes, i: nat, h: Pair)
    requires Stands(s, i, HeaderText(h))
    ensures var from, hi := i + |h.0| + 2, i + |h.0| + 2 + |h.1|;
            var r := TextToEol(s, from, from);
            && (r.Ok? && r.val == Slice(from, hi) <==> forall k :: 0 <= k < |h.1| ==> !EndsText(h.1[k]))
            && (r.Ok? && r.val == Slice(from, hi) ==> r.pos == hi + 2)
  {
    LineParts(s, i, h);
    var from, hi := i + |h.0| + 2, i + |h.0| + 2 + |h.1|;
    TextToEolAt(s, from, from, hi);
    assert forall k :: 0 <= k < |h.1| ==> h.1[k] == s[from..hi][k] == s[from + k];
    assert forall k :: from <= k < hi ==> s[k] == h.1[k - from];
  }

  lemma BlanksFine(s: bytes, i: nat, h: Pair)
    requires Stands(s, i, HeaderText(h))
    ensures var r := SkipBlanks(s, i + |h.0| + 1);
            (r.Ok? && r.pos == i + |h.0| + 2) <==> (h.1 != [] ==> !IsBlank(h.1[0]))
  {
    LineParts(s, i, h);
    if h.1 != [] {
      StandsAt(s, i + |h.0| + 2, h.1, 0);
    }
  }

  /** A header line is parsed into its name and value exactly if they are fine. */
  lemma LineBack(s: bytes, i: nat, h: Pair)
    requires Stands(s, i, HeaderText(h))
    ensures (NamedHeader(s, i).Ok? && NamedHeader(s, i).val == FieldAt(i, h)) <==> Fine(h)
    ensures Fine(h) ==> NamedHeader(s, i).pos == i + |HeaderText(h)|
  {
    hide NameEnd, SkipBlanks, TextToEol, Stands, HeaderText, Fine;
    FineIs(h);
    LineParts(s, i, h);
    NameFine(s, i, h);
    BlanksFine(s, i, h);
    ValueFine(s, i, h);
  }

  lemma FirstOfLine(s: bytes, i: nat, h: Pair)
    requires Stands(s, i, HeaderText(h))
    ensures i < |s| && (h.0 != [] ==> s[i] == h.0[0])
  {
    LineParts(s, i, h);
    if h.0 != [] {
      StandsAt(s, i, h.0, 0);
    }
  }

  /** A line of a header that is fine begins with neither a line end nor a blank. */
  lemma FineLine(s: bytes, i: nat, k: nat, h: Pair)
    requires Stands(s, i, HeaderText(h)) && Fine(h)
    ensures i < |s| && Newline(s, i) == Ok(i, false) && HeaderLine(s, i, k) == NamedHeader(s, i)
  {
    hide Fine;
    FineIs(h);
    FirstOfLine(s, i, h);
    assert IsTokenChar(h.0[0]);
  }

  ghost predicate Gives<T(!new)>(r: Res<T>, v: T) {
    r.Ok? && r.val == v
  }

  lemma OneHeader(s: bytes, i: nat, k: nat, max: nat, h: Pair, rest: seq<Header>)
    requires Stands(s, i, HeaderText(h)) && k < max && i + |HeaderText(h)| <= |s|
    ensures var r, next := Headers(s, i, k, max), Headers(s, i + |HeaderText(h)|, k + 1, max);
            && (Gives(r, [FieldAt(i, h)] + rest) <==> Fine(h) && Gives(next, rest))
            && (Gives(r, [FieldAt(i, h)] + rest) ==> r.pos == next.pos)
  {
    hide Stands, HeaderText, NamedHeader, Fine, Newline;
    LineParts(s, i, h);
    LineBack(s, i, h);
    if Fine(h) {
      FineLine(s, i, k, h);
    }
    var r, next := Headers(s, i, k, max), Headers(s, i + |HeaderText(h)|, k + 1, max);
    if Gives(r, [FieldAt(i, h)] + rest) {
      assert r.val[0] == FieldAt(i, h) && r.val[1..] == rest;
    }
    if Fine(h) && next.Ok? {
      assert r == Ok(next.pos, [FieldAt(i, h)] + next.val);
    }
  }

  ghost predicate AllFine(hs: seq<Pair>) {
    forall i :: 0 <= i < |hs| ==> Fine(hs[i])
  }

  lemma AllFineStep(hs: seq<Pair>)
    ensures AllFine(hs) <==> (hs != [] ==> Fine(hs[0]) && AllFine(hs[1..]))
  {
    hide Fine;
    if hs != [] {
      assert forall i :: 0 < i < |hs| ==> hs[i] == hs[1..][i - 1];
    }
  }

  lemma TextsStep(s: bytes, i: nat, hs: seq<Pair>)
    requires hs != [] && Stands(s, i, HeaderTexts(hs) + "\r\n")
    ensures var j := i + |HeaderText(hs[0])|;
            && j <= |s| && Stands(s, i, HeaderText(hs[0])) && Stands(s, j, HeaderTexts(hs[1..]) + "\r\n")
            && |HeaderTexts(hs)| == |HeaderText(hs[0])| + |HeaderTexts(hs[1..])|
            && FieldsAt(i, hs) == [FieldAt(i, hs[0])] + FieldsAt(j, hs[1..])
  {
    hide HeaderText, FieldAt;
    assert HeaderTexts(hs) + "\r\n" == HeaderText(hs[0]) + (HeaderTexts(hs[1..]) + "\r\n");
    StandsIn(s, i, HeaderText(hs[0]), HeaderTexts(hs[1..]) + "\r\n");
  }

  lemma NoHeaders(s: bytes, i: nat, k: nat, max: nat)
    requires k <= max && Stands(s, i, HeaderTexts([]) + "\r\n")
    ensures i <= |s| && Headers(s, i, k, max) == Ok(i + 2, []) && FieldsAt(i, []) == [] && HeaderTexts([]) == []
  {
    hide HeaderLine;
    assert HeaderTexts([]) + "\r\n" == "\r\n";
    StandsAt(s, i, "\r\n", 0);
    StandsAt(s, i, "\r\n", 1);
  }

  /** The headers come back, in order, exactly if all of them are fine. */
  lemma {:induction false} HeadersBack(s: bytes, i: nat, k: nat, max: nat, hs: seq<Pair>)
    requires i <= |s| && Stands(s, i, HeaderTexts(hs) + "\r\n") && k + |hs| <= max
    ensures var r := Headers(s, i, k, max);
            && (Gives(r, FieldsAt(i, hs)) <==> AllFine(hs))
            && (AllFine(hs) ==> r.pos == i + |HeaderTexts(hs)| + 2)
    decreases |hs|
  {
    hide HeaderText, Fine, FieldAt, Headers, Stands, HeaderTexts, FieldsAt, AllFine;
    AllFineStep(hs);
    if hs == [] {
      NoHeaders(s, i, k, max);
    } else {
      var j := i + |HeaderText(hs[0])|;
      TextsStep(s, i, hs);
      OneHeader(s, i, k, max, hs[0], FieldsAt(j, hs[1..]));
      HeadersBack(s, j, k + 1, max, hs[1..]);
    }
  }

  // ----- The status line

  lemma DigitParsed(s: bytes, i: nat, n: nat)
    requires i + 1 < |s| && n < 10 && s[i] == Digit(n) && !IsDigit(s[i + 1])
    ensures Int(s, i) == Ok(i + 1, n)
  {
  }

  /** What the three digits of the code are worth. */
  function ShownNumber(c: Status): nat {
    if c == Forbidden then Number(Unauthorized) else Number(c)
  }

  lemma ShownParsed(s: bytes, i: nat, c: Status)
    requires Stands(s, i, Shown(c)) && i + 3 < |s| && s[i + 3] == ' '
    ensures |Shown(c)| == 3 && Int(s, i) == Ok(i + 3, ShownNumber(c))
  {
    StandsAt(s, i, Shown(c), 0);
    StandsAt(s, i, Shown(c), 1);
    StandsAt(s, i, Shown(c), 2);
    var a, b, d := Shown(c)[0] as int - '0' as int, Shown(c)[1] as int - '0' as int, Shown(c)[2] as int - '0' as int;
    assert Digits(s, i + 3, a * 100 + b * 10 + d) == Ok(i + 3, a * 100 + b * 10 + d);
    assert Digits(s, i + 2, a * 10 + b) == Digits(s, i + 3, (a * 10 + b) * 10 + d);
    assert Int(s, i) == Digits(s, i + 1, a) == Digits(s, i + 2, a * 10 + b);
    assert ShownNumber(c) == a * 100 + b * 10 + d;
  }

  /** The status line is printed whole exactly if the minor version has one digit. */
  lemma StatusWhole(minor: int, c: Status)
    ensures StatusText(minor, c) == WantedStatusLine(minor, c) <==> 0 <= minor <= 9
  {
    var wanted := WantedStatusLine(minor, c);
    assert |wanted| == 10 + |Signed(minor)| + |Shown(c)| + 1 + |Reason(c)|;
    if 0 <= minor <= 9 {
      assert |Signed(minor)| == 1;
    } else {
      assert |Signed(minor)| > 1;
    }
  }

  lemma EarlyReasonIsText(c: Status)
    requires Number(c) < 400
    ensures forall k :: 0 <= k < |Reason(c)| ==> !EndsText(Reason(c)[k])
  {
  }

  lemma LateReasonIsText(c: Status)
    requires Number(c) >= 400
    ensures forall k :: 0 <= k < |Reason(c)| ==> !EndsText(Reason(c)[k])
  {
  }

  lemma ReasonIsText(c: Status)
    ensures forall k :: 0 <= k < |Reason(c)| ==> !EndsText(Reason(c)[k])
  {
    if Number(c) < 400 {
      EarlyReasonIsText(c);
    } else {
      LateReasonIsText(c);
    }
  }

  lemma ThreeDigits(c: Status)
    ensures |Shown(c)| == 3
  {
  }

  lemma StandsSelfIn(s: bytes, text: bytes)
    requires Stands(s, 0, text)
    ensures |text| <= |s|
  {
  }

  lemma StatusParts(s: bytes, minor: nat, c: Status)
    requires minor <= 9 && Stands(s, 0, WantedStatusLine(minor, c))
    ensures |s| >= 15 + |Reason(c)| && |Shown(c)| == 3 && |WantedStatusLine(minor, c)| == 15 + |Reason(c)|
    ensures Stands(s, 0, "HTTP/1.") && s[7] == Digit(minor) && s[8] == ' ' && Stands(s, 9, Shown(c)) && s[12] == ' '
    ensures Stands(s, 13, Reason(c)) && s[13 + |Reason(c)|] == '\r' && s[14 + |Reason(c)|] == '\n'
  {
    hide Shown, Reason, Stands;
    ThreeDigits(c);
    var a: bytes, b: bytes := "HTTP/1.", Signed(minor);
    assert b == [Digit(minor)];
    var r := Reason(c);
    StandsSelfIn(s, WantedStatusLine(minor, c));
    StandsIn(s, 0, a + b + " " + Shown(c) + " " + r, "\r\n");
    StandsIn(s, 0, a + b + " " + Shown(c) + " ", r);
    StandsIn(s, 0, a + b + " " + Shown(c), " ");
    StandsIn(s, 0, a + b + " ", Shown(c));
    StandsIn(s, 0, a + b, " ");
    StandsIn(s, 0, a, b);
    StandsAt(s, 7, b, 0);
    StandsAt(s, 8, " ", 0);
    StandsAt(s, 12, " ", 0);
    StandsAt(s, 13 + |r|, "\r\n", 0);
    StandsAt(s, 13 + |r|, "\r\n", 1);
  }

  lemma {:induction false} ExpectStands(s: bytes, i: nat, text: bytes)
    requires Stands(s, i, text)
    ensures Expect(s, i, text) == Ok(i + |text|, ())
    decreases text
  {
    if text != [] {
      StandsAt(s, i, text, 0);
      assert text == [text[0]] + text[1..];
      StandsIn(s, i, [text[0]], text[1..]);
      ExpectStands(s, i + 1, text[1..]);
    }
  }

  /** The status line comes back with the code it shows. */
  lemma StatusBack(s: bytes, minor: nat, c: Status)
    requires minor <= 9 && Stands(s, 0, WantedStatusLine(minor, c))
    ensures StatusLine(s) ==
            Ok(|WantedStatusLine(minor, c)|, Response(minor, ShownNumber(c), Slice(13, 13 + |Reason(c)|), []))
    ensures Slice(13, 13 + |Reason(c)|).hi <= |s| && Slice(13, 13 + |Reason(c)|).Of(s) == Reason(c)
  {
    hide Stands, Expect, Int, TextToEol, WantedStatusLine, Shown, Reason, ShownNumber;
    StatusParts(s, minor, c);
    ExpectStands(s, 0, "HTTP/1.");
    DigitParsed(s, 7, minor);
    ShownParsed(s, 9, c);
    ReasonParsed(s, 13, c);
  }

  lemma ReasonParsed(s: bytes, i: nat, c: Status)
    requires Stands(s, i, Reason(c)) && i + |Reason(c)| + 1 < |s|
    requires s[i + |Reason(c)|] == '\r' && s[i + |Reason(c)| + 1] == '\n'
    ensures TextToEol(s, i, i) == Ok(i + |Reason(c)| + 2, Slice(i, i + |Reason(c)|))
    ensures s[i..i + |Reason(c)|] == Reason(c)
  {
    hide Reason;
    ReasonIsText(c);
    TextToEolAt(s, i, i, i + |Reason(c)|);
    forall k | i <= k < i + |Reason(c)| ensures !EndsText(s[k]) {
      StandsAt(s, i, Reason(c), k - i);
    }
  }

  // ----- The whole response

  function LengthHeader(body: bytes): Pair {
    ("Content-Length", Decimal(|body|))
  }

  lemma LengthFine(body: bytes)
    ensures Fine(LengthHeader(body))
  {
    hide Fine;
    var h := LengthHeader(body);
    FineIs(h);
    assert forall k :: 0 <= k < |h.1| ==> h.1[k] in h.1;
  }

  /** Reading the number again as the server reads a Content-Length. */
  lemma {:induction false} DecimalRead(n: nat, t: bytes)
    requires t == [] || !IsDigit(t[0])
    ensures SessionSpec.Strtol(Decimal(n) + t, 0) == n
  {
    var d := Decimal(n);
    assert (d + t)[0] == d[0] && d[0] in d;
    DigitsRead(n, [], t);
    assert [] + d + t == d + t;
  }

  /** White space before it is skipped, and its sign is read. */
  lemma {:induction false} SignedRead(blanks: bytes, sign: bytes, n: nat, t: bytes)
    requires (forall k :: 0 <= k < |blanks| ==> IsSpace(blanks[k])) && (sign == [] || sign == "+" || sign == "-")
    requires t == [] || !IsDigit(t[0])
    ensures SessionSpec.Strtol(blanks + (sign + Decimal(n) + t), 0) == (if sign == "-" then -1 else 1) * n
  {
    var s := blanks + (sign + Decimal(n) + t);
    BlanksSkipped(s, 0, |blanks|);
    assert s[|blanks|..] == sign + Decimal(n) + t;
    assert Decimal(n)[0] in Decimal(n);
    DigitsRead(n, blanks + sign, t);
    assert blanks + sign + Decimal(n) + t == s;
    assert s[|blanks|] == if sign == [] then Decimal(n)[0] else sign[0];
  }

  lemma {:induction false} BlanksSkipped(s: bytes, i: nat, j: nat)
    requires i <= j <= |s| && forall k :: i <= k < j ==> IsSpace(s[k])
    ensures SessionSpec.Strtol(s, i) == SessionSpec.Strtol(s, j)
    decreases j - i
  {
    if i < j {
      BlanksSkipped(s, i + 1, j);
    }
  }

  lemma {:induction false} DigitsRead(n: nat, before: bytes, t: bytes)
    requires t == [] || !IsDigit(t[0])
    ensures SessionSpec.DigitsValue(before + Decimal(n) + t, |before|, 0) == n
  {
    DigitsReadOn(n, before, t);
    var s := before + Decimal(n) + t;
    var e := |before| + |Decimal(n)|;
    assert e < |s| ==> s[e] == t[0];
  }

  lemma {:induction false} DigitsReadOn(n: nat, before: bytes, t: bytes)
    ensures var s, e := before + Decimal(n) + t, |before| + |Decimal(n)|;
            SessionSpec.DigitsValue(s, |before|, 0) == SessionSpec.DigitsValue(s, e, n)
  {
    var s := before + Decimal(n) + t;
    if n < 10 {
      assert s[|before|] == Digit(n);
    } else {
      var d, last := Decimal(n / 10), Digit(n % 10);
      assert s == before + d + ([last] + t);
      DigitsReadOn(n / 10, before, [last] + t);
      assert s[|before| + |d|] == last;
    }
  }

  /** The fields found for headers, in their names and values. */
  lemma {:induction false} FieldsText(s: bytes, i: nat, hs: seq<Pair>, k: nat)
    requires Stands(s, i, HeaderTexts(hs) + "\r\n") && k < |hs|
    ensures var f := FieldsAt(i, hs)[k];
            && f.Field? && f.Within(|s|) == (hs[k].0 != [])
            && f.name.lo <= f.name.hi <= |s| && f.name.Of(s) == hs[k].0
            && f.value.lo <= f.value.hi <= |s| && f.value.Of(s) == hs[k].1
    decreases |hs|
  {
    TextsStep(s, i, hs);
    if k == 0 {
      LineParts(s, i, hs[0]);
    } else {
      FieldsText(s, i + |HeaderText(hs[0])|, hs[1..], k - 1);
    }
  }

  /**
   A response is read back: its version, reason and code as shown, all of its headers, one after the other, and what
   follows the blank line is the body, of which the last header states the length.  The headers come back
   exactly if every one of them is fine, and the code exactly if it is not that of a forbidden page.
   */
  lemma ResponseBack(minor: nat, c: Status, hs: seq<Pair>, body: bytes, max: nat)
    requires minor <= 9 && |hs| < max
    ensures var s, all, r := Whole(minor, c, hs, body), hs + [LengthHeader(body)], ParseResponse(Whole(minor, c, hs, body), max);
            && (r.Ok? && r.val.headers == FieldsAt(|StatusText(minor, c)|, all) <==> AllFine(hs))
            && (AllFine(hs) ==>
                  && r.Ok? && r.pos + |body| == |s| && s[r.pos..] == body
                  && r.val.minor == minor && r.val.msg.Within(|s|) && r.val.msg.Of(s) == Reason(c)
                  && (r.val.status == Number(c) <==> c != Forbidden))
  {
    hide WantedStatusLine, StatusText, HeaderTexts, StatusLine, Headers, Decimal, Fine, FieldsAt, Reason;
    var i, all := |StatusText(minor, c)|, hs + [LengthHeader(body)];
    var s := Whole(minor, c, hs, body);
    StatusWhole(minor, c);
    var line, texts := StatusText(minor, c), HeaderTexts(all) + "\r\n";
    assert s == line + (texts + body);
    StandsSelf(s);
    StandsIn(s, 0, line, texts + body);
    StandsIn(s, i, texts, body);
    StatusBack(s, minor, c);
    HeadersBack(s, i, 0, max, all);
    AllFineAnd(hs, LengthHeader(body));
    LengthFine(body);
    assert s[i + |texts|..] == body;
  }

  lemma StandsSelf(s: bytes)
    ensures Stands(s, 0, s)
  {
    assert s[0..|s|] == s;
  }

  lemma AllFineAnd(hs: seq<Pair>, h: Pair)
    ensures AllFine(hs + [h]) <==> AllFine(hs) && Fine(h)
  {
    hide Fine;
    assert (hs + [h])[|hs|] == h;
    assert forall i :: 0 <= i < |hs| ==> (hs + [h])[i] == hs[i];
  }
}
