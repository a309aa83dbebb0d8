/**
 Laws of the request parser: a verdict, once given, survives every extension of the input; and
 the check for a complete head never changes the outcome of a parse it lets through.
 */
module PicoLaws {
  import opened Bytes
  import opened PicoSpec

  // ----- Prefix stability

  /**
   The verdict r on a prefix against the verdict r' on the whole: success stays the same
   success, failure stays failure, and what was undecided ends at `more` or later.
   */
  ghost predicate Settles<T(!new)>(r: Res<T>, r': Res<T>, more: nat) {
    (r.Ok? ==> r' == r) && (r.Bad? ==> r'.Bad?) && (r.Partial? && r'.Ok? ==> more <= r'.pos)
  }

  lemma NewlineStable(s: bytes, t: bytes, i: nat)
    requires s <= t && i <= |s|
    ensures Settles(Newline(s, i), Newline(t, i), |s|)
    ensures Newline(s, i).Partial? && Newline(t, i).Ok? && Newline(t, i).val ==> |s| < Newline(t, i).pos
  {
  }

  lemma {:induction false} TokenStable(s: bytes, t: bytes, i: nat)
    requires s <= t && i <= |s|
    ensures Settles(TokenEnd(s, i), TokenEnd(t, i), |s|)
    decreases |s| - i
  {
    if i < |s| { TokenStable(s, t, i + 1); }
  }

  lemma {:induction false} DigitsStable(s: bytes, t: bytes, i: nat, v: nat)
    requires s <= t && i <= |s|
    ensures Settles(Digits(s, i, v), Digits(t, i, v), |s|)
    decreases |s| - i
  {
    if i < |s| && IsDigit(s[i]) { DigitsStable(s, t, i + 1, v * 10 + (s[i] as int - '0' as int)); }
  }

  lemma IntStable(s: bytes, t: bytes, i: nat)
    requires s <= t && i <= |s|
    ensures Settles(Int(s, i), Int(t, i), |s|)
  {
    if i < |s| && IsDigit(s[i]) { DigitsStable(s, t, i + 1, s[i] as int - '0' as int); }
  }

  lemma {:induction false} ExpectStable(s: bytes, t: bytes, i: nat, text: bytes)
    requires s <= t && i <= |s|
    ensures Settles(Expect(s, i, text), Expect(t, i, text), |s|)
    decreases text
  {
    if text != [] && i < |s| { ExpectStable(s, t, i + 1, text[1..]); }
  }

  lemma HttpVersionStable(s: bytes, t: bytes, i: nat)
    requires s <= t && i <= |s|
    ensures Settles(HttpVersion(s, i), HttpVersion(t, i), |s|)
  {
    ExpectStable(s, t, i, "HTTP/1.");
    var r := Expect(s, i, "HTTP/1.");
    if r.Ok? { IntStable(s, t, r.pos); }
  }

  lemma {:induction false} TextStable(s: bytes, t: bytes, from: nat, i: nat)
    requires s <= t && from <= i <= |s|
    ensures Settles(TextToEol(s, from, i), TextToEol(t, from, i), |s| + 1)
    decreases |s| - i
  {
    if i < |s| && !EndsText(s[i]) { TextStable(s, t, from, i + 1); }
  }

  lemma {:induction false} NameStable(s: bytes, t: bytes, i: nat)
    requires s <= t && i <= |s|
    ensures Settles(NameEnd(s, i), NameEnd(t, i), |s|)
    decreases |s| - i
  {
    if i < |s| { NameStable(s, t, i + 1); }
  }

  lemma {:induction false} BlanksStable(s: bytes, t: bytes, i: nat)
    requires s <= t && i <= |s|
    ensures Settles(SkipBlanks(s, i), SkipBlanks(t, i), |s|)
    decreases |s| - i
  {
    if i < |s| { BlanksStable(s, t, i + 1); }
  }

  lemma HeaderLineStable(s: bytes, t: bytes, i: nat, k: nat)
    requires s <= t && i < |s|
    ensures Settles(HeaderLine(s, i, k), HeaderLine(t, i, k), |s| + 1)
  {
    hide NameEnd, SkipBlanks, TextToEol;
    TextStable(s, t, i, i);
    NameStable(s, t, i);
    var colon := NameEnd(s, i);
    if colon.Ok? {
      BlanksStable(s, t, colon.pos + 1);
      var from := SkipBlanks(s, colon.pos + 1);
      if from.Ok? { TextStable(s, t, from.pos, from.pos); }
    }
  }

  lemma {:induction false} HeadersStable(s: bytes, t: bytes, i: nat, k: nat, max: nat)
    requires s <= t && i <= |s| && k <= max
    ensures Settles(Headers(s, i, k, max), Headers(t, i, k, max), |s| + 1)
    decreases |s| - i
  {
    hide HeaderLine;
    NewlineStable(s, t, i);
    if i < |s| && Newline(s, i) == Ok(i, false) && k < max {
      HeaderLineStable(s, t, i, k);
      var h := HeaderLine(s, i, k);
      if h.Ok? { HeadersStable(s, t, h.pos, k + 1, max); }
    }
  }

  lemma RequestLineStable(s: bytes, t: bytes)
    requires s <= t
    ensures Settles(RequestLine(s), RequestLine(t), |s| + 1)
  {
    hide Newline, LineFrom;
    NewlineStable(s, t, 0);
    var start := Newline(s, 0);
    if start.Ok? { LineStable(s, t, start.pos); }
  }

  lemma LineStable(s: bytes, t: bytes, start: nat)
    requires s <= t && start <= |s|
    ensures Settles(LineFrom(s, start), LineFrom(t, start), |s| + 1)
  {
    hide Newline, TokenEnd, HttpVersion;
    TokenStable(s, t, start);
    var sp1 := TokenEnd(s, start);
    if sp1.Ok? {
      TokenStable(s, t, sp1.pos + 1);
      var sp2 := TokenEnd(s, sp1.pos + 1);
      if sp2.Ok? {
        HttpVersionStable(s, t, sp2.pos + 1);
        var eol := HttpVersion(s, sp2.pos + 1);
        if eol.Ok? { NewlineStable(s, t, eol.pos); }
      }
    }
  }

  /**
   What the parser says of a prefix it goes on saying: -1 stays -1, and a success keeps its length and
   fields.  A head is longer than any prefix it was still waiting on.
   */
  lemma RequestStable(s: bytes, t: bytes, max: nat)
    requires s <= t
    ensures Settles(ParseRequest(s, max), ParseRequest(t, max), |s| + 1)
  {
    hide RequestLine, Headers;
    RequestLineStable(s, t);
    var line := RequestLine(s);
    if line.Ok? { HeadersStable(s, t, line.pos, 0, max); }
  }

  // ----- Line ends inside a head

  /** No CR of s[i..n) stands alone, and there is no NUL. */
  ghost predicate Tidy(s: bytes, i: nat, n: nat)
    requires n <= |s|
  {
    forall k :: i <= k < n ==> s[k] != '\0' && (s[k] == '\r' ==> k + 1 < n && s[k + 1] == '\n')
  }

  lemma {:induction false} TokenTidy(s: bytes, i: nat)
    requires i <= |s| && TokenEnd(s, i).Ok?
    ensures Tidy(s, i, TokenEnd(s, i).pos + 1)
    decreases |s| - i
  {
    if s[i] != ' ' { TokenTidy(s, i + 1); }
  }

  lemma {:induction false} DigitsTidy(s: bytes, i: nat, v: nat)
    requires i <= |s| && Digits(s, i, v).Ok?
    ensures Tidy(s, i, Digits(s, i, v).pos)
    decreases |s| - i
  {
    if IsDigit(s[i]) { DigitsTidy(s, i + 1, v * 10 + (s[i] as int - '0' as int)); }
  }

  lemma HttpVersionTidy(s: bytes, i: nat)
    requires i <= |s| && HttpVersion(s, i).Ok?
    ensures Tidy(s, i, HttpVersion(s, i).pos)
  {
    hide Tidy, Digits, Expect;
    var j := Expect(s, i, "HTTP/1.").pos;
    LiteralTidy(s, i, j);
    DigitsTidy(s, j + 1, s[j] as int - '0' as int);
    DigitTidy(s, j);
    TidyJoins(s, j, j + 1, HttpVersion(s, i).pos);
    TidyJoins(s, i, j, HttpVersion(s, i).pos);
  }

  lemma LiteralTidy(s: bytes, i: nat, j: nat)
    requires i <= j <= |s| && s[i..j] == "HTTP/1."
    ensures Tidy(s, i, j)
  {
    var text: bytes := "HTTP/1.";
    forall k | i <= k < j ensures s[k] != '\r' && s[k] != '\0' {
      assert s[k] == s[i..j][k - i] == text[k - i];
    }
  }

  lemma DigitTidy(s: bytes, i: nat)
    requires i < |s| && IsDigit(s[i])
    ensures Tidy(s, i, i + 1)
  {
  }

  lemma TidyJoins(s: bytes, i: nat, j: nat, n: nat)
    requires i <= j <= n <= |s| && Tidy(s, i, j) && Tidy(s, j, n)
    ensures Tidy(s, i, n)
  {
  }

  lemma {:induction false} TextTidy(s: bytes, from: nat, i: nat)
    requires from <= i <= |s| && TextToEol(s, from, i).Ok?
    ensures Tidy(s, i, TextToEol(s, from, i).pos)
    decreases |s| - i
  {
    if !EndsText(s[i]) { TextTidy(s, from, i + 1); }
  }

  lemma {:induction false} NameTidy(s: bytes, i: nat)
    requires i <= |s| && NameEnd(s, i).Ok?
    ensures Tidy(s, i, NameEnd(s, i).pos + 1)
    decreases |s| - i
  {
    if s[i] != ':' { NameTidy(s, i + 1); }
  }

  lemma {:induction false} BlanksTidy(s: bytes, i: nat)
    requires i <= |s| && SkipBlanks(s, i).Ok?
    ensures Tidy(s, i, SkipBlanks(s, i).pos)
    decreases |s| - i
  {
    if IsBlank(s[i]) { BlanksTidy(s, i + 1); }
  }

  lemma HeaderLineTidy(s: bytes, i: nat, k: nat)
    requires i < |s| && HeaderLine(s, i, k).Ok?
    ensures Tidy(s, i, HeaderLine(s, i, k).pos)
  {
    hide NameEnd, SkipBlanks, TextToEol;
    if k != 0 && IsBlank(s[i]) {
      TextTidy(s, i, i);
    } else {
      NameTidy(s, i);
      var colon := NameEnd(s, i).pos;
      BlanksTidy(s, colon + 1);
      var from := SkipBlanks(s, colon + 1).pos;
      TextTidy(s, from, from);
    }
  }

  /** The header lines end with a blank line: a line end at e, with another just before it. */
  lemma {:induction false} HeadersTidy(s: bytes, i: nat, k: nat, max: nat) returns (e: nat)
    requires 0 < i <= |s| && s[i - 1] == '\n' && k <= max && Headers(s, i, k, max).Ok?
    ensures Tidy(s, i, Headers(s, i, k, max).pos)
    ensures i <= e < Headers(s, i, k, max).pos && s[e - 1] == '\n'
    ensures Newline(s, e) == Ok(Headers(s, i, k, max).pos, true)
    decreases |s| - i
  {
    hide HeaderLine;
    e := i;
    if !Newline(s, i).val {
      HeaderLineTidy(s, i, k);
      e := HeadersTidy(s, HeaderLine(s, i, k).pos, k + 1, max);
    }
  }

  lemma RequestLineTidy(s: bytes)
    requires RequestLine(s).Ok?
    ensures Tidy(s, 0, RequestLine(s).pos)
  {
    hide TokenEnd, HttpVersion;
    var start := Newline(s, 0).pos;
    TokenTidy(s, start);
    var sp1 := TokenEnd(s, start).pos;
    TokenTidy(s, sp1 + 1);
    var sp2 := TokenEnd(s, sp1 + 1).pos;
    HttpVersionTidy(s, sp2 + 1);
  }

  lemma RequestTidy(s: bytes, max: nat) returns (e: nat)
    requires ParseRequest(s, max).Ok?
    ensures var n := ParseRequest(s, max).pos;
            Tidy(s, 0, n) && 0 < e < n && s[e - 1] == '\n' && Newline(s, e) == Ok(n, true)
  {
    hide RequestLine, Headers;
    RequestLineTidy(s);
    e := HeadersTidy(s, RequestLine(s).pos, 0, max);
  }

  // ----- The fast path

  /** A scan that starts in or before the blank line at e finds it, or an earlier one. */
  lemma {:induction false} BlankLineFound(s: bytes, i: nat, count: nat, e: nat, n: nat)
    requires i <= e < n <= |s| && count < 2 && Tidy(s, i, n)
    requires 0 < e && s[e - 1] == '\n' && Newline(s, e) == Ok(n, true)
    requires i == e ==> count == 1
    ensures BlankLine(s, i, count).Ok?
    decreases e - i
  {
    if i < e {
      var j := Newline(s, i);
      if !j.val {
        BlankLineFound(s, i + 1, 0, e, n);
      } else if count == 0 {
        BlankLineFound(s, j.pos, 1, e, n);
      }
    }
  }

  /** Where no CR stands alone, except perhaps as the last byte, a scan fails only for want of input. */
  lemma {:induction false} BlankLineNotBad(s: bytes, i: nat, count: nat)
    requires i <= |s| && count < 2
    requires forall k :: i <= k < |s| - 1 && s[k] == '\r' ==> s[k + 1] == '\n'
    ensures !BlankLine(s, i, count).Bad?
    decreases |s| - i
  {
    var j := Newline(s, i);
    if j.Ok? && !j.val {
      BlankLineNotBad(s, i + 1, 0);
    } else if j.Ok? && count == 0 {
      BlankLineNotBad(s, j.pos, 1);
    }
  }

  /**
   The fast path agrees with the plain parse.  If the first lastLen bytes were not yet a head and all
   of them are one, then the call that scans only from lastLen - 3 on finds the same head.
   */
  lemma FastPathAgrees(s: bytes, max: nat, lastLen: nat)
    requires lastLen <= |s| && ParseRequest(s[..lastLen], max).Partial? && ParseRequest(s, max).Ok?
    ensures PhrParseRequest(s, max, lastLen) == ParseRequest(s, max)
  {
    hide ParseRequest;
    var n := ParseRequest(s, max).pos;
    RequestStable(s[..lastLen], s, max);
    var e := RequestTidy(s, max);
    BlankLineFound(s, ScanFrom(lastLen), 0, e, n);
  }

  /** What a scan says of a prefix it says of the whole: a blank line stays found, and a lone CR stays wrong. */
  lemma {:induction false} BlankLineStable(s: bytes, t: bytes, i: nat, count: nat)
    requires s <= t && i <= |s| && count < 2
    ensures Settles(BlankLine(s, i, count), BlankLine(t, i, count), |s| + 1)
    decreases |s| - i
  {
    var j := Newline(s, i);
    NewlineStable(s, t, i);
    if j.Ok? && !j.val {
      BlankLineStable(s, t, i + 1, 0);
    } else if j.Ok? && count == 0 {
      BlankLineStable(s, t, j.pos, 1);
    }
  }

  /** Where the scan of a prefix has come to its end, the scan of the whole may as well start again three bytes before. */
  lemma {:induction false} BlankLineResumed(s: bytes, t: bytes, i: nat, count: nat)
    requires s <= t && i <= ScanFrom(|s|) && count < 2 && (|s| < 3 ==> count == 0)
    requires BlankLine(s, i, count).Partial?
    ensures BlankLine(t, i, count).Ok? <==> BlankLine(t, ScanFrom(|s|), 0).Ok?
    decreases |s| - i
  {
    if i < ScanFrom(|s|) {
      var j := Newline(s, i);
      if !j.val {
        BlankLineResumed(s, t, i + 1, 0);
      } else if j.pos <= ScanFrom(|s|) {
        BlankLineResumed(s, t, j.pos, 1);
      }
    }
  }

  /** Scanning what has arrived, piece by piece, finds a blank line exactly if one scan of everything does. */
  lemma ScannedInPieces(s: bytes, t: bytes, lastLen: nat)
    requires s <= t && ScanFrom(lastLen) <= |s|
    ensures match IsComplete(s, lastLen)
            case Ok(_, _) => IsComplete(t, lastLen).Ok?
            case Bad => !IsComplete(t, lastLen).Ok?
            case Partial => lastLen <= |s| ==> (IsComplete(t, lastLen).Ok? <==> IsComplete(t, |s|).Ok?)
  {
    BlankLineStable(s, t, ScanFrom(lastLen), 0);
    if IsComplete(s, lastLen).Partial? && lastLen <= |s| {
      BlankLineResumed(s, t, ScanFrom(lastLen), 0);
    }
  }

  /** Behind the blank line at e, or in the middle of it, a scan of the head finds none. */
  lemma {:induction false} BlankLineMissed(s: bytes, i: nat, e: nat)
    requires e <= i <= |s| && Newline(s, e) == Ok(|s|, true)
    ensures BlankLine(s, i, 0).Partial?
  {
    if i < |s| && Newline(s, i).Ok? && Newline(s, i).val { assert BlankLine(s, |s|, 1).Partial?; }
  }

  /** Where no line ends, there is no blank line. */
  lemma {:induction false} NoBlankLine(s: bytes, i: nat, count: nat)
    requires i <= |s| && count < 2 && forall k :: i <= k < |s| ==> s[k] != '\r' && s[k] != '\n'
    ensures BlankLine(s, i, count).Partial?
    decreases |s| - i
  {
    if i < |s| { NoBlankLine(s, i + 1, 0); }
  }

  /**
   Every call on a piece of a head answers "incomplete", whatever last_len, and every call on more answers with the head,
   for any last_len a caller can have left from an earlier incomplete call.
   */
  lemma HeadInPieces(s: bytes, max: nat, m: nat, lastLen: nat)
    requires ParseRequest(s, max).Ok? && ScanFrom(lastLen) <= m <= |s|
    requires m < ParseRequest(s, max).pos || lastLen <= ParseRequest(s, max).pos
    ensures PhrParseRequest(s[..m], max, lastLen) ==
            if m < ParseRequest(s, max).pos then Partial else ParseRequest(s, max)
  {
    hide ParseRequest;
    var r := ParseRequest(s, max);
    var e := RequestTidy(s, max);
    var p := s[..m];
    var from := ScanFrom(lastLen);
    RequestStable(p, s, max);
    if m < r.pos {
      BlankLineNotBad(p, from, 0);
      assert p <= s;
      assert !ParseRequest(p, max).Ok?;
    } else {
      BlankLineFound(p, from, 0, e, r.pos);
    }
  }

  // ----- Responses

  lemma StatusLineStable(s: bytes, t: bytes)
    requires s <= t
    ensures Settles(StatusLine(s), StatusLine(t), |s| + 1)
  {
    hide HttpVersion, Int, TextToEol;
    HttpVersionStable(s, t, 0);
    var version := HttpVersion(s, 0);
    if version.Ok? && s[version.pos] == ' ' {
      IntStable(s, t, version.pos + 1);
      var status := Int(s, version.pos + 1);
      if status.Ok? { TextStable(s, t, status.pos + 1, status.pos + 1); }
    }
  }

  /** The verdicts on responses last as those on requests do. */
  lemma ResponseStable(s: bytes, t: bytes, max: nat)
    requires s <= t
    ensures Settles(ParseResponse(s, max), ParseResponse(t, max), |s| + 1)
  {
    hide StatusLine, Headers;
    StatusLineStable(s, t);
    var line := StatusLine(s);
    if line.Ok? { HeadersStable(s, t, line.pos, 0, max); }
  }

  lemma IntTidy(s: bytes, i: nat)
    requires i <= |s| && Int(s, i).Ok?
    ensures Tidy(s, i, Int(s, i).pos)
  {
    hide Tidy, Digits;
    DigitTidy(s, i);
    DigitsTidy(s, i + 1, s[i] as int - '0' as int);
    TidyJoins(s, i, i + 1, Int(s, i).pos);
  }

  lemma SpaceTidy(s: bytes, i: nat)
    requires i < |s| && s[i] == ' '
    ensures Tidy(s, i, i + 1)
  {
  }

  lemma StatusLineTidy(s: bytes)
    requires StatusLine(s).Ok?
    ensures Tidy(s, 0, StatusLine(s).pos)
  {
    hide Tidy, HttpVersion, Int, TextToEol;
    var version := HttpVersion(s, 0).pos;
    HttpVersionTidy(s, 0);
    SpaceTidy(s, version);
    IntTidy(s, version + 1);
    var status := Int(s, version + 1).pos;
    SpaceTidy(s, status);
    TextTidy(s, status + 1, status + 1);
    var n := StatusLine(s).pos;
    TidyJoins(s, status, status + 1, n);
    TidyJoins(s, version + 1, status, n);
    TidyJoins(s, version, version + 1, n);
    TidyJoins(s, 0, version, n);
  }

  lemma ResponseTidy(s: bytes, max: nat) returns (e: nat)
    requires ParseResponse(s, max).Ok?
    ensures var n := ParseResponse(s, max).pos;
            Tidy(s, 0, n) && 0 < e < n && s[e - 1] == '\n' && Newline(s, e) == Ok(n, true)
  {
    hide StatusLine, Headers;
    StatusLineTidy(s);
    e := HeadersTidy(s, StatusLine(s).pos, 0, max);
  }

  /** The check for a complete head serves responses as well. */
  lemma ResponseInPieces(s: bytes, max: nat, m: nat, lastLen: nat)
    requires ParseResponse(s, max).Ok? && ScanFrom(lastLen) <= m <= |s|
    requires m < ParseResponse(s, max).pos || lastLen <= ParseResponse(s, max).pos
    ensures PhrParseResponse(s[..m], max, lastLen) ==
            if m < ParseResponse(s, max).pos then Partial else ParseResponse(s, max)
  {
    hide ParseResponse;
    var r := ParseResponse(s, max);
    var e := ResponseTidy(s, max);
    var p := s[..m];
    ResponseStable(p, s, max);
    if m < r.pos {
      BlankLineNotBad(p, ScanFrom(lastLen), 0);
      assert p <= s;
      assert !ParseResponse(p, max).Ok?;
    } else {
      BlankLineFound(p, ScanFrom(lastLen), 0, e, r.pos);
    }
  }
}
