/**
 Ini files line by line: what comments, blank lines, errors, continued lines, quotes and comments behind a value do to what a
 file loads as.
 */
module IniLines {
  import opened Bytes
  import opened Options
  import opened IniSpec
  import opened IniLaws

  /** A line that fits the buffer and does not go on in the next one. */
  ghost predicate Alone(line: bytes) {
    && '\n' !in line && |line| + 1 < 1024
    && var t := TrimRight(line); t == [] || t[|t| - 1] != '\\'
  }

  ghost predicate AllAlone(lines: seq<bytes>) {
    forall k :: 0 <= k < |lines| ==> Alone(lines[k])
  }

  function Text(lines: seq<bytes>): bytes {
    if lines == [] then [] else lines[0] + "\n" + Text(lines[1..])
  }

  function AfterLines(l: Loading, lines: seq<bytes>): Loading
    decreases lines
  {
    if lines == [] then l else AfterLines(AfterLine(l, ParseLine(lines[0], l.section)), lines[1..])
  }

  // ----- Line by line

  lemma TrimOnce(s: bytes)
    ensures Strip(TrimRight(s)) == Strip(s)
  {
    var t := TrimRight(s);
    var r := TrimLeft(t);
    var i := |t| - |r|;
    TrimRightRest(s);
    TrimLeftRest(t);
    assert t == s[..|t|];
    if r == [] {
      assert t == [];
      TrimLeftIs(s, |s|);
    } else {
      assert r[0] == t[i] == s[i];
      StripIs(s, i, |t|);
      StripIs(t, i, |t|);
      assert s[i..|t|] == t[i..|t|];
    }
  }

  /** What a line stands for does not depend on the blanks at its end. */
  lemma LineTrimmed(line: bytes, section: bytes)
    ensures TrimRight(line + "\n") == TrimRight(line)
    ensures ParseLine(TrimRight(line + "\n"), section) == ParseLine(line, section)
  {
    hide Strip, StrippedLine;
    TrimBlanks(line, "\n");
    TrimOnce(line);
  }

  /** Lines that stand alone are loaded one after the other. */
  lemma {:induction false} LoadLines(lines: seq<bytes>, rest: bytes, l: Loading)
    requires AllAlone(lines)
    ensures Load(Text(lines) + rest, [], l) == Load(rest, [], AfterLines(l, lines))
    decreases lines
  {
    hide Load, ParseLine, AfterLine, TrimRight;
    if lines == [] {
      assert Text(lines) + rest == rest;
    } else {
      var line, more := lines[0], lines[1..];
      assert Alone(line);
      assert Text(lines) + rest == line + "\n" + (Text(more) + rest);
      LineTrimmed(line, l.section);
      LoadLine(line, Text(more) + rest, l);
      assert AllAlone(more) by { assert forall k :: 0 <= k < |more| ==> more[k] == lines[k + 1]; }
      LoadLines(more, rest, AfterLine(l, ParseLine(line, l.section)));
    }
  }

  lemma LoadNext(lines: seq<bytes>, line: bytes, rest: bytes)
    requires AllAlone(lines) && Alone(line)
    ensures var l := AfterLines(Loading([], map[], false), lines);
            LoadFile(Text(lines) + (line + "\n" + rest)) == Load(rest, [], AfterLine(l, ParseLine(line, l.section)))
  {
    hide Load, ParseLine, AfterLine, TrimRight;
    var l := AfterLines(Loading([], map[], false), lines);
    LoadLines(lines, line + "\n" + rest, Loading([], map[], false));
    LineTrimmed(line, l.section);
    LoadLine(line, rest, l);
  }

  // ----- Comments and blank lines

  lemma SilentMeans(blanks: bytes, note: bytes, section: bytes)
    requires (forall k :: 0 <= k < |blanks| ==> IsSpace(blanks[k])) && (note == [] || note[0] == '#' || note[0] == ';')
    ensures ParseLine(blanks + note, section) == if note == [] then Empty else Comment
  {
    hide SectionName, ValueText, Lower;
    var line, t := blanks + note, TrimRight(note);
    TrimRightRest(note);
    if note == [] {
      TrimLeftIs(line, |line|);
    } else {
      assert t != [] by { assert !IsSpace(note[0]); }
      assert line[|blanks|] == note[0];
      StripIs(line, |blanks|, |blanks| + |t|);
      assert line[|blanks|..|blanks| + |t|] == t && t[0] == note[0];
    }
  }

  /** A blank line or a comment changes nothing, wherever it is put between lines, and whatever follows. */
  lemma SilentLine(lines: seq<bytes>, blanks: bytes, note: bytes, rest: bytes)
    requires AllAlone(lines) && Alone(blanks + note)
    requires (forall k :: 0 <= k < |blanks| ==> IsSpace(blanks[k])) && (note == [] || note[0] == '#' || note[0] == ';')
    ensures LoadFile(Text(lines) + (blanks + note + "\n" + rest)) == LoadFile(Text(lines) + rest)
  {
    hide Load, ParseLine, TrimRight;
    var l := AfterLines(Loading([], map[], false), lines);
    LoadNext(lines, blanks + note, rest);
    SilentMeans(blanks, note, l.section);
    LoadLines(lines, rest, Loading([], map[], false));
  }

  // ----- Errors

  /** A line without blanks at its edges is an error exactly if it is no comment, no section, and names no value. */
  lemma ErrorMeans(line: bytes, section: bytes)
    requires line != [] && Stripped(line)
    ensures ParseLine(line, section) == Error <==>
            && line[0] != '#' && line[0] != ';' && !(line[0] == '[' && line[|line| - 1] == ']')
            && (line[0] == '=' || '=' !in line)
  {
    hide SectionName, ValueText, Lower, Strip;
    StripStripped(line);
    UntilLacks(line, 0, "=");
  }

  /** The section has no part in it. */
  lemma ErrorAnywhere(line: bytes, s: bytes, t: bytes)
    ensures ParseLine(line, s) == Error <==> ParseLine(line, t) == Error
  {
    hide SectionName, ValueText, Lower, Strip;
  }

  lemma {:induction false} ErrorsStay(text: bytes, pending: bytes, l: Loading)
    requires |pending| + 1 < ASCIILINESZ && l.errs
    ensures Load(text, pending, l) == None
    decreases |text|
  {
    hide ParseLine, TrimRight;
    if text != [] {
      var room := ASCIILINESZ - 1 - |pending|;
      var n := LineLength(text, room);
      var full, rest := pending + text[..n], text[n..];
      if |full| <= 1 {
        ErrorsStay(rest, pending, l);
      } else if !(full[|full| - 1] != '\n' && (rest != [] || n == room)) {
        var line := TrimRight(full);
        if line != [] && line[|line| - 1] == '\\' {
          ErrorsStay(rest, line[..|line| - 1], l);
        } else {
          ErrorsStay(rest, [], AfterLine(l, ParseLine(line, l.section)));
        }
      }
    }
  }

  /** A file with an error in one of its lines is not loaded at all, whatever follows. */
  lemma ErrorLine(lines: seq<bytes>, line: bytes, rest: bytes)
    requires AllAlone(lines) && Alone(line) && ParseLine(line, []) == Error
    ensures LoadFile(Text(lines) + (line + "\n" + rest)) == None
  {
    hide Load, ParseLine, TrimRight;
    var l := AfterLines(Loading([], map[], false), lines);
    LoadNext(lines, line, rest);
    ErrorAnywhere(line, [], l.section);
    ErrorsStay(rest, [], AfterLine(l, Error));
  }

  lemma {:induction false} ErrorsFound(lines: seq<bytes>, l: Loading)
    ensures AfterLines(l, lines).errs <==> l.errs || exists k :: 0 <= k < |lines| && ParseLine(lines[k], []) == Error
    decreases lines
  {
    hide ParseLine;
    if lines != [] {
      var more := lines[1..];
      ErrorAnywhere(lines[0], [], l.section);
      ErrorsFound(more, AfterLine(l, ParseLine(lines[0], l.section)));
      if k :| 0 <= k < |lines| && ParseLine(lines[k], []) == Error {
        assert k > 0 ==> more[k - 1] == lines[k];
      }
      if k :| 0 <= k < |more| && ParseLine(more[k], []) == Error {
        assert lines[k + 1] == more[k];
      }
    }
  }

  /** A file of lines that stand alone is loaded exactly if none of them is an error, and then to what they add up to. */
  lemma FileLoads(lines: seq<bytes>)
    requires AllAlone(lines)
    ensures LoadFile(Text(lines)) == None <==> exists k :: 0 <= k < |lines| && ParseLine(lines[k], []) == Error
    ensures LoadFile(Text(lines)) != None ==>
              LoadFile(Text(lines)) == Some(AfterLines(Loading([], map[], false), lines).dict)
  {
    hide ParseLine, TrimRight, AfterLines;
    var l := Loading([], map[], false);
    LoadLines(lines, [], l);
    assert Text(lines) + [] == Text(lines);
    ErrorsFound(lines, l);
  }

  // ----- Lines that go on

  /** What loading does with a whole line, of which a beginning may have waited. */
  ghost function Next(full: bytes, rest: bytes, l: Loading): Option<Map>
    requires |full| < ASCIILINESZ
  {
    var line := TrimRight(full);
    if |full| <= 1 then Load(rest, [], l)
    else if line != [] && line[|line| - 1] == '\\' then Load(rest, line[..|line| - 1], l)
    else Load(rest, [], AfterLine(l, ParseLine(line, l.section)))
  }

  lemma LoadStep(pending: bytes, body: bytes, rest: bytes, l: Loading)
    requires '\n' !in body && |pending| + |body| + 1 < ASCIILINESZ
    ensures Load(body + "\n" + rest, pending, l) == Next(pending + body + "\n", rest, l)
  {
    hide ParseLine, AfterLine, TrimRight;
    var text, n := body + "\n" + rest, |body| + 1;
    WholeLine(body, rest, ASCIILINESZ - 1 - |pending|);
    assert text[..n] == body + "\n" && text[n..] == rest;
    assert pending + (body + "\n") == pending + body + "\n";
  }

  /** The part of a line before its backslash waits for the next line. */
  lemma Pends(a: bytes, blanks: bytes, text: bytes, l: Loading)
    requires '\n' !in a && '\n' !in blanks && (forall k :: 0 <= k < |blanks| ==> IsSpace(blanks[k]))
    requires |a| + 1 + |blanks| + 1 < ASCIILINESZ
    ensures Load(a + "\\" + blanks + "\n" + text, [], l) == Load(text, a, l)
  {
    hide Load, ParseLine, AfterLine;
    var body := a + "\\" + blanks;
    LoadStep([], body, text, l);
    assert [] + body + "\n" == a + "\\" + (blanks + "\n");
    Backslash(a, blanks + "\n");
    assert (a + "\\")[..|a|] == a;
  }

  lemma Backslash(a: bytes, blanks: bytes)
    requires forall k :: 0 <= k < |blanks| ==> IsSpace(blanks[k])
    ensures TrimRight(a + "\\" + blanks) == a + "\\"
  {
    hide TrimRight;
    var s := a + "\\";
    TrimBlanks(s, blanks);
    NothingTrimmed(s);
  }

  lemma NothingTrimmed(s: bytes)
    requires s != [] && !IsSpace(s[|s| - 1])
    ensures TrimRight(s) == s
  {
  }

  /** A line is read as it is, whether its beginning has waited or stands right before it. */
  lemma ReadOn(a: bytes, b: bytes, rest: bytes, l: Loading)
    requires '\n' !in a && '\n' !in b && |a| + |b| + 1 < ASCIILINESZ
    ensures Load(b + "\n" + rest, a, l) == Load(a + b + "\n" + rest, [], l)
  {
    hide Load, Next;
    LoadStep(a, b, rest, l);
    LoadStep([], a + b, rest, l);
    assert [] + (a + b) + "\n" == a + b + "\n";
  }

  /** A line that ends in a backslash is loaded together with the next one, as if both were one line. */
  lemma ContinuedLine(lines: seq<bytes>, a: bytes, blanks: bytes, b: bytes, rest: bytes)
    requires AllAlone(lines) && '\n' !in a && '\n' !in b && '\n' !in blanks
    requires (forall k :: 0 <= k < |blanks| ==> IsSpace(blanks[k])) && |a| + |blanks| + 2 < 1024 && |a| + |b| + 1 < 1024
    ensures LoadFile(Text(lines) + (a + "\\" + blanks + "\n" + (b + "\n" + rest))) == LoadFile(Text(lines) + (a + b + "\n" + rest))
  {
    hide Load, AfterLines;
    var l := AfterLines(Loading([], map[], false), lines);
    LoadLines(lines, a + "\\" + blanks + "\n" + (b + "\n" + rest), Loading([], map[], false));
    LoadLines(lines, a + b + "\n" + rest, Loading([], map[], false));
    Pends(a, blanks, b + "\n" + rest, l);
    ReadOn(a, b, rest, l);
  }

  // ----- Quotes, and comments behind a value

  /** A name that begins neither a comment nor a section. */
  ghost predicate Naming(k: bytes) {
    PlainName(k) && k[0] != '#' && k[0] != ';' && k[0] != '['
  }

  /** Behind such a name, only what follows the equals sign matters. */
  lemma ValueOfLine(k: bytes, text: bytes, w: nat, section: bytes)
    requires Naming(k)
    ensures ParseLine(Padded(k, w) + " = " + text, section) == Value(k, ValueText(TrimLeft(TrimRight(text)), 0))
  {
    hide ValueText, Trimmed, Padded, Strip, Lower, PlainName, SectionName, TrimRight;
    var u, line := TrimRight(text), Padded(k, w) + " = " + text;
    EntryTrimmed(k, text, w);
    LineTrimmed(line, section);
    assert EntryText(k, text, w) == line + "\n";
    EntryKeyEnd(k, u, w);
    PaddedStrips(k, w);
    ValueRead(k, u, w);
  }

  lemma StripReaches(x: bytes, i: nat)
    requires i < |x| && !IsSpace(x[0]) && !IsSpace(x[i])
    ensures |Strip(x)| > i
  {
    TrimRightRest(x);
  }

  /** What begins with two quotes of a kind is not taken for a quoted value. */
  lemma TwoQuotes(v: bytes, q: byte, tail: bytes)
    requires (q == '"' || q == '\'') && v != [] && v[0] == q
    ensures ValueText([q] + v + [q] + tail, 0) != v
  {
    hide Strip;
    var u := [q] + v + [q] + tail;
    var m := Until(u, 0, ";#");
    var x := u[0..m];
    assert u[0] == q && u[1] == q && u[|v| + 1] == q;
    UntilLacks(u, 0, ";#");
    assert Until(u, 1, [q]) == 1;
    StripGives(x);
    if Lacks(v, ";#") {
      forall k | 0 <= k <= |v| + 1 ensures u[k] !in ";#" {
        assert u[k] == if 0 < k <= |v| then v[k - 1] else q;
      }
      StripReaches(x, |v| + 1);
    } else {
      assert Lacks(x, ";#");
    }
  }

  /** A value in quotes comes back exactly if it does not hold the quote. */
  lemma QuotedValue(v: bytes, q: byte, tail: bytes)
    requires (q == '"' || q == '\'') && v != []
    ensures ValueText([q] + v + [q] + tail, 0) == v <==> q !in v
  {
    hide Strip;
    var u := [q] + v + [q] + tail;
    var j := Until(u, 1, [q]);
    assert u[0] == q && u[|v| + 1] == q && forall k :: 0 <= k < |v| ==> u[k + 1] == v[k];
    UntilLacks(u, 1, [q]);
    if q !in v {
      UntilAt(u, 1, [q], |v| + 1);
      assert u[1..j] == v;
    } else if v[0] == q {
      TwoQuotes(v, q, tail);
    } else {
      var i :| 0 <= i < |v| && v[i] == q;
      assert u[i + 1] == q && j <= i + 1;
    }
  }

  /**
   A line with a value in quotes, single or double, stands for just that value exactly if the value does not hold the
   quote.  Spaces and comment signs between the quotes are kept, and what follows the quotes is not.
   */
  lemma QuotedLine(k: bytes, v: bytes, q: byte, tail: bytes, w: nat, section: bytes)
    requires Naming(k) && (q == '"' || q == '\'') && v != []
    ensures ParseLine(Padded(k, w) + " = " + ([q] + v + [q] + tail), section) == Value(k, v) <==> q !in v
  {
    hide ParseLine, ValueText, TrimLeft, TrimRight;
    var text := [q] + v + [q] + tail;
    ValueOfLine(k, text, w, section);
    QuotedTrims(v, q, tail);
    var rest := TrimRight(text)[|v| + 2..];
    assert TrimRight(text) == [q] + v + [q] + rest;
    QuotedValue(v, q, rest);
  }

  lemma QuotedTrims(v: bytes, q: byte, tail: bytes)
    requires q == '"' || q == '\''
    ensures var text := [q] + v + [q] + tail;
            var u := TrimRight(text);
            |u| >= |v| + 2 && u == [q] + v + [q] + u[|v| + 2..] && TrimLeft(u) == u
  {
    var text := [q] + v + [q] + tail;
    var u := TrimRight(text);
    TrimRightRest(text);
    assert text[|v| + 1] == q && !IsSpace(q);
    assert text[..|v| + 2] == [q] + v + [q];
    assert u == text[..|v| + 2] + u[|v| + 2..];
    assert u[0] == q;
  }

  /** A comment behind a value that is not quoted is no part of it. */
  lemma CommentBehind(k: bytes, v: bytes, blanks: bytes, c: byte, note: bytes, w: nat, section: bytes)
    requires Naming(k) && Stripped(v) && Lacks(v, ";#") && (v != [] ==> v[0] != '"' && v[0] != '\'')
    requires (forall i :: 0 <= i < |blanks| ==> IsSpace(blanks[i])) && (c == ';' || c == '#')
    ensures ParseLine(Padded(k, w) + " = " + (v + blanks + [c] + note), section) == Value(k, v)
  {
    hide ParseLine, ValueText, PlainName, Stripped;
    var text := v + blanks + [c] + note;
    ValueOfLine(k, text, w, section);
    BehindTrims(v, blanks, c, note);
    var rest := TrimRight(text)[|v| + |blanks| + 1..];
    if v == [] {
      OnlyComment(blanks, c, rest);
    } else {
      CutAtComment(v, blanks, c, rest);
    }
  }

  lemma BehindTrims(v: bytes, blanks: bytes, c: byte, note: bytes)
    requires c == ';' || c == '#'
    ensures var text := v + blanks + [c] + note;
            var u, n := TrimRight(text), |v| + |blanks| + 1;
            |u| >= n && u == v + blanks + [c] + u[n..]
  {
    var text := v + blanks + [c] + note;
    var u, n := TrimRight(text), |v| + |blanks| + 1;
    TrimRightRest(text);
    assert text[n - 1] == c && !IsSpace(c);
    assert text[..n] == v + blanks + [c];
    assert u == text[..n] + u[n..];
  }

  lemma OnlyComment(blanks: bytes, c: byte, rest: bytes)
    requires (forall i :: 0 <= i < |blanks| ==> IsSpace(blanks[i])) && (c == ';' || c == '#')
    ensures ValueText(TrimLeft([] + blanks + [c] + rest), 0) == []
  {
    var u := [] + blanks + [c] + rest;
    assert u[|blanks|] == c;
    TrimLeftIs(u, |blanks|);
    assert u[|blanks|..][0] == c;
  }

  lemma CutAtComment(v: bytes, blanks: bytes, c: byte, rest: bytes)
    requires v != [] && Stripped(v) && Lacks(v, ";#") && v[0] != '"' && v[0] != '\''
    requires (forall i :: 0 <= i < |blanks| ==> IsSpace(blanks[i])) && (c == ';' || c == '#')
    ensures ValueText(TrimLeft(v + blanks + [c] + rest), 0) == v
  {
    hide Strip;
    var u := v + blanks + [c] + rest;
    var n := |v| + |blanks|;
    assert u[0] == v[0] && TrimLeft(u) == u;
    forall i | 0 <= i < n ensures u[i] !in ";#" {
      assert u[i] == if i < |v| then v[i] else blanks[i - |v|];
    }
    assert u[n] == c;
    UntilAt(u, 0, ";#", n);
    assert u[0..n] == v + blanks;
    assert v[|v| - 1] == (v + blanks)[|v| - 1];
    StripIs(v + blanks, 0, |v|);
    assert (v + blanks)[0..|v|] == v;
  }
}
