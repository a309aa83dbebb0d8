/** Loading what was dumped gives the dictionary back. */
module IniLaws {
  import opened Bytes
  import opened Options
  import opened IniSpec
  import opened Dictionaries

  // ----- Text that is read as it stands

  /** No blanks at the edges. */
  ghost predicate Stripped(s: bytes) {
    s == [] || (!IsSpace(s[0]) && !IsSpace(s[|s| - 1]))
  }

  /** There are no capital letters. */
  ghost predicate LowerCase(s: bytes) {
    forall k :: 0 <= k < |s| ==> !('A' <= s[k] <= 'Z')
  }

  /** Just such a string stays what it is when it is put in lower case. */
  lemma LowerStays(s: bytes)
    ensures Lower(s) == s <==> LowerCase(s)
  {
    var l := Lower(s);
    if l == s {
      assert forall k :: 0 <= k < |s| ==> ToLower(s[k]) == l[k] == s[k];
    }
  }

  ghost predicate Lacks(s: bytes, chars: bytes) {
    forall k :: 0 <= k < |s| ==> s[k] !in chars
  }

  /** The name of a section that can stand between brackets. */
  ghost predicate PlainSection(s: bytes) {
    s != [] && Stripped(s) && LowerCase(s) && Lacks(s, "]:\n") && |s| + 3 < ASCIILINESZ
  }

  /** A name of an entry that is read as it stands. */
  ghost predicate PlainName(k: bytes) {
    k != [] && Stripped(k) && LowerCase(k) && Lacks(k, "=")
  }

  /**
   A value that is read as it stands.  One that begins with a quote is not taken for a quoted one only if there is nothing
   more, or the quote is doubled and something follows.
   */
  ghost predicate PlainValue(v: bytes) {
    && Stripped(v) && Lacks(v, ";#")
    && (v != [] && v[0] in "\"'" ==> |v| == 1 || (v[1] == v[0] && |v| > 2))
  }

  /** The line does not look like a comment or a section, and does not go on in the next one. */
  ghost predicate PlainLine(k: bytes, v: bytes)
    requires k != []
  {
    && k[0] !in "#;" && !(k[0] == '[' && v != [] && v[|v| - 1] == ']')
    && (v != [] ==> v[|v| - 1] != '\\')
  }

  lemma StripStripped(s: bytes)
    requires Stripped(s)
    ensures Strip(s) == s && TrimRight(s) == s
  {
  }

  /** Blanks behind a text are trimmed. */
  lemma {:induction false} TrimBlanks(s: bytes, t: bytes)
    requires forall k :: 0 <= k < |t| ==> IsSpace(t[k])
    ensures TrimRight(s + t) == TrimRight(s)
    decreases |t|
  {
    if t == [] {
      assert s + t == s;
    } else {
      var u := t[..|t| - 1];
      assert (s + t)[..|s + t| - 1] == s + u;
      TrimBlanks(s, u);
    }
  }

  lemma {:induction false} UntilAt(s: bytes, i: nat, stop: bytes, j: nat)
    requires i <= j <= |s| && (forall k :: i <= k < j ==> s[k] !in stop) && (j < |s| ==> s[j] in stop)
    ensures Until(s, i, stop) == j
    decreases j - i
  {
    if i < j {
      UntilAt(s, i + 1, stop, j);
    }
  }

  // ----- Lines

  lemma SectionTrimmed(s: bytes)
    ensures TrimRight("[" + s + "]\n") == "[" + s + "]"
  {
    var line := "[" + s + "]";
    TrimBlanks(line, "\n");
    StripStripped(line);
    assert "[" + s + "]\n" == line + "\n";
  }

  /** Where the closing bracket is. */
  lemma BracketAt(s: bytes)
    ensures var line, j := "[" + s + "]", Until(s, 0, "]");
            && Until(line, 1, "]") == 1 + j && line[1..1 + j] == s[..j]
            && (j == 0 <==> s == [] || s[0] == ']')
  {
    var line, j := "[" + s + "]", Until(s, 0, "]");
    UntilLacks(s, 0, "]");
    forall k | 1 <= k < 1 + j ensures line[k] !in "]" {
      assert line[k] == s[k - 1];
    }
    UntilAt(line, 1, "]", 1 + j);
  }

  /** A section line has the name that it shows; without one, it keeps that of the section before, cut to fit. */
  lemma SectionNameOf(s: bytes, before: bytes)
    ensures SectionName("[" + s + "]", before) ==
            if s == [] || s[0] == ']' then Take(Lower(Strip(before)), |s| + 1) else Lower(Strip(s[..Until(s, 0, "]")]))
  {
    hide Strip, Lower, Until;
    BracketAt(s);
  }

  /**
   A section line stands for the section whose name it shows exactly if this name is stripped, lower-case and without a
   closing bracket; or, if it is empty or begins with one, if it is that of the section before.
   */
  lemma SectionLine(s: bytes, before: bytes)
    ensures ParseLine("[" + s + "]", before) == Section(s) <==>
            if s == [] || s[0] == ']' then Lower(Strip(before)) == s else Stripped(s) && LowerCase(s) && Lacks(s, "]")
  {
    hide Strip, Lower, SectionName, Stripped;
    BracketsKept(s, before);
    SectionNameOf(s, before);
    UntilLacks(s, 0, "]");
    if s != [] && s[0] != ']' {
      var x := s[..Until(s, 0, "]")];
      if Lacks(s, "]") {
        assert x == s;
      }
      NameKept(x, s);
    }
  }

  lemma BracketsKept(s: bytes, before: bytes)
    ensures ParseLine("[" + s + "]", before) == Section(SectionName("[" + s + "]", before))
  {
    hide Strip, SectionName;
    var line := "[" + s + "]";
    StripStripped(line);
    assert line[0] == '[' && line[|line| - 1] == ']';
  }

  /** Of a beginning of s, all of s is left exactly if it is all of s and a plain name. */
  lemma NameKept(x: bytes, s: bytes)
    requires x <= s
    ensures Lower(Strip(x)) == s <==> x == s && Stripped(s) && LowerCase(s)
  {
    LowerStays(s);
    LowerIsLower(Strip(x));
    if Lower(Strip(x)) == s {
      assert |Strip(x)| == |s|;
      TrimLeftRest(x);
      StripGives(x);
    } else if x == s && Stripped(s) {
      StripStripped(s);
    }
  }

  lemma LowerIsLower(s: bytes)
    ensures LowerCase(Lower(s))
  {
    var l := Lower(s);
    assert forall k :: 0 <= k < |s| ==> l[k] == ToLower(s[k]);
  }

  /** The name as it is read: that of an empty one is the first letter of the section before. */
  function NameRead(s: bytes, before: bytes): bytes {
    if s == [] then Take(Lower(Strip(before)), 1) else s
  }

  lemma SectionRead(s: bytes, before: bytes)
    requires PlainSection(s) || s == []
    ensures ParseLine("[" + s + "]", before) == Section(NameRead(s, before))
  {
    hide Strip, Lower, SectionName;
    if s == [] {
      BracketsKept(s, before);
      SectionNameOf(s, before);
    } else {
      SectionLine(s, before);
    }
  }

  /** The line of an entry without the blanks that are trimmed. */
  function Trimmed(k: bytes, v: bytes, w: nat): bytes {
    Padded(k, w) + " =" + if v == [] then [] else " " + v
  }

  /** Only blanks at the end of the value are trimmed, and the one before it if there is nothing else. */
  lemma EntryTrimmed(k: bytes, v: bytes, w: nat)
    ensures TrimRight(EntryText(k, v, w)) == Trimmed(k, TrimRight(v), w)
  {
    hide Padded;
    var u := TrimRight(v);
    var line := Trimmed(k, u, w);
    TrimRightRest(v);
    if u == [] {
      assert EntryText(k, v, w) == line + (" " + v + "\n");
      TrimBlanks(line, " " + v + "\n");
      assert line[|line| - 1] == '=';
    } else {
      assert EntryText(k, v, w) == line + (v[|u|..] + "\n");
      TrimBlanks(line, v[|u|..] + "\n");
      assert line[|line| - 1] == u[|u| - 1];
    }
    assert TrimRight(line) == line;
  }

  lemma {:induction false} TrimRightRest(s: bytes)
    ensures forall i :: |TrimRight(s)| <= i < |s| ==> IsSpace(s[i])
  {
    if s != [] && IsSpace(s[|s| - 1]) {
      TrimRightRest(s[..|s| - 1]);
    }
  }

  lemma {:induction false} TrimLeftRest(s: bytes)
    ensures var r := TrimLeft(s);
            && r == s[|s| - |r|..] && (forall i :: 0 <= i < |s| - |r| ==> IsSpace(s[i]))
            && (r != [] ==> !IsSpace(r[0]) && r[|r| - 1] == s[|s| - 1])
  {
    if s != [] && IsSpace(s[0]) {
      TrimLeftRest(s[1..]);
    }
  }

  /** What is left after stripping has no blanks at its edges. */
  lemma StripGives(s: bytes)
    ensures Stripped(Strip(s)) && (forall stop :: Lacks(s, stop) ==> Lacks(Strip(s), stop))
  {
    var r := TrimLeft(s);
    TrimLeftRest(s);
    var t := TrimRight(r);
    assert t == r[..|t|];
    assert t != [] ==> t[0] == r[0];
    forall stop | Lacks(s, stop) ensures Lacks(t, stop) {
      assert forall k :: 0 <= k < |t| ==> t[k] == s[|s| - |r| + k];
    }
  }

  lemma LowerGives(s: bytes)
    requires Stripped(s) && Lacks(s, "=")
    ensures Stripped(Lower(s)) && LowerCase(Lower(s)) && Lacks(Lower(s), "=")
  {
    var l := Lower(s);
    assert forall k :: 0 <= k < |s| ==> l[k] == ToLower(s[k]) && (l[k] == '=' <==> s[k] == '=');
  }

  lemma PaddedStrips(k: bytes, w: nat)
    requires PlainName(k)
    ensures Lower(Strip(Padded(k, w) + " ")) == k
  {
    var blanks := Padded(k, w)[|k|..] + " ";
    assert Padded(k, w) + " " == k + blanks;
    assert TrimLeft(k + blanks) == k + blanks by { assert (k + blanks)[0] == k[0]; }
    TrimBlanks(k, blanks);
    StripStripped(k);
    LowerStays(k);
  }

  lemma {:induction false} UntilLacks(s: bytes, i: nat, stop: bytes)
    requires i <= |s|
    ensures var j := Until(s, i, stop);
            (forall k :: i <= k < j ==> s[k] !in stop) && (j < |s| ==> s[j] in stop)
    decreases |s| - i
  {
    if i < |s| && s[i] !in stop {
      UntilLacks(s, i + 1, stop);
    }
  }

  /** A name that has been read from a line is plain. */
  lemma NamesReadArePlain(line: bytes, section: bytes, k: bytes, v: bytes)
    requires line != [] && StrippedLine(line, section) == Value(k, v)
    ensures Stripped(k) && LowerCase(k) && Lacks(k, "=")
  {
    hide Strip, Lower, ValueText, Stripped, LowerCase;
    var j := Until(line, 0, "=");
    UntilLacks(line, 0, "=");
    var x := line[..j];
    assert Lacks(x, "=");
    StripGives(x);
    LowerGives(Strip(x));
  }

  /** A line with an empty name begins with the equals sign. */
  lemma NoName(u: bytes, section: bytes, w: nat)
    requires u != [] ==> !IsSpace(u[|u| - 1])
    ensures ParseLine(Trimmed([], u, w), section) == Error
  {
    hide Strip;
    var line := Trimmed([], u, w);
    assert line[w + 1] == '=' && forall i :: 0 <= i < w + 1 ==> line[i] == ' ';
    assert line[|line| - 1] == if u == [] then '=' else u[|u| - 1];
    StripIs(line, w + 1, |line|);
    var t := line[w + 1..];
    assert t[0] == '=' && Until(t, 0, "=") == 0;
  }

  lemma EntryKeyEnd(k: bytes, u: bytes, w: nat)
    requires PlainName(k) && (u != [] ==> !IsSpace(u[|u| - 1]))
    ensures var line := Trimmed(k, u, w);
            && Strip(line) == line && line != [] && line[0] == k[0]
            && line[|line| - 1] == (if u == [] then '=' else u[|u| - 1])
            && Until(line, 0, "=") == |Padded(k, w)| + 1 < |line|
            && line[..|Padded(k, w)| + 1] == Padded(k, w) + " "
  {
    var line, n := Trimmed(k, u, w), |Padded(k, w)|;
    assert line[0] == Padded(k, w)[0] == k[0];
    assert line[|line| - 1] == if u == [] then '=' else u[|u| - 1];
    StripStripped(line);
    forall i | 0 <= i < n + 1 ensures line[i] !in "=" {
      assert line[i] == if i < |k| then k[i] else ' ';
    }
    assert line[n + 1] == '=';
    UntilAt(line, 0, "=", n + 1);
  }

  lemma {:induction false} UntilShift(s: bytes, q: nat, i: nat, stop: bytes)
    requires q <= i <= |s|
    ensures Until(s, i, stop) == q + Until(s[q..], i - q, stop)
    decreases |s| - i
  {
    if i < |s| && s[i] !in stop {
      UntilShift(s, q, i + 1, stop);
    }
  }

  /** Only what follows matters to a value. */
  lemma ValueShift(line: bytes, q: nat)
    requires q <= |line|
    ensures ValueText(line, q) == ValueText(line[q..], 0)
  {
    hide Strip;
    var w := line[q..];
    UntilShift(line, q, q, ";#");
    assert line[q..Until(line, q, ";#")] == w[0..Until(w, 0, ";#")];
    if q < |line| {
      UntilShift(line, q, q + 1, [line[q]]);
      assert line[q + 1..Until(line, q + 1, [line[q]])] == w[1..Until(w, 1, [w[0]])];
    }
  }

  lemma {:induction false} SkipSpacesIs(s: bytes, i: nat)
    requires i <= |s|
    ensures s[SkipSpaces(s, i)..] == TrimLeft(s[i..])
    decreases |s| - i
  {
    if i < |s| && IsSpace(s[i]) {
      assert s[i..][1..] == s[i + 1..];
      SkipSpacesIs(s, i + 1);
    }
  }

  /** What is read as the value of an entry. */
  lemma ValueRead(k: bytes, u: bytes, w: nat)
    ensures var line, n := Trimmed(k, u, w), |Padded(k, w)|;
            n + 2 <= |line| && ValueText(line, SkipSpaces(line, n + 2)) == ValueText(TrimLeft(u), 0)
  {
    hide Padded, ValueText;
    var line, n := Trimmed(k, u, w), |Padded(k, w)|;
    SkipSpacesIs(line, n + 2);
    ValueShift(line, SkipSpaces(line, n + 2));
    if u == [] {
      assert line[n + 2..] == [];
    } else {
      assert line[n + 2..] == " " + u && (" " + u)[1..] == u;
      assert IsSpace(' ');
    }
  }

  lemma ValueNotLonger(w: bytes)
    ensures |ValueText(w, 0)| <= |w|
    ensures w != [] && w[0] in "\"'" && Until(w, 1, [w[0]]) > 1 ==> |ValueText(w, 0)| < |w|
  {
  }

  lemma StripWhole(v: bytes)
    requires |TrimLeft(TrimRight(v))| == |v|
    ensures Stripped(v) && TrimRight(v) == v && TrimLeft(v) == v
  {
    TrimLeftRest(TrimRight(v));
  }

  /** A value is read as it stands exactly if it is plain. */
  lemma ValueExact(v: bytes)
    ensures ValueText(TrimLeft(TrimRight(v)), 0) == v <==> PlainValue(v)
  {
    var w := TrimLeft(TrimRight(v));
    ValueNotLonger(w);
    TrimLeftRest(TrimRight(v));
    if ValueText(w, 0) == v || PlainValue(v) {
      WholeValue(v);
    }
  }

  lemma WholeValue(v: bytes)
    requires ValueText(TrimLeft(TrimRight(v)), 0) == v || PlainValue(v)
    ensures Stripped(v) && TrimLeft(TrimRight(v)) == v && (ValueText(v, 0) == v <==> PlainValue(v))
  {
    var w := TrimLeft(TrimRight(v));
    ValueNotLonger(w);
    if PlainValue(v) {
      StripStripped(v);
    } else {
      StripWhole(v);
    }
    StrippedValue(v);
  }

  lemma StrippedValue(v: bytes)
    requires Stripped(v)
    ensures ValueText(v, 0) == v <==> PlainValue(v)
  {
    ValueNotLonger(v);
    UntilLacks(v, 0, ";#");
    var m := Until(v, 0, ";#");
    if v != [] && v[0] in "\"'" {
      UntilLacks(v, 1, [v[0]]);
    }
    if Lacks(v, ";#") {
      assert m == |v| && v[0..m] == v;
      StripStripped(v);
    } else {
      assert m < |v|;
    }
  }

  /** A line whose name is plain is read as its entry, unless it looks like something else. */
  lemma NamedEntryLine(k: bytes, v: bytes, section: bytes, w: nat)
    requires PlainName(k)
    ensures ParseLine(Trimmed(k, TrimRight(v), w), section) == Value(k, v) <==>
            && PlainValue(v) && k[0] !in "#;"
            && !(k[0] == '[' && TrimRight(v) != [] && TrimRight(v)[|TrimRight(v)| - 1] == ']')
  {
    hide ValueText, Trimmed, Padded, Strip, Lower, PlainName, PlainValue, SectionName;
    var u := TrimRight(v);
    EntryKeyEnd(k, u, w);
    PaddedStrips(k, w);
    ValueRead(k, u, w);
    ValueExact(v);
  }

  lemma NameIsPlain(line: bytes, section: bytes, k: bytes, v: bytes)
    requires ParseLine(line, section) == Value(k, v) && k != []
    ensures PlainName(k)
  {
    hide Strip, StrippedLine;
    NamesReadArePlain(Strip(line), section, k, v);
  }

  /**
   The line of an entry is read as that entry, and by itself, exactly if its name and value are plain and it looks like
   nothing else.
   */
  lemma EntryLine(k: bytes, v: bytes, section: bytes, w: nat)
    ensures var line := TrimRight(EntryText(k, v, w));
            line != [] &&
            ((ParseLine(line, section) == Value(k, v) && line[|line| - 1] != '\\') <==>
             PlainName(k) && PlainValue(v) && PlainLine(k, v))
  {
    hide ParseLine, PlainName, PlainValue, EntryText;
    EntryTrimmed(k, v, w);
    var u := TrimRight(v);
    var line := Trimmed(k, u, w);
    LineLast(k, u, w);
    NameNotEmpty(k);
    if k == [] {
      NoName(u, section, w);
    } else if PlainName(k) {
      NamedEntryLine(k, v, section, w);
      if PlainValue(v) {
        PlainIsStripped(v);
      }
    } else if ParseLine(line, section) == Value(k, v) {
      NameIsPlain(line, section, k, v);
    }
  }

  lemma LineLast(k: bytes, u: bytes, w: nat)
    ensures var line := Trimmed(k, u, w); line != [] && line[|line| - 1] == if u == [] then '=' else u[|u| - 1]
  {
    hide Padded;
  }

  lemma NameNotEmpty(k: bytes)
    ensures PlainName(k) ==> k != []
  {
  }

  lemma PlainIsStripped(v: bytes)
    requires PlainValue(v)
    ensures TrimRight(v) == v
  {
    StripStripped(v);
  }

  // ----- Lines one after the other

  lemma {:induction false} WholeLine(body: bytes, rest: bytes, room: nat)
    requires '\n' !in body && |body| < room
    ensures LineLength(body + "\n" + rest, room) == |body| + 1
    decreases |body|
  {
    var text := body + "\n" + rest;
    if body != [] {
      assert text[1..] == body[1..] + "\n" + rest;
      WholeLine(body[1..], rest, room - 1);
    }
  }

  /** A line that fits, and does not go on behind a backslash, is loaded and the others after it. */
  lemma LoadLine(body: bytes, rest: bytes, l: Loading)
    requires '\n' !in body && |body| + 1 < ASCIILINESZ
    requires var line := TrimRight(body + "\n"); line == [] || line[|line| - 1] != '\\'
    ensures Load(body + "\n" + rest, [], l) == Load(rest, [], AfterLine(l, ParseLine(TrimRight(body + "\n"), l.section)))
  {
    hide ParseLine, AfterLine;
    var text, n := body + "\n" + rest, |body| + 1;
    WholeLine(body, rest, ASCIILINESZ - 1);
    assert [] + text[..n] == body + "\n" && text[n..] == rest;
    if body == [] {
      assert TrimRight("\n") == [];
      EmptyLine(l);
    }
  }

  lemma EmptyLine(l: Loading)
    ensures AfterLine(l, ParseLine([], l.section)) == l
  {
  }

  // ----- Sections and entries

  /** An entry that is read again from a line of its own that fits, printed with the given width. */
  ghost predicate Readable(k: bytes, v: bytes, w: nat) {
    && PlainName(k) && PlainValue(v) && PlainLine(k, v)
    && '\n' !in k && '\n' !in v && |Padded(k, w)| + 4 + |v| < ASCIILINESZ
  }

  /** An entry of a section, as it is dumped. */
  ghost predicate PlainEntry(key: bytes, v: Option<bytes>, section: bytes)
    requires section + ":" <= key
  {
    v.Some? && Readable(key[|section| + 1..], v.value, NAME_WIDTH)
  }

  /** The line of an entry is loaded as this entry of the section. */
  lemma LoadEntry(k: bytes, v: bytes, w: nat, rest: bytes, l: Loading)
    requires Readable(k, v, w)
    ensures Load(EntryText(k, v, w) + rest, [], l) == Load(rest, [], l.(dict := l.dict[l.section + ":" + k := Some(v)]))
  {
    hide Load, ParseLine, PlainName, PlainValue, PlainLine, Padded;
    var body := Padded(k, w) + " = " + v;
    assert EntryText(k, v, w) == body + "\n";
    NoNewline(k, v, w);
    EntryLine(k, v, l.section, w);
    LoadLine(body, rest, l);
  }

  lemma NoNewline(k: bytes, v: bytes, w: nat)
    requires '\n' !in k && '\n' !in v
    ensures '\n' !in Padded(k, w) + " = " + v
  {
    assert forall i :: 0 <= i < |Padded(k, w)| ==> Padded(k, w)[i] == if i < |k| then k[i] else ' ';
  }

  /** The entries of a section among the first n slots, loaded under the name of the section being loaded. */
  ghost function AfterEntries(l: Loading, keys: seq<Option<bytes>>, vals: seq<Option<bytes>>, section: bytes, n: nat)
    : (r: Loading)
    requires n <= |keys| == |vals|
    ensures r.section == l.section && r.errs == l.errs
  {
    if n == 0 then l
    else
      var p := AfterEntries(l, keys, vals, section, n - 1);
      if IsIn(keys[n - 1], section) then
        p.(dict := p.dict[l.section + ":" + keys[n - 1].value[|section| + 1..] := vals[n - 1]])
      else p
  }

  ghost predicate PlainEntries(keys: seq<Option<bytes>>, vals: seq<Option<bytes>>, section: bytes)
    requires |keys| == |vals|
  {
    forall i :: 0 <= i < |keys| && IsIn(keys[i], section) ==> PlainEntry(keys[i].value, vals[i], section)
  }

  lemma EntriesStep(keys: seq<Option<bytes>>, vals: seq<Option<bytes>>, section: bytes, n: nat, rest: bytes)
    requires 0 < n <= |keys| == |vals|
    ensures EntriesText(keys, vals, section, n) + rest ==
            EntriesText(keys, vals, section, n - 1) +
            if IsIn(keys[n - 1], section) then EntryText(keys[n - 1].value[|section| + 1..], Shown(vals[n - 1], []), NAME_WIDTH) + rest else rest
  {
    hide EntryText;
    var before := EntriesText(keys, vals, section, n - 1);
    if IsIn(keys[n - 1], section) {
      var entry := EntryText(keys[n - 1].value[|section| + 1..], Shown(vals[n - 1], []), NAME_WIDTH);
      assert before + entry + rest == before + (entry + rest);
    } else {
      assert before + [] == before;
    }
  }

  lemma {:induction false} LoadEntries(keys: seq<Option<bytes>>, vals: seq<Option<bytes>>, section: bytes, n: nat,
                                       rest: bytes, l: Loading)
    requires n <= |keys| == |vals| && PlainEntries(keys, vals, section)
    ensures Load(EntriesText(keys, vals, section, n) + rest, [], l) ==
            Load(rest, [], AfterEntries(l, keys, vals, section, n))
    decreases n
  {
    hide Load, EntryText, Readable;
    if n == 0 {
      assert [] + rest == rest;
    } else {
      hide EntriesText;
      EntriesStep(keys, vals, section, n, rest);
      if IsIn(keys[n - 1], section) {
        var k := keys[n - 1].value[|section| + 1..];
        var entry := EntryText(k, Shown(vals[n - 1], []), NAME_WIDTH);
        LoadEntries(keys, vals, section, n - 1, entry + rest, l);
        LoadEntry(k, vals[n - 1].value, NAME_WIDTH, rest, AfterEntries(l, keys, vals, section, n - 1));
      } else {
        LoadEntries(keys, vals, section, n - 1, rest, l);
      }
    }
  }

  /** A section line and the entries behind it. */
  ghost function AfterHead(l: Loading, section: bytes): Loading {
    var name := NameRead(section, l.section);
    l.(section := name, dict := l.dict[name := None])
  }

  ghost function AfterSection(l: Loading, keys: seq<Option<bytes>>, vals: seq<Option<bytes>>, section: bytes): (r: Loading)
    requires |keys| == |vals|
    ensures r.errs == l.errs && r.section == NameRead(section, l.section)
  {
    AfterEntries(AfterHead(l, section), keys, vals, section, |keys|)
  }

  lemma LoadHead(section: bytes, rest: bytes, l: Loading)
    requires PlainSection(section) || section == []
    ensures Load("\n[" + section + "]\n" + rest, [], l) == Load(rest, [], AfterHead(l, section))
  {
    hide Load, ParseLine, NameRead;
    var head := "[" + section + "]";
    assert "\n[" + section + "]\n" + rest == "\n" + (head + "\n" + rest);
    LoadBlank(head + "\n" + rest, l);
    SectionTrimmed(section);
    SectionRead(section, l.section);
    assert head + "\n" == "[" + section + "]\n";
    LoadLine(head, rest, l);
  }

  lemma LoadSection(keys: seq<Option<bytes>>, vals: seq<Option<bytes>>, section: bytes, rest: bytes, l: Loading)
    requires |keys| == |vals| && PlainEntries(keys, vals, section) && (PlainSection(section) || section == [])
    requires Found(keys, section)
    ensures Load(SectionText(keys, vals, section) + rest, [], l) == Load(rest, [], AfterSection(l, keys, vals, section))
  {
    hide Load, EntriesText, PlainEntries, AfterEntries, Found, PlainSection, AfterHead;
    var entries, head := EntriesText(keys, vals, section, |keys|), "\n[" + section + "]\n";
    var l' := AfterHead(l, section);
    assert SectionText(keys, vals, section) + rest == head + (entries + ("\n" + rest));
    LoadHead(section, entries + ("\n" + rest), l);
    LoadEntries(keys, vals, section, |keys|, "\n" + rest, l');
    LoadBlank(rest, AfterEntries(l', keys, vals, section, |keys|));
  }

  lemma LoadBlank(rest: bytes, l: Loading)
    ensures Load("\n" + rest, [], l) == Load(rest, [], l)
  {
    hide Load, ParseLine, AfterLine;
    assert [] + "\n" == "\n";
    assert TrimRight("\n") == [];
    LoadLine([], rest, l);
    EmptyLine(l);
  }

  // ----- The whole dictionary

  ghost function AfterSections(l: Loading, keys: seq<Option<bytes>>, vals: seq<Option<bytes>>, sections: seq<bytes>)
    : (r: Loading)
    requires |keys| == |vals|
    ensures r.errs == l.errs
  {
    if sections == [] then l
    else
      var n := |sections| - 1;
      AfterSection(AfterSections(l, keys, vals, sections[..n]), keys, vals, sections[n])
  }

  lemma {:induction false} LoadSections(keys: seq<Option<bytes>>, vals: seq<Option<bytes>>, sections: seq<bytes>,
                                        rest: bytes, l: Loading)
    requires |keys| == |vals|
    requires forall s :: s in sections ==> PlainEntries(keys, vals, s) && (PlainSection(s) || s == []) && Found(keys, s)
    ensures Load(SectionsText(keys, vals, sections) + rest, [], l) == Load(rest, [], AfterSections(l, keys, vals, sections))
    decreases |sections|
  {
    hide Load, SectionText, PlainEntries, PlainSection, Found;
    if sections == [] {
      assert [] + rest == rest;
    } else {
      var n := |sections| - 1;
      var text := SectionText(keys, vals, sections[n]);
      assert SectionsText(keys, vals, sections) + rest == SectionsText(keys, vals, sections[..n]) + (text + rest);
      LoadSections(keys, vals, sections[..n], text + rest, l);
      assert sections[n] in sections;
      LoadSection(keys, vals, sections[n], rest, AfterSections(l, keys, vals, sections[..n]));
    }
  }

  lemma {:induction false} SectionsAre(keys: seq<Option<bytes>>, s: bytes)
    ensures s in Sections(keys) <==> Some(s) in keys && ':' !in s
  {
    if keys != [] {
      var n := |keys| - 1;
      SectionsAre(keys[..n], s);
      assert keys == keys[..n] + [keys[n]];
    }
  }

  /** The name of an entry up to its first colon; a section's own name. */
  function SectionOf(x: bytes): (s: bytes)
    ensures ':' !in s && (s != x ==> s + ":" <= x)
  {
    UntilLacks(x, 0, ":");
    var s := x[..Until(x, 0, ":")];
    assert s != x ==> x[..|s| + 1] == s + ":";
    s
  }

  lemma SectionOfIs(x: bytes, s: bytes)
    requires ':' !in s && (x == s || s + ":" <= x)
    ensures SectionOf(x) == s
  {
    assert x != s ==> x[|s|] == (s + ":")[|s|];
    assert forall k :: 0 <= k < |s| ==> x[k] == s[k] && s[k] in s;
    UntilAt(x, 0, ":", |s|);
  }

  /**
   A dictionary that an ini file can hold: sections have no values, and every other entry belongs to a section that is
   there and fits a plain line.  The name of a section may be empty.
   */
  ghost predicate Dumpable(m: Map) {
    forall x {:trigger SectionOf(x)} :: x in m ==>
      var s := SectionOf(x);
      s in m && if s == x then (PlainSection(x) || x == []) && m[x] == None else PlainEntry(x, m[x], s)
  }

  /** All entries are where the other map has them. */
  ghost predicate Below(a: Map, b: Map) {
    forall x :: x in a ==> x in b && a[x] == b[x]
  }

  lemma {:induction false} EntriesBelow(
      l: Loading, keys: seq<Option<bytes>>, vals: seq<Option<bytes>>, section: bytes, n: nat, m: Map)
    requires n <= |keys| == |vals| && Below(l.dict, m) && l.section == section
    requires forall i :: 0 <= i < |keys| && keys[i].Some? ==> keys[i].value in m && m[keys[i].value] == vals[i]
    ensures var r := AfterEntries(l, keys, vals, section, n);
            && Below(r.dict, m) && (forall x :: x in l.dict ==> x in r.dict)
            && (forall i :: 0 <= i < n && IsIn(keys[i], section) ==> keys[i].value in r.dict)
    decreases n
  {
    if n > 0 {
      EntriesBelow(l, keys, vals, section, n - 1, m);
      if IsIn(keys[n - 1], section) {
        assert section + ":" + keys[n - 1].value[|section| + 1..] == keys[n - 1].value;
      }
    }
  }

  /** No section but the first one has the empty name. */
  ghost predicate EmptyFirst(sections: seq<bytes>) {
    forall i :: 0 < i < |sections| ==> sections[i] != []
  }

  lemma {:induction false} SectionsBelow(l: Loading, keys: seq<Option<bytes>>, vals: seq<Option<bytes>>,
                                         sections: seq<bytes>, m: Map)
    requires |keys| == |vals| && Below(l.dict, m) && l.section == [] && EmptyFirst(sections)
    requires forall i :: 0 <= i < |keys| && keys[i].Some? ==> keys[i].value in m && m[keys[i].value] == vals[i]
    requires forall s :: s in sections ==> s in m && m[s] == None
    ensures var r := AfterSections(l, keys, vals, sections);
            && Below(r.dict, m) && (forall x :: x in l.dict ==> x in r.dict)
            && (forall s :: s in sections ==> s in r.dict)
            && (forall s, i :: s in sections && 0 <= i < |keys| && IsIn(keys[i], s) ==> keys[i].value in r.dict)
    decreases |sections|
  {
    hide IsIn, AfterEntries, Strip, Lower;
    if sections != [] {
      var n := |sections| - 1;
      var s := sections[n];
      SectionsBelow(l, keys, vals, sections[..n], m);
      assert s in sections;
      var p := AfterSections(l, keys, vals, sections[..n]);
      NothingRead();
      assert NameRead(s, p.section) == s;
      EntriesBelow(AfterHead(p, s), keys, vals, s, |keys|, m);
      assert forall t :: t in sections <==> t in sections[..n] || t == s by { assert sections == sections[..n] + [s]; }
    }
  }

  lemma NothingRead()
    ensures NameRead([], []) == []
  {
  }

  lemma AllSections(keys: seq<Option<bytes>>, vals: seq<Option<bytes>>, hashes: seq<bv32>, m: Map)
    requires Holds(keys, vals, hashes, m) && Dumpable(m)
    ensures forall x {:trigger SectionOf(x)} :: x in m ==> SectionOf(x) in Sections(keys)
  {
    hide HashOf, PlainEntry, PlainSection, Sections, SectionOf, Unique;
    forall x | x in m ensures SectionOf(x) in Sections(keys) {
      var s := SectionOf(x);
      var i :| 0 <= i < |keys| && keys[i] == Some(s);
      SectionsAre(keys, s);
    }
  }

  /** After all sections, everything in the dictionary has been loaded. */
  lemma AllLoaded(keys: seq<Option<bytes>>, vals: seq<Option<bytes>>, hashes: seq<bv32>, m: Map)
    requires Holds(keys, vals, hashes, m) && Dumpable(m) && EmptyFirst(Sections(keys))
    ensures AfterSections(Loading([], map[], false), keys, vals, Sections(keys)).dict == m
  {
    hide HashOf, PlainEntry, Sections, AfterSections, PlainSection, Unique, SectionOf;
    var sections, l := Sections(keys), Loading([], map[], false);
    AllSections(keys, vals, hashes, m);
    forall s | s in sections ensures s in m && m[s] == None {
      SectionIsPlain(keys, vals, hashes, m, s);
    }
    SectionsBelow(l, keys, vals, sections, m);
    var r := AfterSections(l, keys, vals, sections);
    forall x | x in m ensures x in r.dict {
      var s := SectionOf(x);
      if s != x {
        var i :| 0 <= i < |keys| && keys[i] == Some(x);
        assert IsIn(keys[i], s);
      }
    }
  }

  // ----- A section without a name that is not the first

  /** The section being loaded has a name, and no section without one has been loaded. */
  ghost predicate NamedSoFar(l: Loading) {
    l.section != [] && Stripped(l.section) && [] !in l.dict
  }

  lemma {:induction false} EntriesNamed(
      l: Loading, keys: seq<Option<bytes>>, vals: seq<Option<bytes>>, section: bytes, n: nat)
    requires n <= |keys| == |vals| && NamedSoFar(l)
    ensures NamedSoFar(AfterEntries(l, keys, vals, section, n))
    decreases n
  {
    if n > 0 { EntriesNamed(l, keys, vals, section, n - 1); }
  }

  lemma HeadNamed(l: Loading, s: bytes)
    requires (PlainSection(s) && [] !in l.dict) || (s == [] && NamedSoFar(l))
    ensures NamedSoFar(AfterHead(l, s))
  {
    if s == [] {
      StripStripped(l.section);
      var c := Lower(l.section)[0];
      assert c == ToLower(l.section[0]) && NameRead(s, l.section) == [c];
    }
  }

  lemma {:induction false} SectionsNamed(keys: seq<Option<bytes>>, vals: seq<Option<bytes>>, sections: seq<bytes>)
    requires |keys| == |vals| && (forall s :: s in sections ==> PlainSection(s) || s == [])
    requires sections != [] && sections[0] != []
    ensures NamedSoFar(AfterSections(Loading([], map[], false), keys, vals, sections))
    decreases |sections|
  {
    hide PlainSection, NamedSoFar, AfterHead, AfterEntries;
    var n := |sections| - 1;
    var s, l := sections[n], Loading([], map[], false);
    assert s in sections;
    var p := AfterSections(l, keys, vals, sections[..n]);
    if n > 0 {
      assert sections[..n][0] == sections[0];
      SectionsNamed(keys, vals, sections[..n]);
      NamedLacksEmpty(p);
    }
    HeadNamed(p, s);
    EntriesNamed(AfterHead(p, s), keys, vals, s, |keys|);
  }

  lemma NamedLacksEmpty(l: Loading)
    requires NamedSoFar(l)
    ensures [] !in l.dict
  {
  }

  /**
   Loading what was dumped gives the same dictionary, exactly if its section without a name, if there is one, is dumped
   first; another section before it lends it the first letter of its name.
   */
  lemma RoundTrip(keys: seq<Option<bytes>>, vals: seq<Option<bytes>>, hashes: seq<bv32>, m: Map)
    requires Holds(keys, vals, hashes, m) && Dumpable(m)
    ensures LoadFile(DumpText(keys, vals)) == Some(m) <==> ([] in m ==> Sections(keys) != [] && Sections(keys)[0] == [])
  {
    hide Holds, Dumpable, Load, SectionsText, AfterSections, PlainSection, Sections, NamedSoFar, DumpText;
    var sections, l := Sections(keys), Loading([], map[], false);
    EmptySection(keys, vals, hashes, m);
    if sections == [] {
      NothingDumped(keys, vals, hashes, m);
      assert LoadFile(DumpText(keys, vals)) == Some(m) by { EndOfFile(l); NothingText(keys, vals); }
    } else {
      var r := AfterSections(l, keys, vals, sections);
      SectionsLoaded(keys, vals, hashes, m);
      if EmptyFirst(sections) {
        AllLoaded(keys, vals, hashes, m);
      } else {
        SectionsNamed(keys, vals, sections);
        NamedLacksEmpty(r);
      }
    }
  }

  lemma NothingText(keys: seq<Option<bytes>>, vals: seq<Option<bytes>>)
    requires |keys| == |vals| && Sections(keys) == [] && PlainText(keys, vals) == []
    ensures DumpText(keys, vals) == []
  {
  }

  lemma SectionsLoaded(keys: seq<Option<bytes>>, vals: seq<Option<bytes>>, hashes: seq<bv32>, m: Map)
    requires Holds(keys, vals, hashes, m) && Dumpable(m) && Sections(keys) != []
    ensures |keys| == |vals|
    ensures LoadFile(DumpText(keys, vals)) == Some(AfterSections(Loading([], map[], false), keys, vals, Sections(keys)).dict)
  {
    hide Holds, Dumpable, Load, SectionsText, AfterSections, PlainEntries, PlainSection, Found, Sections;
    SameLength(keys, vals, hashes, m);
    var sections, l := Sections(keys), Loading([], map[], false);
    forall s | s in sections ensures PlainEntries(keys, vals, s) && (PlainSection(s) || s == []) && Found(keys, s) {
      SectionIsPlain(keys, vals, hashes, m, s);
    }
    LoadSections(keys, vals, sections, "\n", l);
    var r := AfterSections(l, keys, vals, sections);
    assert "\n" + [] == "\n";
    LoadBlank([], r);
    EndOfFile(r);
  }

  /** Where the section without a name is dumped, if there is one. */
  lemma EmptySection(keys: seq<Option<bytes>>, vals: seq<Option<bytes>>, hashes: seq<bv32>, m: Map)
    requires Holds(keys, vals, hashes, m) && Dumpable(m)
    ensures |keys| == |vals| && (forall s :: s in Sections(keys) ==> PlainSection(s) || s == [])
    ensures EmptyFirst(Sections(keys)) <==> ([] in m ==> Sections(keys) != [] && Sections(keys)[0] == [])
    ensures !EmptyFirst(Sections(keys)) ==> [] in m && Sections(keys)[0] != []
  {
    hide HashOf, PlainEntry, PlainSection, SectionOf;
    SectionsAre(keys, []);
    SectionsDiffer(keys);
    forall s | s in Sections(keys) ensures PlainSection(s) || s == [] {
      SectionIsPlain(keys, vals, hashes, m, s);
    }
  }

  lemma {:induction false} SectionsDiffer(keys: seq<Option<bytes>>)
    requires Unique(keys)
    ensures forall i, j :: 0 <= i < j < |Sections(keys)| ==> Sections(keys)[i] != Sections(keys)[j]
  {
    if keys != [] {
      var n := |keys| - 1;
      SectionsDiffer(keys[..n]);
      if IsSection(keys[n]) {
        SectionsAre(keys[..n], keys[n].value);
      }
    }
  }

  lemma SameLength(keys: seq<Option<bytes>>, vals: seq<Option<bytes>>, hashes: seq<bv32>, m: Map)
    requires Holds(keys, vals, hashes, m)
    ensures |keys| == |vals|
  {
  }

  lemma EndOfFile(l: Loading)
    requires !l.errs
    ensures Load([], [], l) == Some(l.dict)
  {
  }

  lemma SectionIsPlain(keys: seq<Option<bytes>>, vals: seq<Option<bytes>>, hashes: seq<bv32>, m: Map, s: bytes)
    requires Holds(keys, vals, hashes, m) && Dumpable(m) && s in Sections(keys)
    ensures s in m && m[s] == None && PlainEntries(keys, vals, s) && (PlainSection(s) || s == []) && Found(keys, s)
  {
    hide HashOf, PlainEntry, SectionOf, Unique;
    SectionsAre(keys, s);
    var i :| 0 <= i < |keys| && keys[i] == Some(s);
    assert s in m;
    SectionOfIs(s, s);
    LowerStays(s);
    forall j | 0 <= j < |keys| && IsIn(keys[j], s) ensures PlainEntry(keys[j].value, vals[j], s) {
      SectionOfIs(keys[j].value, s);
    }
  }

  /** A dictionary without sections that can be dumped is empty. */
  lemma NothingDumped(keys: seq<Option<bytes>>, vals: seq<Option<bytes>>, hashes: seq<bv32>, m: Map)
    requires Holds(keys, vals, hashes, m) && Dumpable(m) && Sections(keys) == []
    ensures m == map[] && PlainText(keys, vals) == []
  {
    hide HashOf, PlainEntry, PlainSection, SectionOf, Unique, Sections;
    AllSections(keys, vals, hashes, m);
    if m != map[] {
      var x :| x in m;
      var s := SectionOf(x);
      assert false;
    }
    NoText(keys, vals);
  }

  lemma {:induction false} NoText(keys: seq<Option<bytes>>, vals: seq<Option<bytes>>)
    requires |keys| == |vals| && forall i :: 0 <= i < |keys| ==> keys[i].None?
    ensures PlainText(keys, vals) == []
  {
    if keys != [] {
      NoText(keys[..|keys| - 1], vals[..|keys| - 1]);
    }
  }

  // ----- A dictionary without sections

  /** A dictionary without sections whose entries can all be read again as they are printed. */
  ghost predicate PlainWithout(m: Map) {
    forall x :: x in m ==> ':' in x && Readable(x, Shown(m[x], "(null)"), 0)
  }

  /** What has been loaded of the first n slots: each entry, with a colon in front of its name. */
  ghost predicate LoadedAs(dict: Map, keys: seq<Option<bytes>>, vals: seq<Option<bytes>>, n: nat)
    requires n <= |keys| == |vals|
  {
    && (forall i :: 0 <= i < n && keys[i].Some? ==> ":" + keys[i].value in dict)
    && (forall x :: x in dict ==>
          exists i :: 0 <= i < n && keys[i].Some? && x == ":" + keys[i].value && dict[x] == Some(Shown(vals[i], "(null)")))
  }

  lemma {:induction false} LoadPlain(keys: seq<Option<bytes>>, vals: seq<Option<bytes>>, n: nat, rest: bytes)
    returns (dict: Map)
    requires n <= |keys| == |vals|
    requires forall i :: 0 <= i < n && keys[i].Some? ==> Readable(keys[i].value, Shown(vals[i], "(null)"), 0)
    ensures LoadedAs(dict, keys, vals, n)
    ensures Load(PlainText(keys[..n], vals[..n]) + rest, [], Loading([], map[], false)) == Load(rest, [], Loading([], dict, false))
    decreases n
  {
    hide Load, EntryText, Readable, Shown, PlainText;
    PlainStep(keys, vals, n, rest);
    if n == 0 {
      dict := map[];
    } else if keys[n - 1].Some? {
      var k, v := keys[n - 1].value, Shown(vals[n - 1], "(null)");
      var before := LoadPlain(keys, vals, n - 1, EntryText(k, v, 0) + rest);
      LoadEntry(k, v, 0, rest, Loading([], before, false));
      assert [] + ":" + k == ":" + k;
      dict := before[":" + k := Some(v)];
      LoadedStep(before, keys, vals, n);
    } else {
      dict := LoadPlain(keys, vals, n - 1, rest);
    }
  }

  lemma LoadedStep(dict: Map, keys: seq<Option<bytes>>, vals: seq<Option<bytes>>, n: nat)
    requires 0 < n <= |keys| == |vals| && LoadedAs(dict, keys, vals, n - 1) && keys[n - 1].Some?
    ensures LoadedAs(dict[":" + keys[n - 1].value := Some(Shown(vals[n - 1], "(null)"))], keys, vals, n)
  {
  }

  lemma PlainStep(keys: seq<Option<bytes>>, vals: seq<Option<bytes>>, n: nat, rest: bytes)
    requires n <= |keys| == |vals|
    ensures PlainText(keys[..n], vals[..n]) + rest ==
            if n == 0 then rest
            else PlainText(keys[..n - 1], vals[..n - 1]) +
                 if keys[n - 1].Some? then EntryText(keys[n - 1].value, Shown(vals[n - 1], "(null)"), 0) + rest else rest
  {
    hide EntryText, Shown;
    if n > 0 {
      assert keys[..n][..n - 1] == keys[..n - 1] && vals[..n][..n - 1] == vals[..n - 1];
      var before := PlainText(keys[..n - 1], vals[..n - 1]);
      assert before + [] == before;
      if keys[n - 1].Some? {
        var entry := EntryText(keys[n - 1].value, Shown(vals[n - 1], "(null)"), 0);
        assert before + entry + rest == before + (entry + rest);
      }
    }
  }

  /** The entries of m with a colon in front of their names, and "(null)" for NULL. */
  ghost predicate UnderNoSection(dict: Map, m: Map) {
    && (forall x :: x in m ==> ":" + x in dict && dict[":" + x] == Some(Shown(m[x], "(null)")))
    && (forall y :: y in dict ==> exists x :: x in m && y == ":" + x)
  }

  lemma AllUnderNoSection(keys: seq<Option<bytes>>, vals: seq<Option<bytes>>, hashes: seq<bv32>, m: Map, dict: Map)
    requires Holds(keys, vals, hashes, m) && LoadedAs(dict, keys, vals, |keys|)
    ensures UnderNoSection(dict, m)
  {
    hide Shown, HashOf, Unique;
    forall x | x in m ensures ":" + x in dict && dict[":" + x] == Some(Shown(m[x], "(null)")) {
      var i :| 0 <= i < |keys| && keys[i] == Some(x);
      var y := ":" + keys[i].value;
      var j :| 0 <= j < |keys| && keys[j].Some? && y == ":" + keys[j].value && dict[y] == Some(Shown(vals[j], "(null)"));
      assert y[1..] == x == (":" + keys[j].value)[1..] == keys[j].value;
    }
    forall y | y in dict ensures exists x :: x in m && y == ":" + x {
      var j :| 0 <= j < |keys| && keys[j].Some? && y == ":" + keys[j].value && dict[y] == Some(Shown(vals[j], "(null)"));
      assert keys[j].value in m && y == ":" + keys[j].value;
    }
  }

  lemma NotTheSame(dict: Map, m: Map)
    requires UnderNoSection(dict, m)
    ensures dict == m <==> m == map[]
  {
    if m != map[] {
      var x := Longest(m.Keys);
      assert ":" + x in dict && |":" + x| > |x|;
    } else {
      assert forall y :: y !in dict;
    }
  }

  /**
   Without any section, the entries are loaded under an empty section name: with a colon in front, and "(null)" for NULL.  So
   the dictionary comes back only if it is empty.
   */
  lemma WithoutSections(keys: seq<Option<bytes>>, vals: seq<Option<bytes>>, hashes: seq<bv32>, m: Map)
    requires Holds(keys, vals, hashes, m) && PlainWithout(m)
    ensures var r := LoadFile(DumpText(keys, vals));
            r.Some? && UnderNoSection(r.value, m) && (r == Some(m) <==> m == map[])
  {
    hide Load, Readable, Shown, PlainText, HashOf, Unique, UnderNoSection, LoadedAs;
    NoSections(keys, vals, hashes, m);
    var dict := LoadPlain(keys, vals, |keys|, []);
    assert keys[..|keys|] == keys && vals[..|vals|] == vals && PlainText(keys, vals) + [] == PlainText(keys, vals);
    EndOfFile(Loading([], dict, false));
    AllUnderNoSection(keys, vals, hashes, m, dict);
    NotTheSame(dict, m);
  }

  lemma NoSections(keys: seq<Option<bytes>>, vals: seq<Option<bytes>>, hashes: seq<bv32>, m: Map)
    requires Holds(keys, vals, hashes, m) && PlainWithout(m)
    ensures |keys| == |vals| && Sections(keys) == []
  {
    hide Readable, HashOf, Unique;
    if Sections(keys) != [] {
      var s := Sections(keys)[0];
      SectionsAre(keys, s);
      assert false;
    }
  }

  lemma {:induction false} Longest(xs: set<bytes>) returns (x: bytes)
    requires xs != {}
    ensures x in xs && forall y :: y in xs ==> |y| <= |x|
    decreases |xs|
  {
    x :| x in xs;
    if xs - {x} != {} {
      var z := Longest(xs - {x});
      if |z| > |x| { x := z; }
    }
  }
}
