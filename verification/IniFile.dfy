/** Reading and writing ini files, over fixed buffers and the dictionary. */
module IniFiles {
  import opened Bytes
  import opened Options
  import opened Dictionaries
  import opened IniSpec

  // ----- Strings in place

  /** The buffer holds a C string. */
  ghost predicate HoldsText(a: array<byte>, s: bytes)
    reads a
  {
    |s| < a.Length && a[..|s|] == s && a[|s|] == '\0'
  }

  /** strstrip: what is left is moved to the front of the buffer. */
  method StrStrip(a: array<byte>, n: nat) returns (m: nat)
    requires n < a.Length && a[n] == '\0'
    modifies a
    ensures m <= n && HoldsText(a, Strip(old(a[..n]))) && m == |Strip(old(a[..n]))|
  {
    hide Strip, IsSpace;
    ghost var s := a[..n];
    var i := 0;
    while i < n && IsSpace(a[i])
      invariant i <= n && forall k :: 0 <= k < i ==> IsSpace(s[k])
    {
      i := i + 1;
    }
    var last := n;
    while last > i && IsSpace(a[last - 1])
      invariant i <= last <= n && forall k :: last <= k < n ==> IsSpace(s[k])
    {
      last := last - 1;
    }
    StripIs(s, i, last);
    assert |a[i..last]| == |s[i..last]| && forall k :: 0 <= k < last - i ==> a[i..last][k] == a[i + k] == s[i + k];
    assert a[i..last] == s[i..last];
    m := MoveToFront(a, i, last);
  }

  /** What is between two places becomes the whole string. */
  method MoveToFront(a: array<byte>, i: nat, last: nat) returns (m: nat)
    requires i <= last < a.Length
    modifies a
    ensures m == last - i && HoldsText(a, old(a[i..last]))
  {
    a[last] := '\0';
    ghost var t, e := a[i..last + 1], a[..0];
    m := last - i;
    MoveDown(a, 0, i, m + 1);
    assert a[..m + 1] == e + t == t;
    FrontIs(a[..], t, m);
  }

  lemma FrontIs(s: bytes, t: bytes, m: nat)
    requires m < |s| && |t| == m + 1 && s[..m + 1] == t
    ensures s[..m] == t[..m] && s[m] == t[m]
  {
    assert s[..m] == s[..m + 1][..m];
  }

  /** strlwc into the same buffer: at most len - 1 characters are kept. */
  method StrLwc(a: array<byte>, n: nat, len: nat)
    requires n < a.Length && a[n] == '\0' && '\0' !in a[..n] && len > 0
    modifies a
    ensures HoldsText(a, Take(Lower(old(a[..n])), len - 1))
  {
    var i := 0;
    while a[i] != '\0' && i < len - 1
      invariant i <= n && i <= len - 1
      invariant forall k :: 0 <= k < i ==> a[k] == ToLower(old(a[k]))
      invariant forall k :: i <= k < a.Length ==> a[k] == old(a[k])
      decreases n - i
    {
      assert i < n;
      a[i] := ToLower(a[i]);
      i := i + 1;
    }
    a[i] := '\0';
    assert a[..i] == Take(Lower(old(a[..n])), len - 1);
  }

  /** sscanf storing characters, with a NUL behind. */
  method Store(a: array<byte>, s: bytes)
    requires |s| < a.Length
    modifies a
    ensures HoldsText(a, s)
  {
    forall i | 0 <= i < |s| {
      a[i] := s[i];
    }
    a[|s|] := '\0';
  }

  /** The C string in a buffer. */
  method TextOf(a: array<byte>, ghost held: bytes) returns (s: bytes)
    requires HoldsText(a, held) && NoNul(held)
    ensures s == held
  {
    var n := 0;
    while a[n] != '\0'
      invariant n <= |held|
      decreases |held| - n
    {
      assert n < |held|;
      n := n + 1;
    }
    NulIsEnd(held, n, a[..|held| + 1]);
    s := a[..n];
  }

  lemma NulIsEnd(held: bytes, n: nat, s: bytes)
    requires NoNul(held) && n <= |held| && s == held + ['\0'] && s[n] == '\0'
    ensures n == |held|
  {
  }

  // ----- A line

  datatype LineStatus = LineError | LineEmpty | LineComment | LineSection | LineValue

  /** The status, and what the buffers hold then. */
  ghost predicate Reports(sta: LineStatus, section: array<byte>, key: array<byte>, value: array<byte>, before: bytes, line: Line)
    reads section, key, value
  {
    match line
    case Empty => sta == LineEmpty && HoldsText(section, before)
    case Comment => sta == LineComment && HoldsText(section, before)
    case Section(name) => sta == LineSection && HoldsText(section, name) && NoNul(name)
    case Value(k, v) =>
      && sta == LineValue && HoldsText(section, before)
      && HoldsText(key, k) && HoldsText(value, v) && NoNul(k) && NoNul(v)
    case Error => sta == LineError && HoldsText(section, before)
  }

  lemma {:induction false} StripNoNul(s: bytes)
    requires NoNul(s)
    ensures NoNul(Strip(s))
  {
    TrimLeftNoNul(s);
    assert forall c :: c in TrimRight(TrimLeft(s)) ==> c in TrimLeft(s);
  }

  lemma {:induction false} TrimLeftNoNul(s: bytes)
    requires NoNul(s)
    ensures NoNul(TrimLeft(s))
  {
    if s != [] && IsSpace(s[0]) {
      TrimLeftNoNul(s[1..]);
    }
  }

  lemma LowerNoNul(s: bytes)
    requires NoNul(s)
    ensures NoNul(Lower(s))
  {
    forall c | c in Lower(s) ensures c != '\0' {
      var i :| 0 <= i < |s| && Lower(s)[i] == c;
      assert s[i] in s;
    }
  }

  /** A name is stored, stripped and made lower-case; limit is more than it needs. */
  method StoreName(a: array<byte>, s: bytes, len: nat)
    requires |s| < a.Length && NoNul(s) && len > 0
    modifies a
    ensures HoldsText(a, Take(Lower(Strip(s)), len - 1)) && NoNul(Take(Lower(Strip(s)), len - 1))
  {
    hide Strip, Lower;
    Store(a, s);
    NormaliseName(a, s, len);
  }

  method NormaliseName(a: array<byte>, s: bytes, len: nat)
    requires HoldsText(a, s) && NoNul(s) && len > 0
    modifies a
    ensures HoldsText(a, Take(Lower(Strip(s)), len - 1)) && NoNul(Take(Lower(Strip(s)), len - 1))
  {
    hide Strip, Lower;
    var n := StrStrip(a, |s|);
    StripNoNul(s);
    StrLwc(a, n, len);
    LowerNoNul(Strip(s));
  }

  /** What is between the brackets is stored, or what was there is cut to fit. */
  method StoreSection(section: array<byte>, line: bytes, ghost before: bytes)
    requires HoldsText(section, before) && NoNul(before) && NoNul(line) && 0 < |line| < section.Length
    modifies section
    ensures HoldsText(section, SectionName(line, before)) && NoNul(SectionName(line, before))
  {
    hide Strip, Lower;
    var e := Until(line, 1, "]");
    if e > 1 {
      StoreName(section, line[1..e], |line|);
    } else {
      var held := TextOf(section, before);
      NormaliseName(section, held, |line|);
    }
  }

  /** The three forms of a value. */
  method StoreValue(value: array<byte>, line: bytes, q: nat)
    requires q <= |line| < value.Length && NoNul(line)
    modifies value
    ensures HoldsText(value, ValueText(line, q)) && NoNul(ValueText(line, q))
  {
    hide Strip;
    if q < |line| && line[q] in "\"'" && Until(line, q + 1, [line[q]]) > q + 1 {
      Store(value, line[q + 1..Until(line, q + 1, [line[q]])]);
    } else if q < |line| && line[q] !in ";#" {
      var run := line[q..Until(line, q, ";#")];
      Store(value, run);
      var n := StrStrip(value, |run|);
      StripNoNul(run);
      if value[..n] == "\"\"" || value[..n] == "''" {
        value[0] := '\0';
      }
    } else {
      value[0] := '\0';
    }
  }

  /** iniparser_line; the section buffer holds the section before. */
  method IniParserLine(input: bytes, section: array<byte>, key: array<byte>, value: array<byte>, ghost before: bytes)
    returns (sta: LineStatus)
    requires NoNul(input) && |input| < ASCIILINESZ && HoldsText(section, before) && NoNul(before)
    requires section.Length == key.Length == value.Length == ASCIILINESZ + 1
    requires section != key && section != value && key != value
    modifies section, key, value
    ensures Reports(sta, section, key, value, before, ParseLine(input, before))
  {
    hide Strip, SectionName, ValueText, Lower;
    var buf := new byte[|input| + 1];
    Store(buf, input);
    var len := StrStrip(buf, |input|);
    StripNoNul(input);
    var line := buf[..len];
    if len < 1 {
      return LineEmpty;
    }
    sta := ClassifyLine(line, section, key, value, before);
  }

  method ClassifyLine(line: bytes, section: array<byte>, key: array<byte>, value: array<byte>, ghost before: bytes)
    returns (sta: LineStatus)
    requires NoNul(line) && 0 < |line| < ASCIILINESZ && HoldsText(section, before) && NoNul(before)
    requires section.Length == key.Length == value.Length == ASCIILINESZ + 1
    requires section != key && section != value && key != value
    modifies section, key, value
    ensures Reports(sta, section, key, value, before, StrippedLine(line, before))
  {
    hide Strip, SectionName, ValueText, Lower;
    if line[0] == '#' || line[0] == ';' {
      return LineComment;
    }
    if line[0] == '[' && line[|line| - 1] == ']' {
      StoreSection(section, line, before);
      return LineSection;
    }
    var j := Until(line, 0, "=");
    if j == 0 || j == |line| {
      return LineError;
    }
    StoreName(key, line[..j], |line|);
    StoreValue(value, line, SkipSpaces(line, j + 1));
    sta := LineValue;
  }

  // ----- A file

  lemma LineLengthStep(text: bytes, i: nat, room: nat)
    requires i <= |text|
    ensures LineLength(text[i..], room) ==
            if i == |text| || room == 0 then 0 else if text[i] == '\n' then 1 else 1 + LineLength(text[i + 1..], room - 1)
  {
    if i < |text| {
      assert text[i..][1..] == text[i + 1..];
    }
  }

  /** The characters that fgets reads; ended is whether the last of them ends a line. */
  method ReadLine(line: array<byte>, last: nat, text: bytes, pos: nat, room: nat) returns (n: nat, ended: bool)
    requires last + room < line.Length && pos < |text| && room > 0
    modifies line
    ensures n == LineLength(text[pos..], room) && 0 < n <= room && pos + n <= |text|
    ensures line[..last + n] == old(line[..last]) + text[pos..pos + n]
    ensures (ended <==> text[pos + n - 1] == '\n') && (!ended && n < room ==> pos + n == |text|)
  {
    hide LineLength;
    n := 0;
    ended := false;
    while pos + n < |text| && n < room && !ended
      invariant pos + n <= |text| && n <= room
      invariant line[..last + n] == old(line[..last]) + text[pos..pos + n]
      invariant ended ==> n > 0 && text[pos + n - 1] == '\n'
      invariant LineLength(text[pos..], room) == n + if ended then 0 else LineLength(text[pos + n..], room - n)
      invariant n > 0 && !ended ==> text[pos + n - 1] != '\n'
      decreases |text| - n, !ended
    {
      LineLengthStep(text, pos + n, room - n);
      PutNext(line, last + n, text[pos + n]);
      assert text[pos..pos + n + 1] == text[pos..pos + n] + [text[pos + n]];
      ended := text[pos + n] == '\n';
      n := n + 1;
    }
    if !ended {
      LineLengthStep(text, pos + n, room - n);
    }
  }

  /** fgets(line + last, ASCIILINESZ - last, in) at a position before the end of the file; eof is feof(in) then. */
  method Fgets(line: array<byte>, last: nat, text: bytes, pos: nat) returns (n: nat, eof: bool)
    requires last + 1 < ASCIILINESZ < line.Length && pos < |text|
    modifies line
    ensures var room := ASCIILINESZ - 1 - last;
            && n == LineLength(text[pos..], room) && 0 < n && pos + n <= |text| && last + n < ASCIILINESZ
            && line[..last + n] == old(line[..last]) + text[pos..pos + n]
            && (eof <==> text[pos + n - 1] != '\n' && pos + n == |text| && n < room)
  {
    hide LineLength;
    var ended;
    n, ended := ReadLine(line, last, text, pos, ASCIILINESZ - 1 - last);
    PutNext(line, last + n, '\0');
    assert line[..last + n + 1][..last + n] == line[..last + n];
    eof := !ended && n < ASCIILINESZ - 1 - last;
  }

  method PutNext(line: array<byte>, i: nat, c: byte)
    requires i < line.Length
    modifies line
    ensures line[..i + 1] == old(line[..i]) + [c]
  {
    line[i] := c;
  }

  /** Blanks at the end of the line, and its newline, are overwritten. */
  method TrimEnd(line: array<byte>, len: nat) returns (m: nat)
    requires len < line.Length
    modifies line
    ensures m <= len + 1 && line[..m] == TrimRight(old(line[..len + 1])) && (m <= len ==> line[m] == '\0')
  {
    hide IsSpace;
    ghost var s := line[..len + 1];
    m := len + 1;
    while m > 0 && (line[m - 1] == '\n' || IsSpace(line[m - 1]))
      invariant m <= len + 1 && line[..m] == s[..m] && (m <= len ==> line[m] == '\0')
      invariant forall k :: m <= k < len + 1 ==> IsSpace(s[k])
    {
      NewlineIsSpace();
      assert line[m - 1] == s[m - 1];
      line[m - 1] := '\0';
      m := m - 1;
    }
    assert m > 0 ==> line[m - 1] == s[m - 1];
    TrimRightIs(s, m);
  }

  lemma NewlineIsSpace()
    ensures IsSpace('\n')
  {
  }

  ghost predicate Separate(a: array<byte>, d: Dictionary)
    reads d`key, d`val, d`hash
  {
    a as object != d.key && a as object != d.val && a as object != d.hash
  }

  /** What a line does to the dictionary; `now` is the section in the buffer then. */
  method HandleLine(input: bytes, section: array<byte>, key: array<byte>, value: array<byte>, dict: Dictionary,
                    ghost before: bytes)
    returns (failed: bool, ghost now: bytes)
    requires dict.Valid() && NoNul(input) && |input| < ASCIILINESZ && HoldsText(section, before) && NoNul(before)
    requires section.Length == key.Length == value.Length == ASCIILINESZ + 1
    requires section != key && section != value && key != value
    requires Separate(section, dict) && Separate(key, dict) && Separate(value, dict)
    modifies section, key, value, dict, dict.key, dict.val, dict.hash
    ensures dict.Valid() && HoldsText(section, now) && NoNul(now)
    ensures dict.key == old(dict.key) || fresh(dict.key)
    ensures dict.val == old(dict.val) || fresh(dict.val)
    ensures dict.hash == old(dict.hash) || fresh(dict.hash)
    ensures AfterLine(Loading(before, old(dict.contents), false), ParseLine(input, before)) == Loading(now, dict.contents, failed)
  {
    hide ParseLine, Dictionary.Valid;
    failed, now := false, before;
    ghost var line := ParseLine(input, before);
    var sta := IniParserLine(input, section, key, value, before);
    match sta
    case LineEmpty =>
    case LineComment =>
    case LineError => failed := true;
    case LineSection =>
      now := line.name;
      var name := TextOf(section, now);
      var ok := dict.Set(Some(name), None, true);
    case LineValue =>
      var name := TextOf(section, before);
      var k := TextOf(key, line.key);
      var v := TextOf(value, line.value);
      var ok := dict.Set(Some(name + ":" + k), Some(v), true);
  }

  /** What becomes of a file when a line of it has been read behind what is kept of one before. */
  ghost function Loaded(full: bytes, rest: bytes, more: bool, pending: bytes, l: Loading): Option<Map>
    requires 0 < |full| < ASCIILINESZ && |pending| + 1 < ASCIILINESZ
  {
    var line := TrimRight(full);
    if |full| <= 1 then Load(rest, pending, l)
    else if full[|full| - 1] != '\n' && more then None
    else if line != [] && line[|line| - 1] == '\\' then Load(rest, line[..|line| - 1], l)
    else Load(rest, [], AfterLine(l, ParseLine(line, l.section)))
  }

  lemma LoadUnfold(text: bytes, pending: bytes, l: Loading)
    requires |pending| + 1 < ASCIILINESZ && text != []
    ensures var room := ASCIILINESZ - 1 - |pending|;
            var n := LineLength(text, room);
            0 < n && Load(text, pending, l) == Loaded(pending + text[..n], text[n..], text[n..] != [] || n == room, pending, l)
  {
    hide ParseLine, AfterLine, TrimRight;
  }

  /** One round of the loading function. */
  lemma LoadStep(text: bytes, pos: nat, pending: bytes, l: Loading)
    requires |pending| + 1 < ASCIILINESZ && pos < |text|
    ensures var room := ASCIILINESZ - 1 - |pending|;
            var n := LineLength(text[pos..], room);
            0 < n && pos + n <= |text| &&
            Load(text[pos..], pending, l) ==
            Loaded(pending + text[pos..pos + n], text[pos + n..], pos + n < |text| || n == room, pending, l)
  {
    hide Load, Loaded, LineLength;
    var rest := text[pos..];
    LoadUnfold(rest, pending, l);
    var n := LineLength(rest, ASCIILINESZ - 1 - |pending|);
    assert rest[..n] == text[pos..pos + n] && rest[n..] == text[pos + n..];
  }

  lemma LoadEnd(text: bytes, pending: bytes, l: Loading)
    requires |pending| + 1 < ASCIILINESZ
    ensures Load(text[|text|..], pending, l) == if l.errs then None else Some(l.dict)
  {
  }

  /** Errors only add up. */
  lemma AfterLineErrs(l: Loading, line: Line)
    ensures AfterLine(l, line) == var r := AfterLine(l.(errs := false), line); r.(errs := l.errs || r.errs)
  {
  }

  /** memset(line, 0, ASCIILINESZ) */
  method Clear(line: array<byte>)
    requires line.Length >= ASCIILINESZ
    modifies line
    ensures forall k :: 0 <= k < ASCIILINESZ ==> line[k] == '\0'
  {
    forall k | 0 <= k < ASCIILINESZ {
      line[k] := '\0';
    }
  }

  /** The dictionary, the buffers and the counters of iniparser_load. */
  class Loader {
    const dict: Dictionary
    const line: array<byte>
    const section: array<byte>
    const key: array<byte>
    const value: array<byte>
    var last: nat
    var errs: nat
    /** The section in its buffer, and what is kept of a line. */
    ghost var now: bytes
    ghost var pending: bytes

    ghost predicate Shaped()
      reads dict`key, dict`val, dict`hash
    {
      && line.Length == section.Length == key.Length == value.Length == ASCIILINESZ + 1
      && line != section && line != key && line != value && section != key && section != value && key != value
      && Separate(line, dict) && Separate(section, dict) && Separate(key, dict) && Separate(value, dict)
    }

    ghost predicate Valid()
      reads this, dict, dict.key, dict.val, dict.hash, line, section
    {
      && Shaped() && dict.Valid() && HoldsText(section, now) && NoNul(now)
      && last == |pending| && last + 1 < ASCIILINESZ && line[..last] == pending && NoNul(pending)
    }

    ghost function State(): Loading
      reads this, dict
    {
      Loading(now, dict.contents, errs > 0)
    }

    constructor ()
      ensures Valid() && State() == Loading([], map[], false) && pending == []
      ensures fresh(dict) && fresh(dict.key) && fresh(dict.val) && fresh(dict.hash)
      ensures fresh(line) && fresh(section) && fresh(key) && fresh(value)
    {
      dict := new Dictionary(0);
      line := new byte[ASCIILINESZ + 1](_ => '\0');
      section := new byte[ASCIILINESZ + 1](_ => '\0');
      key := new byte[ASCIILINESZ + 1](_ => '\0');
      value := new byte[ASCIILINESZ + 1](_ => '\0');
      last, errs, now, pending := 0, 0, [], [];
    }

    /** A line has been trimmed to m characters and does not go on: it is handled, and the buffer cleared. */
    method Finish(m: nat)
      requires Shaped() && dict.Valid() && HoldsText(section, now) && NoNul(now)
      requires m < ASCIILINESZ && NoNul(line[..m])
      modifies this, line, section, key, value, dict, dict.key, dict.val, dict.hash
      ensures Valid() && pending == []
      ensures (dict.key == old(dict.key) || fresh(dict.key)) && (dict.val == old(dict.val) || fresh(dict.val))
      ensures dict.hash == old(dict.hash) || fresh(dict.hash)
      ensures State() == AfterLine(old(State()), ParseLine(old(line[..m]), old(now)))
    {
      hide ParseLine, AfterLine, Dictionary.Valid, HoldsText;
      var input := line[..m];
      AfterLineErrs(State(), ParseLine(input, now));
      var failed;
      failed, now := HandleLine(input, section, key, value, dict, now);
      if failed {
        errs := errs + 1;
      }
      Clear(line);
      last, pending := 0, [];
    }

    /** A whole line, or one that goes on behind a backslash. */
    method TakeWhole(len: nat, ghost rest: bytes, ghost more: bool)
      requires Shaped() && dict.Valid() && HoldsText(section, now) && NoNul(now) && |pending| + 1 < ASCIILINESZ
      requires 0 < len < ASCIILINESZ - 1 && NoNul(line[..len + 1]) && (line[len] == '\n' || !more)
      modifies this, line, section, key, value, dict, dict.key, dict.val, dict.hash
      ensures Valid() && Load(rest, pending, State()) == Loaded(old(line[..len + 1]), rest, more, old(pending), old(State()))
      ensures (dict.key == old(dict.key) || fresh(dict.key)) && (dict.val == old(dict.val) || fresh(dict.val))
      ensures dict.hash == old(dict.hash) || fresh(dict.hash)
    {
      hide ParseLine, AfterLine, Dictionary.Valid, Load, TrimRight, HoldsText;
      var m := TrimEnd(line, len);
      if m > 0 && line[m - 1] == '\\' {
        assert line[..m][..m - 1] == line[..m - 1];
        last := m - 1;
        pending := line[..m - 1];
      } else {
        Finish(m);
      }
    }

    /** A piece of n characters has been read behind what was kept; false if the line is too long. */
    method TakeLine(n: nat, eof: bool, ghost rest: bytes, ghost more: bool) returns (ok: bool)
      requires Shaped() && dict.Valid() && HoldsText(section, now) && NoNul(now) && last == |pending| && last + 1 < ASCIILINESZ
      requires 0 < n && last + n < ASCIILINESZ && pending == line[..last] && NoNul(line[..last + n])
      requires line[last + n - 1] != '\n' ==> more == !eof
      modifies this, line, section, key, value, dict, dict.key, dict.val, dict.hash
      ensures !ok ==> Loaded(old(line[..last + n]), rest, more, old(pending), old(State())).None?
      ensures ok ==> Valid() && Load(rest, pending, State()) == Loaded(old(line[..last + n]), rest, more, old(pending), old(State()))
      ensures (dict.key == old(dict.key) || fresh(dict.key)) && (dict.val == old(dict.val) || fresh(dict.val))
      ensures dict.hash == old(dict.hash) || fresh(dict.hash)
    {
      hide ParseLine, AfterLine, Dictionary.Valid, Load, TrimRight, HoldsText;
      var len := last + n - 1;
      if len <= 0 {
        return true;
      }
      if line[len] != '\n' && !eof {
        return false;
      }
      TakeWhole(len, rest, more);
      ok := true;
    }

    /** One round of the loop: a piece of the file is read and taken; false if a line is too long. */
    method Round(text: bytes, pos: nat) returns (next: nat, ok: bool)
      requires Valid() && NoNul(text) && pos < |text|
      modifies this, line, section, key, value, dict, dict.key, dict.val, dict.hash
      ensures pos < next <= |text|
      ensures !ok ==> Load(text[pos..], old(pending), old(State())).None?
      ensures ok ==> Valid() && Load(text[next..], pending, State()) == Load(text[pos..], old(pending), old(State()))
      ensures (dict.key == old(dict.key) || fresh(dict.key)) && (dict.val == old(dict.val) || fresh(dict.val))
      ensures dict.hash == old(dict.hash) || fresh(dict.hash)
    {
      hide Load, Loaded, Dictionary.Valid, LineLength, HoldsText;
      LoadStep(text, pos, pending, State());
      var n, eof := Fgets(line, last, text, pos);
      ghost var more := pos + n < |text| || n == ASCIILINESZ - 1 - |pending|;
      assert line[..last] == line[..last + n][..last] == pending;
      next := pos + n;
      ok := TakeLine(n, eof, text[next..], more);
    }
  }

  /** iniparser_load, of a file without NULs; NULL if a line is too long or makes no sense. */
  method IniParserLoad(text: bytes) returns (d: Dictionary?)
    requires NoNul(text)
    ensures d == null <==> LoadFile(text).None?
    ensures d != null ==> fresh(d) && d.Valid() && LoadFile(text) == Some(d.contents)
  {
    hide Load, Dictionary.Valid, HoldsText;
    var loader := new Loader();
    var pos := 0;
    assert text[0..] == text;
    while pos < |text|
      invariant pos <= |text| && loader.Valid() && fresh(loader) && fresh(loader.dict)
      invariant fresh(loader.dict.key) && fresh(loader.dict.val) && fresh(loader.dict.hash)
      invariant fresh(loader.line) && fresh(loader.section) && fresh(loader.key) && fresh(loader.value)
      invariant LoadFile(text) == Load(text[pos..], loader.pending, loader.State())
    {
      var ok;
      pos, ok := loader.Round(text, pos);
      if !ok {
        return null;
      }
    }
    LoadEnd(text, loader.pending, loader.State());
    d := if loader.errs > 0 then null else loader.dict;
  }

  // ----- Dumping

  lemma SectionsStep(keys: seq<Option<bytes>>, n: nat)
    requires n < |keys|
    ensures Sections(keys[..n + 1]) == Sections(keys[..n]) + if IsSection(keys[n]) then [keys[n].value] else []
  {
    assert keys[..n + 1][..n] == keys[..n];
  }

  /** iniparser_getnsec */
  method GetNSec(d: Dictionary) returns (nsec: nat)
    requires d.Valid()
    ensures nsec == |Sections(d.key[..])|
  {
    hide Holds;
    nsec := 0;
    for i := 0 to d.size
      invariant nsec == |Sections(d.key[..][..i])|
    {
      SectionsStep(d.key[..], i);
      if d.key[i].Some? && ':' !in d.key[i].value {
        nsec := nsec + 1;
      }
    }
    assert d.key[..][..d.size] == d.key[..];
  }

  lemma {:induction false} SectionsPrefix(keys: seq<Option<bytes>>, n: nat)
    requires n <= |keys|
    ensures Sections(keys[..n]) <= Sections(keys)
    decreases |keys|
  {
    if n < |keys| {
      var m := |keys| - 1;
      assert keys[..m][..n] == keys[..n];
      SectionsPrefix(keys[..m], n);
    } else {
      assert keys[..n] == keys;
    }
  }

  /** iniparser_getsecname: the section of a number. */
  method GetSecName(d: Dictionary, n: nat) returns (name: Option<bytes>)
    requires d.Valid()
    ensures name == if n < |Sections(d.key[..])| then Some(Sections(d.key[..])[n]) else None
  {
    hide Holds;
    var found := 0;
    for i := 0 to d.size
      invariant found == |Sections(d.key[..][..i])| <= n
    {
      SectionsStep(d.key[..], i);
      if d.key[i].Some? && ':' !in d.key[i].value {
        found := found + 1;
        if found > n {
          SectionsPrefix(d.key[..], i + 1);
          return d.key[i];
        }
      }
    }
    assert d.key[..][..d.size] == d.key[..];
    name := None;
  }

  /** iniparser_find_entry */
  method FindEntry(d: Dictionary, name: bytes) returns (found: bool)
    requires d.Valid()
    ensures found == Found(d.key[..], name)
  {
    var k := Take(Lower(name), ASCIILINESZ);
    var i := d.Find(k);
    found := i < d.size;
    if found {
      assert d.key[..][i] == Some(k);
    }
  }

  /** iniparser_dumpsection_ini */
  method DumpSection(d: Dictionary, s: bytes) returns (out: bytes)
    requires d.Valid()
    ensures out == SectionText(d.key[..], d.val[..], s)
  {
    hide Holds, EntryText;
    out := [];
    var found := FindEntry(d, s);
    if !found {
      return;
    }
    out := "\n[" + s + "]\n";
    var keym := s + ":";
    for j := 0 to d.size
      invariant out == "\n[" + s + "]\n" + EntriesText(d.key[..], d.val[..], s, j)
    {
      if d.key[j].Some? && keym <= d.key[j].value {
        out := out + EntryText(d.key[j].value[|s| + 1..], Shown(d.val[j], []), NAME_WIDTH);
      }
    }
    out := out + "\n";
  }

  /** iniparser_dump_ini */
  method DumpIni(d: Dictionary) returns (out: bytes)
    requires d.Valid()
    ensures out == DumpText(d.key[..], d.val[..])
  {
    hide Holds, SectionText;
    var nsec := GetNSec(d);
    if nsec < 1 {
      out := DumpPlain(d);
      return;
    }
    out := [];
    ghost var sections := Sections(d.key[..]);
    for i := 0 to nsec
      invariant out == SectionsText(d.key[..], d.val[..], sections[..i])
    {
      var name := GetSecName(d, i);
      var text := DumpSection(d, name.value);
      assert sections[..i + 1][..i] == sections[..i];
      out := out + text;
    }
    assert sections[..nsec] == sections;
    out := out + "\n";
  }

  /** All entries of a dictionary without sections. */
  method DumpPlain(d: Dictionary) returns (out: bytes)
    requires d.Valid()
    ensures out == PlainText(d.key[..], d.val[..])
  {
    hide Holds, EntryText, Shown;
    out := [];
    for i := 0 to d.size
      invariant out == PlainText(d.key[..][..i], d.val[..][..i])
    {
      assert d.key[..][..i + 1][..i] == d.key[..][..i] && d.val[..][..i + 1][..i] == d.val[..][..i];
      if d.key[i].Some? {
        out := out + EntryText(d.key[i].value, Shown(d.val[i], "(null)"), 0);
      }
    }
    assert d.key[..][..d.size] == d.key[..] && d.val[..][..d.size] == d.val[..];
  }
}
