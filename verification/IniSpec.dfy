/**
 Ini files: what a line means, what a whole file loads as, and the file that a dictionary is dumped to.
 */
module IniSpec {
  import opened Bytes
  import opened Options

  const ASCIILINESZ := 1024

  // ----- Strings

  function TrimLeft(s: bytes): (r: bytes)
    ensures |r| <= |s|
  {
    if s != [] && IsSpace(s[0]) then TrimLeft(s[1..]) else s
  }

  function TrimRight(s: bytes): (r: bytes)
    ensures |r| <= |s| && r == s[..|r|]
    ensures r != [] ==> !IsSpace(r[|r| - 1])
  {
    if s != [] && IsSpace(s[|s| - 1]) then TrimRight(s[..|s| - 1]) else s
  }

  /** strstrip */
  function Strip(s: bytes): (r: bytes)
    ensures |r| <= |s|
  {
    TrimRight(TrimLeft(s))
  }

  lemma {:induction false} TrimLeftIs(s: bytes, i: nat)
    requires i <= |s| && (forall k :: 0 <= k < i ==> IsSpace(s[k])) && (i < |s| ==> !IsSpace(s[i]))
    ensures TrimLeft(s) == s[i..]
    decreases i
  {
    if i > 0 {
      TrimLeftIs(s[1..], i - 1);
    }
  }

  lemma {:induction false} TrimRightIs(s: bytes, j: nat)
    requires j <= |s| && (forall k :: j <= k < |s| ==> IsSpace(s[k])) && (j > 0 ==> !IsSpace(s[j - 1]))
    ensures TrimRight(s) == s[..j]
    decreases |s|
  {
    if j < |s| {
      TrimRightIs(s[..|s| - 1], j);
      assert s[..|s| - 1][..j] == s[..j];
    }
  }

  lemma StripIs(s: bytes, i: nat, j: nat)
    requires i <= j <= |s| && (forall k :: 0 <= k < i ==> IsSpace(s[k])) && (i < |s| ==> !IsSpace(s[i]))
    requires (forall k :: j <= k < |s| ==> IsSpace(s[k])) && (i < j ==> !IsSpace(s[j - 1]))
    ensures Strip(s) == s[i..j]
  {
    hide IsSpace;
    TrimLeftIs(s, i);
    var t := s[i..];
    assert forall k :: j - i <= k < |t| ==> t[k] == s[i + k];
    TrimRightIs(t, j - i);
    assert t[..j - i] == s[i..j];
  }

  function Lower(s: bytes): (r: bytes)
    ensures |r| == |s|
  {
    seq(|s|, i requires 0 <= i < |s| => ToLower(s[i]))
  }

  function Take(s: bytes, n: nat): bytes {
    if n < |s| then s[..n] else s
  }

  // ----- The pieces that sscanf reads

  /** %[^stop]: where the run of other characters that begins at i ends. */
  function Until(s: bytes, i: nat, stop: bytes): (j: nat)
    requires i <= |s|
    ensures i <= j <= |s|
    decreases |s| - i
  {
    if i == |s| || s[i] in stop then i else Until(s, i + 1, stop)
  }

  function SkipSpaces(s: bytes, i: nat): (j: nat)
    requires i <= |s|
    ensures i <= j <= |s|
    decreases |s| - i
  {
    if i < |s| && IsSpace(s[i]) then SkipSpaces(s, i + 1) else i
  }

  // ----- A line

  datatype Line = Empty | Comment | Section(name: bytes) | Value(key: bytes, value: bytes) | Error

  /** What a value without quotes around it is: two quotes stand for nothing. */
  function Unquoted(v: bytes): bytes {
    if v == "\"\"" || v == "''" then [] else v
  }

  /** The text of a value that begins at q, which is after the equals sign and spaces. */
  function ValueText(line: bytes, q: nat): bytes
    requires q <= |line|
  {
    if q < |line| && line[q] in "\"'" && Until(line, q + 1, [line[q]]) > q + 1 then
      line[q + 1..Until(line, q + 1, [line[q]])]
    else if q < |line| && line[q] !in ";#" then Unquoted(Strip(line[q..Until(line, q, ";#")]))
    else []
  }

  /** The name in brackets; without one, sscanf leaves the section before in its place, and it is cut to fit. */
  function SectionName(line: bytes, before: bytes): bytes
    requires line != []
  {
    var e := Until(line, 1, "]");
    Take(Lower(Strip(if e > 1 then line[1..e] else before)), |line| - 1)
  }

  /** A line that has been stripped and is not empty. */
  function StrippedLine(line: bytes, section: bytes): Line
    requires line != []
  {
    if line[0] in "#;" then Comment
    else if line[0] == '[' && line[|line| - 1] == ']' then Section(SectionName(line, section))
    else
      var j := Until(line, 0, "=");
      if j == 0 || j == |line| then Error
      else Value(Lower(Strip(line[..j])), ValueText(line, SkipSpaces(line, j + 1)))
  }

  /** iniparser_line */
  function ParseLine(input: bytes, section: bytes): Line {
    var line := Strip(input);
    if line == [] then Empty else StrippedLine(line, section)
  }

  // ----- A file

  type Map = map<bytes, Option<bytes>>

  /** How much fgets reads: to the end of the line, but no more than there is room for. */
  function LineLength(text: bytes, room: nat): (n: nat)
    ensures n <= |text| && n <= room && (text != [] && room > 0 ==> n > 0)
  {
    if text == [] || room == 0 then 0
    else if text[0] == '\n' then 1
    else 1 + LineLength(text[1..], room - 1)
  }

  /** The section and the dictionary while a file is loaded, and whether there was an error. */
  datatype Loading = Loading(section: bytes, dict: Map, errs: bool)

  function AfterLine(l: Loading, line: Line): Loading {
    match line
    case Empty => l
    case Comment => l
    case Section(name) => l.(section := name, dict := l.dict[name := None])
    case Value(key, value) => l.(dict := l.dict[l.section + ":" + key := Some(value)])
    case Error => l.(errs := true)
  }

  /** The rest of a file, after the beginning of a line that ended in a backslash. */
  function Load(text: bytes, pending: bytes, l: Loading): Option<Map>
    requires |pending| + 1 < ASCIILINESZ
    decreases |text|
  {
    if text == [] then if l.errs then None else Some(l.dict)
    else
      var room := ASCIILINESZ - 1 - |pending|;
      var n := LineLength(text, room);
      var full, rest := pending + text[..n], text[n..];
      if |full| <= 1 then Load(rest, pending, l)
      else if full[|full| - 1] != '\n' && (rest != [] || n == room) then None
      else
        var line := TrimRight(full);
        if line != [] && line[|line| - 1] == '\\' then Load(rest, line[..|line| - 1], l)
        else Load(rest, [], AfterLine(l, ParseLine(line, l.section)))
  }

  function LoadFile(text: bytes): Option<Map> {
    Load(text, [], Loading([], map[], false))
  }

  // ----- Dumping

  /** A section is an entry whose name has no colon. */
  predicate IsSection(k: Option<bytes>) {
    k.Some? && ':' !in k.value
  }

  predicate IsIn(k: Option<bytes>, section: bytes) {
    k.Some? && section + ":" <= k.value
  }

  function Sections(keys: seq<Option<bytes>>): (r: seq<bytes>)
    ensures |r| <= |keys|
  {
    if keys == [] then []
    else
      var n := |keys| - 1;
      Sections(keys[..n]) + if IsSection(keys[n]) then [keys[n].value] else []
  }

  function Spaces(n: nat): bytes {
    seq(n, _ => ' ')
  }

  /** A name in a field of at least w characters: %-30s, or %s. */
  function Padded(s: bytes, w: nat): bytes {
    s + Spaces(if |s| < w then w - |s| else 0)
  }

  const NAME_WIDTH := 30

  function EntryText(name: bytes, v: bytes, w: nat): bytes {
    Padded(name, w) + " = " + v + "\n"
  }

  /** What is printed for a value, which may be NULL. */
  function Shown(v: Option<bytes>, none: bytes): bytes {
    if v.Some? then v.value else none
  }

  /** The entries of a section among the first n slots. */
  function EntriesText(keys: seq<Option<bytes>>, vals: seq<Option<bytes>>, section: bytes, n: nat): bytes
    requires n <= |keys| == |vals|
  {
    if n == 0 then []
    else
      EntriesText(keys, vals, section, n - 1) +
      if IsIn(keys[n - 1], section) then EntryText(keys[n - 1].value[|section| + 1..], Shown(vals[n - 1], []), NAME_WIDTH) else []
  }

  /** iniparser_find_entry */
  predicate Found(keys: seq<Option<bytes>>, name: bytes) {
    Some(Take(Lower(name), ASCIILINESZ)) in keys
  }

  function SectionText(keys: seq<Option<bytes>>, vals: seq<Option<bytes>>, section: bytes): bytes
    requires |keys| == |vals|
  {
    if Found(keys, section) then "\n[" + section + "]\n" + EntriesText(keys, vals, section, |keys|) + "\n" else []
  }

  function SectionsText(keys: seq<Option<bytes>>, vals: seq<Option<bytes>>, sections: seq<bytes>): bytes
    requires |keys| == |vals|
  {
    if sections == [] then []
    else
      var n := |sections| - 1;
      SectionsText(keys, vals, sections[..n]) + SectionText(keys, vals, sections[n])
  }

  /** Without sections, all entries as they are; the C library prints NULL in parentheses. */
  function PlainText(keys: seq<Option<bytes>>, vals: seq<Option<bytes>>): bytes
    requires |keys| == |vals|
  {
    if keys == [] then []
    else
      var n := |keys| - 1;
      PlainText(keys[..n], vals[..n]) +
      if keys[n].Some? then EntryText(keys[n].value, Shown(vals[n], "(null)"), 0) else []
  }

  /** iniparser_dump_ini */
  function DumpText(keys: seq<Option<bytes>>, vals: seq<Option<bytes>>): bytes
    requires |keys| == |vals|
  {
    if Sections(keys) == [] then PlainText(keys, vals) else SectionsText(keys, vals, Sections(keys)) + "\n"
  }
}
