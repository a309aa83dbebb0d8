/**
 Reading the value of a part of multipart/form-data up to its boundary, into a string buffer that grows or into a
 file.
 */
module FormValues {
  import opened Bytes
  import opened Search

  /** strbuf */
  class StrBuf {
    var str: array<byte>

    ghost predicate Valid()
      reads this
    {
      str.Length >= 128
    }

    /** The buffer holds a C string. */
    ghost predicate Holds(s: bytes)
      reads this, str
    {
      Valid() && |s| < str.Length && str[..|s|] == s && str[|s|] == '\0'
    }

    /** sb_get for a buffer of len characters that holds the given ones. */
    constructor (len: nat, held: bytes)
      requires |held| <= len
      ensures Valid() && len <= str.Length && fresh(str) && str[..|held|] == held
    {
      var size := 128;
      while size < len
        invariant size >= 128
      {
        size := size + size;
      }
      str := new byte[size](i => if 0 <= i < |held| then held[i] else '\0');
    }
  }

  /** savechar: the buffer may have to be replaced by a larger one. */
  method SaveChar(sb: StrBuf?, idx: nat, c: byte) returns (r: StrBuf)
    requires sb != null ==> sb.Valid() && idx <= sb.str.Length
    requires sb == null ==> idx == 0
    modifies if sb == null then {} else {sb.str}
    ensures r.Valid() && idx < r.str.Length && r.str[idx] == c
    ensures r.str[..idx] == if sb == null then [] else old(sb.str[..idx])
    ensures r == sb || (fresh(r) && fresh(r.str))
    ensures r == sb ==> r.str == old(r.str)
  {
    if sb == null {
      r := new StrBuf(1, []);
    } else if idx >= sb.str.Length {
      r := new StrBuf(idx + 1, sb.str[..idx]);
    } else {
      r := sb;
    }
    r.str[idx] := c;
  }

  class File {
    var written: bytes

    /** fputc */
    method Put(c: byte)
      modifies this
      ensures written == old(written) + [c]
    {
      written := written + [c];
    }
  }

  /** The text that has been copied: to the buffer, or to the file if there is one. */
  ghost predicate Copied(wantFile: bool, sb: StrBuf?, k: nat, out: File?, base: bytes, text: bytes)
    reads if sb == null then {} else {sb, sb.str}, if out == null then {} else {out}
  {
    if wantFile then out != null ==> out.written == base + text
    else
      && k == |text| && (sb == null ==> k == 0)
      && (sb != null ==> sb.Valid() && k <= sb.str.Length && sb.str[..k] == text)
  }

  /** One more byte. */
  method Copy(c: byte, wantFile: bool, sb: StrBuf?, k: nat, out: File?, ghost base: bytes, ghost text: bytes)
    returns (r: StrBuf?, n: nat)
    requires Copied(wantFile, sb, k, out, base, text)
    modifies if sb == null then {} else {sb.str}, if out == null then {} else {out}
    ensures Copied(wantFile, r, n, out, base, text + [c])
    ensures r == sb || (r != null && fresh(r) && fresh(r.str))
    ensures r != null && r == sb ==> r.str == old(r.str)
  {
    r, n := sb, k;
    if !wantFile {
      r := SaveChar(sb, k, c);
      n := k + 1;
      assert r.str[..n] == r.str[..k] + [c];
    } else if out != null {
      out.Put(c);
    }
  }

  /** The part of the boundary that turned out not to be one. */
  method CopyPrefix(boundary: bytes, matched: nat, wantFile: bool, sb: StrBuf?, k: nat, out: File?,
                    ghost base: bytes, ghost text: bytes)
    returns (r: StrBuf?, n: nat)
    requires matched <= |boundary| && Copied(wantFile, sb, k, out, base, text)
    modifies if sb == null then {} else {sb.str}, if out == null then {} else {out}
    ensures Copied(wantFile, r, n, out, base, text + boundary[..matched])
    ensures r == sb || (r != null && fresh(r) && fresh(r.str))
    ensures r != null && r == sb ==> r.str == old(r.str)
  {
    r, n := sb, k;
    assert text + boundary[..0] == text;
    for i := 0 to matched
      invariant Copied(wantFile, r, n, out, base, text + boundary[..i])
      invariant r == sb || (r != null && fresh(r) && fresh(r.str))
      invariant r != null && r == sb ==> r.str == old(r.str)
    {
      assert text + boundary[..i + 1] == text + boundary[..i] + [boundary[i]];
      r, n := Copy(boundary[i], wantFile, r, n, out, base, text + boundary[..i]);
    }
  }

  lemma LetThroughTwice(x: bytes, n: nat, y: bytes, m: nat, r: Scanned)
    ensures LetThrough(x, n, LetThrough(y, m, r)) == LetThrough(x + y, n + m, r)
  {
    assert x + (y + r.out) == x + y + r.out;
  }

  /** One byte more of the search, with the text that was let through before. */
  lemma ScanStep(d: bytes, k: nat, s: bytes, i: nat, text: bytes)
    requires k < |d| && i < |s|
    ensures var r := LetThrough(text, i, Scan(d, k, s[i..]));
            if k > 0 && s[i] != d[k] then r == LetThrough(text + d[..k], i, Scan(d, 0, s[i..]))
            else if s[i] == d[k] && k + 1 == |d| then r == Scanned(text, i + 1, k + 1, true)
            else if s[i] == d[k] then r == LetThrough(text, i + 1, Scan(d, k + 1, s[i + 1..]))
            else r == LetThrough(text + [s[i]], i + 1, Scan(d, 0, s[i + 1..]))
  {
    assert s[i..][1..] == s[i + 1..];
    if k > 0 && s[i] != d[k] {
      LetThroughTwice(text, i, d[..k], 0, Scan(d, 0, s[i..]));
    } else if s[i] == d[k] {
      if k + 1 == |d| {
        assert text + [] == text;
      } else {
        LetThroughTwice(text, i, [], 1, Scan(d, k + 1, s[i + 1..]));
        assert text + [] == text;
      }
    } else {
      LetThroughTwice(text, i, [s[i]], 1, Scan(d, 0, s[i + 1..]));
    }
  }

  lemma ScanEnd(d: bytes, k: nat, s: bytes, text: bytes)
    requires k < |d|
    ensures LetThrough(text, |s|, Scan(d, k, s[|s|..])) == Scanned(text, |s|, k, false)
  {
    assert text + [] == text;
  }

  lemma ScanStart(d: bytes, s: bytes)
    requires d != []
    ensures LetThrough([], 0, Scan(d, 0, s[0..])) == Scan(d, 0, s)
  {
    assert s[0..] == s && [] + Scan(d, 0, s).out == Scan(d, 0, s).out;
  }

  /** A char as C compares it with the int that getc gives: one that is not ASCII is negative, and getc gives none of those. */
  function AsChar(c: byte): int {
    if c as int < 128 then c as int else c as int - 256
  }

  ghost predicate Ascii(s: bytes) {
    forall k :: 0 <= k < |s| ==> s[k] as int < 128
  }

  /**
   What is copied of the input, and how much of it is read.  A boundary that is not ASCII is never found: all but a
   beginning of it at the very end is copied.
   */
  ghost predicate CopyOf(boundary: bytes, input: bytes, text: bytes, used: nat)
    requires boundary != []
  {
    if Ascii(boundary) then text == Scan(boundary, 0, input).out && used == Scan(boundary, 0, input).used
    else used == |input| && exists m :: 0 <= m < |boundary| && text + boundary[..m] == input
  }

  /** The loop so far: `text` has been copied, and the bytes matched make up the rest of what has been read. */
  ghost predicate Copying(boundary: bytes, input: bytes, text: bytes, used: nat, matched: nat)
    requires boundary != []
  {
    && used <= |input| && matched < |boundary| && Ascii(boundary[..matched])
    && text + boundary[..matched] == input[..used]
    && (Ascii(boundary) ==> Scan(boundary, 0, input) == LetThrough(text, used, Scan(boundary, matched, input[used..])))
  }

  /** The byte goes on with the boundary, and completes it or does not. */
  lemma CopyMatch(boundary: bytes, input: bytes, text: bytes, used: nat, matched: nat)
    requires boundary != [] && Copying(boundary, input, text, used, matched)
    requires used < |input| && input[used] as int == AsChar(boundary[matched])
    ensures if matched + 1 == |boundary| then CopyOf(boundary, input, text, used + 1)
            else Copying(boundary, input, text, used + 1, matched + 1)
  {
    hide Scan, LetThrough;
    ScanStep(boundary, matched, input, used, text);
    assert boundary[..matched + 1] == boundary[..matched] + [boundary[matched]];
    assert input[..used + 1] == input[..used] + [input[used]];
    assert text + boundary[..matched + 1] == text + boundary[..matched] + [boundary[matched]];
    if matched + 1 == |boundary| { assert boundary[..matched + 1] == boundary; }
  }

  /** The byte does not go on with the boundary: what was matched of it is copied after all, and otherwise the byte. */
  lemma CopyMismatch(boundary: bytes, input: bytes, text: bytes, used: nat, matched: nat)
    requires boundary != [] && Copying(boundary, input, text, used, matched)
    requires used < |input| && input[used] as int != AsChar(boundary[matched])
    ensures if matched > 0 then Copying(boundary, input, text + boundary[..matched], used, 0)
            else Copying(boundary, input, text + [input[used]], used + 1, 0)
  {
    hide Scan, LetThrough;
    ScanStep(boundary, matched, input, used, text);
    assert boundary[..0] == [] && text + boundary[..matched] + [] == text + boundary[..matched];
    assert text + [] == text && text + [input[used]] + [] == text + [input[used]];
    assert input[..used + 1] == input[..used] + [input[used]];
  }

  lemma CopyEnd(boundary: bytes, input: bytes, text: bytes, matched: nat)
    requires boundary != [] && Copying(boundary, input, text, |input|, matched)
    ensures CopyOf(boundary, input, text, |input|)
  {
    hide Scan, LetThrough;
    ScanEnd(boundary, matched, input, text);
    assert input[..|input|] == input;
  }

  lemma CopyStart(boundary: bytes, input: bytes)
    requires boundary != []
    ensures Copying(boundary, input, [], 0, 0)
  {
    hide Scan, LetThrough;
    ScanStart(boundary, input);
  }

  /** copyvalue: the bytes of the stream up to the boundary are copied, and those of the boundary read as well. */
  method CopyValue(boundary: bytes, input: bytes, wantFile: bool, value: StrBuf?, out: File?)
    returns (r: StrBuf?, used: nat, ghost text: bytes)
    requires boundary != [] && '\0' !in boundary && (value != null ==> value.Valid())
    modifies if value == null then {} else {value.str}, if out == null then {} else {out}
    ensures CopyOf(boundary, input, text, used)
    ensures wantFile ==> r == null && (out != null ==> out.written == old(out.written) + text)
    ensures !wantFile ==> r != null && r.Holds(text)
  {
    hide Copied, Copying, CopyOf, AsChar;
    ghost var base := if out == null then [] else out.written;
    text := [];
    var k, matched := 0, 0;
    r, used := value, 0;
    NothingCopied(wantFile, r, out);
    CopyStart(boundary, input);
    while used < |input|
      invariant used <= |input| && matched < |boundary|
      invariant Copied(wantFile, r, k, out, base, text)
      invariant r == value || (r != null && fresh(r) && fresh(r.str))
      invariant r != null && r == value ==> r.str == old(r.str)
      invariant Copying(boundary, input, text, used, matched)
    {
      var c := input[used];
      if matched > 0 && c as int != AsChar(boundary[matched]) {
        CopyMismatch(boundary, input, text, used, matched);
        r, k := CopyPrefix(boundary, matched, wantFile, r, k, out, base, text);
        text := text + boundary[..matched];
        matched := 0;
      }
      if c as int == AsChar(boundary[matched]) {
        CopyMatch(boundary, input, text, used, matched);
        used := used + 1;
        matched := matched + 1;
        if matched == |boundary| {
          r := Finish(wantFile, r, k, out, base, text);
          return;
        }
      } else {
        CopyMismatch(boundary, input, text, used, matched);
        used := used + 1;
        r, k := Copy(c, wantFile, r, k, out, base, text);
        text := text + [c];
      }
    }
    CopyEnd(boundary, input, text, matched);
    r := Finish(wantFile, r, k, out, base, text);
  }

  method Finish(wantFile: bool, sb: StrBuf?, k: nat, out: File?, ghost base: bytes, ghost text: bytes) returns (r: StrBuf?)
    requires Copied(wantFile, sb, k, out, base, text)
    modifies if sb == null then {} else {sb.str}
    ensures wantFile ==> r == null && (out != null ==> out.written == base + text)
    ensures !wantFile ==> r != null && r.Holds(text)
  {
    r := null;
    if !wantFile {
      r := SaveChar(sb, k, '\0');
    }
  }

  lemma NothingCopied(wantFile: bool, sb: StrBuf?, out: File?)
    requires sb != null ==> sb.Valid()
    ensures Copied(wantFile, sb, 0, out, if out == null then [] else out.written, [])
  {
  }

  /**
   What one wants of the copy: it is what comes before the first boundary, and reading stops right behind that; if there
   is none, it is everything but a beginning of the boundary at the end of the stream.
   */
  ghost predicate UpToFirst(boundary: bytes, input: bytes, text: bytes, used: nat) {
    && (forall p: nat :: FirstAt(boundary, input, p) ==> text == input[..p] && used == p + |boundary|)
    && ((forall p: nat :: !OccursAt(boundary, input, p)) ==>
          used == |input| && exists m :: 0 <= m < |boundary| && text + boundary[..m] == input)
  }

  /** For an ASCII boundary, that is just that the search is right. */
  lemma UpToFirstIsRight(boundary: bytes, input: bytes)
    requires boundary != []
    ensures var s := Scan(boundary, 0, input);
            UpToFirst(boundary, input, s.out, s.used) <==> Right(boundary, input)
  {
    hide Scan, FirstAt, OccursAt;
    var s := Scan(boundary, 0, input);
    ScanConserves(boundary, 0, input);
    assert boundary[..0] + input[..s.used] == input[..s.used];
    assert |s.out| + s.matched == s.used;
    forall m | 0 <= m < |boundary| && s.used == |input| && s.out + boundary[..m] == input ensures m == s.matched {
      assert |s.out + boundary[..m]| == |s.out| + m;
    }
  }

  /** A boundary that is not ASCII is missed even where the input is nothing else. */
  lemma NeverFound(boundary: bytes, text: bytes, used: nat)
    requires boundary != [] && !Ascii(boundary) && CopyOf(boundary, boundary, text, used)
    ensures !UpToFirst(boundary, boundary, text, used)
  {
    assert boundary[0..0 + |boundary|] == boundary;
    assert FirstAt(boundary, boundary, 0);
    var m :| 0 <= m < |boundary| && text + boundary[..m] == boundary;
    assert |text| == |boundary| - m;
  }

  /** The copy is right for every input exactly if the boundary is ASCII and never needs one to go back. */
  lemma CopyIsRight(boundary: bytes)
    requires boundary != []
    ensures (forall input, text, used :: CopyOf(boundary, input, text, used) ==> UpToFirst(boundary, input, text, used)) <==>
            Ascii(boundary) && NeedsNoBacktracking(boundary)
  {
    hide Scan, UpToFirst, Right, NeedsNoBacktracking;
    WhenRight(boundary);
    if Ascii(boundary) {
      forall input ensures UpToFirst(boundary, input, Scan(boundary, 0, input).out, Scan(boundary, 0, input).used) <==>
                           Right(boundary, input)
      {
        UpToFirstIsRight(boundary, input);
      }
      if !NeedsNoBacktracking(boundary) {
        var input :| !Right(boundary, input);
        var s := Scan(boundary, 0, input);
        assert CopyOf(boundary, input, s.out, s.used);
      }
    } else {
      assert boundary + boundary[..0] == boundary;
      assert CopyOf(boundary, boundary, boundary, |boundary|);
      NeverFound(boundary, boundary, |boundary|);
    }
  }

  /** An ASCII boundary whose first byte stands nowhere else in it is one. */
  lemma CopiesUpToFirst(boundary: bytes, input: bytes, text: bytes, used: nat)
    requires Once(boundary) && Ascii(boundary) && CopyOf(boundary, input, text, used)
    ensures UpToFirst(boundary, input, text, used)
  {
    hide UpToFirst, CopyOf;
    OnceNeedsNone(boundary);
    CopyIsRight(boundary);
  }
}
