/**
 Searching a stream for a delimiter without ever going back.
 This is the matching loop of copyvalue in ccgi.c, and what the body states of the
 multipart parser do with CR LF boundary.
 */
module Search {
  import opened Bytes

  /** The first byte of the delimiter stands nowhere else in it. */
  ghost predicate Once(d: bytes) {
    d != [] && forall i :: 0 < i < |d| ==> d[i] != d[0]
  }

  /**
   Wherever a beginning of the delimiter ends in a shorter beginning of it, both go on with the same byte.  So a byte
   that does not continue the one does not continue the other either.
   */
  ghost predicate NeedsNoBacktracking(d: bytes) {
    d != [] && forall b, k :: Borders(d, b, k) ==> d[b] == d[k]
  }

  /** The first k bytes end in the first b of them. */
  ghost predicate Borders(d: bytes, b: int, k: int) {
    0 < b < k < |d| && d[k - b..k] == d[..b]
  }

  lemma OnceNeedsNone(d: bytes)
    requires Once(d)
    ensures NeedsNoBacktracking(d)
  {
    forall b, k ensures !Borders(d, b, k) {
      if 0 < b < k < |d| {
        assert d[k - b..k][0] == d[k - b] && d[..b][0] == d[0];
      }
    }
  }

  ghost predicate OccursAt(d: bytes, s: bytes, p: nat) {
    p + |d| <= |s| && s[p..p + |d|] == d
  }

  ghost predicate FirstAt(d: bytes, s: bytes, p: nat) {
    OccursAt(d, s, p) && forall q :: 0 <= q < p ==> !OccursAt(d, s, q)
  }

  /** Bytes let through, bytes read, how much of the delimiter is matched at the end, and whether all of it was. */
  datatype Scanned = Scanned(out: bytes, used: nat, matched: nat, found: bool)

  function LetThrough(x: bytes, n: nat, r: Scanned): Scanned {
    r.(out := x + r.out, used := n + r.used)
  }

  /** The search, with the first k bytes of the delimiter matched just before s. */
  function Scan(d: bytes, k: nat, s: bytes): (r: Scanned)
    requires k < |d|
    ensures r.used <= |s| && (!r.found ==> r.used == |s| && r.matched < |d|)
    decreases |s|, k
  {
    if s == [] then Scanned([], 0, k, false)
    else if s[0] == d[k] then
      if k + 1 == |d| then Scanned([], 1, k + 1, true) else LetThrough([], 1, Scan(d, k + 1, s[1..]))
    else if k > 0 then LetThrough(d[..k], 0, Scan(d, 0, s))
    else LetThrough([s[0]], 1, Scan(d, 0, s[1..]))
  }

  lemma Shift(d: bytes, x: bytes, s: bytes, p: nat)
    ensures OccursAt(d, x + s, |x| + p) <==> OccursAt(d, s, p)
  {
    if p + |d| <= |s| {
      assert (x + s)[|x| + p..|x| + p + |d|] == s[p..p + |d|];
    }
  }

  lemma MismatchInside(d: bytes, k: nat, s: bytes, q: nat)
    requires NeedsNoBacktracking(d) && k < |d| && s != [] && s[0] != d[k] && 0 < q < k
    ensures !OccursAt(d, d[..k] + s, q)
  {
    var text, b := d[..k] + s, k - q;
    if q + |d| <= |text| {
      var t := text[q..q + |d|];
      assert |t| == |d| && forall i :: 0 <= i < b ==> t[i] == text[q + i] == d[q + i];
      assert t[..b] == d[q..k];
      assert t[b] == text[k] == s[0];
      if d[q..k] == d[..b] {
        assert Borders(d, b, k);
      }
    }
  }

  /** After a mismatch at s[0], no occurrence begins in the k bytes matched so far (or in s[0], if there are none). */
  lemma Mismatch(d: bytes, k: nat, s: bytes, q: nat)
    requires NeedsNoBacktracking(d) && k < |d| && s != [] && s[0] != d[k] && q < k + (if k == 0 then 1 else 0)
    ensures !OccursAt(d, d[..k] + s, q)
  {
    var text := d[..k] + s;
    if q + |d| <= |text| {
      if q == 0 {
        assert text[0..|d|][k] == text[k] == s[0];
      } else {
        MismatchInside(d, k, s, q);
      }
    }
  }

  /** What is let through on a mismatch leaves the first occurrence where it was. */
  lemma Passed(d: bytes, k: nat, s: bytes, x: bytes, rest: bytes, p: nat)
    requires NeedsNoBacktracking(d) && k < |d| && s != [] && s[0] != d[k]
    requires d[..k] + s == x + rest && |x| == k + (if k == 0 then 1 else 0)
    requires FirstAt(d, x + rest, p)
    ensures |x| <= p && FirstAt(d, rest, p - |x|)
  {
    if p < |x| { Mismatch(d, k, s, p); }
    Shift(d, x, rest, p - |x|);
    forall q: nat | q < p - |x| ensures !OccursAt(d, rest, q) {
      Shift(d, x, rest, q);
      assert !OccursAt(d, x + rest, |x| + q);
    }
  }

  lemma Completed(d: bytes, k: nat, s: bytes)
    requires k < |d|
    ensures k + 1 == |d| && s != [] && s[0] == d[k] ==> OccursAt(d, d[..k] + s, 0)
  {
    if k + 1 == |d| && s != [] && s[0] == d[k] {
      assert (d[..k] + s)[0..|d|] == d;
    }
  }

  lemma FirstIsFirst(d: bytes, k: nat, s: bytes, p: nat)
    requires k < |d| && FirstAt(d, d[..k] + s, p)
    ensures s != [] && p + |d| <= k + |s| && (k + 1 == |d| && s[0] == d[k] ==> p == 0)
  {
    Completed(d, k, s);
  }

  /** If there is an occurrence, the search stops right after the first one, having let through what precedes it. */
  lemma {:induction false} ScanFinds(d: bytes, k: nat, s: bytes, p: nat)
    requires NeedsNoBacktracking(d) && k < |d| && FirstAt(d, d[..k] + s, p)
    ensures Scan(d, k, s) == Scanned((d[..k] + s)[..p], p + |d| - k, |d|, true)
    decreases |s|, k
  {
    hide FirstAt, OccursAt, NeedsNoBacktracking;
    var text := d[..k] + s;
    FirstIsFirst(d, k, s, p);
    if s[0] == d[k] {
      assert text == d[..k + 1] + s[1..];
      if k + 1 < |d| {
        ScanFinds(d, k + 1, s[1..], p);
      }
    } else if k > 0 {
      Passed(d, k, s, d[..k], s, p);
      assert d[..0] + s == s;
      ScanFinds(d, 0, s, p - k);
      assert text[..p] == d[..k] + s[..p - k];
    } else {
      assert text == [s[0]] + s[1..] == s;
      Passed(d, 0, s, [s[0]], s[1..], p);
      assert d[..0] + s[1..] == s[1..];
      ScanFinds(d, 0, s[1..], p - 1);
      assert text[..p] == [s[0]] + s[1..][..p - 1];
    }
  }

  /** If there is none, everything is let through but a beginning of the delimiter at the very end. */
  lemma {:induction false} ScanMisses(d: bytes, k: nat, s: bytes)
    requires k < |d| && forall p: nat :: !OccursAt(d, d[..k] + s, p)
    ensures var r := Scan(d, k, s);
            !r.found && r.out + d[..r.matched] == d[..k] + s
    decreases |s|, k
  {
    var text := d[..k] + s;
    Completed(d, k, s);
    if s == [] {
    } else if s[0] == d[k] {
      assert text == d[..k + 1] + s[1..];
      if k + 1 < |d| {
        ScanMisses(d, k + 1, s[1..]);
      }
    } else if k > 0 {
      assert d[..0] + s == s;
      forall p: nat ensures !OccursAt(d, s, p) {
        Shift(d, d[..k], s, p);
        assert !OccursAt(d, text, k + p);
      }
      ScanMisses(d, 0, s);
    } else {
      assert text == [s[0]] + s[1..] == s;
      assert d[..0] + s[1..] == s[1..];
      forall p: nat ensures !OccursAt(d, s[1..], p) {
        Shift(d, [s[0]], s[1..], p);
        assert !OccursAt(d, text, 1 + p);
      }
      ScanMisses(d, 0, s[1..]);
    }
  }

  /** No byte is lost: what is let through and what is matched are what was matched before and has been read. */
  ghost predicate Conserves(d: bytes, k: nat, s: bytes, r: Scanned) {
    && k <= |d| && r.used <= |s| && r.matched <= |d| && (r.found <==> r.matched == |d|)
    && r.out + d[..r.matched] == d[..k] + s[..r.used]
  }

  lemma ConservesOn(d: bytes, k: nat, s: bytes, x: bytes, n: nat, k': nat, t: Scanned)
    requires k <= |d| && n <= |s| && Conserves(d, k', s[n..], t) && d[..k] + s[..n] == x + d[..k']
    ensures Conserves(d, k, s, LetThrough(x, n, t))
  {
    var rest := s[n..][..t.used];
    Regroup(x, t.out, d[..t.matched]);
    Regroup(x, d[..k'], rest);
    Regroup(d[..k], s[..n], rest);
    assert s[..n + t.used] == s[..n] + rest;
  }

  lemma {:induction false} ScanConserves(d: bytes, k: nat, s: bytes)
    requires k < |d|
    ensures Conserves(d, k, s, Scan(d, k, s))
    decreases |s|, k
  {
    hide Conserves, LetThrough;
    if s == [] {
      ConservesNothing(d, k);
    } else if s[0] == d[k] && k + 1 == |d| {
      ConservesAll(d, s);
    } else if s[0] == d[k] {
      ScanConserves(d, k + 1, s[1..]);
      assert d[..k] + s[..1] == [] + d[..k + 1];
      ConservesOn(d, k, s, [], 1, k + 1, Scan(d, k + 1, s[1..]));
    } else if k > 0 {
      ScanConserves(d, 0, s);
      assert s[0..] == s && d[..k] + s[..0] == d[..k] + d[..0];
      ConservesOn(d, k, s, d[..k], 0, 0, Scan(d, 0, s));
    } else {
      ScanConserves(d, 0, s[1..]);
      assert d[..0] + s[..1] == [s[0]] + d[..0];
      ConservesOn(d, 0, s, [s[0]], 1, 0, Scan(d, 0, s[1..]));
    }
  }

  lemma ConservesNothing(d: bytes, k: nat)
    requires k < |d|
    ensures Conserves(d, k, [], Scanned([], 0, k, false))
  {
  }

  lemma ConservesAll(d: bytes, s: bytes)
    requires d != [] && s != [] && s[0] == d[|d| - 1]
    ensures Conserves(d, |d| - 1, s, Scanned([], 1, |d|, true))
  {
    assert d[..|d| - 1] + s[..1] == d;
  }

  // ----- When it is right never to go back

  /** The search of s finds the first occurrence, or that there is none. */
  ghost predicate Right(d: bytes, s: bytes)
    requires d != []
  {
    var r := Scan(d, 0, s);
    && (forall p: nat :: FirstAt(d, s, p) ==> r == Scanned(s[..p], p + |d|, |d|, true))
    && ((forall p: nat :: !OccursAt(d, s, p)) ==> !r.found && r.out + d[..r.matched] == s)
  }

  lemma {:induction false} ScanMatches(d: bytes, j: nat, k: nat, x: bytes)
    requires j <= k < |d|
    ensures Scan(d, j, d[j..k] + x) == LetThrough([], k - j, Scan(d, k, x))
    decreases k - j
  {
    if j == k {
      assert d[j..k] + x == x;
      assert [] + Scan(d, k, x).out == Scan(d, k, x).out;
    } else {
      assert (d[j..k] + x)[1..] == d[j + 1..k] + x;
      ScanMatches(d, j + 1, k, x);
    }
  }

  lemma {:induction false} ScanShort(d: bytes, k: nat, s: bytes)
    requires k < |d| && k + |s| < |d|
    ensures !Scan(d, k, s).found
    decreases |s|, k
  {
    if s != [] {
      if s[0] == d[k] {
        ScanShort(d, k + 1, s[1..]);
      } else if k > 0 {
        ScanShort(d, 0, s);
      } else {
        ScanShort(d, 0, s[1..]);
      }
    }
  }

  lemma {:induction false} FirstExists(d: bytes, s: bytes, q: nat) returns (p: nat)
    requires OccursAt(d, s, q)
    ensures p <= q && FirstAt(d, s, p)
    decreases q
  {
    if exists r :: 0 <= r < q && OccursAt(d, s, r) {
      var r :| 0 <= r < q && OccursAt(d, s, r);
      p := FirstExists(d, s, r);
    } else {
      p := q;
    }
  }

  /** Where going back is needed, an occurrence is missed. */
  lemma Missed(d: bytes, b: nat, k: nat)
    requires Borders(d, b, k) && d[b] != d[k]
    ensures !Right(d, d[..k] + d[b..])
  {
    var s := d[..k] + d[b..];
    assert s[k - b..k - b + |d|] == d[k - b..k] + d[b..] == d;
    var p := FirstExists(d, s, k - b);
    assert d[0..k] == d[..k];
    ScanMatches(d, 0, k, d[b..]);
    ScanShort(d, 0, d[b..]);
    assert !Scan(d, k, d[b..]).found;
  }

  /** The search is right for every input exactly if the delimiter never needs one to go back. */
  lemma WhenRight(d: bytes)
    requires d != []
    ensures (forall s :: Right(d, s)) <==> NeedsNoBacktracking(d)
  {
    if NeedsNoBacktracking(d) {
      forall s ensures Right(d, s) {
        assert d[..0] + s == s;
        forall p: nat | FirstAt(d, s, p) ensures Scan(d, 0, s) == Scanned(s[..p], p + |d|, |d|, true) {
          ScanFinds(d, 0, s, p);
        }
        if forall p: nat :: !OccursAt(d, s, p) {
          ScanMisses(d, 0, s);
        }
      }
    } else {
      var b, k :| Borders(d, b, k) && d[b] != d[k];
      Missed(d, b, k);
    }
  }
}
