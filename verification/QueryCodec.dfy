/**
 Writing a list of variables as a query string into exactly the memory it takes, and reading one.
 */
module QueryCodec {
  import opened Bytes
  import opened Options
  import opened QuerySpec
  import opened Sequences
  import opened VarLists

  lemma EncodeRest(s: bytes, keep: bytes, i: nat)
    requires i < |s|
    ensures Encode(s[i..], keep) == EncodeByte(s[i], keep) + Encode(s[i + 1..], keep)
  {
    assert s[i..][1..] == s[i + 1..];
  }

  /** urlcount: the length of the encoded string. */
  method UrlCount(s: bytes, keep: bytes) returns (k: nat)
    ensures k == |Encode(s, keep)|
  {
    k := 0;
    for i := 0 to |s|
      invariant k + |Encode(s[i..], keep)| == |Encode(s, keep)|
    {
      EncodeRest(s, keep, i);
      if IsAlnum(s[i]) || s[i] == ' ' || s[i] in keep {
        k := k + 1;
      } else {
        k := k + 3;
      }
    }
  }

  method EncodeInto(c: byte, out: array<byte>, p: nat, keep: bytes) returns (end: nat)
    requires p + |EncodeByte(c, keep)| <= out.Length
    modifies out
    ensures end == p + |EncodeByte(c, keep)| && out[..end] == old(out[..p]) + EncodeByte(c, keep)
  {
    if IsAlnum(c) || c in keep {
      out[p] := c;
      end := p + 1;
    } else if c == ' ' {
      out[p] := '+';
      end := p + 1;
    } else {
      out[p] := '%';
      out[p + 1] := HEXDIGIT[c as int / 16];
      out[p + 2] := HEXDIGIT[c as int % 16];
      end := p + 3;
    }
  }

  /** urlencode: writes from p on, and a NUL behind, and returns where that is. */
  method UrlEncode(s: bytes, out: array<byte>, p: nat, keep: bytes) returns (end: nat)
    requires p + |Encode(s, keep)| < out.Length
    modifies out
    ensures end == p + |Encode(s, keep)|
    ensures out[..end] == old(out[..p]) + Encode(s, keep) && out[end] == '\0'
  {
    hide EncodeByte, Encode;
    EncodeNothing(keep);
    end := p;
    assert s[0..] == s;
    for i := 0 to |s|
      invariant end + |Encode(s[i..], keep)| == p + |Encode(s, keep)|
      invariant out[..end] + Encode(s[i..], keep) == old(out[..p]) + Encode(s, keep)
    {
      EncodeRest(s, keep, i);
      end := EncodeInto(s[i], out, end, keep);
    }
    assert s[|s|..] == [];
    out[end] := '\0';
  }

  lemma EncodeNothing(keep: bytes)
    ensures Encode([], keep) == []
  {
  }

  // ----- Lists

  /** What the encoder reckons for pairs. */
  function Reckoned(pairs: seq<Pair>, keep: bytes): nat {
    if pairs == [] then 0
    else 2 + |Encode(pairs[0].0, keep)| + |Encode(pairs[0].1, keep)| + Reckoned(pairs[1..], keep)
  }

  lemma {:induction false} ReckonedTwice(a: seq<Pair>, b: seq<Pair>, keep: bytes)
    ensures Reckoned(a + b, keep) == Reckoned(a, keep) + Reckoned(b, keep)
  {
    if a == [] {
      assert a + b == b;
    } else {
      assert (a + b)[1..] == a[1..] + b;
      ReckonedTwice(a[1..], b, keep);
    }
  }

  /** It is what they take, with a NUL at the end. */
  lemma {:induction false} ReckonedExactly(pairs: seq<Pair>, keep: bytes)
    ensures pairs != [] ==> Reckoned(pairs, keep) == |EncodePairs(pairs, keep)| + 1
  {
    if |pairs| == 1 {
      assert Reckoned(pairs[1..], keep) == 0;
    } else if |pairs| > 1 {
      ReckonedExactly(pairs[1..], keep);
    }
  }

  lemma {:induction false} EncodePairsTwice(a: seq<Pair>, b: seq<Pair>, keep: bytes)
    ensures EncodePairs(a + b, keep) ==
            EncodePairs(a, keep) + (if a != [] && b != [] then "&" else []) + EncodePairs(b, keep)
  {
    hide EncodePair;
    if a == [] {
      assert a + b == b;
    } else if b == [] {
      assert a + b == a;
    } else {
      assert (a + b)[1..] == a[1..] + b;
      EncodePairsTwice(a[1..], b, keep);
    }
  }

  lemma {:induction false} PairsTwice(a: seq<Var>, b: seq<Var>)
    ensures Pairs(a + b) == Pairs(a) + Pairs(b)
  {
    if a == [] {
      assert a + b == b;
    } else {
      assert (a + b)[1..] == a[1..] + b;
      PairsTwice(a[1..], b);
    }
  }

  /** The first i variables and the next one. */
  lemma PairsStep(vars: seq<Var>, i: nat)
    requires i < |vars|
    ensures Pairs(vars[..i + 1]) == Pairs(vars[..i]) + PairsOfVar(vars[i])
  {
    hide PairsOfVar;
    PairsTwice(vars[..i], [vars[i]]);
    PairsOfOne(vars[i]);
    assert vars[..i + 1] == vars[..i] + [vars[i]];
  }

  lemma PairsOfOne(x: Var)
    ensures Pairs([x]) == PairsOfVar(x)
  {
    assert [x][1..] == [];
  }

  /** The first i variables and the others. */
  lemma PairsSplit(vars: seq<Var>, i: nat)
    requires i <= |vars|
    ensures Pairs(vars) == Pairs(vars[..i]) + Pairs(vars[i..])
  {
    hide PairsOfVar;
    assert vars == vars[..i] + vars[i..];
    PairsTwice(vars[..i], vars[i..]);
  }

  lemma PairsOfVarStep(x: Var, i: nat)
    requires i < |x.values|
    ensures PairsOfVar(x)[i] == (x.name, x.values[i])
    ensures PairsOfVar(x)[..i + 1] == PairsOfVar(x)[..i] + [(x.name, x.values[i])]
  {
  }

  lemma ReckonedOne(p: Pair, keep: bytes)
    ensures Reckoned([p], keep) == 2 + |Encode(p.0, keep)| + |Encode(p.1, keep)|
  {
    assert [p][1..] == [];
  }

  /** The inner loop over the values of an entry, while reckoning. */
  method ReckonEntry(e: Entry, keep: bytes) returns (k: nat)
    requires e.Valid()
    ensures k == Reckoned(PairsOfVar(e.View()), keep)
  {
    hide PairsOfVar, Reckoned, Encode;
    k := 0;
    ghost var x, i := e.View(), 0;
    ReckonedNone(x, keep);
    var value: Val? := e.value;
    while value != null
      invariant i <= |e.vals| && value == if i < |e.vals| then e.vals[i] else null
      invariant k == Reckoned(PairsOfVar(x)[..i], keep)
      decreases |e.vals| - i
    {
      PairsOfVarStep(x, i);
      ReckonedTwice(PairsOfVar(x)[..i], [(x.name, x.values[i])], keep);
      ReckonedOne((x.name, x.values[i]), keep);
      var n := UrlCount(e.name, keep);
      var m := UrlCount(value.value, keep);
      k := k + 2 + n + m;
      e.Following(i);
      value, i := value.next, i + 1;
    }
  }

  lemma ReckonedNone(x: Var, keep: bytes)
    ensures Reckoned(PairsOfVar(x)[..0], keep) == 0
    ensures |PairsOfVar(x)| == |x.values| && PairsOfVar(x)[..|x.values|] == PairsOfVar(x)
  {
  }

  lemma EncodePairsOne(done: seq<Pair>, p: Pair, keep: bytes)
    ensures EncodePairs(done + [p], keep) ==
            EncodePairs(done, keep) + (if done == [] then [] else "&") + EncodePair(p, keep)
    ensures done == [] <==> EncodePairs(done, keep) == []
  {
    EncodePairsTwice(done, [p], keep);
    if done != [] {
      assert '=' in EncodePair(done[0], keep);
    }
  }

  /** One pair behind those written. */
  method WritePair(name: bytes, value: bytes, out: array<byte>, p: nat, ghost done: seq<Pair>, keep: bytes)
    returns (end: nat)
    requires p <= out.Length && out[..p] == EncodePairs(done, keep)
    requires |EncodePairs(done + [(name, value)], keep)| < out.Length
    modifies out
    ensures end < out.Length && out[..end] == EncodePairs(done + [(name, value)], keep)
  {
    hide Encode;
    EncodePairsOne(done, (name, value), keep);
    end := p;
    if end != 0 {
      out[end] := '&';
      end := end + 1;
    }
    ghost var start := out[..end];
    end := UrlEncode(name, out, end, keep);
    ghost var before := out[..end];
    out[end] := '=';
    end := end + 1;
    assert out[..end] == before + "=";
    end := UrlEncode(value, out, end, keep);
    PairText(start, name, value, keep);
  }

  lemma PairText(start: bytes, name: bytes, value: bytes, keep: bytes)
    ensures start + Encode(name, keep) + "=" + Encode(value, keep) == start + EncodePair((name, value), keep)
  {
    hide Encode;
  }

  /** The inner loop over the values of an entry, while writing. */
  method WriteEntry(e: Entry, out: array<byte>, p: nat, ghost done: seq<Pair>, keep: bytes) returns (end: nat)
    requires e.Valid() && e.vector as object? != out
    requires p < out.Length && out[..p] == EncodePairs(done, keep)
    requires |EncodePairs(done + PairsOfVar(e.View()), keep)| < out.Length
    modifies out
    ensures end < out.Length && out[..end] == EncodePairs(done + PairsOfVar(e.View()), keep)
  {
    hide EncodePairs;
    end := p;
    ghost var all, i := PairsOfVar(e.View()), 0;
    var value: Val? := e.value;
    assert done + all[..0] == done;
    while value != null
      invariant e.Valid() && i <= |e.vals| && value == if i < |e.vals| then e.vals[i] else null
      invariant end < out.Length && out[..end] == EncodePairs(done + all[..i], keep)
      decreases |e.vals| - i
    {
      PairsOfVarStep(e.View(), i);
      assert done + all[..i + 1] == done + all[..i] + [all[i]];
      assert done + all == done + all[..i + 1] + all[i + 1..];
      EncodePairsTwice(done + all[..i + 1], all[i + 1..], keep);
      end := WritePair(e.name, value.value, out, end, done + all[..i], keep);
      e.Following(i);
      value, i := value.next, i + 1;
    }
    assert all[..i] == all;
  }


  lemma Entering(v: VarList, a: nat)
    requires v.Valid() && a < |v.spine|
    ensures v.spine[a].Valid() && v.spine[a] in v.repr && (v.spine[a].vector == null || v.spine[a].vector in v.repr)
    ensures v.spine[a].next == if a + 1 < |v.spine| then v.spine[a + 1] else null
    ensures v.Contents()[a] == v.spine[a].View() && v.Contents()[a].values != []
  {
    assert v.spine[a] in v.spine;
    if a + 1 < |v.spine| {
      assert v.spine[a + 1] in v.spine;
    }
  }

  lemma PairsOfVarNonempty(x: Var, keep: bytes)
    requires x.values != []
    ensures PairsOfVar(x) != [] && Reckoned(PairsOfVar(x), keep) > 0
  {
  }

  /** The first of the two loops: how much memory it takes. */
  method ReckonList(v: VarList, keep: bytes) returns (k: nat)
    requires v.Valid()
    ensures k == if v.Contents() == [] then 0 else |EncodePairs(Pairs(v.Contents()), keep)| + 1
  {
    hide Entry.Valid, PairsOfVar, Linked, NoRepeats, VarList.Entries, Proper;
    k := 0;
    ghost var vars, a := v.Contents(), 0;
    var e := v.first;
    FirstOf(v);
    while e != null
      invariant a <= |vars| && e == if a < |vars| then v.spine[a] else null
      invariant k == Reckoned(Pairs(vars[..a]), keep)
      decreases |vars| - a
    {
      Entering(v, a);
      PairsStep(vars, a);
      ReckonedTwice(Pairs(vars[..a]), PairsOfVar(vars[a]), keep);
      var n := ReckonEntry(e, keep);
      k := k + n;
      e, a := e.next, a + 1;
    }
    assert vars[..a] == vars;
    if vars != [] {
      Entering(v, 0);
      PairsOfVarNonempty(vars[0], keep);
    }
    ReckonedExactly(Pairs(vars), keep);
  }

  lemma FirstOf(v: VarList)
    requires v.Valid()
    ensures v.first == (if v.Contents() == [] then null else v.spine[0]) && |v.Contents()| == |v.spine|
  {
  }

  /** The second: the pairs are written, and a NUL behind them, which is the last byte. */
  method WriteList(v: VarList, out: array<byte>, keep: bytes)
    requires v.Valid() && v.Contents() != [] && v as object != out && out !in v.repr
    requires out.Length == |EncodePairs(Pairs(v.Contents()), keep)| + 1
    modifies out
    ensures out[..] == EncodePairs(Pairs(v.Contents()), keep) + ['\0']
  {
    hide Entry.Valid, PairsOfVar, Linked, NoRepeats, VarList.Entries, Proper, EncodePairs;
    var p: nat := 0;
    ghost var vars, a := v.Contents(), 0;
    var e := v.first;
    FirstOf(v);
    NoPairs(vars, keep);
    while e != null
      invariant v.Valid() && v.Contents() == vars
      invariant a <= |vars| && e == if a < |vars| then v.spine[a] else null
      invariant p < out.Length && out[..p] == EncodePairs(Pairs(vars[..a]), keep)
      decreases |vars| - a
    {
      Entering(v, a);
      PairsStep(vars, a);
      PairsSplit(vars, a + 1);
      EncodePairsTwice(Pairs(vars[..a + 1]), Pairs(vars[a + 1..]), keep);
      p := WriteEntry(e, out, p, Pairs(vars[..a]), keep);
      e, a := e.next, a + 1;
    }
    assert vars[..a] == vars;
    out[p] := '\0';
    assert out[..] == out[..p] + ['\0'];
  }

  lemma NoPairs(vars: seq<Var>, keep: bytes)
    ensures EncodePairs(Pairs(vars[..0]), keep) == []
  {
  }

  /** CGI_encode_varlist: as much memory as was reckoned is written, and no more. */
  method EncodeVarlist(v: VarList, keep: bytes) returns (out: array?<byte>)
    requires v.Valid()
    ensures out == null <==> v.Contents() == []
    ensures out != null ==> fresh(out) && out[..] == EncodePairs(Pairs(v.Contents()), keep) + ['\0']
  {
    hide VarList.Valid;
    var k := ReckonList(v, keep);
    if k == 0 {
      return null;
    }
    out := new byte[k];
    WriteList(v, out, keep);
  }

  // ----- Reading

  /** The buffer while a pair is read: a name that is complete, with its NUL, and what was collected since. */
  ghost function Held(name: Option<bytes>, cur: bytes): bytes {
    if name.Some? then name.value + ['\0'] + cur else cur
  }

  lemma {:induction false} CStringStops(s: bytes, n: nat)
    requires n < |s| && s[n] == '\0'
    ensures CString(s) == CString(s[..n])
  {
    if n > 0 {
      assert s[..n][1..] == s[1..][..n - 1];
      CStringStops(s[1..], n - 1);
    }
  }

  /** The C string that starts at an address. */
  method TextAt(buf: array<byte>, at: nat) returns (s: bytes)
    requires at < buf.Length && '\0' in buf[at..]
    ensures s == CString(buf[at..])
  {
    hide CString;
    ghost var n :| at <= n < buf.Length && buf[n] == '\0';
    var i := at;
    s := [];
    while buf[i] != '\0'
      invariant at <= i <= n && s + CString(buf[i..]) == CString(buf[at..])
      decreases n - i
    {
      CStringStep(buf[i..]);
      assert buf[i..][1..] == buf[i + 1..];
      s := s + [buf[i]];
      i := i + 1;
    }
    CStringStep(buf[i..]);
  }

  lemma CStringStep(s: bytes)
    requires s != []
    ensures CString(s) == if s[0] == '\0' then [] else [s[0]] + CString(s[1..])
  {
  }

  lemma Elsewhere(v: VarList, o: object)
    requires v.Valid() && o !in v.repr
    ensures o !in v.spine
  {
    v.AllOwned();
  }

  /** The two C strings in the buffer at the end of a pair. */
  lemma TwoTexts(s: bytes, k: nat, at: nat, name: Option<bytes>, cur: bytes)
    requires k < |s| && s[k] == '\0' && s[..k] == Held(name, cur)
    requires at == if name.Some? then |name.value| + 1 else k
    ensures '\0' in s[0..] && '\0' in s[at..]
    ensures CString(s[0..]) == CString(if name.Some? then name.value else cur)
    ensures CString(s[at..]) == if name.Some? then CString(cur) else []
  {
    assert s[0..] == s && s[at..][k - at] == '\0';
    CStringStops(s[at..], k - at);
    if name.Some? {
      var n := |name.value|;
      assert s[n] == s[..k][n] == '\0' && s[..n] == s[..k][..n] == name.value;
      CStringStops(s, n);
      assert s[at..][..k - at] == s[..k][at..] == cur;
    } else {
      CStringStops(s, k);
    }
  }

  /** The end of a pair: its name and its value are added, if there is something. */
  method FinishPair(v: VarList, buf: array<byte>, k: nat, named: bool, valueAt: nat,
                    ghost name: Option<bytes>, ghost cur: bytes)
    requires v.Valid() && buf !in v.repr && v as object != buf
    requires k < buf.Length && buf[..k] == Held(name, cur)
    requires named == name.Some? && (named ==> valueAt == |name.value| + 1)
    modifies v, v.repr, buf
    ensures v.Valid() && fresh(v.repr - old(v.repr)) && v.Contents() == EndPair(old(v.Contents()), name, cur)
    ensures buf !in v.repr
  {
    hide VarList.Valid, Add, CString;
    ghost var held := buf[..k];
    Elsewhere(v, buf);
    buf[k] := '\0';
    assert buf[..k] == held;
    assert v.Valid();
    var at := if !named && k > 0 then k else valueAt;
    if named || k > 0 {
      TwoTexts(buf[..], k, at, name, cur);
      var n := TextAt(buf, 0);
      var x := TextAt(buf, at);
      v.AddVar(Some(n), Some(x));
    }
  }

  lemma HeldName(name: bytes)
    ensures Held(None, name + ['\0']) == Held(Some(name), []) && |Held(None, name)| == |name| && Held(None, []) == []
  {
  }

  /** query[i], which is NUL at the end. */
  function At(query: bytes, i: nat): byte {
    if i < |query| then query[i] else '\0'
  }

  /** One more character of the pair. */
  method Put(buf: array<byte>, k: nat, c: byte, ghost name: Option<bytes>, ghost cur: bytes) returns (n: nat)
    requires k < buf.Length && buf[..k] == Held(name, cur)
    modifies buf
    ensures n == k + 1 && buf[..n] == Held(name, cur + [c])
  {
    buf[k] := c;
    n := k + 1;
    assert buf[..n] == Held(name, cur) + [c] == Held(name, cur + [c]);
  }

  /** What is left of the query is decoded character by character. */
  lemma DecodeStep(vars: seq<Var>, q: bytes, i: nat, name: Option<bytes>, cur: bytes)
    requires i <= |q|
    ensures var d := Decode(vars, q[i..], name, cur);
            if i == |q| then d == EndPair(vars, name, cur)
            else if q[i] == '=' && name.None? then
              d == if cur == [] then Decode(vars, q[i + 1..], None, []) else Decode(vars, q[i + 1..], Some(cur), [])
            else if q[i] == '&' then d == Decode(EndPair(vars, name, cur), q[i + 1..], None, [])
            else if q[i] == '+' then d == Decode(vars, q[i + 1..], name, cur + " ")
            else if q[i] == '%' && i + 2 < |q| && Hex(q[i + 1]) >= 0 && Hex(q[i + 2]) >= 0 then
              d == Decode(vars, q[i + 3..], name, cur + [(Hex(q[i + 1]) * 16 + Hex(q[i + 2])) as char])
            else d == Decode(vars, q[i + 1..], name, cur + [q[i]])
  {
    var s := q[i..];
    if i < |q| {
      assert s[1..] == q[i + 1..];
      if i + 2 < |q| {
        assert s[3..] == q[i + 3..];
      }
    }
  }

  /** CGI_decode_query */
  method DecodeQuery(v: VarList, query: Option<bytes>)
    requires v.Valid() && (query.Some? ==> NoNul(query.value))
    modifies v, v.repr
    ensures v.Valid() && fresh(v.repr - old(v.repr))
    ensures v.Contents() == if query.None? then old(v.Contents()) else QuerySpec.DecodeQuery(old(v.Contents()), query.value)
  {
    hide VarList.Valid, EndPair, VarList.Contents, Decode, Held;
    if query.None? {
      return;
    }
    var q := query.value;
    var buf := new byte[|q| + 1];
    var i, k, named, valueAt, done := 0, 0, false, 0, false;
    ghost var name: Option<bytes>, cur: bytes, goal := None, [], QuerySpec.DecodeQuery(v.Contents(), q);
    assert q[0..] == q;
    HeldName([]);
    while !done
      invariant v.Valid() && fresh(v.repr - old(v.repr)) && buf !in v.repr && fresh(buf)
      invariant k <= i && (done ==> v.Contents() == goal)
      invariant !done ==> i <= |q| && buf[..k] == Held(name, cur)
      invariant !done ==> named == name.Some? && (named ==> valueAt == |name.value| + 1)
      invariant !done ==> Decode(v.Contents(), q[i..], name, cur) == goal
      decreases if done then 0 else 1, |q| - i
    {
      DecodeStep(v.Contents(), q, i, name, cur);
      var c := At(q, i);
      if c == '=' && !named {
        HeldName(cur);
        if k > 0 {
          k := Put(buf, k, '\0', name, cur);
          name, cur := Some(cur), [];
          named, valueAt := true, k;
        }
        i := i + 1;
      } else if i == |q| || c == '&' {
        done := i == |q|;
        FinishPair(v, buf, k, named, valueAt, name, cur);
        name, cur := None, [];
        i, k, named, valueAt := i + 1, 0, false, 0;
      } else if c == '+' {
        k := Put(buf, k, ' ', name, cur);
        cur := cur + " ";
        i := i + 1;
      } else if c == '%' && Hex(At(q, i + 1)) >= 0 && Hex(At(q, i + 2)) >= 0 {
        var x := (Hex(At(q, i + 1)) * 16 + Hex(At(q, i + 2))) as char;
        k := Put(buf, k, x, name, cur);
        cur := cur + [x];
        i := i + 3;
      } else {
        k := Put(buf, k, c, name, cur);
        cur := cur + [c];
        i := i + 1;
      }
    }
  }
}
