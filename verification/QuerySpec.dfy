/**
 Lists of variables with their values, and the query strings that carry them.
 */
module QuerySpec {
  import opened Bytes
  import opened Options

  // ----- Lists of variables

  /** A variable and its values, in the order in which they were added. */
  datatype Var = Var(name: bytes, values: seq<bytes>)

  /** Where the variable of a name stands; the length of the list if there is none. */
  function Position(vars: seq<Var>, name: bytes): (p: nat)
    ensures p <= |vars| && (p < |vars| ==> vars[p].name == name)
    ensures forall i :: 0 <= i < p ==> vars[i].name != name
  {
    if vars == [] then 0 else if vars[0].name == name then 0 else 1 + Position(vars[1..], name)
  }

  /** One more value: for the variable of that name, or for a new one at the end. */
  function Add(vars: seq<Var>, name: bytes, value: bytes): seq<Var> {
    var p := Position(vars, name);
    if p < |vars| then vars[p := Var(name, vars[p].values + [value])] else vars + [Var(name, [value])]
  }

  /** Names differ, and every variable has a value. */
  ghost predicate Proper(vars: seq<Var>) {
    && (forall i, j :: 0 <= i < j < |vars| ==> vars[i].name != vars[j].name)
    && (forall i :: 0 <= i < |vars| ==> vars[i].values != [])
  }

  /** Names and values are what C strings can hold. */
  ghost predicate Texts(vars: seq<Var>) {
    forall x :: x in vars ==> NoNul(x.name) && forall v :: v in x.values ==> NoNul(v)
  }

  ghost predicate Named(vars: seq<Var>) {
    forall x :: x in vars ==> x.name != []
  }

  lemma AddIsProper(vars: seq<Var>, name: bytes, value: bytes)
    requires Proper(vars)
    ensures Proper(Add(vars, name, value))
  {
  }

  /** A name and one value of it. */
  type Pair = (bytes, bytes)

  function AddAll(vars: seq<Var>, pairs: seq<Pair>): seq<Var>
    decreases |pairs|
  {
    if pairs == [] then vars else AddAll(Add(vars, pairs[0].0, pairs[0].1), pairs[1..])
  }

  function PairsOfVar(x: Var): seq<Pair> {
    seq(|x.values|, i requires 0 <= i < |x.values| => (x.name, x.values[i]))
  }

  /** All names with all values, in order. */
  function Pairs(vars: seq<Var>): seq<Pair> {
    if vars == [] then [] else PairsOfVar(vars[0]) + Pairs(vars[1..])
  }

  lemma {:induction false} AddAllTwice(vars: seq<Var>, a: seq<Pair>, b: seq<Pair>)
    ensures AddAll(vars, a + b) == AddAll(AddAll(vars, a), b)
    decreases |a|
  {
    if a == [] {
      assert a + b == b;
    } else {
      assert (a + b)[1..] == a[1..] + b;
      AddAllTwice(Add(vars, a[0].0, a[0].1), a[1..], b);
    }
  }

  lemma {:induction false} PositionAfter(done: seq<Var>, more: seq<Var>, name: bytes)
    requires forall x :: x in done ==> x.name != name
    ensures Position(done + more, name) == |done| + Position(more, name)
  {
    if done == [] {
      assert done + more == more;
    } else {
      assert done[0] in done && (done + more)[1..] == done[1..] + more;
      PositionAfter(done[1..], more, name);
    }
  }

  lemma AddLast(done: seq<Var>, name: bytes, had: seq<bytes>, value: bytes)
    requires forall x :: x in done ==> x.name != name
    ensures Add(done + [Var(name, had)], name, value) == done + [Var(name, had + [value])]
  {
    PositionAfter(done, [Var(name, had)], name);
  }

  /** Values of one more variable, added after the list and those already there. */
  lemma {:induction false} AddValues(done: seq<Var>, name: bytes, had: seq<bytes>, more: seq<bytes>)
    requires had != [] && forall x :: x in done ==> x.name != name
    ensures AddAll(done + [Var(name, had)], PairsOfVar(Var(name, more))) == done + [Var(name, had + more)]
    decreases |more|
  {
    hide Add;
    var vars, pairs := done + [Var(name, had)], PairsOfVar(Var(name, more));
    if more == [] {
      assert had + more == had;
    } else {
      AddLast(done, name, had, more[0]);
      assert pairs[1..] == PairsOfVar(Var(name, more[1..]));
      AddValues(done, name, had + [more[0]], more[1..]);
      assert had + [more[0]] + more[1..] == had + more;
    }
  }

  lemma AddVariable(done: seq<Var>, x: Var)
    requires x.values != [] && forall y :: y in done ==> y.name != x.name
    ensures AddAll(done, PairsOfVar(x)) == done + [x]
  {
    var pairs := PairsOfVar(x);
    PositionAfter(done, [], x.name);
    assert done + [] == done;
    assert pairs[1..] == PairsOfVar(Var(x.name, x.values[1..]));
    AddValues(done, x.name, [x.values[0]], x.values[1..]);
    assert [x.values[0]] + x.values[1..] == x.values;
  }

  /** Adding all values of a list one by one makes that list. */
  lemma {:induction false} Rebuilt(done: seq<Var>, todo: seq<Var>)
    requires Proper(done + todo)
    ensures AddAll(done, Pairs(todo)) == done + todo
    decreases |todo|
  {
    hide Proper, Add, PairsOfVar, AddAll;
    if todo == [] {
      assert done + todo == done;
      NothingAdded(done);
    } else {
      var x, rest := todo[0], todo[1..];
      assert done + [x] + rest == done + todo;
      NewName(done, x, rest);
      AddVariable(done, x);
      AddAllTwice(done, PairsOfVar(x), Pairs(rest));
      Rebuilt(done + [x], rest);
    }
  }

  lemma NothingAdded(vars: seq<Var>)
    ensures AddAll(vars, Pairs([])) == vars
  {
  }

  lemma NewName(done: seq<Var>, x: Var, rest: seq<Var>)
    requires Proper(done + [x] + rest)
    ensures x.values != [] && forall y :: y in done ==> y.name != x.name
  {
    var all := done + [x] + rest;
    assert all[|done|] == x;
    forall y | y in done ensures y.name != x.name {
      var i :| 0 <= i < |done| && done[i] == y;
      assert all[i] == y;
    }
  }

  // ----- URL encoding

  predicate IsAlnum(c: byte) {
    '0' <= c <= '9' || 'A' <= c <= 'Z' || 'a' <= c <= 'z'
  }

  const HEXDIGIT: bytes := "0123456789ABCDEF"

  function EncodeByte(c: byte, keep: bytes): bytes {
    if IsAlnum(c) || c in keep then [c]
    else if c == ' ' then "+"
    else ['%', HEXDIGIT[c as int / 16], HEXDIGIT[c as int % 16]]
  }

  function Encode(s: bytes, keep: bytes): bytes {
    if s == [] then [] else EncodeByte(s[0], keep) + Encode(s[1..], keep)
  }

  function EncodePair(p: Pair, keep: bytes): bytes {
    Encode(p.0, keep) + "=" + Encode(p.1, keep)
  }

  /** name1=value1&name2=value2 and so on */
  function EncodePairs(pairs: seq<Pair>, keep: bytes): bytes {
    if pairs == [] then []
    else if |pairs| == 1 then EncodePair(pairs[0], keep)
    else EncodePair(pairs[0], keep) + "&" + EncodePairs(pairs[1..], keep)
  }

  // ----- Decoding

  /** hex */
  function Hex(c: byte): (v: int)
    ensures -1 <= v < 16
  {
    if '0' <= c <= '9' then c as int - '0' as int
    else if 'A' <= c <= 'F' then 10 + c as int - 'A' as int
    else if 'a' <= c <= 'f' then 10 + c as int - 'a' as int
    else -1
  }

  predicate IsEscape(q: bytes) {
    |q| >= 3 && q[0] == '%' && Hex(q[1]) >= 0 && Hex(q[2]) >= 0
  }

  /** What a C string function sees of the bytes: those before the first NUL. */
  function CString(s: bytes): bytes {
    if s == [] || s[0] == '\0' then [] else [s[0]] + CString(s[1..])
  }

  /** At the end of a pair: without a name there is none, or what was collected is the name. */
  function EndPair(vars: seq<Var>, name: Option<bytes>, cur: bytes): seq<Var> {
    if name.Some? then Add(vars, CString(name.value), CString(cur))
    else if cur != [] then Add(vars, CString(cur), [])
    else vars
  }

  /** Goes on decoding, with the name if it is complete, and what was collected since. */
  function Decode(vars: seq<Var>, q: bytes, name: Option<bytes>, cur: bytes): seq<Var>
    decreases |q|
  {
    if q == [] then EndPair(vars, name, cur)
    else if q[0] == '=' && name.None? then
      if cur == [] then Decode(vars, q[1..], None, []) else Decode(vars, q[1..], Some(cur), [])
    else if q[0] == '&' then Decode(EndPair(vars, name, cur), q[1..], None, [])
    else if q[0] == '+' then Decode(vars, q[1..], name, cur + " ")
    else if IsEscape(q) then Decode(vars, q[3..], name, cur + [(Hex(q[1]) * 16 + Hex(q[2])) as char])
    else Decode(vars, q[1..], name, cur + [q[0]])
  }

  function DecodeQuery(vars: seq<Var>, query: bytes): seq<Var> {
    Decode(vars, query, None, [])
  }

  // ----- What is encoded is decoded again

  /** The characters with a meaning in a query are not kept as they are. */
  ghost predicate Clean(keep: bytes) {
    '&' !in keep && '=' !in keep && '+' !in keep && '%' !in keep
  }

  lemma HexDigits(n: nat)
    requires n < 16
    ensures Hex(HEXDIGIT[n]) == n
  {
  }

  /** What a byte is encoded as: itself, a plus for a space, or its number in two digits. */
  lemma ByteEncoded(c: byte, keep: bytes)
    ensures EncodeByte(c, keep) ==
            if c in CAPITALS || c in SMALLS || c in "0123456789" || c in keep then [c]
            else if c == ' ' then "+"
            else ['%', UPPER_DIGITS[c as int / 16], UPPER_DIGITS[c as int % 16]]
  {
    Capital(c);
    Small(c);
    if '0' <= c <= '9' {
      assert c == "0123456789"[c as int - '0' as int];
    }
  }

  lemma DigitValue(n: nat)
    requires n < 16
    ensures Hex(LOWER_DIGITS[n]) == n && Hex(UPPER_DIGITS[n]) == n
  {
  }

  lemma DigitsAre(c: byte)
    ensures Hex(c) != -1 <==> IsHexDigit(c)
  {
    var v := Hex(c);
    if v != -1 {
      assert c == LOWER_DIGITS[v] || c == UPPER_DIGITS[v];
    }
  }

  /** An escape stands for its byte, whatever the case of its digits; what is not followed by two digits is no escape. */
  lemma EscapeRead(vars: seq<Var>, h: byte, l: byte, rest: bytes, name: Option<bytes>, cur: bytes)
    ensures forall n: nat :: n < 256 && (h == LOWER_DIGITS[n / 16] || h == UPPER_DIGITS[n / 16])
                             && (l == LOWER_DIGITS[n % 16] || l == UPPER_DIGITS[n % 16]) ==>
                               Decode(vars, ['%', h, l] + rest, name, cur) == Decode(vars, rest, name, cur + [n as char])
    ensures !(IsHexDigit(h) && IsHexDigit(l)) ==>
              Decode(vars, ['%', h, l] + rest, name, cur) == Decode(vars, [h, l] + rest, name, cur + "%")
  {
    hide Decode, Hex, EndPair, IsHexDigit;
    DigitsAre(h);
    DigitsAre(l);
    PercentRead(vars, h, l, rest, name, cur);
    forall n: nat | n < 256 && (h == LOWER_DIGITS[n / 16] || h == UPPER_DIGITS[n / 16])
                    && (l == LOWER_DIGITS[n % 16] || l == UPPER_DIGITS[n % 16])
      ensures Hex(h) == n / 16 && Hex(l) == n % 16
    {
      DigitValue(n / 16);
      DigitValue(n % 16);
    }
  }

  lemma PercentRead(vars: seq<Var>, h: byte, l: byte, rest: bytes, name: Option<bytes>, cur: bytes)
    ensures Decode(vars, ['%', h, l] + rest, name, cur) ==
            if Hex(h) >= 0 && Hex(l) >= 0 then Decode(vars, rest, name, cur + [(Hex(h) * 16 + Hex(l)) as char])
            else Decode(vars, [h, l] + rest, name, cur + "%")
  {
    hide Hex, EndPair;
    var q := ['%', h, l] + rest;
    assert q[3..] == rest && q[1..] == [h, l] + rest;
  }

  lemma DecodeByte(vars: seq<Var>, c: byte, keep: bytes, rest: bytes, name: Option<bytes>, cur: bytes)
    requires Clean(keep)
    ensures Decode(vars, EncodeByte(c, keep) + rest, name, cur) == Decode(vars, rest, name, cur + [c])
  {
    var e := EncodeByte(c, keep);
    var q := e + rest;
    assert q[|e|..] == rest;
    if |e| == 3 {
      HexDigits(c as int / 16);
      HexDigits(c as int % 16);
    }
  }

  lemma {:induction false} DecodeText(vars: seq<Var>, s: bytes, keep: bytes, rest: bytes, name: Option<bytes>, cur: bytes)
    requires Clean(keep)
    ensures Decode(vars, Encode(s, keep) + rest, name, cur) == Decode(vars, rest, name, cur + s)
    decreases s
  {
    if s == [] {
      assert Encode(s, keep) + rest == rest && cur + s == cur;
    } else {
      var e := EncodeByte(s[0], keep);
      assert Encode(s, keep) + rest == e + (Encode(s[1..], keep) + rest);
      DecodeByte(vars, s[0], keep, Encode(s[1..], keep) + rest, name, cur);
      DecodeText(vars, s[1..], keep, rest, name, cur + [s[0]]);
      assert cur + [s[0]] + s[1..] == cur + s;
    }
  }

  lemma {:induction false} CStringWhole(s: bytes)
    requires NoNul(s)
    ensures CString(s) == s
  {
    if s != [] {
      CStringWhole(s[1..]);
    }
  }

  /** The pair that comes back: without a name, a value passes for one. */
  function Survivor(p: Pair): seq<Pair> {
    if p.0 != [] then [p] else if p.1 != [] then [(p.1, [])] else []
  }

  function Survivors(pairs: seq<Pair>): seq<Pair> {
    if pairs == [] then [] else Survivor(pairs[0]) + Survivors(pairs[1..])
  }

  ghost predicate TextPair(p: Pair) {
    NoNul(p.0) && NoNul(p.1)
  }

  /** After a pair, at an ampersand or at the end. */
  lemma DecodePair(vars: seq<Var>, p: Pair, keep: bytes, rest: bytes)
    requires Clean(keep) && TextPair(p) && (rest == [] || rest[0] == '&')
    ensures Decode(vars, EncodePair(p, keep) + rest, None, []) ==
            if rest == [] then AddAll(vars, Survivor(p)) else Decode(AddAll(vars, Survivor(p)), rest[1..], None, [])
  {
    hide Encode, Add;
    var tail := Encode(p.1, keep) + rest;
    assert EncodePair(p, keep) + rest == Encode(p.0, keep) + ("=" + tail);
    DecodeText(vars, p.0, keep, "=" + tail, None, []);
    assert [] + p.0 == p.0 && ("=" + tail)[1..] == tail;
    var name := if p.0 == [] then None else Some(p.0);
    assert Decode(vars, "=" + tail, None, p.0) == Decode(vars, tail, name, []);
    DecodeText(vars, p.1, keep, rest, name, []);
    assert [] + p.1 == p.1;
    CStringWhole(p.0);
    CStringWhole(p.1);
    AddOne(vars, p);
  }

  lemma AddOne(vars: seq<Var>, p: Pair)
    ensures AddAll(vars, [p]) == Add(vars, p.0, p.1) && AddAll(vars, []) == vars
  {
    assert [p][1..] == [];
  }

  /** The pairs come back in order. */
  lemma {:induction false} DecodePairs(vars: seq<Var>, pairs: seq<Pair>, keep: bytes)
    requires Clean(keep) && forall p :: p in pairs ==> TextPair(p)
    ensures DecodeQuery(vars, EncodePairs(pairs, keep)) == AddAll(vars, Survivors(pairs))
    decreases |pairs|
  {
    hide EncodePair, TextPair, Survivor, Add;
    if pairs == [] {
    } else if |pairs| == 1 {
      assert TextPair(pairs[0]);
      DecodePair(vars, pairs[0], keep, []);
      assert EncodePair(pairs[0], keep) + [] == EncodePair(pairs[0], keep);
      assert Survivors(pairs) == Survivor(pairs[0]) + Survivors([]) == Survivor(pairs[0]);
    } else {
      assert TextPair(pairs[0]);
      var rest := "&" + EncodePairs(pairs[1..], keep);
      DecodePair(vars, pairs[0], keep, rest);
      assert EncodePair(pairs[0], keep) + rest == EncodePairs(pairs, keep);
      assert rest[1..] == EncodePairs(pairs[1..], keep);
      DecodePairs(AddAll(vars, Survivor(pairs[0])), pairs[1..], keep);
      AddAllTwice(vars, Survivor(pairs[0]), Survivors(pairs[1..]));
    }
  }

  lemma {:induction false} AllSurvive(pairs: seq<Pair>)
    requires forall p :: p in pairs ==> p.0 != []
    ensures Survivors(pairs) == pairs
  {
    if pairs != [] {
      AllSurvive(pairs[1..]);
      assert pairs == [pairs[0]] + pairs[1..];
    }
  }

  lemma {:induction false} PairsAreOf(vars: seq<Var>, p: Pair)
    requires p in Pairs(vars)
    ensures exists x :: x in vars && p.0 == x.name && p.1 in x.values
  {
    if p in PairsOfVar(vars[0]) {
      assert vars[0] in vars;
    } else {
      PairsAreOf(vars[1..], p);
    }
  }

  lemma PairsAreTexts(vars: seq<Var>)
    requires Texts(vars)
    ensures forall p :: p in Pairs(vars) ==> TextPair(p)
  {
    forall p | p in Pairs(vars) ensures TextPair(p) {
      PairsAreOf(vars, p);
    }
  }

  lemma PairsAreNamed(vars: seq<Var>)
    requires Named(vars)
    ensures forall p :: p in Pairs(vars) ==> p.0 != []
  {
    forall p | p in Pairs(vars) ensures p.0 != [] {
      PairsAreOf(vars, p);
    }
  }

  /** Nothing that survives is without a name. */
  lemma {:induction false} SurvivorsNamed(pairs: seq<Pair>)
    ensures forall p :: p in Survivors(pairs) ==> p.0 != []
  {
    if pairs != [] {
      SurvivorsNamed(pairs[1..]);
    }
  }

  lemma {:induction false} AddAllNamed(vars: seq<Var>, pairs: seq<Pair>)
    requires Named(vars) && forall p :: p in pairs ==> p.0 != []
    ensures Named(AddAll(vars, pairs))
    decreases |pairs|
  {
    if pairs != [] {
      assert pairs[0] in pairs;
      AddAllNamed(Add(vars, pairs[0].0, pairs[0].1), pairs[1..]);
    }
  }

  ghost predicate RoundTrips(vars: seq<Var>, keep: bytes) {
    DecodeQuery([], EncodePairs(Pairs(vars), keep)) == vars
  }

  /** Encoding and then decoding gives the list back exactly if no name is empty. */
  lemma RoundTrip(vars: seq<Var>, keep: bytes)
    requires Clean(keep) && Proper(vars) && Texts(vars)
    ensures RoundTrips(vars, keep) <==> Named(vars)
  {
    PairsAreTexts(vars);
    DecodePairs([], Pairs(vars), keep);
    if Named(vars) {
      PairsAreNamed(vars);
      AllSurvive(Pairs(vars));
      assert [] + vars == vars;
      Rebuilt([], vars);
    } else {
      SurvivorsNamed(Pairs(vars));
      AddAllNamed([], Survivors(Pairs(vars)));
    }
  }

  /** That holds for the characters to keep exactly if none of them has a meaning. */
  lemma KeepMatters(keep: bytes)
    ensures (forall vars :: Proper(vars) && Texts(vars) && Named(vars) ==> RoundTrips(vars, keep)) <==> Clean(keep)
  {
    forall vars | Clean(keep) && Proper(vars) && Texts(vars) && Named(vars) ensures RoundTrips(vars, keep) {
      RoundTrip(vars, keep);
    }
    if !Clean(keep) {
      var name := if '&' in keep then "&" else if '=' in keep then "=" else if '+' in keep then "+" else "%41";
      KeptNameLost(name, keep);
      assert Proper([Var(name, [[]])]) && Texts([Var(name, [[]])]) && Named([Var(name, [[]])]);
    }
  }

  lemma {:induction false} EncodeKept(s: bytes, keep: bytes)
    requires forall c :: c in s ==> IsAlnum(c) || c in keep
    ensures Encode(s, keep) == s
  {
    if s != [] {
      EncodeKept(s[1..], keep);
      assert s == [s[0]] + s[1..];
    }
  }

  lemma LastName(cur: bytes)
    ensures Decode([], "=", None, cur) == if cur == [] then [] else [Var(CString(cur), [[]])]
  {
    assert "="[1..] == [];
    assert Decode([], "=", None, cur) == Decode([], [], if cur == [] then None else Some(cur), []);
  }

  lemma KeptNameLost(name: bytes, keep: bytes)
    requires name in ["&", "=", "+", "%41"] && name[0] in keep
    ensures !RoundTrips([Var(name, [[]])], keep)
  {
    var x := Var(name, [[]]);
    var q := name + "=";
    assert Pairs([x]) == [(name, [])] by { assert [x][1..] == []; }
    EncodeKept(name, keep);
    assert EncodePairs([(name, [])], keep) == q;
    KeptNameDecoded(name);
  }

  /** The name that comes back, if one does. */
  lemma KeptNameDecoded(name: bytes)
    requires name in ["&", "=", "+", "%41"]
    ensures DecodeQuery([], name + "=") == if name == "+" then [Var(" ", [[]])] else if name == "%41" then [Var("A", [[]])] else []
  {
    var q := name + "=";
    assert q[|name|..] == "=";
    LastName([]);
    LastName(" ");
    LastName("A");
    CStringWhole(" ");
    CStringWhole("A");
    assert [] + " " == " " && [] + "A" == "A";
    if name == "%41" {
      assert IsEscape(q);
    }
  }
}
