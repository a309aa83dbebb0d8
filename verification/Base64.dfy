/** Base64 as ccgi writes and reads it (section 4 of RFC 4648). */
module Base64 {
  import opened Bytes
  import opened Options

  /** b64encode: upper-case letters, lower-case letters, digits, plus and slash. */
  function Letter(n: nat): byte
    requires n < 64
  {
    if n < 26 then ('A' as int + n) as char
    else if n < 52 then ('a' as int + n - 26) as char
    else if n < 62 then ('0' as int + n - 52) as char
    else if n == 62 then '+'
    else '/'
  }

  const BAD := 100

  /** b64decode */
  function SixBits(c: byte): (v: nat)
    ensures v < 64 || v == BAD
  {
    if 'A' <= c <= 'Z' then c as int - 'A' as int
    else if 'a' <= c <= 'z' then 26 + c as int - 'a' as int
    else if '0' <= c <= '9' then 52 + c as int - '0' as int
    else if c == '+' then 62
    else if c == '/' then 63
    else BAD
  }

  /** The alphabet in the order of its values (table 1 of RFC 4648). */
  const ALPHABET: bytes := CAPITALS + SMALLS + "0123456789+/"

  lemma LetterAt(n: nat)
    requires n < 64
    ensures |ALPHABET| == 64 && Letter(n) == ALPHABET[n]
  {
    assert ALPHABET[n] == if n < 26 then CAPITALS[n] else if n < 52 then SMALLS[n - 26] else "0123456789+/"[n - 52];
  }

  /** Just the characters of the alphabet have a value, and it is their place. */
  lemma ValueAt(c: byte)
    ensures SixBits(c) == BAD <==> c !in ALPHABET
    ensures c in ALPHABET ==> SixBits(c) < 64 == |ALPHABET| && ALPHABET[SixBits(c)] == c
  {
    hide SixBits, Letter;
    if n :| 0 <= n < |ALPHABET| && ALPHABET[n] == c {
      LetterAt(n);
      AlphabetInverse(n);
    } else if SixBits(c) != BAD {
      HasPlace(c);
    }
  }

  lemma HasPlace(c: byte)
    requires SixBits(c) != BAD
    ensures c in ALPHABET
  {
    hide Letter;
    var v := SixBits(c);
    LetterAt(v);
    LetterOf(c);
    assert ALPHABET[v] == c;
  }

  lemma LetterOf(c: byte)
    requires SixBits(c) != BAD
    ensures Letter(SixBits(c)) == c
  {
  }

  lemma AlphabetInverse(n: nat)
    requires n < 64
    ensures SixBits(Letter(n)) == n
  {
  }

  // ----- What is written

  /** The four values of six bits that three bytes make. */
  function Sixes(a: byte, b: byte, c: byte): (r: seq<nat>)
    ensures |r| == 4 && forall i :: 0 <= i < 4 ==> r[i] < 64
  {
    [a as int / 4, a as int % 4 * 16 + b as int / 16, b as int % 16 * 4 + c as int / 64, c as int % 64]
  }

  function Letters(v: seq<nat>): bytes
    requires forall i :: 0 <= i < |v| ==> v[i] < 64
  {
    seq(|v|, i requires 0 <= i < |v| => Letter(v[i]))
  }

  function Encode(s: bytes): bytes {
    if s == [] then []
    else if |s| == 1 then Letters(Sixes(s[0], '\0', '\0')[..2]) + "=="
    else if |s| == 2 then Letters(Sixes(s[0], s[1], '\0')[..3]) + "="
    else Letters(Sixes(s[0], s[1], s[2])) + Encode(s[3..])
  }

  // ----- What is read

  /** The values of the characters of the alphabet; others are skipped. */
  function Values(t: bytes): (v: seq<nat>)
    ensures forall i :: 0 <= i < |v| ==> v[i] < 64
    ensures |v| <= |t|
  {
    if t == [] then []
    else if SixBits(t[0]) == BAD then Values(t[1..])
    else [SixBits(t[0])] + Values(t[1..])
  }

  /** The three bytes that four values make. */
  function Threes(v: seq<nat>): (r: bytes)
    requires |v| == 4 && forall i :: 0 <= i < 4 ==> v[i] < 64
    ensures |r| == 3
  {
    [(v[0] * 4 + v[1] / 16) as char, (v[1] % 16 * 16 + v[2] / 4) as char, (v[2] % 4 * 64 + v[3]) as char]
  }

  /** The bytes that values make; of those left at the end, only whole bytes. */
  function Whole(v: seq<nat>): bytes
    requires forall i :: 0 <= i < |v| ==> v[i] < 64
  {
    if |v| < 2 then []
    else if |v| == 2 then Threes(v + [0, 0])[..1]
    else if |v| == 3 then Threes(v + [0])[..2]
    else Threes(v[..4]) + Whole(v[4..])
  }

  function Decode(t: bytes): bytes {
    Whole(Values(t))
  }

  // ----- Reading gives back what was written

  /** Quotient and remainder are known from the sum they make. */
  lemma Split(n: nat, m: nat, q: nat, r: nat)
    requires r < m && n == q * m + r
    ensures n / m == q && n % m == r
  {
    var k := n / m;
    assert n == k * m + n % m;
    if k < q {
      Scaled(k + 1, q, m);
    } else if q < k {
      Scaled(q + 1, k, m);
    }
  }

  lemma Scaled(a: nat, b: nat, m: nat)
    requires a <= b
    ensures a * m <= b * m
  {
  }

  lemma ThreesInverse(a: byte, b: byte, c: byte)
    ensures Threes(Sixes(a, b, c)) == [a, b, c]
  {
    BytesBack(a as nat, b as nat, c as nat);
  }

  lemma BytesBack(x: nat, y: nat, z: nat)
    requires x < 256 && y < 256 && z < 256
    ensures x / 4 * 4 + (x % 4 * 16 + y / 16) / 16 == x
    ensures (x % 4 * 16 + y / 16) % 16 * 16 + (y % 16 * 4 + z / 64) / 4 == y
    ensures (y % 16 * 4 + z / 64) % 4 * 64 + z % 64 == z
  {
    Split(x % 4 * 16 + y / 16, 16, x % 4, y / 16);
    Split(y % 16 * 4 + z / 64, 4, y % 16, z / 64);
  }

  lemma {:induction false} ValuesTwice(a: bytes, b: bytes)
    ensures Values(a + b) == Values(a) + Values(b)
  {
    if a == [] {
      assert a + b == b;
    } else {
      assert (a + b)[1..] == a[1..] + b;
      ValuesTwice(a[1..], b);
    }
  }

  lemma {:induction false} ValuesOfLetters(v: seq<nat>)
    requires forall i :: 0 <= i < |v| ==> v[i] < 64
    ensures Values(Letters(v)) == v
  {
    if v != [] {
      AlphabetInverse(v[0]);
      assert Letters(v)[1..] == Letters(v[1..]);
      ValuesOfLetters(v[1..]);
      assert v == [v[0]] + v[1..];
    }
  }

  lemma NoValues()
    ensures Values("=") == [] && Values("==") == []
  {
    assert "="[1..] == [] && "=="[1..] == "=";
  }

  lemma EncodeOne(a: byte)
    ensures Whole(Values(Encode([a]))) == [a]
  {
    hide Letters, Sixes, Threes;
    NoValues();
    var v := Sixes(a, '\0', '\0');
    ValuesTwice(Letters(v[..2]), "==");
    ValuesOfLetters(v[..2]);
    assert Values(Encode([a])) == v[..2];
    PaddingIsZero(a, '\0');
    ThreesInverse(a, '\0', '\0');
  }

  lemma EncodeTwo(a: byte, b: byte)
    ensures Whole(Values(Encode([a, b]))) == [a, b]
  {
    hide Letters, Sixes, Threes;
    NoValues();
    var v := Sixes(a, b, '\0');
    ValuesTwice(Letters(v[..3]), "=");
    ValuesOfLetters(v[..3]);
    assert Values(Encode([a, b])) == v[..3];
    PaddingIsZero(a, b);
    ThreesInverse(a, b, '\0');
  }

  lemma {:induction false} EncodeWhole(s: bytes)
    ensures Whole(Values(Encode(s))) == s
  {
    hide Whole;
    NothingWhole();
    if s == [] {
    } else if |s| == 1 {
      EncodeOne(s[0]);
      assert s == [s[0]];
    } else if |s| == 2 {
      EncodeTwo(s[0], s[1]);
      assert s == [s[0], s[1]];
    } else {
      EncodeStep(s);
      EncodeWhole(s[3..]);
      assert s == [s[0], s[1], s[2]] + s[3..];
    }
  }

  lemma NothingWhole()
    ensures Whole(Values(Encode([]))) == []
  {
  }

  lemma EncodeStep(s: bytes)
    requires |s| >= 3
    ensures Whole(Values(Encode(s))) == [s[0], s[1], s[2]] + Whole(Values(Encode(s[3..])))
  {
    hide Letters, Sixes, Threes;
    var v, rest := Sixes(s[0], s[1], s[2]), Values(Encode(s[3..]));
    ValuesTwice(Letters(v), Encode(s[3..]));
    ValuesOfLetters(v);
    ThreesInverse(s[0], s[1], s[2]);
    assert (v + rest)[..4] == v && (v + rest)[4..] == rest;
  }

  /** The letters of a text, without anything else. */
  ghost function LettersOnly(t: bytes): bytes {
    if t == [] then [] else (if t[0] in ALPHABET then [t[0]] else []) + LettersOnly(t[1..])
  }

  lemma {:induction false} ValuesOfText(t: bytes)
    ensures Values(t) == Values(LettersOnly(t))
  {
    hide SixBits;
    if t != [] {
      var rest := LettersOnly(t[1..]);
      ValueAt(t[0]);
      ValuesOfText(t[1..]);
      if t[0] in ALPHABET {
        assert ([t[0]] + rest)[1..] == rest;
      } else {
        assert [] + rest == rest;
      }
    }
  }

  /** Whatever else stands between the letters, and with or without the padding. */
  lemma RoundTrip(s: bytes, t: bytes)
    ensures LettersOnly(t) == LettersOnly(Encode(s)) ==> Decode(t) == s
  {
    ValuesOfText(t);
    ValuesOfText(Encode(s));
    EncodeWhole(s);
  }

  lemma LettersAt(v: seq<nat>)
    requires |v| == 4 && forall i :: 0 <= i < 4 ==> v[i] < 64
    ensures |ALPHABET| == 64 && Letters(v) == [ALPHABET[v[0]], ALPHABET[v[1]], ALPHABET[v[2]], ALPHABET[v[3]]]
  {
    hide Letter;
    LetterAt(v[0]);
    LetterAt(v[1]);
    LetterAt(v[2]);
    LetterAt(v[3]);
  }

  /** Three bytes are a number of 24 bits, and the letters are its digits to the base 64. */
  lemma ByTheTable(a: byte, b: byte, c: byte)
    ensures var n := a as int * 65536 + b as int * 256 + c as int;
            |ALPHABET| == 64 && Letters(Sixes(a, b, c)) ==
            [ALPHABET[n / 262144 % 64], ALPHABET[n / 4096 % 64], ALPHABET[n / 64 % 64], ALPHABET[n % 64]]
  {
    hide Letters, Sixes;
    SixesOf(a, b, c);
    LettersAt(Sixes(a, b, c));
  }

  lemma SixesOf(a: byte, b: byte, c: byte)
    ensures var n := a as int * 65536 + b as int * 256 + c as int;
            Sixes(a, b, c) == [n / 262144 % 64, n / 4096 % 64, n / 64 % 64, n % 64]
  {
    TopSix(a as int, b as int, c as int);
    SecondSix(a as int, b as int, c as int);
    ThirdSix(a as int, b as int, c as int);
    LastSix(a as int, b as int, c as int);
  }

  lemma PaddingIsZero(a: byte, b: byte)
    ensures Sixes(a, '\0', '\0') == Sixes(a, '\0', '\0')[..2] + [0, 0]
    ensures Sixes(a, b, '\0') == Sixes(a, b, '\0')[..3] + [0]
  {
  }

  // ----- The accumulators

  /** 1 << n */
  function Bit(n: nat): (b: nat)
    ensures b > 0
  {
    if n == 0 then 1 else 2 * Bit(n - 1)
  }

  lemma Bits()
    ensures Bit(0) == 1 && Bit(2) == 4 && Bit(6) == 64 && Bit(8) == 256 && Bit(12) == 4096
    ensures Bit(16) == 65536 && Bit(18) == 262144 && Bit(24) == 16777216
  {
    assert Bit(1) == 2 && Bit(3) == 8 && Bit(4) == 16 && Bit(5) == 32 && Bit(7) == 128 && Bit(10) == 1024;
    assert Bit(14) == 16384 && Bit(20) == 1048576 && Bit(22) == 4194304;
  }

  /** save | x: it is their sum, for save has no bits where x has some. */
  function Or(save: nat, x: nat, above: nat): nat
    requires 0 < above && x < above && save % above == 0
  {
    save + x
  }

  /** Three bytes in the accumulator. */
  function Packed(a: byte, b: byte, c: byte): nat {
    a as int * 65536 + b as int * 256 + c as int
  }

  /** (save >> n) & 077 */
  function SixAt(save: nat, n: nat): (v: nat)
    ensures v < 64
  {
    save / Bit(n) % 64
  }

  lemma TopSix(x: nat, y: nat, z: nat)
    requires x < 256 && y < 256 && z < 256
    ensures (x * 65536 + y * 256 + z) / 262144 % 64 == x / 4
  {
  }

  lemma SecondSix(x: nat, y: nat, z: nat)
    requires x < 256 && y < 256 && z < 256
    ensures (x * 65536 + y * 256 + z) / 4096 % 64 == x % 4 * 16 + y / 16
  {
    Split(x * 65536 + y * 256 + z, 4096, x * 16 + y / 16, y % 16 * 256 + z);
    Split(x * 16 + y / 16, 64, x / 4, x % 4 * 16 + y / 16);
  }

  lemma ThirdSix(x: nat, y: nat, z: nat)
    requires x < 256 && y < 256 && z < 256
    ensures (x * 65536 + y * 256 + z) / 64 % 64 == y % 16 * 4 + z / 64
  {
    var w := x * 1024 + y * 4 + z / 64;
    Split(x * 65536 + y * 256 + z, 64, w, z % 64);
    Split(w, 64, x * 16 + y / 16, y % 16 * 4 + z / 64);
  }

  lemma SixAtEach(a: byte, b: byte, c: byte)
    ensures SixAt(Packed(a, b, c), 18) == a as int / 4
    ensures SixAt(Packed(a, b, c), 12) == a as int % 4 * 16 + b as int / 16
    ensures SixAt(Packed(a, b, c), 6) == b as int % 16 * 4 + c as int / 64
    ensures SixAt(Packed(a, b, c), 0) == c as int % 64
  {
    hide Bit;
    Bits();
    TopSix(a as int, b as int, c as int);
    SecondSix(a as int, b as int, c as int);
    ThirdSix(a as int, b as int, c as int);
    LastSix(a as int, b as int, c as int);
  }

  lemma LastSix(x: nat, y: nat, z: nat)
    requires x < 256 && y < 256 && z < 256
    ensures (x * 65536 + y * 256 + z) % 64 == z % 64
  {
    assert x * 65536 + y * 256 + z == 64 * (x * 1024 + y * 4 + z / 64) + z % 64;
  }

  /** The six-bit values of what three bytes leave in the accumulator. */
  lemma SixesAt(a: byte, b: byte, c: byte)
    ensures Sixes(a, b, c) ==
            [SixAt(Packed(a, b, c), 18), SixAt(Packed(a, b, c), 12), SixAt(Packed(a, b, c), 6), SixAt(Packed(a, b, c), 0)]
  {
    hide SixAt, Packed;
    SixAtEach(a, b, c);
  }

  // ----- Writing

  lemma {:induction false} EncodeLength(s: bytes)
    ensures |Encode(s)| == (|s| + 2) / 3 * 4 && |Encode(s)| < 4 + 4 * |s| / 3
  {
    if |s| > 2 {
      EncodeLength(s[3..]);
    }
  }

  /** The letter for six bits of the accumulator. */
  method PutLetter(out: array<byte>, k: nat, save: nat, n: nat) returns (k': nat)
    requires k < out.Length
    modifies out
    ensures k' == k + 1 && out[..k'] == old(out[..k]) + [Letter(SixAt(save, n))]
  {
    out[k] := Letter(save / Bit(n) % 64);
    k' := k + 1;
  }

  /** Four letters for a full accumulator. */
  method PutFour(out: array<byte>, k: nat, save: nat, ghost a: byte, ghost b: byte, ghost c: byte) returns (k': nat)
    requires k + 4 <= out.Length && save == Packed(a, b, c)
    modifies out
    ensures k' == k + 4 && out[..k'] == old(out[..k]) + Letters(Sixes(a, b, c))
  {
    hide SixAt, Letter, Sixes, Packed;
    SixesAt(a, b, c);
    k' := PutLetter(out, k, save, 18);
    k' := PutLetter(out, k', save, 12);
    k' := PutLetter(out, k', save, 6);
    k' := PutLetter(out, k', save, 0);
  }

  /** The last four characters: letters for what is left, and padding. */
  function Tail(a: byte, b: byte, nbits: nat): (r: bytes)
    requires nbits == 8 || nbits == 16
    ensures |r| == 4
  {
    if nbits == 8 then Letters(Sixes(a, '\0', '\0')[..2]) + "==" else Letters(Sixes(a, b, '\0')[..3]) + "="
  }

  lemma TailAt(a: byte, b: byte, nbits: nat, j: nat)
    requires (nbits == 8 && b == '\0') || nbits == 16
    requires j < 4
    ensures Tail(a, b, nbits)[j] ==
            if nbits - 6 * j > 0 then Letter(SixAt(Packed(a, b, '\0'), 18 - 6 * j)) else '='
  {
    hide SixAt, Letter, Sixes, Packed;
    SixesAt(a, b, '\0');
  }

  method PutRest(out: array<byte>, k: nat, save: nat, nbits: nat, ghost a: byte, ghost b: byte) returns (k': nat)
    requires k + 4 <= out.Length && ((nbits == 8 && b == '\0') || nbits == 16) && save == Packed(a, b, '\0')
    modifies out
    ensures k' == k + 4 && out[..k'] == old(out[..k]) + Tail(a, b, nbits)
  {
    hide SixAt, Letter, Packed, Tail;
    var left: int, i := nbits, 18;
    ghost var tail := Tail(a, b, nbits);
    k' := k;
    while i >= 0
      invariant k <= k' <= k + 4 && i == 18 - 6 * (k' - k)
      invariant left == nbits - 6 * (k' - k) || (left <= 0 && nbits - 6 * (k' - k) <= 0)
      invariant out[..k'] == old(out[..k]) + tail[..k' - k]
    {
      TailAt(a, b, nbits, k' - k);
      assert tail[..k' - k + 1] == tail[..k' - k] + [tail[k' - k]];
      if left > 0 {
        k' := PutLetter(out, k', save, i);
        left := left - 6;
      } else {
        k' := PutPadding(out, k');
      }
      i := i - 6;
    }
  }

  method PutPadding(out: array<byte>, k: nat) returns (k': nat)
    requires k < out.Length
    modifies out
    ensures k' == k + 1 && out[..k'] == old(out[..k]) + "="
  {
    out[k] := '=';
    k' := k + 1;
  }

  /** The accumulator while 0, 1 or 2 bytes of a group are in it. */
  function Begun(x: bytes): nat
    requires |x| < 3
  {
    Packed(if |x| > 0 then x[0] else '\0', if |x| > 1 then x[1] else '\0', '\0')
  }

  /** save |= c << (16 - nbits) */
  function Gather(save: nat, c: byte, nbits: nat): nat
    requires nbits <= 16 && save % Bit(24 - nbits) == 0 && c as int * Bit(16 - nbits) < Bit(24 - nbits)
  {
    Or(save, c as int * Bit(16 - nbits), Bit(24 - nbits))
  }

  lemma GatherOne(x: bytes, c: byte)
    requires |x| < 3
    ensures var n := 8 * |x|;
            && Begun(x) % Bit(24 - n) == 0 && c as int * Bit(16 - n) < Bit(24 - n)
            && Gather(Begun(x), c, n) == if |x| < 2 then Begun(x + [c]) else Packed(x[0], x[1], c)
  {
    hide Bit;
    Bits();
  }

  lemma EncodeGroup(s: bytes, g: nat)
    requires g + 3 <= |s|
    ensures Encode(s[g..]) == Letters(Sixes(s[g], s[g + 1], s[g + 2])) + Encode(s[g + 3..])
    ensures |Encode(s[g..])| == 4 + |Encode(s[g + 3..])|
  {
    assert s[g..][3..] == s[g + 3..];
  }

  /** CGI_encode_base64: NULL for no bytes. */
  method EncodeBase64(s: bytes) returns (out: array?<byte>)
    ensures out == null <==> s == []
    ensures out != null ==> fresh(out) && |Encode(s)| < out.Length == 4 + 4 * |s| / 3
    ensures out != null ==> out[..|Encode(s)|] == Encode(s) && out[|Encode(s)|] == '\0'
  {
    hide Encode, Gather, Begun, Packed, Letters, Sixes, Bit;
    if s == [] {
      return null;
    }
    out := new byte[4 + 4 * |s| / 3];
    EncodeLength(s);
    var save, nbits, k := 0, 0, 0;
    ghost var g := 0;
    assert s[0..] == s;
    GatherNothing();
    for i := 0 to |s|
      invariant nbits == 8 * (i - g) && 0 <= i - g < 3 && save == Begun(s[g..i])
      invariant k + |Encode(s[g..])| == |Encode(s)|
      invariant out[..k] + Encode(s[g..]) == Encode(s)
    {
      GatherOne(s[g..i], s[i]);
      save := Gather(save, s[i], nbits);
      nbits := nbits + 8;
      if nbits == 24 {
        EncodeGroup(s, g);
        k := PutFour(out, k, save, s[g], s[g + 1], s[g + 2]);
        save, nbits, g := 0, 0, i + 1;
        GatherNothing();
        assert s[g..g] == [];
      } else {
        assert s[g..i] + [s[i]] == s[g..i + 1];
      }
    }
    assert s[g..|s|] == s[g..];
    k := PutTail(out, k, save, nbits, s[g..]);
    out[k] := '\0';
  }

  lemma GatherNothing()
    ensures Begun([]) == 0
  {
  }

  /** The bytes that do not fill a group. */
  method PutTail(out: array<byte>, k: nat, save: nat, nbits: nat, ghost rest: bytes) returns (k': nat)
    requires |rest| < 3 && nbits == 8 * |rest| && save == Begun(rest) && k + |Encode(rest)| <= out.Length
    modifies out
    ensures k' == k + |Encode(rest)| && out[..k'] == old(out[..k]) + Encode(rest)
  {
    k' := k;
    if nbits > 0 {
      k' := PutRest(out, k, save, nbits, rest[0], if |rest| > 1 then rest[1] else '\0');
    }
  }

  // ----- Reading

  /** Four values in the accumulator. */
  function Joined(a: nat, b: nat, c: nat, d: nat): nat {
    a * 262144 + b * 4096 + c * 64 + d
  }

  /** The accumulator while fewer than four values of a group are in it. */
  function Started(v: seq<nat>): nat
    requires |v| < 4
  {
    Joined(if |v| > 0 then v[0] else 0, if |v| > 1 then v[1] else 0, if |v| > 2 then v[2] else 0, 0)
  }

  /** There is room for six more bits where they go. */
  predicate Accepts(save: nat, x: nat, nbits: nat) {
    nbits <= 18 && save % Bit(24 - nbits) == 0 && x * Bit(18 - nbits) < Bit(24 - nbits)
  }

  /** save |= sixbits << (18 - nbits) */
  function Accept(save: nat, x: nat, nbits: nat): nat
    requires Accepts(save, x, nbits)
  {
    Or(save, x * Bit(18 - nbits), Bit(24 - nbits))
  }

  lemma AcceptFirst(x: nat)
    requires x < 64
    ensures Accepts(0, x, 0) && Accept(0, x, 0) == Joined(x, 0, 0, 0)
  {
    hide Bit;
    Bits();
  }

  lemma AcceptSecond(a: nat, x: nat)
    requires x < 64
    ensures Accepts(Joined(a, 0, 0, 0), x, 6) && Accept(Joined(a, 0, 0, 0), x, 6) == Joined(a, x, 0, 0)
  {
    hide Bit;
    Bits();
  }

  lemma AcceptThird(a: nat, b: nat, x: nat)
    requires x < 64
    ensures Accepts(Joined(a, b, 0, 0), x, 12) && Accept(Joined(a, b, 0, 0), x, 12) == Joined(a, b, x, 0)
  {
    hide Bit;
    Bits();
  }

  lemma AcceptFourth(a: nat, b: nat, c: nat, x: nat)
    requires x < 64
    ensures Accepts(Joined(a, b, c, 0), x, 18) && Accept(Joined(a, b, c, 0), x, 18) == Joined(a, b, c, x)
  {
    hide Bit;
    Bits();
  }

  lemma AcceptOne(v: seq<nat>, x: nat)
    requires |v| < 4 && x < 64
    ensures var n := 6 * |v|;
            && Accepts(Started(v), x, n)
            && Accept(Started(v), x, n) == if |v| < 3 then Started(v + [x]) else Joined(v[0], v[1], v[2], x)
  {
    hide Bit, Accept, Accepts, Joined;
    if |v| == 0 {
      AcceptFirst(x);
      JoinedNothing();
    } else if |v| == 1 {
      AcceptSecond(v[0], x);
    } else if |v| == 2 {
      AcceptThird(v[0], v[1], x);
    } else {
      AcceptFourth(v[0], v[1], v[2], x);
    }
  }

  lemma JoinedNothing()
    ensures Joined(0, 0, 0, 0) == 0
  {
  }

  /** (unsigned char) (save >> n) */
  function ByteAt(save: nat, n: nat): byte {
    (save / Bit(n) % 256) as char
  }

  lemma BytesAt(a: nat, b: nat, c: nat, d: nat)
    requires a < 64 && b < 64 && c < 64 && d < 64
    ensures var save := Joined(a, b, c, d);
            Threes([a, b, c, d]) == [ByteAt(save, 16), ByteAt(save, 8), ByteAt(save, 0)]
  {
    hide Bit, Joined;
    Bits();
    FirstByte(a, b, c, d);
    SecondByte(a, b, c, d);
    ThirdByte(a, b, c, d);
  }

  lemma FirstByte(a: nat, b: nat, c: nat, d: nat)
    requires a < 64 && b < 64 && c < 64 && d < 64
    ensures Joined(a, b, c, d) / 65536 % 256 == a * 4 + b / 16
  {
    Split(Joined(a, b, c, d), 65536, a * 4 + b / 16, b % 16 * 4096 + c * 64 + d);
  }

  lemma SecondByte(a: nat, b: nat, c: nat, d: nat)
    requires a < 64 && b < 64 && c < 64 && d < 64
    ensures Joined(a, b, c, d) / 256 % 256 == b % 16 * 16 + c / 4
  {
    var w := a * 1024 + b * 16 + c / 4;
    Split(Joined(a, b, c, d), 256, w, c % 4 * 64 + d);
    Split(w, 256, a * 4 + b / 16, b % 16 * 16 + c / 4);
  }

  lemma ThirdByte(a: nat, b: nat, c: nat, d: nat)
    requires c < 64 && d < 64
    ensures Joined(a, b, c, d) % 256 == c % 4 * 64 + d
  {
    Split(Joined(a, b, c, d), 256, a * 1024 + b * 16 + c / 4, c % 4 * 64 + d);
  }

  method PutByte(out: array<byte>, k: nat, save: nat, n: nat) returns (k': nat)
    requires k < out.Length
    modifies out
    ensures k' == k + 1 && out[..k'] == old(out[..k]) + [ByteAt(save, n)]
  {
    out[k] := (save / Bit(n) % 256) as char;
    k' := k + 1;
  }

  /** Three bytes for a full accumulator. */
  method PutThree(out: array<byte>, k: nat, save: nat, ghost v: seq<nat>) returns (k': nat)
    requires k + 3 <= out.Length && |v| == 4 && (forall i :: 0 <= i < 4 ==> v[i] < 64)
    requires save == Joined(v[0], v[1], v[2], v[3])
    modifies out
    ensures k' == k + 3 && out[..k'] == old(out[..k]) + Threes(v)
  {
    hide ByteAt, Threes, Joined;
    BytesAt(v[0], v[1], v[2], v[3]);
    assert v == [v[0], v[1], v[2], v[3]];
    k' := PutByte(out, k, save, 16);
    k' := PutByte(out, k', save, 8);
    k' := PutByte(out, k', save, 0);
  }

  lemma WholeOfTwo(a: nat, b: nat)
    requires a < 64 && b < 64
    ensures Whole([a, b]) == [ByteAt(Joined(a, b, 0, 0), 16)]
  {
    hide ByteAt, Threes, Joined;
    BytesAt(a, b, 0, 0);
    assert [a, b] + [0, 0] == [a, b, 0, 0];
  }

  lemma WholeOfThree(a: nat, b: nat, c: nat)
    requires a < 64 && b < 64 && c < 64
    ensures Whole([a, b, c]) == [ByteAt(Joined(a, b, c, 0), 16), ByteAt(Joined(a, b, c, 0), 8)]
  {
    hide ByteAt, Threes, Joined;
    BytesAt(a, b, c, 0);
    assert [a, b, c] + [0] == [a, b, c, 0];
  }

  lemma WholeRest(v: seq<nat>)
    requires |v| < 4 && forall i :: 0 <= i < |v| ==> v[i] < 64
    ensures Whole(v) == if |v| < 2 then []
                        else if |v| == 2 then [ByteAt(Started(v), 16)]
                        else [ByteAt(Started(v), 16), ByteAt(Started(v), 8)]
  {
    hide ByteAt, Joined, Whole;
    if |v| < 2 {
      WholeOfNone(v);
    } else if |v| == 2 {
      assert v == [v[0], v[1]];
      WholeOfTwo(v[0], v[1]);
    } else {
      assert v == [v[0], v[1], v[2]];
      WholeOfThree(v[0], v[1], v[2]);
    }
  }

  lemma WholeOfNone(v: seq<nat>)
    requires |v| < 2 && forall i :: 0 <= i < |v| ==> v[i] < 64
    ensures Whole(v) == []
  {
  }

  /** The whole bytes among the bits that are left. */
  method PutWhole(out: array<byte>, k: nat, save: nat, nbits: nat, ghost v: seq<nat>) returns (k': nat)
    requires k + 2 <= out.Length && |v| < 4 && (forall i :: 0 <= i < |v| ==> v[i] < 64)
    requires nbits == 6 * |v| && save == Started(v)
    modifies out
    ensures k' == k + |Whole(v)| <= k + 2 && out[..k'] == old(out[..k]) + Whole(v)
  {
    hide ByteAt, Started, Whole;
    WholeRest(v);
    k' := k;
    var left, i := nbits, 16;
    while i >= 0 && left >= 8
      invariant k <= k' <= k + 2 && i == 16 - 8 * (k' - k) && left == nbits - 8 * (k' - k)
      invariant k' - k <= |Whole(v)| && out[..k'] == old(out[..k]) + Whole(v)[..k' - k]
    {
      k' := PutByte(out, k', save, i);
      left := left - 8;
      i := i - 8;
    }
  }

  lemma ValuesStep(t: bytes, i: nat)
    requires i < |t|
    ensures Values(t[i..]) == (if SixBits(t[i]) == BAD then [] else [SixBits(t[i])]) + Values(t[i + 1..])
  {
    assert t[i..][1..] == t[i + 1..];
  }

  lemma WholeGroup(v: seq<nat>, rest: seq<nat>)
    requires |v| == 4 && (forall i :: 0 <= i < |v| ==> v[i] < 64) && forall i :: 0 <= i < |rest| ==> rest[i] < 64
    ensures Whole(v + rest) == Threes(v) + Whole(rest)
  {
    assert (v + rest)[..4] == v && (v + rest)[4..] == rest;
  }

  method PutGroup(out: array<byte>, k: nat, save: nat, ghost v: seq<nat>, ghost rest: seq<nat>) returns (k': nat)
    requires k + 3 <= out.Length && |v| == 4 && (forall i :: 0 <= i < 4 ==> v[i] < 64)
    requires save == Joined(v[0], v[1], v[2], v[3]) && forall i :: 0 <= i < |rest| ==> rest[i] < 64
    modifies out
    ensures k' == k + 3 && out[..k'] + Whole([] + rest) == old(out[..k]) + Whole(v + rest) && Started([]) == 0
  {
    hide Whole, Joined, Threes;
    WholeGroup(v, rest);
    StartedNothing();
    assert [] + rest == rest;
    k' := PutThree(out, k, save, v);
  }

  /** CGI_decode_base64: NULL for NULL; a NUL is written behind the len bytes. */
  method DecodeBase64(p: Option<bytes>) returns (out: array?<byte>, len: nat)
    ensures out == null <==> p.None?
    ensures p.Some? ==> fresh(out) && len == |Decode(p.value)| < out.Length == 3 + 3 * |p.value| / 4
    ensures p.Some? ==> out[..len] == Decode(p.value) && out[len] == '\0'
  {
    hide Whole, Values, Accept, Accepts, Started, Joined, Threes, Bit, SixBits;
    len := 0;
    if p.None? {
      return null, 0;
    }
    var t := p.value;
    out := new byte[3 + 3 * |t| / 4];
    var save, nbits, k := 0, 0, 0;
    ghost var v: seq<nat> := [];
    assert t[0..] == t && [] + Values(t) == Values(t);
    StartedNothing();
    for i := 0 to |t|
      invariant |v| < 4 && (forall j :: 0 <= j < |v| ==> v[j] < 64) && nbits == 6 * |v| && save == Started(v)
      invariant k % 3 == 0 && k / 3 * 4 + |v| <= i
      invariant out[..k] + Whole(v + Values(t[i..])) == Decode(t)
    {
      ValuesStep(t, i);
      if SixBits(t[i]) != BAD {
        var x := SixBits(t[i]);
        AcceptOne(v, x);
        assert v + ([x] + Values(t[i + 1..])) == v + [x] + Values(t[i + 1..]);
        v := v + [x];
        save := Accept(save, x, nbits);
        nbits := nbits + 6;
        if nbits == 24 {
          k := PutGroup(out, k, save, v, Values(t[i + 1..]));
          nbits, save, v := 0, 0, [];
        }
      } else {
        assert [] + Values(t[i + 1..]) == Values(t[i + 1..]);
      }
    }
    NoneLeft(t, v);
    k := PutWhole(out, k, save, nbits, v);
    out[k] := '\0';
    len := k;
  }

  lemma StartedNothing()
    ensures Started([]) == 0
  {
  }

  lemma NoneLeft(t: bytes, v: seq<nat>)
    ensures v + Values(t[|t|..]) == v
  {
  }
}
