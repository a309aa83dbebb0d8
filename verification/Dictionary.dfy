/**
 The dictionary of iniparser: three parallel arrays of keys, values and hashes with holes in them.
 It behaves as a map from keys to values, where a value may be NULL.
 */
module Dictionaries {
  import opened Bytes
  import opened Options

  const DICTMINSZ := 128

  // ----- Hashing

  /** A char is signed: those from 128 on are sign-extended. */
  function Unsigned(c: byte): bv32 {
    if c as int < 128 then c as int as bv32 else (c as int + 0xFFFF_FF00) as bv32
  }

  function Mix(hash: bv32, c: byte): bv32 {
    var h := hash + Unsigned(c);
    var g := h + (h << 10);
    g ^ (g >> 6)
  }

  function MixAll(key: bytes): bv32 {
    if key == [] then 0 else Mix(MixAll(key[..|key| - 1]), key[|key| - 1])
  }

  function Finish(hash: bv32): bv32 {
    var h := hash + (hash << 3);
    var g := h ^ (h >> 11);
    g + (g << 15)
  }

  function HashOf(key: bytes): bv32 {
    Finish(MixAll(key))
  }

  /** dictionary_hash */
  method Hash(key: bytes) returns (hash: bv32)
    ensures hash == HashOf(key)
  {
    hide Mix, Finish;
    hash := 0;
    for i := 0 to |key|
      invariant hash == MixAll(key[..i])
    {
      assert key[..i + 1][..i] == key[..i];
      hash := Mix(hash, key[i]);
    }
    assert key[..|key|] == key;
    hash := Finish(hash);
  }

  // ----- Slots

  /** No key has two slots. */
  ghost predicate Unique(keys: seq<Option<bytes>>) {
    forall i, j :: 0 <= i < j < |keys| && keys[i].Some? ==> keys[i] != keys[j]
  }

  ghost function Occupied(keys: seq<Option<bytes>>): set<int> {
    set i | 0 <= i < |keys| && keys[i].Some?
  }

  ghost function KeysOf(keys: seq<Option<bytes>>): set<bytes> {
    set i | 0 <= i < |keys| && keys[i].Some? :: keys[i].value
  }

  /** There are as many occupied slots as keys. */
  lemma {:induction false} SlotsAndKeys(keys: seq<Option<bytes>>)
    requires Unique(keys)
    ensures |Occupied(keys)| == |KeysOf(keys)|
  {
    if keys != [] {
      var rest := keys[..|keys| - 1];
      SlotsAndKeys(rest);
      LastSlot(keys);
      assert keys[|keys| - 1].Some? ==> keys[|keys| - 1] !in rest;
    }
  }

  lemma LastSlot(keys: seq<Option<bytes>>)
    requires keys != []
    ensures var n := |keys| - 1;
            && Occupied(keys) == Occupied(keys[..n]) + (if keys[n].Some? then {n} else {})
            && KeysOf(keys) == KeysOf(keys[..n]) + (if keys[n].Some? then {keys[n].value} else {})
  {
    var n := |keys| - 1;
    forall k | k in KeysOf(keys) ensures k in KeysOf(keys[..n]) + (if keys[n].Some? then {keys[n].value} else {}) {
      var i :| 0 <= i < |keys| && keys[i].Some? && keys[i].value == k;
      assert i < n ==> keys[..n][i] == keys[i];
    }
    forall k | k in KeysOf(keys[..n]) ensures k in KeysOf(keys) {
      var i :| 0 <= i < n && keys[..n][i].Some? && keys[..n][i].value == k;
      assert keys[i].value == k;
    }
  }

  lemma {:induction false} AllOccupied(keys: seq<Option<bytes>>)
    requires forall i :: 0 <= i < |keys| ==> keys[i].Some?
    ensures |Occupied(keys)| == |keys|
  {
    if keys != [] {
      var n := |keys| - 1;
      AllOccupied(keys[..n]);
      assert Occupied(keys) == Occupied(keys[..n]) + {n};
    }
  }

  /** The slots hold the map: every entry in one slot, with its hash, and the empty slots are cleared. */
  ghost predicate Holds(keys: seq<Option<bytes>>, vals: seq<Option<bytes>>, hashes: seq<bv32>,
                        m: map<bytes, Option<bytes>>)
  {
    && |keys| == |vals| == |hashes| && Unique(keys)
    && (forall i :: 0 <= i < |keys| && keys[i].Some? ==>
          keys[i].value in m && m[keys[i].value] == vals[i] && hashes[i] == HashOf(keys[i].value))
    && (forall k :: k in m ==> exists i :: 0 <= i < |keys| && keys[i] == Some(k))
    && (forall i :: 0 <= i < |keys| && keys[i].None? ==> vals[i].None? && hashes[i] == 0)
  }

  lemma HoldsNothing(n: nat)
    ensures Holds(Empty(n), Empty(n), seq(n, _ => 0), map[])
  {
  }

  function Empty(n: nat): seq<Option<bytes>> {
    seq(n, _ => None)
  }

  /** Longer arrays of which the rest is clear hold the same. */
  lemma HoldsLonger(keys: seq<Option<bytes>>, vals: seq<Option<bytes>>, hashes: seq<bv32>,
                    m: map<bytes, Option<bytes>>, n: nat)
    requires Holds(keys, vals, hashes, m)
    ensures Holds(keys + Empty(n), vals + Empty(n), hashes + seq(n, _ => 0), m)
  {
    hide HashOf;
    var longer := keys + Empty(n);
    forall k | k in m ensures exists i :: 0 <= i < |longer| && longer[i] == Some(k) {
      var i :| 0 <= i < |keys| && keys[i] == Some(k);
      assert longer[i] == Some(k);
    }
  }

  lemma HoldsReplaced(keys: seq<Option<bytes>>, vals: seq<Option<bytes>>, hashes: seq<bv32>,
                      m: map<bytes, Option<bytes>>, i: nat, v: Option<bytes>)
    requires Holds(keys, vals, hashes, m) && i < |keys| && keys[i].Some?
    ensures Holds(keys, vals[i := v], hashes, m[keys[i].value := v]) && keys[i].value in m
  {
    hide HashOf;
    forall k | k in m[keys[i].value := v] ensures exists j :: 0 <= j < |keys| && keys[j] == Some(k) {
      assert keys[i] == Some(keys[i].value);
    }
  }

  lemma HoldsAdded(keys: seq<Option<bytes>>, vals: seq<Option<bytes>>, hashes: seq<bv32>,
                   m: map<bytes, Option<bytes>>, i: nat, k: bytes, v: Option<bytes>)
    requires Holds(keys, vals, hashes, m) && i < |keys| && keys[i].None? && k !in m
    ensures Holds(keys[i := Some(k)], vals[i := v], hashes[i := HashOf(k)], m[k := v])
  {
    hide HashOf;
    var after := keys[i := Some(k)];
    forall x | x in m[k := v] ensures exists j :: 0 <= j < |after| && after[j] == Some(x) {
      if x == k {
        assert after[i] == Some(x);
      } else {
        var j :| 0 <= j < |keys| && keys[j] == Some(x);
        assert after[j] == Some(x);
      }
    }
  }

  lemma HoldsRemoved(keys: seq<Option<bytes>>, vals: seq<Option<bytes>>, hashes: seq<bv32>,
                     m: map<bytes, Option<bytes>>, i: nat)
    requires Holds(keys, vals, hashes, m) && i < |keys| && keys[i].Some?
    ensures Holds(keys[i := None], vals[i := None], hashes[i := 0], m - {keys[i].value}) && keys[i].value in m
  {
    hide HashOf;
    var after := keys[i := None];
    forall x | x in m - {keys[i].value} ensures exists j :: 0 <= j < |after| && after[j] == Some(x) {
      var j :| 0 <= j < |keys| && keys[j] == Some(x);
      assert after[j] == Some(x);
    }
  }

  /** There are as many occupied slots as entries. */
  lemma CountsSlots(keys: seq<Option<bytes>>, vals: seq<Option<bytes>>, hashes: seq<bv32>, m: map<bytes, Option<bytes>>)
    requires Holds(keys, vals, hashes, m)
    ensures |m| == |Occupied(keys)|
    ensures |m| < |keys| ==> exists i :: 0 <= i < |keys| && keys[i].None?
  {
    hide HashOf;
    SlotsAndKeys(keys);
    assert KeysOf(keys) == m.Keys by {
      forall k | k in m ensures k in KeysOf(keys) {
        var i :| 0 <= i < |keys| && keys[i] == Some(k);
      }
    }
    if forall i :: 0 <= i < |keys| ==> keys[i].Some? {
      AllOccupied(keys);
    }
  }

  lemma SlotHolds(keys: seq<Option<bytes>>, vals: seq<Option<bytes>>, hashes: seq<bv32>, m: map<bytes, Option<bytes>>,
                  i: nat, k: bytes)
    requires Holds(keys, vals, hashes, m) && i < |keys|
    ensures keys[i] == Some(k) ==> hashes[i] == HashOf(k) && k in m && m[k] == vals[i]
  {
    hide HashOf;
  }

  lemma NoSlotHolds(keys: seq<Option<bytes>>, vals: seq<Option<bytes>>, hashes: seq<bv32>, m: map<bytes, Option<bytes>>, k: bytes)
    requires Holds(keys, vals, hashes, m) && forall i :: 0 <= i < |keys| ==> keys[i] != Some(k)
    ensures k !in m
  {
    hide HashOf;
  }

  class Dictionary {
    var n: nat
    var size: nat
    var key: array<Option<bytes>>
    var val: array<Option<bytes>>
    var hash: array<bv32>
    /** The map that the arrays hold. */
    ghost var contents: map<bytes, Option<bytes>>

    ghost predicate Valid()
      reads this, key, val, hash
    {
      && DICTMINSZ <= size && n <= size && n == |contents| && key != val && key as object != hash && val as object != hash
      && key.Length == size && val.Length == size && hash.Length == size
      && Holds(key[..], val[..], hash[..], contents)
    }

    /** dictionary_new */
    constructor (size: nat)
      ensures Valid() && contents == map[] && fresh(key) && fresh(val) && fresh(hash)
      ensures this.size == if size < DICTMINSZ then DICTMINSZ else size
    {
      var m := if size < DICTMINSZ then DICTMINSZ else size;
      n, this.size, contents := 0, m, map[];
      key := new Option<bytes>[m](_ => None);
      val := new Option<bytes>[m](_ => None);
      hash := new bv32[m](_ => 0);
      new;
      HoldsNothing(m);
      assert key[..] == Empty(m) && val[..] == Empty(m) && hash[..] == seq(m, _ => 0);
    }

    /** Below its size, the dictionary has an empty slot. */
    lemma HasEmptySlot() returns (e: nat)
      requires Valid() && n < size
      ensures e < size && key[e].None?
    {
      hide Holds;
      CountsSlots(key[..], val[..], hash[..], contents);
      e :| 0 <= e < size && key[..][e].None?;
    }

    /**
     The scan that get, set and unset begin with: the slot of a key, or size.  Comparing hashes first skips no
     key.
     */
    method Find(k: bytes) returns (i: nat)
      requires Valid()
      ensures i <= size && (i < size ==> key[i] == Some(k) && k in contents) && (i == size ==> k !in contents)
    {
      hide HashOf, Holds;
      var h := Hash(k);
      i := 0;
      while i < size
        invariant i <= size && forall j :: 0 <= j < i ==> key[..][j] != Some(k)
      {
        SlotHolds(key[..], val[..], hash[..], contents, i, k);
        if key[i].Some? && h == hash[i] && k == key[i].value {
          return;
        }
        assert key[..][i] != Some(k);
        i := i + 1;
      }
      NoSlotHolds(key[..], val[..], hash[..], contents, k);
    }

    /** dictionary_get */
    method Get(k: bytes, def: Option<bytes>) returns (r: Option<bytes>)
      requires Valid()
      ensures r == if k in contents then contents[k] else def
    {
      hide HashOf, Holds;
      var i := Find(k);
      if i < size {
        SlotHolds(key[..], val[..], hash[..], contents, i, k);
        r := val[i];
      } else {
        r := def;
      }
    }

    /** dictionary_grow; `allocates` is whether the three allocations succeed. */
    method Grow(allocates: bool) returns (ok: bool)
      requires Valid()
      modifies this`size, this`key, this`val, this`hash
      ensures Valid() && ok == allocates
      ensures ok ==> size == 2 * old(size) && fresh(key) && fresh(val) && fresh(hash)
      ensures !ok ==> unchanged(this)
    {
      hide Holds;
      if !allocates {
        return false;
      }
      HoldsLonger(key[..], val[..], hash[..], contents, size);
      key := Doubled(key, None);
      val := Doubled(val, None);
      hash := Doubled(hash, 0);
      size := 2 * size;
      ok := true;
    }

    /** A cleared array of twice the length with the old one at its beginning. */
    static method Doubled<T>(a: array<T>, clear: T) returns (r: array<T>)
      ensures fresh(r) && r.Length == 2 * a.Length && r[..] == a[..] + seq(a.Length, _ => clear)
    {
      r := new T[2 * a.Length](_ => clear);
      forall i | 0 <= i < a.Length {
        r[i] := a[i];
      }
    }

    /** The first empty slot from n on, wrapping around at the end. */
    method EmptySlot() returns (i: nat)
      requires Valid() && n < size
      ensures i < size && key[i].None?
    {
      hide Holds;
      ghost var e := HasEmptySlot();
      i := n;
      while key[i].Some?
        invariant i < size
        decreases if i <= e then e - i else size - i + e
      {
        i := i + 1;
        if i == size {
          i := 0;
        }
      }
    }

    /** dictionary_set: it fails for the key NULL, and when it would have to grow and cannot. */
    method Set(k: Option<bytes>, v: Option<bytes>, allocates: bool) returns (ok: bool)
      requires Valid()
      modifies this, key, val, hash
      ensures Valid()
      ensures ok <==> k.Some? && (k.value in old(contents) || old(n) < old(size) || allocates)
      ensures contents == if ok then old(contents)[k.value := v] else old(contents)
      ensures (key == old(key) && val == old(val) && hash == old(hash)) || (fresh(key) && fresh(val) && fresh(hash))
      ensures !ok ==> unchanged(this) && unchanged(key) && unchanged(val) && unchanged(hash)
    {
      hide Holds;
      if k.None? {
        return false;
      }
      if n > 0 {
        var i := Find(k.value);
        if i < size {
          Replace(i, v);
          return true;
        }
      }
      if n == size {
        var grown := Grow(allocates);
        if !grown {
          return false;
        }
      }
      Add(k.value, v);
      ok := true;
    }

    method Replace(i: nat, v: Option<bytes>)
      requires Valid() && i < size && key[i].Some?
      modifies this`contents, val
      ensures Valid() && contents == old(contents)[key[i].value := v]
    {
      hide Holds;
      HoldsReplaced(key[..], val[..], hash[..], contents, i, v);
      ghost var k, after := key[i].value, val[..][i := v];
      val[i] := v;
      contents := contents[k := v];
      assert val[..] == after && contents.Keys == old(contents.Keys);
      assert |contents.Keys| == |old(contents).Keys|;
    }

    method Add(k: bytes, v: Option<bytes>)
      requires Valid() && n < size && k !in contents
      modifies this`contents, this`n, key, val, hash
      ensures Valid() && contents == old(contents)[k := v]
    {
      hide Holds, HashOf;
      var i := EmptySlot();
      var h := Hash(k);
      HoldsAdded(key[..], val[..], hash[..], contents, i, k, v);
      ghost var keys, vals, hashes := key[..][i := Some(k)], val[..][i := v], hash[..][i := h];
      key[i] := Some(k);
      val[i] := v;
      hash[i] := h;
      n := n + 1;
      contents := contents[k := v];
      assert key[..] == keys && val[..] == vals && hash[..] == hashes;
    }

    /** dictionary_unset */
    method Unset(k: Option<bytes>)
      requires Valid()
      modifies this, key, val, hash
      ensures Valid() && contents == if k.Some? then old(contents) - {k.value} else old(contents)
    {
      hide Holds;
      if k.None? {
        return;
      }
      var i := Find(k.value);
      if i >= size {
        return;
      }
      Clear(i);
    }

    method Clear(i: nat)
      requires Valid() && i < size && key[i].Some?
      modifies this`contents, this`n, key, val, hash
      ensures Valid() && contents == old(contents) - {old(key[i].value)}
    {
      hide Holds;
      HoldsRemoved(key[..], val[..], hash[..], contents, i);
      ghost var keys, vals, hashes := key[..][i := None], val[..][i := None], hash[..][i := 0];
      contents := contents - {key[i].value};
      key[i] := None;
      val[i] := None;
      hash[i] := 0;
      n := n - 1;
      assert key[..] == keys && val[..] == vals && hash[..] == hashes;
    }
  }
}
