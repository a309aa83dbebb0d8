/** Sequences in which nothing stands twice. */
module Sequences {
  ghost predicate NoRepeats<T>(ts: seq<T>) {
    forall i, j :: 0 <= i < j < |ts| ==> ts[i] != ts[j]
  }

  lemma NoRepeatsInsert<T>(ts: seq<T>, p: nat, x: T)
    requires NoRepeats(ts) && p <= |ts| && x !in ts
    ensures NoRepeats(ts[..p] + [x] + ts[p..])
    ensures forall t :: t in ts[..p] + [x] + ts[p..] <==> t in ts || t == x
  {
    var r := ts[..p] + [x] + ts[p..];
    assert forall i :: 0 <= i < |r| ==> r[i] == if i < p then ts[i] else if i == p then x else ts[i - 1];
    InsertedIn(ts, p, x);
  }

  lemma InsertedIn<T>(ts: seq<T>, p: nat, x: T)
    requires p <= |ts|
    ensures forall t :: t in ts[..p] + [x] + ts[p..] <==> t in ts || t == x
  {
    assert ts == ts[..p] + ts[p..];
  }

  lemma NoRepeatsRemove<T>(ts: seq<T>, p: nat)
    requires NoRepeats(ts) && p < |ts|
    ensures NoRepeats(ts[..p] + ts[p + 1..])
    ensures forall t :: t in ts[..p] + ts[p + 1..] <==> t in ts && t != ts[p]
  {
    var r := ts[..p] + ts[p + 1..];
    forall t ensures t in r <==> t in ts && t != ts[p] {
      if t in r {
        var i :| 0 <= i < |r| && r[i] == t;
        assert t == ts[if i < p then i else i + 1];
      }
      if t in ts && t != ts[p] {
        var i :| 0 <= i < |ts| && ts[i] == t;
        assert t == r[if i < p then i else i - 1];
      }
    }
  }
}
