/**
 The list of variables as ccgi builds it: linked entries, each with a linked list of values, and tail pointers to
 add at the ends.  It behaves as the ordered list of QuerySpec.
 */
module VarLists {
  import opened Bytes
  import opened Options
  import opened QuerySpec
  import opened Sequences

  class Val {
    const value: bytes
    var next: Val?
    ghost var owner: Entry?

    constructor (value: bytes)
      ensures this.value == value && next == null && owner == null
    {
      this.value, next, owner := value, null, null;
    }
  }

  /** Each node leads to the one behind it, and the last to none. */
  ghost predicate Chained(vals: seq<Val>)
    reads vals`next
  {
    && (vals != [] ==> vals[|vals| - 1].next == null)
    && (forall i, j :: 0 <= i < |vals| && j == i + 1 < |vals| ==> vals[i].next == vals[j])
  }

  ghost function ValuesOf(vals: seq<Val>): seq<bytes> {
    seq(|vals|, i requires 0 <= i < |vals| => vals[i].value)
  }

  /** The array of values that lookups give out, with a null at its end. */
  function Vector(values: seq<bytes>): seq<Option<bytes>> {
    seq(|values|, i requires 0 <= i < |values| => Some(values[i])) + [None]
  }

  class Entry {
    const name: bytes
    var next: Entry?
    /** Only in the first entry. */
    var tail: Entry?
    /** Only in the first entry. */
    var iter: Entry?
    var numValue: nat
    var value: Val
    var valTail: Val
    var vector: array?<Option<bytes>>
    ghost var vals: seq<Val>

    ghost predicate Valid()
      reads `numValue, `value, `valTail, `vector, `vals, vals`next, vals`owner, vector
    {
      && vals != [] && NoRepeats(vals) && Chained(vals) && (forall v :: v in vals ==> v.owner == this)
      && value == vals[0] && valTail == vals[|vals| - 1] && numValue == |vals|
      && (vector != null ==> vector[..] == Vector(ValuesOf(vals)))
    }

    /** The entry as a variable. */
    ghost function View(): Var
      reads `vals
    {
      Var(name, ValuesOf(vals))
    }

    constructor (name: bytes, val: Val)
      requires val.next == null
      modifies val`owner
      ensures Valid() && vals == [val] && View() == Var(name, [val.value])
      ensures this.name == name && next == null && tail == null && iter == null && vector == null
    {
      this.name, next, tail, iter := name, null, null, null;
      numValue, value, valTail, vector, vals := 1, val, val, null, [val];
      new;
      val.owner := this;
    }

    /** One more value at the end; the array of values is dropped. */
    method AddValue(val: Val)
      requires Valid() && val.next == null && val !in vals
      modifies `numValue, `valTail, `vector, `vals, valTail`next, val`owner
      ensures Valid() && vals == old(vals) + [val] && vector == null
      ensures View() == Var(name, old(View()).values + [val.value])
    {
      valTail.next := val;
      val.owner := this;
      numValue := numValue + 1;
      valTail := val;
      vals := vals + [val];
      vector := null;
    }

    /** Fills the array of values unless it is there. */
    method Values() returns (a: array<Option<bytes>>)
      requires Valid()
      modifies `vector
      ensures Valid() && a == vector && a[..] == Vector(View().values)
      ensures old(vector) != null ==> a == old(vector)
      ensures old(vector) == null ==> fresh(a)
    {
      if vector == null {
        a := new Option<bytes>[numValue + 1](_ => None);
        Fill(a);
        vector := a;
      }
      a := vector;
    }

    method Fill(a: array<Option<bytes>>)
      requires Valid() && vector == null && a.Length == numValue + 1 && forall k :: 0 <= k < a.Length ==> a[k] == None
      modifies a
      ensures Valid() && a[..] == Vector(View().values)
    {
      var i, val := 0, value as Val?;
      while val != null && i < numValue
        invariant Valid() && i <= numValue && val == if i < numValue then vals[i] else null
        invariant forall k :: 0 <= k < a.Length ==> a[k] == if k < i then Some(vals[k].value) else None
      {
        Following(i);
        i, val, a[i] := i + 1, val.next, Some(val.value);
      }
      a[i] := None;
    }

    lemma Following(i: nat)
      requires Valid() && i < numValue
      ensures vals[i].next == if i + 1 < numValue then vals[i + 1] else null
    {
    }
  }

  ghost function Views(es: seq<Entry>): seq<Var>
    reads es
  {
    seq(|es|, i requires 0 <= i < |es| reads es => es[i].View())
  }

  /** The entries are linked in order, and the first knows the last. */
  ghost predicate Linked(first: Entry?, es: seq<Entry>)
    reads es`next, es`tail, es`iter
  {
    && (first == if es == [] then null else es[0])
    && (es != [] ==> es[|es| - 1].next == null)
    && (forall i, j :: 0 <= i < |es| && j == i + 1 < |es| ==> es[i].next == es[j])
    && (first != null ==> first.tail == es[|es| - 1] && (first.iter == null || first.iter in es))
  }

  ghost function IndexIn(es: seq<Entry>, e: Entry): (i: nat)
    requires e in es
    ensures i < |es| && es[i] == e
  {
    if es[0] == e then 0 else 1 + IndexIn(es[1..], e)
  }

  /** What the caller holds: a pointer to the first entry. */
  class VarList {
    var first: Entry?
    ghost var spine: seq<Entry>
    /** All nodes and arrays of the list. */
    ghost var repr: set<object>

    ghost predicate Entries()
      reads this, spine, repr
    {
      forall e :: e in spine ==> Owns(e) && e.Valid()
    }

    ghost predicate Owns(e: Entry)
      reads `repr, e`vals, e`vector
    {
      e in repr && (forall v :: v in e.vals ==> v in repr) && (e.vector == null || e.vector in repr)
    }

    ghost predicate Valid()
      reads this, spine, repr
    {
      this !in repr && Entries() && Linked(first, spine) && NoRepeats(spine) && Proper(Contents())
    }

    ghost function Contents(): seq<Var>
      reads `spine, spine
    {
      Views(spine)
    }

    constructor ()
      ensures Valid() && Contents() == [] && repr == {}
    {
      first, spine, repr := null, [], {};
    }

    /** Where the iteration stands: the number of the current entry, or that of entries. */
    ghost function Current(): nat
      requires first == null || first.iter == null || first.iter in spine
      reads `spine, `first, first
    {
      if first == null || first.iter == null then |spine| else IndexIn(spine, first.iter)
    }

    /** The number of the entry that a lookup is about. */
    ghost function Sought(varname: Option<bytes>): nat
      requires first == null || first.iter == null || first.iter in spine
      reads `spine, `first, first, spine
    {
      if varname.None? then Current() else Position(Contents(), varname.value)
    }

    /** findvar: the entry of a name, or the current entry. */
    method FindVar(varname: Option<bytes>) returns (e: Entry?)
      requires Valid()
      ensures e == if Sought(varname) < |spine| then spine[Sought(varname)] else null
    {
      if varname.None? && first != null {
        return first.iter;
      }
      e := first;
      ghost var p := 0;
      while e != null
        invariant p <= |spine| && e == if p < |spine| then spine[p] else null
        invariant varname.Some? ==> forall i :: 0 <= i < p ==> Contents()[i].name != varname.value
        decreases |spine| - p
      {
        if varname.Some? && e.name == varname.value {
          break;
        }
        e := e.next;
        p := p + 1;
      }
      if varname.Some? {
        PositionIs(Contents(), varname.value, p);
      }
    }

    /** CGI_lookup: the first value. */
    method Lookup(varname: Option<bytes>) returns (value: Option<bytes>)
      requires Valid()
      ensures Sought(varname) <= |Contents()|
      ensures value == if Sought(varname) < |Contents()| then Some(Contents()[Sought(varname)].values[0]) else None
    {
      hide Position, Proper, Chained;
      var e := FindVar(varname);
      if e == null {
        value := None;
      } else {
        EntryAt(Sought(varname));
        value := Some(e.value.value);
      }
    }

    /** CGI_lookup_all: all values, in an array that is kept until one more is added. */
    method LookupAll(varname: Option<bytes>) returns (values: array?<Option<bytes>>)
      requires Valid()
      modifies this`repr, spine`vector
      ensures Valid() && fresh(repr - old(repr)) && Contents() == old(Contents()) && Sought(varname) == old(Sought(varname))
      ensures values != null <==> Sought(varname) < |Contents()|
      ensures values != null ==> values[..] == Vector(Contents()[Sought(varname)].values)
      ensures values != null ==> spine[Sought(varname)].vector == values
      ensures values != null && old(spine[Sought(varname)].vector) != null ==> values == old(spine[Sought(varname)].vector)
    {
      hide Position, Proper, Chained;
      var e := FindVar(varname);
      if e == null {
        return null;
      }
      values := ValuesAt(e, Sought(varname));
    }

    method ValuesAt(e: Entry, ghost p: nat) returns (values: array<Option<bytes>>)
      requires Valid() && p < |spine| && spine[p] == e
      modifies this`repr, e`vector
      ensures Valid() && fresh(repr - old(repr)) && Contents() == old(Contents())
      ensures values == e.vector && values[..] == Vector(Contents()[p].values)
      ensures old(e.vector) != null ==> values == old(e.vector)
    {
      hide Position, Proper, Chained, Vector, Linked;
      EntryAt(p);
      assert Contents()[p] == e.View();
      values := e.Values();
      repr := repr + {values};
      assert Contents() == old(Contents());
    }

    /** CGI_first_name */
    method FirstName() returns (name: Option<bytes>)
      requires Valid()
      modifies spine`iter
      ensures Valid() && Contents() == old(Contents()) && Current() == 0
      ensures name == if Contents() == [] then None else Some(Contents()[0].name)
    {
      hide Proper, Entry.Valid, Chained, NoRepeats;
      if first == null {
        return None;
      }
      first.iter := first;
      assert Contents() == old(Contents());
      name := Some(first.iter.name);
    }

    /** CGI_next_name */
    method NextName() returns (name: Option<bytes>)
      requires Valid()
      modifies spine`iter
      ensures Valid() && Contents() == old(Contents())
      ensures old(Current()) < |Contents()| ==> Current() == old(Current()) + 1
      ensures old(Current()) >= |Contents()| ==> Current() == old(Current())
      ensures name == if Current() < |Contents()| then Some(Contents()[Current()].name) else None
    {
      hide Proper, Entry.Valid, Chained;
      if first == null || first.iter == null {
        return None;
      }
      ghost var p := Current();
      first.iter := first.iter.next;
      IndexOfNext(spine, p + 1);
      assert Contents() == old(Contents());
      name := if first.iter == null then None else Some(first.iter.name);
    }

    /** CGI_add_var */
    method AddVar(varname: Option<bytes>, value: Option<bytes>)
      requires Valid()
      modifies this, repr
      ensures Valid() && fresh(repr - old(repr))
      ensures Contents() ==
              if varname.Some? && value.Some? then Add(old(Contents()), varname.value, value.value) else old(Contents())
      ensures varname.Some? && value.Some? ==> first.iter == null
    {
      hide Position, Proper, Entry.Valid, Chained, Entries, Linked, Owns, NoRepeats;
      if varname.None? || value.None? {
        return;
      }
      AddIsProper(Contents(), varname.value, value.value);
      var e := FindVar(varname);
      var val := new Val(value.value);
      AllOwned();
      if e == null {
        AddEntry(varname.value, val);
      } else {
        EntryAt(Position(Contents(), varname.value));
        AddToEntry(e, Position(Contents(), varname.value), val);
      }
      EntryAt(0);
      ResetIter();
    }

    lemma AllOwned()
      requires Entries()
      ensures forall e :: e in spine ==> e in repr
    {
    }

    /** The iteration is over. */
    method ResetIter()
      requires Valid() && first != null
      modifies first`iter
      ensures Valid() && Contents() == old(Contents()) && first.iter == null
    {
      hide Proper, Entry.Valid, Chained, NoRepeats;
      first.iter := null;
      assert Contents() == old(Contents());
    }

    lemma EntryAt(p: nat)
      requires Entries() && Linked(first, spine) && p < |spine|
      ensures spine[p] in repr && spine[p].valTail in repr && first == spine[0] && Contents()[p].name == spine[p].name
      ensures spine[p].Valid() && Contents()[p].values != [] && Contents()[p].values[0] == spine[p].value.value
    {
      assert spine[p] in spine && Owns(spine[p]) && spine[p].valTail in spine[p].vals;
    }

    /** A new entry at the end. */
    method AddEntry(name: bytes, val: Val)
      requires this !in repr && Entries() && Linked(first, spine) && NoRepeats(spine)
      requires val.next == null && val.owner == null && val !in repr && Proper(Contents() + [Var(name, [val.value])])
      modifies `first, `spine, `repr, spine`next, spine`tail, val`owner
      ensures Valid() && |spine| == |old(spine)| + 1 && fresh(spine[|old(spine)|])
      ensures repr == old(repr) + {spine[|old(spine)|], val}
      ensures Contents() == old(Contents()) + [Var(name, [val.value])]
    {
      hide Entry.Valid, Chained, Proper, Linked;
      var e := new Entry(name, val);
      LinkLast(e);
      ghost var before := spine;
      spine := spine + [e];
      repr := repr + {e, val};
      assert Contents() == old(Contents()) + [Var(name, [val.value])];
      forall x | x in spine ensures Owns(x) && x.Valid() {
        if x != e {
          assert x in before;
          StillValid(x);
        }
      }
    }

    /** Makes e the last entry. */
    method LinkLast(e: Entry)
      requires Linked(first, spine) && e !in spine && e.next == null && e.tail == null && e.iter == null
      modifies `first, spine`next, spine`tail, e`tail
      ensures Linked(first, spine + [e])
    {
      if first == null {
        first := e;
      } else {
        first.tail.next := e;
      }
      first.tail := e;
    }

    /** An entry whose nodes have not changed is still as it should be. */
    static twostate lemma StillValid(x: Entry)
      requires old(x.Valid())
      requires unchanged(x`numValue, x`value, x`valTail, x`vector, x`vals) && (x.vector != null ==> unchanged(x.vector))
      requires forall v :: v in x.vals ==> unchanged(v)
      ensures x.Valid()
    {
      assert forall i :: 0 <= i < |x.vals| ==> x.vals[i] in x.vals;
    }

    lemma Apart(x: Entry, e: Entry)
      requires x.Valid() && e.Valid() && x != e
      ensures e.valTail !in x.vals
    {
      assert e.valTail in e.vals;
    }

    /** One more value for the entry at a position. */
    method AddToEntry(e: Entry, ghost p: nat, val: Val)
      requires this !in repr && Entries() && Linked(first, spine) && NoRepeats(spine) && p < |spine| && e == spine[p]
      requires val.next == null && val.owner == null && val !in repr
      requires Proper(Contents()[p := Var(e.name, Contents()[p].values + [val.value])])
      modifies `repr, e`numValue, e`valTail, e`vector, e`vals, e.valTail`next, val`owner
      ensures Valid() && repr == old(repr) + {val} && spine == old(spine) && first == old(first)
      ensures Contents() == old(Contents())[p := Var(e.name, old(Contents())[p].values + [val.value])]
    {
      hide Chained, Proper, Linked;
      assert e in spine && Owns(e);
      forall x | x in spine && x != e ensures e.valTail !in x.vals {
        Apart(x, e);
      }
      e.AddValue(val);
      repr := repr + {val};
      forall x | x in spine ensures Owns(x) && x.Valid() {
        if x != e { StillValid(x); }
      }
      assert Contents() == old(Contents())[p := Var(e.name, old(Contents())[p].values + [val.value])];
    }
  }

  lemma IndexOfNext(es: seq<Entry>, p: nat)
    requires NoRepeats(es)
    ensures p < |es| ==> IndexIn(es, es[p]) == p
  {
    if p < |es| {
      var i := IndexIn(es, es[p]);
    }
  }

  lemma PositionIs(vars: seq<Var>, name: bytes, p: nat)
    requires p <= |vars| && (p < |vars| ==> vars[p].name == name)
    requires forall i :: 0 <= i < p ==> vars[i].name != name
    ensures Position(vars, name) == p
  {
  }
}
