/**
  `ObservableSet<T>` (src/Types/Collections/ObservableSet.cs): a hash set
  that raises a collection-changed notification and a property-changed
  notification for `Count` whenever an operation reports a change.

  The set and the notifications it has raised so far form one value; each
  operation returns the next value. Raising a notification with no
  subscriber does nothing in the original; the log records every raise.
*/
module ObservableSets {
  import Seqs

  datatype Notification<T> =
    | Added(items: seq<T>)   // CollectionChanged with action Add and the new items
    | Reset                  // CollectionChanged with action Reset
    | CountChanged           // PropertyChanged for "Count"

  datatype SetState<T> = SetState(items: set<T>, log: seq<Notification<T>>)

  /** The state holds `items` and has raised nothing since `s`. */
  predicate Silent<T>(s: SetState<T>, r: SetState<T>)
  {
    r.log == s.log
  }

  /** The elements of `other` that are not in `items`, in first-appearance order, each once. */
  function NewElements<T(==)>(other: seq<T>, items: set<T>): (r: seq<T>)
    ensures Seqs.Distinct(r)
    ensures Seqs.Elements(r) == Seqs.Elements(other) - items
  {
    Filter(Seqs.Dedup(other), items)
  }

  /** The elements of a duplicate-free `xs` that are not in `items`, in order. */
  function Filter<T(==)>(xs: seq<T>, items: set<T>): (r: seq<T>)
    requires Seqs.Distinct(xs)
    ensures Seqs.Distinct(r)
    ensures Seqs.Elements(r) == Seqs.Elements(xs) - items
  {
    if xs == [] then []
    else
      var tail := Filter(xs[1..], items);
      assert Seqs.Elements(xs) == {xs[0]} + Seqs.Elements(xs[1..]) by {
        assert xs == [xs[0]] + xs[1..];
      }
      assert xs[0] !in Seqs.Elements(xs[1..]) by {
        assert forall k | 0 <= k < |xs[1..]| :: xs[1..][k] == xs[k + 1];
      }
      if xs[0] in items then tail
      else
        assert xs[0] !in Seqs.Elements(tail);
        assert Seqs.Elements([xs[0]] + tail) == {xs[0]} + Seqs.Elements(tail);
        assert forall k | 0 <= k < |tail| :: tail[k] in Seqs.Elements(tail);
        [xs[0]] + tail
  }

  /** The public `Add`: notifies and answers true only when the item was absent. */
  function Add<T(==)>(s: SetState<T>, item: T): (r: (SetState<T>, bool))
    ensures r.0.items == s.items + {item}
    ensures r.1 <==> item !in s.items
    ensures r.1 ==> r.0.log == s.log + [Added([item]), CountChanged]
    ensures !r.1 ==> r.0 == s
  {
    if item in s.items then (s, false)
    else (SetState(s.items + {item}, s.log + [Added([item]), CountChanged]), true)
  }

  /** The explicit `ICollection<T>.Add`: notifies even when the item was already present. */
  function CollectionAdd<T(==)>(s: SetState<T>, item: T): (r: SetState<T>)
    ensures r.items == Add(s, item).0.items
    ensures item !in s.items ==> r == Add(s, item).0
    ensures r.log == Add(s.(items := s.items - {item}), item).0.log
    ensures !Silent(s, r)
  {
    SetState(s.items + {item}, s.log + [Added([item]), CountChanged])
  }

  /** `Remove`: a present item is deleted with a Reset; an absent one changes nothing. */
  function Remove<T(==)>(s: SetState<T>, item: T): (r: (SetState<T>, bool))
    ensures r.0.items == s.items - {item}
    ensures r.1 <==> item in s.items
    ensures r.1 ==> r.0.log == s.log + [Reset, CountChanged]
    ensures !r.1 ==> r.0 == s
  {
    if item !in s.items then (s, false)
    else (SetState(s.items - {item}, s.log + [Reset, CountChanged]), true)
  }

  /** `Clear`: an empty set stays silent. */
  function Clear<T>(s: SetState<T>): (r: SetState<T>)
    ensures r.items == {}
    ensures s.items == {} ==> r == s
    ensures s.items != {} ==> r.log == s.log + [Reset, CountChanged]
  {
    if s.items == {} then s
    else SetState({}, s.log + [Reset, CountChanged])
  }

  /** A subset with the same number of elements is the whole set. */
  lemma SubsetSameSize<T>(a: set<T>, b: set<T>)
    requires a <= b && |a| == |b|
    ensures a == b
  {
    assert b == (b - a) + a;
    assert (b - a) * a == {};
    assert |b| == |b - a| + |a|;
    assert |b - a| == 0;
  }

  /** `ExceptWith`: removes the elements of `other`; notifies only when `Count` changed. */
  function ExceptWith<T(==)>(s: SetState<T>, other: seq<T>): (r: SetState<T>)
    ensures r.items == s.items - Seqs.Elements(other)
    ensures r.items == s.items ==> r == s
    ensures r.items != s.items ==> r.log == s.log + [Reset, CountChanged]
  {
    var items := s.items - Seqs.Elements(other);
    if |items| == |s.items| then
      SubsetSameSize(items, s.items);
      s
    else SetState(items, s.log + [Reset, CountChanged])
  }

  /** `IntersectWith`: keeps the elements of `other`; notifies only when `Count` changed. */
  function IntersectWith<T(==)>(s: SetState<T>, other: seq<T>): (r: SetState<T>)
    ensures r.items == s.items * Seqs.Elements(other)
    ensures r.items == s.items ==> r == s
    ensures r.items != s.items ==> r.log == s.log + [Reset, CountChanged]
  {
    var items := s.items * Seqs.Elements(other);
    if |items| == |s.items| then
      SubsetSameSize(items, s.items);
      s
    else SetState(items, s.log + [Reset, CountChanged])
  }

  /**
    `UnionWith`: walks the distinct elements of `other` in order, adding
    each one the set lacks and remembering it; one Add notification lists
    exactly the elements that were new.
  */
  method UnionWith<T(==)>(s: SetState<T>, other: seq<T>) returns (r: SetState<T>)
    ensures r.items == s.items + Seqs.Elements(other)
    ensures r.items == s.items ==> r == s
    ensures r.items != s.items ==> r.log == s.log + [Added(NewElements(other, s.items)), CountChanged]
  {
    var otherSet := Seqs.Dedup(other);
    var items := s.items;
    var added: seq<T> := [];
    var k := 0;
    while k < |otherSet|
      invariant 0 <= k <= |otherSet|
      invariant items == s.items + Seqs.Elements(otherSet[..k])
      invariant added == Filter(otherSet[..k], s.items)
    {
      var e := otherSet[k];
      assert otherSet[..k + 1] == otherSet[..k] + [e];
      FilterSnoc(otherSet[..k], e, s.items);
      if e !in items {
        items := items + {e};
        added := added + [e];
      }
      k := k + 1;
    }
    assert otherSet[..k] == otherSet;
    if added == [] {
      return s;
    }
    assert added[0] in Seqs.Elements(added);
    assert added[0] in items && added[0] !in s.items;
    return SetState(items, s.log + [Added(added), CountChanged]);
  }

  /** Filtering one more element keeps it exactly when it is not excluded. */
  lemma FilterSnoc<T>(xs: seq<T>, x: T, items: set<T>)
    requires Seqs.Distinct(xs + [x])
    ensures Seqs.Distinct(xs)
    ensures Filter(xs + [x], items) == if x in items then Filter(xs, items) else Filter(xs, items) + [x]
  {
    assert forall i | 0 <= i < |xs| :: xs[i] == (xs + [x])[i];
    if xs == [] {
    } else {
      assert (xs + [x])[0] == xs[0];
      assert (xs + [x])[1..] == xs[1..] + [x];
      FilterSnoc(xs[1..], x, items);
    }
  }

  /**
    `SymmetricExceptWith`: removes the elements shared with `other`, then
    adds the rest of `other`. When anything changed it raises a Reset and
    then an Add notification listing what was added, which may be empty.
  */
  function SymmetricExceptWith<T(==)>(s: SetState<T>, other: seq<T>): (r: SetState<T>)
    ensures r.items == (s.items - Seqs.Elements(other)) + (Seqs.Elements(other) - s.items)
    ensures r.items == s.items ==> r == s
    ensures r.items != s.items ==> r.log == s.log + [Reset, Added(NewElements(other, s.items)), CountChanged]
  {
    var removed := s.items * Seqs.Elements(other);
    var added := NewElements(other, s.items);
    if removed == {} && added == [] then s
    else
      SetState((s.items - removed) + Seqs.Elements(added), s.log + [Reset, Added(added), CountChanged])
  }

  function Contains<T(==)>(s: SetState<T>, item: T): bool
  {
    item in s.items
  }

  function Count<T>(s: SetState<T>): nat
  {
    |s.items|
  }

  function IsSubsetOf<T(==)>(s: SetState<T>, other: seq<T>): bool
  {
    s.items <= Seqs.Elements(other)
  }

  function IsSupersetOf<T(==)>(s: SetState<T>, other: seq<T>): bool
  {
    Seqs.Elements(other) <= s.items
  }

  function IsProperSubsetOf<T(==)>(s: SetState<T>, other: seq<T>): bool
  {
    s.items < Seqs.Elements(other)
  }

  function IsProperSupersetOf<T(==)>(s: SetState<T>, other: seq<T>): bool
  {
    Seqs.Elements(other) < s.items
  }

  function Overlaps<T(==)>(s: SetState<T>, other: seq<T>): bool
  {
    s.items * Seqs.Elements(other) != {}
  }

  function SetEquals<T(==)>(s: SetState<T>, other: seq<T>): bool
  {
    s.items == Seqs.Elements(other)
  }

  /**
    Each query answers what a mutator would do with the same `other`:
    whether `ExceptWith` would empty the set or notify, whether
    `IntersectWith` would stay silent, whether `UnionWith` would add
    anything, and whether `SymmetricExceptWith` would empty the set.
  */
  lemma QueriesPredictMutators<T>(s: SetState<T>, other: seq<T>)
    ensures IsSubsetOf(s, other) <==> ExceptWith(s, other).items == {}
    ensures IsSubsetOf(s, other) <==> Silent(s, IntersectWith(s, other))
    ensures IsSupersetOf(s, other) <==> NewElements(other, s.items) == []
    ensures IsProperSubsetOf(s, other) <==> IsSubsetOf(s, other) && NewElements(other, s.items) != []
    ensures IsProperSupersetOf(s, other) <==> IsSupersetOf(s, other) && ExceptWith(s, other).items != {}
    ensures Overlaps(s, other) <==> !Silent(s, ExceptWith(s, other))
    ensures Overlaps(s, other) <==> exists i | 0 <= i < |other| :: Contains(s, other[i])
    ensures SetEquals(s, other) <==> SymmetricExceptWith(s, other).items == {}
  {
    SubsetQueries(s, other);
    SupersetQueries(s, other);
    OverlapQueries(s, other);
  }

  lemma SubsetQueries<T>(s: SetState<T>, other: seq<T>)
    ensures IsSubsetOf(s, other) <==> ExceptWith(s, other).items == {}
    ensures IsSubsetOf(s, other) <==> Silent(s, IntersectWith(s, other))
  {
    var elems := Seqs.Elements(other);
    if !IsSubsetOf(s, other) {
      var x :| x in s.items && x !in elems;
      assert x in ExceptWith(s, other).items;
      assert x !in IntersectWith(s, other).items;
    }
  }

  lemma SupersetQueries<T>(s: SetState<T>, other: seq<T>)
    ensures IsSupersetOf(s, other) <==> NewElements(other, s.items) == []
    ensures IsProperSubsetOf(s, other) <==> IsSubsetOf(s, other) && NewElements(other, s.items) != []
    ensures IsProperSupersetOf(s, other) <==> IsSupersetOf(s, other) && ExceptWith(s, other).items != {}
    ensures SetEquals(s, other) <==> SymmetricExceptWith(s, other).items == {}
  {
    NothingNewMeansSuperset(s.items, other);
    ProperQueries(s.items, Seqs.Elements(other));
  }

  lemma NothingNewMeansSuperset<T>(items: set<T>, other: seq<T>)
    ensures Seqs.Elements(other) <= items <==> NewElements(other, items) == []
  {
    var novel := NewElements(other, items);
    Seqs.NoElementsIsEmpty(novel);
    if novel == [] {
      forall x | x in Seqs.Elements(other) ensures x in items {
        assert x !in Seqs.Elements(novel);
      }
    }
  }

  lemma ProperQueries<T>(items: set<T>, elems: set<T>)
    ensures items < elems <==> items <= elems && elems - items != {}
    ensures elems < items <==> elems <= items && items - elems != {}
    ensures items == elems <==> (items - elems) + (elems - items) == {}
  {
    if items <= elems && elems - items != {} {
      var x :| x in elems - items;
    }
    if elems <= items && items - elems != {} {
      var x :| x in items - elems;
    }
    if (items - elems) + (elems - items) == {} {
      forall x | x in items ensures x in elems {
        assert x !in (items - elems) + (elems - items);
      }
      forall x | x in elems ensures x in items {
        assert x !in (items - elems) + (elems - items);
      }
    }
  }

  lemma OverlapQueries<T>(s: SetState<T>, other: seq<T>)
    ensures Overlaps(s, other) <==> !Silent(s, ExceptWith(s, other))
    ensures Overlaps(s, other) <==> exists i | 0 <= i < |other| :: Contains(s, other[i])
  {
    var elems := Seqs.Elements(other);
    if Overlaps(s, other) {
      var x :| x in s.items * elems;
      assert x !in ExceptWith(s, other).items;
      var i :| 0 <= i < |other| && other[i] == x;
      assert Contains(s, other[i]);
    } else {
      assert ExceptWith(s, other).items == s.items;
      forall i | 0 <= i < |other| ensures !Contains(s, other[i]) {
        assert other[i] in elems;
      }
    }
  }

  /** Every mutating operation notifies exactly when the set's contents change. */
  lemma NotifiesExactlyOnChange<T>(s: SetState<T>, item: T, other: seq<T>)
    ensures Silent(s, Add(s, item).0) <==> Add(s, item).0.items == s.items
    ensures Silent(s, Remove(s, item).0) <==> Remove(s, item).0.items == s.items
    ensures Silent(s, Clear(s)) <==> Clear(s).items == s.items
    ensures Silent(s, ExceptWith(s, other)) <==> ExceptWith(s, other).items == s.items
    ensures Silent(s, IntersectWith(s, other)) <==> IntersectWith(s, other).items == s.items
    ensures Silent(s, SymmetricExceptWith(s, other)) <==> SymmetricExceptWith(s, other).items == s.items
  {
  }

  /** The interface `Add` notifies on an unchanged set; the public `Add` stays silent. */
  lemma InterfaceAddAlwaysNotifies<T>(s: SetState<T>, item: T)
    requires item in s.items
    ensures CollectionAdd(s, item).items == s.items && !Silent(s, CollectionAdd(s, item))
    ensures Add(s, item).0 == s
  {
  }

  /** When `other` only removes elements, the Add notification of `SymmetricExceptWith` is empty. */
  lemma SymmetricExceptRemovalOnly<T>(s: SetState<T>, other: seq<T>)
    requires Seqs.Elements(other) <= s.items && other != []
    ensures SymmetricExceptWith(s, other).log == s.log + [Reset, Added([]), CountChanged]
  {
    assert other[0] in s.items * Seqs.Elements(other);
    Seqs.NoElementsIsEmpty(NewElements(other, s.items));
  }
}
