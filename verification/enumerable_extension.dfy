/**
  The `Contains(list, matches)` extension (src/Extensions/EnumerableExtension.cs):
  true when `FirstOrDefault(predicate)` is not null.

  The element type enters through two parameters: its default value `dflt`
  and its null test `isNull`. A reference type or a `Nullable<V>` has null
  as its default; a non-nullable value type has no null value at all. The
  predicate is applied to every element, nulls included.
*/
module EnumerableExtension {
  import opened Wrappers

  /** Index of the first element the predicate accepts. */
  ghost predicate FirstMatchAt<T>(list: seq<T>, matches: T -> bool, i: int)
  {
    0 <= i < |list| && matches(list[i]) && forall j | 0 <= j < i :: !matches(list[j])
  }

  /** `Enumerable.FirstOrDefault(predicate)`: the first accepted element, or `default(T)` when there is none. */
  function FirstOrDefault<T>(list: seq<T>, matches: T -> bool, dflt: T): (r: T)
    ensures forall i | FirstMatchAt(list, matches, i) :: r == list[i]
    ensures (forall i | 0 <= i < |list| :: !matches(list[i])) ==> r == dflt
  {
    if list == [] then dflt
    else if matches(list[0]) then list[0]
    else
      var r := FirstOrDefault(list[1..], matches, dflt);
      assert forall i | FirstMatchAt(list, matches, i) :: FirstMatchAt(list[1..], matches, i - 1) && list[1..][i - 1] == list[i];
      r
  }

  /** The extension: the element `FirstOrDefault` finds is not null. */
  function Contains<T>(list: seq<T>, matches: T -> bool, dflt: T, isNull: T -> bool): bool
  {
    !isNull(FirstOrDefault(list, matches, dflt))
  }

  /** The null test of a reference type (or of `Nullable<V>`), with `None` as null. */
  predicate IsNullRef<T>(x: Option<T>)
  {
    x.None?
  }

  /** The extension for reference types and `Nullable<V>`, whose default is null. */
  function ContainsRef<T>(list: seq<Option<T>>, matches: Option<T> -> bool): bool
  {
    Contains(list, matches, None, IsNullRef)
  }

  /**
    The extension for a non-nullable value type: no value of such a type is
    null, so the answer is true whatever the list and the predicate, even
    when the element found is only the fallback `default(T)`.
  */
  function ContainsValue<T>(list: seq<T>, matches: T -> bool, dflt: T): (r: bool)
    ensures r
    ensures (forall i | 0 <= i < |list| :: !matches(list[i])) ==> FirstOrDefault(list, matches, dflt) == dflt
  {
    Contains(list, matches, dflt, (x: T) => false)
  }

  /** With a null default, the extension is true exactly when the first match exists and is not null. */
  lemma {:induction false} ContainsMeansFirstMatchNonNull<T>(list: seq<T>, matches: T -> bool, dflt: T, isNull: T -> bool)
    requires isNull(dflt)
    ensures Contains(list, matches, dflt, isNull) <==> exists i :: FirstMatchAt(list, matches, i) && !isNull(list[i])
  {
    if exists i | 0 <= i < |list| :: matches(list[i]) {
      var k :| 0 <= k < |list| && matches(list[k]);
      FirstMatchExists(list, matches, k);
      var i :| FirstMatchAt(list, matches, i);
      forall j | FirstMatchAt(list, matches, j) ensures j == i {
        assert !(j < i) && !(i < j);
      }
    }
  }

  /** For reference types the answer is true exactly when the first match exists and is not null. */
  lemma ContainsRefMeansFirstMatchNonNull<T>(list: seq<Option<T>>, matches: Option<T> -> bool)
    ensures ContainsRef(list, matches) <==> exists i :: FirstMatchAt(list, matches, i) && list[i].Some?
  {
    ContainsMeansFirstMatchNonNull(list, matches, None, IsNullRef);
  }

  /** Without nulls in the list, and with a null default, the extension is plain existence. */
  lemma NoNullsMeansExists<T>(list: seq<T>, matches: T -> bool, dflt: T, isNull: T -> bool)
    requires isNull(dflt)
    requires forall i | 0 <= i < |list| :: !isNull(list[i])
    ensures Contains(list, matches, dflt, isNull) <==> exists i | 0 <= i < |list| :: matches(list[i])
  {
    ContainsMeansFirstMatchNonNull(list, matches, dflt, isNull);
    if i :| 0 <= i < |list| && matches(list[i]) {
      FirstMatchExists(list, matches, i);
    }
  }

  /** Some match exists, so a first one does. */
  lemma {:induction false} FirstMatchExists<T>(list: seq<T>, matches: T -> bool, k: int)
    requires 0 <= k < |list| && matches(list[k])
    ensures exists i :: FirstMatchAt(list, matches, i) && i <= k
  {
    if exists j | 0 <= j < k :: matches(list[j]) {
      var j :| 0 <= j < k && matches(list[j]);
      FirstMatchExists(list, matches, j);
    } else {
      assert FirstMatchAt(list, matches, k);
    }
  }

  /** A null that matches first hides a later non-null match. */
  lemma NullFirstMatchHidesLaterMatch<T>(x: T)
    ensures !ContainsRef([None, Some(x)], (e: Option<T>) => true)
  {
  }

  /** With no match, the search is true for a non-nullable value type and false for a nullable one. */
  lemma NoMatchSeparatesValueFromNullable<T>(list: seq<T>, matches: T -> bool, dflt: T, isNull: T -> bool)
    requires forall i | 0 <= i < |list| :: !matches(list[i])
    requires isNull(dflt)
    ensures ContainsValue(list, matches, dflt)
    ensures !Contains(list, matches, dflt, isNull)
  {
  }
}
