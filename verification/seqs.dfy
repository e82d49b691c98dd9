/** Sequence helpers shared by the collection models. */
module Seqs {

  /** No element occurs twice. */
  predicate Distinct<T(==)>(s: seq<T>)
  {
    forall i, j | 0 <= i < j < |s| :: s[i] != s[j]
  }

  /** The elements of `s` as a set. */
  function Elements<T>(s: seq<T>): set<T>
  {
    set x | x in s
  }

  /**
    The elements of `s` in order of first appearance, each once: what
    `ToHashSet()` enumerates, and what a loop guarded by a `HashSet`
    membership test visits for the first time.
  */
  function Dedup<T(==)>(s: seq<T>): (r: seq<T>)
    ensures Distinct(r)
    ensures Elements(r) == Elements(s)
    ensures |r| <= |s|
  {
    if s == [] then []
    else
      var prefix := Dedup(s[..|s| - 1]);
      var last := s[|s| - 1];
      assert Elements(s) == Elements(s[..|s| - 1]) + {last} by {
        assert s == s[..|s| - 1] + [last];
      }
      if last in prefix then prefix
      else
        assert Elements(prefix + [last]) == Elements(prefix) + {last};
        prefix + [last]
  }

  /** Appending one element extends the first-appearance order only when the element is new. */
  lemma DedupSnoc<T>(s: seq<T>, x: T)
    ensures Dedup(s + [x]) == if x in Elements(s) then Dedup(s) else Dedup(s) + [x]
  {
    assert (s + [x])[..|s + [x]| - 1] == s;
  }

  lemma ElementsSnoc<T>(s: seq<T>, x: T)
    ensures Elements(s + [x]) == Elements(s) + {x}
  {
  }

  lemma NoElementsIsEmpty<T>(s: seq<T>)
    ensures Elements(s) == {} <==> s == []
  {
    if s != [] {
      assert s[0] in Elements(s);
    }
  }

  /** `s` without the element at index `i`. */
  function RemoveAt<T>(s: seq<T>, i: nat): (r: seq<T>)
    requires i < |s|
    ensures |r| == |s| - 1
    ensures forall k | 0 <= k < i :: r[k] == s[k]
    ensures forall k | i <= k < |r| :: r[k] == s[k + 1]
  {
    s[..i] + s[i + 1..]
  }
}
