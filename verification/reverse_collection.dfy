/**
  `ReverseObservableCollection<T>` (src/Types/Collections/ReverseObservableCollection.cs):
  an observable collection whose insertion index is mirrored, so that
  appending puts the new item at the front.
*/
module ReverseCollection {
  import opened Wrappers
  import Seqs

  /** `Collection<T>.Insert` rejects an index outside 0..Count before the override runs. */
  datatype InsertError = IndexOutOfRange(index: int)

  /** The position the overridden `InsertItem` uses for a requested index. */
  function Mirror(count: nat, index: int): int
  {
    count - index
  }

  /** `Insert(index, item)`: the item lands at position Count - index of the previous contents. */
  function Insert<T>(s: seq<T>, index: int, item: T): (r: Result<seq<T>, InsertError>)
    ensures r.Ok? <==> 0 <= index <= |s|
    ensures r.Err? ==> r.error == IndexOutOfRange(index)
    ensures r.Ok? ==> |r.value| == |s| + 1
    ensures r.Ok? ==> r.value[|s| - index] == item
  {
    if index < 0 || index > |s| then Err(IndexOutOfRange(index))
    else
      var at := Mirror(|s|, index);
      Ok(s[..at] + [item] + s[at..])
  }

  /** Taking the inserted item out again gives back the previous contents, in their order. */
  lemma InsertKeepsOthers<T>(s: seq<T>, index: int, item: T)
    requires 0 <= index <= |s|
    ensures Seqs.RemoveAt(Insert(s, index, item).value, |s| - index) == s
  {
    var r := Insert(s, index, item).value;
    var at := |s| - index;
    assert r == s[..at] + [item] + s[at..];
  }

  /** `Add(item)` inserts at index Count, which the mirror turns into the front. */
  function Add<T>(s: seq<T>, item: T): (r: seq<T>)
    ensures r == [item] + s
  {
    var r := Insert(s, |s|, item).value;
    assert r == s[..0] + [item] + s[0..];
    assert s[0..] == s && s[..0] == [];
    assert r == [item] + s;
    r
  }

  /** Index 0 appends at the end. */
  lemma InsertAtZeroAppends<T>(s: seq<T>, item: T)
    ensures Insert(s, 0, item) == Ok(s + [item])
  {
    var r := Insert(s, 0, item).value;
    assert r == s[..|s|] + [item] + s[|s|..];
    assert s[..|s|] == s && s[|s|..] == [];
    assert r == s + [item];
  }

  function Reverse<T>(s: seq<T>): (r: seq<T>)
    ensures |r| == |s|
  {
    if s == [] then [] else Reverse(s[1..]) + [s[0]]
  }

  /** Adding items one after another. */
  function AddAll<T>(s: seq<T>, items: seq<T>): (r: seq<T>)
    decreases |items|
  {
    if items == [] then s else AddAll(Add(s, items[0]), items[1..])
  }

  /** Adding a sequence of items shows them newest first, ahead of what was there. */
  lemma {:induction false} AddAllReverses<T>(s: seq<T>, items: seq<T>)
    ensures AddAll(s, items) == Reverse(items) + s
    decreases |items|
  {
    if items == [] {
      assert Reverse(items) + s == s;
    } else {
      var t := Add(s, items[0]);
      AddAllReverses(t, items[1..]);
      var older := Reverse(items[1..]);
      assert Reverse(items) == older + [items[0]];
      assert older + t == older + [items[0]] + s;
    }
  }
}
