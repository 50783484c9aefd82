/** "Remove from Pinboard": detach the current page from the first page that lists it as a
    child, by removing the first occurrence of its identifier from that parent's child list. */
module Removal {
  import opened JsBuiltins
  import opened Pinboard

  /** Position i holds the first page whose child list contains id. */
  predicate IsFirstParent(metas: seq<PageMeta>, id: string, i: int) {
    0 <= i < |metas| && id in metas[i].subpageIds &&
    forall j :: 0 <= j < i ==> id !in metas[j].subpageIds
  }

  /** `metas.find(m => m.subpageIds.includes(id))`: the parent of the page with this id. */
  function FindParent(metas: seq<PageMeta>, id: string): (r: Option<PageMeta>)
    ensures r.None? <==> forall i :: 0 <= i < |metas| ==> id !in metas[i].subpageIds
    ensures r.Some? ==> exists i :: IsFirstParent(metas, id, i) && metas[i] == r.value
  {
    Find(metas, (m: PageMeta) => id in m.subpageIds)
  }

  /** `ids.findIndex(y => y === x)`: where x first occurs, or -1. */
  function IndexOf(ids: seq<string>, x: string): (r: int)
    ensures -1 <= r < |ids|
    ensures r == -1 <==> x !in ids
    ensures r != -1 ==> ids[r] == x && x !in ids[..r]
  {
    FindIndex(ids, (y: string) => y == x)
  }

  /** The first occurrence of x is the only position that holds x with no x before it. */
  lemma IndexOfUnique(ids: seq<string>, x: string, i: int)
    requires 0 <= i < |ids| && ids[i] == x && x !in ids[..i]
    ensures IndexOf(ids, x) == i
  {
  }

  /** Reference definition: the list with the first occurrence of x taken out. */
  function RemoveFirst(ids: seq<string>, x: string): seq<string>
  {
    if ids == [] then []
    else if ids[0] == x then ids[1..]
    else [ids[0]] + RemoveFirst(ids[1..], x)
  }

  /** Removing the first occurrence keeps everything before it and everything after it, in
      order; later duplicates of x are among what is kept. */
  lemma {:induction false} RemoveFirstAt(ids: seq<string>, x: string)
    requires x in ids
    ensures var i := IndexOf(ids, x);
      0 <= i && RemoveFirst(ids, x) == ids[..i] + ids[i + 1..]
  {
    if ids[0] == x {
      IndexOfUnique(ids, x, 0);
    } else {
      var tail := ids[1..];
      RemoveFirstAt(tail, x);
      var k := IndexOf(tail, x);
      assert ids[..k + 1] == [ids[0]] + tail[..k];
      IndexOfUnique(ids, x, k + 1);
      assert ids[..k + 1] + ids[k + 2..] == [ids[0]] + (tail[..k] + tail[k + 1..]);
    }
  }

  /** A list without x is left as it is. */
  lemma {:induction false} RemoveFirstAbsent(ids: seq<string>, x: string)
    requires x !in ids
    ensures RemoveFirst(ids, x) == ids
  {
    if ids != [] {
      RemoveFirstAbsent(ids[1..], x);
    }
  }

  /** Exactly one copy of x goes, and nothing else: the new list is one shorter and holds the
      same identifiers, each as often as before, except x, once less. */
  lemma {:induction false} RemoveFirstMultiset(ids: seq<string>, x: string)
    requires x in ids
    ensures |RemoveFirst(ids, x)| == |ids| - 1
    ensures multiset(RemoveFirst(ids, x)) == multiset(ids) - multiset{x}
  {
    if ids[0] != x {
      RemoveFirstMultiset(ids[1..], x);
      assert ids == [ids[0]] + ids[1..];
    } else {
      assert ids == [x] + ids[1..];
    }
  }

  /** Putting x back where it was restores the original list. */
  lemma ReinsertRestores(ids: seq<string>, x: string)
    requires x in ids
    ensures var i, r := IndexOf(ids, x), RemoveFirst(ids, x);
      0 <= i <= |r| && r[..i] + [x] + r[i..] == ids
  {
    RemoveFirstAt(ids, x);
    var i, r := IndexOf(ids, x), RemoveFirst(ids, x);
    assert r[..i] == ids[..i];
    assert r[i..] == ids[i + 1..];
    assert ids == ids[..i] + [ids[i]] + ids[i + 1..];
  }

  /** The handler's `findIndex` followed by `splice(index, 1)` is the reference removal, and
      the index it splices at is a real position (not -1), because the parent was chosen for
      containing the identifier. */
  lemma SpliceRemovesFirst(ids: seq<string>, x: string)
    requires x in ids
    ensures 0 <= IndexOf(ids, x) < |ids|
    ensures SpliceOne(ids, IndexOf(ids, x)) == RemoveFirst(ids, x)
  {
    RemoveFirstAt(ids, x);
  }

  /** If the chosen list did not hold x, `findIndex` would yield -1 and `splice(-1, 1)` would
      drop the last identifier instead; the handler never reaches this case, because it
      picks the parent by `subpageIds.includes(id)`. */
  lemma SpliceAtMissingDropsLast(ids: seq<string>, x: string)
    requires x !in ids && ids != []
    ensures SpliceOne(ids, IndexOf(ids, x)) == ids[..|ids| - 1]
  {
  }

  /** The `setPageMeta` calls the removal handler makes. */
  function RemovalEffects(metas: seq<PageMeta>, id: string): (e: seq<Effect>)
    ensures |e| <= 1
    ensures e == [] <==> forall i :: 0 <= i < |metas| ==> id !in metas[i].subpageIds
    ensures e != [] ==>
      e[0].SetPageMeta? &&
      exists i ::
        IsFirstParent(metas, id, i) && e[0].pageId == metas[i].id &&
        e[0].subpageIds == RemoveFirst(metas[i].subpageIds, id)
  {
    var parent := FindParent(metas, id);
    if parent.None? then []
    else [SetPageMeta(parent.value.id, RemoveFirst(parent.value.subpageIds, id))]
  }

  /** `findIndex` over the copied array: a linear scan for the first x. */
  method FindIndexIn(a: array<string>, x: string) returns (k: int)
    ensures k == IndexOf(a[..], x)
  {
    k := 0;
    while k < a.Length
      invariant 0 <= k <= a.Length
      invariant x !in a[..k]
    {
      if a[k] == x {
        IndexOfUnique(a[..], x, k);
        return;
      }
      assert a[..k + 1] == a[..k] + [a[k]];
      k := k + 1;
    }
    assert a[..] == a[..k];
    k := -1;
  }

  /** `splice(start, 1)` on the array in place: the elements after the removed one move
      down by one, and the returned length is the array's new length. */
  method SpliceOneInPlace(a: array<string>, start: int) returns (len: nat)
    modifies a
    ensures len <= a.Length
    ensures a[..len] == SpliceOne(old(a[..]), start)
  {
    var k := SpliceStart(start, a.Length);
    if k == a.Length {
      return a.Length;
    }
    var i := k;
    while i < a.Length - 1
      invariant k <= i <= a.Length - 1
      invariant forall j :: 0 <= j < k ==> a[j] == old(a[j])
      invariant forall j :: k <= j < i ==> a[j] == old(a[j + 1])
      invariant forall j :: i <= j < a.Length ==> a[j] == old(a[j])
    {
      a[i] := a[i + 1];
      i := i + 1;
    }
    len := a.Length - 1;
  }

  /** The handler's list edit: copy the parent's child list into a fresh array, find the
      first x in the copy and splice it out there. The caller's list is a value, so the
      parent's own list is not affected. */
  method RemoveFirstInCopy(ids: seq<string>, x: string) returns (newIds: seq<string>)
    requires x in ids
    ensures newIds == RemoveFirst(ids, x)
  {
    var copy := new string[|ids|](i requires 0 <= i < |ids| => ids[i]);
    assert copy[..] == ids;
    var deleteIndex := FindIndexIn(copy, x);
    SpliceRemovesFirst(ids, x);
    var len := SpliceOneInPlace(copy, deleteIndex);
    newIds := copy[..len];
  }

  /** Detaching "b" from "a" in the two-page workspace clears a's child list. */
  lemma RemovalScenario()
    ensures var alpha := PageMeta("a", "Alpha", false, ["b"]);
      var beta := PageMeta("b", "Beta", false, []);
      RemovalEffects([alpha, beta], beta.id) == [SetPageMeta("a", [])]
  {
    var alpha := PageMeta("a", "Alpha", false, ["b"]);
    assert FindParent([alpha, PageMeta("b", "Beta", false, [])], "b") == Some(alpha);
  }
}
