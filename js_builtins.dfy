/** The pieces of the JavaScript standard library that the pinboard menu relies on:
    `Array.prototype.find` and `findIndex`, `Array.prototype.splice` with a delete
    count of one, and `String.prototype.includes`. Each is stated by what it means,
    so that the component's handlers can be reasoned about without their source. */
module JsBuiltins {

  datatype Option<T> = None | Some(value: T)

  /** Position i holds the first element of s that satisfies p. */
  predicate IsFirstMatch<T>(s: seq<T>, p: T -> bool, i: int) {
    0 <= i < |s| && p(s[i]) && forall j :: 0 <= j < i ==> !p(s[j])
  }

  /** `s.findIndex(p)`: the index of the first element satisfying p, or -1 when no element does. */
  function FindIndex<T>(s: seq<T>, p: T -> bool): (r: int)
    ensures r == -1 <==> forall i :: 0 <= i < |s| ==> !p(s[i])
    ensures r != -1 ==> IsFirstMatch(s, p, r)
  {
    if |s| == 0 then -1
    else if p(s[0]) then 0
    else
      var k := FindIndex(s[1..], p);
      if k == -1 then -1
      else
        assert forall j :: 1 <= j < k + 1 ==> s[j] == s[1..][j - 1];
        k + 1
  }

  /** `s.find(p)`: the first element satisfying p, or `undefined` (None) when no element does. */
  function Find<T>(s: seq<T>, p: T -> bool): (r: Option<T>)
    ensures r.None? <==> forall i :: 0 <= i < |s| ==> !p(s[i])
    ensures r.Some? ==> exists i :: IsFirstMatch(s, p, i) && s[i] == r.value
  {
    var k := FindIndex(s, p);
    if k == -1 then None else Some(s[k])
  }

  /** The string q occurs in s starting at position i. */
  ghost predicate OccursAt(s: string, q: string, i: int) {
    0 <= i && i + |q| <= |s| && s[i..i + |q|] == q
  }

  /** `s.includes(q)`: q is a contiguous, case-sensitive substring of s. */
  function Includes(s: string, q: string): (r: bool)
    ensures r <==> exists i :: OccursAt(s, q, i)
    decreases |s|
  {
    if |q| > |s| then false
    else if q <= s then
      assert OccursAt(s, q, 0);
      true
    else
      OccursShift(s, q);
      Includes(s[1..], q)
  }

  /** When q is not a prefix of the non-empty s, q occurs in s exactly where it occurs in s[1..], one further on. */
  lemma OccursShift(s: string, q: string)
    requires |q| <= |s| && !(q <= s)
    ensures |s| > 0
    ensures (exists i :: OccursAt(s, q, i)) <==> (exists i :: OccursAt(s[1..], q, i))
  {
    forall i | OccursAt(s, q, i)
      ensures OccursAt(s[1..], q, i - 1)
    {
      assert i != 0;
      assert s[1..][i - 1..i - 1 + |q|] == s[i..i + |q|];
    }
    forall i | OccursAt(s[1..], q, i)
      ensures OccursAt(s, q, i + 1)
    {
      assert s[1..][i..i + |q|] == s[i + 1..i + 1 + |q|];
    }
  }

  /** A string that is written out between two others is included in the result. */
  lemma IncludesInfix(a: string, b: string, c: string)
    ensures Includes(a + b + c, b)
  {
    assert (a + b + c)[|a|..|a| + |b|] == b;
    assert OccursAt(a + b + c, b, |a|);
  }

  /** The empty string is included in every string. */
  lemma IncludesEmpty(s: string)
    ensures Includes(s, "")
  {
    assert OccursAt(s, "", 0);
  }

  /** Where `splice(start, ...)` on an array of length n begins: a negative start counts
      back from the end, and the position is clamped to 0..n. */
  function SpliceStart(start: int, n: nat): (k: nat)
    ensures k <= n
    ensures 0 <= start <= n ==> k == start
    ensures start < 0 && -start <= n ==> k == n + start
    ensures start > n ==> k == n
    ensures start < 0 && -start > n ==> k == 0
  {
    if start < 0 then (if n + start < 0 then 0 else n + start)
    else if start > n then n
    else start
  }

  /** The array's contents after `splice(start, 1)`: the element at SpliceStart(start)
      is dropped, when there is one, and every later element moves down by one. */
  function SpliceOne<T>(s: seq<T>, start: int): (r: seq<T>)
    ensures var k := SpliceStart(start, |s|);
      |r| == (if k < |s| then |s| - 1 else |s|) &&
      (forall i :: 0 <= i < k && i < |r| ==> r[i] == s[i]) &&
      (forall i :: k <= i < |r| ==> r[i] == s[i + 1])
  {
    var k := SpliceStart(start, |s|);
    if k < |s| then s[..k] + s[k + 1..] else s
  }
}
