/** The menu's search box: a non-empty query switches the menu from the suggestion tree to a
    flat list of the live pages whose titles contain the query. */
module Search {
  import opened JsBuiltins
  import opened Pinboard

  /** A page is offered as a search result when it is not in the trash and its title
      contains the query. */
  predicate Matches(meta: PageMeta, query: string) {
    !meta.trash && Includes(meta.title, query)
  }

  /** `metas.filter(meta => !meta.trash && meta.title.includes(query))`, taken from the back
      so that a prefix of the candidates yields a prefix of the results. */
  function SearchResult(metas: seq<PageMeta>, query: string): (r: seq<PageMeta>)
    ensures |r| <= |metas|
    ensures forall m :: m in r ==> m in metas && Matches(m, query)
    ensures forall m :: m in metas && Matches(m, query) ==> m in r
  {
    if |metas| == 0 then []
    else
      var last := metas[|metas| - 1];
      var rest := SearchResult(metas[..|metas| - 1], query);
      assert forall m :: m in metas ==> m in metas[..|metas| - 1] || m == last;
      if Matches(last, query) then rest + [last] else rest
  }

  /** The positions in metas of the pages that match, in increasing order. */
  function MatchIndices(metas: seq<PageMeta>, query: string): seq<nat>
  {
    if |metas| == 0 then []
    else
      var rest := MatchIndices(metas[..|metas| - 1], query);
      if Matches(metas[|metas| - 1], query) then rest + [|metas| - 1] else rest
  }

  /** The positions strictly increase. */
  ghost predicate Increasing(idx: seq<nat>) {
    forall k, l :: 0 <= k < l < |idx| ==> idx[k] < idx[l]
  }

  /** r lists the pages of metas at the positions idx, in that order. */
  ghost predicate PicksAt(r: seq<PageMeta>, metas: seq<PageMeta>, idx: seq<nat>) {
    |idx| == |r| && forall k :: 0 <= k < |idx| ==> idx[k] < |metas| && r[k] == metas[idx[k]]
  }

  /** The matching positions are positions of metas, listed in strictly increasing order. */
  lemma {:induction false} MatchIndicesIncreasing(metas: seq<PageMeta>, query: string)
    ensures forall k :: 0 <= k < |MatchIndices(metas, query)| ==> MatchIndices(metas, query)[k] < |metas|
    ensures Increasing(MatchIndices(metas, query))
  {
    if |metas| > 0 {
      MatchIndicesIncreasing(metas[..|metas| - 1], query);
    }
  }

  /** A position is listed exactly when the page there matches. */
  lemma {:induction false} MatchIndicesExact(metas: seq<PageMeta>, query: string)
    ensures forall j :: 0 <= j < |metas| ==> (j in MatchIndices(metas, query) <==> Matches(metas[j], query))
    ensures forall j :: j in MatchIndices(metas, query) ==> j < |metas|
  {
    if |metas| > 0 {
      var n := |metas| - 1;
      MatchIndicesExact(metas[..n], query);
      assert forall j :: 0 <= j < n ==> metas[..n][j] == metas[j];
    }
  }

  /** The k-th search result is the page at the k-th matching position. */
  lemma {:induction false} SearchResultAtMatchIndices(metas: seq<PageMeta>, query: string)
    ensures PicksAt(SearchResult(metas, query), metas, MatchIndices(metas, query))
  {
    if |metas| > 0 {
      SearchResultAtMatchIndices(metas[..|metas| - 1], query);
    }
  }

  /** The search result is the order-preserving subsequence of metas picked out by the
      matching positions: the k-th result is the page at the k-th matching position, the
      positions strictly increase, and they are exactly the positions of matching pages. */
  lemma SearchResultIsOrderedSubsequence(metas: seq<PageMeta>, query: string)
    ensures PicksAt(SearchResult(metas, query), metas, MatchIndices(metas, query))
    ensures Increasing(MatchIndices(metas, query))
    ensures forall j :: 0 <= j < |metas| ==> (j in MatchIndices(metas, query) <==> Matches(metas[j], query))
  {
    SearchResultAtMatchIndices(metas, query);
    MatchIndicesIncreasing(metas, query);
    MatchIndicesExact(metas, query);
  }

  /** Filtering distributes over concatenation of the candidate list. */
  lemma {:induction false} SearchResultAppend(a: seq<PageMeta>, b: seq<PageMeta>, query: string)
    ensures SearchResult(a + b, query) == SearchResult(a, query) + SearchResult(b, query)
    decreases |b|
  {
    if |b| > 0 {
      var b' := b[..|b| - 1];
      assert (a + b)[..|a + b| - 1] == a + b';
      SearchResultAppend(a, b', query);
    } else {
      assert a + b == a;
    }
  }

  /** With the empty query every live page matches, since the empty string is contained in
      every title: the filter then keeps exactly the pages that are not in the trash. */
  lemma EmptyQueryKeepsLivePages(metas: seq<PageMeta>)
    ensures forall m :: m in SearchResult(metas, "") <==> m in metas && !m.trash
  {
    forall m | m in metas && !m.trash
      ensures Matches(m, "")
    {
      IncludesEmpty(m.title);
    }
  }

  /** What the menu shows under the search box. */
  datatype MenuContent = SuggestionTree | SearchList(results: seq<PageMeta>)

  /** `isSearching = query.length > 0` decides the mode: a non-empty query shows the flat
      result list, even when it is empty; the empty query shows the suggestion tree and no
      flat list, although every live page would match it. */
  function Content(metas: seq<PageMeta>, query: string): (c: MenuContent)
    ensures c.SearchList? <==> |query| > 0
    ensures c.SearchList? ==> forall m :: m in c.results <==> m in metas && Matches(m, query)
    ensures c.SearchList? ==> c.results == SearchResult(metas, query)
  {
    if |query| > 0 then SearchList(SearchResult(metas, query)) else SuggestionTree
  }

  /** The query "Be" over "Alpha" and "Beta" lists only "Beta". */
  lemma SearchScenario()
    ensures var alpha := PageMeta("a", "Alpha", false, ["b"]);
      var beta := PageMeta("b", "Beta", false, []);
      Content([alpha, beta], "Be") == SearchList([beta])
  {
    assert Includes("Beta", "Be");
    assert !Includes("a", "Be");
    assert "ha"[1..] == "a" && "ha"[0] != 'B';
    assert !Includes("ha", "Be");
    assert "pha"[1..] == "ha" && "pha"[0] != 'B';
    assert !Includes("pha", "Be");
    assert "lpha"[1..] == "pha" && "lpha"[0] != 'B';
    assert !Includes("lpha", "Be");
    assert "Alpha"[1..] == "lpha" && "Alpha"[0] != 'B';
    assert !Includes("Alpha", "Be");
  }
}
