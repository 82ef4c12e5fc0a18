/**
 * The first half of `getExploreWithRecommendations`: the keyword pool built
 * from the latest book visits and searches.  Duplicates are kept on purpose,
 * so that frequent keywords weigh more when the planner samples the pool.
 */
module KeywordPool {

  /** A tracked visit of a book's detail page. */
  datatype BookVisit = BookVisit(tags: seq<string>, author: string)

  /** A tracked search. */
  datatype SearchRecord = SearchRecord(searchTerm: string)

  /** What one visit adds to the pool: its tags, then its author when its coin fired. */
  function VisitKeywords(v: BookVisit, includeAuthor: bool): seq<string> {
    v.tags + (if includeAuthor then [v.author] else [])
  }

  /** The pool after the visits: each visit's contribution, in visit order. */
  function VisitsKeywords(visits: seq<BookVisit>, coins: seq<bool>): seq<string>
    requires |coins| == |visits|
  {
    if visits == [] then []
    else
      var n := |visits| - 1;
      VisitsKeywords(visits[..n], coins[..n]) + VisitKeywords(visits[n], coins[n])
  }

  /** All tags of all visits, in order (the `interestTags` array). */
  function AllTags(visits: seq<BookVisit>): seq<string> {
    if visits == [] then [] else AllTags(visits[..|visits| - 1]) + visits[|visits| - 1].tags
  }

  /** The authors whose visit's coin fired, in visit order. */
  function IncludedAuthors(visits: seq<BookVisit>, coins: seq<bool>): seq<string>
    requires |coins| == |visits|
  {
    if visits == [] then []
    else
      var n := |visits| - 1;
      IncludedAuthors(visits[..n], coins[..n]) + (if coins[n] then [visits[n].author] else [])
  }

  /** The search terms, in order. */
  function SearchTerms(searches: seq<SearchRecord>): (terms: seq<string>)
    ensures |terms| == |searches|
    ensures forall i :: 0 <= i < |searches| ==> terms[i] == searches[i].searchTerm
  {
    if searches == [] then []
    else SearchTerms(searches[..|searches| - 1]) + [searches[|searches| - 1].searchTerm]
  }

  /** The whole pool (`interestKeywords`): the visits' keywords, then every search term. */
  function Pool(visits: seq<BookVisit>, coins: seq<bool>, searches: seq<SearchRecord>): seq<string>
    requires |coins| == |visits|
  {
    VisitsKeywords(visits, coins) + SearchTerms(searches)
  }

  /** Number of tags over all visits. */
  function TotalTags(visits: seq<BookVisit>): nat {
    if visits == [] then 0 else TotalTags(visits[..|visits| - 1]) + |visits[|visits| - 1].tags|
  }

  /** Number of coins that fired. */
  function CountTrue(coins: seq<bool>): nat {
    if coins == [] then 0 else CountTrue(coins[..|coins| - 1]) + (if coins[|coins| - 1] then 1 else 0)
  }

  /**
   * The pool holds exactly the tags of every visit, the included authors and
   * the search terms, each as often as it was added: nothing is deduplicated.
   */
  lemma {:induction false} PoolComposition(visits: seq<BookVisit>, coins: seq<bool>, searches: seq<SearchRecord>)
    requires |coins| == |visits|
    ensures multiset(Pool(visits, coins, searches)) ==
      multiset(AllTags(visits)) + multiset(IncludedAuthors(visits, coins)) + multiset(SearchTerms(searches))
  {
    VisitsComposition(visits, coins);
  }

  /** The visits' part of the pool is their tags plus the included authors. */
  lemma {:induction false} VisitsComposition(visits: seq<BookVisit>, coins: seq<bool>)
    requires |coins| == |visits|
    ensures multiset(VisitsKeywords(visits, coins)) ==
      multiset(AllTags(visits)) + multiset(IncludedAuthors(visits, coins))
  {
    if visits != [] {
      var n := |visits| - 1;
      VisitsComposition(visits[..n], coins[..n]);
    }
  }

  /** The pool's length is the number of tags plus included authors plus searches. */
  lemma {:induction false} PoolLength(visits: seq<BookVisit>, coins: seq<bool>, searches: seq<SearchRecord>)
    requires |coins| == |visits|
    ensures |Pool(visits, coins, searches)| == TotalTags(visits) + CountTrue(coins) + |searches|
  {
    PoolComposition(visits, coins, searches);
    TagCount(visits);
    AuthorCount(visits, coins);
    assert |multiset(Pool(visits, coins, searches))| == |Pool(visits, coins, searches)|;
  }

  /** `AllTags` has `TotalTags` elements. */
  lemma {:induction false} TagCount(visits: seq<BookVisit>)
    ensures |AllTags(visits)| == TotalTags(visits)
  {
    if visits != [] {
      TagCount(visits[..|visits| - 1]);
    }
  }

  /** One author is included per coin that fired. */
  lemma {:induction false} AuthorCount(visits: seq<BookVisit>, coins: seq<bool>)
    requires |coins| == |visits|
    ensures |IncludedAuthors(visits, coins)| == CountTrue(coins)
  {
    if visits != [] {
      var n := |visits| - 1;
      AuthorCount(visits[..n], coins[..n]);
      assert coins[..n] == coins[..|coins| - 1];
    }
  }

  /**
   * Builds `interestKeywords` and `interestTags` as the two `forEach` loops do:
   * per visit its tags, then its author when `coins[i]` fired (the source's
   * `Math.random() > authorProb`); then each search's term.
   */
  method BuildInterests(visits: seq<BookVisit>, searches: seq<SearchRecord>, coins: seq<bool>)
    returns (interestKeywords: seq<string>, interestTags: seq<string>)
    requires |coins| == |visits|
    ensures interestKeywords == Pool(visits, coins, searches)
    ensures interestTags == AllTags(visits)
  {
    interestKeywords, interestTags := [], [];
    for i := 0 to |visits|
      invariant interestKeywords == VisitsKeywords(visits[..i], coins[..i])
      invariant interestTags == AllTags(visits[..i])
    {
      assert visits[..i + 1][..i] == visits[..i];
      assert coins[..i + 1][..i] == coins[..i];
      interestKeywords := interestKeywords + visits[i].tags;
      interestTags := interestTags + visits[i].tags;
      if coins[i] {
        interestKeywords := interestKeywords + [visits[i].author];
      }
    }
    assert visits[..|visits|] == visits && coins[..|coins|] == coins;
    ghost var afterVisits := interestKeywords;
    for i := 0 to |searches|
      invariant interestKeywords == afterVisits + SearchTerms(searches[..i])
    {
      assert searches[..i + 1][..i] == searches[..i];
      interestKeywords := interestKeywords + [searches[i].searchTerm];
    }
    assert searches[..|searches|] == searches;
  }
}
