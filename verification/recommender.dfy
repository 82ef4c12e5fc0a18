/**
 * The explore service's entry points: the generic fallback `getExplore`,
 * `getRandomSearches`, `getExploreWithRecommendations`, and the
 * `/recommendations` dispatch on whether the request carries a session.
 */
module Recommender {
  import opened Wrappers
  import opened Catalog
  import opened Frequency
  import opened KeywordPool
  import opened Ranking
  import opened Planner
  import opened FanOut
  import opened Dedup

  /** How many random searches a signed-in user's recommendations run. */
  const NITER := 3

  /** The interest tags the generic fallback shows. */
  const DEFAULT_TAGS: seq<string> := ["Fiction", "Comedy", "Mystery"]

  /** Who asks: no session, or the user id decoded from the session token. */
  datatype Identity = Anonymous | User(id: string)

  /** The response body: interest tags and recommended books. */
  datatype Recommendations = Recommendations(interestTags: seq<string>, recommendations: seq<Book>)

  /** The user's latest book visits and searches; `None` for a source that is absent. */
  datatype Activity = Activity(visits: Option<seq<BookVisit>>, searches: Option<seq<SearchRecord>>)

  /**
   * The random inputs of one request: an author coin per visit, the rolls of
   * each planned query, how each fetch settled and in which order, and the
   * random catalog sample the fallback returns.
   */
  datatype Oracle = Oracle(
    coins: seq<bool>,
    draws: seq<QueryDraw>,
    outcomes: seq<FetchOutcome>,
    order: seq<nat>,
    randomBooks: seq<Book>)

  /** The oracle has one coin per visit and one draw and one fetch per iteration. */
  predicate OracleFits(activity: Activity, oracle: Oracle) {
    && |oracle.coins| == |activity.visits.GetOr([])|
    && |oracle.draws| == NITER
    && (forall i :: 0 <= i < NITER ==> |oracle.draws[i].picks| >= MAX_KEYWORDS)
    && |oracle.outcomes| == NITER
    && IsSchedule(oracle.order, NITER)
  }

  /** `getExplore`: the fixed tags with the randomly sampled books. */
  function GetExplore(randomBooks: seq<Book>): Recommendations {
    Recommendations(DEFAULT_TAGS, randomBooks)
  }

  /** The pool the activity yields, absent sources counting as empty. */
  function ActivityPool(activity: Activity, coins: seq<bool>): seq<string>
    requires |coins| == |activity.visits.GetOr([])|
  {
    Pool(activity.visits.GetOr([]), coins, activity.searches.GetOr([]))
  }

  /** What `getRandomSearches` returns, or how it rejects. */
  function RandomSearches(outcomes: seq<FetchOutcome>, order: seq<nat>): Result<seq<Book>, FetchError>
    requires IsSchedule(order, |outcomes|)
  {
    match Settle(outcomes, order)
    case Success(results) => Success(UniqBy(results))
    case Failure(e) => Failure(e)
  }

  /** What `getExploreWithRecommendations` returns, or how it rejects. */
  function ExploreWithRecommendations(activity: Activity, oracle: Oracle): Result<Recommendations, FetchError>
    requires OracleFits(activity, oracle)
  {
    if activity.visits.None? && activity.searches.None? then Success(GetExplore(oracle.randomBooks))
    else
      match RandomSearches(oracle.outcomes, oracle.order)
      case Success(books) => Success(Recommendations(RankedTags(ActivityPool(activity, oracle.coins)), books))
      case Failure(e) => Failure(e)
  }

  /** What `/recommendations` sends for `identity`, or how it fails. */
  function Recommend(identity: Identity, activity: Activity, oracle: Oracle): Result<Recommendations, FetchError>
    requires identity.User? ==> OracleFits(activity, oracle)
  {
    match identity
    case Anonymous => Success(GetExplore(oracle.randomBooks))
    case User(_) => ExploreWithRecommendations(activity, oracle)
  }

  /**
   * `getRandomSearches(keywords, ntimes)`: plans `ntimes` queries, awaits all
   * their fetches and removes duplicate ISBNs from what arrived.
   */
  method GetRandomSearches(keywords: seq<string>, ntimes: nat, draws: seq<QueryDraw>,
                           outcomes: seq<FetchOutcome>, order: seq<nat>)
    returns (plans: seq<PlannedQuery>, r: Result<seq<Book>, FetchError>)
    requires |draws| == ntimes && |outcomes| == ntimes
    requires forall i :: 0 <= i < ntimes ==> |draws[i].picks| >= MAX_KEYWORDS
    requires IsSchedule(order, ntimes)
    ensures |plans| == ntimes
    ensures forall i :: 0 <= i < ntimes ==> plans[i] == PlanQuery(keywords, draws[i])
    ensures r == RandomSearches(outcomes, order)
    ensures r.Failure? <==> exists i :: 0 <= i < ntimes && outcomes[i].Rejected?
    ensures r.Success? ==> UniqueIsbns(r.value)
    ensures r.Success? ==> Isbns(r.value) == Isbns(Arrived(outcomes, order))
  {
    plans := PlanSearches(keywords, ntimes, draws);
    var settled := AwaitAll(outcomes, order);
    match settled
    case Failure(e) =>
      r := Failure(e);
    case Success(results) =>
      UniqBySpec(results);
      r := Success(UniqBy(results));
  }

  /**
   * `getExploreWithRecommendations(userId)`: with neither activity source,
   * the generic fallback; otherwise the pool of the latest visits and
   * searches, ranked for the interest tags and sampled for the searches.
   */
  method GetExploreWithRecommendations(activity: Activity, oracle: Oracle)
    returns (r: Result<Recommendations, FetchError>)
    requires OracleFits(activity, oracle)
    ensures r == ExploreWithRecommendations(activity, oracle)
  {
    if activity.visits.None? && activity.searches.None? {
      return Success(GetExplore(oracle.randomBooks));
    }
    var interestKeywords, interestTags :=
      BuildInterests(activity.visits.GetOr([]), activity.searches.GetOr([]), oracle.coins);
    var ranked := GetMostFrequentTags(interestKeywords);
    var plans, found := GetRandomSearches(interestKeywords, NITER, oracle.draws, oracle.outcomes, oracle.order);
    match found
    case Failure(e) =>
      r := Failure(e);
    case Success(books) =>
      r := Success(Recommendations(ranked, books));
  }

  /** The `/recommendations` handler: no session gets `getExplore`, a user their own. */
  method GetRecommendations(identity: Identity, activity: Activity, oracle: Oracle)
    returns (r: Result<Recommendations, FetchError>)
    requires identity.User? ==> OracleFits(activity, oracle)
    ensures r == Recommend(identity, activity, oracle)
    ensures identity.Anonymous? ==> r == Success(Recommendations(DEFAULT_TAGS, oracle.randomBooks))
  {
    match identity
    case Anonymous =>
      r := Success(GetExplore(oracle.randomBooks));
    case User(_) =>
      r := GetExploreWithRecommendations(activity, oracle);
  }

  /** The ISBNs of every item any fetch returned. */
  function FoundIsbns(outcomes: seq<FetchOutcome>): set<string> {
    set i, b | 0 <= i < |outcomes| && b in ItemsOf(outcomes[i]) :: b.isbn13
  }

  /**
   * `getRandomSearches` rejects exactly when a fetch did; otherwise it
   * returns one book per ISBN found by any search, whatever order the
   * searches completed in.
   */
  lemma RandomSearchesSpec(outcomes: seq<FetchOutcome>, order: seq<nat>)
    requires IsSchedule(order, |outcomes|)
    ensures RandomSearches(outcomes, order).Failure? <==> exists i :: 0 <= i < |outcomes| && outcomes[i].Rejected?
    ensures RandomSearches(outcomes, order).Success? ==>
      UniqueIsbns(RandomSearches(outcomes, order).value) &&
      Isbns(RandomSearches(outcomes, order).value) == FoundIsbns(outcomes)
  {
    SettleAnyOrder(outcomes, order);
    UniqBySpec(Arrived(outcomes, order));
    ArrivedIsbns(outcomes, order);
  }

  /** The ISBNs of the books that arrived are those found by some search. */
  lemma ArrivedIsbns(outcomes: seq<FetchOutcome>, order: seq<nat>)
    requires IsSchedule(order, |outcomes|)
    ensures Isbns(Arrived(outcomes, order)) == FoundIsbns(outcomes)
  {
    var arrived := Arrived(outcomes, order);
    ArrivedMembers(outcomes, order);
    forall k | k in Isbns(arrived) ensures k in FoundIsbns(outcomes) {
      var m :| 0 <= m < |arrived| && arrived[m].isbn13 == k;
      assert arrived[m] in arrived;
    }
    forall k | k in FoundIsbns(outcomes) ensures k in Isbns(arrived) {
      var i, b :| 0 <= i < |outcomes| && b in ItemsOf(outcomes[i]) && b.isbn13 == k;
      assert i in order;
      var j :| 0 <= j < |order| && order[j] == i;
      assert b in arrived;
      var m :| 0 <= m < |arrived| && arrived[m] == b;
    }
  }

  /**
   * A signed-in user with some activity gets, unless a search fetch
   * failed: interest tags ranking every keyword of the pool once, by
   * non-increasing count with ties in first-seen order, and recommendations
   * with one book per ISBN found by any search.
   */
  lemma RecommendSpec(id: string, activity: Activity, oracle: Oracle)
    requires OracleFits(activity, oracle)
    requires activity.visits.Some? || activity.searches.Some?
    ensures Recommend(User(id), activity, oracle).Failure? <==>
      exists i :: 0 <= i < NITER && oracle.outcomes[i].Rejected?
    ensures Recommend(User(id), activity, oracle).Success? ==>
      var res := Recommend(User(id), activity, oracle).value;
      var pool := ActivityPool(activity, oracle.coins);
      && (forall w :: w in res.interestTags <==> w in pool)
      && NoDuplicates(res.interestTags)
      && (forall i, j :: 0 <= i < j < |res.interestTags| ==>
            Occurrences(pool, res.interestTags[i]) >= Occurrences(pool, res.interestTags[j]))
      && (forall i, j ::
            (0 <= i < j < |res.interestTags| &&
             Occurrences(pool, res.interestTags[i]) == Occurrences(pool, res.interestTags[j])) ==>
            FirstIndex(pool, res.interestTags[i]) < FirstIndex(pool, res.interestTags[j]))
      && UniqueIsbns(res.recommendations)
      && Isbns(res.recommendations) == FoundIsbns(oracle.outcomes)
  {
    RankedTagsSpec(ActivityPool(activity, oracle.coins));
    RandomSearchesSpec(oracle.outcomes, oracle.order);
  }

  /**
   * Only absent sources fall back: a user whose sources are present but
   * empty gets no interest tags (not the default ones) and the results of
   * searches planned on an empty pool.
   */
  lemma EmptyActivityDoesNotFallBack(id: string, oracle: Oracle)
    requires OracleFits(Activity(Some([]), Some([])), oracle)
    requires forall i :: 0 <= i < NITER ==> oracle.outcomes[i].Fetched?
    ensures Recommend(User(id), Activity(Some([]), Some([])), oracle).Success?
    ensures Recommend(User(id), Activity(Some([]), Some([])), oracle).value.interestTags == []
    ensures Recommend(User(id), Activity(Some([]), Some([])), oracle).value.interestTags != DEFAULT_TAGS
  {
    var activity := Activity(Some([]), Some([]));
    RandomSearchesSpec(oracle.outcomes, oracle.order);
    RankedTagsSpec(ActivityPool(activity, oracle.coins));
    assert ActivityPool(activity, oracle.coins) == [];
  }
}
