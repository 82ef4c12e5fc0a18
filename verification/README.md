# Explore recommender

This is a Dafny model of the recommender in the De-Lib-Anne backend's explore service. The service answers `GET /recommendations`:

- A caller without a session gets the generic explore page. It shows three fixed interest tags ("Fiction", "Comedy", "Mystery") and a random sample of the catalog.
- A signed-in user gets recommendations built from their own activity, in these steps:
  1. It reads the user's latest book visits and searches.
  2. It builds a keyword pool from them:
     - every tag of every visited book;
     - the book's author, with a random chance per visit;
     - every search term.
  3. It ranks the pool's keywords by how often they occur. The ranking is the response's interest tags.
  4. It runs three random searches on the pool. Each search has these steps:
     - it samples one to three keywords from the pool;
     - it joins them with spaces into a query;
     - it picks a result limit from 3 to 6;
     - it fetches the search service.
  5. It merges the search results and removes books with a duplicate ISBN. What is left is the recommendations.

## How the model is organised

- `Wrappers`: the `Option` and `Result` types.
- `Catalog`: a `Book`, which is identified by its `isbn13`, and the set of ISBNs of a list of books.
- `Frequency`: `getFreqs`.
  - It is a single loop that fills a dictionary. The dictionary is a `Counts` value: keys in insertion order plus a map.
  - `GetFreqs` is the loop, with its invariant.
  - `Frequencies` and `Distinct` specify it.
- `Ranking`: `getMostFrequentTags`. It turns the counts into `[key, count]` pairs, sorts them in place by descending count, and keeps the keys.
  - The sort is an insertion sort on an `array` (`SortByCountDesc`). It is proved equal to the function `SortDesc`.
  - `SortDesc` is proved to be a permutation, descending, and stable.
  - The JavaScript comparator `b[1] - a[1]` leaves equal counts in input order, because `Array.prototype.sort` is stable. A stable sort by this key has exactly one possible result.
- `KeywordPool`: the two `forEach` loops that build `interestKeywords` and `interestTags` (`BuildInterests`). The function `Pool` describes the result.
- `Planner`: the planning loop of `getRandomSearches`.
  - lodash's `random(lower, upper)` is driven by an integer roll: `lower + roll % (upper - lower + 1)`. Every value in the range is reachable.
  - lodash's `sampleSize(pool, n)` first clamps `n` to `[0, |pool|]`. It then draws that many positions without replacement, each chosen by a roll.
- `FanOut`: the fetches and `Promise.all`.
  - Each fetch's outcome is an input: the items it returned, or a rejection.
  - The order in which the fetches settle is also an input, as a permutation of their indices.
  - Each fulfilled callback appends its items to `results` in that order.
  - The first rejection rejects the whole `Promise.all`.
- `Dedup`: lodash's `uniqBy(results, 'isbn13')`. It is a left-to-right scan that keeps the first item for each ISBN.
- `Recommender`:
  - `getExplore`;
  - `getRandomSearches`;
  - `getExploreWithRecommendations`;
  - the `/recommendations` handler, which dispatches on whether the request carries a session.

  The random inputs of one request are collected in an `Oracle`:
  - one author coin per visit;
  - the rolls of each planned query;
  - the outcome of each fetch and the order they settled in;
  - the catalog sample.

### Behaviour kept as the code has it

- **What is ranked.** The ranking is computed from `interestKeywords` (recommender.js:124), so it includes authors and search terms. The `interestTags` array is built (recommender.js:100), but nothing reads it. `BuildInterests` returns it, and nothing else uses it.
- **Fetch failures.** Any rejected fetch rejects the whole request (recommender.js:222, 123-125). No partial result is returned.
- **Result order.** Search results are appended in the order the fetches complete (recommender.js:214), not in the order the queries were planned.
- **Empty pool.** An empty pool still plans three queries. Each one has an empty `q` (recommender.js:195-199).
- **Fallback.** The fallback to `getExplore` happens only when both activity sources are absent (recommender.js:89). In the model, "absent" is `None`. Present but empty activity gives empty interest tags, not the default tags.

## Model

| member | source | states |
|---|---|---|
| Frequency.GetFreqs | services/explore/recommender/recommender.js:141-149 | The loop's dictionary has exactly the keywords of the input. Each keyword is counted as often as it occurs. The keys are listed in first-occurrence order. |
| Frequency.Distinct | services/explore/recommender/recommender.js:144-145 | The dictionary's key list holds each keyword of the input, and only those, with no repeats. |
| Frequency.DistinctInFirstSeenOrder | services/explore/recommender/recommender.js:144-145 | The keys appear in increasing order of their first occurrence in the input. |
| Frequency.CountAgain | services/explore/recommender/recommender.js:145 | A keyword already counted has its count incremented. The key order stays the same. |
| Frequency.CountFirst | services/explore/recommender/recommender.js:145 | A keyword seen for the first time is added with count 1, after the existing keys. |
| Ranking.SortByCountDesc | services/explore/recommender/recommender.js:160 | The in-place sort leaves the array equal to the stable descending sort of its old contents. |
| Ranking.InsertLast | services/explore/recommender/recommender.js:160 | One step of the sort inserts the next entry into the sorted prefix. The entries after it are unchanged. |
| Ranking.InsertPosIs | services/explore/recommender/recommender.js:160 | Exactly one insertion point has every later entry smaller and the entry before it at least as large. |
| Ranking.SortDescPermutes | services/explore/recommender/recommender.js:160 | The sort is a permutation of the pairs (same multiset). |
| Ranking.SortDescIsDescending | services/explore/recommender/recommender.js:160 | After the sort, counts never increase from left to right. |
| Ranking.SortDescKeepsUniqueKeys | services/explore/recommender/recommender.js:159-160 | Sorting pairs with distinct keys keeps the keys distinct. |
| Ranking.SortDescIsStable | services/explore/recommender/recommender.js:160 | Pairs with equal counts keep their input order. |
| Ranking.PairsOfSpec | services/explore/recommender/recommender.js:154-159 | `toPairs` gives one pair per distinct keyword with its count, in first-occurrence order, with distinct keys. |
| Ranking.SortedPairsSpec | services/explore/recommender/recommender.js:154-166 | Each sorted pair is a keyword of the input with its true count, and every keyword appears among the ranked keys. |
| Ranking.RankedTagsCover | services/explore/recommender/recommender.js:159-166 | No keyword of the input is lost by sorting and projecting. |
| Ranking.RankedTagsSpec | services/explore/recommender/recommender.js:136-170 | The ranked keys are exactly the keywords of the input, each once. Their counts never increase, and ties appear in first-occurrence order. |
| Ranking.GetMostFrequentTags | services/explore/recommender/recommender.js:136-170 | `getMostFrequentTags` returns the ranking, with the four properties above. |
| KeywordPool.BuildInterests | services/explore/recommender/recommender.js:95-117 | The two loops build `interestKeywords` as `Pool` and `interestTags` as the concatenation of every visit's tags. |
| KeywordPool.SearchTerms | services/explore/recommender/recommender.js:113-117 | The searches contribute their terms, one per search, in order. |
| KeywordPool.VisitsComposition | services/explore/recommender/recommender.js:96-107 | The visits contribute exactly all their tags plus the authors whose coin fired. |
| KeywordPool.PoolComposition | services/explore/recommender/recommender.js:95-117 | The pool is exactly the tags, the included authors and the search terms, with multiplicities (no deduplication). |
| KeywordPool.PoolLength | services/explore/recommender/recommender.js:95-117 | The pool's length is the number of tags plus the number of coins that fired plus the number of searches. |
| KeywordPool.TagCount | services/explore/recommender/recommender.js:99-100 | `interestTags` has as many entries as there are tags over all visits. |
| KeywordPool.AuthorCount | services/explore/recommender/recommender.js:104-106 | One author is added per visit whose coin fired. |
| Planner.RandomInt | services/explore/recommender/recommender.js:195 | `random(lower, upper)` lies in the inclusive range. |
| Planner.RandomIntReaches | services/explore/recommender/recommender.js:195 | Every value of the range is produced by some roll. |
| Planner.ClampCount | services/explore/recommender/recommender.js:195 | The sample size is clamped to the pool's length and never negative. |
| Planner.DrawPositions | services/explore/recommender/recommender.js:195 | `sampleSize` draws `min(n, length)` distinct positions of the pool. |
| Planner.DrawPositionsReaches | services/explore/recommender/recommender.js:195 | Every sequence of distinct available positions, in any order, is what `sampleSize` draws for some rolls, however many rolls are supplied beyond its length. |
| Planner.PlanQueryReaches | services/explore/recommender/recommender.js:195-200 | Every query the planner can send is planned by some draw: any one to three distinct pool positions, in any order, with any limit from 3 to 6. |
| Planner.PlanQuerySpec | services/explore/recommender/recommender.js:195-200 | A planned query asks for 1 to 3 keywords and gets that many distinct pool positions, or fewer when the pool is shorter. `q` is those keywords joined with spaces, and the limit is 3 to 6. |
| Planner.RepeatedKeywordCanRepeat | services/explore/recommender/recommender.js:195 | Sampling is by position. From the pool `[w, w]`, asking for two keywords gives `[w, w]`. |
| Planner.EmptyPoolPlansEmptyQuery | services/explore/recommender/recommender.js:195-199 | An empty pool yields a query with no keywords and an empty `q`. |
| Planner.PlanSearches | services/explore/recommender/recommender.js:186-217 | The loop plans exactly `ntimes` queries. The i-th uses the i-th draw. |
| FanOut.FirstRejected | services/explore/recommender/recommender.js:222 | Finds the first rejection in completion order, and finds none exactly when every fetch succeeded. |
| FanOut.ArrivedMembers | services/explore/recommender/recommender.js:209-215 | A book is in `results` exactly when some settled fetch returned it. |
| FanOut.SettleAnyOrder | services/explore/recommender/recommender.js:209-222 | Whatever the completion order, `Promise.all` rejects exactly when some fetch rejected. The error names a rejected fetch, and the same books arrive. |
| FanOut.AwaitAll | services/explore/recommender/recommender.js:209-222 | Running the callbacks in completion order gives what `Settle` describes. It fails exactly when a fetch was rejected. |
| Dedup.UniqFromSpec | services/explore/recommender/recommender.js:229 | The scan keeps a subsequence with unique ISBNs: exactly the ISBNs not seen before. |
| Dedup.UniqFromKeepsFirst | services/explore/recommender/recommender.js:229 | Each kept item is the first item with its ISBN. |
| Dedup.UniqFromUnique | services/explore/recommender/recommender.js:229 | A list with unique, unseen ISBNs passes unchanged. |
| Dedup.UniqBySpec | services/explore/recommender/recommender.js:227-229 | `uniqBy` keeps one item per ISBN, loses no ISBN, keeps the first item for each ISBN, and keeps input order. |
| Dedup.UniqByIdempotent | services/explore/recommender/recommender.js:229 | Deduplicating twice is deduplicating once. |
| Dedup.UniqueIsbnsCount | services/explore/recommender/recommender.js:229 | A list with unique ISBNs has one element per ISBN. |
| Dedup.UniqByArrangement | services/explore/recommender/recommender.js:214-229 | Whatever the completion order, the deduplicated results have the same ISBNs and the same length. |
| Dedup.FirstWriteWins | services/explore/recommender/recommender.js:229 | A later duplicate ISBN is dropped in favour of the earlier item. |
| Recommender.GetRandomSearches | services/explore/recommender/recommender.js:172-230 | Plans `ntimes` queries and rejects exactly when a fetch rejected. Otherwise it returns books with unique ISBNs that cover every ISBN that arrived. |
| Recommender.RandomSearchesSpec | services/explore/recommender/recommender.js:172-230 | `getRandomSearches` fails exactly when a fetch failed. Otherwise it returns one book for each ISBN found by any search. |
| Recommender.ArrivedIsbns | services/explore/recommender/recommender.js:209-222 | The ISBNs in `results` are exactly those returned by some fetch. |
| Recommender.GetExploreWithRecommendations | services/explore/recommender/recommender.js:59-130 | With both sources absent, returns the fallback. Otherwise returns the ranked pool and the deduplicated search results, or the fetch failure. |
| Recommender.RecommendSpec | services/explore/recommender/recommender.js:86-129 | A signed-in user with some activity fails exactly when a fetch failed. Otherwise the interest tags rank every pool keyword once, by non-increasing count with ties in first-seen order. The recommendations hold one book per ISBN found. |
| Recommender.EmptyActivityDoesNotFallBack | services/explore/recommender/recommender.js:89-93 | Present but empty activity gives empty interest tags, not the default ones. |
| Recommender.GetRecommendations | services/explore/main.js:44-51 | Without a session, the response is `getExplore`: the tags Fiction, Comedy and Mystery with the catalog sample (recommender.js:49). With a session, it is `getExploreWithRecommendations`. |

## Left out

- Database queries are not modelled. The model leaves out:
  - the Mongo `find` for visits and searches, their `limit: 5`, and the sort by time;
  - the `$rand` sample of `getExplore` and its `$lookup` of ratings.

  Their results are inputs: the `Activity` and `Oracle.randomBooks`.
- `Math.random()`, lodash's internal generator, and the exact distribution of `random` and `sampleSize` are not modelled. They are replaced by oracle rolls. `Planner.RandomIntReaches`, `Planner.DrawPositionsReaches` and `Planner.PlanQueryReaches` prove that these rolls reach every value of each range, every ordered sample of distinct positions and every query the planner can send.
- The model does not build the search URL: no `URLSearchParams` encoding and no HTTP request. A fetch is an input that settles with a list of books or with a rejection. The `limit` parameter is planned, but the search service ignores it (services/search/main.js uses a fixed `$limit: 12`).
- Concurrency is modelled only as the order in which the fetches settle. `getMostFrequentTags` is `async` but never awaits, so the call at recommender.js:124 runs its whole body before `getRandomSearches` is called and before any fetch is issued; the model ranks first for that reason.
- JavaScript object key order is not modelled exactly. The model keeps keys in insertion order. JavaScript lists integer-like keys (such as a search term "1984") first, in numeric order.
- Keywords that collide with `Object.prototype` names (such as "constructor") are not modelled.
- Books without an `isbn13` field are not modelled; `uniqBy` would group them under `undefined`.
- Interest tags and keywords are plain strings. The model does no encoding or case handling.
- Recommender.GetExploreWithRecommendations: the `None` sources stand for the `null` checked at recommender.js:89. A Mongo cursor is never `null`, so in practice that fallback is unreachable; the model keeps the branch as written.
- The `/recommendations/bykeyword` endpoint is not part of this model.
- The token check `verifyJwt`, imported at services/explore/main.js:7 from services/explore/utils/jwt_utils.js, is not part of this model. The project's other `verifyJwt` (services/wishlist/utils/jwt_utils.js:11-31) answers 403 to an expired or invalid token, and the handler never runs. The model starts once the request has either no token cookie (`Anonymous`) or a valid one (`User`).
- The other services, the trackers and the `db.js` connection setup are not part of this model: auth, wishlist, book details, search, usertrack.
- Console logging is not modelled.
