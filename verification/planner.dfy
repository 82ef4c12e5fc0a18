/**
 * The planning loop of `getRandomSearches`: `ntimes` queries, each made of a
 * random number of keywords sampled from the pool and a random result limit.
 * lodash's `random` and `sampleSize` are driven by oracle rolls, so that every
 * outcome the library can produce is one of the model's.
 */
module Planner {
  import opened Frequency

  const MIN_KEYWORDS := 1
  const MAX_KEYWORDS := 3
  const MIN_SEARCH_RES_LIMIT := 3
  const MAX_SEARCH_RES_LIMIT := 6

  function Min(a: int, b: int): int {
    if a <= b then a else b
  }

  /** lodash `random(lower, upper)` on integers, its uniform draw replaced by the integer `roll`. */
  function RandomInt(lower: int, upper: int, roll: int): (r: int)
    requires lower <= upper
    ensures lower <= r <= upper
  {
    lower + roll % (upper - lower + 1)
  }

  /** Every value of the range is drawn by some roll. */
  lemma RandomIntReaches(lower: int, upper: int, v: int)
    requires lower <= v <= upper
    ensures RandomInt(lower, upper, v - lower) == v
  {
    assert 0 <= v - lower < upper - lower + 1;
  }

  /** lodash `baseClamp(n, 0, length)`, which `sampleSize` applies to its count. */
  function ClampCount(n: int, length: nat): (c: nat)
    ensures c <= length && (0 <= n ==> c == Min(n, length))
  {
    if n < 0 then 0 else if n > length then length else n
  }

  /** The positions 0, 1, ..., m - 1 of a pool of length m. */
  function Positions(m: nat): (ps: seq<nat>)
    ensures |ps| == m && forall k :: 0 <= k < m ==> ps[k] == k
  {
    seq(m, k => k)
  }

  /**
   * `n` positions drawn without replacement from `avail`: each draw takes
   * the available position that `picks` selects and removes it.
   */
  function DrawPositions(avail: seq<nat>, n: nat, picks: seq<int>): (pos: seq<nat>)
    requires n <= |picks|
    requires NoDuplicates(avail)
    ensures |pos| == Min(n, |avail|)
    ensures forall k :: 0 <= k < |pos| ==> pos[k] in avail
    ensures NoDuplicates(pos)
    decreases n
  {
    if n == 0 || avail == [] then []
    else
      var i := picks[0] % |avail|;
      var rest := avail[..i] + avail[i + 1..];
      assert forall k :: 0 <= k < |rest| ==> rest[k] != avail[i] && rest[k] in avail by {
        forall k | 0 <= k < |rest| ensures rest[k] != avail[i] && rest[k] in avail {
          if k < i { assert rest[k] == avail[k]; } else { assert rest[k] == avail[k + 1]; }
        }
      }
      [avail[i]] + DrawPositions(rest, n - 1, picks[1..])
  }

  /** Removing the entry at `i` keeps every other entry of `avail`. */
  lemma RemoveAtKeeps(avail: seq<nat>, i: nat, x: nat)
    requires i < |avail| && x in avail && x != avail[i]
    ensures x in avail[..i] + avail[i + 1..]
  {
    var m :| 0 <= m < |avail| && avail[m] == x;
    var rest := avail[..i] + avail[i + 1..];
    if m < i { assert rest[m] == x; } else { assert rest[m - 1] == x; }
  }

  /** Removing an entry from a sequence without duplicates leaves one without duplicates. */
  lemma RemoveAtNoDuplicates(avail: seq<nat>, i: nat)
    requires i < |avail| && NoDuplicates(avail)
    ensures NoDuplicates(avail[..i] + avail[i + 1..])
  {
    var rest := avail[..i] + avail[i + 1..];
    forall a, b | 0 <= a < b < |rest| ensures rest[a] != rest[b] {
      var a', b' := if a < i then a else a + 1, if b < i then b else b + 1;
      assert rest[a] == avail[a'] && rest[b] == avail[b'];
    }
  }

  /**
   * Every sample `sampleSize` can return is drawn by some rolls: for any
   * sequence of distinct available positions there are picks that draw
   * exactly it, in that order, whatever number `len` of rolls is supplied.
   * Each pick is the index of the next target among the positions still
   * available.
   */
  lemma {:induction false} DrawPositionsReaches(avail: seq<nat>, target: seq<nat>, len: nat) returns (picks: seq<int>)
    requires NoDuplicates(avail) && NoDuplicates(target)
    requires forall k :: 0 <= k < |target| ==> target[k] in avail
    requires |target| <= len
    ensures |picks| == len
    ensures DrawPositions(avail, |target|, picks) == target
    decreases |target|
  {
    if target == [] {
      picks := seq(len, _ => 0);
    } else {
      var i := FirstIndex(avail, target[0]);
      RemainingTargets(avail, i, target);
      RemoveAtNoDuplicates(avail, i);
      var tail := DrawPositionsReaches(avail[..i] + avail[i + 1..], target[1..], len - 1);
      picks := [i] + tail;
      DrawFirst(avail, i, |target|, tail);
      assert target == [target[0]] + target[1..];
    }
  }

  /** Drawing with a first pick `i` below the number of positions takes `avail[i]`, then draws from the rest. */
  lemma DrawFirst(avail: seq<nat>, i: nat, n: nat, tail: seq<int>)
    requires i < |avail| && NoDuplicates(avail) && 0 < n && n - 1 <= |tail|
    ensures NoDuplicates(avail[..i] + avail[i + 1..])
    ensures DrawPositions(avail, n, [i] + tail) ==
      [avail[i]] + DrawPositions(avail[..i] + avail[i + 1..], n - 1, tail)
  {
    var picks := [i] + tail;
    SmallMod(i, |avail|);
    assert picks[1..] == tail;
    DrawStep(avail, n, picks);
  }

  /** A pick below the number of positions selects itself. */
  lemma SmallMod(i: int, m: int)
    requires 0 <= i < m
    ensures i % m == i
  {
  }

  /** Removing the first target's position keeps the other targets available. */
  lemma RemainingTargets(avail: seq<nat>, i: nat, target: seq<nat>)
    requires NoDuplicates(target) && target != []
    requires i < |avail| && avail[i] == target[0]
    requires forall k :: 0 <= k < |target| ==> target[k] in avail
    ensures forall k :: 0 <= k < |target| - 1 ==> target[1..][k] in avail[..i] + avail[i + 1..]
  {
    forall k | 1 <= k < |target| ensures target[k] in avail[..i] + avail[i + 1..] {
      RemoveAtKeeps(avail, i, target[k]);
    }
  }

  /** One draw: the position `picks[0]` selects, then the draws from the positions left. */
  lemma DrawStep(avail: seq<nat>, n: nat, picks: seq<int>)
    requires 0 < n <= |picks| && avail != [] && NoDuplicates(avail)
    ensures var i := picks[0] % |avail|;
      && NoDuplicates(avail[..i] + avail[i + 1..])
      && DrawPositions(avail, n, picks) == [avail[i]] + DrawPositions(avail[..i] + avail[i + 1..], n - 1, picks[1..])
  {
    RemoveAtNoDuplicates(avail, picks[0] % |avail|);
  }

  /** The keywords at the given positions, in draw order. */
  function At(pool: seq<string>, pos: seq<nat>): (ks: seq<string>)
    requires forall k :: 0 <= k < |pos| ==> pos[k] < |pool|
  {
    seq(|pos|, k requires 0 <= k < |pos| => pool[pos[k]])
  }

  /** `keywords.join(" ")`. */
  function Join(words: seq<string>, sep: string): string {
    if words == [] then ""
    else if |words| == 1 then words[0]
    else Join(words[..|words| - 1], sep) + sep + words[|words| - 1]
  }

  /** The rolls one iteration of the planning loop consumes. */
  datatype QueryDraw = QueryDraw(sizeRoll: int, picks: seq<int>, limitRoll: int)

  /**
   * One planned search: the keyword count asked for, the pool positions
   * sampled, the keywords there, the query string `q` and the result limit.
   */
  datatype PlannedQuery = PlannedQuery(requested: int, positions: seq<nat>, keywords: seq<string>, q: string, limit: int)

  /** The query one iteration plans from the pool and its rolls. */
  function PlanQuery(pool: seq<string>, d: QueryDraw): PlannedQuery
    requires |d.picks| >= MAX_KEYWORDS
  {
    var requested := RandomInt(MIN_KEYWORDS, MAX_KEYWORDS, d.sizeRoll);
    var positions := DrawPositions(Positions(|pool|), ClampCount(requested, |pool|), d.picks);
    assert forall k :: 0 <= k < |positions| ==> positions[k] < |pool|;
    var keywords := At(pool, positions);
    PlannedQuery(requested, positions, keywords, Join(keywords, " "),
                 RandomInt(MIN_SEARCH_RES_LIMIT, MAX_SEARCH_RES_LIMIT, d.limitRoll))
  }

  /**
   * Each planned query asks for 1 to 3 keywords, samples that many distinct
   * pool positions (fewer when the pool is shorter), joins the keywords there
   * with spaces, and carries a limit from 3 to 6.
   */
  lemma PlanQuerySpec(pool: seq<string>, d: QueryDraw)
    requires |d.picks| >= MAX_KEYWORDS
    ensures var p := PlanQuery(pool, d);
      && MIN_KEYWORDS <= p.requested <= MAX_KEYWORDS
      && |p.keywords| == |p.positions| == Min(p.requested, |pool|)
      && NoDuplicates(p.positions)
      && (forall k :: 0 <= k < |p.positions| ==> p.positions[k] < |pool| && p.keywords[k] == pool[p.positions[k]])
      && (forall k :: 0 <= k < |p.keywords| ==> p.keywords[k] in pool)
      && p.q == Join(p.keywords, " ")
      && MIN_SEARCH_RES_LIMIT <= p.limit <= MAX_SEARCH_RES_LIMIT
  {
  }

  /**
   * Sampling is by position, so a keyword repeated in the pool can be
   * sampled twice in one query: from the pool `[w, w]`, every draw that
   * asks for two keywords yields `[w, w]`.
   */
  lemma {:induction false} RepeatedKeywordCanRepeat(w: string, d: QueryDraw)
    requires |d.picks| >= MAX_KEYWORDS
    requires d.sizeRoll % 3 == 1
    ensures PlanQuery([w, w], d).keywords == [w, w]
  {
    PlanQuerySpec([w, w], d);
    var p := PlanQuery([w, w], d);
    assert p.requested == 2;
    assert |p.keywords| == 2;
  }

  /**
   * Every query the planner can send is planned by some rolls: any one to
   * three distinct pool positions, in any order, with any limit from 3 to 6.
   */
  lemma PlanQueryReaches(pool: seq<string>, target: seq<nat>, limit: int)
    requires NoDuplicates(target)
    requires forall k :: 0 <= k < |target| ==> target[k] < |pool|
    requires MIN_KEYWORDS <= |target| <= MAX_KEYWORDS && |target| <= |pool|
    requires MIN_SEARCH_RES_LIMIT <= limit <= MAX_SEARCH_RES_LIMIT
    ensures exists d: QueryDraw ::
      && |d.picks| >= MAX_KEYWORDS
      && PlanQuery(pool, d).positions == target
      && PlanQuery(pool, d).limit == limit
  {
    var avail := Positions(|pool|);
    forall k | 0 <= k < |target| ensures target[k] in avail {
      assert avail[target[k]] == target[k];
    }
    var picks := DrawPositionsReaches(avail, target, MAX_KEYWORDS);
    var sizeRoll, limitRoll := QueryRolls(|target|, limit);
    var d := QueryDraw(sizeRoll, picks, limitRoll);
    PlanQueryHits(pool, d, target, limit);
  }

  /** Rolls that make `randomInt` return the wanted keyword count and result limit. */
  lemma QueryRolls(count: int, limit: int) returns (sizeRoll: nat, limitRoll: nat)
    requires MIN_KEYWORDS <= count <= MAX_KEYWORDS
    requires MIN_SEARCH_RES_LIMIT <= limit <= MAX_SEARCH_RES_LIMIT
    ensures RandomInt(MIN_KEYWORDS, MAX_KEYWORDS, sizeRoll) == count
    ensures RandomInt(MIN_SEARCH_RES_LIMIT, MAX_SEARCH_RES_LIMIT, limitRoll) == limit
  {
    sizeRoll, limitRoll := count - MIN_KEYWORDS, limit - MIN_SEARCH_RES_LIMIT;
    RandomIntReaches(MIN_KEYWORDS, MAX_KEYWORDS, count);
    RandomIntReaches(MIN_SEARCH_RES_LIMIT, MAX_SEARCH_RES_LIMIT, limit);
  }

  /** A draw whose rolls give `target` and `limit` plans exactly that query. */
  lemma PlanQueryHits(pool: seq<string>, d: QueryDraw, target: seq<nat>, limit: int)
    requires |d.picks| >= MAX_KEYWORDS && |target| <= |pool|
    requires RandomInt(MIN_KEYWORDS, MAX_KEYWORDS, d.sizeRoll) == |target|
    requires RandomInt(MIN_SEARCH_RES_LIMIT, MAX_SEARCH_RES_LIMIT, d.limitRoll) == limit
    requires DrawPositions(Positions(|pool|), |target|, d.picks) == target
    ensures PlanQuery(pool, d).positions == target && PlanQuery(pool, d).limit == limit
  {
    PlanQueryRolls(pool, d);
    assert ClampCount(|target|, |pool|) == |target|;
  }

  /** The positions and the limit of a planned query, as functions of its rolls. */
  lemma PlanQueryRolls(pool: seq<string>, d: QueryDraw)
    requires |d.picks| >= MAX_KEYWORDS
    ensures PlanQuery(pool, d).positions ==
      DrawPositions(Positions(|pool|), ClampCount(RandomInt(MIN_KEYWORDS, MAX_KEYWORDS, d.sizeRoll), |pool|), d.picks)
    ensures PlanQuery(pool, d).limit == RandomInt(MIN_SEARCH_RES_LIMIT, MAX_SEARCH_RES_LIMIT, d.limitRoll)
  {
  }

  /** An empty pool still plans a query, with no keywords and an empty `q`. */
  lemma EmptyPoolPlansEmptyQuery(d: QueryDraw)
    requires |d.picks| >= MAX_KEYWORDS
    ensures PlanQuery([], d).keywords == [] && PlanQuery([], d).q == ""
  {
  }

  /** The `for (let i = 0; i < ntimes; i++)` loop: one planned query per iteration. */
  method PlanSearches(keywords: seq<string>, ntimes: nat, draws: seq<QueryDraw>) returns (plans: seq<PlannedQuery>)
    requires |draws| == ntimes
    requires forall i :: 0 <= i < ntimes ==> |draws[i].picks| >= MAX_KEYWORDS
    ensures |plans| == ntimes
    ensures forall i :: 0 <= i < ntimes ==> plans[i] == PlanQuery(keywords, draws[i])
  {
    plans := [];
    for i := 0 to ntimes
      invariant |plans| == i
      invariant forall k :: 0 <= k < i ==> plans[k] == PlanQuery(keywords, draws[k])
    {
      plans := plans + [PlanQuery(keywords, draws[i])];
    }
  }
}
