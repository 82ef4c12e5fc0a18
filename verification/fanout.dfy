/**
 * The fetch fan-out of `getRandomSearches`: one fetch per planned query,
 * each callback appending its items to `results` as it completes, and
 * `Promise.all` over them all.  The fetches themselves are inputs: what
 * each one settled with, and the order in which they settled.
 */
module FanOut {
  import opened Wrappers
  import opened Catalog

  /** How one fetch settled: with the parsed array of items, or rejected. */
  datatype FetchOutcome = Fetched(items: seq<Book>) | Rejected

  /** `Promise.all` rejected because the fetch of this planned query did. */
  datatype FetchError = FetchError(query: nat)

  /** `order` lists each of the `n` fetches exactly once: the order they settled in. */
  predicate IsSchedule(order: seq<nat>, n: nat) {
    && |order| == n
    && (forall k :: 0 <= k < |order| ==> order[k] < n)
    && (forall i :: 0 <= i < n ==> i in order)
  }

  /** The items a fetch contributes. */
  function ItemsOf(o: FetchOutcome): seq<Book> {
    if o.Fetched? then o.items else []
  }

  /** The `results` array once the callbacks of `order` have run, in that order. */
  function Arrived(outcomes: seq<FetchOutcome>, order: seq<nat>): seq<Book>
    requires forall k :: 0 <= k < |order| ==> order[k] < |outcomes|
  {
    if order == [] then []
    else Arrived(outcomes, order[..|order| - 1]) + ItemsOf(outcomes[order[|order| - 1]])
  }

  /** The first position in `order` whose fetch rejected, if any. */
  function FirstRejected(outcomes: seq<FetchOutcome>, order: seq<nat>): (f: Option<nat>)
    requires forall k :: 0 <= k < |order| ==> order[k] < |outcomes|
    ensures f.None? <==> forall k :: 0 <= k < |order| ==> outcomes[order[k]].Fetched?
    ensures f.Some? ==>
      (f.value < |order| && outcomes[order[f.value]].Rejected? &&
       forall k :: 0 <= k < f.value ==> outcomes[order[k]].Fetched?)
  {
    if order == [] then None
    else if outcomes[order[0]].Rejected? then Some(0)
    else
      match FirstRejected(outcomes, order[1..])
      case None => None
      case Some(k) => Some(k + 1)
  }

  /** What `await Promise.all(allFetchPromises)` leaves: every item, or the first rejection. */
  function Settle(outcomes: seq<FetchOutcome>, order: seq<nat>): Result<seq<Book>, FetchError>
    requires forall k :: 0 <= k < |order| ==> order[k] < |outcomes|
  {
    match FirstRejected(outcomes, order)
    case Some(k) => Failure(FetchError(order[k]))
    case None => Success(Arrived(outcomes, order))
  }

  /** An item has arrived exactly when some settled fetch returned it. */
  lemma {:induction false} ArrivedMembers(outcomes: seq<FetchOutcome>, order: seq<nat>)
    requires forall k :: 0 <= k < |order| ==> order[k] < |outcomes|
    ensures forall b :: b in Arrived(outcomes, order) <==>
      exists k :: 0 <= k < |order| && b in ItemsOf(outcomes[order[k]])
  {
    if order != [] {
      var n := |order| - 1;
      var init, last := order[..n], ItemsOf(outcomes[order[n]]);
      ArrivedMembers(outcomes, init);
      assert Arrived(outcomes, order) == Arrived(outcomes, init) + last;
      assert forall k :: 0 <= k < n ==> init[k] == order[k];
      forall b | b in Arrived(outcomes, order)
        ensures exists k :: 0 <= k < |order| && b in ItemsOf(outcomes[order[k]])
      {
        if b in Arrived(outcomes, init) {
          var k :| 0 <= k < n && b in ItemsOf(outcomes[init[k]]);
          assert b in ItemsOf(outcomes[order[k]]);
        } else {
          assert b in ItemsOf(outcomes[order[n]]);
        }
      }
      forall b, k | 0 <= k < |order| && b in ItemsOf(outcomes[order[k]])
        ensures b in Arrived(outcomes, order)
      {
        if k < n {
          assert b in ItemsOf(outcomes[init[k]]);
        }
      }
    }
  }

  /**
   * Whatever the completion order, `Promise.all` fails exactly when some
   * fetch failed, and the same items arrive.
   */
  lemma SettleAnyOrder(outcomes: seq<FetchOutcome>, order: seq<nat>)
    requires IsSchedule(order, |outcomes|)
    ensures Settle(outcomes, order).Failure? <==> exists i :: 0 <= i < |outcomes| && outcomes[i].Rejected?
    ensures Settle(outcomes, order).Failure? ==> outcomes[Settle(outcomes, order).error.query].Rejected?
    ensures forall b :: b in Arrived(outcomes, order) <==>
      exists i :: 0 <= i < |outcomes| && b in ItemsOf(outcomes[i])
  {
    ArrivedMembers(outcomes, order);
    forall i | 0 <= i < |outcomes| && outcomes[i].Rejected?
      ensures FirstRejected(outcomes, order).Some?
    {
      assert i in order;
      var k :| 0 <= k < |order| && order[k] == i;
    }
    forall b, i | 0 <= i < |outcomes| && b in ItemsOf(outcomes[i])
      ensures exists k :: 0 <= k < |order| && b in ItemsOf(outcomes[order[k]])
    {
      assert i in order;
      var k :| 0 <= k < |order| && order[k] == i;
    }
  }

  /**
   * Runs the callbacks in completion order: each fulfilled fetch appends its
   * items to `results`; the first rejection rejects the whole `Promise.all`.
   */
  method AwaitAll(outcomes: seq<FetchOutcome>, order: seq<nat>) returns (r: Result<seq<Book>, FetchError>)
    requires IsSchedule(order, |outcomes|)
    ensures r == Settle(outcomes, order)
    ensures r.Failure? <==> exists i :: 0 <= i < |outcomes| && outcomes[i].Rejected?
  {
    SettleAnyOrder(outcomes, order);
    var results: seq<Book> := [];
    for k := 0 to |order|
      invariant results == Arrived(outcomes, order[..k])
      invariant forall k' :: 0 <= k' < k ==> outcomes[order[k']].Fetched?
    {
      assert order[..k + 1][..k] == order[..k];
      match outcomes[order[k]]
      case Rejected =>
        return Failure(FetchError(order[k]));
      case Fetched(items) =>
        results := results + items;
    }
    assert order[..|order|] == order;
    return Success(results);
  }
}
