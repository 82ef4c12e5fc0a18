/**
 * `getMostFrequentTags`: count the keywords, turn the dictionary into
 * [key, count] pairs, sort the pairs in place by descending count with a
 * stable sort, and keep the keys.
 */
module Ranking {
  import opened Frequency

  /** One `[key, count]` entry of `toPairs(counts)`. */
  datatype Pair<T> = Pair(key: T, count: nat)

  /** lodash `toPairs`: the dictionary's entries in key insertion order. */
  function ToPairs<T(==)>(c: Counts<T>): (ps: seq<Pair<T>>)
    requires forall i :: 0 <= i < |c.keys| ==> c.keys[i] in c.count
  {
    seq(|c.keys|, i requires 0 <= i < |c.keys| => Pair(c.keys[i], c.count[c.keys[i]]))
  }

  /** The projection `pairs.map((elem) => elem[0])`. */
  function KeysOf<T>(ps: seq<Pair<T>>): (ks: seq<T>) {
    seq(|ps|, i requires 0 <= i < |ps| => ps[i].key)
  }

  /** Counts never increase from left to right. */
  ghost predicate Descending<T>(ps: seq<Pair<T>>) {
    forall i, j :: 0 <= i < j < |ps| ==> ps[i].count >= ps[j].count
  }

  /** No key occurs twice. */
  ghost predicate UniqueKeys<T>(ps: seq<Pair<T>>) {
    forall i, j :: 0 <= i < j < |ps| ==> ps[i].key != ps[j].key
  }

  /**
   * Where a stable descending sort puts `x` among the already sorted `ps`:
   * right after the last entry whose count is at least `x.count`, found by
   * walking left past the entries with a smaller count.
   */
  function InsertPos<T>(x: Pair<T>, ps: seq<Pair<T>>): (p: nat)
    ensures p <= |ps|
    ensures forall k :: p <= k < |ps| ==> ps[k].count < x.count
    ensures p > 0 ==> ps[p - 1].count >= x.count
  {
    if ps == [] || ps[|ps| - 1].count >= x.count then |ps|
    else InsertPos(x, ps[..|ps| - 1])
  }

  /** `ps` with `x` inserted at `InsertPos(x, ps)`. */
  function Insert<T>(x: Pair<T>, ps: seq<Pair<T>>): seq<Pair<T>> {
    var p := InsertPos(x, ps);
    ps[..p] + [x] + ps[p..]
  }

  /** Entry by entry: `ps` before the insertion point, then `x`, then the rest of `ps`. */
  lemma InsertShape<T>(x: Pair<T>, ps: seq<Pair<T>>)
    ensures |Insert(x, ps)| == |ps| + 1
    ensures forall i :: 0 <= i < InsertPos(x, ps) ==> Insert(x, ps)[i] == ps[i]
    ensures Insert(x, ps)[InsertPos(x, ps)] == x
    ensures forall i :: InsertPos(x, ps) < i <= |ps| ==> Insert(x, ps)[i] == ps[i - 1]
  {
  }

  /**
   * The array `pairs.sort((a, b) => b[1] - a[1])` leaves: insertion of each
   * entry, left to right, into the sorted prefix before it.  A stable sort has
   * exactly one result, so this is the result of any stable sort.
   */
  function SortDesc<T>(ps: seq<Pair<T>>): seq<Pair<T>> {
    if ps == [] then [] else Insert(ps[|ps| - 1], SortDesc(ps[..|ps| - 1]))
  }

  /** Inserting adds `x` and keeps everything else. */
  lemma InsertElements<T>(x: Pair<T>, ps: seq<Pair<T>>)
    ensures multiset(Insert(x, ps)) == multiset(ps) + multiset{x}
    ensures forall y :: y in Insert(x, ps) <==> y == x || y in ps
  {
    var p := InsertPos(x, ps);
    assert ps == ps[..p] + ps[p..];
  }

  /** Sorting is a permutation. */
  lemma {:induction false} SortDescPermutes<T>(ps: seq<Pair<T>>)
    ensures multiset(SortDesc(ps)) == multiset(ps)
  {
    if ps != [] {
      var init := ps[..|ps| - 1];
      SortDescPermutes(init);
      InsertElements(ps[|ps| - 1], SortDesc(init));
      assert ps == init + [ps[|ps| - 1]];
    }
  }

  /** Inserting into a descending sequence keeps it descending. */
  lemma InsertKeepsDescending<T>(x: Pair<T>, ps: seq<Pair<T>>)
    requires Descending(ps)
    ensures Descending(Insert(x, ps))
  {
    var p := InsertPos(x, ps);
    var r := Insert(x, ps);
    InsertShape(x, ps);
    forall i, j | 0 <= i < j < |r|
      ensures r[i].count >= r[j].count
    {
      if i == p {
        assert r[j] == ps[j - 1];
      } else if j == p {
        assert r[i] == ps[i];
        assert ps[i].count >= ps[p - 1].count;
      } else {
        var i', j' := if i < p then i else i - 1, if j < p then j else j - 1;
        assert r[i] == ps[i'] && r[j] == ps[j'] && i' < j';
      }
    }
  }

  /** The sort orders by non-increasing count. */
  lemma {:induction false} SortDescIsDescending<T>(ps: seq<Pair<T>>)
    ensures Descending(SortDesc(ps))
  {
    if ps != [] {
      SortDescIsDescending(ps[..|ps| - 1]);
      InsertKeepsDescending(ps[|ps| - 1], SortDesc(ps[..|ps| - 1]));
    }
  }

  /** Inserting `x`, whose key is new, keeps the keys unique. */
  lemma InsertKeepsUniqueKeys<T>(x: Pair<T>, ps: seq<Pair<T>>)
    requires UniqueKeys(ps)
    requires forall y :: y in ps ==> y.key != x.key
    ensures UniqueKeys(Insert(x, ps))
  {
    var p := InsertPos(x, ps);
    var r := Insert(x, ps);
    InsertShape(x, ps);
    forall i, j | 0 <= i < j < |r|
      ensures r[i].key != r[j].key
    {
      if i == p {
        assert r[j] == ps[j - 1];
        assert ps[j - 1] in ps;
      } else if j == p {
        assert r[i] == ps[i];
        assert ps[i] in ps;
      } else {
        var i', j' := if i < p then i else i - 1, if j < p then j else j - 1;
        assert r[i] == ps[i'] && r[j] == ps[j'] && i' < j';
      }
    }
  }

  /** Sorting entries with distinct keys yields entries with distinct keys. */
  lemma {:induction false} SortDescKeepsUniqueKeys<T>(ps: seq<Pair<T>>)
    requires UniqueKeys(ps)
    ensures UniqueKeys(SortDesc(ps))
  {
    if ps != [] {
      var init, x := ps[..|ps| - 1], ps[|ps| - 1];
      SortDescKeepsUniqueKeys(init);
      SortDescPermutes(init);
      forall y | y in SortDesc(init) ensures y.key != x.key {
        assert y in multiset(SortDesc(init));
      }
      InsertKeepsUniqueKeys(x, SortDesc(init));
    }
  }

  /** Keys appear in strictly increasing `rank`. */
  ghost predicate IncreasingRank<T>(ps: seq<Pair<T>>, rank: T -> nat) {
    forall i, j :: 0 <= i < j < |ps| ==> rank(ps[i].key) < rank(ps[j].key)
  }

  /** Entries with equal counts appear in strictly increasing `rank`. */
  ghost predicate TiesByRank<T>(ps: seq<Pair<T>>, rank: T -> nat) {
    forall i, j :: 0 <= i < j < |ps| && ps[i].count == ps[j].count ==> rank(ps[i].key) < rank(ps[j].key)
  }

  /** `x`, ranked after every entry of `ps`, lands after all entries with its count. */
  lemma InsertKeepsTies<T>(x: Pair<T>, ps: seq<Pair<T>>, rank: T -> nat)
    requires TiesByRank(ps, rank)
    requires forall y :: y in ps ==> rank(y.key) < rank(x.key)
    ensures TiesByRank(Insert(x, ps), rank)
  {
    var p := InsertPos(x, ps);
    var r := Insert(x, ps);
    InsertShape(x, ps);
    forall i, j | 0 <= i < j < |r| && r[i].count == r[j].count
      ensures rank(r[i].key) < rank(r[j].key)
    {
      if i == p {
        assert false;
      } else if j == p {
        assert r[i] == ps[i];
        assert ps[i] in ps;
      } else {
        var i', j' := if i < p then i else i - 1, if j < p then j else j - 1;
        assert r[i] == ps[i'] && r[j] == ps[j'] && i' < j';
      }
    }
  }

  /** The sort is stable: entries with equal counts keep their input order. */
  lemma {:induction false} SortDescIsStable<T>(ps: seq<Pair<T>>, rank: T -> nat)
    requires IncreasingRank(ps, rank)
    ensures TiesByRank(SortDesc(ps), rank)
  {
    if ps != [] {
      var init, x := ps[..|ps| - 1], ps[|ps| - 1];
      SortDescIsStable(init, rank);
      SortDescPermutes(init);
      forall y | y in SortDesc(init) ensures rank(y.key) < rank(x.key) {
        assert y in multiset(SortDesc(init));
      }
      InsertKeepsTies(x, SortDesc(init), rank);
    }
  }

  /**
   * `pairs.sort((a, b) => b[1] - a[1])` on the array in place: each entry in
   * turn is moved left past the entries of smaller count before it.
   */
  method SortByCountDesc<T>(a: array<Pair<T>>)
    modifies a
    ensures a[..] == SortDesc(old(a[..]))
  {
    ghost var input := a[..];
    for i := 0 to a.Length
      invariant a[..i] == SortDesc(input[..i])
      invariant a[i..] == input[i..]
    {
      InsertLast(a, i);
      assert input[..i + 1][..i] == input[..i];
      assert SortDesc(input[..i + 1]) == Insert(input[i], SortDesc(input[..i]));
      assert a[i + 1..] == input[i + 1..];
    }
    assert input[..a.Length] == input;
  }

  /** One step of the sort: moves `a[i]` into place within the prefix `a[..i]`. */
  method InsertLast<T>(a: array<Pair<T>>, i: nat)
    requires i < a.Length
    modifies a
    ensures a[..i + 1] == Insert(old(a[i]), old(a[..i]))
    ensures a[i + 1..] == old(a[i + 1..])
  {
    ghost var sorted := a[..i];
    var x := a[i];
    var j := i;
    while j > 0 && a[j - 1].count < x.count
      invariant 0 <= j <= i
      invariant forall k :: 0 <= k < j ==> a[k] == sorted[k]
      invariant forall k :: j < k <= i ==> a[k] == sorted[k - 1]
      invariant forall k :: i < k < a.Length ==> a[k] == old(a[k])
      invariant forall k :: j <= k < i ==> sorted[k].count < x.count
    {
      a[j] := a[j - 1];
      j := j - 1;
    }
    InsertPosIs(x, sorted, j);
    a[j] := x;
    assert a[..i + 1] == sorted[..j] + [x] + sorted[j..];
  }

  /**
   * The insertion point is the one place with every entry after it of
   * smaller count and the entry before it, if any, of count at least `x`'s.
   */
  lemma {:induction false} InsertPosIs<T>(x: Pair<T>, ps: seq<Pair<T>>, j: nat)
    requires j <= |ps|
    requires j == 0 || ps[j - 1].count >= x.count
    requires forall k :: j <= k < |ps| ==> ps[k].count < x.count
    ensures InsertPos(x, ps) == j
  {
    if j < |ps| {
      InsertPosIs(x, ps[..|ps| - 1], j);
    }
  }

  /** The `[key, count]` pairs of `words`, keys in order of first occurrence. */
  function PairsOf<T(==,!new)>(words: seq<T>): seq<Pair<T>> {
    ToPairs(Frequencies(words))
  }

  /** The keywords of `words` ranked by `getMostFrequentTags`. */
  function RankedTags<T(==,!new)>(words: seq<T>): seq<T> {
    KeysOf(SortDesc(PairsOf(words)))
  }

  /** Position of the first occurrence of `w` in `words`, or `|words|` when absent. */
  function Rank<T(==)>(words: seq<T>, w: T): nat {
    if w in words then FirstIndex(words, w) else |words|
  }

  /** The pairs carry each distinct keyword once, with its count, in first-seen order. */
  lemma PairsOfSpec<T(!new)>(words: seq<T>)
    ensures forall k :: 0 <= k < |PairsOf(words)| ==>
      PairsOf(words)[k] == Pair(Distinct(words)[k], Occurrences(words, Distinct(words)[k]))
    ensures |PairsOf(words)| == |Distinct(words)|
    ensures IncreasingRank(PairsOf(words), w => Rank(words, w))
    ensures UniqueKeys(PairsOf(words))
  {
    DistinctInFirstSeenOrder(words);
  }

  /** Each sorted pair is a keyword of `words` with its count, and every keyword has one. */
  lemma SortedPairsSpec<T(!new)>(words: seq<T>)
    ensures forall k :: 0 <= k < |SortDesc(PairsOf(words))| ==>
      SortDesc(PairsOf(words))[k].key in words &&
      SortDesc(PairsOf(words))[k].count == Occurrences(words, SortDesc(PairsOf(words))[k].key)
    ensures forall w :: w in words ==> w in RankedTags(words)
  {
    var ps := PairsOf(words);
    var sorted := SortDesc(ps);
    PairsOfSpec(words);
    SortDescPermutes(ps);
    forall k | 0 <= k < |sorted|
      ensures sorted[k].key in words && sorted[k].count == Occurrences(words, sorted[k].key)
    {
      assert sorted[k] in multiset(ps);
    }
    RankedTagsCover(words);
  }

  /** Every keyword of `words` survives the sort. */
  lemma RankedTagsCover<T(!new)>(words: seq<T>)
    ensures forall w :: w in words ==> w in RankedTags(words)
  {
    var ps, d := PairsOf(words), Distinct(words);
    var sorted := SortDesc(ps);
    PairsOfSpec(words);
    SortDescPermutes(ps);
    forall w | w in words ensures w in RankedTags(words) {
      var k :| 0 <= k < |d| && d[k] == w;
      assert ps[k] in multiset(sorted);
      var m :| 0 <= m < |sorted| && sorted[m] == ps[k];
      assert RankedTags(words)[m] == w;
    }
  }

  /**
   * What `getMostFrequentTags` promises: every distinct keyword exactly once,
   * by non-increasing count, equal counts in order of first occurrence.
   */
  lemma RankedTagsSpec<T(!new)>(words: seq<T>)
    ensures forall w :: w in RankedTags(words) <==> w in words
    ensures NoDuplicates(RankedTags(words))
    ensures forall i, j :: 0 <= i < j < |RankedTags(words)| ==>
      Occurrences(words, RankedTags(words)[i]) >= Occurrences(words, RankedTags(words)[j])
    ensures forall i, j ::
      (0 <= i < j < |RankedTags(words)| &&
       Occurrences(words, RankedTags(words)[i]) == Occurrences(words, RankedTags(words)[j])) ==>
      FirstIndex(words, RankedTags(words)[i]) < FirstIndex(words, RankedTags(words)[j])
  {
    var ps := PairsOf(words);
    var rank := (w: T) => Rank(words, w);
    PairsOfSpec(words);
    SortedPairsSpec(words);
    SortDescIsDescending(ps);
    SortDescIsStable(ps, rank);
    SortDescKeepsUniqueKeys(ps);
  }

  /** Ranks the keywords of `words` by descending frequency. */
  method GetMostFrequentTags<T(==,!new)>(words: seq<T>) returns (r: seq<T>)
    ensures r == RankedTags(words)
    ensures forall w :: w in r <==> w in words
    ensures NoDuplicates(r)
    ensures forall i, j :: 0 <= i < j < |r| ==> Occurrences(words, r[i]) >= Occurrences(words, r[j])
    ensures forall i, j :: 0 <= i < j < |r| && Occurrences(words, r[i]) == Occurrences(words, r[j]) ==>
      FirstIndex(words, r[i]) < FirstIndex(words, r[j])
  {
    var counts := GetFreqs(words);
    var pairs := ToPairs(counts);
    var a := new Pair<T>[|pairs|](k requires 0 <= k < |pairs| => pairs[k]);
    assert a[..] == pairs;
    SortByCountDesc(a);
    r := KeysOf(a[..]);
    RankedTagsSpec(words);
  }
}
