/**
 * The `getFreqs` helper of `getMostFrequentTags`: one pass over the keyword
 * array, counting occurrences in a dictionary whose keys keep insertion order.
 */
module Frequency {

  /** How many times `w` occurs in `words`. */
  function Occurrences<T(==)>(words: seq<T>, w: T): nat {
    multiset(words)[w]
  }

  /** Position of the first occurrence of `w` in `words`. */
  function FirstIndex<T(==)>(words: seq<T>, w: T): (i: nat)
    requires w in words
    ensures i < |words| && words[i] == w
    ensures forall k :: 0 <= k < i ==> words[k] != w
  {
    if words[0] == w then 0 else 1 + FirstIndex(words[1..], w)
  }

  /** No string occurs twice. */
  predicate NoDuplicates<T(==)>(s: seq<T>) {
    forall i, j :: 0 <= i < j < |s| ==> s[i] != s[j]
  }

  /**
   * The distinct strings of `words`, in the order in which each first
   * appears: the key order of a dictionary filled by one scan of `words`.
   */
  function Distinct<T(==,!new)>(words: seq<T>): (d: seq<T>)
    ensures forall w :: w in d <==> w in words
    ensures NoDuplicates(d)
  {
    if words == [] then []
    else
      var d := Distinct(words[..|words| - 1]);
      if words[|words| - 1] in d then d else d + [words[|words| - 1]]
  }

  /** `Distinct` lists the strings in increasing order of their first occurrence. */
  lemma {:induction false} DistinctInFirstSeenOrder<T(!new)>(words: seq<T>)
    ensures forall i, j :: 0 <= i < j < |Distinct(words)| ==>
      FirstIndex(words, Distinct(words)[i]) < FirstIndex(words, Distinct(words)[j])
  {
    if words != [] {
      var init := words[..|words| - 1];
      DistinctInFirstSeenOrder(init);
      FirstIndexOfPrefix(words, |words| - 1);
      var d := Distinct(words);
      forall i, j | 0 <= i < j < |d|
        ensures FirstIndex(words, d[i]) < FirstIndex(words, d[j])
      {
        assert d[i] in init;
        if j == |Distinct(init)| {
          assert FirstIndex(words, d[j]) == |words| - 1;
        }
      }
    }
  }

  /** A string occurring in a prefix has the same first index in the whole sequence. */
  lemma FirstIndexOfPrefix<T(!new)>(words: seq<T>, n: nat)
    requires n <= |words|
    ensures forall w :: w in words[..n] ==> FirstIndex(words, w) == FirstIndex(words[..n], w)
  {
    forall w | w in words[..n]
      ensures FirstIndex(words, w) == FirstIndex(words[..n], w)
    {
      var j := FirstIndex(words[..n], w);
      assert words[j] == w;
    }
  }

  /** What one more element does to the distinct keys and to the counts of a prefix. */
  lemma ScanStep<T(!new)>(words: seq<T>, i: nat)
    requires i < |words|
    ensures forall v :: v in words[..i + 1] <==> v in words[..i] || v == words[i]
    ensures Distinct(words[..i + 1]) ==
      if words[i] in words[..i] then Distinct(words[..i]) else Distinct(words[..i]) + [words[i]]
    ensures forall v :: Occurrences(words[..i + 1], v) == Occurrences(words[..i], v) + (if v == words[i] then 1 else 0)
  {
    assert words[..i + 1] == words[..i] + [words[i]];
    assert words[..i + 1][..i] == words[..i];
  }

  /** A dictionary from keyword to count, with its keys in insertion order. */
  datatype Counts<T(==)> = Counts(keys: seq<T>, count: map<T, nat>)

  /** The dictionary `getFreqs` builds from `words`. */
  function Frequencies<T(==,!new)>(words: seq<T>): (c: Counts<T>)
    ensures c.count.Keys == set w | w in words
  {
    Counts(Distinct(words), map w | w in words :: Occurrences(words, w))
  }

  /** `keys` and `count` are the dictionary after the first `i` elements of `words`. */
  ghost predicate CountsOfPrefix<T(!new)>(words: seq<T>, i: nat, keys: seq<T>, count: map<T, nat>)
    requires i <= |words|
  {
    && keys == Distinct(words[..i])
    && (forall w :: w in count <==> w in words[..i])
    && (forall w :: w in count ==> count[w] == Occurrences(words[..i], w))
  }

  /** A later occurrence of a counted keyword increments its count. */
  lemma CountAgain<T(!new)>(words: seq<T>, i: nat, keys: seq<T>, count: map<T, nat>)
    requires i < |words| && CountsOfPrefix(words, i, keys, count)
    requires words[i] in count
    ensures CountsOfPrefix(words, i + 1, keys, count[words[i] := count[words[i]] + 1])
  {
    var w := words[i];
    var count' := count[w := count[w] + 1];
    ScanStep(words, i);
    forall v | v in count' ensures count'[v] == Occurrences(words[..i + 1], v) {
      if v != w { assert count'[v] == count[v]; }
    }
  }

  /** The first occurrence of a keyword adds it with count 1, after the keys so far. */
  lemma CountFirst<T(!new)>(words: seq<T>, i: nat, keys: seq<T>, count: map<T, nat>)
    requires i < |words| && CountsOfPrefix(words, i, keys, count)
    requires words[i] !in count
    ensures CountsOfPrefix(words, i + 1, keys + [words[i]], count[words[i] := 1])
  {
    var w := words[i];
    var count' := count[w := 1];
    ScanStep(words, i);
    forall v | v in count' ensures count'[v] == Occurrences(words[..i + 1], v) {
      if v != w { assert count'[v] == count[v]; }
      else { assert Occurrences(words[..i], w) == 0; }
    }
  }

  /** The dictionary after all of `words` is the one `Frequencies` describes. */
  lemma CountsOfAll<T(!new)>(words: seq<T>, keys: seq<T>, count: map<T, nat>)
    requires CountsOfPrefix(words, |words|, keys, count)
    ensures Counts(keys, count) == Frequencies(words)
    ensures forall w :: w in count <==> w in words
    ensures forall w :: w in count ==> count[w] == Occurrences(words, w)
  {
    assert words[..|words|] == words;
  }

  /**
   * Counts every keyword of `words` in a dictionary: a key is added with
   * count 1 on its first occurrence and incremented on each later one.
   */
  method GetFreqs<T(==,!new)>(words: seq<T>) returns (c: Counts<T>)
    ensures c == Frequencies(words)
    ensures c.keys == Distinct(words)
    ensures forall w :: w in c.count <==> w in words
    ensures forall w :: w in c.count ==> c.count[w] == Occurrences(words, w)
  {
    var keys: seq<T> := [];
    var count: map<T, nat> := map[];
    for i := 0 to |words|
      invariant CountsOfPrefix(words, i, keys, count)
    {
      var w := words[i];
      if w in count {
        CountAgain(words, i, keys, count);
        count := count[w := count[w] + 1];
      } else {
        CountFirst(words, i, keys, count);
        count := count[w := 1];
        keys := keys + [w];
      }
    }
    CountsOfAll(words, keys, count);
    c := Counts(keys, count);
  }
}
