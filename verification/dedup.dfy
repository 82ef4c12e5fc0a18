/**
 * lodash `uniqBy(results, 'isbn13')`: one scan left to right that keeps an
 * item when its ISBN has not been seen before.
 */
module Dedup {
  import opened Catalog

  /** The scan, with `seen` the ISBNs kept so far. */
  function UniqFrom(items: seq<Book>, seen: set<string>): seq<Book> {
    if items == [] then []
    else if items[0].isbn13 in seen then UniqFrom(items[1..], seen)
    else [items[0]] + UniqFrom(items[1..], seen + {items[0].isbn13})
  }

  /** The items of `items`, one per ISBN. */
  function UniqBy(items: seq<Book>): seq<Book> {
    UniqFrom(items, {})
  }

  /** `sub` is `items` with some elements left out. */
  predicate IsSubsequence(sub: seq<Book>, items: seq<Book>) {
    sub == [] || (items != [] &&
      ((sub[0] == items[0] && IsSubsequence(sub[1..], items[1..])) || IsSubsequence(sub, items[1..])))
  }

  /** `items[j]` is the first item carrying its ISBN. */
  ghost predicate FirstWithIsbn(items: seq<Book>, j: int) {
    0 <= j < |items| && forall i :: 0 <= i < j ==> items[i].isbn13 != items[j].isbn13
  }

  /** The scan keeps a subsequence of unique ISBNs that are exactly the unseen ones. */
  lemma {:induction false} UniqFromSpec(items: seq<Book>, seen: set<string>)
    ensures IsSubsequence(UniqFrom(items, seen), items)
    ensures UniqueIsbns(UniqFrom(items, seen))
    ensures Isbns(UniqFrom(items, seen)) == Isbns(items) - seen
  {
    if items != [] {
      var x, rest := items[0], items[1..];
      assert Isbns(items) == {x.isbn13} + Isbns(rest) by {
        forall k | k in Isbns(items) ensures k in {x.isbn13} + Isbns(rest) {
          var i :| 0 <= i < |items| && items[i].isbn13 == k;
          if i > 0 { assert rest[i - 1] == items[i]; }
        }
        forall k | k in Isbns(rest) ensures k in Isbns(items) {
          var i :| 0 <= i < |rest| && rest[i].isbn13 == k;
          assert items[i + 1] == rest[i];
        }
      }
      if x.isbn13 in seen {
        UniqFromSpec(rest, seen);
      } else {
        var tail := UniqFrom(rest, seen + {x.isbn13});
        UniqFromSpec(rest, seen + {x.isbn13});
        var r := [x] + tail;
        assert r[1..] == tail;
        assert Isbns(r) == {x.isbn13} + Isbns(tail) by {
          assert r[0] == x;
          forall k | k in Isbns(r) ensures k in {x.isbn13} + Isbns(tail) {
            var i :| 0 <= i < |r| && r[i].isbn13 == k;
            if i > 0 { assert tail[i - 1] == r[i]; }
          }
          forall k | k in Isbns(tail) ensures k in Isbns(r) {
            var i :| 0 <= i < |tail| && tail[i].isbn13 == k;
            assert r[i + 1] == tail[i];
          }
        }
        forall i, j | 0 <= i < j < |r| ensures r[i].isbn13 != r[j].isbn13 {
          if i == 0 {
            assert r[j] == tail[j - 1];
            assert r[j].isbn13 in Isbns(tail);
          } else {
            assert r[i] == tail[i - 1] && r[j] == tail[j - 1];
          }
        }
      }
    }
  }

  /** Each item the scan keeps is the first item of `items` with its ISBN. */
  lemma {:induction false} UniqFromKeepsFirst(items: seq<Book>, seen: set<string>)
    ensures forall k, j ::
      (0 <= k < |UniqFrom(items, seen)| && FirstWithIsbn(items, j) &&
       items[j].isbn13 == UniqFrom(items, seen)[k].isbn13) ==> UniqFrom(items, seen)[k] == items[j]
  {
    if items != [] {
      var x, rest := items[0], items[1..];
      var r := UniqFrom(items, seen);
      var seen' := if x.isbn13 in seen then seen else seen + {x.isbn13};
      var tail := UniqFrom(rest, seen');
      UniqFromKeepsFirst(rest, seen');
      UniqFromSpec(rest, seen');
      forall k, j | 0 <= k < |r| && FirstWithIsbn(items, j) && items[j].isbn13 == r[k].isbn13
        ensures r[k] == items[j]
      {
        if x.isbn13 !in seen && k == 0 {
          assert r[0] == x;
        } else {
          var t := if x.isbn13 in seen then k else k - 1;
          assert r[k] == tail[t];
          assert tail[t].isbn13 in Isbns(tail);
          assert j != 0;
          assert FirstWithIsbn(rest, j - 1) by {
            forall i | 0 <= i < j - 1 ensures rest[i].isbn13 != rest[j - 1].isbn13 {
              assert rest[i] == items[i + 1];
            }
          }
        }
      }
    }
  }

  /** A sequence whose ISBNs are unique and unseen passes the scan unchanged. */
  lemma {:induction false} UniqFromUnique(items: seq<Book>, seen: set<string>)
    requires UniqueIsbns(items)
    requires Isbns(items) !! seen
    ensures UniqFrom(items, seen) == items
  {
    if items != [] {
      var x, rest := items[0], items[1..];
      assert x.isbn13 in Isbns(items);
      assert Isbns(rest) !! seen + {x.isbn13} by {
        forall i | 0 <= i < |rest| ensures rest[i].isbn13 !in seen + {x.isbn13} {
          assert rest[i] == items[i + 1];
          assert rest[i].isbn13 in Isbns(items);
        }
      }
      UniqFromUnique(rest, seen + {x.isbn13});
    }
  }

  /**
   * What `uniqBy(results, 'isbn13')` promises: no two results share an
   * ISBN, every ISBN of the input survives, each survivor is the first item
   * with its ISBN, and the output is a subsequence of the input.
   */
  lemma UniqBySpec(items: seq<Book>)
    ensures UniqueIsbns(UniqBy(items))
    ensures Isbns(UniqBy(items)) == Isbns(items)
    ensures IsSubsequence(UniqBy(items), items)
    ensures forall k, j ::
      (0 <= k < |UniqBy(items)| && FirstWithIsbn(items, j) &&
       items[j].isbn13 == UniqBy(items)[k].isbn13) ==> UniqBy(items)[k] == items[j]
  {
    UniqFromSpec(items, {});
    UniqFromKeepsFirst(items, {});
  }

  /** Deduplicating twice is deduplicating once. */
  lemma UniqByIdempotent(items: seq<Book>)
    ensures UniqBy(UniqBy(items)) == UniqBy(items)
  {
    UniqFromSpec(items, {});
    UniqFromUnique(UniqBy(items), {});
  }

  /** A sequence with unique ISBNs has as many elements as ISBNs. */
  lemma {:induction false} UniqueIsbnsCount(items: seq<Book>)
    requires UniqueIsbns(items)
    ensures |Isbns(items)| == |items|
  {
    if items != [] {
      var init := items[..|items| - 1];
      var last := items[|items| - 1];
      UniqueIsbnsCount(init);
      assert Isbns(items) == Isbns(init) + {last.isbn13} by {
        forall k | k in Isbns(items) ensures k in Isbns(init) + {last.isbn13} {
          var i :| 0 <= i < |items| && items[i].isbn13 == k;
          if i < |items| - 1 { assert init[i] == items[i]; }
        }
      }
      assert last.isbn13 !in Isbns(init);
    }
  }

  /**
   * The result depends on the input's order only through which item comes
   * first: any two arrangements with the same ISBNs keep the same ISBNs and
   * the same number of items, one per ISBN.
   */
  lemma UniqByArrangement(items: seq<Book>, other: seq<Book>)
    requires Isbns(items) == Isbns(other)
    ensures Isbns(UniqBy(items)) == Isbns(UniqBy(other))
    ensures |UniqBy(items)| == |UniqBy(other)| == |Isbns(items)|
  {
    UniqFromSpec(items, {});
    UniqFromSpec(other, {});
    UniqueIsbnsCount(UniqBy(items));
    UniqueIsbnsCount(UniqBy(other));
  }

  /** A stale duplicate of an ISBN is dropped in favour of the first item. */
  lemma FirstWriteWins(a: Book, b: Book, stale: Book)
    requires a.isbn13 == stale.isbn13 != b.isbn13
    ensures UniqBy([a, b, stale]) == [a, b]
  {
    var k1, k2 := {a.isbn13}, {a.isbn13, b.isbn13};
    assert [a, b, stale][1..] == [b, stale] && [b, stale][1..] == [stale] && [stale][1..] == [];
    assert k1 + {b.isbn13} == k2 && {} + {a.isbn13} == k1;
    assert UniqFrom([stale], k2) == [];
    assert UniqFrom([b, stale], k1) == [b];
    assert UniqFrom([a, b, stale], {}) == [a] + [b];
  }
}
