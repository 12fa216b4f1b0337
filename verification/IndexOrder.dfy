/**
 The stable sort by index that both directions of a transfer use, and what it does to
 entries numbered from 1.
 */
module IndexOrder {
  /** Something that carries a block index. */
  datatype Indexed<T> = Indexed(index: int, item: T)

  predicate Ordered<T>(s: seq<Indexed<T>>) {
    forall i, j :: 0 <= i < j < |s| ==> s[i].index <= s[j].index
  }

  function Insert<T>(x: Indexed<T>, s: seq<Indexed<T>>): (r: seq<Indexed<T>>)
    ensures |r| == |s| + 1
  {
    if s == [] || x.index <= s[0].index then [x] + s
    else [s[0]] + Insert(x, s[1..])
  }

  function SortByIndex<T>(s: seq<Indexed<T>>): (r: seq<Indexed<T>>)
    ensures |r| == |s|
  {
    if s == [] then [] else Insert(s[0], SortByIndex(s[1..]))
  }

  /** The entries with one index, in order. */
  function Same<T>(s: seq<Indexed<T>>, index: int): seq<Indexed<T>> {
    if s == [] then []
    else (if s[0].index == index then [s[0]] else []) + Same(s[1..], index)
  }

  lemma {:induction false} InsertEntries<T>(x: Indexed<T>, s: seq<Indexed<T>>)
    ensures multiset(Insert(x, s)) == multiset([x] + s)
  {
    if s != [] && x.index > s[0].index {
      InsertEntries(x, s[1..]);
      assert multiset([s[0]] + Insert(x, s[1..])) == multiset{s[0]} + multiset([x] + s[1..]);
      assert s == [s[0]] + s[1..];
    }
  }

  lemma {:induction false} InsertOrdered<T>(x: Indexed<T>, s: seq<Indexed<T>>)
    requires Ordered(s)
    ensures Ordered(Insert(x, s))
  {
    if s != [] && x.index > s[0].index {
      InsertOrdered(x, s[1..]);
      InsertEntries(x, s[1..]);
      forall e | e in Insert(x, s[1..]) ensures s[0].index <= e.index {
        assert e in multiset([x] + s[1..]);
      }
    }
  }

  lemma {:induction false} InsertSame<T>(x: Indexed<T>, s: seq<Indexed<T>>, index: int)
    ensures Same(Insert(x, s), index) == Same([x] + s, index)
  {
    assert ([x] + s)[1..] == s;
    if s != [] && x.index > s[0].index {
      InsertSame(x, s[1..], index);
      assert ([s[0]] + Insert(x, s[1..]))[1..] == Insert(x, s[1..]);
      assert ([x] + s[1..])[1..] == s[1..];
    }
  }

  lemma {:induction false} SortOrders<T>(s: seq<Indexed<T>>)
    ensures Ordered(SortByIndex(s)) && multiset(SortByIndex(s)) == multiset(s)
  {
    if s != [] {
      SortOrders(s[1..]);
      InsertOrdered(s[0], SortByIndex(s[1..]));
      InsertEntries(s[0], SortByIndex(s[1..]));
      assert s == [s[0]] + s[1..];
    }
  }

  lemma {:induction false} SortKeepsSame<T>(s: seq<Indexed<T>>, index: int)
    ensures Same(SortByIndex(s), index) == Same(s, index)
  {
    if s != [] {
      SortKeepsSame(s[1..], index);
      InsertSame(s[0], SortByIndex(s[1..]), index);
      assert ([s[0]] + SortByIndex(s[1..]))[1..] == SortByIndex(s[1..]);
    }
  }

  /** A stable sort: the same entries, in index order, equal indices in their old order. */
  lemma SortIsStable<T>(s: seq<Indexed<T>>)
    ensures Ordered(SortByIndex(s)) && multiset(SortByIndex(s)) == multiset(s)
    ensures forall index :: Same(SortByIndex(s), index) == Same(s, index)
  {
    SortOrders(s);
    forall index ensures Same(SortByIndex(s), index) == Same(s, index) {
      SortKeepsSame(s, index);
    }
  }

  /** Every index from 1 to the number of entries occurs. */
  predicate Numbered<T>(s: seq<Indexed<T>>) {
    forall k :: 1 <= k <= |s| ==> Occurs(s, k)
  }

  predicate Occurs<T>(s: seq<Indexed<T>>, index: int) {
    exists i :: 0 <= i < |s| && s[i].index == index
  }

  predicate InPlace<T>(s: seq<Indexed<T>>) {
    forall i :: 0 <= i < |s| ==> s[i].index == i + 1
  }

  lemma {:induction false} OrderedAndNumbered<T>(s: seq<Indexed<T>>)
    requires Ordered(s) && Numbered(s)
    ensures InPlace(s)
  {
    if s != [] {
      var n := |s|;
      assert Occurs(s, n);
      var init := s[..n - 1];
      forall k | 1 <= k <= n - 1 ensures Occurs(init, k) {
        assert Occurs(s, k);
        var i :| 0 <= i < n && s[i].index == k;
        assert i < n - 1;
        assert init[i].index == k;
      }
      OrderedAndNumbered(init);
      forall i | 0 <= i < n - 1 ensures s[i].index == i + 1 {
        assert init[i].index == i + 1;
      }
    }
  }

  lemma PermutedOccurs<T>(s: seq<Indexed<T>>, t: seq<Indexed<T>>, index: int)
    requires multiset(s) == multiset(t) && Occurs(s, index)
    ensures Occurs(t, index)
  {
    var i :| 0 <= i < |s| && s[i].index == index;
    assert s[i] in multiset(t);
    assert s[i] in t;
  }

  /** After sorting, entry k sits at position k - 1 for every k if and only if the
      indices are a permutation of 1..N. */
  lemma SortedInPlaceExactlyWhenNumbered<T>(s: seq<Indexed<T>>)
    ensures InPlace(SortByIndex(s)) <==> Numbered(s)
  {
    var t := SortByIndex(s);
    SortIsStable(s);
    if Numbered(s) {
      forall k | 1 <= k <= |t| ensures Occurs(t, k) {
        PermutedOccurs(s, t, k);
      }
      OrderedAndNumbered(t);
    }
    if InPlace(t) {
      forall k | 1 <= k <= |s| ensures Occurs(s, k) {
        assert t[k - 1].index == k;
        PermutedOccurs(t, s, k);
      }
    }
  }
}
