/** SortHuffmanTreeItems: insertion sort below 13 items, Shell sort from there on
    (contrib/brotli/enc/entropy_encode.h). */
module TreeSort {

  /** The comparator is a strict weak order. */
  ghost predicate StrictWeak<T(!new)>(less: (T, T) -> bool) {
    (forall a, b :: less(a, b) ==> !less(b, a)) &&
    (forall a, b, c {:trigger less(a, b), less(b, c)} :: !less(a, b) && !less(b, c) ==> !less(a, c))
  }

  function Swap<T>(s: seq<T>, i: nat, j: nat): (r: seq<T>)
    requires i < |s| && j < |s|
    ensures |r| == |s|
  {
    s[i := s[j]][j := s[i]]
  }

  lemma SwapPermutes<T>(s: seq<T>, i: nat, j: nat)
    requires i < |s| && j < |s|
    ensures multiset(Swap(s, i, j)) == multiset(s)
  {
  }

  /** s with the item at i carried down in steps of g while it is less. */
  function Insert<T>(s: seq<T>, i: nat, g: nat, less: (T, T) -> bool): (r: seq<T>)
    requires i < |s| && 0 < g
    ensures |r| == |s|
    decreases i
  {
    if i >= g && less(s[i], s[i - g]) then Insert(Swap(s, i, i - g), i - g, g, less) else s
  }

  lemma {:induction false} InsertPermutes<T>(s: seq<T>, i: nat, g: nat, less: (T, T) -> bool)
    requires i < |s| && 0 < g
    ensures multiset(Insert(s, i, g, less)) == multiset(s)
    decreases i
  {
    if i >= g && less(s[i], s[i - g]) {
      InsertPermutes(Swap(s, i, i - g), i - g, g, less);
      SwapPermutes(s, i, i - g);
    }
  }

  /** y lies a number of steps of g above x. */
  predicate Above(x: int, y: int, g: nat)
    requires 0 < g
    decreases y - x
  {
    0 <= x <= y - g && (x == y - g || Above(x, y - g, g))
  }

  lemma {:induction false} AboveByOne(x: int, y: int)
    requires 0 <= x < y
    ensures Above(x, y, 1)
    decreases y - x
  {
    if x < y - 1 {
      AboveByOne(x, y - 1);
    }
  }

  ghost predicate Ordered<T>(s: seq<T>, x: int, y: int, less: (T, T) -> bool) {
    0 <= x < |s| && 0 <= y < |s| && !less(s[y], s[x])
  }

  /** Items of s[..n] that lie steps of g apart are in order. */
  ghost predicate GapSorted<T>(s: seq<T>, n: nat, g: nat, less: (T, T) -> bool)
    requires 0 < g
  {
    n <= |s| && forall x, y {:trigger Above(x, y, g)} :: Above(x, y, g) && y < n ==> Ordered(s, x, y, less)
  }

  /** The same, but for the item at i, which only is not greater than those above it. */
  ghost predicate Inserting<T>(s: seq<T>, n: nat, i: nat, g: nat, less: (T, T) -> bool)
    requires 0 < g
  {
    i < n <= |s| &&
    forall x, y {:trigger Above(x, y, g)} :: Above(x, y, g) && y < n && y != i ==> Ordered(s, x, y, less)
  }

  lemma SwapInserting<T(!new)>(s: seq<T>, n: nat, i: nat, g: nat, less: (T, T) -> bool)
    requires StrictWeak(less) && 0 < g <= i && Inserting(s, n, i, g, less) && less(s[i], s[i - g])
    ensures Inserting(Swap(s, i, i - g), n, i - g, g, less)
  {
    var r := Swap(s, i, i - g);
    forall x, y | Above(x, y, g) && y < n && y != i - g
      ensures Ordered(r, x, y, less)
    {
      if y == i {
        assert x == i - g || Above(x, i - g, g);
      } else if x == i - g && y > i {
        assert Above(i, y, g) by { AboveVia(i - g, y, g); }
      } else if x == i {
        assert Above(i - g, y, g) by { AboveBelow(i, y, g); }
      }
    }
  }

  lemma {:induction false} AboveVia(x: int, y: int, g: nat)
    requires 0 < g && Above(x, y, g) && y != x + g
    ensures Above(x + g, y, g)
    decreases y - x
  {
    if y - g != x + g {
      AboveVia(x, y - g, g);
    }
  }

  lemma {:induction false} AboveBelow(x: int, y: int, g: nat)
    requires 0 < g <= x && Above(x, y, g)
    ensures Above(x - g, y, g)
    decreases y - x
  {
    if x != y - g {
      AboveBelow(x, y - g, g);
    } else {
      assert Above(x - g, y - g, g);
    }
  }

  lemma {:induction false} InsertSorts<T(!new)>(s: seq<T>, n: nat, i: nat, g: nat, less: (T, T) -> bool)
    requires StrictWeak(less) && 0 < g && Inserting(s, n, i, g, less)
    ensures GapSorted(Insert(s, i, g, less), n, g, less)
    decreases i
  {
    if i >= g && less(s[i], s[i - g]) {
      SwapInserting(s, n, i, g, less);
      InsertSorts(Swap(s, i, i - g), n, i - g, g, less);
    } else {
      forall x | Above(x, i, g)
        ensures Ordered(s, x, i, less)
      {
        assert x != i - g ==> Above(x, i - g, g);
      }
    }
  }

  /** s after the items from g up to i - 1 have been inserted in turn. */
  function Passed<T>(s: seq<T>, i: nat, g: nat, less: (T, T) -> bool): (r: seq<T>)
    requires i <= |s| && 0 < g
    ensures |r| == |s|
  {
    if i <= g then s else Insert(Passed(s, i - 1, g, less), i - 1, g, less)
  }

  /** A pass with gap g sorts what lies g apart and loses nothing. */
  lemma {:induction false} PassSorts<T(!new)>(s: seq<T>, i: nat, g: nat, less: (T, T) -> bool)
    requires StrictWeak(less) && i <= |s| && 0 < g
    ensures GapSorted(Passed(s, i, g, less), i, g, less) && multiset(Passed(s, i, g, less)) == multiset(s)
    decreases i
  {
    if i > g {
      PassSorts(s, i - 1, g, less);
      InsertSorts(Passed(s, i - 1, g, less), i, i - 1, g, less);
      InsertPermutes(Passed(s, i - 1, g, less), i - 1, g, less);
    }
  }

  ghost predicate Sorted<T>(s: seq<T>, less: (T, T) -> bool) {
    forall x, y :: 0 <= x < y < |s| ==> !less(s[y], s[x])
  }

  lemma OneSorts<T>(s: seq<T>, less: (T, T) -> bool)
    requires GapSorted(s, |s|, 1, less)
    ensures Sorted(s, less)
  {
    forall x, y | 0 <= x < y < |s|
      ensures !less(s[y], s[x])
    {
      AboveByOne(x, y);
      assert Ordered(s, x, y, less);
    }
  }

  /** The inner loop of the Shell sort: items move up until tmp has its place. */
  method InsertGap<T>(items: array<T>, i: nat, gap: nat, less: (T, T) -> bool)
    requires i < items.Length && 0 < gap
    modifies items
    ensures items[..] == Insert(old(items[..]), i, gap, less)
  {
    ghost var s := items[..];
    var j, tmp := i, items[i];
    while j >= gap && less(tmp, items[j - gap])
      invariant 0 <= j <= i && |s| == items.Length && s[j] == tmp
      invariant (forall x :: 0 <= x < |s| && x != j ==> items[x] == s[x])
      invariant Insert(s, j, gap, less) == Insert(old(items[..]), i, gap, less)
    {
      s := Swap(s, j, j - gap);
      items[j] := items[j - gap];
      j := j - gap;
    }
    items[j] := tmp;
    assert items[..] == s;
  }

  /** The inner loop of the insertion sort. */
  method InsertDown<T>(items: array<T>, i: nat, less: (T, T) -> bool)
    requires 0 < i < items.Length
    modifies items
    ensures items[..] == Insert(old(items[..]), i, 1, less)
  {
    ghost var s := items[..];
    var tmp, k, j := items[i], i, i - 1;
    while less(tmp, items[j])
      invariant 0 <= j == k - 1 < i && |s| == items.Length && s[k] == tmp
      invariant forall x :: 0 <= x < |s| && x != k ==> items[x] == s[x]
      invariant Insert(s, k, 1, less) == Insert(old(items[..]), i, 1, less)
      decreases j
    {
      s := Swap(s, k, j);
      items[k] := items[j];
      k := j;
      if j == 0 {
        break;
      }
      j := j - 1;
    }
    items[k] := tmp;
    assert items[..] == s;
  }

  /** SortHuffmanTreeItems. */
  method SortHuffmanTreeItems<T(!new)>(items: array<T>, less: (T, T) -> bool)
    requires StrictWeak(less)
    modifies items
    ensures Sorted(items[..], less) && multiset(items[..]) == multiset(old(items[..]))
  {
    var n := items.Length;
    if n < 13 {
      ghost var s := items[..];
      var i := 1;
      while i < n
        invariant 1 <= i && (i <= n || n == 0) && items[..] == Passed(s, if i <= n then i else n, 1, less)
      {
        InsertDown(items, i, less);
        i := i + 1;
      }
      PassSorts(s, n, 1, less);
      OneSorts(items[..], less);
    } else {
      var gaps := [132, 57, 23, 10, 4, 1];
      var g := if n < 57 then 2 else 0;
      while g < 6
        invariant 0 <= g <= 6 && multiset(items[..]) == multiset(old(items[..]))
        invariant g == 6 ==> GapSorted(items[..], n, 1, less)
      {
        GapPass(items, gaps[g], less);
        g := g + 1;
      }
      OneSorts(items[..], less);
    }
  }

  /** One pass of the Shell sort. */
  method GapPass<T(!new)>(items: array<T>, gap: nat, less: (T, T) -> bool)
    requires StrictWeak(less) && 0 < gap
    modifies items
    ensures GapSorted(items[..], items.Length, gap, less) && multiset(items[..]) == multiset(old(items[..]))
  {
    ghost var s := items[..];
    var i := gap;
    while i < items.Length
      invariant gap <= i && items[..] == Passed(s, if i < items.Length then i else items.Length, gap, less)
    {
      InsertGap(items, i, gap, less);
      i := i + 1;
    }
    PassSorts(s, items.Length, gap, less);
  }
}
