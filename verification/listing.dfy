/** What the two homework list pages share: the comparator `(a, b) => ...` they hand to
    `Array.prototype.sort`, the stable sort itself, `filter`, and the sort controls that
    `handleSort` and `clearFilters` change. */
module Listing {

  // ---------------------------------------------------------------- sort keys

  /** A sort direction, `"asc"` or `"desc"`. */
  datatype Order = Asc | Desc

  function Flip(o: Order): Order {
    if o == Asc then Desc else Asc
  }

  /** A value the comparator compares: a lower-cased text or a time in milliseconds. */
  datatype Key = Str(s: string) | Time(t: int)

  /** JavaScript `<` on two strings: the first differing character decides, and a proper
      prefix comes first. */
  predicate StrLess(a: string, b: string)
    ensures StrLess(a, b) ==> a != b
    ensures a < b ==> StrLess(a, b)
    decreases |a|
  {
    if a == [] then b != []
    else if b == [] then false
    else if a[0] != b[0] then a[0] < b[0]
    else StrLess(a[1..], b[1..])
  }

  lemma {:induction false} StrLessIrreflexive(a: string)
    ensures !StrLess(a, a)
    decreases |a|
  {
    if a != [] {
      StrLessIrreflexive(a[1..]);
    }
  }

  /** `a` and `b` agree on their first `k` characters, and there `a` ends while `b` goes on,
      or `a`'s character is the smaller. */
  predicate FirstDifference(a: string, b: string, k: int) {
    0 <= k <= |a| && k < |b| && a[..k] == b[..k] && (k == |a| || a[k] < b[k])
  }

  /** `StrLess` is lexicographic order: `a` is less exactly when there is a position where it
      first differs from `b` by ending or by a smaller character. */
  lemma {:induction false} StrLessMeaning(a: string, b: string)
    ensures StrLess(a, b) <==> exists k :: FirstDifference(a, b, k)
    decreases |a|
  {
    if a == [] || b == [] || a[0] != b[0] {
      if StrLess(a, b) {
        assert FirstDifference(a, b, 0);
      }
    } else {
      StrLessMeaning(a[1..], b[1..]);
      if k :| FirstDifference(a[1..], b[1..], k) {
        FirstDifferenceTail(a, b, k);
      }
      if k :| FirstDifference(a, b, k) {
        assert k > 0;
        FirstDifferenceTail(a, b, k - 1);
      }
    }
  }

  /** Behind a common first character, the first difference moves one place. */
  lemma FirstDifferenceTail(a: string, b: string, k: int)
    requires a != [] && b != [] && a[0] == b[0] && 0 <= k
    ensures FirstDifference(a[1..], b[1..], k) <==> FirstDifference(a, b, k + 1)
  {
    if k + 1 <= |a| && k + 1 < |b| {
      assert a[..k + 1] == [a[0]] + a[1..][..k];
      assert b[..k + 1] == [b[0]] + b[1..][..k];
    }
  }

  /** Of two different strings, exactly one is less than the other. */
  lemma {:induction false} StrLessTotal(a: string, b: string)
    ensures a != b ==> StrLess(a, b) || StrLess(b, a)
    ensures !(StrLess(a, b) && StrLess(b, a))
    decreases |a|
  {
    if a != [] && b != [] && a[0] == b[0] {
      StrLessTotal(a[1..], b[1..]);
      if a != b {
        assert a == [a[0]] + a[1..] && b == [b[0]] + b[1..];
      }
    }
  }

  lemma {:induction false} StrLessTransitive(a: string, b: string, c: string)
    requires StrLess(a, b) && StrLess(b, c)
    ensures StrLess(a, c)
    decreases |a|
  {
    if a != [] && a[0] == b[0] && b[0] == c[0] {
      StrLessTransitive(a[1..], b[1..], c[1..]);
    }
  }

  /** `aValue < bValue` on two keys. Keys of the same page and field are always of one kind;
      the model puts times before texts so that the order is total on every pair. */
  predicate Less(a: Key, b: Key)
    ensures Less(a, b) ==> a != b
  {
    match (a, b)
    case (Str(x), Str(y)) => StrLess(x, y)
    case (Time(x), Time(y)) => x < y
    case (Time(_), Str(_)) => true
    case (Str(_), Time(_)) => false
  }

  /** `Less` is a strict total order on keys. */
  lemma LessTotal(a: Key, b: Key)
    ensures !Less(a, a)
    ensures a != b ==> Less(a, b) || Less(b, a)
    ensures !(Less(a, b) && Less(b, a))
  {
    if a.Str? {
      StrLessIrreflexive(a.s);
      if b.Str? {
        StrLessTotal(a.s, b.s);
      }
    }
  }

  lemma LessTransitive(a: Key, b: Key, c: Key)
    requires Less(a, b) && Less(b, c)
    ensures Less(a, c)
  {
    if a.Str? && b.Str? && c.Str? {
      StrLessTransitive(a.s, b.s, c.s);
    }
  }

  // ---------------------------------------------------------------- comparator

  /** The comparator: -1, 1 or 0 as `aValue` sorts before, after or level with `bValue` in
      the chosen direction. */
  function Compare(a: Key, b: Key, o: Order): (c: int)
    ensures c == -1 || c == 0 || c == 1
  {
    if Less(a, b) then (if o == Asc then -1 else 1)
    else if Less(b, a) then (if o == Asc then 1 else -1)
    else 0
  }

  /** The comparator returns 0 exactly on equal keys, is antisymmetric, and reversing the
      direction reverses every comparison. */
  lemma CompareProperties(a: Key, b: Key, o: Order)
    ensures Compare(a, b, o) == 0 <==> a == b
    ensures Compare(b, a, o) == -Compare(a, b, o)
    ensures Compare(a, b, Flip(o)) == -Compare(a, b, o)
  {
    LessTotal(a, b);
  }

  /** What "sorts no later" means in each direction: not greater when ascending, not less when
      descending. */
  lemma CompareDirection(a: Key, b: Key)
    ensures Compare(a, b, Asc) <= 0 <==> !Less(b, a)
    ensures Compare(a, b, Desc) <= 0 <==> !Less(a, b)
  {
    LessTotal(a, b);
  }

  /** "Sorts no later" is transitive, so the comparator is consistent. */
  lemma CompareTransitive(a: Key, b: Key, c: Key, o: Order)
    requires Compare(a, b, o) <= 0 && Compare(b, c, o) <= 0
    ensures Compare(a, c, o) <= 0
  {
    LessTotal(a, b);
    LessTotal(b, c);
    if o == Asc && Less(c, a) && Less(a, b) {
      LessTransitive(c, a, b);
    }
    if o == Desc && Less(b, a) && Less(a, c) {
      LessTransitive(b, a, c);
    }
  }

  // ---------------------------------------------------------------- filter

  /** `xs.filter(p)`: the elements satisfying `p`, in order. */
  function Filter<T(!new)>(xs: seq<T>, p: T -> bool): (r: seq<T>)
    ensures |r| <= |xs|
    decreases |xs|
  {
    if xs == [] then []
    else
      var rest := Filter(xs[1..], p);
      if p(xs[0]) then [xs[0]] + rest else rest
  }

  /** The filter keeps exactly the elements satisfying the test, each as often as it occurs. */
  lemma {:induction false} FilterCount<T(!new)>(xs: seq<T>, p: T -> bool)
    ensures forall x :: x in Filter(xs, p) <==> x in xs && p(x)
    ensures forall x :: multiset(Filter(xs, p))[x] == if p(x) then multiset(xs)[x] else 0
    decreases |xs|
  {
    if xs != [] {
      FilterCount(xs[1..], p);
      assert xs == [xs[0]] + xs[1..];
    }
  }

  /** Filtering works element by element, front to back: the kept elements of a concatenation
      are the kept elements of its first part followed by those of its second, so each kept
      element stays in its original place relative to the others. */
  lemma {:induction false} FilterAppend<T(!new)>(a: seq<T>, b: seq<T>, p: T -> bool)
    ensures Filter(a + b, p) == Filter(a, p) + Filter(b, p)
    decreases |a|
  {
    if a == [] {
      assert a + b == b;
    } else {
      FilterAppend(a[1..], b, p);
      FilterFront(a + b, p);
      FilterFront(a, p);
      assert (a + b)[0] == a[0] && (a + b)[1..] == a[1..] + b;
      var front := if p(a[0]) then [a[0]] else [];
      assert front + (Filter(a[1..], p) + Filter(b, p)) == (front + Filter(a[1..], p)) + Filter(b, p);
    }
  }

  /** A non-empty list's kept elements are its head, when kept, before its tail's. */
  lemma FilterFront<T(!new)>(xs: seq<T>, p: T -> bool)
    requires xs != []
    ensures Filter(xs, p) == (if p(xs[0]) then [xs[0]] else []) + Filter(xs[1..], p)
  {
  }

  /** A filter that keeps everything returns the list itself. */
  lemma {:induction false} FilterAll<T(!new)>(xs: seq<T>, p: T -> bool)
    requires forall x :: x in xs ==> p(x)
    ensures Filter(xs, p) == xs
    decreases |xs|
  {
    if xs != [] {
      assert forall x :: x in xs[1..] ==> x in xs;
      FilterAll(xs[1..], p);
    }
  }

  /** Filters that agree on every element of the list keep the same elements. */
  lemma {:induction false} FilterSame<T(!new)>(xs: seq<T>, p: T -> bool, q: T -> bool)
    requires forall x :: x in xs ==> p(x) == q(x)
    ensures Filter(xs, p) == Filter(xs, q)
    decreases |xs|
  {
    if xs != [] {
      assert forall x :: x in xs[1..] ==> x in xs;
      FilterSame(xs[1..], p, q);
    }
  }

  // ---------------------------------------------------------------- stable sort

  /** The comparator applied through a key function. */
  function Cmp<T(!new)>(key: T -> Key, o: Order, x: T, y: T): int {
    Compare(key(x), key(y), o)
  }

  /** Each element sorts no later than the next one. */
  predicate Sorted<T(!new)>(xs: seq<T>, key: T -> Key, o: Order) {
    forall i :: 0 <= i < |xs| - 1 ==> Cmp(key, o, xs[i], xs[i + 1]) <= 0
  }

  /** Inserts `x` in front of the first element it does not sort after. */
  function Insert<T(!new)>(x: T, ys: seq<T>, key: T -> Key, o: Order): (r: seq<T>)
    ensures |r| == |ys| + 1
    ensures multiset(r) == multiset(ys) + multiset{x}
    ensures r[0] == x || (ys != [] && r[0] == ys[0])
    decreases |ys|
  {
    if ys == [] then [x]
    else if Cmp(key, o, x, ys[0]) <= 0 then [x] + ys
    else
      assert ys == [ys[0]] + ys[1..];
      [ys[0]] + Insert(x, ys[1..], key, o)
  }

  /** `[...xs].sort(comparator)`: a stable sort, here by insertion of each element into the
      sorted rest of the list. */
  function Sort<T(!new)>(xs: seq<T>, key: T -> Key, o: Order): (r: seq<T>)
    ensures |r| == |xs|
    ensures multiset(r) == multiset(xs)
    decreases |xs|
  {
    if xs == [] then []
    else
      assert xs == [xs[0]] + xs[1..];
      Insert(xs[0], Sort(xs[1..], key, o), key, o)
  }

  /** Lists holding the same elements with the same multiplicities hold the same elements. */
  lemma SameMembers<T(!new)>(a: seq<T>, b: seq<T>)
    requires multiset(a) == multiset(b)
    ensures forall x :: x in a <==> x in b
  {
    forall x ensures x in a <==> x in b {
      assert x in a <==> x in multiset(a);
      assert x in b <==> x in multiset(b);
    }
  }

  lemma {:induction false} InsertSorted<T(!new)>(x: T, ys: seq<T>, key: T -> Key, o: Order)
    requires Sorted(ys, key, o)
    ensures Sorted(Insert(x, ys, key, o), key, o)
    decreases |ys|
  {
    if ys != [] && Cmp(key, o, x, ys[0]) > 0 {
      var tail := ys[1..];
      assert Sorted(tail, key, o) by {
        forall i | 0 <= i < |tail| - 1 ensures Cmp(key, o, tail[i], tail[i + 1]) <= 0 {
          assert tail[i] == ys[i + 1] && tail[i + 1] == ys[i + 2];
        }
      }
      InsertSorted(x, tail, key, o);
      CompareProperties(key(x), key(ys[0]), o);
      var r := Insert(x, ys, key, o);
      var rest := Insert(x, tail, key, o);
      assert r == [ys[0]] + rest;
      forall i | 0 <= i < |r| - 1 ensures Cmp(key, o, r[i], r[i + 1]) <= 0 {
        if i > 0 {
          assert r[i] == rest[i - 1] && r[i + 1] == rest[i];
        } else if rest[0] != x {
          assert rest[0] == ys[1];
        }
      }
    }
  }

  /** The sorted list is ordered by the comparator. */
  lemma {:induction false} SortSorted<T(!new)>(xs: seq<T>, key: T -> Key, o: Order)
    ensures Sorted(Sort(xs, key, o), key, o)
    decreases |xs|
  {
    if xs != [] {
      SortSorted(xs[1..], key, o);
      InsertSorted(xs[0], Sort(xs[1..], key, o), key, o);
    }
  }

  /** The elements whose key is `k`, in order. */
  function WithKey<T(!new)>(xs: seq<T>, key: T -> Key, k: Key): seq<T>
    decreases |xs|
  {
    if xs == [] then []
    else (if key(xs[0]) == k then [xs[0]] else []) + WithKey(xs[1..], key, k)
  }

  /** An element is among those with key `k` exactly when it is in the list and has that key. */
  lemma {:induction false} WithKeyMember<T(!new)>(xs: seq<T>, key: T -> Key, k: Key, x: T)
    ensures x in WithKey(xs, key, k) <==> x in xs && key(x) == k
    decreases |xs|
  {
    if xs != [] {
      WithKeyMember(xs[1..], key, k, x);
      assert xs == [xs[0]] + xs[1..];
    }
  }

  /** The elements with key `k` of a list with `x` in front. */
  lemma WithKeyCons<T(!new)>(x: T, ys: seq<T>, key: T -> Key, k: Key)
    ensures WithKey([x] + ys, key, k) == (if key(x) == k then [x] else []) + WithKey(ys, key, k)
  {
    assert ([x] + ys)[1..] == ys;
  }

  /** Inserting past a head with another key leaves that head in front. */
  lemma InsertPastHead<T(!new)>(x: T, ys: seq<T>, key: T -> Key, o: Order, k: Key)
    requires ys != [] && Cmp(key, o, x, ys[0]) > 0
    requires WithKey(Insert(x, ys[1..], key, o), key, k)
             == (if key(x) == k then [x] else []) + WithKey(ys[1..], key, k)
    ensures WithKey(Insert(x, ys, key, o), key, k)
            == (if key(x) == k then [x] else []) + WithKey(ys, key, k)
  {
    var y, rest, w := ys[0], Insert(x, ys[1..], key, o), WithKey(ys[1..], key, k);
    assert Insert(x, ys, key, o) == [y] + rest;
    CompareProperties(key(x), key(y), o);
    WithKeyCons(y, rest, key, k);
    if key(y) == k {
      assert WithKey(ys, key, k) == [y] + w;
      assert WithKey(rest, key, k) == [] + w == w;
    } else if key(x) == k {
      assert WithKey(ys, key, k) == [] + w == w;
      assert WithKey(Insert(x, ys, key, o), key, k) == [] + WithKey(rest, key, k);
    } else {
      assert WithKey(ys, key, k) == [] + w == w;
      assert WithKey(rest, key, k) == [] + w;
    }
  }

  lemma {:induction false} InsertWithKey<T(!new)>(x: T, ys: seq<T>, key: T -> Key, o: Order, k: Key)
    ensures WithKey(Insert(x, ys, key, o), key, k)
            == (if key(x) == k then [x] else []) + WithKey(ys, key, k)
    decreases |ys|
  {
    if ys == [] {
      WithKeyCons(x, [], key, k);
    } else if Cmp(key, o, x, ys[0]) <= 0 {
      WithKeyCons(x, ys, key, k);
    } else {
      InsertWithKey(x, ys[1..], key, o, k);
      InsertPastHead(x, ys, key, o, k);
    }
  }

  /** The sort is stable: elements with equal keys keep their relative order. */
  lemma {:induction false} SortStable<T(!new)>(xs: seq<T>, key: T -> Key, o: Order, k: Key)
    ensures WithKey(Sort(xs, key, o), key, k) == WithKey(xs, key, k)
    decreases |xs|
  {
    if xs != [] {
      SortStable(xs[1..], key, o, k);
      InsertWithKey(xs[0], Sort(xs[1..], key, o), key, o, k);
    }
  }

  /** Sorting a list that is already in order changes nothing; in particular sorting twice is
      sorting once. */
  lemma {:induction false} SortOfSorted<T(!new)>(xs: seq<T>, key: T -> Key, o: Order)
    requires Sorted(xs, key, o)
    ensures Sort(xs, key, o) == xs
    decreases |xs|
  {
    if xs != [] {
      var tail := xs[1..];
      assert Sorted(tail, key, o) by {
        forall i | 0 <= i < |tail| - 1 ensures Cmp(key, o, tail[i], tail[i + 1]) <= 0 {
          assert tail[i] == xs[i + 1] && tail[i + 1] == xs[i + 2];
        }
      }
      SortOfSorted(tail, key, o);
      if tail != [] {
        assert Cmp(key, o, xs[0], tail[0]) <= 0;
      }
      assert [xs[0]] + tail == xs;
    }
  }

  lemma SortTwice<T(!new)>(xs: seq<T>, key: T -> Key, o: Order)
    ensures Sort(Sort(xs, key, o), key, o) == Sort(xs, key, o)
  {
    SortSorted(xs, key, o);
    SortOfSorted(Sort(xs, key, o), key, o);
  }

  /** In a sorted list, every element sorts no later than every element after it. */
  lemma {:induction false} SortedBefore<T(!new)>(xs: seq<T>, key: T -> Key, o: Order, i: int, j: int)
    requires Sorted(xs, key, o)
    requires 0 <= i <= j < |xs|
    ensures Cmp(key, o, xs[i], xs[j]) <= 0
    decreases j - i
  {
    if i == j {
      CompareProperties(key(xs[i]), key(xs[i]), o);
    } else {
      SortedBefore(xs, key, o, i + 1, j);
      CompareTransitive(key(xs[i]), key(xs[i + 1]), key(xs[j]), o);
    }
  }

  lemma SortedTail<T(!new)>(xs: seq<T>, key: T -> Key, o: Order)
    requires Sorted(xs, key, o) && xs != []
    ensures Sorted(xs[1..], key, o)
  {
    var tail := xs[1..];
    forall i | 0 <= i < |tail| - 1 ensures Cmp(key, o, tail[i], tail[i + 1]) <= 0 {
      assert tail[i] == xs[i + 1] && tail[i + 1] == xs[i + 2];
    }
  }

  /** Lists with the same elements under every key hold the same elements. */
  lemma SameElements<T(!new)>(ys: seq<T>, zs: seq<T>, key: T -> Key, x: T)
    requires WithKey(ys, key, key(x)) == WithKey(zs, key, key(x))
    requires x in ys
    ensures x in zs
  {
    WithKeyMember(ys, key, key(x), x);
    WithKeyMember(zs, key, key(x), x);
  }

  /** The heads of two sorted lists with the same elements per key have the same key. */
  lemma SameHeadKey<T(!new)>(ys: seq<T>, zs: seq<T>, key: T -> Key, o: Order)
    requires Sorted(ys, key, o) && Sorted(zs, key, o)
    requires ys != [] && zs != []
    requires forall k :: WithKey(ys, key, k) == WithKey(zs, key, k)
    ensures key(ys[0]) == key(zs[0])
  {
    var y, z := ys[0], zs[0];
    SameElements(ys, zs, key, y);
    var i :| 0 <= i < |zs| && zs[i] == y;
    SortedBefore(zs, key, o, 0, i);
    SameElements(zs, ys, key, z);
    var j :| 0 <= j < |ys| && ys[j] == z;
    SortedBefore(ys, key, o, 0, j);
    CompareProperties(key(y), key(z), o);
  }

  /** Dropping heads with the same key keeps the lists' agreement under key `k`, and under the
      heads' own key the heads are the same element. */
  lemma TailsAgree<T(!new)>(ys: seq<T>, zs: seq<T>, key: T -> Key, k: Key)
    requires ys != [] && zs != [] && key(ys[0]) == key(zs[0])
    requires WithKey(ys, key, k) == WithKey(zs, key, k)
    ensures WithKey(ys[1..], key, k) == WithKey(zs[1..], key, k)
    ensures key(ys[0]) == k ==> ys[0] == zs[0]
  {
    var ty, tz := WithKey(ys[1..], key, k), WithKey(zs[1..], key, k);
    if key(ys[0]) == k {
      assert WithKey(ys, key, k) == [ys[0]] + ty;
      assert WithKey(zs, key, k) == [zs[0]] + tz;
      assert ([ys[0]] + ty)[1..] == ty && ([zs[0]] + tz)[1..] == tz;
    } else {
      assert WithKey(ys, key, k) == [] + ty;
      assert WithKey(zs, key, k) == [] + tz;
      assert [] + ty == ty && [] + tz == tz;
    }
  }

  /** Two sorted lists with the same elements, in the same order, under every key are equal. */
  lemma {:induction false} SortedStableEqual<T(!new)>(ys: seq<T>, zs: seq<T>, key: T -> Key, o: Order)
    requires Sorted(ys, key, o) && Sorted(zs, key, o)
    requires forall k :: WithKey(ys, key, k) == WithKey(zs, key, k)
    ensures ys == zs
    decreases |ys|
  {
    if ys == [] && zs != [] {
      SameElements(zs, ys, key, zs[0]);
    } else if ys != [] && zs == [] {
      SameElements(ys, zs, key, ys[0]);
    } else if ys != [] {
      SameHeadKey(ys, zs, key, o);
      TailsAgree(ys, zs, key, key(ys[0]));
      forall k ensures WithKey(ys[1..], key, k) == WithKey(zs[1..], key, k) {
        TailsAgree(ys, zs, key, k);
      }
      SortedTail(ys, key, o);
      SortedTail(zs, key, o);
      SortedStableEqual(ys[1..], zs[1..], key, o);
      assert ys == [ys[0]] + ys[1..] && zs == [zs[0]] + zs[1..];
    }
  }

  /** `Sort` is the only stable sort: any list ordered by the comparator that keeps, for every
      key, the elements with that key in their original order is the result of `Sort`. So the
      model gives the result of `Array.prototype.sort`, whatever algorithm the engine uses. */
  lemma SortUnique<T(!new)>(xs: seq<T>, ys: seq<T>, key: T -> Key, o: Order)
    requires Sorted(ys, key, o)
    requires forall k :: WithKey(ys, key, k) == WithKey(xs, key, k)
    ensures ys == Sort(xs, key, o)
  {
    var zs := Sort(xs, key, o);
    SortSorted(xs, key, o);
    forall k ensures WithKey(ys, key, k) == WithKey(zs, key, k) {
      SortStable(xs, key, o, k);
    }
    SortedStableEqual(ys, zs, key, o);
  }

  // ---------------------------------------------------------------- sort controls

  /** The search term, sort field and sort order a list page keeps. */
  datatype Controls<F> = Controls(searchTerm: string, sortField: F, sortOrder: Order)

  /** `handleSort(field)`: a click on the current field flips the order; a click on another
      field selects it, descending. The search term is untouched. */
  function Click<F(==)>(c: Controls<F>, field: F): (r: Controls<F>)
    ensures r.sortField == field && r.searchTerm == c.searchTerm
    ensures c.sortField == field ==> r.sortOrder == Flip(c.sortOrder)
    ensures c.sortField != field ==> r.sortOrder == Desc
  {
    if c.sortField == field then c.(sortOrder := Flip(c.sortOrder))
    else c.(sortField := field, sortOrder := Desc)
  }

  /** Two clicks on the current field restore the controls; two clicks on another field
      select it ascending. */
  lemma ClickTwice<F>(c: Controls<F>, field: F)
    ensures c.sortField == field ==> Click(Click(c, field), field) == c
    ensures c.sortField != field ==> Click(Click(c, field), field) == c.(sortField := field, sortOrder := Asc)
  {
  }

  /** `clearFilters()`: the empty search term and the page's default field, descending. */
  function Cleared<F>(defaultField: F): (r: Controls<F>)
    ensures r.searchTerm == "" && r.sortField == defaultField && r.sortOrder == Desc
  {
    Controls("", defaultField, Desc)
  }
}
