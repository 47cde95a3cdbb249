/**
 * Sequence helpers shared by the services: element-wise map, flat map (a
 * filtering map), and the ordering step the list services apply with
 * sort.Slice, comparing with time.After: latest first. sort.Slice is not
 * stable and the services fill the slice from concurrent workers, so only
 * "non-increasing by key, and a permutation of the input" is promised; the
 * insertion sort below is one order that meets it.
 */
module Seqs {
  import opened Wrappers

  /** Apply f to every element, keeping the order. */
  function Map<T, U>(f: T -> U, s: seq<T>): (r: seq<U>)
    ensures |r| == |s|
    ensures forall i :: 0 <= i < |s| ==> r[i] == f(s[i])
  {
    if s == [] then [] else [f(s[0])] + Map(f, s[1..])
  }

  /** Extending a prefix of cs, after pre, by the next element of cs. */
  lemma PrefixSnoc<T>(pre: seq<T>, cs: seq<T>, j: nat)
    requires j < |cs|
    ensures pre + cs[..j] + [cs[j]] == pre + cs[..j + 1]
  {
    assert cs[..j] + [cs[j]] == cs[..j + 1];
  }

  /** The empty and the whole prefix of cs, after pre. */
  lemma PrefixEnds<T>(pre: seq<T>, cs: seq<T>)
    ensures pre + cs[..0] == pre && pre + cs[..|cs|] == pre + cs
  {
    assert cs[..0] == [] && cs[..|cs|] == cs;
  }

  /** Two sequences that agree at every position are equal. */
  lemma Pointwise<T>(a: seq<T>, b: seq<T>)
    requires |a| == |b| && forall k :: 0 <= k < |a| ==> a[k] == b[k]
    ensures a == b
  {
  }

  lemma MapAppend<T, U>(f: T -> U, a: seq<T>, b: seq<T>)
    ensures Map(f, a + b) == Map(f, a) + Map(f, b)
  {
    assert Map(f, a + b) == Map(f, a) + Map(f, b);
  }

  /** Concatenate f(x) over the elements x, in order. */
  function FlatMap<T, U>(f: T -> seq<U>, s: seq<T>): (r: seq<U>)
  {
    if s == [] then [] else f(s[0]) + FlatMap(f, s[1..])
  }

  lemma FlatMapSingle<T, U>(f: T -> seq<U>, x: T)
    ensures FlatMap(f, [x]) == f(x)
  {
    assert [x][1..] == [];
    assert f(x) + [] == f(x);
  }

  /** One more element: the flat map of a prefix grows by the image of the next element. */
  lemma FlatMapSnoc<T, U>(f: T -> seq<U>, s: seq<T>, i: nat)
    requires i < |s|
    ensures FlatMap(f, s[..i + 1]) == FlatMap(f, s[..i]) + f(s[i])
  {
    assert s[..i] + [s[i]] == s[..i + 1];
    FlatMapAppend(f, s[..i], [s[i]]);
    FlatMapSingle(f, s[i]);
  }

  lemma {:induction false} FlatMapAppend<T, U>(f: T -> seq<U>, a: seq<T>, b: seq<T>)
    ensures FlatMap(f, a + b) == FlatMap(f, a) + FlatMap(f, b)
  {
    if a == [] {
      assert a + b == b;
    } else {
      FlatMapAppend(f, a[1..], b);
      FlatMapCons(f, a, b);
      var x, m, n := f(a[0]), FlatMap(f, a[1..]), FlatMap(f, b);
      assert x + (m + n) == (x + m) + n;
    }
  }

  lemma FlatMapCons<T, U>(f: T -> seq<U>, a: seq<T>, b: seq<T>)
    requires a != []
    ensures FlatMap(f, a + b) == f(a[0]) + FlatMap(f, a[1..] + b)
  {
    assert (a + b)[0] == a[0] && (a + b)[1..] == a[1..] + b;
  }

  /** Every element of a flat map comes from the image of some element. */
  lemma {:induction false} FlatMapSource<T, U>(f: T -> seq<U>, s: seq<T>, y: U)
    requires y in FlatMap(f, s)
    ensures exists j :: 0 <= j < |s| && y in f(s[j])
  {
    if y !in f(s[0]) {
      FlatMapSource(f, s[1..], y);
      var j :| 0 <= j < |s[1..]| && y in f(s[1..][j]);
      assert s[j + 1] == s[1..][j];
    }
  }

  /** Flat maps of functions that agree on the elements are equal. */
  lemma {:induction false} FlatMapAgree<T, U>(f: T -> seq<U>, g: T -> seq<U>, s: seq<T>)
    requires forall j :: 0 <= j < |s| ==> f(s[j]) == g(s[j])
    ensures FlatMap(f, s) == FlatMap(g, s)
  {
    if s != [] {
      FlatMapAgree(f, g, s[1..]);
      assert f(s[0]) == g(s[0]);
    }
  }

  /** The set of values f yields on the elements of s (None yields nothing). */
  function Image<T, U>(f: T -> Option<U>, s: seq<T>): set<U> {
    if s == [] then {}
    else
      var y := f(s[|s| - 1]);
      Image(f, s[..|s| - 1]) + (if y.Some? then {y.value} else {})
  }

  /**
   * One step of a loop that builds Image(f, s) in a set: the element's image,
   * if any, is added unless it is already there.
   */
  lemma ImageExtend<T, U>(f: T -> Option<U>, s: seq<T>, i: nat, before: set<U>, after: set<U>)
    requires i < |s| && before == Image(f, s[..i])
    requires f(s[i]).None? ==> after == before
    requires f(s[i]).Some? ==> (f(s[i]).value in before && after == before) || after == before + {f(s[i]).value}
    ensures after == Image(f, s[..i + 1])
  {
    ImageSnoc(f, s, i);
  }

  lemma ImageSnoc<T, U>(f: T -> Option<U>, s: seq<T>, i: nat)
    requires i < |s|
    ensures Image(f, s[..i + 1]) == Image(f, s[..i]) + (if f(s[i]).Some? then {f(s[i]).value} else {})
  {
    assert s[..i + 1][..i] == s[..i];
  }

  lemma {:induction false} ImageSource<T, U>(f: T -> Option<U>, s: seq<T>, y: U)
    requires y in Image(f, s)
    ensures exists k :: 0 <= k < |s| && f(s[k]) == Some(y)
  {
    var init := s[..|s| - 1];
    if y in Image(f, init) {
      ImageSource(f, init, y);
      var k :| 0 <= k < |init| && f(init[k]) == Some(y);
      assert s[k] == init[k];
    } else {
      assert f(s[|s| - 1]) == Some(y);
    }
  }

  lemma {:induction false} ImageHas<T, U>(f: T -> Option<U>, s: seq<T>, k: nat)
    requires k < |s| && f(s[k]).Some?
    ensures f(s[k]).value in Image(f, s)
  {
    var init := s[..|s| - 1];
    if k < |init| {
      assert init[k] == s[k];
      ImageHas(f, init, k);
    }
  }

  /** A value is in the image exactly when some element yields it. */
  lemma ImageMeaning<T, U>(f: T -> Option<U>, s: seq<T>)
    ensures forall y :: y in Image(f, s) <==> exists k :: 0 <= k < |s| && f(s[k]) == Some(y)
  {
    forall y | y in Image(f, s)
      ensures exists k :: 0 <= k < |s| && f(s[k]) == Some(y)
    {
      ImageSource(f, s, y);
    }
    forall k | 0 <= k < |s| && f(s[k]).Some?
      ensures f(s[k]).value in Image(f, s)
    {
      ImageHas(f, s, k);
    }
  }

  /** The set of values f yields on the members of a set. */
  function SetImage<T, U>(f: T -> Option<U>, xs: set<T>): set<U> {
    set x | x in xs && f(x).Some? :: f(x).value
  }

  /** The image of any enumeration of a set is the image of the set. */
  lemma ImageOfSet<T, U>(f: T -> Option<U>, s: seq<T>, xs: set<T>)
    requires forall x :: x in s <==> x in xs
    ensures Image(f, s) == SetImage(f, xs)
  {
    forall y | y in SetImage(f, xs)
      ensures y in Image(f, s)
    {
      var x :| x in xs && f(x).Some? && f(x).value == y;
      var k :| 0 <= k < |s| && s[k] == x;
      ImageHas(f, s, k);
    }
    forall y | y in Image(f, s)
      ensures y in SetImage(f, xs)
    {
      ImageSource(f, s, y);
      var k :| 0 <= k < |s| && f(s[k]) == Some(y);
      assert s[k] in xs;
    }
  }

  /** A key function that keeps every element but `k` and drops `k` removes just `k`. */
  lemma SetImageDrop<T>(f: T -> Option<T>, xs: set<T>, k: T)
    requires forall x :: x in xs ==> f(x) == (if x == k then None else Some(x))
    ensures SetImage(f, xs) == xs - {k}
  {
    forall x | x in xs - {k}
      ensures x in SetImage(f, xs)
    {
      assert f(x) == Some(x);
    }
  }

  /** The position of the first element that satisfies f (a FindOne in natural order). */
  function FirstIndex<T>(s: seq<T>, f: T -> bool): (r: Option<nat>)
    ensures r.Some? ==> r.value < |s| && f(s[r.value]) && forall j :: 0 <= j < r.value ==> !f(s[j])
    ensures r.None? <==> forall j :: 0 <= j < |s| ==> !f(s[j])
  {
    if s == [] then None
    else if f(s[0]) then Some(0)
    else match FirstIndex(s[1..], f)
      case None => None
      case Some(k) => Some(k + 1)
  }

  /** Keys are non-increasing from left to right (latest timestamp first). */
  predicate SortedDesc<T>(s: seq<T>, key: T -> int) {
    forall i, j :: 0 <= i < j < |s| ==> key(s[i]) >= key(s[j])
  }

  function Insert<T>(x: T, s: seq<T>, key: T -> int): (r: seq<T>)
    ensures |r| == |s| + 1
  {
    if s == [] || key(s[0]) <= key(x) then [x] + s else [s[0]] + Insert(x, s[1..], key)
  }

  function Sort<T>(s: seq<T>, key: T -> int): (r: seq<T>)
    ensures |r| == |s|
  {
    if s == [] then [] else Insert(s[0], Sort(s[1..], key), key)
  }

  lemma {:induction false} InsertSorted<T>(x: T, s: seq<T>, key: T -> int)
    requires SortedDesc(s, key)
    ensures SortedDesc(Insert(x, s, key), key)
    ensures forall k :: 0 <= k < |s| + 1 ==> Insert(x, s, key)[k] == x || Insert(x, s, key)[k] in s
  {
    if s != [] && key(s[0]) > key(x) {
      InsertSorted(x, s[1..], key);
      var r := Insert(x, s, key);
      assert r == [s[0]] + Insert(x, s[1..], key);
      forall k | 1 <= k < |r| ensures key(r[0]) >= key(r[k]) {
        assert r[k] == x || r[k] in s[1..];
      }
    }
  }

  lemma {:induction false} InsertMapPerm<T, U>(x: T, s: seq<T>, key: T -> int, f: T -> U)
    ensures multiset(Map(f, Insert(x, s, key))) == multiset(Map(f, s)) + multiset{f(x)}
  {
    if s != [] && key(s[0]) > key(x) {
      InsertMapPerm(x, s[1..], key, f);
      assert Map(f, Insert(x, s, key)) == [f(s[0])] + Map(f, Insert(x, s[1..], key));
      assert Map(f, s) == [f(s[0])] + Map(f, s[1..]);
    }
  }

  /** The result of Sort is ordered latest first. */
  lemma {:induction false} SortSorted<T>(s: seq<T>, key: T -> int)
    ensures SortedDesc(Sort(s, key), key)
  {
    if s != [] {
      SortSorted(s[1..], key);
      InsertSorted(s[0], Sort(s[1..], key), key);
    }
  }

  /** Sorting and then mapping gives the same multiset as mapping alone. */
  lemma {:induction false} SortMapPerm<T, U>(s: seq<T>, key: T -> int, f: T -> U)
    ensures multiset(Map(f, Sort(s, key))) == multiset(Map(f, s))
  {
    if s != [] {
      SortMapPerm(s[1..], key, f);
      InsertMapPerm(s[0], Sort(s[1..], key), key, f);
      assert Map(f, s) == [f(s[0])] + Map(f, s[1..]);
    }
  }

  lemma {:induction false} InsertPerm<T>(x: T, s: seq<T>, key: T -> int)
    ensures multiset(Insert(x, s, key)) == multiset(s) + multiset{x}
  {
    if s != [] && key(s[0]) > key(x) {
      InsertPerm(x, s[1..], key);
      assert s == [s[0]] + s[1..];
    }
  }

  /** Sort returns a permutation of its input. */
  lemma {:induction false} SortPerm<T>(s: seq<T>, key: T -> int)
    ensures multiset(Sort(s, key)) == multiset(s)
  {
    if s != [] {
      SortPerm(s[1..], key);
      InsertPerm(s[0], Sort(s[1..], key), key);
      assert s == [s[0]] + s[1..];
    }
  }

  /**
   * sort.Slice with a "later than" comparison, done in place: an insertion
   * sort that leaves the array latest first and holding the same elements.
   */
  method SortInPlace<T>(a: array<T>, key: T -> int)
    modifies a
    ensures SortedDesc(a[..], key)
    ensures multiset(a[..]) == multiset(old(a[..]))
  {
    var i := 0;
    while i < a.Length
      invariant 0 <= i <= a.Length
      invariant SortedDesc(a[..i], key)
      invariant multiset(a[..]) == multiset(old(a[..]))
    {
      SinkLast(a, i, key);
      i := i + 1;
    }
    assert a[..i] == a[..];
  }

  /** One insertion step: a[i] moves left past the earlier elements with smaller keys. */
  method SinkLast<T>(a: array<T>, i: nat, key: T -> int)
    requires i < a.Length && SortedDesc(a[..i], key)
    modifies a
    ensures SortedDesc(a[..i + 1], key)
    ensures multiset(a[..]) == multiset(old(a[..]))
  {
    var j := i;
    while j > 0 && key(a[j - 1]) < key(a[j])
      invariant 0 <= j <= i
      invariant multiset(a[..]) == multiset(old(a[..]))
      invariant forall k, l :: 0 <= k < l <= i && k != j && l != j ==> key(a[k]) >= key(a[l])
      invariant forall l :: j < l <= i ==> key(a[j]) > key(a[l])
    {
      SwapDown(a, j);
      j := j - 1;
    }
    forall k, l | 0 <= k < l <= i
      ensures key(a[k]) >= key(a[l])
    {
      if l == j && k < j - 1 {
        assert key(a[k]) >= key(a[j - 1]);
      }
    }
  }

  /** Exchanges a[j - 1] and a[j]: nothing else moves, and the contents are the same. */
  method SwapDown<T>(a: array<T>, j: nat)
    requires 0 < j < a.Length
    modifies a
    ensures a[j - 1] == old(a[j]) && a[j] == old(a[j - 1])
    ensures forall k :: 0 <= k < a.Length && k != j - 1 && k != j ==> a[k] == old(a[k])
    ensures multiset(a[..]) == multiset(old(a[..]))
  {
    a[j - 1], a[j] := a[j], a[j - 1];
  }

  /** Elements are pairwise distinct. */
  predicate Distinct<T(==)>(s: seq<T>) {
    forall i, j :: 0 <= i < j < |s| ==> s[i] != s[j]
  }

  /** A permutation of a sequence without duplicates has none either. */
  lemma PermDistinct<T>(a: seq<T>, b: seq<T>)
    requires multiset(a) == multiset(b) && Distinct(a)
    ensures Distinct(b)
  {
    forall x | x in multiset(b) ensures multiset(b)[x] == 1 {
      DistinctCount(a, x);
    }
    forall i, j | 0 <= i < j < |b| ensures b[i] != b[j] {
      RepeatCount(b, i, j);
    }
  }

  lemma RepeatCount<T>(b: seq<T>, i: nat, j: nat)
    requires i < j < |b|
    ensures b[i] == b[j] ==> multiset(b)[b[i]] >= 2
  {
    if b[i] == b[j] {
      var x := b[i];
      var u, v := b[..i + 1], b[i + 1..];
      assert b == u + v;
      assert u == b[..i] + [x];
      assert v[j - i - 1] == x;
      assert multiset(u)[x] >= 1;
      assert x in multiset(v);
    }
  }

  lemma {:induction false} DistinctCount<T>(a: seq<T>, x: T)
    requires Distinct(a)
    ensures multiset(a)[x] <= 1
  {
    if a != [] {
      DistinctCount(a[1..], x);
      assert a == [a[0]] + a[1..];
      if a[0] == x {
        assert x !in a[1..];
      }
    }
  }
}
