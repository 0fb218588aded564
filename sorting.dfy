/** Ordering of listings as Python's `sorted` produces them, for any
    comparison that is a total preorder (`sorted` itself is not modelled
    element by element; its result is: sorted and a permutation). */
module Sorting {

  import opened Text

  ghost predicate TotalPreorder<T(!new)>(le: (T, T) -> bool)
  {
    && (forall a, b :: le(a, b) || le(b, a))
    && (forall a, b, c :: le(a, b) && le(b, c) ==> le(a, c))
  }

  predicate SortedBy<T>(s: seq<T>, le: (T, T) -> bool)
  {
    forall i, j :: 0 <= i < j < |s| ==> le(s[i], s[j])
  }

  /** A lower bound of `s` and of `x` is a lower bound of any
      rearrangement of `s` with `x` added. */
  lemma BelowAll<T(!new)>(lo: T, x: T, s: seq<T>, t: seq<T>, le: (T, T) -> bool)
    requires forall k :: 0 <= k < |s| ==> le(lo, s[k])
    requires le(lo, x)
    requires multiset(t) == multiset(s) + multiset{x}
    ensures forall k :: 0 <= k < |t| ==> le(lo, t[k])
  {
    forall k | 0 <= k < |t| ensures le(lo, t[k]) {
      assert t[k] in multiset(t);
      if t[k] != x {
        assert t[k] in multiset(s);
        var j :| 0 <= j < |s| && s[j] == t[k];
      }
    }
  }

  /** A head no greater than every element of a sorted tail keeps it sorted. */
  lemma ConsSorted<T>(h: T, t: seq<T>, le: (T, T) -> bool)
    requires SortedBy(t, le)
    requires forall k :: 0 <= k < |t| ==> le(h, t[k])
    ensures SortedBy([h] + t, le)
  {
    var r := [h] + t;
    forall i, j | 0 <= i < j < |r| ensures le(r[i], r[j]) {
      assert r[j] == t[j - 1];
      if i > 0 { assert r[i] == t[i - 1]; }
    }
  }

  /** Under a preorder, a head no greater than the first of a sorted
      sequence is no greater than any of it. */
  lemma BelowFirst<T(!new)>(h: T, s: seq<T>, le: (T, T) -> bool)
    requires TotalPreorder(le) && SortedBy(s, le) && s != [] && le(h, s[0])
    ensures forall k :: 0 <= k < |s| ==> le(h, s[k])
  {
    forall k | 0 <= k < |s| ensures le(h, s[k]) {
      if k > 0 { assert le(s[0], s[k]); }
    }
  }

  /** The step of `Insert` past a head no greater than `x`: the head
      before the insertion into the rest stays sorted and adds `x` once. */
  lemma InsertPast<T(!new)>(x: T, s: seq<T>, t: seq<T>, le: (T, T) -> bool)
    requires TotalPreorder(le) && SortedBy(s, le) && s != [] && le(s[0], x)
    requires SortedBy(t, le) && multiset(t) == multiset(s[1..]) + multiset{x}
    ensures SortedBy([s[0]] + t, le)
    ensures multiset([s[0]] + t) == multiset(s) + multiset{x}
  {
    assert s == [s[0]] + s[1..];
    assert forall k :: 0 <= k < |s[1..]| ==> s[1..][k] == s[k + 1];
    BelowAll(s[0], x, s[1..], t, le);
    ConsSorted(s[0], t, le);
  }

  /** `x` inserted before the first element strictly greater than it, so
      after every element equal to it. */
  function Insert<T(!new)>(x: T, s: seq<T>, le: (T, T) -> bool): (r: seq<T>)
    requires TotalPreorder(le) && SortedBy(s, le)
    ensures |r| == |s| + 1
    ensures multiset(r) == multiset(s) + multiset{x}
    ensures SortedBy(r, le)
  {
    if s == [] then [x]
    else if !le(s[0], x) then
      assert le(x, s[0]);
      BelowFirst(x, s, le);
      ConsSorted(x, s, le);
      [x] + s
    else
      var t := Insert(x, s[1..], le);
      InsertPast(x, s, t, le);
      [s[0]] + t
  }

  /** Insertion sort: a sorted permutation of `s`, stable as Python's
      `sorted` is (see `SortStable`). */
  function SortBy<T(!new)>(s: seq<T>, le: (T, T) -> bool): (r: seq<T>)
    requires TotalPreorder(le)
    ensures |r| == |s|
    ensures multiset(r) == multiset(s)
    ensures SortedBy(r, le)
  {
    if s == [] then []
    else
      assert s == s[..|s| - 1] + [s[|s| - 1]];
      Insert(s[|s| - 1], SortBy(s[..|s| - 1], le), le)
  }

  lemma SortedElements<T(!new)>(s: seq<T>, le: (T, T) -> bool)
    requires TotalPreorder(le)
    ensures forall x :: x in SortBy(s, le) <==> x in s
  {
    var r := SortBy(s, le);
    forall x ensures x in r <==> x in s {
      assert x in r <==> x in multiset(r);
      assert x in s <==> x in multiset(s);
    }
  }

  /** The elements of `s` equal to `c` under `le`, in their order in `s`. */
  function EqualTo<T>(s: seq<T>, c: T, le: (T, T) -> bool): seq<T>
  {
    if s == [] then []
    else (if le(s[0], c) && le(c, s[0]) then [s[0]] else []) + EqualTo(s[1..], c, le)
  }

  lemma ConsEqualTo<T>(h: T, t: seq<T>, c: T, le: (T, T) -> bool)
    ensures EqualTo([h] + t, c, le) == (if le(h, c) && le(c, h) then [h] else []) + EqualTo(t, c, le)
  {
    assert ([h] + t)[0] == h && ([h] + t)[1..] == t;
  }

  lemma {:induction false} EqualToAppend<T>(a: seq<T>, b: seq<T>, c: T, le: (T, T) -> bool)
    ensures EqualTo(a + b, c, le) == EqualTo(a, c, le) + EqualTo(b, c, le)
  {
    if a == [] {
      assert a + b == b;
    } else {
      var t := a[1..] + b;
      assert a + b == [a[0]] + t;
      var head := if le(a[0], c) && le(c, a[0]) then [a[0]] else [];
      assert EqualTo(a, c, le) == head + EqualTo(a[1..], c, le);
      EqualToAppend(a[1..], b, c, le);
      ConsEqualTo(a[0], t, c, le);
    }
  }

  /** Every element of a sorted sequence whose head is strictly greater
      than `x` is strictly greater than `x`. */
  lemma AboveSorted<T(!new)>(x: T, s: seq<T>, le: (T, T) -> bool)
    requires TotalPreorder(le) && SortedBy(s, le) && s != [] && !le(s[0], x)
    ensures forall k :: 0 <= k < |s| ==> !le(s[k], x)
  {
    forall k | 0 <= k < |s| ensures !le(s[k], x) {
      if k > 0 { assert le(s[0], s[k]); }
    }
  }

  /** Elements all strictly greater than `x` hold nothing equal to anything equal to `x`. */
  lemma {:induction false} EqualToAbove<T(!new)>(x: T, s: seq<T>, c: T, le: (T, T) -> bool)
    requires TotalPreorder(le) && le(x, c) && le(c, x)
    requires forall k :: 0 <= k < |s| ==> !le(s[k], x)
    ensures EqualTo(s, c, le) == []
  {
    if s != [] {
      assert !le(s[0], x);
      assert !le(s[0], c);
      assert forall k :: 0 <= k < |s[1..]| ==> s[1..][k] == s[k + 1];
      EqualToAbove(x, s[1..], c, le);
    }
  }

  /** `x` put before a strictly greater head comes after every element
      equal to it. */
  lemma InsertFrontEqualTo<T(!new)>(x: T, s: seq<T>, c: T, le: (T, T) -> bool)
    requires TotalPreorder(le) && SortedBy(s, le) && s != [] && !le(s[0], x)
    ensures EqualTo([x] + s, c, le) == EqualTo(s, c, le) + (if le(x, c) && le(c, x) then [x] else [])
  {
    ConsEqualTo(x, s, c, le);
    if le(x, c) && le(c, x) {
      AboveSorted(x, s, le);
      EqualToAbove(x, s, c, le);
    }
  }

  /** Inserting `x` adds it after every element equal to it. */
  lemma {:induction false} InsertEqualTo<T(!new)>(x: T, s: seq<T>, c: T, le: (T, T) -> bool)
    requires TotalPreorder(le) && SortedBy(s, le)
    ensures EqualTo(Insert(x, s, le), c, le) ==
      EqualTo(s, c, le) + (if le(x, c) && le(c, x) then [x] else [])
  {
    if s == [] {
      assert Insert(x, s, le) == [x] + s;
      ConsEqualTo(x, s, c, le);
    } else if !le(s[0], x) {
      assert Insert(x, s, le) == [x] + s;
      InsertFrontEqualTo(x, s, c, le);
    } else {
      InsertUnfoldPast(x, s, le);
      InsertEqualTo(x, s[1..], c, le);
      HeadEqualTo(s[0], s[1..], Insert(x, s[1..], le), x, c, le);
      assert [s[0]] + s[1..] == s;
    }
  }

  lemma SortedTail<T>(s: seq<T>, le: (T, T) -> bool)
    requires SortedBy(s, le) && s != []
    ensures SortedBy(s[1..], le)
  {
    forall i, j | 0 <= i < j < |s[1..]| ensures le(s[1..][i], s[1..][j]) {
      assert s[1..][i] == s[i + 1] && s[1..][j] == s[j + 1];
    }
  }

  /** Past a head no greater than `x`, insertion keeps the head in front. */
  lemma InsertUnfoldPast<T(!new)>(x: T, s: seq<T>, le: (T, T) -> bool)
    requires TotalPreorder(le) && SortedBy(s, le) && s != [] && le(s[0], x)
    ensures SortedBy(s[1..], le)
    ensures Insert(x, s, le) == [s[0]] + Insert(x, s[1..], le)
  {
    SortedTail(s, le);
  }

  /** The same head in front of two sequences whose equal-to-`c` parts
      differ by `x` at the end. */
  lemma HeadEqualTo<T>(h: T, rest: seq<T>, t: seq<T>, x: T, c: T, le: (T, T) -> bool)
    requires EqualTo(t, c, le) == EqualTo(rest, c, le) + (if le(x, c) && le(c, x) then [x] else [])
    ensures EqualTo([h] + t, c, le) == EqualTo([h] + rest, c, le) + (if le(x, c) && le(c, x) then [x] else [])
  {
    ConsEqualTo(h, t, c, le);
    ConsEqualTo(h, rest, c, le);
  }

  /** Stability: the elements equal to any `c` come out in their input
      order. */
  lemma {:induction false} SortStable<T(!new)>(s: seq<T>, c: T, le: (T, T) -> bool)
    requires TotalPreorder(le)
    ensures EqualTo(SortBy(s, le), c, le) == EqualTo(s, c, le)
  {
    if s != [] {
      var init, x := s[..|s| - 1], s[|s| - 1];
      assert init + [x] == s;
      SortByUnfold(s, le);
      SortStable(init, c, le);
      InsertEqualTo(x, SortBy(init, le), c, le);
      StableStep(init, x, SortBy(init, le), SortBy(s, le), c, le);
    }
  }

  lemma SortByUnfold<T(!new)>(s: seq<T>, le: (T, T) -> bool)
    requires TotalPreorder(le) && s != []
    ensures SortBy(s, le) == Insert(s[|s| - 1], SortBy(s[..|s| - 1], le), le)
  {
  }

  /** One more input element `x`, added after the elements equal to it. */
  lemma StableStep<T>(init: seq<T>, x: T, sorted: seq<T>, r: seq<T>, c: T, le: (T, T) -> bool)
    requires EqualTo(sorted, c, le) == EqualTo(init, c, le)
    requires EqualTo(r, c, le) == EqualTo(sorted, c, le) + (if le(x, c) && le(c, x) then [x] else [])
    ensures EqualTo(r, c, le) == EqualTo(init + [x], c, le)
  {
    EqualToAppend(init, [x], c, le);
    ConsEqualTo(x, [], c, le);
    assert [x] + [] == [x];
  }

  /** Python's ordering of file names. */
  predicate StrLeFn(a: string, b: string) { StrLe(a, b) }

  lemma StrLeTotalPreorder()
    ensures TotalPreorder(StrLeFn)
  {
    forall a, b ensures StrLeFn(a, b) || StrLeFn(b, a) { StrLessTotal(a, b); }
    forall a, b, c | StrLeFn(a, b) && StrLeFn(b, c) ensures StrLeFn(a, c) {
      if a != b && b != c { StrLessTransitive(a, b, c); }
    }
  }
}
