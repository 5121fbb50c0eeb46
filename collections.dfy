/** Sequence operations standing in for the Ruby `Array` methods and the
    `where(...).count` queries the models use: counting, `select`, `uniq`,
    `&` and `join`. */
module Collections {

  datatype Option<+T> = None | Some(value: T)

  /** Number of elements of `s` that satisfy `p`. */
  function Count<T>(s: seq<T>, p: T -> bool): (n: nat)
    ensures n <= |s|
  {
    if |s| == 0 then 0
    else Count(s[..|s| - 1], p) + (if p(s[|s| - 1]) then 1 else 0)
  }

  /** Nothing is counted exactly when no element satisfies `p`. */
  lemma {:induction false} CountZeroIff<T>(s: seq<T>, p: T -> bool)
    ensures Count(s, p) == 0 <==> forall i :: 0 <= i < |s| ==> !p(s[i])
  {
    if |s| > 0 {
      CountZeroIff(s[..|s| - 1], p);
      assert forall i :: 0 <= i < |s| - 1 ==> s[..|s| - 1][i] == s[i];
    }
  }

  /** `Array#select`: the elements satisfying `p`, in their original order. */
  function Filter<T(!new)>(s: seq<T>, p: T -> bool): (r: seq<T>)
    ensures |r| == Count(s, p)
    ensures forall x :: x in r <==> x in s && p(x)
  {
    if |s| == 0 then []
    else
      assert s == s[..|s| - 1] + [s[|s| - 1]];
      Filter(s[..|s| - 1], p) + (if p(s[|s| - 1]) then [s[|s| - 1]] else [])
  }

  /** `Array#uniq`: the distinct elements of `s`, each kept at its first occurrence. */
  function Uniq<T(==,!new)>(s: seq<T>): (r: seq<T>)
    ensures forall x :: x in r <==> x in s
    ensures forall i, j :: 0 <= i < j < |r| ==> r[i] != r[j]
    ensures |s| > 0 ==> |r| > 0 && r[0] == s[0]
  {
    if |s| == 0 then []
    else
      assert s == s[..|s| - 1] + [s[|s| - 1]];
      var u := Uniq(s[..|s| - 1]);
      if s[|s| - 1] in u then u else u + [s[|s| - 1]]
  }

  /** `Array#&`: the elements of `a` that also occur in `b`, without
      duplicates, in the order of `a`. */
  function Intersect<T(==,!new)>(a: seq<T>, b: seq<T>): (r: seq<T>)
    ensures forall x :: x in r <==> x in a && x in b
    ensures forall i, j :: 0 <= i < j < |r| ==> r[i] != r[j]
  {
    Uniq(Filter(a, x => x in b))
  }

  /** The total length of a list of strings. */
  function TotalLength(parts: seq<string>): nat
  {
    if |parts| == 0 then 0 else TotalLength(parts[..|parts| - 1]) + |parts[|parts| - 1]|
  }

  /** `Array#join(sep)` on an array of strings: the parts with one `sep`
      between each two, starting with the first part. */
  function Join(parts: seq<string>, sep: string): (r: string)
    ensures |parts| > 0 ==> |r| == TotalLength(parts) + |sep| * (|parts| - 1)
    ensures |parts| > 0 ==> |parts[0]| <= |r| && r[..|parts[0]|] == parts[0]
  {
    if |parts| == 0 then ""
    else if |parts| == 1 then parts[0]
    else Join(parts[..|parts| - 1], sep) + sep + parts[|parts| - 1]
  }

  /** Where the `i`-th part starts in `Join(parts, sep)`: after each earlier
      part and the separator that follows it. */
  function Offset(parts: seq<string>, sep: string, i: nat): nat
    requires i <= |parts|
  {
    if i == 0 then 0 else Offset(parts, sep, i - 1) + |parts[i - 1]| + |sep|
  }

  /** An offset depends only on the parts before it. */
  lemma {:induction false} OffsetPrefix(a: seq<string>, b: seq<string>, sep: string, i: nat)
    requires i <= |a| <= |b| && a == b[..|a|]
    ensures Offset(a, sep, i) == Offset(b, sep, i)
  {
    if i > 0 {
      OffsetPrefix(a, b, sep, i - 1);
      assert a[i - 1] == b[i - 1];
    }
  }

  /** The joined string ends with its last part. */
  lemma {:induction false} JoinEnd(parts: seq<string>, sep: string)
    requires |parts| > 0
    ensures |Join(parts, sep)| == Offset(parts, sep, |parts| - 1) + |parts[|parts| - 1]|
  {
    var n := |parts|;
    if n > 1 {
      var init := parts[..n - 1];
      JoinEnd(init, sep);
      OffsetPrefix(init, parts, sep, n - 2);
    }
  }

  /** The `i`-th part stands at its offset in `r`. */
  predicate PartAt(parts: seq<string>, sep: string, r: string, i: nat)
    requires i < |parts|
  {
    Offset(parts, sep, i) + |parts[i]| <= |r| &&
    r[Offset(parts, sep, i)..Offset(parts, sep, i) + |parts[i]|] == parts[i]
  }

  /** Exactly one separator stands in `r` between the `i`-th part and the next. */
  predicate SeparatorAt(parts: seq<string>, sep: string, r: string, i: nat)
    requires i + 1 < |parts|
  {
    Offset(parts, sep, i + 1) <= |r| &&
    r[Offset(parts, sep, i) + |parts[i]|..Offset(parts, sep, i + 1)] == sep
  }

  /** A slice inside the left part of a concatenation. */
  lemma SliceLeft<T>(x: seq<T>, y: seq<T>, lo: nat, hi: nat)
    requires lo <= hi <= |x|
    ensures (x + y)[lo..hi] == x[lo..hi]
  {
  }

  /** A slice covering the middle part of a concatenation of three. */
  lemma SliceMiddle<T>(x: seq<T>, y: seq<T>, z: seq<T>)
    ensures (x + y + z)[|x|..|x| + |y|] == y
  {
  }

  /** The slice that ends a concatenation of three. */
  lemma SliceRight<T>(x: seq<T>, y: seq<T>, z: seq<T>)
    ensures (x + y + z)[|x| + |y|..|x| + |y| + |z|] == z
  {
  }

  /** The joined string of two or more parts is the join of all but the last,
      one separator, and the last part. */
  lemma JoinSnoc(parts: seq<string>, sep: string)
    requires |parts| > 1
    ensures Join(parts, sep) == Join(parts[..|parts| - 1], sep) + sep + parts[|parts| - 1]
  {
  }

  /** The last part sits at its offset in the joined string. */
  lemma JoinLastPart(parts: seq<string>, sep: string)
    requires |parts| > 0
    ensures PartAt(parts, sep, Join(parts, sep), |parts| - 1)
  {
    var n := |parts|;
    if n > 1 {
      var init := parts[..n - 1];
      JoinSnoc(parts, sep);
      JoinEnd(init, sep);
      OffsetPrefix(init, parts, sep, n - 2);
      SliceRight(Join(init, sep), sep, parts[n - 1]);
    }
  }

  /** A part in place stays in place when more parts and text follow. */
  lemma PartExtend(a: seq<string>, b: seq<string>, sep: string, r: string, tail: string, i: nat)
    requires i < |a| <= |b| && a == b[..|a|]
    requires PartAt(a, sep, r, i)
    ensures PartAt(b, sep, r + tail, i)
  {
    OffsetPrefix(a, b, sep, i);
    SliceLeft(r, tail, Offset(a, sep, i), Offset(a, sep, i) + |a[i]|);
  }

  /** A separator in place stays in place when more parts and text follow. */
  lemma SeparatorExtend(a: seq<string>, b: seq<string>, sep: string, r: string, tail: string, i: nat)
    requires i + 1 < |a| <= |b| && a == b[..|a|]
    requires SeparatorAt(a, sep, r, i)
    ensures SeparatorAt(b, sep, r + tail, i)
  {
    OffsetPrefix(a, b, sep, i);
    OffsetPrefix(a, b, sep, i + 1);
    SliceLeft(r, tail, Offset(a, sep, i) + |a[i]|, Offset(a, sep, i + 1));
  }

  /** The `i`-th part sits at its offset in the joined string. */
  lemma {:induction false} JoinPart(parts: seq<string>, sep: string, i: nat)
    requires i < |parts|
    ensures PartAt(parts, sep, Join(parts, sep), i)
  {
    var n := |parts|;
    if i == n - 1 {
      JoinLastPart(parts, sep);
    } else {
      var init := parts[..n - 1];
      JoinSnoc(parts, sep);
      JoinPart(init, sep, i);
      PartExtend(init, parts, sep, Join(init, sep), sep + parts[n - 1], i);
      ConcatAssoc(Join(init, sep), sep, parts[n - 1]);
    }
  }

  /** The last separator stands right before the last part. */
  lemma JoinLastSeparator(parts: seq<string>, sep: string)
    requires |parts| > 1
    ensures SeparatorAt(parts, sep, Join(parts, sep), |parts| - 2)
  {
    var n := |parts|;
    var init := parts[..n - 1];
    JoinSnoc(parts, sep);
    JoinEnd(init, sep);
    OffsetPrefix(init, parts, sep, n - 2);
    SliceMiddle(Join(init, sep), sep, parts[n - 1]);
  }

  /** Between the `i`-th part and the next one stands exactly one separator. */
  lemma {:induction false} JoinSeparator(parts: seq<string>, sep: string, i: nat)
    requires i + 1 < |parts|
    ensures SeparatorAt(parts, sep, Join(parts, sep), i)
  {
    var n := |parts|;
    if i == n - 2 {
      JoinLastSeparator(parts, sep);
    } else {
      var init := parts[..n - 1];
      JoinSnoc(parts, sep);
      JoinSeparator(init, sep, i);
      SeparatorExtend(init, parts, sep, Join(init, sep), sep + parts[n - 1], i);
      ConcatAssoc(Join(init, sep), sep, parts[n - 1]);
    }
  }

  /** The layout of `Array#join`: every part at its offset, one separator
      between each two, and nothing after the last part. Together with the
      offsets this determines the joined string completely. */
  lemma JoinLayout(parts: seq<string>, sep: string)
    ensures forall i :: 0 <= i < |parts| ==> PartAt(parts, sep, Join(parts, sep), i)
    ensures forall i :: 0 <= i < |parts| - 1 ==> SeparatorAt(parts, sep, Join(parts, sep), i)
    ensures |parts| > 0 ==> |Join(parts, sep)| == Offset(parts, sep, |parts| - 1) + |parts[|parts| - 1]|
  {
    forall i | 0 <= i < |parts| ensures PartAt(parts, sep, Join(parts, sep), i) {
      JoinPart(parts, sep, i);
    }
    forall i | 0 <= i < |parts| - 1 ensures SeparatorAt(parts, sep, Join(parts, sep), i) {
      JoinSeparator(parts, sep, i);
    }
    if |parts| > 0 {
      JoinEnd(parts, sep);
    }
  }

  /** `select` on a concatenation selects from each part and concatenates
      the selections: the selected elements keep their order and their
      multiplicity. */
  lemma {:induction false} FilterAppend<T(!new)>(a: seq<T>, b: seq<T>, p: T -> bool)
    ensures Filter(a + b, p) == Filter(a, p) + Filter(b, p)
  {
    if |b| == 0 {
      assert a + b == a;
    } else {
      var init, x := b[..|b| - 1], b[|b| - 1];
      SplitLast(b);
      ConcatAssoc(a, init, [x]);
      FilterSnoc(a + init, x, p);
      FilterSnoc(init, x, p);
      FilterAppend(a, init, p);
      ConcatAssoc(Filter(a, p), Filter(init, p), if p(x) then [x] else []);
    }
  }

  lemma SplitLast<T>(s: seq<T>)
    requires |s| > 0
    ensures s == s[..|s| - 1] + [s[|s| - 1]]
  {
  }

  lemma ConcatAssoc<T>(a: seq<T>, b: seq<T>, c: seq<T>)
    ensures a + (b + c) == (a + b) + c
  {
  }

  /** `select` on a sequence with one more element at the end. */
  lemma FilterSnoc<T(!new)>(s: seq<T>, x: T, p: T -> bool)
    ensures Filter(s + [x], p) == Filter(s, p) + (if p(x) then [x] else [])
  {
    assert (s + [x])[..|s|] == s;
  }

  /** Selecting with `q` among the elements selected with `p` is selecting
      with both conditions at once. */
  lemma {:induction false} FilterNested<T(!new)>(s: seq<T>, p: T -> bool, q: T -> bool, both: T -> bool)
    requires forall x :: both(x) == (p(x) && q(x))
    ensures Filter(Filter(s, p), q) == Filter(s, both)
  {
    if |s| > 0 {
      var init := s[..|s| - 1];
      var x := s[|s| - 1];
      FilterNested(init, p, q, both);
      var tail := if p(x) then [x] else [];
      assert Filter(s, p) == Filter(init, p) + tail;
      FilterAppend(Filter(init, p), tail, q);
      if p(x) {
        assert tail[..0] == [];
      }
    }
  }

  /** Index of the first occurrence of `x` in `s`. */
  function IndexOf<T(==)>(s: seq<T>, x: T): (k: nat)
    requires x in s
    ensures k < |s| && s[k] == x
    ensures forall j :: 0 <= j < k ==> s[j] != x
  {
    if s[0] == x then 0 else 1 + IndexOf(s[1..], x)
  }

  /** Counting over a predicate that is the disjoint union of two others
      adds up. */
  lemma {:induction false} CountSplit<T>(s: seq<T>, p: T -> bool, q: T -> bool, r: T -> bool)
    requires forall x :: p(x) == (q(x) || r(x))
    requires forall x :: !(q(x) && r(x))
    ensures Count(s, p) == Count(s, q) + Count(s, r)
  {
    if |s| > 0 {
      CountSplit(s[..|s| - 1], p, q, r);
    }
  }

  /** When every element satisfies `p`, all of them are counted. */
  lemma {:induction false} CountAll<T>(s: seq<T>, p: T -> bool)
    requires forall i :: 0 <= i < |s| ==> p(s[i])
    ensures Count(s, p) == |s|
  {
    if |s| > 0 {
      CountAll(s[..|s| - 1], p);
    }
  }

  /** Counting with two predicates that agree on every element of `s` gives
      the same number. */
  lemma {:induction false} CountCongruent<T>(s: seq<T>, p: T -> bool, q: T -> bool)
    requires forall i :: 0 <= i < |s| ==> p(s[i]) == q(s[i])
    ensures Count(s, p) == Count(s, q)
  {
    if |s| > 0 {
      CountCongruent(s[..|s| - 1], p, q);
    }
  }

  /** Filtering keeps the order: the first element of the filtered sequence
      is the first element of `s` that satisfies `p`. */
  lemma {:induction false} FilterFirst<T(!new)>(s: seq<T>, p: T -> bool, k: nat)
    requires k < |s| && p(s[k])
    requires forall j :: 0 <= j < k ==> !p(s[j])
    ensures |Filter(s, p)| > 0 && Filter(s, p)[0] == s[k]
  {
    if k < |s| - 1 {
      FilterFirst(s[..|s| - 1], p, k);
    } else {
      CountZeroIff(s[..|s| - 1], p);
    }
  }

  /** `uniq` keeps first occurrences: its elements appear in the order of
      their first occurrence in `s`. */
  lemma {:induction false} UniqKeepsFirstOccurrenceOrder<T(!new)>(s: seq<T>, i: nat, j: nat)
    requires i < j < |Uniq(s)|
    ensures IndexOf(s, Uniq(s)[i]) < IndexOf(s, Uniq(s)[j])
  {
    var n := |s|;
    var init := s[..n - 1];
    assert s == init + [s[n - 1]];
    var u := Uniq(init);
    IndexOfPrefix(s, Uniq(s)[i], n - 1);
    if s[n - 1] in u || j < |u| {
      IndexOfPrefix(s, Uniq(s)[j], n - 1);
      UniqKeepsFirstOccurrenceOrder(init, i, j);
    } else {
      assert Uniq(s)[j] == s[n - 1] && s[n - 1] !in init;
      assert IndexOf(s, s[n - 1]) == n - 1 by {
        forall m | 0 <= m < n - 1 ensures s[m] != s[n - 1] {
          assert s[m] in init;
        }
      }
    }
  }

  /** `uniq` keeps first occurrences, for every pair of positions at once. */
  lemma UniqInOrder<T(!new)>(s: seq<T>)
    ensures forall i, j :: 0 <= i < j < |Uniq(s)| ==> IndexOf(s, Uniq(s)[i]) < IndexOf(s, Uniq(s)[j])
  {
    forall i, j | 0 <= i < j < |Uniq(s)| ensures IndexOf(s, Uniq(s)[i]) < IndexOf(s, Uniq(s)[j]) {
      UniqKeepsFirstOccurrenceOrder(s, i, j);
    }
  }

  /** The first occurrence of an element of a prefix lies in that prefix. */
  lemma {:induction false} IndexOfPrefix<T>(s: seq<T>, x: T, n: nat)
    requires n <= |s| && x in s[..n]
    ensures IndexOf(s, x) == IndexOf(s[..n], x)
  {
    if s[0] != x {
      assert s[1..][..n - 1] == s[..n][1..];
      IndexOfPrefix(s[1..], x, n - 1);
    }
  }

  /** A non-empty sequence whose elements are all `v` has just `v` as its
      distinct elements. */
  lemma {:induction false} UniqOfConstant<T(!new)>(s: seq<T>, v: T)
    requires |s| > 0
    requires forall i :: 0 <= i < |s| ==> s[i] == v
    ensures Uniq(s) == [v]
  {
    if |s| > 1 {
      UniqOfConstant(s[..|s| - 1], v);
    }
  }

  /** The first element of `Array#&` is the first element of `a` that occurs
      in `b`. */
  lemma IntersectFirst<T(!new)>(a: seq<T>, b: seq<T>, k: nat)
    requires k < |a| && a[k] in b
    requires forall j :: 0 <= j < k ==> a[j] !in b
    ensures |Intersect(a, b)| > 0 && Intersect(a, b)[0] == a[k]
  {
    FilterFirst(a, x => x in b, k);
  }
}
