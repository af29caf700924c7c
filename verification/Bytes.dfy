/** Byte strings, their lexicographic order, and sorting by a byte-string key. */
module Bytes {
  type byte = x: int | 0 <= x < 256

  /** A Rust string is its UTF-8 bytes, and compares as they do. */
  type Text = seq<byte>

  predicate Less(a: Text, b: Text) {
    b != [] && (a == [] || a[0] < b[0] || (a[0] == b[0] && Less(a[1..], b[1..])))
  }

  /** Byte strings are ordered as a dictionary orders words: where they first differ decides ... */
  lemma {:induction false} LessAtDifference(a: Text, b: Text, k: nat)
    requires k < |a| && k < |b| && a[..k] == b[..k] && a[k] != b[k]
    ensures Less(a, b) <==> a[k] < b[k]
  {
    if k > 0 {
      assert a[0] == a[..k][0] == b[..k][0] == b[0];
      assert a[1..][..k - 1] == a[..k][1..] == b[..k][1..] == b[1..][..k - 1];
      LessAtDifference(a[1..], b[1..], k - 1);
    }
  }

  /** ... and where they do not, the shorter one comes first. */
  lemma {:induction false} LessOfPrefix(a: Text, b: Text)
    requires a <= b || b <= a
    ensures Less(a, b) <==> |a| < |b|
  {
    if a != [] && b != [] {
      assert a[0] == b[0];
      LessOfPrefix(a[1..], b[1..]);
    }
  }

  lemma {:induction false} LessIrreflexive(a: Text)
    ensures !Less(a, a)
  {
    if a != [] { LessIrreflexive(a[1..]); }
  }

  lemma {:induction false} LessTransitive(a: Text, b: Text, c: Text)
    requires Less(a, b) && Less(b, c)
    ensures Less(a, c)
  {
    if a != [] && a[0] == b[0] == c[0] {
      LessTransitive(a[1..], b[1..], c[1..]);
    }
  }

  lemma {:induction false} LessTotal(a: Text, b: Text)
    ensures Less(a, b) || a == b || Less(b, a)
  {
    if a != [] && b != [] && a[0] == b[0] {
      LessTotal(a[1..], b[1..]);
      assert a == [a[0]] + a[1..] && b == [b[0]] + b[1..];
    }
  }

  lemma LessAsymmetric(a: Text, b: Text)
    requires Less(a, b)
    ensures !Less(b, a)
  {
    if Less(b, a) {
      LessTransitive(a, b, a);
      LessIrreflexive(a);
    }
  }

  /** "Not after" is transitive too: the order is total. */
  lemma NotLessTransitive(a: Text, b: Text, c: Text)
    requires !Less(b, a) && !Less(c, b)
    ensures !Less(c, a)
  {
    if Less(c, a) {
      LessTotal(a, b);
      if a != b { LessTransitive(c, a, b); }
    }
  }

  // ---------------------------------------------------------------------------------------------
  // Sorting by key

  ghost predicate Sorted<T>(key: T -> Text, s: seq<T>) {
    forall i, j :: 0 <= i < j < |s| ==> !Less(key(s[j]), key(s[i]))
  }

  ghost predicate StrictlySorted<T>(key: T -> Text, s: seq<T>) {
    forall i, j :: 0 <= i < j < |s| ==> Less(key(s[i]), key(s[j]))
  }

  function Insert<T>(key: T -> Text, x: T, s: seq<T>): (r: seq<T>)
    ensures multiset(r) == multiset{x} + multiset(s)
  {
    if s == [] || !Less(key(s[0]), key(x)) then [x] + s
    else
      assert s == [s[0]] + s[1..];
      [s[0]] + Insert(key, x, s[1..])
  }

  /** A stable sort, as `sort_by` is. */
  function Sort<T>(key: T -> Text, s: seq<T>): (r: seq<T>)
    ensures multiset(r) == multiset(s)
    ensures |r| == |s|
  {
    if s == [] then []
    else
      assert s == [s[0]] + s[1..];
      var r := Insert(key, s[0], Sort(key, s[1..]));
      assert |multiset(r)| == |r| && |multiset(s)| == |s|;
      r
  }

  lemma {:induction false} InsertSorted<T>(key: T -> Text, x: T, s: seq<T>)
    requires Sorted(key, s)
    ensures Sorted(key, Insert(key, x, s))
  {
    if s == [] {
    } else if Less(key(s[0]), key(x)) {
      InsertSorted(key, x, s[1..]);
      LessAsymmetric(key(s[0]), key(x));
      var r := Insert(key, x, s[1..]);
      forall j | 0 <= j < |r|
        ensures !Less(key(r[j]), key(s[0]))
      {
        assert r[j] in multiset(r);
        assert r[j] == x || r[j] in s[1..];
      }
    } else {
      forall j | 0 <= j < |s|
        ensures !Less(key(s[j]), key(x))
      {
        if j > 0 { NotLessTransitive(key(x), key(s[0]), key(s[j])); }
      }
    }
  }

  lemma {:induction false} SortSorted<T>(key: T -> Text, s: seq<T>)
    ensures Sorted(key, Sort(key, s))
  {
    if s != [] {
      SortSorted(key, s[1..]);
      InsertSorted(key, s[0], Sort(key, s[1..]));
    }
  }

  lemma {:induction false} SortOfSorted<T>(key: T -> Text, s: seq<T>)
    requires Sorted(key, s)
    ensures Sort(key, s) == s
  {
    if s != [] {
      SortOfSorted(key, s[1..]);
      assert |s| > 1 ==> !Less(key(s[1]), key(s[0]));
      assert s == [s[0]] + s[1..];
    }
  }

  lemma SortMembers<T>(key: T -> Text, s: seq<T>)
    ensures forall x :: x in Sort(key, s) <==> x in s
  {
    forall x
      ensures x in Sort(key, s) <==> x in s
    {
      assert x in Sort(key, s) <==> x in multiset(Sort(key, s));
      assert x in s <==> x in multiset(s);
    }
  }

  ghost predicate DistinctKeys<T>(key: T -> Text, s: seq<T>) {
    forall i, j :: 0 <= i < j < |s| ==> key(s[i]) != key(s[j])
  }

  ghost predicate Absent<T>(key: T -> Text, k: Text, s: seq<T>) {
    s == [] || (key(s[0]) != k && Absent(key, k, s[1..]))
  }

  ghost predicate Distinct<T>(key: T -> Text, s: seq<T>) {
    s == [] || (Absent(key, key(s[0]), s[1..]) && Distinct(key, s[1..]))
  }

  lemma {:induction false} AbsentIff<T>(key: T -> Text, k: Text, s: seq<T>)
    ensures Absent(key, k, s) <==> forall i :: 0 <= i < |s| ==> key(s[i]) != k
  {
    if s != [] {
      AbsentIff(key, k, s[1..]);
      assert forall i :: 0 < i < |s| ==> s[i] == s[1..][i - 1];
      assert forall i :: 0 <= i < |s[1..]| ==> s[1..][i] == s[i + 1];
    }
  }

  lemma {:induction false} DistinctIff<T>(key: T -> Text, s: seq<T>)
    ensures Distinct(key, s) <==> DistinctKeys(key, s)
  {
    if s != [] {
      DistinctIff(key, s[1..]);
      AbsentIff(key, key(s[0]), s[1..]);
      DistinctCons(key, s);
    }
  }

  lemma DistinctCons<T>(key: T -> Text, s: seq<T>)
    requires s != []
    ensures DistinctKeys(key, s) <==>
            (forall i :: 0 <= i < |s[1..]| ==> key(s[1..][i]) != key(s[0])) && DistinctKeys(key, s[1..])
  {
    var rest := s[1..];
    assert forall i :: 0 <= i < |rest| ==> rest[i] == s[i + 1];
    if (forall i :: 0 <= i < |rest| ==> key(rest[i]) != key(s[0])) && DistinctKeys(key, rest) {
      forall i, j | 0 <= i < j < |s|
        ensures key(s[i]) != key(s[j])
      {
        assert s[j] == rest[j - 1];
        assert i > 0 ==> s[i] == rest[i - 1];
      }
    }
  }

  lemma {:induction false} InsertAbsent<T>(key: T -> Text, k: Text, x: T, s: seq<T>)
    ensures Absent(key, k, Insert(key, x, s)) <==> key(x) != k && Absent(key, k, s)
  {
    if s != [] && Less(key(s[0]), key(x)) {
      InsertAbsent(key, k, x, s[1..]);
      assert Insert(key, x, s)[1..] == Insert(key, x, s[1..]);
    } else {
      assert Insert(key, x, s)[1..] == s;
    }
  }

  lemma {:induction false} InsertDistinct<T>(key: T -> Text, x: T, s: seq<T>)
    ensures Distinct(key, Insert(key, x, s)) <==> Absent(key, key(x), s) && Distinct(key, s)
  {
    if s != [] && Less(key(s[0]), key(x)) {
      InsertDistinct(key, x, s[1..]);
      InsertAbsent(key, key(s[0]), x, s[1..]);
      assert Insert(key, x, s)[1..] == Insert(key, x, s[1..]);
    } else {
      assert Insert(key, x, s)[1..] == s;
    }
  }

  lemma {:induction false} SortAbsent<T>(key: T -> Text, k: Text, s: seq<T>)
    ensures Absent(key, k, Sort(key, s)) <==> Absent(key, k, s)
  {
    if s != [] {
      SortAbsent(key, k, s[1..]);
      InsertAbsent(key, k, s[0], Sort(key, s[1..]));
    }
  }

  lemma {:induction false} SortKeepsDistinct<T>(key: T -> Text, s: seq<T>)
    ensures Distinct(key, Sort(key, s)) <==> Distinct(key, s)
  {
    if s != [] {
      SortKeepsDistinct(key, s[1..]);
      SortAbsent(key, key(s[0]), s[1..]);
      InsertDistinct(key, s[0], Sort(key, s[1..]));
    }
  }

  /** Sorting neither removes nor creates a duplicate key. */
  lemma SortDistinct<T>(key: T -> Text, s: seq<T>)
    ensures DistinctKeys(key, Sort(key, s)) <==> DistinctKeys(key, s)
  {
    SortKeepsDistinct(key, s);
    DistinctIff(key, s);
    DistinctIff(key, Sort(key, s));
  }

  predicate NeighboursDiffer<T>(key: T -> Text, s: seq<T>) {
    forall i :: 0 <= i < |s| - 1 ==> key(s[i]) != key(s[i + 1])
  }

  /** On a sorted sequence, comparing neighbours finds every duplicate key. */
  lemma NeighboursFindDuplicates<T>(key: T -> Text, s: seq<T>)
    requires Sorted(key, s)
    ensures NeighboursDiffer(key, s) <==> StrictlySorted(key, s)
    ensures NeighboursDiffer(key, s) <==> DistinctKeys(key, s)
  {
    if NeighboursDiffer(key, s) {
      forall i, j | 0 <= i < j < |s|
        ensures Less(key(s[i]), key(s[j]))
      {
        LessTotal(key(s[i]), key(s[i + 1]));
        if j > i + 1 {
          LessTotal(key(s[i]), key(s[j]));
          assert !Less(key(s[j]), key(s[i + 1]));
        }
      }
    }
    if StrictlySorted(key, s) {
      forall i, j | 0 <= i < j < |s|
        ensures key(s[i]) != key(s[j])
      {
        LessIrreflexive(key(s[i]));
      }
    }
    if DistinctKeys(key, s) {
      forall i, j | 0 <= i < j < |s|
        ensures Less(key(s[i]), key(s[j]))
      {
        LessTotal(key(s[i]), key(s[j]));
      }
    }
  }

  /** Two strictly sorted sequences with the same members are the same sequence. */
  lemma {:induction false} StrictlySortedUnique<T>(key: T -> Text, a: seq<T>, b: seq<T>)
    requires StrictlySorted(key, a) && StrictlySorted(key, b)
    requires |a| == |b| && forall x :: x in a <==> x in b
    ensures a == b
    decreases |a|
  {
    if a != [] {
      FirstAgrees(key, a, b);
      FirstAgrees(key, b, a);
      LessTotal(key(a[0]), key(b[0]));
      assert a[0] in b && b[0] in a;
      var k :| 0 <= k < |b| && b[k] == a[0];
      assert k == 0;
      TailMembers(key, a, b);
      StrictlySortedUnique(key, a[1..], b[1..]);
      assert a == [a[0]] + a[1..] && b == [b[0]] + b[1..];
    }
  }

  lemma FirstAgrees<T>(key: T -> Text, a: seq<T>, b: seq<T>)
    requires a != [] && b != [] && StrictlySorted(key, b) && a[0] in b
    ensures !Less(key(a[0]), key(b[0]))
  {
    var k :| 0 <= k < |b| && b[k] == a[0];
    if k > 0 { LessAsymmetric(key(b[0]), key(b[k])); } else { LessIrreflexive(key(b[0])); }
  }

  lemma TailMembers<T>(key: T -> Text, a: seq<T>, b: seq<T>)
    requires a != [] && b != [] && a[0] == b[0]
    requires StrictlySorted(key, a) && StrictlySorted(key, b)
    requires forall x :: x in a <==> x in b
    ensures forall x :: x in a[1..] <==> x in b[1..]
  {
    LessIrreflexive(key(a[0]));
    assert a[0] !in a[1..] && b[0] !in b[1..];
    forall x
      ensures x in a[1..] <==> x in b[1..]
    {
      assert x in a <==> x == a[0] || x in a[1..];
      assert x in b <==> x == b[0] || x in b[1..];
    }
  }
}
