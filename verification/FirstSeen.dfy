/** Keeping the first element of every key, in order. */
module FirstSeen {
  /** Where the key first occurs, or the length if it does not. */
  function First<T, K(==)>(key: T -> K, s: seq<T>, k: K): (n: nat)
    ensures n <= |s|
    ensures n < |s| ==> key(s[n]) == k
    ensures forall i :: 0 <= i < n ==> key(s[i]) != k
  {
    if s == [] then 0 else if key(s[0]) == k then 0 else
      var n := First(key, s[1..], k);
      assert forall i :: 0 < i < n + 1 ==> s[i] == s[1..][i - 1];
      n + 1
  }

  predicate Has<T, K(==)>(key: T -> K, s: seq<T>, k: K) {
    exists i :: 0 <= i < |s| && key(s[i]) == k
  }

  ghost predicate AllFirst<T, K>(key: T -> K, s: seq<T>, kept: seq<T>) {
    forall i :: 0 <= i < |kept| ==> IsFirst(key, s, kept[i])
  }

  ghost predicate IsFirst<T, K>(key: T -> K, s: seq<T>, x: T) {
    var n := First(key, s, key(x));
    n < |s| && s[n] == x
  }

  ghost predicate InOrder<T, K>(key: T -> K, s: seq<T>, kept: seq<T>) {
    forall i, j :: 0 <= i < j < |kept| ==> First(key, s, key(kept[i])) < First(key, s, key(kept[j]))
  }

  ghost predicate Covers<T, K>(key: T -> K, s: seq<T>, kept: seq<T>) {
    forall i :: 0 <= i < |s| ==> Has(key, kept, key(s[i]))
  }

  /** `kept` holds exactly the first element of every key of `s`, in their order. */
  ghost predicate KeepsFirst<T, K>(key: T -> K, s: seq<T>, kept: seq<T>) {
    AllFirst(key, s, kept) && InOrder(key, s, kept) && Covers(key, s, kept)
  }

  lemma FirstAfter<T, K>(key: T -> K, s: seq<T>, x: T, k: K)
    ensures First(key, s, k) < |s| ==> First(key, s + [x], k) == First(key, s, k)
    ensures First(key, s, k) == |s| && key(x) == k ==> First(key, s + [x], k) == |s|
  {
    var t, n := s + [x], First(key, s, k);
    assert forall i :: 0 <= i < |s| ==> t[i] == s[i];
    assert t[|s|] == x;
    if n < |s| {
      assert key(t[n]) == k;
    }
  }

  lemma AllFirstAfter<T, K>(key: T -> K, s: seq<T>, kept: seq<T>, x: T)
    requires AllFirst(key, s, kept)
    ensures forall i :: 0 <= i < |kept| ==> First(key, s + [x], key(kept[i])) == First(key, s, key(kept[i])) < |s|
  {
    forall i | 0 <= i < |kept|
      ensures First(key, s + [x], key(kept[i])) == First(key, s, key(kept[i])) < |s|
    {
      assert IsFirst(key, s, kept[i]);
      FirstAfter(key, s, x, key(kept[i]));
    }
  }

  /** An element whose key is already kept is passed over. */
  lemma KeepsPassing<T, K>(key: T -> K, s: seq<T>, kept: seq<T>, x: T)
    requires KeepsFirst(key, s, kept) && Has(key, kept, key(x))
    ensures KeepsFirst(key, s + [x], kept)
  {
    AllFirstAfter(key, s, kept, x);
    forall i | 0 <= i < |kept|
      ensures IsFirst(key, s + [x], kept[i])
    {
      assert IsFirst(key, s, kept[i]);
    }
  }

  /** Any other is kept. */
  lemma KeepsOneMore<T, K>(key: T -> K, s: seq<T>, kept: seq<T>, x: T)
    requires KeepsFirst(key, s, kept) && !Has(key, kept, key(x))
    ensures KeepsFirst(key, s + [x], kept + [x])
  {
    AllFirstAfter(key, s, kept, x);
    NotKeptNotSeen(key, s, kept, key(x));
    FirstAfter(key, s, x, key(x));
    assert AllFirst(key, s + [x], kept + [x]) by {
      forall i | 0 <= i < |kept|
        ensures IsFirst(key, s + [x], kept[i])
      {
        assert IsFirst(key, s, kept[i]);
      }
    }
    CoversOneMore(key, s, kept, x);
  }

  lemma NotKeptNotSeen<T, K>(key: T -> K, s: seq<T>, kept: seq<T>, k: K)
    requires Covers(key, s, kept) && !Has(key, kept, k)
    ensures First(key, s, k) == |s|
  {
    forall i | 0 <= i < |s|
      ensures key(s[i]) != k
    {
      assert Has(key, kept, key(s[i]));
    }
  }

  lemma CoversOneMore<T, K>(key: T -> K, s: seq<T>, kept: seq<T>, x: T)
    requires Covers(key, s, kept)
    ensures Covers(key, s + [x], kept + [x])
  {
    var t, more := s + [x], kept + [x];
    assert more[|kept|] == x;
    forall i | 0 <= i < |t|
      ensures Has(key, more, key(t[i]))
    {
      if i < |s| {
        var j :| 0 <= j < |kept| && key(kept[j]) == key(s[i]);
        assert key(more[j]) == key(t[i]);
      }
    }
  }

  /** Keeping firsts keeps the keys. */
  lemma KeptHasSameKeys<T, K>(key: T -> K, s: seq<T>, kept: seq<T>, k: K)
    requires KeepsFirst(key, s, kept)
    ensures Has(key, kept, k) <==> Has(key, s, k)
  {
    if i :| 0 <= i < |kept| && key(kept[i]) == k {
      assert IsFirst(key, s, kept[i]);
    }
    if i :| 0 <= i < |s| && key(s[i]) == k {
      assert Has(key, kept, key(s[i]));
    }
  }

  lemma CoversNeedsOne<T, K>(key: T -> K, s: seq<T>, kept: seq<T>)
    requires Covers(key, s, kept) && s != []
    ensures kept != []
  {
    assert Has(key, kept, key(s[0]));
  }

  /** The first element of every key, one element after the other. */
  function Firsts<T, K(==)>(key: T -> K, s: seq<T>): seq<T> {
    if s == [] then []
    else
      var last := s[|s| - 1];
      var kept := Firsts(key, s[..|s| - 1]);
      if Has(key, kept, key(last)) then kept else kept + [last]
  }

  lemma {:induction false} FirstsKept<T, K>(key: T -> K, s: seq<T>)
    ensures KeepsFirst(key, s, Firsts(key, s))
  {
    if s != [] {
      var front, last := s[..|s| - 1], s[|s| - 1];
      FirstsKept(key, front);
      assert s == front + [last];
      if Has(key, Firsts(key, front), key(last)) {
        KeepsPassing(key, front, Firsts(key, front), last);
      } else {
        KeepsOneMore(key, front, Firsts(key, front), last);
      }
    }
  }

  lemma FirstsStep<T, K>(key: T -> K, s: seq<T>, i: nat)
    requires i < |s|
    ensures Firsts(key, s[..i + 1]) ==
            var kept := Firsts(key, s[..i]);
            if Has(key, kept, key(s[i])) then kept else kept + [s[i]]
  {
    assert s[..i + 1][..i] == s[..i];
  }
}
