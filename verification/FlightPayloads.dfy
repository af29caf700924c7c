/**
What the trigger ids of `SingleFlight` say about a payload type with its own `merge`.  The trait
asks that `merge` be associative and commutative; then the payload a pass receives depends only on
which triggers were merged into it, not on how contenders and the runner interleaved.
*/
module FlightPayloads {
  import opened SingleFlight
  import opened Sequences

  ghost predicate Associative<P(!new)>(merge: (P, P) -> P) {
    forall x, y, z :: merge(merge(x, y), z) == merge(x, merge(y, z))
  }

  ghost predicate Commutative<P(!new)>(merge: (P, P) -> P) {
    forall x, y :: merge(x, y) == merge(y, x)
  }

  /** The payload that merging the triggers `ids`, each carrying `value(id)`, produces. */
  function Fold<P>(merge: (P, P) -> P, value: TriggerId -> P, ids: Load): P
    decreases |ids|
  {
    if |ids| == 1 then value(ids[0]) else merge(value(ids[0]), Fold(merge, value, ids[1..]))
  }

  /** Merging two payloads is the payload of the concatenated triggers: the model's `+` is `merge`. */
  lemma {:induction false} FoldConcat<P(!new)>(merge: (P, P) -> P, value: TriggerId -> P, a: Load, b: Load)
    requires Associative(merge)
    ensures Fold(merge, value, a + b) == merge(Fold(merge, value, a), Fold(merge, value, b))
    decreases |a|
  {
    assert (a + b)[0] == a[0];
    if |a| == 1 {
      assert (a + b)[1..] == b;
    } else {
      assert (a + b)[1..] == a[1..] + b;
      FoldConcat(merge, value, a[1..], b);
    }
  }

  lemma Swap<P(!new)>(merge: (P, P) -> P, x: P, y: P, z: P)
    requires Associative(merge) && Commutative(merge)
    ensures merge(merge(y, x), z) == merge(x, merge(y, z))
  {
    assert merge(y, x) == merge(x, y);
  }

  /** A trigger can be pulled to the front of a payload. */
  lemma FoldPull<P(!new)>(merge: (P, P) -> P, value: TriggerId -> P, before: Load, x: TriggerId, after: seq<TriggerId>)
    requires Associative(merge) && Commutative(merge)
    ensures Fold(merge, value, before + [x] + after) == merge(value(x), Fold(merge, value, before + after))
  {
    FoldConcat(merge, value, before, [x]);
    if after == [] {
      assert before + [x] + after == before + [x];
      assert before + after == before;
      assert merge(Fold(merge, value, before), value(x)) == merge(value(x), Fold(merge, value, before));
    } else {
      FoldConcat(merge, value, before + [x], after);
      FoldConcat(merge, value, before, after);
      Swap(merge, value(x), Fold(merge, value, before), Fold(merge, value, after));
    }
  }

  /** The payload depends only on the multiset of triggers, whatever the order of the merges. */
  lemma {:induction false} FoldIsOrderFree<P(!new)>(merge: (P, P) -> P, value: TriggerId -> P, a: Load, b: Load)
    requires Associative(merge) && Commutative(merge)
    requires multiset(a) == multiset(b)
    ensures Fold(merge, value, a) == Fold(merge, value, b)
    decreases |a|
  {
    var k := Rearranged(a, b);
    if |a| > 1 {
      var rest: Load := b[..k] + b[k + 1..];
      FoldIsOrderFree(merge, value, a[1..], rest);
      if k == 0 {
        assert rest == b[1..];
      } else {
        assert b == b[..k] + [b[k]] + b[k + 1..];
        FoldPull(merge, value, b[..k], b[k], b[k + 1..]);
      }
    }
  }
}
