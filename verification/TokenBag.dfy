/** Token hashing and the `(token_hash, freq)` multiset of a token stream (`tokens.rs`). */
module TokenBag {
  import opened Bytes
  import opened Sequences

  type i64 = x: int | -0x8000_0000_0000_0000 <= x < 0x8000_0000_0000_0000

  // ---------------------------------------------------------------------------------------------
  // FNV-1a

  const FNV_OFFSET: bv64 := 0xcbf2_9ce4_8422_2325
  const FNV_PRIME: bv64 := 0x0000_0100_0000_01b3

  /** One byte into the hash; the product wraps at 64 bits. */
  function Mix(hash: bv64, b: byte): bv64 {
    (hash ^ (b as bv64)) * FNV_PRIME
  }

  function Fnv(hash: bv64, bytes: Text): bv64
    decreases |bytes|
  {
    if bytes == [] then hash else Fnv(Mix(hash, bytes[0]), bytes[1..])
  }

  method Fnv1a(bytes: Text) returns (hash: bv64)
    ensures hash == Fnv(FNV_OFFSET, bytes)
  {
    hash := FNV_OFFSET;
    for i := 0 to |bytes|
      invariant Fnv(hash, bytes[i..]) == Fnv(FNV_OFFSET, bytes)
    {
      assert bytes[i..][1..] == bytes[i + 1..];
      hash := Mix(hash, bytes[i]);
    }
  }

  /** The hash of a text goes on from the hash of its beginning. */
  lemma {:induction false} FnvInParts(hash: bv64, a: Text, b: Text)
    ensures Fnv(hash, a + b) == Fnv(Fnv(hash, a), b)
    decreases |a|
  {
    if a == [] {
      assert a + b == b;
    } else {
      assert (a + b)[1..] == a[1..] + b;
      FnvInParts(Mix(hash, a[0]), a[1..], b);
    }
  }

  /** The reference values for the empty text and for `a`. */
  lemma FnvReference()
    ensures Fnv(FNV_OFFSET, []) == 0xcbf2_9ce4_8422_2325
    ensures Fnv(FNV_OFFSET, [97]) == 0xaf63_dc4c_8601_ec8c
  {
    FnvOfByte(97);
    MixA();
  }

  lemma MixA()
    ensures Mix(FNV_OFFSET, 97) == 0xaf63_dc4c_8601_ec8c
  {
    var a: bv64 := 97;
    assert 97 as bv64 == a;
    assert FNV_OFFSET ^ a == 0xcbf2_9ce4_8422_2344;
    assert (0xcbf2_9ce4_8422_2344 as bv64) * FNV_PRIME == 0xaf63_dc4c_8601_ec8c;
  }

  lemma FnvOfByte(b: byte)
    ensures Fnv(FNV_OFFSET, [b]) == Mix(FNV_OFFSET, b)
  {
    assert [b][1..] == [];
  }

  /** `as i64`. */
  function Signed(hash: bv64): i64 {
    var n := hash as int;
    if n < 0x8000_0000_0000_0000 then n else n - 0x1_0000_0000_0000_0000
  }

  function TokenHash(token: Text): i64 {
    Signed(Fnv(FNV_OFFSET, token))
  }

  function Hashes(tokens: seq<Text>): (r: seq<i64>)
    ensures |r| == |tokens|
  {
    seq(|tokens|, i requires 0 <= i < |tokens| => TokenHash(tokens[i]))
  }

  // ---------------------------------------------------------------------------------------------
  // The bag

  datatype Pair = Pair(hash: i64, freq: i64)

  ghost predicate Ascending(bag: seq<Pair>) {
    forall i, j :: 0 <= i < j < |bag| ==> bag[i].hash < bag[j].hash
  }

  /** Strictly ascending by hash, one pair per hash that occurs, with its number of occurrences. */
  ghost predicate IsBag(hashes: seq<i64>, bag: seq<Pair>) {
    && Ascending(bag)
    && (forall i :: 0 <= i < |bag| ==> bag[i].hash in hashes && bag[i].freq == multiset(hashes)[bag[i].hash])
    && (forall h :: h in hashes ==> HasHash(bag, h))
  }

  ghost predicate HasHash(bag: seq<Pair>, h: i64) {
    exists i :: 0 <= i < |bag| && bag[i].hash == h
  }

  function TotalFreq(bag: seq<Pair>): int {
    if bag == [] then 0 else bag[0].freq + TotalFreq(bag[1..])
  }

  /** How often each hash occurs, as the source's counting loop builds it. */
  method CountHashes(tokens: seq<Text>) returns (counts: map<i64, i64>)
    requires |tokens| < 0x8000_0000_0000_0000
    ensures Counted(Hashes(tokens), counts)
  {
    counts := map[];
    ghost var hashes := Hashes(tokens);
    for i := 0 to |tokens|
      invariant Counted(hashes[..i], counts)
    {
      var hash := HashToken(tokens[i]);
      assert hashes[..i + 1] == hashes[..i] + [hash];
      CountedMore(hashes[..i], counts, hash);
      counts := counts[hash := if hash in counts then counts[hash] + 1 else 1];
    }
    assert hashes[..|tokens|] == hashes;
  }

  method HashToken(token: Text) returns (hash: i64)
    ensures hash == TokenHash(token)
  {
    var raw := Fnv1a(token);
    hash := Signed(raw);
  }

  ghost predicate Counted(hashes: seq<i64>, counts: map<i64, i64>) {
    && (forall h :: h in counts <==> h in hashes)
    && forall h :: h in counts ==> counts[h] == multiset(hashes)[h]
  }

  lemma CountedMore(hashes: seq<i64>, counts: map<i64, i64>, h: i64)
    requires Counted(hashes, counts) && |hashes| + 1 < 0x8000_0000_0000_0000
    ensures h in counts ==> counts[h] + 1 < 0x8000_0000_0000_0000
    ensures Counted(hashes + [h], counts[h := if h in counts then counts[h] + 1 else 1])
  {
    CountAtMost(hashes, h);
    assert multiset(hashes + [h]) == multiset(hashes) + multiset{h};
    assert h !in hashes ==> h !in multiset(hashes);
  }

  lemma CountAtMost(s: seq<i64>, h: i64)
    ensures multiset(s)[h] <= |s|
  {
    var m := multiset(s);
    assert multiset{}[h := m[h]] <= m;
    assert |multiset{}[h := m[h]]| == m[h];
    assert |m| == |s|;
  }

  // ---------------------------------------------------------------------------------------------
  // Sorting

  /** `bag` with `p` put where its hash belongs. */
  function Place(p: Pair, bag: seq<Pair>): seq<Pair> {
    if bag == [] || p.hash < bag[0].hash then [p] + bag else [bag[0]] + Place(p, bag[1..])
  }

  lemma {:induction false} PlaceAscends(p: Pair, bag: seq<Pair>)
    requires Ascending(bag) && !HasHash(bag, p.hash)
    ensures Ascending(Place(p, bag))
    ensures forall q :: q in Place(p, bag) <==> q == p || q in bag
  {
    if bag != [] && p.hash >= bag[0].hash {
      assert bag[0].hash != p.hash;
      assert !HasHash(bag[1..], p.hash) by {
        assert forall i :: 0 <= i < |bag[1..]| ==> bag[1..][i] == bag[i + 1];
      }
      PlaceAscends(p, bag[1..]);
      var r := Place(p, bag[1..]);
      assert bag == [bag[0]] + bag[1..];
      forall j | 0 <= j < |r|
        ensures bag[0].hash < r[j].hash
      {
        assert r[j] in r;
      }
    }
  }

  /** The pairs collected so far are those of the counted hashes not left. */
  ghost predicate Taken(counts: map<i64, i64>, left: set<i64>, bag: seq<Pair>) {
    && Ascending(bag)
    && forall p :: p in bag <==> p.hash in counts && p.hash !in left && p.freq == counts[p.hash]
  }

  lemma TakenMore(counts: map<i64, i64>, left: set<i64>, bag: seq<Pair>, h: i64)
    requires Taken(counts, left, bag) && h in left && h in counts
    ensures Taken(counts, left - {h}, Place(Pair(h, counts[h]), bag))
  {
    forall i | 0 <= i < |bag|
      ensures bag[i].hash != h
    {
      assert bag[i] in bag;
    }
    PlaceAscends(Pair(h, counts[h]), bag);
  }

  lemma TakenAll(hashes: seq<i64>, counts: map<i64, i64>, bag: seq<Pair>)
    requires Counted(hashes, counts) && Taken(counts, {}, bag)
    ensures IsBag(hashes, bag)
  {
    forall i | 0 <= i < |bag|
      ensures bag[i].hash in hashes && bag[i].freq == multiset(hashes)[bag[i].hash]
    {
      assert bag[i] in bag;
    }
    forall h | h in hashes
      ensures HasHash(bag, h)
    {
      assert Pair(h, counts[h]) in bag;
    }
  }

  /** `token_bag`: count, collect the map in whatever order it iterates, sort by hash. */
  method TokenBagOf(tokens: seq<Text>) returns (bag: seq<Pair>)
    requires |tokens| < 0x8000_0000_0000_0000
    ensures IsBag(Hashes(tokens), bag)
  {
    var counts := CountHashes(tokens);
    var left := counts.Keys;
    bag := [];
    while left != {}
      invariant left <= counts.Keys && Taken(counts, left, bag)
      decreases left
    {
      var h :| h in left;
      TakenMore(counts, left, bag, h);
      bag := Place(Pair(h, counts[h]), bag);
      left := left - {h};
    }
    TakenAll(Hashes(tokens), counts, bag);
  }

  // ---------------------------------------------------------------------------------------------
  // What the bag is

  lemma {:induction false} PermutedHashes(a: seq<Text>, b: seq<Text>)
    requires multiset(a) == multiset(b)
    ensures multiset(Hashes(a)) == multiset(Hashes(b))
    decreases |a|
  {
    if a == [] {
      assert |multiset(a)| == |multiset(b)|;
    } else {
      var k := Rearranged(a, b);
      PermutedHashes(a[1..], b[..k] + b[k + 1..]);
      HashesInParts(b, k);
      assert Hashes(a) == [TokenHash(a[0])] + Hashes(a[1..]);
    }
  }

  lemma HashesConcat(a: seq<Text>, b: seq<Text>)
    ensures Hashes(a + b) == Hashes(a) + Hashes(b)
  {
  }

  lemma HashesInParts(b: seq<Text>, k: nat)
    requires k < |b|
    ensures Hashes(b) == Hashes(b[..k]) + [TokenHash(b[k])] + Hashes(b[k + 1..])
    ensures Hashes(b[..k] + b[k + 1..]) == Hashes(b[..k]) + Hashes(b[k + 1..])
  {
    HashesConcat(b[..k], b[k + 1..]);
    HashesConcat(b[..k], [b[k]]);
    HashesConcat(b[..k] + [b[k]], b[k + 1..]);
    assert b == b[..k] + [b[k]] + b[k + 1..];
  }

  /** Two bags of one multiset of hashes are the same bag. */
  lemma BagIsUnique(a: seq<i64>, b: seq<i64>, x: seq<Pair>, y: seq<Pair>)
    requires multiset(a) == multiset(b) && IsBag(a, x) && IsBag(b, y)
    ensures x == y
  {
    assert forall h :: h in a <==> h in multiset(a);
    assert forall h :: h in b <==> h in multiset(b);
    assert SamePairs(x, y) by {
      forall i | 0 <= i < |x|
        ensures x[i] in y
      {
        assert x[i].hash in b && HasHash(y, x[i].hash);
        var j :| 0 <= j < |y| && y[j].hash == x[i].hash;
      }
      forall j | 0 <= j < |y|
        ensures y[j] in x
      {
        assert y[j].hash in a && HasHash(x, y[j].hash);
        var i :| 0 <= i < |x| && x[i].hash == y[j].hash;
      }
    }
    AscendingUnique(x, y);
  }

  /** Permuting the tokens changes nothing. */
  lemma BagIsPermutationInvariant(a: seq<Text>, b: seq<Text>, x: seq<Pair>, y: seq<Pair>)
    requires multiset(a) == multiset(b) && IsBag(Hashes(a), x) && IsBag(Hashes(b), y)
    ensures x == y
  {
    PermutedHashes(a, b);
    BagIsUnique(Hashes(a), Hashes(b), x, y);
  }

  ghost predicate SamePairs(x: seq<Pair>, y: seq<Pair>) {
    (forall i :: 0 <= i < |x| ==> x[i] in y) && (forall j :: 0 <= j < |y| ==> y[j] in x)
  }

  lemma FirstAmong(x: seq<Pair>, y: seq<Pair>)
    requires Ascending(x) && SamePairs(x, y) && y != []
    ensures x != [] && x[0].hash <= y[0].hash
  {
    assert y[0] in x;
    var i :| 0 <= i < |x| && x[i] == y[0];
    assert i > 0 ==> x[0].hash < x[i].hash;
  }

  lemma RestAmong(x: seq<Pair>, y: seq<Pair>)
    requires Ascending(x) && Ascending(y) && SamePairs(x, y) && x != [] && y != [] && x[0].hash == y[0].hash
    ensures forall k :: 0 <= k < |x[1..]| ==> x[1..][k] in y[1..]
  {
    forall k | 0 <= k < |x[1..]|
      ensures x[1..][k] in y[1..]
    {
      assert x[0].hash < x[k + 1].hash;
      assert x[k + 1] in y;
      var m :| 0 <= m < |y| && y[m] == x[k + 1];
      assert y[1..][m - 1] == y[m];
    }
  }

  lemma SameFirst(x: seq<Pair>, y: seq<Pair>)
    requires Ascending(y) && SamePairs(x, y) && x != [] && y != [] && x[0].hash == y[0].hash
    ensures x[0] == y[0]
  {
    assert x[0] in y;
    var m :| 0 <= m < |y| && y[m] == x[0];
  }

  lemma RestsAgree(x: seq<Pair>, y: seq<Pair>)
    requires Ascending(x) && Ascending(y) && SamePairs(x, y) && x != [] && y != [] && x[0].hash == y[0].hash
    ensures Ascending(x[1..]) && Ascending(y[1..]) && SamePairs(x[1..], y[1..])
  {
    RestAmong(x, y);
    RestAmong(y, x);
  }

  lemma {:induction false} AscendingUnique(x: seq<Pair>, y: seq<Pair>)
    requires Ascending(x) && Ascending(y) && SamePairs(x, y)
    ensures x == y
    decreases |x|
  {
    if y != [] {
      FirstAmong(x, y);
      FirstAmong(y, x);
      SameFirst(x, y);
      RestsAgree(x, y);
      AscendingUnique(x[1..], y[1..]);
      assert x == [x[0]] + x[1..] && y == [y[0]] + y[1..];
    } else if x != [] {
      FirstAmong(y, x);
    }
  }

  // ---------------------------------------------------------------------------------------------
  // Frequencies

  lemma {:induction false} TotalOf(hashes: multiset<i64>, bag: seq<Pair>)
    requires Ascending(bag)
    requires forall i :: 0 <= i < |bag| ==> bag[i].freq == hashes[bag[i].hash]
    requires forall h :: h in hashes ==> HasHash(bag, h)
    ensures TotalFreq(bag) == |hashes|
    decreases |bag|
  {
    if bag == [] {
      assert hashes == multiset{};
    } else {
      var h := bag[0].hash;
      var rest := hashes[h := 0];
      assert |rest| + hashes[h] == |hashes|;
      forall i | 0 <= i < |bag[1..]|
        ensures bag[1..][i].freq == rest[bag[1..][i].hash]
      {
        assert bag[0].hash < bag[i + 1].hash;
      }
      forall g | g in rest
        ensures HasHash(bag[1..], g)
      {
        assert HasHash(bag, g);
        var k :| 0 <= k < |bag| && bag[k].hash == g;
        assert bag[1..][k - 1].hash == g;
      }
      TotalOf(rest, bag[1..]);
    }
  }

  /** The frequencies add up to the number of tokens. */
  lemma FrequenciesSumToLength(hashes: seq<i64>, bag: seq<Pair>)
    requires IsBag(hashes, bag)
    ensures TotalFreq(bag) == |hashes|
  {
    TotalOf(multiset(hashes), bag);
    assert |multiset(hashes)| == |hashes|;
  }
}
