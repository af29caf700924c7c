/** The token-bag BLOB codec (`bag_blob.rs`): little-endian, fixed width, versioned. */
module BagBlob {
  import opened Options
  import opened Bytes
  import opened Numbers
  import opened Sequences
  import opened TokenBag

  const BAG_BLOB_VERSION := 1
  const HEADER_LEN := 8
  const PAIR_LEN := 16

  const TWO32 := 0x1_0000_0000

  // ---------------------------------------------------------------------------------------------
  // Little-endian words

  /** The low `k` bytes of `n`, least significant first. */
  function LittleEndian(n: nat, k: nat): (s: Text)
    ensures |s| == k
  {
    if k == 0 then [] else [n % 256] + LittleEndian(n / 256, k - 1)
  }

  function FromLittleEndian(s: Text): nat {
    if s == [] then 0 else s[0] + 256 * FromLittleEndian(s[1..])
  }

  lemma {:induction false} WordRoundTrip(n: nat, k: nat)
    requires n < Pow256(k)
    ensures FromLittleEndian(LittleEndian(n, k)) == n
  {
    if k > 0 {
      var s := LittleEndian(n, k);
      assert s[1..] == LittleEndian(n / 256, k - 1);
      WordRoundTrip(n / 256, k - 1);
    }
  }

  lemma {:induction false} BytesRoundTrip(s: Text)
    ensures FromLittleEndian(s) < Pow256(|s|)
    ensures LittleEndian(FromLittleEndian(s), |s|) == s
  {
    if s != [] {
      BytesRoundTrip(s[1..]);
      var n := FromLittleEndian(s);
      assert n % 256 == s[0] && n / 256 == FromLittleEndian(s[1..]);
      assert s == [s[0]] + s[1..];
    }
  }

  /** Dividing by 256 and then by `p` is dividing by both. */
  lemma DivideTwice(n: nat, p: nat)
    requires p > 0
    ensures n / 256 / p == n / (256 * p)
  {
    var q, a := n / 256, n % 256;
    var t, b := q / p, q % p;
    assert n == (256 * p) * t + (256 * b + a) && 256 * b + a < 256 * p by {
      assert q == p * t + b && n == 256 * q + a;
      assert 256 * (p * t) == (256 * p) * t;
    }
    QuotientIs(n, 256 * p, t, 256 * b + a);
  }

  lemma QuotientIs(n: nat, d: nat, q: nat, r: nat)
    requires r < d && n == d * q + r
    ensures n / d == q
  {
    var k := n / d;
    assert n == d * k + n % d;
    if k < q { Scaled(k + 1, q, d); }
    if q < k { Scaled(q + 1, k, d); }
  }

  /** Byte `j` counts units of 256 to the `j`. */
  lemma {:induction false} ByteAt(n: nat, k: nat, j: nat)
    requires j < k
    ensures LittleEndian(n, k)[j] == n / Pow256(j) % 256
    decreases k
  {
    if j > 0 {
      ByteAt(n / 256, k - 1, j - 1);
      DivideTwice(n, Pow256(j - 1));
    }
  }

  /** Two's complement. */
  function Unsigned(x: i64): nat {
    if x >= 0 then x else x + TWO64
  }

  function AsSigned(n: nat): i64
    requires n < TWO64
  {
    if n < 0x8000_0000_0000_0000 then n else n - TWO64
  }

  function Word(x: i64): (s: Text)
    ensures |s| == 8
  {
    LittleEndian(Unsigned(x), 8)
  }

  function ReadWord(s: Text): i64
    requires |s| == 8
  {
    BytesRoundTrip(s);
    Widths();
    AsSigned(FromLittleEndian(s))
  }

  lemma SignedRoundTrip(x: i64)
    ensures ReadWord(Word(x)) == x
  {
    Widths();
    WordRoundTrip(Unsigned(x), 8);
  }

  lemma SignedBytesRoundTrip(s: Text)
    requires |s| == 8
    ensures Word(ReadWord(s)) == s
  {
    BytesRoundTrip(s);
    Widths();
  }

  // ---------------------------------------------------------------------------------------------
  // The codec

  function PairBytes(p: Pair): (s: Text)
    ensures |s| == PAIR_LEN
  {
    Word(p.hash) + Word(p.freq)
  }

  function Body(bag: seq<Pair>): (s: Text)
    ensures |s| == PAIR_LEN * |bag|
  {
    if bag == [] then [] else PairBytes(bag[0]) + Body(bag[1..])
  }

  /** The count is written as a `u32`, so a larger one is truncated. */
  function Header(count: nat): (s: Text)
    ensures |s| == HEADER_LEN
  {
    LittleEndian(BAG_BLOB_VERSION, 4) + LittleEndian(count % TWO32, 4)
  }

  function Encoded(bag: seq<Pair>): (s: Text)
    ensures |s| == HEADER_LEN + PAIR_LEN * |bag|
  {
    Header(|bag|) + Body(bag)
  }

  lemma {:induction false} PairPosition(bag: seq<Pair>, i: nat)
    requires i < |bag|
    ensures Body(bag)[16 * i..16 * i + 8] == Word(bag[i].hash)
    ensures Body(bag)[16 * i + 8..16 * i + 16] == Word(bag[i].freq)
  {
    var s, rest := Body(bag), Body(bag[1..]);
    if i == 0 {
      assert s[0..8] == Word(bag[0].hash) && s[8..16] == Word(bag[0].freq);
    } else {
      PairPosition(bag[1..], i - 1);
      var k := 16 * (i - 1);
      assert s[16 + k..16 + k + 8] == rest[k..k + 8] && s[16 + k + 8..16 + k + 16] == rest[k + 8..k + 16];
    }
  }

  lemma VersionBytes()
    ensures LittleEndian(BAG_BLOB_VERSION, 4) == [1, 0, 0, 0]
  {
    assert LittleEndian(0, 2) == [0] + LittleEndian(0, 1);
  }

  /** Where version and count stand in the blob, ... */
  lemma HeaderLayout(bag: seq<Pair>, j: nat)
    requires j < 4
    ensures Encoded(bag)[0..4] == [1, 0, 0, 0]
    ensures Encoded(bag)[4 + j] == |bag| % 0x1_0000_0000 / Pow256(j) % 256
  {
    VersionBytes();
    ByteAt(|bag| % TWO32, 4, j);
  }

  /** ... and where each pair does. */
  lemma BlobLayout(bag: seq<Pair>, i: nat, j: nat)
    requires i < |bag| && j < 8
    ensures Encoded(bag)[8 + 16 * i + j] == Unsigned(bag[i].hash) / Pow256(j) % 256
    ensures Encoded(bag)[16 + 16 * i + j] == Unsigned(bag[i].freq) / Pow256(j) % 256
  {
    var s := Encoded(bag);
    PairPosition(bag, i);
    assert s[8..] == Body(bag);
    assert s[8 + 16 * i + j] == Body(bag)[16 * i..16 * i + 8][j];
    assert s[16 + 16 * i + j] == Body(bag)[16 * i + 8..16 * i + 16][j];
    ByteAt(Unsigned(bag[i].hash), 8, j);
    ByteAt(Unsigned(bag[i].freq), 8, j);
  }

  method EncodeTokenBag(bag: seq<Pair>) returns (buf: Text)
    ensures buf == Encoded(bag)
  {
    buf := LittleEndian(BAG_BLOB_VERSION, 4);
    buf := buf + LittleEndian(|bag| % TWO32, 4);
    for i := 0 to |bag|
      invariant buf + Body(bag[i..]) == Encoded(bag)
    {
      ghost var before := buf;
      buf := buf + Word(bag[i].hash);
      buf := buf + Word(bag[i].freq);
      assert bag[i..][1..] == bag[i + 1..];
      Concat(before, Word(bag[i].hash), Word(bag[i].freq));
      Concat(before, PairBytes(bag[i]), Body(bag[i + 1..]));
    }
    assert buf + [] == buf;
  }

  function PairAt(blob: Text, base: nat): Pair
    requires base + PAIR_LEN <= |blob|
  {
    Pair(ReadWord(blob[base..base + 8]), ReadWord(blob[base + 8..base + 16]))
  }

  /** The pairs in `blob`, which is a whole number of them. */
  function Pairs(blob: Text): (bag: seq<Pair>)
    requires |blob| % PAIR_LEN == 0
    ensures |bag| * PAIR_LEN == |blob|
  {
    if blob == [] then [] else [PairAt(blob, 0)] + Pairs(blob[PAIR_LEN..])
  }

  /** The current version, and a length that agrees with the declared count. */
  predicate WellFormed(blob: Text) {
    && |blob| >= HEADER_LEN
    && FromLittleEndian(blob[0..4]) == BAG_BLOB_VERSION
    && |blob| == HEADER_LEN + FromLittleEndian(blob[4..8]) * PAIR_LEN
  }

  function Decoded(blob: Text): Option<seq<Pair>> {
    if WellFormed(blob) then Some(Pairs(blob[HEADER_LEN..])) else None
  }

  method DecodeTokenBag(blob: Text) returns (r: Option<seq<Pair>>)
    ensures r == Decoded(blob)
  {
    if |blob| < HEADER_LEN {
      return None;
    }
    var version := FromLittleEndian(blob[0..4]);
    if version != BAG_BLOB_VERSION {
      return None;
    }
    var count := FromLittleEndian(blob[4..8]);
    if |blob| != HEADER_LEN + count * PAIR_LEN {
      return None;
    }
    var bag: seq<Pair> := [];
    for i := 0 to count
      invariant |blob| == HEADER_LEN + count * PAIR_LEN
      invariant bag + Pairs(blob[HEADER_LEN + i * PAIR_LEN..]) == Pairs(blob[HEADER_LEN..])
    {
      var base := HEADER_LEN + i * PAIR_LEN;
      bag := bag + [PairAt(blob, base)];
      var rest := blob[base..];
      assert rest[0..8] == blob[base..base + 8] && rest[8..16] == blob[base + 8..base + 16];
      assert rest[PAIR_LEN..] == blob[base + PAIR_LEN..];
    }
    assert blob[HEADER_LEN + count * PAIR_LEN..] == [] && bag + [] == bag;
    r := Some(bag);
  }

  // ---------------------------------------------------------------------------------------------
  // Round trips

  lemma {:induction false} BodyRoundTrip(bag: seq<Pair>)
    ensures Pairs(Body(bag)) == bag
  {
    if bag != [] {
      var s := Body(bag);
      assert s[0..8] == Word(bag[0].hash) && s[8..16] == Word(bag[0].freq);
      assert s[PAIR_LEN..] == Body(bag[1..]);
      SignedRoundTrip(bag[0].hash);
      SignedRoundTrip(bag[0].freq);
      BodyRoundTrip(bag[1..]);
    }
  }

  lemma EncodedHeader(bag: seq<Pair>)
    ensures FromLittleEndian(Encoded(bag)[0..4]) == BAG_BLOB_VERSION
    ensures FromLittleEndian(Encoded(bag)[4..8]) == |bag| % TWO32
    ensures Encoded(bag)[HEADER_LEN..] == Body(bag)
  {
    var s := Encoded(bag);
    Widths();
    assert s[0..4] == LittleEndian(BAG_BLOB_VERSION, 4) && s[4..8] == LittleEndian(|bag| % TWO32, 4);
    WordRoundTrip(BAG_BLOB_VERSION, 4);
    WordRoundTrip(|bag| % TWO32, 4);
  }

  /** Decoding an encoded bag returns it exactly if and only if its size fits the count header. */
  lemma DecodeEncode(bag: seq<Pair>)
    ensures Decoded(Encoded(bag)) == Some(bag) <==> |bag| < TWO32
  {
    EncodedHeader(bag);
    if |bag| < TWO32 {
      BodyRoundTrip(bag);
    } else {
      TruncatedIsRejected(bag);
    }
  }

  /** A count that was truncated disagrees with the length. */
  lemma TruncatedIsRejected(bag: seq<Pair>)
    requires |bag| >= TWO32
    ensures Decoded(Encoded(bag)).None?
  {
    EncodedHeader(bag);
    assert |bag| % TWO32 < |bag|;
  }

  lemma {:induction false} PairsRoundTrip(blob: Text)
    requires |blob| % PAIR_LEN == 0
    ensures Body(Pairs(blob)) == blob
  {
    if blob != [] {
      SignedBytesRoundTrip(blob[0..8]);
      SignedBytesRoundTrip(blob[8..16]);
      PairsRoundTrip(blob[PAIR_LEN..]);
      assert blob == blob[0..8] + blob[8..16] + blob[PAIR_LEN..];
    }
  }

  lemma WordsRoundTrip(blob: Text)
    requires WellFormed(blob)
    ensures LittleEndian(BAG_BLOB_VERSION, 4) == blob[0..4]
    ensures LittleEndian(FromLittleEndian(blob[4..8]), 4) == blob[4..8]
    ensures FromLittleEndian(blob[4..8]) < TWO32
  {
    Widths();
    BytesRoundTrip(blob[0..4]);
    BytesRoundTrip(blob[4..8]);
  }

  lemma HeaderRoundTrip(blob: Text)
    requires WellFormed(blob)
    ensures Header(FromLittleEndian(blob[4..8])) == blob[..HEADER_LEN]
  {
    WordsRoundTrip(blob);
    var count := FromLittleEndian(blob[4..8]);
    assert count % TWO32 == count;
    assert blob[0..4] + blob[4..8] == blob[..HEADER_LEN];
  }

  lemma DeclaredCount(blob: Text)
    requires WellFormed(blob)
    ensures |Pairs(blob[HEADER_LEN..])| == FromLittleEndian(blob[4..8])
  {
  }

  lemma Rebuilt(blob: Text)
    requires WellFormed(blob)
    ensures Header(|Pairs(blob[HEADER_LEN..])|) + Body(Pairs(blob[HEADER_LEN..])) == blob
  {
    HeaderRoundTrip(blob);
    DeclaredCount(blob);
    PairsRoundTrip(blob[HEADER_LEN..]);
    assert blob == blob[..HEADER_LEN] + blob[HEADER_LEN..];
  }

  /** Any blob that decodes re-encodes to itself. */
  lemma EncodeDecode(blob: Text)
    requires Decoded(blob).Some?
    ensures Encoded(Decoded(blob).value) == blob
  {
    Rebuilt(blob);
  }

  /** Exactly the encoded bags that fit the count decode. */
  lemma DecodesIffEncoded(blob: Text)
    ensures Decoded(blob).Some? <==> exists bag: seq<Pair> :: |bag| < 0x1_0000_0000 && blob == Encoded(bag)
  {
    if Decoded(blob).Some? {
      EncodeDecode(blob);
      DeclaredCount(blob);
      WordsRoundTrip(blob);
    }
    if exists bag: seq<Pair> :: |bag| < 0x1_0000_0000 && blob == Encoded(bag) {
      var bag: seq<Pair> :| |bag| < 0x1_0000_0000 && blob == Encoded(bag);
      DecodeEncode(bag);
    }
  }

  /** The number of tokens is recoverable from the stored blob. */
  lemma TokenLenFromBlob(tokens: seq<Text>, bag: seq<Pair>)
    requires IsBag(Hashes(tokens), bag) && |bag| < TWO32
    ensures Decoded(Encoded(bag)).Some? && TotalFreq(Decoded(Encoded(bag)).value) == |tokens|
  {
    DecodeEncode(bag);
    FrequenciesSumToLength(Hashes(tokens), bag);
  }
}
