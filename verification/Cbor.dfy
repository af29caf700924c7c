/**
The data item heads of RFC 8949, section 3, in the shortest form section 4.2.1 asks for, and the
byte order of encoded text keys.
*/
module Cbor {
  import opened Options
  import opened Bytes
  import opened Numbers
  import opened Sequences

  /** The low `k` bytes of `n`, most significant first. */
  function BigEndian(n: nat, k: nat): (s: Text)
    ensures |s| == k
  {
    if k == 0 then [] else BigEndian(n / 256, k - 1) + [n % 256]
  }

  function FromBigEndian(s: Text): nat {
    if s == [] then 0 else FromBigEndian(s[..|s| - 1]) * 256 + s[|s| - 1]
  }

  lemma {:induction false} BigEndianRoundTrip(n: nat, k: nat)
    requires n < Pow256(k)
    ensures FromBigEndian(BigEndian(n, k)) == n
  {
    if k > 0 {
      var s := BigEndian(n, k);
      assert s[..k - 1] == BigEndian(n / 256, k - 1);
      BigEndianRoundTrip(n / 256, k - 1);
    }
  }

  // ---------------------------------------------------------------------------------------------
  // Heads

  type Major = m: int | 0 <= m < 8

  const TEXT: Major := 3
  const ARRAY: Major := 4
  const MAP: Major := 5

  /** How many argument bytes follow the initial byte, for the shortest head carrying `n`. */
  function ArgumentBytes(n: nat): nat {
    if n < 24 then 0
    else if n < 0x100 then 1
    else if n < 0x1_0000 then 2
    else if n < 0x1_0000_0000 then 4
    else 8
  }

  /** The additional information that announces `k` argument bytes. */
  function Announces(k: nat): nat {
    if k == 1 then 24 else if k == 2 then 25 else if k == 4 then 26 else 27
  }

  function Announced(info: nat): nat {
    if info == 24 then 1 else if info == 25 then 2 else if info == 26 then 4 else 8
  }

  function Head(major: Major, n: nat): (s: Text)
    ensures s != []
  {
    var k := ArgumentBytes(n);
    if k == 0 then [32 * major + n] else [32 * major + Announces(k)] + BigEndian(n, k)
  }

  datatype Parsed = Parsed(major: Major, argument: nat, rest: Text)

  function ReadHead(bytes: Text): (r: Option<Parsed>)
    ensures r.Some? ==> |r.value.rest| < |bytes|
  {
    if bytes == [] then None
    else
      var major: Major := bytes[0] / 32;
      var info := bytes[0] % 32;
      if info < 24 then Some(Parsed(major, info, bytes[1..]))
      else if info > 27 then None
      else
        var k := Announced(info);
        if |bytes| < 1 + k then None
        else Some(Parsed(major, FromBigEndian(bytes[1..1 + k]), bytes[1 + k..]))
  }

  lemma InitialByte(major: Major, info: nat)
    requires info < 32
    ensures (32 * major + info) / 32 == major && (32 * major + info) % 32 == info
  {
  }

  lemma SmallHead(major: Major, n: nat, rest: Text)
    requires n < 24
    ensures ReadHead([32 * major + n] + rest) == Some(Parsed(major, n, rest))
  {
    InitialByte(major, n);
    assert ([32 * major + n] + rest)[1..] == rest;
  }

  /** Reading back a head that announces `k` argument bytes. */
  lemma WideHead(major: Major, n: nat, k: nat, rest: Text)
    requires k in {1, 2, 4, 8} && n < Pow256(k)
    ensures ReadHead([32 * major + Announces(k)] + BigEndian(n, k) + rest) == Some(Parsed(major, n, rest))
  {
    var bytes := [32 * major + Announces(k)] + BigEndian(n, k) + rest;
    BigEndianRoundTrip(n, k);
    InitialByte(major, Announces(k));
    assert Announced(Announces(k)) == k;
    assert bytes[1..1 + k] == BigEndian(n, k);
    assert bytes[1 + k..] == rest;
  }

  lemma ArgumentFits(n: nat)
    requires n < TWO64 && ArgumentBytes(n) > 0
    ensures ArgumentBytes(n) in {1, 2, 4, 8} && n < Pow256(ArgumentBytes(n))
  {
    Widths();
  }

  lemma HeadRoundTrip(major: Major, n: nat, rest: Text)
    requires n < TWO64
    ensures ReadHead(Head(major, n) + rest) == Some(Parsed(major, n, rest))
  {
    if ArgumentBytes(n) == 0 {
      SmallHead(major, n, rest);
    } else {
      ArgumentFits(n);
      WideHead(major, n, ArgumentBytes(n), rest);
    }
  }

  lemma {:induction false} FromBigEndianFits(s: Text)
    ensures FromBigEndian(s) < Pow256(|s|)
  {
    if s != [] { FromBigEndianFits(s[..|s| - 1]); }
  }

  lemma WideArgument(bytes: Text, k: nat)
    requires k in {1, 2, 4, 8} && 1 + k <= |bytes|
    ensures |Head(0, FromBigEndian(bytes[1..1 + k]))| <= 1 + k
  {
    FromBigEndianFits(bytes[1..1 + k]);
    Widths();
  }

  lemma HeadLength(major: Major, n: nat)
    ensures |Head(major, n)| == |Head(0, n)|
  {
  }

  /** No head that reads as this one is shorter: of all the bytes the decoder accepts, these are least. */
  lemma HeadShortest(bytes: Text)
    requires ReadHead(bytes).Some?
    ensures var p := ReadHead(bytes).value; |Head(p.major, p.argument)| + |p.rest| <= |bytes|
  {
    var p := ReadHead(bytes).value;
    HeadLength(p.major, p.argument);
    var info := bytes[0] % 32;
    if info >= 24 {
      WideArgument(bytes, Announced(info));
    }
  }

  /** The heads of section 3 of RFC 8949, byte by byte. */
  lemma HeadSpelled(major: Major, n: nat)
    ensures n < 24 ==> Head(major, n) == [32 * major + n]
    ensures 24 <= n < 0x100 ==> Head(major, n) == [32 * major + 24, n]
    ensures 0x100 <= n < 0x1_0000 ==> Head(major, n) == [32 * major + 25, n / 256, n % 256]
  {
    if 24 <= n < 0x100 {
      assert BigEndian(n, 1) == [n];
    } else if 0x100 <= n < 0x1_0000 {
      assert BigEndian(n / 256, 1) == [n / 256];
      assert BigEndian(n, 2) == [n / 256] + [n % 256];
    }
  }

  /** A text string data item; this is also the sort key of a map entry. */
  function TextItem(s: Text): Text {
    Head(TEXT, |s|) + s
  }

  function ReadText(bytes: Text): (r: Option<(Text, Text)>)
    ensures r.Some? ==> |r.value.1| < |bytes|
  {
    match ReadHead(bytes)
    case None => None
    case Some(head) =>
      if head.major == TEXT && head.argument <= |head.rest|
      then Some((head.rest[..head.argument], head.rest[head.argument..]))
      else None
  }

  lemma TextRoundTrip(s: Text, rest: Text)
    requires |s| < TWO64
    ensures ReadText(TextItem(s) + rest) == Some((s, rest))
  {
    HeadRoundTrip(TEXT, |s|, s + rest);
    assert TextItem(s) + rest == Head(TEXT, |s|) + (s + rest);
    assert (s + rest)[..|s|] == s && (s + rest)[|s|..] == rest;
  }

  // ---------------------------------------------------------------------------------------------
  // The order of encoded text

  lemma {:induction false} LessAfterPrefix(p: Text, a: Text, b: Text)
    ensures Less(p + a, p + b) <==> Less(a, b)
  {
    if p == [] {
      assert p + a == a && p + b == b;
    } else {
      assert (p + a)[1..] == p[1..] + a && (p + b)[1..] == p[1..] + b;
      LessAfterPrefix(p[1..], a, b);
    }
  }

  /** Big-endian numbers of one width compare as numbers, whatever follows them. */
  lemma {:induction false} BigEndianMonotone(m: nat, n: nat, k: nat, a: Text, b: Text)
    requires m < n < Pow256(k)
    ensures Less(BigEndian(m, k) + a, BigEndian(n, k) + b)
  {
    assert BigEndian(m, k) + a == BigEndian(m / 256, k - 1) + ([m % 256] + a);
    assert BigEndian(n, k) + b == BigEndian(n / 256, k - 1) + ([n % 256] + b);
    if m / 256 == n / 256 {
      LessAfterPrefix(BigEndian(m / 256, k - 1), [m % 256] + a, [n % 256] + b);
    } else {
      BigEndianMonotone(m / 256, n / 256, k - 1, [m % 256] + a, [n % 256] + b);
    }
  }

  lemma HeadMonotoneWithin(major: Major, m: nat, n: nat, a: Text, b: Text)
    requires m < n < TWO64 && 0 < ArgumentBytes(m) == ArgumentBytes(n)
    ensures Less(Head(major, m) + a, Head(major, n) + b)
  {
    var k := ArgumentBytes(m);
    var first: Text := [32 * major + Announces(k)];
    ArgumentFits(n);
    BigEndianMonotone(m, n, k, a, b);
    Concat(first, BigEndian(m, k), a);
    Concat(first, BigEndian(n, k), b);
    LessAfterPrefix(first, BigEndian(m, k) + a, BigEndian(n, k) + b);
  }

  /** Shortest heads are monotone in their argument, decided inside the head itself. */
  lemma HeadMonotone(major: Major, m: nat, n: nat, a: Text, b: Text)
    requires m < n < TWO64
    ensures Less(Head(major, m) + a, Head(major, n) + b)
  {
    if 0 < ArgumentBytes(m) == ArgumentBytes(n) {
      HeadMonotoneWithin(major, m, n, a, b);
    } else {
      var x, y := Head(major, m) + a, Head(major, n) + b;
      assert x[0] < y[0];
    }
  }

  /** Encoded text keys sort by length first and by content second. */
  lemma TextItemOrder(a: Text, b: Text)
    requires |a| < TWO64 && |b| < TWO64
    ensures Less(TextItem(a), TextItem(b)) <==> |a| < |b| || (|a| == |b| && Less(a, b))
  {
    if |a| < |b| {
      HeadMonotone(TEXT, |a|, |b|, a, b);
    } else if |b| < |a| {
      HeadMonotone(TEXT, |b|, |a|, b, a);
      LessAsymmetric(TextItem(b), TextItem(a));
    } else {
      LessAfterPrefix(Head(TEXT, |a|), a, b);
    }
  }

  /** Different texts have different items. */
  lemma TextItemInjective(a: Text, b: Text)
    requires |a| < TWO64 && |b| < TWO64 && TextItem(a) == TextItem(b)
    ensures a == b
  {
    TextRoundTrip(a, []);
    TextRoundTrip(b, []);
  }
}
