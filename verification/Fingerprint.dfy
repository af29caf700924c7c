/** A symbol's fingerprint: struct hash, token length and token bag (`lib.rs`, `tokens.rs`). */
module Fingerprint {
  import opened Options
  import opened Bytes
  import opened Normalize
  import opened TokenBag
  import opened AlphaEquivalence
  import opened BagBlob

  const MIN_TOKENS := 20

  /** More tokens than a file can hold. */
  const TOO_MANY := 0x8000_0000_0000_0000

  // ---------------------------------------------------------------------------------------------
  // UTF-8

  /** A continuation byte: the low six bits. */
  function Low(n: nat): byte {
    0x80 + n % 64
  }

  function Rest(n: nat): nat {
    n / 64
  }

  function Utf8Char(c: char): Text {
    var n := c as int;
    if n < 0x80 then [n]
    else if n < 0x800 then [0xc0 + Rest(n), Low(n)]
    else if n < 0x1_0000 then [0xe0 + Rest(Rest(n)), Low(Rest(n)), Low(n)]
    else [0xf0 + Rest(Rest(Rest(n))), Low(Rest(Rest(n))), Low(Rest(n)), Low(n)]
  }

  /** The code point an encoded character stands for (section 3 of RFC 3629). */
  function CodePoint(s: Text): int {
    if |s| == 1 then s[0]
    else if |s| == 2 then (s[0] as int - 0xc0) * 0x40 + (s[1] as int - 0x80)
    else if |s| == 3 then (s[0] as int - 0xe0) * 0x1000 + (s[1] as int - 0x80) * 0x40 + (s[2] as int - 0x80)
    else if |s| == 4 then
      (s[0] as int - 0xf0) * 0x4_0000 + (s[1] as int - 0x80) * 0x1000 + (s[2] as int - 0x80) * 0x40
      + (s[3] as int - 0x80)
    else -1
  }

  /** The length the first byte announces. */
  function Announced(b: byte): nat {
    if b < 0x80 then 1 else if b < 0xe0 then 2 else if b < 0xf0 then 3 else 4
  }

  lemma SixBits(n: nat)
    ensures n == 64 * Rest(n) + Low(n) - 0x80
  {
  }

  lemma Utf8CharReads(c: char)
    ensures CodePoint(Utf8Char(c)) == c as int
    ensures |Utf8Char(c)| == Announced(Utf8Char(c)[0])
    ensures forall i :: 0 < i < |Utf8Char(c)| ==> 0x80 <= Utf8Char(c)[i] < 0xc0
  {
    var n := c as int;
    SixBits(n);
    SixBits(Rest(n));
    SixBits(Rest(Rest(n)));
  }

  function Utf8(s: string): Text {
    if s == [] then [] else Utf8Char(s[0]) + Utf8(s[1..])
  }

  lemma Utf8CharPrefixFree(c: char, d: char, x: Text, y: Text)
    requires Utf8Char(c) + x == Utf8Char(d) + y
    ensures c == d && x == y
  {
    var s := Utf8Char(c) + x;
    Utf8CharReads(c);
    Utf8CharReads(d);
    assert s[0] == Utf8Char(c)[0] && s[0] == Utf8Char(d)[0];
    var k := |Utf8Char(c)|;
    assert Utf8Char(c) == s[..k] && Utf8Char(d) == s[..k];
    assert x == s[k..] && y == s[k..];
  }

  lemma {:induction false} Utf8Injective(s: string, t: string)
    requires Utf8(s) == Utf8(t)
    ensures s == t
  {
    if s != [] && t != [] {
      Utf8CharPrefixFree(s[0], t[0], Utf8(s[1..]), Utf8(t[1..]));
      Utf8Injective(s[1..], t[1..]);
      assert s == [s[0]] + s[1..] && t == [t[0]] + t[1..];
    }
  }

  function AllUtf8(tokens: seq<string>): (r: seq<Text>)
    ensures |r| == |tokens|
  {
    seq(|tokens|, i requires 0 <= i < |tokens| => Utf8(tokens[i]))
  }

  // ---------------------------------------------------------------------------------------------
  // The struct hash

  const SEPARATOR := '\U{1}'

  function Join(tokens: seq<string>): string {
    if tokens == [] then []
    else if |tokens| == 1 then tokens[0]
    else tokens[0] + [SEPARATOR] + Join(tokens[1..])
  }

  function StructHash(sha: Text -> Text, tokens: seq<string>): Text {
    sha(Utf8(Join(tokens)))
  }

  ghost predicate Separable(tokens: seq<string>) {
    forall t :: t in tokens ==> SEPARATOR !in t
  }

  /** The tokens of a stream that has none of the separators in them can be read back. */
  function Split(s: string, from: nat): seq<string>
    requires from <= |s|
    decreases |s| - from
  {
    if from == |s| then [s]
    else if s[from] == SEPARATOR then [s[..from]] + Split(s[from + 1..], 0)
    else Split(s, from + 1)
  }

  lemma {:induction false} SplitSkips(t: string, rest: string, from: nat)
    requires SEPARATOR !in t && from <= |t|
    ensures Split(t + rest, from) == Split(t + rest, |t|)
    decreases |t| - from
  {
    if from < |t| {
      assert (t + rest)[from] == t[from] && t[from] in t;
      SplitSkips(t, rest, from + 1);
    }
  }

  lemma {:induction false} SplitJoin(tokens: seq<string>)
    requires tokens != [] && Separable(tokens)
    ensures Split(Join(tokens), 0) == tokens
  {
    var t := tokens[0];
    if |tokens| == 1 {
      SplitSkips(t, [], 0);
      assert t + [] == t;
    } else {
      var rest := [SEPARATOR] + Join(tokens[1..]);
      assert Join(tokens) == t + rest;
      SplitSkips(t, rest, 0);
      assert (t + rest)[|t|] == SEPARATOR && (t + rest)[..|t|] == t && (t + rest)[|t| + 1..] == Join(tokens[1..]);
      SplitJoin(tokens[1..]);
      assert tokens == [t] + tokens[1..];
    }
  }

  /** A token that holds the separator makes two streams read alike. */
  lemma SeparatorsCollide()
    ensures Join(["a\U{1}b", "c"]) == Join(["a", "b\U{1}c"])
    ensures ["a\U{1}b", "c"] != ["a", "b\U{1}c"]
  {
    assert ["a\U{1}b", "c"][1..] == ["c"] && ["a", "b\U{1}c"][1..] == ["b\U{1}c"];
    assert "a\U{1}b" + [SEPARATOR] + "c" == "a" + [SEPARATOR] + "b\U{1}c";
    assert ["a\U{1}b", "c"][1] == "c";
  }

  // ---------------------------------------------------------------------------------------------
  // Fingerprints

  datatype SymbolFingerprint = SymbolFingerprint(structHash: Text, tokenLen: nat, tokenBag: seq<Pair>)

  /** The fingerprint of a token stream. */
  ghost predicate IsFingerprint(sha: Text -> Text, tokens: seq<string>, fp: SymbolFingerprint) {
    && fp.structHash == StructHash(sha, tokens)
    && fp.tokenLen == |tokens|
    && IsBag(Hashes(AllUtf8(tokens)), fp.tokenBag)
  }

  method FingerprintSymbol(sha: Text -> Text, lang: Language, node: Node) returns (fp: Option<SymbolFingerprint>)
    requires |Tokens(lang, node)| < TOO_MANY
    ensures fp.None? <==> |Tokens(lang, node)| < 20
    ensures fp.Some? ==> IsFingerprint(sha, Tokens(lang, node), fp.value)
  {
    var tokens, spans := NormalizeBaselineSpanned(lang, node);
    if |tokens| < MIN_TOKENS {
      return None;
    }
    var bag := TokenBagOf(AllUtf8(tokens));
    fp := Some(SymbolFingerprint(StructHash(sha, tokens), |tokens|, bag));
  }

  /** A token stream has one fingerprint. */
  lemma FingerprintUnique(sha: Text -> Text, tokens: seq<string>, x: SymbolFingerprint, y: SymbolFingerprint)
    requires IsFingerprint(sha, tokens, x) && IsFingerprint(sha, tokens, y)
    ensures x == y
  {
    BagIsUnique(Hashes(AllUtf8(tokens)), Hashes(AllUtf8(tokens)), x.tokenBag, y.tokenBag);
  }

  /** What SHA-256 is trusted for: it tells these two inputs apart. */
  predicate Separates(sha: Text -> Text, x: Text, y: Text) {
    sha(x) == sha(y) ==> x == y
  }

  /** The struct hash decides equality of the token streams. */
  lemma StructHashDecidesTokens(sha: Text -> Text, a: seq<string>, b: seq<string>)
    requires a != [] && b != [] && Separable(a) && Separable(b)
    requires Separates(sha, Utf8(Join(a)), Utf8(Join(b)))
    ensures StructHash(sha, a) == StructHash(sha, b) <==> a == b
  {
    if StructHash(sha, a) == StructHash(sha, b) {
      Utf8Injective(Join(a), Join(b));
      SplitJoin(a);
      SplitJoin(b);
    }
  }

  /** Two symbols of one shape have one fingerprint exactly when a renaming makes them equal, and
   *  already the struct hash tells. */
  lemma FingerprintDecidesAlphaEquality(sha: Text -> Text, lang: Language, a: Node, b: Node,
                                        x: SymbolFingerprint, y: SymbolFingerprint)
    requires SameShape(a, b)
    requires |Tokens(lang, a)| >= MIN_TOKENS && IsFingerprint(sha, Tokens(lang, a), x)
    requires |Tokens(lang, b)| >= MIN_TOKENS && IsFingerprint(sha, Tokens(lang, b), y)
    requires Separable(Tokens(lang, a)) && Separable(Tokens(lang, b))
    requires Separates(sha, Utf8(Join(Tokens(lang, a))), Utf8(Join(Tokens(lang, b))))
    ensures x == y <==> exists rho :: Injective(rho) && AlphaEqual(lang, rho, a, b)
    ensures x == y <==> x.structHash == y.structHash
  {
    NormalizerDecidesAlphaEquality(lang, a, b);
    StructHashDecidesTokens(sha, Tokens(lang, a), Tokens(lang, b));
    if Tokens(lang, a) == Tokens(lang, b) {
      FingerprintUnique(sha, Tokens(lang, a), x, y);
    }
  }

  /** The stored blob of a fingerprint's bag gives back the bag and the token length. */
  lemma StoredBagHoldsTokenLen(sha: Text -> Text, tokens: seq<string>, fp: SymbolFingerprint)
    requires IsFingerprint(sha, tokens, fp) && |fp.tokenBag| < TWO32
    ensures Decoded(Encoded(fp.tokenBag)) == Some(fp.tokenBag) && TotalFreq(fp.tokenBag) == fp.tokenLen
  {
    DecodeEncode(fp.tokenBag);
    TokenLenFromBlob(AllUtf8(tokens), fp.tokenBag);
  }

  // ---------------------------------------------------------------------------------------------
  // A file's symbols

  datatype Candidate = Candidate(start: nat, end: nat, kind: string)

  predicate SymbolKindIsFingerprinted(kind: string) {
    kind in ["function", "constructor", "method"]
  }

  /** `value` is the child in the node's `value` field. */
  predicate SymbolIsFunctionValued(value: Node -> Option<Node>, n: Node) {
    && n.kind in ["variable_declarator", "public_field_definition", "property_declaration"]
    && value(n).Some?
    && value(n).value.kind in ["arrow_function", "function_expression", "lambda_literal"]
  }

  /** A parsed file: the node a byte range names, a node's `value` child, and the language. */
  datatype Parsed = Parsed(locate: (nat, nat) -> Option<Node>, value: Node -> Option<Node>, lang: Language)

  /** Found in the tree, function-shaped and not trivial. */
  predicate Fingerprinted(file: Parsed, c: Candidate) {
    var node := file.locate(c.start, c.end);
    && node.Some?
    && (|| c.kind in {"function", "constructor", "method"}
        || (&& node.value.kind in {"variable_declarator", "public_field_definition", "property_declaration"}
            && file.value(node.value).Some?
            && file.value(node.value).value.kind in {"arrow_function", "function_expression", "lambda_literal"}))
    && |Tokens(file.lang, node.value)| >= 20
  }

  type Entry = (nat, SymbolFingerprint)

  /** The entry belongs to a fingerprinted symbol and holds its fingerprint. */
  ghost predicate RightEntry(sha: Text -> Text, file: Parsed, symbols: seq<Candidate>, p: Entry) {
    && p.0 < |symbols|
    && Fingerprinted(file, symbols[p.0])
    && var c := symbols[p.0]; IsFingerprint(sha, Tokens(file.lang, file.locate(c.start, c.end).value), p.1)
  }

  ghost predicate Listed(out: seq<Entry>, i: nat) {
    exists k :: 0 <= k < |out| && out[k].0 == i
  }

  /** Exactly the fingerprinted symbols among the first `n`, in order, each with its fingerprint. */
  ghost predicate ListsFirst(sha: Text -> Text, file: Parsed, symbols: seq<Candidate>, n: nat, out: seq<Entry>)
    requires n <= |symbols|
  {
    && (forall k :: 0 <= k < |out| ==> out[k].0 < n && RightEntry(sha, file, symbols, out[k]))
    && (forall k, l :: 0 <= k < l < |out| ==> out[k].0 < out[l].0)
    && (forall i :: 0 <= i < n && Fingerprinted(file, symbols[i]) ==> Listed(out, i))
  }

  lemma ListsOneMore(sha: Text -> Text, file: Parsed, symbols: seq<Candidate>, n: nat, out: seq<Entry>, p: Entry)
    requires n < |symbols| && ListsFirst(sha, file, symbols, n, out)
    requires p.0 == n && RightEntry(sha, file, symbols, p)
    ensures ListsFirst(sha, file, symbols, n + 1, out + [p])
  {
    forall i | 0 <= i <= n && Fingerprinted(file, symbols[i])
      ensures Listed(out + [p], i)
    {
      if i == n {
        assert (out + [p])[|out|].0 == i;
      } else {
        var k :| 0 <= k < |out| && out[k].0 == i;
        assert (out + [p])[k].0 == i;
      }
    }
  }

  lemma ListsNoMore(sha: Text -> Text, file: Parsed, symbols: seq<Candidate>, n: nat, out: seq<Entry>)
    requires n < |symbols| && ListsFirst(sha, file, symbols, n, out) && !Fingerprinted(file, symbols[n])
    ensures ListsFirst(sha, file, symbols, n + 1, out)
  {
  }

  method FingerprintCandidate(sha: Text -> Text, file: Parsed, c: Candidate) returns (fp: Option<SymbolFingerprint>)
    requires file.locate(c.start, c.end).Some? ==> |Tokens(file.lang, file.locate(c.start, c.end).value)| < TOO_MANY
    ensures fp.Some? <==> Fingerprinted(file, c)
    ensures fp.Some? ==> IsFingerprint(sha, Tokens(file.lang, file.locate(c.start, c.end).value), fp.value)
  {
    var node := file.locate(c.start, c.end);
    if node.None? {
      return None;
    }
    if !SymbolKindIsFingerprinted(c.kind) && !SymbolIsFunctionValued(file.value, node.value) {
      return None;
    }
    fp := FingerprintSymbol(sha, file.lang, node.value);
  }

  method FingerprintSymbols(sha: Text -> Text, file: Parsed, symbols: seq<Candidate>) returns (out: seq<Entry>)
    requires forall i, j :: file.locate(i, j).Some? ==> |Tokens(file.lang, file.locate(i, j).value)| < TOO_MANY
    ensures ListsFirst(sha, file, symbols, |symbols|, out)
  {
    out := [];
    for i := 0 to |symbols|
      invariant ListsFirst(sha, file, symbols, i, out)
    {
      var fp := FingerprintCandidate(sha, file, symbols[i]);
      if fp.Some? {
        ListsOneMore(sha, file, symbols, i, out, (i, fp.value));
        out := out + [(i, fp.value)];
      } else {
        ListsNoMore(sha, file, symbols, i, out);
      }
    }
  }
}
