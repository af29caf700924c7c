/**
The baseline normalizer of the clone detector (`normalize.rs`): a pre-order walk of a syntax tree
that emits one token per node and numbers identifiers by first occurrence.
*/
module Normalize {
  import opened Options
  import opened Sequences

  /** A syntax tree node as the parser hands it over; a leaf has no children at all. */
  datatype Node = Node(kind: string, text: string, extra: bool, start: nat, end: nat, children: seq<Node>)

  datatype Language = Rust | TypeScript | Python | Swift | Go | Markdown | C | Cpp | Kotlin

  // ---------------------------------------------------------------------------------------------
  // Leaf grammars

  predicate EndsWith(s: string, suffix: string) {
    |suffix| <= |s| && s[|s| - |suffix|..] == suffix
  }

  predicate Contains(s: string, word: string) {
    word <= s || (s != [] && Contains(s[1..], word))
  }

  predicate OccursAt(s: string, word: string, i: nat) {
    i + |word| <= |s| && s[i..i + |word|] == word
  }

  lemma OccursInRest(s: string, word: string, i: nat)
    requires s != []
    ensures OccursAt(s[1..], word, i) <==> OccursAt(s, word, i + 1)
  {
    if i + 1 + |word| <= |s| {
      assert s[1..][i..i + |word|] == s[i + 1..i + 1 + |word|];
    }
  }

  lemma {:induction false} ContainsIff(s: string, word: string)
    ensures Contains(s, word) <==> exists i: nat :: OccursAt(s, word, i)
  {
    assert OccursAt(s, word, 0) <==> word <= s;
    if s != [] {
      ContainsIff(s[1..], word);
      if exists i: nat :: OccursAt(s[1..], word, i) {
        var i: nat :| OccursAt(s[1..], word, i);
        OccursInRest(s, word, i);
      }
      if exists i: nat :: i > 0 && OccursAt(s, word, i) {
        var i: nat :| i > 0 && OccursAt(s, word, i);
        OccursInRest(s, word, i - 1);
      }
    }
  }

  function Upper(c: char): char {
    if 'a' <= c <= 'z' then c - 'a' + 'A' else c
  }

  function ToAsciiUppercase(s: string): string {
    seq(|s|, i requires 0 <= i < |s| => Upper(s[i]))
  }

  lemma UppercaseAlphabet()
    ensures ToAsciiUppercase("abcdefghijklmnopqrstuvwxyz_") == "ABCDEFGHIJKLMNOPQRSTUVWXYZ_"
  {
  }

  predicate IsIdentifier(kind: string) {
    EndsWith(kind, "identifier")
  }

  predicate IsStringBody(kind: string) {
    kind in {"string_content", "string_fragment", "line_str_text", "multi_line_str_text", "raw_str_part",
             "raw_str_end_part", "str_escaped_char"}
  }

  predicate IsLiteral(lang: Language, kind: string) {
    || EndsWith(kind, "literal")
    || IsStringBody(kind)
    || kind in {"interpreted_string_literal_content", "raw_string_literal_content", "integer", "float", "number"}
    || ((lang.C? || lang.Cpp?) && kind == "character")
  }

  predicate IsBoolean(kind: string) {
    kind == "true" || kind == "false"
  }

  /** Kotlin lexes its literal words as identifiers. */
  function IdentifierLiteral(lang: Language, text: string): Option<string> {
    if !lang.Kotlin? then None
    else if text == "true" || text == "false" then Some("LIT_BOOL")
    else if text == "null" then Some("null")
    else None
  }

  // ---------------------------------------------------------------------------------------------
  // What each node contributes

  /** Comments and other extras leave no trace. */
  predicate Skipped(n: Node) {
    n.extra || Contains(n.kind, "comment")
  }

  datatype Symbol = Ident(name: string) | Fixed(token: string)

  function SymbolOf(lang: Language, n: Node): Symbol {
    if n.children != [] then Fixed(n.kind)
    else if IsIdentifier(n.kind) then
      match IdentifierLiteral(lang, n.text)
      case Some(token) => Fixed(token)
      case None => Ident(n.text)
    else if IsBoolean(n.kind) then Fixed("LIT_BOOL")
    else if IsLiteral(lang, n.kind) then Fixed("LIT_" + ToAsciiUppercase(n.kind))
    else Fixed(n.text)
  }

  function Symbols(lang: Language, n: Node): seq<Symbol>
    decreases n, 0
  {
    if Skipped(n) then [] else [SymbolOf(lang, n)] + SymbolsAll(lang, n.children)
  }

  function SymbolsAll(lang: Language, ns: seq<Node>): seq<Symbol>
    decreases ns, 1
  {
    if ns == [] then [] else Symbols(lang, ns[0]) + SymbolsAll(lang, ns[1..])
  }

  // ---------------------------------------------------------------------------------------------
  // Numbering by first occurrence

  type Table = map<string, nat>

  function Digit(n: nat): char
    requires n < 10
  {
    '0' + n as char
  }

  function Decimal(n: nat): (s: string)
    ensures s != []
  {
    if n < 10 then [Digit(n)] else Decimal(n / 10) + [Digit(n % 10)]
  }

  function IdToken(n: nat): string {
    "ID" + Decimal(n)
  }

  function Enter(ids: Table, s: Symbol): Table {
    if s.Ident? && s.name !in ids then ids[s.name := |ids|] else ids
  }

  function TokenFor(ids: Table, s: Symbol): string {
    match s
    case Fixed(token) => token
    case Ident(name) => IdToken(if name in ids then ids[name] else |ids|)
  }

  function Numbered(syms: seq<Symbol>, ids: Table): (tokens: seq<string>)
    ensures |tokens| == |syms|
  {
    if syms == [] then [] else [TokenFor(ids, syms[0])] + Numbered(syms[1..], Enter(ids, syms[0]))
  }

  function TableAfter(syms: seq<Symbol>, ids: Table): Table {
    if syms == [] then ids else TableAfter(syms[1..], Enter(ids, syms[0]))
  }

  lemma {:induction false} NumberedInParts(a: seq<Symbol>, b: seq<Symbol>, ids: Table)
    ensures Numbered(a + b, ids) == Numbered(a, ids) + Numbered(b, TableAfter(a, ids))
    ensures TableAfter(a + b, ids) == TableAfter(b, TableAfter(a, ids))
  {
    if a == [] {
      assert a + b == b;
    } else {
      assert (a + b)[1..] == a[1..] + b;
      NumberedInParts(a[1..], b, Enter(ids, a[0]));
    }
  }

  /** The normalized token stream of a symbol. */
  function Tokens(lang: Language, n: Node): seq<string> {
    Numbered(Symbols(lang, n), map[])
  }

  // ---------------------------------------------------------------------------------------------
  // The walk as written

  datatype Span = Span(start: nat, end: nat, kind: string, isLeaf: bool)

  function Spans(n: Node): seq<Span>
    decreases n, 0
  {
    if Skipped(n) then [] else [Span(n.start, n.end, n.kind, n.children == [])] + SpansAll(n.children)
  }

  function SpansAll(ns: seq<Node>): seq<Span>
    decreases ns, 1
  {
    if ns == [] then [] else Spans(ns[0]) + SpansAll(ns[1..])
  }

  class Walker {
    var idents: Table
    var tokens: seq<string>
    var spans: seq<Span>

    constructor ()
      ensures idents == map[] && tokens == [] && spans == []
    {
      idents, tokens, spans := map[], [], [];
    }

    method Leaf(lang: Language, n: Node) returns (token: string)
      requires n.children == []
      modifies this`idents
      ensures token == TokenFor(old(idents), SymbolOf(lang, n)) && idents == Enter(old(idents), SymbolOf(lang, n))
    {
      if IsIdentifier(n.kind) {
        match IdentifierLiteral(lang, n.text)
        case Some(literal) => token := literal;
        case None =>
          var next := |idents|;
          if n.text !in idents {
            idents := idents[n.text := next];
          }
          token := IdToken(idents[n.text]);
      } else if IsBoolean(n.kind) {
        token := "LIT_BOOL";
      } else if IsLiteral(lang, n.kind) {
        token := "LIT_" + ToAsciiUppercase(n.kind);
      } else {
        token := n.text;
      }
    }

    method Walk(lang: Language, n: Node)
      modifies this
      ensures tokens == old(tokens) + Numbered(Symbols(lang, n), old(idents))
      ensures idents == TableAfter(Symbols(lang, n), old(idents))
      ensures spans == old(spans) + Spans(n)
      decreases n, 0
    {
      if Skipped(n) {
        return;
      }
      NumberedInParts([SymbolOf(lang, n)], SymbolsAll(lang, n.children), idents);
      if n.children == [] {
        var token := Leaf(lang, n);
        tokens := tokens + [token];
        spans := spans + [Span(n.start, n.end, n.kind, true)];
      } else {
        tokens := tokens + [n.kind];
        spans := spans + [Span(n.start, n.end, n.kind, false)];
        WalkAll(lang, n.children);
      }
    }

    method WalkAll(lang: Language, ns: seq<Node>)
      modifies this
      ensures tokens == old(tokens) + Numbered(SymbolsAll(lang, ns), old(idents))
      ensures idents == TableAfter(SymbolsAll(lang, ns), old(idents))
      ensures spans == old(spans) + SpansAll(ns)
      decreases ns, 1
    {
      ghost var out := Numbered(SymbolsAll(lang, ns), idents);
      for i := 0 to |ns|
        invariant tokens + Numbered(SymbolsAll(lang, ns[i..]), idents) == old(tokens) + out
        invariant TableAfter(SymbolsAll(lang, ns[i..]), idents) == TableAfter(SymbolsAll(lang, ns), old(idents))
        invariant spans + SpansAll(ns[i..]) == old(spans) + SpansAll(ns)
      {
        assert ns[i..][0] == ns[i] && ns[i..][1..] == ns[i + 1..];
        ghost var here, more := Symbols(lang, ns[i]), SymbolsAll(lang, ns[i + 1..]);
        NumberedInParts(here, more, idents);
        Concat(tokens, Numbered(here, idents), Numbered(more, TableAfter(here, idents)));
        Concat(spans, Spans(ns[i]), SpansAll(ns[i + 1..]));
        Walk(lang, ns[i]);
      }
    }
  }

  // ---------------------------------------------------------------------------------------------
  // What the stream says of each node

  /** The nodes outside extras and whatever has `comment` in its kind, parents before children. */
  ghost function Visited(n: Node): seq<Node>
    decreases n, 0
  {
    if n.extra || exists i: nat :: OccursAt(n.kind, "comment", i) then [] else [n] + VisitedAll(n.children)
  }

  ghost function VisitedAll(ns: seq<Node>): seq<Node>
    decreases ns, 1
  {
    if ns == [] then [] else Visited(ns[0]) + VisitedAll(ns[1..])
  }

  /** Symbols that are those of the nodes. */
  ghost predicate SymbolsOf(lang: Language, nodes: seq<Node>, syms: seq<Symbol>) {
    |nodes| == |syms| && forall k :: 0 <= k < |nodes| ==> syms[k] == SymbolOf(lang, nodes[k])
  }

  ghost predicate SpansOf(nodes: seq<Node>, spans: seq<Span>) {
    && |nodes| == |spans|
    && forall k :: 0 <= k < |nodes| ==>
         spans[k] == Span(nodes[k].start, nodes[k].end, nodes[k].kind, nodes[k].children == [])
  }

  lemma {:induction false} WalkFollows(lang: Language, n: Node)
    ensures SymbolsOf(lang, Visited(n), Symbols(lang, n)) && SpansOf(Visited(n), Spans(n))
    decreases n, 0
  {
    ContainsIff(n.kind, "comment");
    WalkAllFollows(lang, n.children);
  }

  lemma {:induction false} WalkAllFollows(lang: Language, ns: seq<Node>)
    ensures SymbolsOf(lang, VisitedAll(ns), SymbolsAll(lang, ns)) && SpansOf(VisitedAll(ns), SpansAll(ns))
    decreases ns, 1
  {
    if ns != [] {
      WalkFollows(lang, ns[0]);
      WalkAllFollows(lang, ns[1..]);
    }
  }

  /** The names among the symbols. */
  function NamesIn(syms: seq<Symbol>): set<string> {
    set s | s in syms && s.Ident? :: s.name
  }

  lemma {:induction false} TableHoldsNames(syms: seq<Symbol>)
    ensures TableAfter(syms, map[]).Keys == NamesIn(syms)
    decreases |syms|
  {
    if syms != [] {
      var front, last := syms[..|syms| - 1], syms[|syms| - 1];
      assert syms == front + [last];
      TableHoldsNames(front);
      TableGrows(front, last);
      NamesGrow(front, last);
    }
  }

  lemma TableGrows(front: seq<Symbol>, last: Symbol)
    ensures TableAfter(front + [last], map[]) == Enter(TableAfter(front, map[]), last)
  {
    var ids := TableAfter(front, map[]);
    NumberedInParts(front, [last], map[]);
    assert TableAfter([last], ids) == TableAfter([], Enter(ids, last));
  }

  lemma NamesGrow(front: seq<Symbol>, last: Symbol)
    ensures NamesIn(front + [last]) == NamesIn(front) + if last.Ident? then {last.name} else {}
  {
    forall s
      ensures s in front + [last] <==> s in front || s == last
    {
    }
  }

  /** Where a name first occurs. */
  predicate NewName(syms: seq<Symbol>, j: nat) {
    j < |syms| && syms[j].Ident? && syms[j] !in syms[..j]
  }

  lemma NewNameIsNew(syms: seq<Symbol>, j: nat)
    requires NewName(syms, j)
    ensures syms[j].name !in NamesIn(syms[..j])
  {
    forall s | s in syms[..j] && s.Ident?
      ensures s.name != syms[j].name
    {
      assert s == Ident(s.name) && s != syms[j];
    }
  }

  /** A name keeps the number of names there were before it. */
  lemma {:induction false} TableNumbers(syms: seq<Symbol>, j: nat)
    requires NewName(syms, j)
    ensures syms[j].name in TableAfter(syms, map[])
    ensures TableAfter(syms, map[])[syms[j].name] == |NamesIn(syms[..j])|
    decreases |syms|
  {
    var front, last := syms[..|syms| - 1], syms[|syms| - 1];
    assert syms == front + [last];
    TableGrows(front, last);
    TableHoldsNames(front);
    if j < |front| {
      assert front[..j] == syms[..j];
      TableNumbers(front, j);
    } else {
      assert |TableAfter(front, map[])| == |TableAfter(front, map[]).Keys|;
    }
  }

  lemma TokenAt(syms: seq<Symbol>, k: nat)
    requires k < |syms|
    ensures Numbered(syms, map[])[k] == TokenFor(TableAfter(syms[..k], map[]), syms[k])
  {
    assert syms == syms[..k] + syms[k..];
    NumberedInParts(syms[..k], syms[k..], map[]);
  }

  /** A name stands in the stream as `ID` and how many other names occur before it does. */
  lemma NameAt(syms: seq<Symbol>, k: nat) returns (j: nat)
    requires k < |syms| && syms[k].Ident?
    ensures j <= k && NewName(syms, j) && syms[j] == syms[k]
    ensures Numbered(syms, map[])[k] == "ID" + Decimal(|NamesIn(syms[..j])|)
  {
    TokenAt(syms, k);
    TableHoldsNames(syms[..k]);
    if syms[k] in syms[..k] {
      j := FirstAt(syms[..k], syms[k]);
      assert syms[..k][..j] == syms[..j];
      TableNumbers(syms[..k], j);
    } else {
      j := k;
      var table := TableAfter(syms[..k], map[]);
      assert |table| == |table.Keys|;
      assert syms[k].name !in table;
    }
  }

  lemma {:induction false} FirstAt(syms: seq<Symbol>, s: Symbol) returns (j: nat)
    requires s in syms
    ensures j < |syms| && syms[j] == s && s !in syms[..j]
    decreases |syms|
  {
    var front := syms[..|syms| - 1];
    if s in front {
      j := FirstAt(front, s);
      assert front[..j] == syms[..j];
    } else {
      j := |syms| - 1;
    }
  }

  /** A leaf that is numbered: an identifier, but none of Kotlin's literal words. */
  predicate IsName(lang: Language, n: Node) {
    n.children == [] && EndsWith(n.kind, "identifier") && !(lang.Kotlin? && n.text in {"true", "false", "null"})
  }

  /** The names of the leaves. */
  function NamesOf(lang: Language, nodes: seq<Node>): set<string> {
    set n | n in nodes && IsName(lang, n) :: n.text
  }

  /** No leaf before `j` has the name of the leaf there. */
  predicate FirstNamed(lang: Language, nodes: seq<Node>, j: nat) {
    j < |nodes| && IsName(lang, nodes[j]) && nodes[j].text !in NamesOf(lang, nodes[..j])
  }

  /** The token of a leaf with a name: numbered by the names that occur before this one does. */
  ghost predicate NameReads(lang: Language, nodes: seq<Node>, k: nat, token: string)
    requires k < |nodes|
  {
    exists j: nat :: j <= k && FirstNamed(lang, nodes, j) && nodes[j].text == nodes[k].text
                     && token == "ID" + Decimal(|NamesOf(lang, nodes[..j])|)
  }

  const LITERAL_KINDS := {
    "integer", "float", "number", "string_content", "string_fragment", "line_str_text", "multi_line_str_text",
    "raw_str_part", "raw_str_end_part", "str_escaped_char", "interpreted_string_literal_content",
    "raw_string_literal_content"}

  /** The token of any other node. */
  predicate OtherReads(lang: Language, n: Node, token: string) {
    if n.children != [] then token == n.kind
    else if n.kind in {"true", "false"} then token == "LIT_BOOL"
    else if EndsWith(n.kind, "identifier") then token == if n.text == "null" then "null" else "LIT_BOOL"
    else if || EndsWith(n.kind, "literal") || n.kind in LITERAL_KINDS
            || (n.kind == "character" && (lang == C || lang == Cpp))
    then token == "LIT_" + ToAsciiUppercase(n.kind)
    else token == n.text
  }

  lemma SymbolNameIsNodes(lang: Language, nodes: seq<Node>, syms: seq<Symbol>, name: string)
    requires SymbolsOf(lang, nodes, syms) && name in NamesIn(syms)
    ensures name in NamesOf(lang, nodes)
  {
    var i :| 0 <= i < |syms| && syms[i] == Ident(name);
    assert IsName(lang, nodes[i]);
  }

  lemma NodeNameIsSymbols(lang: Language, nodes: seq<Node>, syms: seq<Symbol>, name: string)
    requires SymbolsOf(lang, nodes, syms) && name in NamesOf(lang, nodes)
    ensures name in NamesIn(syms)
  {
    var i :| 0 <= i < |nodes| && IsName(lang, nodes[i]) && nodes[i].text == name;
    assert syms[i] == Ident(name);
  }

  lemma NamesAgree(lang: Language, nodes: seq<Node>, syms: seq<Symbol>)
    requires SymbolsOf(lang, nodes, syms)
    ensures NamesIn(syms) == NamesOf(lang, nodes)
  {
    forall name | name in NamesIn(syms)
      ensures name in NamesOf(lang, nodes)
    {
      SymbolNameIsNodes(lang, nodes, syms, name);
    }
    forall name | name in NamesOf(lang, nodes)
      ensures name in NamesIn(syms)
    {
      NodeNameIsSymbols(lang, nodes, syms, name);
    }
  }

  lemma NamesAgreeBefore(lang: Language, nodes: seq<Node>, syms: seq<Symbol>, j: nat)
    requires SymbolsOf(lang, nodes, syms) && j <= |nodes|
    ensures NamesIn(syms[..j]) == NamesOf(lang, nodes[..j])
  {
    NamesAgree(lang, nodes[..j], syms[..j]);
  }

  lemma IdentIsName(lang: Language, n: Node)
    ensures SymbolOf(lang, n).Ident? <==> IsName(lang, n)
    ensures IsName(lang, n) ==> SymbolOf(lang, n) == Ident(n.text)
  {
  }

  lemma {:induction false} NewNameIsFirst(lang: Language, nodes: seq<Node>, syms: seq<Symbol>, j: nat)
    requires SymbolsOf(lang, nodes, syms) && NewName(syms, j)
    ensures FirstNamed(lang, nodes, j) && nodes[j].text == syms[j].name
  {
    IdentIsName(lang, nodes[j]);
    NamesAgreeBefore(lang, nodes, syms, j);
    NewNameIsNew(syms, j);
  }

  lemma {:induction false} NamesRead(lang: Language, nodes: seq<Node>, syms: seq<Symbol>, k: nat)
    requires SymbolsOf(lang, nodes, syms) && k < |nodes| && IsName(lang, nodes[k])
    ensures NameReads(lang, nodes, k, Numbered(syms, map[])[k])
  {
    IdentIsName(lang, nodes[k]);
    var j := NameAt(syms, k);
    NewNameIsFirst(lang, nodes, syms, j);
    NamesAgreeBefore(lang, nodes, syms, j);
  }

  lemma {:induction false} OthersRead(lang: Language, nodes: seq<Node>, syms: seq<Symbol>, k: nat)
    requires SymbolsOf(lang, nodes, syms) && k < |nodes| && !IsName(lang, nodes[k])
    ensures OtherReads(lang, nodes[k], Numbered(syms, map[])[k])
  {
    TokenAt(syms, k);
  }

  /** `normalize_baseline_spanned`: a token and a span for every node the walk stops at. */
  method NormalizeBaselineSpanned(lang: Language, n: Node) returns (tokens: seq<string>, spans: seq<Span>)
    ensures tokens == Tokens(lang, n) && spans == Spans(n)
    ensures |tokens| == |Visited(n)| && SpansOf(Visited(n), spans)
    ensures forall k :: 0 <= k < |tokens| && IsName(lang, Visited(n)[k]) ==>
      NameReads(lang, Visited(n), k, tokens[k])
    ensures forall k :: 0 <= k < |tokens| && !IsName(lang, Visited(n)[k]) ==>
      OtherReads(lang, Visited(n)[k], tokens[k])
  {
    var w := new Walker();
    w.Walk(lang, n);
    tokens, spans := w.tokens, w.spans;
    WalkFollows(lang, n);
    forall k | 0 <= k < |tokens| && IsName(lang, Visited(n)[k])
      ensures NameReads(lang, Visited(n), k, tokens[k])
    {
      NamesRead(lang, Visited(n), Symbols(lang, n), k);
    }
    forall k | 0 <= k < |tokens| && !IsName(lang, Visited(n)[k])
      ensures OtherReads(lang, Visited(n)[k], tokens[k])
    {
      OthersRead(lang, Visited(n), Symbols(lang, n), k);
    }
  }
}
