/** The normalizer decides equality of syntax trees up to renaming and literal values. */
module AlphaEquivalence {
  import opened Normalize

  // ---------------------------------------------------------------------------------------------
  // Identifier tokens are unambiguous

  function Undecimal(s: string): int {
    if s == [] then 0 else Undecimal(s[..|s| - 1]) * 10 + (s[|s| - 1] as int - '0' as int)
  }

  lemma {:induction false} DecimalRoundTrip(n: nat)
    ensures Undecimal(Decimal(n)) == n
  {
    var s := Decimal(n);
    if n >= 10 {
      DecimalRoundTrip(n / 10);
      assert s[..|s| - 1] == Decimal(n / 10);
    } else {
      assert s[..|s| - 1] == [];
    }
  }

  lemma IdTokenInjective(m: nat, n: nat)
    requires IdToken(m) == IdToken(n)
    ensures m == n
  {
    assert IdToken(m)[2..] == Decimal(m) && IdToken(n)[2..] == Decimal(n);
    DecimalRoundTrip(m);
    DecimalRoundTrip(n);
  }

  // ---------------------------------------------------------------------------------------------
  // On symbol streams

  type Renaming = map<string, string>

  ghost predicate Injective(rho: Renaming) {
    forall x, y :: x in rho && y in rho && rho[x] == rho[y] ==> x == y
  }

  /** The same symbol up to the renaming. */
  predicate Renames(rho: Renaming, a: Symbol, b: Symbol) {
    match (a, b)
    case (Ident(x), Ident(y)) => x in rho && rho[x] == y
    case (Fixed(s), Fixed(t)) => s == t
    case _ => false
  }

  ghost predicate AllRename(rho: Renaming, a: seq<Symbol>, b: seq<Symbol>) {
    |a| == |b| && forall i :: 0 <= i < |a| ==> Renames(rho, a[i], b[i])
  }

  /** The two tables number corresponding names alike. */
  ghost predicate Linked(rho: Renaming, ids: Table, ids': Table) {
    && |ids| == |ids'|
    && (forall x :: x in ids ==> x in rho && rho[x] in ids' && ids'[rho[x]] == ids[x])
    && (forall y :: y in ids' ==> IsImage(rho, ids, y))
  }

  ghost predicate IsImage(rho: Renaming, ids: Table, y: string) {
    exists x :: x in ids && x in rho && rho[x] == y
  }

  lemma OneMore(ids: Table, x: string)
    requires x !in ids
    ensures |ids[x := |ids|]| == |ids| + 1
  {
    assert ids[x := |ids|].Keys == ids.Keys + {x};
  }

  /** A fresh pair of names keeps the tables linked. */
  lemma LinkMore(rho: Renaming, rho': Renaming, ids: Table, ids': Table, x: string, y: string)
    requires Linked(rho, ids, ids') && x !in ids && y !in ids'
    requires forall z :: z in ids ==> z in rho' && rho'[z] == rho[z]
    requires x in rho' && rho'[x] == y
    ensures Linked(rho', ids[x := |ids|], ids'[y := |ids'|])
  {
    var after, after' := ids[x := |ids|], ids'[y := |ids'|];
    OneMore(ids, x);
    OneMore(ids', y);
    forall z | z in after
      ensures z in rho' && rho'[z] in after' && after'[rho'[z]] == after[z]
    {
      if z != x { assert z in ids && rho[z] in ids'; }
    }
    forall w | w in after'
      ensures IsImage(rho', after, w)
    {
      if w == y {
        assert x in after;
      } else {
        assert IsImage(rho, ids, w);
        var z :| z in ids && z in rho && rho[z] == w;
        assert z in after && z in rho' && rho'[z] == w;
      }
    }
  }

  lemma SameMembership(rho: Renaming, ids: Table, ids': Table, x: string)
    requires Injective(rho) && Linked(rho, ids, ids') && x in rho
    ensures x in ids <==> rho[x] in ids'
  {
    if rho[x] in ids' {
      assert IsImage(rho, ids, rho[x]);
      var z :| z in ids && z in rho && rho[z] == rho[x];
    }
  }

  lemma EnterKeepsLink(rho: Renaming, ids: Table, ids': Table, a: Symbol, b: Symbol)
    requires Injective(rho) && Linked(rho, ids, ids') && Renames(rho, a, b)
    ensures TokenFor(ids, a) == TokenFor(ids', b)
    ensures Linked(rho, Enter(ids, a), Enter(ids', b))
  {
    if a.Ident? {
      SameMembership(rho, ids, ids', a.name);
      if a.name !in ids {
        LinkMore(rho, rho, ids, ids', a.name, b.name);
      }
    }
  }

  lemma {:induction false} RenamedNumberAlike(rho: Renaming, a: seq<Symbol>, b: seq<Symbol>, ids: Table, ids': Table)
    requires Injective(rho) && Linked(rho, ids, ids') && AllRename(rho, a, b)
    ensures Numbered(a, ids) == Numbered(b, ids')
  {
    if a != [] {
      EnterKeepsLink(rho, ids, ids', a[0], b[0]);
      assert AllRename(rho, a[1..], b[1..]) by {
        forall i | 0 <= i < |a[1..]|
          ensures Renames(rho, a[1..][i], b[1..][i])
        {
          assert Renames(rho, a[i + 1], b[i + 1]);
        }
      }
      RenamedNumberAlike(rho, a[1..], b[1..], Enter(ids, a[0]), Enter(ids', b[0]));
    }
  }

  /** A token no identifier can have. */
  predicate NotAnId(token: string) {
    token != [] && token[0] != 'I'
  }

  /** Wherever only one of the streams has an identifier, the other's token tells. */
  predicate Tells(a: Symbol, b: Symbol) {
    && (a.Ident? && b.Fixed? ==> NotAnId(b.token))
    && (a.Fixed? && b.Ident? ==> NotAnId(a.token))
  }

  ghost predicate AllTell(a: seq<Symbol>, b: seq<Symbol>) {
    |a| == |b| && forall i :: 0 <= i < |a| ==> Tells(a[i], b[i])
  }

  /** Distinct names have distinct numbers below the table's size. */
  ghost predicate Compact(ids: Table) {
    && (forall x :: x in ids ==> ids[x] < |ids|)
    && forall x, y :: x in ids && y in ids && ids[x] == ids[y] ==> x == y
  }

  lemma EnterStaysCompact(ids: Table, s: Symbol)
    requires Compact(ids)
    ensures Compact(Enter(ids, s))
  {
    if s.Ident? && s.name !in ids {
      assert ids[s.name := |ids|].Keys == ids.Keys + {s.name};
    }
  }

  /** One position: equal tokens extend the renaming found so far. */
  lemma EqualTokensLink(rho: Renaming, ids: Table, ids': Table, a: Symbol, b: Symbol) returns (rho': Renaming)
    requires Compact(ids) && Compact(ids') && Linked(rho, ids, ids') && rho.Keys == ids.Keys
    requires Tells(a, b) && TokenFor(ids, a) == TokenFor(ids', b)
    ensures Renames(rho', a, b) && Linked(rho', Enter(ids, a), Enter(ids', b)) && rho'.Keys == Enter(ids, a).Keys
    ensures forall x :: x in rho ==> x in rho' && rho'[x] == rho[x]
  {
    rho' := rho;
    if a.Ident? && b.Ident? {
      var m, n := if a.name in ids then ids[a.name] else |ids|, if b.name in ids' then ids'[b.name] else |ids'|;
      IdTokenInjective(m, n);
      if a.name in ids {
        assert b.name in ids' && ids'[rho[a.name]] == ids'[b.name];
      } else {
        assert b.name !in ids';
        rho' := rho[a.name := b.name];
        LinkMore(rho, rho', ids, ids', a.name, b.name);
      }
    }
  }

  lemma NumberedHead(a: seq<Symbol>, ids: Table)
    requires a != []
    ensures Numbered(a, ids)[0] == TokenFor(ids, a[0])
    ensures Numbered(a, ids)[1..] == Numbered(a[1..], Enter(ids, a[0]))
  {
  }

  lemma AllTellTail(a: seq<Symbol>, b: seq<Symbol>)
    requires AllTell(a, b) && a != []
    ensures Tells(a[0], b[0]) && AllTell(a[1..], b[1..])
  {
    assert forall i :: 0 <= i < |a[1..]| ==> a[1..][i] == a[i + 1] && b[1..][i] == b[i + 1];
  }

  lemma AllRenameCons(rho: Renaming, a: seq<Symbol>, b: seq<Symbol>)
    requires a != [] && b != [] && Renames(rho, a[0], b[0]) && AllRename(rho, a[1..], b[1..])
    ensures AllRename(rho, a, b)
  {
    forall i | 0 <= i < |a|
      ensures Renames(rho, a[i], b[i])
    {
      if i > 0 { assert Renames(rho, a[1..][i - 1], b[1..][i - 1]); }
    }
  }

  lemma {:induction false} AlikeNumberedRename(a: seq<Symbol>, b: seq<Symbol>, ids: Table, ids': Table, rho: Renaming)
    returns (rho': Renaming)
    requires Compact(ids) && Compact(ids') && Linked(rho, ids, ids') && rho.Keys == ids.Keys
    requires AllTell(a, b) && Numbered(a, ids) == Numbered(b, ids')
    ensures AllRename(rho', a, b) && Injective(rho')
    ensures forall x :: x in rho ==> x in rho' && rho'[x] == rho[x]
  {
    if a == [] {
      rho' := rho;
    } else {
      NumberedHead(a, ids);
      NumberedHead(b, ids');
      AllTellTail(a, b);
      var step := EqualTokensLink(rho, ids, ids', a[0], b[0]);
      EnterStaysCompact(ids, a[0]);
      EnterStaysCompact(ids', b[0]);
      rho' := AlikeNumberedRename(a[1..], b[1..], Enter(ids, a[0]), Enter(ids', b[0]), step);
      RenamesOn(step, rho', a[0], b[0]);
      AllRenameCons(rho', a, b);
    }
  }

  /** A renaming that says more still relates what it related. */
  lemma RenamesOn(rho: Renaming, rho': Renaming, a: Symbol, b: Symbol)
    requires Renames(rho, a, b) && forall x :: x in rho ==> x in rho' && rho'[x] == rho[x]
    ensures Renames(rho', a, b)
  {
  }

  // ---------------------------------------------------------------------------------------------
  // On syntax trees

  /** Two nodes of one kind, both leaves or both inner nodes; the two boolean leaves count as one kind. */
  predicate SameHead(a: Node, b: Node) {
    && (a.children == [] <==> b.children == [])
    && (a.kind == b.kind || (a.children == [] && IsBoolean(a.kind) && IsBoolean(b.kind)))
  }

  /** The same tree of kinds; identifiers, literals and texts may differ, and so may comments and
   *  other extras, in number and place. */
  ghost predicate SameShape(a: Node, b: Node)
    decreases a, 0
  {
    if Skipped(a) || Skipped(b) then Skipped(a) && Skipped(b)
    else SameHead(a, b) && SameShapes(a.children, b.children)
  }

  ghost predicate SameShapes(a: seq<Node>, b: seq<Node>)
    decreases a, 1 + |b|
  {
    if a != [] && Skipped(a[0]) then SameShapes(a[1..], b)
    else if b != [] && Skipped(b[0]) then SameShapes(a, b[1..])
    else if a == [] || b == [] then a == [] && b == []
    else SameShape(a[0], b[0]) && SameShapes(a[1..], b[1..])
  }

  /** The words of a language that its grammar calls identifiers although they are literals. */
  predicate LiteralWord(lang: Language, text: string) {
    lang.Kotlin? && text in {"true", "false", "null"}
  }

  /** Two leaves of one kind that mean the same: identifiers up to the renaming, literals whatever
   *  their value, anything else as it is spelled. */
  predicate LeafAlike(lang: Language, rho: Renaming, a: Node, b: Node) {
    if IsIdentifier(a.kind) then
      if LiteralWord(lang, a.text) || LiteralWord(lang, b.text)
      then LiteralWord(lang, a.text) && LiteralWord(lang, b.text) && (a.text == "null" <==> b.text == "null")
      else a.text in rho && rho[a.text] == b.text
    else IsBoolean(a.kind) || IsLiteral(lang, a.kind) || a.text == b.text
  }

  /** Equal up to the identifier renaming `rho`, literal values, and comments and other extras. */
  ghost predicate AlphaEqual(lang: Language, rho: Renaming, a: Node, b: Node)
    decreases a, 0
  {
    if Skipped(a) || Skipped(b) then Skipped(a) && Skipped(b)
    else
      && SameHead(a, b)
      && (a.children == [] ==> LeafAlike(lang, rho, a, b))
      && AlphaEquals(lang, rho, a.children, b.children)
  }

  ghost predicate AlphaEquals(lang: Language, rho: Renaming, a: seq<Node>, b: seq<Node>)
    decreases a, 1 + |b|
  {
    if a != [] && Skipped(a[0]) then AlphaEquals(lang, rho, a[1..], b)
    else if b != [] && Skipped(b[0]) then AlphaEquals(lang, rho, a, b[1..])
    else if a == [] || b == [] then a == [] && b == []
    else AlphaEqual(lang, rho, a[0], b[0]) && AlphaEquals(lang, rho, a[1..], b[1..])
  }

  /** What the normalizer makes of two nodes of one kind agrees exactly when they are alike. */
  lemma AlikeIffSymbolsRename(lang: Language, rho: Renaming, a: Node, b: Node)
    requires SameHead(a, b)
    ensures (a.children == [] ==> LeafAlike(lang, rho, a, b)) <==> Renames(rho, SymbolOf(lang, a), SymbolOf(lang, b))
  {
  }

  lemma SkipFirst(lang: Language, ns: seq<Node>)
    requires ns != [] && Skipped(ns[0])
    ensures SymbolsAll(lang, ns) == SymbolsAll(lang, ns[1..])
  {
  }

  lemma AllRenameOne(rho: Renaming, x: Symbol, y: Symbol)
    ensures AllRename(rho, [x], [y]) <==> Renames(rho, x, y)
  {
    var a, b := [x], [y];
    if AllRename(rho, a, b) { assert Renames(rho, a[0], b[0]); }
  }

  lemma AllRenameInParts(rho: Renaming, a: seq<Symbol>, a': seq<Symbol>, b: seq<Symbol>, b': seq<Symbol>)
    requires |a| == |b|
    ensures AllRename(rho, a + a', b + b') <==> AllRename(rho, a, b) && AllRename(rho, a', b')
  {
    var x, y := a + a', b + b';
    if AllRename(rho, x, y) {
      forall i | 0 <= i < |a|
        ensures Renames(rho, a[i], b[i])
      {
        assert x[i] == a[i] && y[i] == b[i];
      }
      forall i | 0 <= i < |a'|
        ensures Renames(rho, a'[i], b'[i])
      {
        assert x[|a| + i] == a'[i] && y[|a| + i] == b'[i];
      }
    }
  }

  lemma {:induction false} ShapeFixesLength(lang: Language, a: Node, b: Node)
    requires SameShape(a, b)
    ensures |Symbols(lang, a)| == |Symbols(lang, b)|
    decreases a, 0
  {
    if !Skipped(a) { ShapesFixLength(lang, a.children, b.children); }
  }

  lemma {:induction false} ShapesFixLength(lang: Language, a: seq<Node>, b: seq<Node>)
    requires SameShapes(a, b)
    ensures |SymbolsAll(lang, a)| == |SymbolsAll(lang, b)|
    decreases a, 1 + |b|
  {
    if a != [] && Skipped(a[0]) {
      ShapesFixLength(lang, a[1..], b);
    } else if b != [] && Skipped(b[0]) {
      ShapesFixLength(lang, a, b[1..]);
    } else if a != [] {
      ShapeFixesLength(lang, a[0], b[0]);
      ShapesFixLength(lang, a[1..], b[1..]);
    }
  }

  /** On trees of one shape, alpha-equality is a position-by-position matter. */
  lemma {:induction false} AlphaIffSymbolsRename(lang: Language, rho: Renaming, a: Node, b: Node)
    requires SameShape(a, b)
    ensures AlphaEqual(lang, rho, a, b) <==> AllRename(rho, Symbols(lang, a), Symbols(lang, b))
    decreases a, 0
  {
    if !Skipped(a) {
      AlikeIffSymbolsRename(lang, rho, a, b);
      AlphasIffSymbolsRename(lang, rho, a.children, b.children);
      AllRenameInParts(rho, [SymbolOf(lang, a)], SymbolsAll(lang, a.children),
                       [SymbolOf(lang, b)], SymbolsAll(lang, b.children));
      AllRenameOne(rho, SymbolOf(lang, a), SymbolOf(lang, b));
    }
  }

  lemma {:induction false} AlphasIffSymbolsRename(lang: Language, rho: Renaming, a: seq<Node>, b: seq<Node>)
    requires SameShapes(a, b)
    ensures AlphaEquals(lang, rho, a, b) <==> AllRename(rho, SymbolsAll(lang, a), SymbolsAll(lang, b))
    decreases a, 1 + |b|
  {
    if a != [] && Skipped(a[0]) {
      SkipFirst(lang, a);
      AlphasIffSymbolsRename(lang, rho, a[1..], b);
    } else if b != [] && Skipped(b[0]) {
      SkipFirst(lang, b);
      AlphasIffSymbolsRename(lang, rho, a, b[1..]);
    } else if a != [] {
      ShapeFixesLength(lang, a[0], b[0]);
      AlphaIffSymbolsRename(lang, rho, a[0], b[0]);
      AlphasIffSymbolsRename(lang, rho, a[1..], b[1..]);
      AllRenameInParts(rho, Symbols(lang, a[0]), SymbolsAll(lang, a[1..]),
                       Symbols(lang, b[0]), SymbolsAll(lang, b[1..]));
    }
  }

  lemma {:induction false} AlphaEqualHasShape(lang: Language, rho: Renaming, a: Node, b: Node)
    requires AlphaEqual(lang, rho, a, b)
    ensures SameShape(a, b)
    decreases a, 0
  {
    if !Skipped(a) { AlphaEqualsHaveShape(lang, rho, a.children, b.children); }
  }

  lemma {:induction false} AlphaEqualsHaveShape(lang: Language, rho: Renaming, a: seq<Node>, b: seq<Node>)
    requires AlphaEquals(lang, rho, a, b)
    ensures SameShapes(a, b)
    decreases a, 1 + |b|
  {
    if a != [] && Skipped(a[0]) {
      AlphaEqualsHaveShape(lang, rho, a[1..], b);
    } else if b != [] && Skipped(b[0]) {
      AlphaEqualsHaveShape(lang, rho, a, b[1..]);
    } else if a != [] {
      AlphaEqualHasShape(lang, rho, a[0], b[0]);
      AlphaEqualsHaveShape(lang, rho, a[1..], b[1..]);
    }
  }

  /** Only a grammar's literal words are fixed tokens at an identifier leaf, and those tell. */
  lemma HeadsTell(lang: Language, a: Node, b: Node)
    requires SameHead(a, b)
    ensures Tells(SymbolOf(lang, a), SymbolOf(lang, b))
  {
  }

  lemma AllTellInParts(a: seq<Symbol>, a': seq<Symbol>, b: seq<Symbol>, b': seq<Symbol>)
    requires AllTell(a, b) && AllTell(a', b')
    ensures AllTell(a + a', b + b')
  {
  }

  lemma {:induction false} ShapeTells(lang: Language, a: Node, b: Node)
    requires SameShape(a, b)
    ensures AllTell(Symbols(lang, a), Symbols(lang, b))
    decreases a, 0
  {
    if !Skipped(a) {
      HeadsTell(lang, a, b);
      ShapesTell(lang, a.children, b.children);
      AllTellInParts([SymbolOf(lang, a)], SymbolsAll(lang, a.children),
                     [SymbolOf(lang, b)], SymbolsAll(lang, b.children));
    }
  }

  lemma {:induction false} ShapesTell(lang: Language, a: seq<Node>, b: seq<Node>)
    requires SameShapes(a, b)
    ensures AllTell(SymbolsAll(lang, a), SymbolsAll(lang, b))
    decreases a, 1 + |b|
  {
    if a != [] && Skipped(a[0]) {
      SkipFirst(lang, a);
      ShapesTell(lang, a[1..], b);
    } else if b != [] && Skipped(b[0]) {
      SkipFirst(lang, b);
      ShapesTell(lang, a, b[1..]);
    } else if a != [] {
      ShapeTells(lang, a[0], b[0]);
      ShapesTell(lang, a[1..], b[1..]);
      AllTellInParts(Symbols(lang, a[0]), SymbolsAll(lang, a[1..]), Symbols(lang, b[0]), SymbolsAll(lang, b[1..]));
    }
  }

  /** Alpha-equal trees have the same normalized stream. */
  lemma AlphaEqualNormalizeAlike(lang: Language, rho: Renaming, a: Node, b: Node)
    requires Injective(rho) && AlphaEqual(lang, rho, a, b)
    ensures Tokens(lang, a) == Tokens(lang, b)
  {
    AlphaEqualHasShape(lang, rho, a, b);
    AlphaIffSymbolsRename(lang, rho, a, b);
    RenamedNumberAlike(rho, Symbols(lang, a), Symbols(lang, b), map[], map[]);
  }

  /** Trees of one shape have the same normalized stream exactly when they are alpha-equal. */
  lemma NormalizerDecidesAlphaEquality(lang: Language, a: Node, b: Node)
    requires SameShape(a, b)
    ensures Tokens(lang, a) == Tokens(lang, b) <==> exists rho :: Injective(rho) && AlphaEqual(lang, rho, a, b)
  {
    if Tokens(lang, a) == Tokens(lang, b) {
      ShapeTells(lang, a, b);
      var rho := AlikeNumberedRename(Symbols(lang, a), Symbols(lang, b), map[], map[], map[]);
      AlphaIffSymbolsRename(lang, rho, a, b);
    }
    if rho :| Injective(rho) && AlphaEqual(lang, rho, a, b) {
      AlphaEqualNormalizeAlike(lang, rho, a, b);
    }
  }

  /** A node over `children`; its text and place do not matter to what follows. */
  function Inner(kind: string, children: seq<Node>): Node {
    Node(kind, [], false, 0, 0, children)
  }

  lemma InnerSymbols(lang: Language, kind: string, children: seq<Node>)
    requires !Contains(kind, "comment") && children != []
    ensures Symbols(lang, Inner(kind, children)) == [Fixed(kind)] + SymbolsAll(lang, children)
  {
  }

  lemma OneChild(lang: Language, n: Node)
    ensures SymbolsAll(lang, [n]) == Symbols(lang, n)
  {
    assert [n][1..] == [];
  }

  lemma TwoChildren(lang: Language, m: Node, n: Node)
    ensures SymbolsAll(lang, [m, n]) == Symbols(lang, m) + Symbols(lang, n)
  {
    assert [m, n][1..] == [n];
    OneChild(lang, n);
  }

  /** The stream forgets where an inner node ends: `a(b(c), d)` and `a(b(c, d))` have one stream and no
   *  common shape, whatever the leaves. */
  lemma NestingCollides(lang: Language, outer: string, inner: string, c: Node, d: Node)
    requires !Contains(outer, "comment") && !Contains(inner, "comment")
    requires !Skipped(c) && !Skipped(d)
    ensures var flat, deep := Inner(outer, [Inner(inner, [c]), d]), Inner(outer, [Inner(inner, [c, d])]);
            Tokens(lang, flat) == Tokens(lang, deep) && !SameShape(flat, deep)
  {
    var b, b' := Inner(inner, [c]), Inner(inner, [c, d]);
    NestingSymbols(lang, outer, inner, c, d);
    assert [c][1..] == [] && [c, d][1..] == [d];
    assert !SameShapes([], [d]);
    assert !SameShapes([c], [c, d]);
    assert !SameShape(b, b');
  }

  lemma NestingSymbols(lang: Language, outer: string, inner: string, c: Node, d: Node)
    requires !Contains(outer, "comment") && !Contains(inner, "comment")
    ensures Symbols(lang, Inner(outer, [Inner(inner, [c]), d])) == Symbols(lang, Inner(outer, [Inner(inner, [c, d])]))
  {
    var b, b' := Inner(inner, [c]), Inner(inner, [c, d]);
    InnerSymbols(lang, outer, [b, d]);
    InnerSymbols(lang, outer, [b']);
    TwoChildren(lang, b, d);
    OneChild(lang, b');
    InnerSymbols(lang, inner, [c]);
    InnerSymbols(lang, inner, [c, d]);
    TwoChildren(lang, c, d);
    OneChild(lang, c);
  }

  // ---------------------------------------------------------------------------------------------
  // Comments and other extras

  /** `n` without the subtrees `drop` picks, each inner node's text as `retext` has it afterwards. */
  function Strip(drop: Node -> bool, retext: Node -> string, n: Node): (r: Node)
    ensures r.kind == n.kind && r.extra == n.extra
    decreases n, 0
  {
    if n.children == [] then n
    else n.(text := retext(n), children := StripAll(drop, retext, n.children))
  }

  function StripAll(drop: Node -> bool, retext: Node -> string, ns: seq<Node>): seq<Node>
    decreases ns, 1
  {
    if ns == [] then []
    else (if drop(ns[0]) then [] else [Strip(drop, retext, ns[0])]) + StripAll(drop, retext, ns[1..])
  }

  /** `n` does not lose its last child, or reads the same as a leaf; and so does every node under it. */
  predicate Unbared(lang: Language, drop: Node -> bool, retext: Node -> string, n: Node)
    decreases n, 0
  {
    || Skipped(n)
    || (&& (n.children != [] && StripAll(drop, retext, n.children) == []
            ==> SymbolOf(lang, Strip(drop, retext, n)) == Fixed(n.kind))
        && UnbaredAll(lang, drop, retext, n.children))
  }

  predicate UnbaredAll(lang: Language, drop: Node -> bool, retext: Node -> string, ns: seq<Node>)
    decreases ns, 1
  {
    ns != [] ==> Unbared(lang, drop, retext, ns[0]) && UnbaredAll(lang, drop, retext, ns[1..])
  }

  /** No grammar names an inner node the way identifiers are numbered. */
  predicate KindsAreNotIds(n: Node)
    decreases n, 0
  {
    (n.children != [] ==> NotAnId(n.kind)) && AllKindsAreNotIds(n.children)
  }

  predicate AllKindsAreNotIds(ns: seq<Node>)
    decreases ns, 1
  {
    ns != [] ==> KindsAreNotIds(ns[0]) && AllKindsAreNotIds(ns[1..])
  }

  ghost predicate OnlySkipped(drop: Node -> bool) {
    forall n :: drop(n) ==> Skipped(n)
  }

  /** Symbol by symbol the same, or a kind against something else. */
  ghost predicate KindsAgainst(a: seq<Symbol>, b: seq<Symbol>) {
    && |a| == |b|
    && forall i :: 0 <= i < |a| ==> a[i] == b[i] || (a[i].Fixed? && NotAnId(a[i].token))
  }

  lemma {:induction false} SameTokensSameSymbols(a: seq<Symbol>, b: seq<Symbol>, ids: Table)
    requires KindsAgainst(a, b) && Numbered(a, ids) == Numbered(b, ids)
    ensures a == b
    decreases |a|
  {
    if a != [] {
      assert Numbered(a, ids)[0] == TokenFor(ids, a[0]) && Numbered(b, ids)[0] == TokenFor(ids, b[0]);
      assert Numbered(a, ids)[1..] == Numbered(a[1..], Enter(ids, a[0]));
      assert Numbered(b, ids)[1..] == Numbered(b[1..], Enter(ids, b[0]));
      assert a[0] == b[0];
      SameTokensSameSymbols(a[1..], b[1..], Enter(ids, a[0]));
      assert a == [a[0]] + a[1..] && b == [b[0]] + b[1..];
    }
  }

  lemma {:induction false} StripSymbols(lang: Language, drop: Node -> bool, retext: Node -> string, n: Node)
    requires OnlySkipped(drop)
    ensures |Symbols(lang, n)| == |Symbols(lang, Strip(drop, retext, n))|
    ensures Symbols(lang, n) == Symbols(lang, Strip(drop, retext, n)) <==> Unbared(lang, drop, retext, n)
    decreases n, 0
  {
    if !Skipped(n) && n.children != [] {
      var r := Strip(drop, retext, n);
      StripAllSymbols(lang, drop, retext, n.children);
      assert Symbols(lang, n)[1..] == SymbolsAll(lang, n.children);
      assert Symbols(lang, r)[1..] == SymbolsAll(lang, r.children);
    }
  }

  lemma {:induction false} StripAllSymbols(lang: Language, drop: Node -> bool, retext: Node -> string, ns: seq<Node>)
    requires OnlySkipped(drop)
    ensures |SymbolsAll(lang, ns)| == |SymbolsAll(lang, StripAll(drop, retext, ns))|
    ensures SymbolsAll(lang, ns) == SymbolsAll(lang, StripAll(drop, retext, ns)) <==> UnbaredAll(lang, drop, retext, ns)
    decreases ns, 1
  {
    if ns != [] {
      StripAllSymbols(lang, drop, retext, ns[1..]);
      StripSymbols(lang, drop, retext, ns[0]);
      var a, b := Symbols(lang, ns[0]), Symbols(lang, Strip(drop, retext, ns[0]));
      var a', b' := SymbolsAll(lang, ns[1..]), SymbolsAll(lang, StripAll(drop, retext, ns[1..]));
      StripFirst(lang, drop, retext, ns);
      EqualInParts(a, b, a', b');
    }
  }

  lemma {:induction false} StripKinds(lang: Language, drop: Node -> bool, retext: Node -> string, n: Node)
    requires OnlySkipped(drop) && KindsAreNotIds(n)
    ensures KindsAgainst(Symbols(lang, n), Symbols(lang, Strip(drop, retext, n)))
    decreases n, 0
  {
    if !Skipped(n) && n.children != [] {
      StripAllKinds(lang, drop, retext, n.children);
    }
  }

  lemma {:induction false} StripAllKinds(lang: Language, drop: Node -> bool, retext: Node -> string, ns: seq<Node>)
    requires OnlySkipped(drop) && AllKindsAreNotIds(ns)
    ensures KindsAgainst(SymbolsAll(lang, ns), SymbolsAll(lang, StripAll(drop, retext, ns)))
    decreases ns, 1
  {
    if ns != [] {
      StripAllKinds(lang, drop, retext, ns[1..]);
      StripKinds(lang, drop, retext, ns[0]);
      StripFirst(lang, drop, retext, ns);
      KindsInParts(Symbols(lang, ns[0]), Symbols(lang, Strip(drop, retext, ns[0])),
                   SymbolsAll(lang, ns[1..]), SymbolsAll(lang, StripAll(drop, retext, ns[1..])));
    }
  }

  lemma KindsInParts(a: seq<Symbol>, b: seq<Symbol>, a': seq<Symbol>, b': seq<Symbol>)
    requires KindsAgainst(a, b) && KindsAgainst(a', b')
    ensures KindsAgainst(a + a', b + b')
  {
  }

  lemma StripFirst(lang: Language, drop: Node -> bool, retext: Node -> string, ns: seq<Node>)
    requires OnlySkipped(drop) && ns != []
    ensures SymbolsAll(lang, StripAll(drop, retext, ns))
         == Symbols(lang, Strip(drop, retext, ns[0])) + SymbolsAll(lang, StripAll(drop, retext, ns[1..]))
  {
    var rest := StripAll(drop, retext, ns[1..]);
    if drop(ns[0]) {
      assert StripAll(drop, retext, ns) == rest;
    } else {
      assert StripAll(drop, retext, ns) == [Strip(drop, retext, ns[0])] + rest;
      assert ([Strip(drop, retext, ns[0])] + rest)[1..] == rest;
    }
  }

  lemma EqualInParts(a: seq<Symbol>, b: seq<Symbol>, a': seq<Symbol>, b': seq<Symbol>)
    requires |a| == |b|
    ensures a + a' == b + b' <==> a == b && a' == b'
  {
    assert a == (a + a')[..|a|] && a' == (a + a')[|a|..];
    assert b == (b + b')[..|b|] && b' == (b + b')[|b|..];
  }

  /** Deleting comments and extras changes nothing if no node loses its last child and then reads
   *  differently. */
  lemma UnbaredKeepsTokens(lang: Language, drop: Node -> bool, retext: Node -> string, n: Node)
    requires OnlySkipped(drop) && Unbared(lang, drop, retext, n)
    ensures Tokens(lang, Strip(drop, retext, n)) == Tokens(lang, n)
  {
    StripSymbols(lang, drop, retext, n);
  }

  /** And only then, in grammars whose kinds do not look like numbered identifiers. */
  lemma StrippingKeepsTokens(lang: Language, drop: Node -> bool, retext: Node -> string, n: Node)
    requires OnlySkipped(drop) && KindsAreNotIds(n)
    ensures Tokens(lang, Strip(drop, retext, n)) == Tokens(lang, n) <==> Unbared(lang, drop, retext, n)
  {
    StripSymbols(lang, drop, retext, n);
    StripKinds(lang, drop, retext, n);
    if Tokens(lang, Strip(drop, retext, n)) == Tokens(lang, n) {
      SameTokensSameSymbols(Symbols(lang, n), Symbols(lang, Strip(drop, retext, n)), map[]);
    }
  }

  // A file that holds nothing but a comment: the root is left with no child and no text.

  const COMMENT := Node("line_comment", "// x", true, 0, 4, [])
  const COMMENTED_FILE := Node("source_file", "// x", false, 0, 4, [COMMENT])
  const EMPTY_FILE := Node("source_file", "", false, 0, 4, [])

  predicate IsExtra(n: Node) {
    n.extra
  }

  function NoText(n: Node): string {
    ""
  }

  lemma {:induction false} ContainsNeeds(s: string, word: string, i: nat)
    requires Contains(s, word) && i < |word|
    ensures word[i] in s
  {
    if word <= s {
      assert s[i] == word[i];
    } else {
      ContainsNeeds(s[1..], word, i);
    }
  }

  lemma NotAComment(kind: string)
    requires 'm' !in kind
    ensures !Contains(kind, "comment")
  {
    if Contains(kind, "comment") { ContainsNeeds(kind, "comment", 2); }
  }

  lemma OneFixed(lang: Language, n: Node, token: string)
    requires Symbols(lang, n) == [Fixed(token)]
    ensures Tokens(lang, n) == [token]
  {
    assert [Fixed(token)][1..] == [];
  }

  /** An inner node whose only child is a comment shows its kind. */
  lemma OnlyAComment(lang: Language, n: Node, comment: Node)
    requires !Skipped(n) && n.children == [comment] && Skipped(comment)
    ensures Tokens(lang, n) == [n.kind]
  {
    OneChild(lang, comment);
    OneFixed(lang, n, n.kind);
  }

  lemma CommentedFileTokens()
    ensures Tokens(Rust, COMMENTED_FILE) == ["source_file"]
  {
    NotAComment("source_file");
    OnlyAComment(Rust, COMMENTED_FILE, COMMENT);
  }

  lemma EndsOtherwise(s: string, suffix: string)
    requires 0 < |suffix| <= |s| && s[|s| - |suffix|] != suffix[0]
    ensures !EndsWith(s, suffix)
  {
    assert s[|s| - |suffix|..][0] != suffix[0];
  }

  lemma FileIsNoLiteral()
    ensures !IsIdentifier("source_file") && !IsLiteral(Rust, "source_file")
  {
    EndsOtherwise("source_file", "identifier");
    EndsOtherwise("source_file", "literal");
  }

  lemma EmptyFileTokens()
    ensures Tokens(Rust, EMPTY_FILE) == [""]
  {
    NotAComment("source_file");
    FileIsNoLiteral();
    assert SymbolOf(Rust, EMPTY_FILE) == Fixed("");
    OneFixed(Rust, EMPTY_FILE, "");
  }

  lemma CommentStripped()
    ensures Strip(IsExtra, NoText, COMMENTED_FILE) == EMPTY_FILE
  {
    assert [COMMENT][1..] == [];
    assert StripAll(IsExtra, NoText, [COMMENT]) == [];
  }

  /** The last child of a node can be a comment, and losing it shows. */
  lemma LosingTheLastChildShows()
    ensures Tokens(Rust, COMMENTED_FILE) == ["source_file"]
    ensures Tokens(Rust, Strip(IsExtra, NoText, COMMENTED_FILE)) == [""]
  {
    CommentedFileTokens();
    CommentStripped();
    EmptyFileTokens();
  }
}
