/**
Canonical CBOR is a true canonical form.  The decoder below is written from section 3 of RFC 8949
and knows nothing of the encoder; it accepts any definite-length item over the JSON subset.
*/
module CanonicalForm {
  import opened Options
  import opened Bytes
  import opened Numbers
  import opened Cbor
  import opened CanonicalJson
  import opened Sequences

  // ---------------------------------------------------------------------------------------------
  // A decoder

  function Decode(bytes: Text): (r: Option<(Value, Text)>)
    ensures r.Some? ==> |r.value.1| < |bytes|
    decreases |bytes|, 0, 0
  {
    match ReadHead(bytes)
    case None => None
    case Some(head) =>
      if head.major == 0 then Some((Integer(head.argument), head.rest))
      else if head.major == 1 then Some((Integer(-1 - head.argument), head.rest))
      else if head.major == TEXT then
        match ReadText(bytes)
        case None => None
        case Some((text, rest)) => Some((String(text), rest))
      else if head.major == ARRAY then
        match DecodeItems(head.rest, head.argument)
        case None => None
        case Some((items, rest)) => Some((Array(items), rest))
      else if head.major == MAP then
        match DecodeEntries(head.rest, head.argument)
        case None => None
        case Some((entries, rest)) => Some((Object(entries), rest))
      else if bytes[0] == 0xf4 then Some((Bool(false), head.rest))
      else if bytes[0] == 0xf5 then Some((Bool(true), head.rest))
      else if bytes[0] == 0xf6 then Some((Null, head.rest))
      else None
  }

  function DecodeItems(bytes: Text, n: nat): (r: Option<(seq<Value>, Text)>)
    ensures r.Some? ==> |r.value.0| == n && |r.value.1| <= |bytes|
    decreases |bytes|, 1, n
  {
    if n == 0 then Some(([], bytes))
    else
      match Decode(bytes)
      case None => None
      case Some((v, rest)) =>
        match DecodeItems(rest, n - 1)
        case None => None
        case Some((vs, rest')) => Some(([v] + vs, rest'))
  }

  function DecodeEntries(bytes: Text, n: nat): (r: Option<(seq<Entry>, Text)>)
    ensures r.Some? ==> |r.value.0| == n && |r.value.1| <= |bytes|
    decreases |bytes|, 1, n
  {
    if n == 0 then Some(([], bytes))
    else
      match ReadText(bytes)
      case None => None
      case Some((key, rest)) =>
        match Decode(rest)
        case None => None
        case Some((v, rest')) =>
          match DecodeEntries(rest', n - 1)
          case None => None
          case Some((es, rest'')) => Some(([Entry(key, v)] + es, rest''))
  }

  // ---------------------------------------------------------------------------------------------
  // Decoding what was encoded

  /** What a plain encoding can represent: no fractions, 64-bit lengths and integers. */
  ghost predicate Plainable(v: Value)
    decreases v
  {
    match v
    case Integer(i) => -0x8000_0000_0000_0000 <= i < TWO64
    case Fraction(_) => false
    case String(text) => |text| < TWO64
    case Array(items) => |items| < TWO64 && forall k :: 0 <= k < |items| ==> Plainable(items[k])
    case Object(entries) =>
      && |entries| < TWO64
      && forall k :: 0 <= k < |entries| ==> |entries[k].key| < TWO64 && Plainable(entries[k].value)
    case _ => true
  }

  ghost predicate ItemsPlainable(items: seq<Value>) {
    items == [] || (Plainable(items[0]) && ItemsPlainable(items[1..]))
  }

  lemma {:induction false} AllItemsPlainable(items: seq<Value>)
    requires forall k :: 0 <= k < |items| ==> Plainable(items[k])
    ensures ItemsPlainable(items)
  {
    if items != [] { AllItemsPlainable(items[1..]); }
  }

  ghost predicate EntriesPlainable(entries: seq<Entry>) {
    || entries == []
    || (|entries[0].key| < TWO64 && Plainable(entries[0].value) && EntriesPlainable(entries[1..]))
  }

  lemma {:induction false} AllEntriesPlainable(entries: seq<Entry>)
    requires forall k :: 0 <= k < |entries| ==> |entries[k].key| < TWO64 && Plainable(entries[k].value)
    ensures EntriesPlainable(entries)
  {
    if entries != [] { AllEntriesPlainable(entries[1..]); }
  }

  /** Whatever follows them, `bytes` decode to `v` and to no more. */
  ghost predicate ReadsBack(bytes: Text, v: Value) {
    forall rest: Text :: Decode(bytes + rest) == Some((v, rest))
  }

  ghost predicate ItemsReadBack(bytes: Text, items: seq<Value>) {
    forall rest: Text :: DecodeItems(bytes + rest, |items|) == Some((items, rest))
  }

  ghost predicate EntriesReadBack(bytes: Text, entries: seq<Entry>) {
    forall rest: Text :: DecodeEntries(bytes + rest, |entries|) == Some((entries, rest))
  }

  predicate IsSimple(info: nat, v: Value) {
    match v
    case Bool(b) => info == if b then 21 else 20
    case Null => info == 22
    case _ => false
  }

  lemma DecodeSimple(bytes: Text, info: nat, v: Value, rest: Text)
    requires IsSimple(info, v) && ReadHead(bytes) == Some(Parsed(7, info, rest)) && bytes[0] == 0xe0 + info
    ensures Decode(bytes) == Some((v, rest))
  {
  }

  lemma SimpleReadsBack(info: nat, v: Value)
    requires IsSimple(info, v)
    ensures ReadsBack([0xe0 + info], v)
  {
    forall rest: Text
      ensures Decode([0xe0 + info] + rest) == Some((v, rest))
    {
      SmallHead(7, info, rest);
      DecodeSimple([0xe0 + info] + rest, info, v, rest);
    }
  }

  lemma DecodeInteger(bytes: Text, i: int, rest: Text)
    requires ReadHead(bytes) == Some(if i >= 0 then Parsed(0, i, rest) else Parsed(1, -1 - i, rest))
    ensures Decode(bytes) == Some((Integer(i), rest))
  {
  }

  lemma IntegerReadsBack(i: int)
    requires -0x8000_0000_0000_0000 <= i < TWO64
    ensures ReadsBack(Plain(Integer(i)), Integer(i))
  {
    forall rest: Text
      ensures Decode(Plain(Integer(i)) + rest) == Some((Integer(i), rest))
    {
      if i >= 0 { HeadRoundTrip(0, i, rest); } else { HeadRoundTrip(1, -1 - i, rest); }
      DecodeInteger(Plain(Integer(i)) + rest, i, rest);
    }
  }

  lemma StringReadsBack(text: Text)
    requires |text| < TWO64
    ensures ReadsBack(TextItem(text), String(text))
  {
    forall rest: Text
      ensures Decode(TextItem(text) + rest) == Some((String(text), rest))
    {
      TextRoundTrip(text, rest);
      HeadRoundTrip(TEXT, |text|, text + rest);
      Concat(Head(TEXT, |text|), text, rest);
    }
  }

  lemma ArrayReadsBack(items: seq<Value>, bytes: Text)
    requires |items| < TWO64 && ItemsReadBack(bytes, items)
    ensures ReadsBack(Head(ARRAY, |items|) + bytes, Array(items))
  {
    forall rest: Text
      ensures Decode(Head(ARRAY, |items|) + bytes + rest) == Some((Array(items), rest))
    {
      HeadRoundTrip(ARRAY, |items|, bytes + rest);
      Concat(Head(ARRAY, |items|), bytes, rest);
    }
  }

  lemma ObjectReadsBack(entries: seq<Entry>, bytes: Text)
    requires |entries| < TWO64 && EntriesReadBack(bytes, entries)
    ensures ReadsBack(Head(MAP, |entries|) + bytes, Object(entries))
  {
    forall rest: Text
      ensures Decode(Head(MAP, |entries|) + bytes + rest) == Some((Object(entries), rest))
    {
      HeadRoundTrip(MAP, |entries|, bytes + rest);
      Concat(Head(MAP, |entries|), bytes, rest);
    }
  }

  lemma NothingReadsBack()
    ensures ItemsReadBack([], []) && EntriesReadBack([], [])
  {
    forall rest: Text
      ensures DecodeItems([] + rest, 0) == Some(([], rest)) && DecodeEntries([] + rest, 0) == Some(([], rest))
    {
      assert [] + rest == rest;
    }
  }

  lemma ItemThenItems(v: Value, items: seq<Value>, first: Text, more: Text)
    requires ReadsBack(first, v) && ItemsReadBack(more, items)
    ensures ItemsReadBack(first + more, [v] + items)
  {
    forall rest: Text
      ensures DecodeItems(first + more + rest, |[v] + items|) == Some(([v] + items, rest))
    {
      Concat(first, more, rest);
    }
  }

  lemma EntryThenEntries(e: Entry, entries: seq<Entry>, first: Text, more: Text)
    requires |e.key| < TWO64 && ReadsBack(first, e.value) && EntriesReadBack(more, entries)
    ensures EntriesReadBack(TextItem(e.key) + first + more, [e] + entries)
  {
    forall rest: Text
      ensures DecodeEntries(TextItem(e.key) + first + more + rest, |[e] + entries|) == Some(([e] + entries, rest))
    {
      Concat(TextItem(e.key) + first, more, rest);
      Concat(TextItem(e.key), first, more + rest);
      TextRoundTrip(e.key, first + (more + rest));
    }
  }

  lemma {:induction false} PlainReadsBack(v: Value)
    requires Plainable(v)
    ensures ReadsBack(Plain(v), v)
    decreases v, 0
  {
    match v
    case Null => SimpleReadsBack(22, v);
    case Bool(b) => SimpleReadsBack(if b then 21 else 20, v);
    case Integer(i) => IntegerReadsBack(i);
    case String(text) => StringReadsBack(text);
    case Array(items) =>
      AllItemsPlainable(items);
      PlainItemsReadBack(items);
      ArrayReadsBack(items, PlainItems(items));
    case Object(entries) =>
      AllEntriesPlainable(entries);
      PlainEntriesReadBack(entries);
      ObjectReadsBack(entries, PlainEntries(entries));
  }

  lemma {:induction false} PlainItemsReadBack(items: seq<Value>)
    requires ItemsPlainable(items)
    ensures ItemsReadBack(PlainItems(items), items)
    decreases items, 1
  {
    if items == [] {
      NothingReadsBack();
    } else {
      PlainReadsBack(items[0]);
      PlainItemsReadBack(items[1..]);
      ItemThenItems(items[0], items[1..], Plain(items[0]), PlainItems(items[1..]));
      assert items == [items[0]] + items[1..];
    }
  }

  lemma {:induction false} PlainEntriesReadBack(entries: seq<Entry>)
    requires EntriesPlainable(entries)
    ensures EntriesReadBack(PlainEntries(entries), entries)
    decreases entries, 1
  {
    if entries == [] {
      NothingReadsBack();
    } else {
      PlainReadsBack(entries[0].value);
      PlainEntriesReadBack(entries[1..]);
      EntryThenEntries(entries[0], entries[1..], Plain(entries[0].value), PlainEntries(entries[1..]));
      assert entries == [entries[0]] + entries[1..];
    }
  }

  // ---------------------------------------------------------------------------------------------
  // The encoding of accepted values

  function CanonicalEntry(nfc: Text -> Text, e: Entry): Entry {
    Entry(nfc(e.key), Canonical(nfc, e.value))
  }

  /** A member of an object's canonical entries comes from one of its own. */
  lemma CanonicalEntryFrom(nfc: Text -> Text, entries: seq<Entry>, e: Entry) returns (k: nat)
    requires e in Sort(KeyItem, CanonicalEntries(nfc, entries))
    ensures k < |entries| && e == CanonicalEntry(nfc, entries[k])
  {
    SortMembers(KeyItem, CanonicalEntries(nfc, entries));
    k :| 0 <= k < |entries| && CanonicalEntries(nfc, entries)[k] == e;
    CanonicalEntriesAt(nfc, entries, k);
  }

  lemma CanonicalEntryTo(nfc: Text -> Text, entries: seq<Entry>, k: nat)
    requires k < |entries|
    ensures CanonicalEntry(nfc, entries[k]) in Sort(KeyItem, CanonicalEntries(nfc, entries))
  {
    var es := CanonicalEntries(nfc, entries);
    CanonicalEntriesAt(nfc, entries, k);
    SortMembers(KeyItem, es);
    assert es[k] in es;
  }

  lemma {:induction false} CanonicalPlainable(nfc: Text -> Text, v: Value)
    requires Acceptable(nfc, v) && Sized(nfc, v)
    ensures Plainable(Canonical(nfc, v))
    decreases v
  {
    match v
    case Array(items) =>
      var cs := CanonicalItems(nfc, items);
      forall k | 0 <= k < |items|
        ensures Plainable(cs[k])
      {
        CanonicalPlainable(nfc, items[k]);
        CanonicalItemsAt(nfc, items, k);
      }
    case Object(entries) =>
      var sorted := Sort(KeyItem, CanonicalEntries(nfc, entries));
      forall i | 0 <= i < |sorted|
        ensures |sorted[i].key| < TWO64 && Plainable(sorted[i].value)
      {
        var k := CanonicalEntryFrom(nfc, entries, sorted[i]);
        CanonicalPlainable(nfc, entries[k].value);
      }
    case _ =>
  }

  /** The decoder recovers the normalized value and leaves the rest of the input untouched. */
  lemma EncodeRoundTrip(nfc: Text -> Text, v: Value, rest: Text)
    requires Acceptable(nfc, v) && Sized(nfc, v)
    ensures Decode(Encode(nfc, v) + rest) == Some((Canonical(nfc, v), rest))
  {
    CanonicalPlainable(nfc, v);
    PlainReadsBack(Canonical(nfc, v));
  }

  // ---------------------------------------------------------------------------------------------
  // No encoding is shorter

  lemma TextShortest(bytes: Text, text: Text, rest: Text)
    requires ReadText(bytes) == Some((text, rest))
    ensures |TextItem(text)| <= |bytes| - |rest|
  {
    HeadShortest(bytes);
  }

  lemma ArrayUnfold(bytes: Text, items: seq<Value>, rest: Text) returns (body: Text)
    requires Decode(bytes) == Some((Array(items), rest))
    ensures ReadHead(bytes) == Some(Parsed(ARRAY, |items|, body))
    ensures DecodeItems(body, |items|) == Some((items, rest))
  {
    body := ReadHead(bytes).value.rest;
  }

  lemma ObjectUnfold(bytes: Text, entries: seq<Entry>, rest: Text) returns (body: Text)
    requires Decode(bytes) == Some((Object(entries), rest))
    ensures ReadHead(bytes) == Some(Parsed(MAP, |entries|, body))
    ensures DecodeEntries(body, |entries|) == Some((entries, rest))
  {
    body := ReadHead(bytes).value.rest;
  }

  lemma ItemsUnfold(bytes: Text, items: seq<Value>, rest: Text) returns (more: Text)
    requires items != [] && DecodeItems(bytes, |items|) == Some((items, rest))
    ensures Decode(bytes) == Some((items[0], more))
    ensures DecodeItems(more, |items[1..]|) == Some((items[1..], rest))
  {
    more := Decode(bytes).value.1;
  }

  lemma EntriesUnfold(bytes: Text, entries: seq<Entry>, rest: Text) returns (body: Text, more: Text)
    requires entries != [] && DecodeEntries(bytes, |entries|) == Some((entries, rest))
    ensures ReadText(bytes) == Some((entries[0].key, body)) && Decode(body) == Some((entries[0].value, more))
    ensures DecodeEntries(more, |entries[1..]|) == Some((entries[1..], rest))
  {
    body := ReadText(bytes).value.1;
    more := Decode(body).value.1;
  }

  lemma IntegerUnfold(bytes: Text, i: int, rest: Text)
    requires Decode(bytes) == Some((Integer(i), rest))
    ensures ReadHead(bytes) == Some(if i >= 0 then Parsed(0, i, rest) else Parsed(1, -1 - i, rest))
  {
  }

  lemma IntegerShortest(bytes: Text, i: int, rest: Text)
    requires ReadHead(bytes) == Some(if i >= 0 then Parsed(0, i, rest) else Parsed(1, -1 - i, rest))
    ensures |Plain(Integer(i))| <= |bytes| - |rest|
  {
    HeadShortest(bytes);
  }

  lemma StringUnfold(bytes: Text, text: Text, rest: Text)
    requires Decode(bytes) == Some((String(text), rest))
    ensures ReadText(bytes) == Some((text, rest))
  {
  }

  predicate Simple(v: Value) {
    v.Null? || v.Bool? || v.Fraction?
  }

  lemma SimpleLength(v: Value)
    requires Simple(v)
    ensures |Plain(v)| <= 1
  {
  }

  lemma SimpleShortest(bytes: Text, v: Value, rest: Text)
    requires |rest| < |bytes| && Simple(v)
    ensures |Plain(v)| <= |bytes| - |rest|
  {
    SimpleLength(v);
  }

  lemma {:induction false} PlainShortest(v: Value, bytes: Text, rest: Text)
    requires Decode(bytes) == Some((v, rest))
    ensures |Plain(v)| <= |bytes| - |rest|
    decreases v, 0
  {
    match v
    case Array(items) =>
      var body := ArrayUnfold(bytes, items, rest);
      HeadShortest(bytes);
      ItemsShortest(items, body, rest);
    case Object(entries) =>
      var body := ObjectUnfold(bytes, entries, rest);
      HeadShortest(bytes);
      EntriesShortest(entries, body, rest);
    case Integer(i) =>
      IntegerUnfold(bytes, i, rest);
      IntegerShortest(bytes, i, rest);
    case String(text) =>
      StringUnfold(bytes, text, rest);
      TextShortest(bytes, text, rest);
    case _ => SimpleShortest(bytes, v, rest);
  }

  lemma {:induction false} ItemsShortest(items: seq<Value>, bytes: Text, rest: Text)
    requires DecodeItems(bytes, |items|) == Some((items, rest))
    ensures |PlainItems(items)| <= |bytes| - |rest|
    decreases items, 1
  {
    if items != [] {
      var more := ItemsUnfold(bytes, items, rest);
      PlainShortest(items[0], bytes, more);
      ItemsShortest(items[1..], more, rest);
    }
  }

  lemma {:induction false} EntriesShortest(entries: seq<Entry>, bytes: Text, rest: Text)
    requires DecodeEntries(bytes, |entries|) == Some((entries, rest))
    ensures |PlainEntries(entries)| <= |bytes| - |rest|
    decreases entries, 1
  {
    if entries != [] {
      var body, more := EntriesUnfold(bytes, entries, rest);
      TextShortest(bytes, entries[0].key, body);
      PlainShortest(entries[0].value, body, more);
      EntriesShortest(entries[1..], more, rest);
    }
  }

  /** No bytes that decode to the canonical value, with nothing left, are fewer than its encoding. */
  lemma EncodeShortest(nfc: Text -> Text, v: Value, bytes: Text)
    requires Decode(bytes) == Some((Canonical(nfc, v), []))
    ensures |Encode(nfc, v)| <= |bytes|
  {
    PlainShortest(Canonical(nfc, v), bytes, []);
  }

  /** Some of the examples in appendix A of RFC 8949. */
  lemma AppendixExamples()
    ensures Plain(Integer(0)) == [0x00] && Plain(Integer(23)) == [0x17] && Plain(Integer(24)) == [0x18, 0x18]
    ensures Plain(Integer(100)) == [0x18, 0x64] && Plain(Integer(1000)) == [0x19, 0x03, 0xe8]
    ensures Plain(Integer(-1)) == [0x20] && Plain(Integer(-100)) == [0x38, 0x63]
    ensures Plain(Bool(false)) == [0xf4] && Plain(Bool(true)) == [0xf5] && Plain(Null) == [0xf6]
    ensures Plain(String([0x61])) == [0x61, 0x61] && Plain(Array([])) == [0x80] && Plain(Object([])) == [0xa0]
  {
    HeadSpelled(0, 24);
    HeadSpelled(0, 100);
    HeadSpelled(0, 1000);
    HeadSpelled(1, 99);
  }

  /** No encoding is a proper prefix of another. */
  lemma PrefixFree(nfc: Text -> Text, a: Value, b: Value, x: Text, y: Text)
    requires Acceptable(nfc, a) && Sized(nfc, a) && Acceptable(nfc, b) && Sized(nfc, b)
    requires Encode(nfc, a) + x == Encode(nfc, b) + y
    ensures Encode(nfc, a) == Encode(nfc, b) && x == y
  {
    EncodeRoundTrip(nfc, a, x);
    EncodeRoundTrip(nfc, b, y);
  }

  ghost predicate Apart(nfc: Text -> Text, entries: seq<Entry>) {
    && KeysStayApart(nfc, entries)
    && forall k :: 0 <= k < |entries| ==> |nfc(entries[k].key)| < TWO64
  }

  /** The emitted keys of an object strictly increase, bytewise. */
  lemma KeysStrictlyIncrease(nfc: Text -> Text, entries: seq<Entry>)
    requires Apart(nfc, entries)
    ensures Canonical(nfc, Object(entries)).Object?
    ensures StrictlySorted(KeyItem, Canonical(nfc, Object(entries)).entries)
  {
    var es := CanonicalEntries(nfc, entries);
    forall i, j | 0 <= i < j < |es|
      ensures KeyItem(es[i]) != KeyItem(es[j])
    {
      CanonicalEntriesAt(nfc, entries, i);
      CanonicalEntriesAt(nfc, entries, j);
      if KeyItem(es[i]) == KeyItem(es[j]) { TextItemInjective(es[i].key, es[j].key); }
    }
    SortStrictly(KeyItem, es);
  }

  /** ... which is the order by length first and by content second. */
  lemma KeysIncreaseByLengthThenContent(nfc: Text -> Text, entries: seq<Entry>, i: nat, j: nat)
    requires Apart(nfc, entries) && i < j < |entries|
    ensures var es := Sort(KeyItem, CanonicalEntries(nfc, entries));
            |es[i].key| < |es[j].key| || (|es[i].key| == |es[j].key| && Less(es[i].key, es[j].key))
  {
    KeysStrictlyIncrease(nfc, entries);
    var es := Sort(KeyItem, CanonicalEntries(nfc, entries));
    assert Less(KeyItem(es[i]), KeyItem(es[j]));
    var k := CanonicalEntryFrom(nfc, entries, es[i]);
    var l := CanonicalEntryFrom(nfc, entries, es[j]);
    TextItemOrder(es[i].key, es[j].key);
  }

  // ---------------------------------------------------------------------------------------------
  // Equal encodings mean equal values, up to key order and normalization

  /** The same value once key order and normalization are disregarded. */
  ghost predicate Agree(nfc: Text -> Text, a: Value, b: Value)
    decreases a, 0
  {
    match (a, b)
    case (String(s), String(t)) => nfc(s) == nfc(t)
    case (Array(s), Array(t)) => |s| == |t| && forall k :: 0 <= k < |s| ==> Agree(nfc, s[k], t[k])
    case (Object(s), Object(t)) =>
      && |s| == |t|
      && (forall i :: 0 <= i < |s| ==> HasCounterpart(nfc, s[i], t))
      && (forall j :: 0 <= j < |t| ==> IsCounterpart(nfc, s, t[j]))
    case _ => a == b
  }

  ghost predicate HasCounterpart(nfc: Text -> Text, e: Entry, t: seq<Entry>)
    decreases e, 2
  {
    exists j :: 0 <= j < |t| && Counterparts(nfc, e, t[j])
  }

  ghost predicate IsCounterpart(nfc: Text -> Text, s: seq<Entry>, f: Entry)
    decreases s, 2
  {
    exists i :: 0 <= i < |s| && Counterparts(nfc, s[i], f)
  }

  ghost predicate Counterparts(nfc: Text -> Text, e: Entry, f: Entry)
    decreases e, 1
  {
    nfc(e.key) == nfc(f.key) && Agree(nfc, e.value, f.value)
  }

  lemma {:induction false} AgreeGivesCanonical(nfc: Text -> Text, a: Value, b: Value)
    requires Agree(nfc, a, b)
    requires Acceptable(nfc, a) && Sized(nfc, a) && Acceptable(nfc, b) && Sized(nfc, b)
    ensures Canonical(nfc, a) == Canonical(nfc, b)
    decreases a, 0
  {
    if a.Array? {
      forall k | 0 <= k < |a.items|
        ensures CanonicalItems(nfc, a.items)[k] == CanonicalItems(nfc, b.items)[k]
      {
        AgreeGivesCanonical(nfc, a.items[k], b.items[k]);
        CanonicalItemsAt(nfc, a.items, k);
        CanonicalItemsAt(nfc, b.items, k);
      }
    } else if a.Object? {
      assert a == Object(a.entries) && b == Object(b.entries);
      ObjectsAgree(nfc, a.entries, b.entries);
    }
  }

  lemma {:induction false} CounterpartsGiveCanonical(nfc: Text -> Text, e: Entry, f: Entry)
    requires Counterparts(nfc, e, f)
    requires Acceptable(nfc, e.value) && Sized(nfc, e.value) && Acceptable(nfc, f.value) && Sized(nfc, f.value)
    ensures CanonicalEntry(nfc, e) == CanonicalEntry(nfc, f)
    decreases e, 1
  {
    AgreeGivesCanonical(nfc, e.value, f.value);
  }

  ghost predicate AllEncode(nfc: Text -> Text, s: seq<Entry>) {
    Acceptable(nfc, Object(s)) && Sized(nfc, Object(s))
  }

  lemma {:induction false} CounterpartOf(nfc: Text -> Text, s: seq<Entry>, t: seq<Entry>, i: nat) returns (j: nat)
    requires AllEncode(nfc, s) && AllEncode(nfc, t) && i < |s| && HasCounterpart(nfc, s[i], t)
    ensures j < |t| && CanonicalEntry(nfc, s[i]) == CanonicalEntry(nfc, t[j])
    decreases s, 2
  {
    j :| 0 <= j < |t| && Counterparts(nfc, s[i], t[j]);
    CounterpartsGiveCanonical(nfc, s[i], t[j]);
  }

  lemma {:induction false} CounterpartFor(nfc: Text -> Text, s: seq<Entry>, t: seq<Entry>, j: nat) returns (i: nat)
    requires AllEncode(nfc, s) && AllEncode(nfc, t) && j < |t| && IsCounterpart(nfc, s, t[j])
    ensures i < |s| && CanonicalEntry(nfc, s[i]) == CanonicalEntry(nfc, t[j])
    decreases s, 2
  {
    i :| 0 <= i < |s| && Counterparts(nfc, s[i], t[j]);
    CounterpartsGiveCanonical(nfc, s[i], t[j]);
  }

  /** Entry for entry the same keys and agreeing values, in whatever order: the same object. */
  lemma {:induction false} ObjectsAgree(nfc: Text -> Text, s: seq<Entry>, t: seq<Entry>)
    requires AllEncode(nfc, s) && AllEncode(nfc, t) && Agree(nfc, Object(s), Object(t))
    ensures Canonical(nfc, Object(s)) == Canonical(nfc, Object(t))
    decreases s, 3
  {
    var cs, ct := Sort(KeyItem, CanonicalEntries(nfc, s)), Sort(KeyItem, CanonicalEntries(nfc, t));
    forall e | e in cs
      ensures e in ct
    {
      var i := CanonicalEntryFrom(nfc, s, e);
      var j := CounterpartOf(nfc, s, t, i);
      CanonicalEntryTo(nfc, t, j);
    }
    forall e | e in ct
      ensures e in cs
    {
      var j := CanonicalEntryFrom(nfc, t, e);
      var i := CounterpartFor(nfc, s, t, j);
      CanonicalEntryTo(nfc, s, i);
    }
    SameCanonicalMembers(nfc, s, t);
  }

  lemma SameCanonicalMembers(nfc: Text -> Text, s: seq<Entry>, t: seq<Entry>)
    requires Apart(nfc, s) && Apart(nfc, t) && |s| == |t|
    requires forall e :: e in Sort(KeyItem, CanonicalEntries(nfc, s)) <==> e in Sort(KeyItem, CanonicalEntries(nfc, t))
    ensures Sort(KeyItem, CanonicalEntries(nfc, s)) == Sort(KeyItem, CanonicalEntries(nfc, t))
  {
    KeysStrictlyIncrease(nfc, s);
    KeysStrictlyIncrease(nfc, t);
    StrictlySortedUnique(KeyItem, Sort(KeyItem, CanonicalEntries(nfc, s)), Sort(KeyItem, CanonicalEntries(nfc, t)));
  }

  lemma {:induction false} CanonicalGivesAgree(nfc: Text -> Text, a: Value, b: Value)
    requires Canonical(nfc, a) == Canonical(nfc, b)
    ensures Agree(nfc, a, b)
    decreases a, 0
  {
    match a
    case Array(s) =>
      assert b == Array(b.items);
      CanonicalGivesItems(nfc, s, b.items);
    case Object(s) =>
      assert b == Object(b.entries);
      CanonicalGivesCounterparts(nfc, s, b.entries);
    case _ =>
      assert !b.Array? && !b.Object?;
  }

  lemma {:induction false} CanonicalGivesItems(nfc: Text -> Text, s: seq<Value>, t: seq<Value>)
    requires CanonicalItems(nfc, s) == CanonicalItems(nfc, t)
    ensures Agree(nfc, Array(s), Array(t))
    decreases s, 1
  {
    assert |CanonicalItems(nfc, s)| == |CanonicalItems(nfc, t)|;
    forall k | 0 <= k < |s|
      ensures Agree(nfc, s[k], t[k])
    {
      CanonicalItemsAt(nfc, s, k);
      CanonicalItemsAt(nfc, t, k);
      CanonicalGivesAgree(nfc, s[k], t[k]);
    }
  }

  lemma {:induction false} CanonicalGivesCounterparts(nfc: Text -> Text, s: seq<Entry>, t: seq<Entry>)
    requires Sort(KeyItem, CanonicalEntries(nfc, s)) == Sort(KeyItem, CanonicalEntries(nfc, t))
    ensures Agree(nfc, Object(s), Object(t))
    decreases s, 1
  {
    assert |s| == |Sort(KeyItem, CanonicalEntries(nfc, s))| == |t|;
    forall i | 0 <= i < |s|
      ensures HasCounterpart(nfc, s[i], t)
    {
      CanonicalEntryTo(nfc, s, i);
      var j := CanonicalEntryFrom(nfc, t, CanonicalEntry(nfc, s[i]));
      EntriesGiveCounterparts(nfc, s, t, i, j);
    }
    forall j | 0 <= j < |t|
      ensures IsCounterpart(nfc, s, t[j])
    {
      CanonicalEntryTo(nfc, t, j);
      var i := CanonicalEntryFrom(nfc, s, CanonicalEntry(nfc, t[j]));
      EntriesGiveCounterparts(nfc, s, t, i, j);
    }
  }

  lemma {:induction false} EntriesGiveCounterparts(nfc: Text -> Text, s: seq<Entry>, t: seq<Entry>, i: nat, j: nat)
    requires i < |s| && j < |t| && CanonicalEntry(nfc, s[i]) == CanonicalEntry(nfc, t[j])
    ensures HasCounterpart(nfc, s[i], t) && IsCounterpart(nfc, s, t[j])
    decreases s, 0
  {
    CanonicalGivesAgree(nfc, s[i].value, t[j].value);
    assert Counterparts(nfc, s[i], t[j]);
  }

  /** Two accepted values encode identically exactly when they agree up to key order and NFC. */
  lemma SameEncodingIffAgree(nfc: Text -> Text, a: Value, b: Value)
    requires Acceptable(nfc, a) && Sized(nfc, a) && Acceptable(nfc, b) && Sized(nfc, b)
    ensures Encode(nfc, a) == Encode(nfc, b) <==> Agree(nfc, a, b)
  {
    if Encode(nfc, a) == Encode(nfc, b) {
      EncodeRoundTrip(nfc, a, []);
      EncodeRoundTrip(nfc, b, []);
      CanonicalGivesAgree(nfc, a, b);
    }
    if Agree(nfc, a, b) {
      AgreeGivesCanonical(nfc, a, b);
    }
  }

  /** With an idempotent NFC, re-encoding a decoded value changes nothing. */
  lemma {:induction false} CanonicalIsFixed(nfc: Text -> Text, v: Value)
    requires forall t :: nfc(nfc(t)) == nfc(t)
    requires Acceptable(nfc, v) && Sized(nfc, v)
    ensures Canonical(nfc, Canonical(nfc, v)) == Canonical(nfc, v)
    decreases v
  {
    match v
    case Array(items) =>
      var cs := CanonicalItems(nfc, items);
      forall k | 0 <= k < |items|
        ensures CanonicalItems(nfc, cs)[k] == cs[k]
      {
        CanonicalIsFixed(nfc, items[k]);
        CanonicalItemsAt(nfc, items, k);
        CanonicalItemsAt(nfc, cs, k);
      }
      assert CanonicalItems(nfc, cs) == cs;
    case Object(entries) =>
      var cs := Sort(KeyItem, CanonicalEntries(nfc, entries));
      forall i | 0 <= i < |cs|
        ensures CanonicalEntries(nfc, cs)[i] == cs[i]
      {
        var k := CanonicalEntryFrom(nfc, entries, cs[i]);
        CanonicalIsFixed(nfc, entries[k].value);
        CanonicalEntriesAt(nfc, cs, i);
      }
      assert CanonicalEntries(nfc, cs) == cs;
      SortSorted(KeyItem, CanonicalEntries(nfc, entries));
      SortOfSorted(KeyItem, cs);
    case _ =>
  }
}
