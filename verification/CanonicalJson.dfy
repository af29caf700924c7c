/**
The canonical CBOR of a JSON value (`canonical.rs`).  NFC normalization is a parameter: any
function on texts, with idempotence asked for only where it is used.
*/
module CanonicalJson {
  import opened Bytes
  import opened Numbers
  import opened Cbor
  import opened Sequences

  datatype Entry = Entry(key: Text, value: Value)

  datatype Value =
    | Null
    | Bool(b: bool)
    | Integer(i: int)
    | Fraction(x: real)
    | String(text: Text)
    | Array(items: seq<Value>)
    | Object(entries: seq<Entry>)

  function KeyItem(e: Entry): Text {
    TextItem(e.key)
  }

  // ---------------------------------------------------------------------------------------------
  // The canonical value, and its plain encoding

  /** Texts normalized, object entries in the order of their encoded keys. */
  function Canonical(nfc: Text -> Text, v: Value): Value
    decreases v, 0
  {
    match v
    case String(text) => String(nfc(text))
    case Array(items) => Array(CanonicalItems(nfc, items))
    case Object(entries) => Object(Sort(KeyItem, CanonicalEntries(nfc, entries)))
    case _ => v
  }

  function CanonicalItems(nfc: Text -> Text, items: seq<Value>): (r: seq<Value>)
    ensures |r| == |items|
    decreases items, 1
  {
    if items == [] then [] else [Canonical(nfc, items[0])] + CanonicalItems(nfc, items[1..])
  }

  function CanonicalEntries(nfc: Text -> Text, entries: seq<Entry>): (r: seq<Entry>)
    ensures |r| == |entries|
    decreases entries, 1
  {
    if entries == [] then []
    else [Entry(nfc(entries[0].key), Canonical(nfc, entries[0].value))] + CanonicalEntries(nfc, entries[1..])
  }

  lemma {:induction false} CanonicalItemsAt(nfc: Text -> Text, items: seq<Value>, k: nat)
    requires k < |items|
    ensures CanonicalItems(nfc, items)[k] == Canonical(nfc, items[k])
  {
    if k > 0 { CanonicalItemsAt(nfc, items[1..], k - 1); }
  }

  lemma {:induction false} CanonicalEntriesAt(nfc: Text -> Text, entries: seq<Entry>, k: nat)
    requires k < |entries|
    ensures CanonicalEntries(nfc, entries)[k] == Entry(nfc(entries[k].key), Canonical(nfc, entries[k].value))
  {
    if k > 0 { CanonicalEntriesAt(nfc, entries[1..], k - 1); }
  }

  /** The items of `v` one after the other, exactly in the order given. */
  function Plain(v: Value): Text
    decreases v, 0
  {
    match v
    case Null => [0xf6]
    case Bool(b) => if b then [0xf5] else [0xf4]
    case Integer(i) => if i >= 0 then Head(0, i) else Head(1, -1 - i)
    case Fraction(_) => []
    case String(text) => TextItem(text)
    case Array(items) => Head(ARRAY, |items|) + PlainItems(items)
    case Object(entries) => Head(MAP, |entries|) + PlainEntries(entries)
  }

  function PlainItems(items: seq<Value>): Text
    decreases items, 1
  {
    if items == [] then [] else Plain(items[0]) + PlainItems(items[1..])
  }

  function PlainEntries(entries: seq<Entry>): Text
    decreases entries, 1
  {
    if entries == [] then []
    else TextItem(entries[0].key) + Plain(entries[0].value) + PlainEntries(entries[1..])
  }

  // ---------------------------------------------------------------------------------------------
  // Which values have a canonical encoding

  /** No two entries whose keys normalize to the same key. */
  ghost predicate KeysStayApart(nfc: Text -> Text, entries: seq<Entry>) {
    forall i, j :: 0 <= i < j < |entries| ==> nfc(entries[i].key) != nfc(entries[j].key)
  }

  /** No non-integer number and no pair of colliding keys, at any depth. */
  ghost predicate Acceptable(nfc: Text -> Text, v: Value)
    decreases v
  {
    match v
    case Fraction(_) => false
    case Array(items) => forall k :: 0 <= k < |items| ==> Acceptable(nfc, items[k])
    case Object(entries) =>
      && KeysStayApart(nfc, entries)
      && forall k :: 0 <= k < |entries| ==> Acceptable(nfc, entries[k].value)
    case _ => true
  }

  /** `w` is `v` or sits somewhere inside it. */
  ghost predicate Within(w: Value, v: Value)
    decreases v
  {
    || w == v
    || (v.Array? && exists k :: 0 <= k < |v.items| && Within(w, v.items[k]))
    || (v.Object? && exists k :: 0 <= k < |v.entries| && Within(w, v.entries[k].value))
  }

  /** A number that is no integer, or an object with two keys of one NFC form. */
  ghost predicate Offends(nfc: Text -> Text, w: Value) {
    || w.Fraction?
    || (w.Object? && exists i, j :: 0 <= i < j < |w.entries| && nfc(w.entries[i].key) == nfc(w.entries[j].key))
  }

  lemma {:induction false} OffenderFound(nfc: Text -> Text, v: Value) returns (w: Value)
    requires !Acceptable(nfc, v)
    ensures Within(w, v) && Offends(nfc, w)
    decreases v
  {
    w := v;
    if v.Array? {
      var k :| 0 <= k < |v.items| && !Acceptable(nfc, v.items[k]);
      w := OffenderFound(nfc, v.items[k]);
    } else if v.Object? && KeysStayApart(nfc, v.entries) {
      var k :| 0 <= k < |v.entries| && !Acceptable(nfc, v.entries[k].value);
      w := OffenderFound(nfc, v.entries[k].value);
    }
  }

  lemma {:induction false} OffenderRejects(nfc: Text -> Text, w: Value, v: Value)
    requires Within(w, v) && Offends(nfc, w)
    ensures !Acceptable(nfc, v)
    decreases v
  {
    if w != v {
      if v.Array? {
        var k :| 0 <= k < |v.items| && Within(w, v.items[k]);
        OffenderRejects(nfc, w, v.items[k]);
      } else {
        var k :| 0 <= k < |v.entries| && Within(w, v.entries[k].value);
        OffenderRejects(nfc, w, v.entries[k].value);
      }
    }
  }

  /** A value is rejected exactly for something that offends inside it. */
  lemma RejectedExactlyBy(nfc: Text -> Text, v: Value)
    ensures !Acceptable(nfc, v) <==> exists w :: Within(w, v) && Offends(nfc, w)
  {
    if !Acceptable(nfc, v) {
      var w := OffenderFound(nfc, v);
    }
    if w :| Within(w, v) && Offends(nfc, w) {
      OffenderRejects(nfc, w, v);
    }
  }

  /** Lengths are 64-bit and integers are what a JSON number can hold exactly (i64 or u64). */
  ghost predicate Sized(nfc: Text -> Text, v: Value)
    decreases v
  {
    match v
    case Integer(i) => -0x8000_0000_0000_0000 <= i < TWO64
    case String(text) => |nfc(text)| < TWO64
    case Array(items) => |items| < TWO64 && forall k :: 0 <= k < |items| ==> Sized(nfc, items[k])
    case Object(entries) =>
      && |entries| < TWO64
      && forall k :: 0 <= k < |entries| ==> |nfc(entries[k].key)| < TWO64 && Sized(nfc, entries[k].value)
    case _ => true
  }

  function Encode(nfc: Text -> Text, v: Value): Text {
    Plain(Canonical(nfc, v))
  }

  // ---------------------------------------------------------------------------------------------
  // The encoder as written

  class Encoder {
    var buf: Text

    constructor ()
      ensures buf == []
    {
      buf := [];
    }

    method Put(bytes: Text)
      modifies this
      ensures buf == old(buf) + bytes
    {
      buf := buf + bytes;
    }
  }

  /** One map entry on its way out: the encoded key, the normalized key, the value. */
  datatype Keyed = Keyed(code: Text, key: Text, value: Value)

  function Code(k: Keyed): Text {
    k.code
  }

  function Emitted(nfc: Text -> Text, k: Keyed): Entry {
    Entry(k.key, Canonical(nfc, k.value))
  }

  function EmittedAll(nfc: Text -> Text, ks: seq<Keyed>): (r: seq<Entry>)
    ensures |r| == |ks|
  {
    if ks == [] then [] else [Emitted(nfc, ks[0])] + EmittedAll(nfc, ks[1..])
  }

  lemma {:induction false} EmittedAt(nfc: Text -> Text, ks: seq<Keyed>, i: nat)
    requires i < |ks|
    ensures EmittedAll(nfc, ks)[i] == Emitted(nfc, ks[i])
  {
    if i > 0 { EmittedAt(nfc, ks[1..], i - 1); }
  }

  lemma {:induction false} PlainItemsAppend(items: seq<Value>, v: Value)
    ensures PlainItems(items + [v]) == PlainItems(items) + Plain(v)
  {
    if items == [] {
      assert (items + [v])[1..] == [];
    } else {
      assert (items + [v])[1..] == items[1..] + [v];
      PlainItemsAppend(items[1..], v);
    }
  }

  lemma {:induction false} PlainEntriesAppend(entries: seq<Entry>, e: Entry)
    ensures PlainEntries(entries + [e]) == PlainEntries(entries) + (TextItem(e.key) + Plain(e.value))
  {
    if entries == [] {
      assert (entries + [e])[1..] == [];
    } else {
      assert (entries + [e])[1..] == entries[1..] + [e];
      PlainEntriesAppend(entries[1..], e);
    }
  }

  /** What the first `n` items are written as, one after the other. */
  function ItemsUpTo(items: seq<Value>, n: nat): Text
    requires n <= |items|
  {
    if n == 0 then [] else ItemsUpTo(items, n - 1) + Plain(items[n - 1])
  }

  lemma {:induction false} ItemsUpToIs(items: seq<Value>, n: nat)
    requires n <= |items|
    ensures ItemsUpTo(items, n) == PlainItems(items[..n])
  {
    if n > 0 {
      ItemsUpToIs(items, n - 1);
      assert items[..n] == items[..n - 1] + [items[n - 1]];
      PlainItemsAppend(items[..n - 1], items[n - 1]);
    }
  }

  /** What the first `n` entries are written as, one after the other. */
  function EntriesUpTo(entries: seq<Entry>, n: nat): Text
    requires n <= |entries|
  {
    if n == 0 then []
    else EntriesUpTo(entries, n - 1) + (TextItem(entries[n - 1].key) + Plain(entries[n - 1].value))
  }

  lemma {:induction false} EntriesUpToIs(entries: seq<Entry>, n: nat)
    requires n <= |entries|
    ensures EntriesUpTo(entries, n) == PlainEntries(entries[..n])
  {
    if n > 0 {
      EntriesUpToIs(entries, n - 1);
      assert entries[..n] == entries[..n - 1] + [entries[n - 1]];
      PlainEntriesAppend(entries[..n - 1], entries[n - 1]);
    }
  }

  /** The entries an object is going to emit, as the source collects them. */
  ghost predicate Collected(nfc: Text -> Text, entries: seq<Entry>, ks: seq<Keyed>) {
    && |ks| == |entries|
    && forall i :: 0 <= i < |ks| ==>
         ks[i] == Keyed(TextItem(nfc(entries[i].key)), nfc(entries[i].key), entries[i].value)
  }

  method Collect(nfc: Text -> Text, entries: seq<Entry>) returns (ks: seq<Keyed>)
    ensures Collected(nfc, entries, ks)
  {
    ks := [];
    for i := 0 to |entries|
      invariant Collected(nfc, entries[..i], ks)
    {
      var key := nfc(entries[i].key);
      ks := ks + [Keyed(TextItem(key), key, entries[i].value)];
      assert entries[..i + 1] == entries[..i] + [entries[i]];
    }
    assert entries[..|entries|] == entries;
  }

  /** The window test after sorting fails exactly when two keys normalize to one. */
  lemma WindowTestIsExact(nfc: Text -> Text, entries: seq<Entry>, ks: seq<Keyed>)
    requires Collected(nfc, entries, ks)
    requires forall i :: 0 <= i < |entries| ==> |nfc(entries[i].key)| < TWO64
    ensures NeighboursDiffer(Code, Sort(Code, ks)) <==> KeysStayApart(nfc, entries)
    ensures KeysStayApart(nfc, entries) ==> DistinctKeys(Code, ks)
  {
    SortSorted(Code, ks);
    NeighboursFindDuplicates(Code, Sort(Code, ks));
    SortDistinct(Code, ks);
    if KeysStayApart(nfc, entries) {
      forall i, j | 0 <= i < j < |ks|
        ensures Code(ks[i]) != Code(ks[j])
      {
        if Code(ks[i]) == Code(ks[j]) { TextItemInjective(ks[i].key, ks[j].key); }
      }
    }
    if DistinctKeys(Code, ks) {
      forall i, j | 0 <= i < j < |entries|
        ensures nfc(entries[i].key) != nfc(entries[j].key)
      {
        assert Code(ks[i]) != Code(ks[j]);
      }
    }
  }

  /** The canonical entries of an object are those collected, one for one. */
  lemma CollectedIsCanonical(nfc: Text -> Text, entries: seq<Entry>, ks: seq<Keyed>)
    requires Collected(nfc, entries, ks)
    ensures EmittedAll(nfc, ks) == CanonicalEntries(nfc, entries)
  {
    var es, cs := EmittedAll(nfc, ks), CanonicalEntries(nfc, entries);
    forall i | 0 <= i < |ks|
      ensures es[i] == cs[i]
    {
      EmittedAt(nfc, ks, i);
      CanonicalEntriesAt(nfc, entries, i);
    }
  }

  lemma EmittedMembers(nfc: Text -> Text, a: seq<Keyed>, b: seq<Keyed>, e: Entry)
    requires (forall x :: x in a <==> x in b) && e in EmittedAll(nfc, a)
    ensures e in EmittedAll(nfc, b)
  {
    var i :| 0 <= i < |a| && EmittedAll(nfc, a)[i] == e;
    EmittedAt(nfc, a, i);
    assert a[i] in b;
    var j :| 0 <= j < |b| && b[j] == a[i];
    EmittedAt(nfc, b, j);
  }

  lemma EmittedStaysSorted(nfc: Text -> Text, ks: seq<Keyed>)
    requires StrictlySorted(Code, ks) && forall i :: 0 <= i < |ks| ==> ks[i].code == TextItem(ks[i].key)
    ensures StrictlySorted(KeyItem, EmittedAll(nfc, ks))
  {
    var es := EmittedAll(nfc, ks);
    forall i, j | 0 <= i < j < |es|
      ensures Less(KeyItem(es[i]), KeyItem(es[j]))
    {
      EmittedAt(nfc, ks, i);
      EmittedAt(nfc, ks, j);
      assert Less(Code(ks[i]), Code(ks[j]));
    }
  }

  lemma SortStrictly<T>(key: T -> Text, s: seq<T>)
    requires DistinctKeys(key, s)
    ensures StrictlySorted(key, Sort(key, s))
  {
    SortSorted(key, s);
    SortDistinct(key, s);
    NeighboursFindDuplicates(key, Sort(key, s));
  }

  /** Sorting before or after, the same entries are emitted. */
  lemma SameEmitted(nfc: Text -> Text, ks: seq<Keyed>)
    ensures forall e :: e in EmittedAll(nfc, Sort(Code, ks)) <==> e in Sort(KeyItem, EmittedAll(nfc, ks))
    ensures |EmittedAll(nfc, Sort(Code, ks))| == |Sort(KeyItem, EmittedAll(nfc, ks))|
  {
    var sorted, es := Sort(Code, ks), EmittedAll(nfc, ks);
    SortMembers(Code, ks);
    SortMembers(KeyItem, es);
    forall e
      ensures e in EmittedAll(nfc, sorted) <==> e in es
    {
      if e in EmittedAll(nfc, sorted) { EmittedMembers(nfc, sorted, ks, e); }
      if e in es { EmittedMembers(nfc, ks, sorted, e); }
    }
  }

  /** Sorting first and encoding the values afterwards emits the canonical object. */
  lemma SortedIsCanonical(nfc: Text -> Text, entries: seq<Entry>, ks: seq<Keyed>)
    requires Collected(nfc, entries, ks) && DistinctKeys(Code, ks)
    ensures Canonical(nfc, Object(entries)) == Object(EmittedAll(nfc, Sort(Code, ks)))
  {
    var sorted, es := Sort(Code, ks), EmittedAll(nfc, ks);
    SortMembers(Code, ks);
    SortStrictly(Code, ks);
    forall i | 0 <= i < |sorted|
      ensures sorted[i].code == TextItem(sorted[i].key)
    {
      assert sorted[i] in ks;
    }
    EmittedStaysSorted(nfc, sorted);
    EmittedDistinct(nfc, entries, ks);
    SortStrictly(KeyItem, es);
    SameEmitted(nfc, ks);
    StrictlySortedUnique(KeyItem, EmittedAll(nfc, sorted), Sort(KeyItem, es));
    CollectedIsCanonical(nfc, entries, ks);
  }

  lemma EmittedDistinct(nfc: Text -> Text, entries: seq<Entry>, ks: seq<Keyed>)
    requires Collected(nfc, entries, ks) && DistinctKeys(Code, ks)
    ensures DistinctKeys(KeyItem, EmittedAll(nfc, ks))
  {
    var es := EmittedAll(nfc, ks);
    forall i, j | 0 <= i < j < |es|
      ensures KeyItem(es[i]) != KeyItem(es[j])
    {
      EmittedAt(nfc, ks, i);
      EmittedAt(nfc, ks, j);
      assert Code(ks[i]) != Code(ks[j]);
    }
  }

  lemma SortedFrom(nfc: Text -> Text, entries: seq<Entry>, ks: seq<Keyed>, i: nat) returns (j: nat)
    requires Collected(nfc, entries, ks) && i < |ks|
    ensures j < |entries| && Sort(Code, ks)[i].value == entries[j].value
  {
    SortMembers(Code, ks);
    assert Sort(Code, ks)[i] in ks;
    j :| 0 <= j < |ks| && ks[j] == Sort(Code, ks)[i];
  }

  lemma SortedTo(nfc: Text -> Text, entries: seq<Entry>, ks: seq<Keyed>, j: nat) returns (i: nat)
    requires Collected(nfc, entries, ks) && j < |ks|
    ensures i < |ks| && Sort(Code, ks)[i].value == entries[j].value
  {
    SortMembers(Code, ks);
    assert ks[j] in Sort(Code, ks);
    i :| 0 <= i < |ks| && Sort(Code, ks)[i] == ks[j];
  }

  /** The sorted entries carry the object's own values: sized, smaller, and all of them. */
  lemma SortedValues(nfc: Text -> Text, entries: seq<Entry>, ks: seq<Keyed>, sorted: seq<Keyed>)
    requires Collected(nfc, entries, ks) && Sized(nfc, Object(entries)) && sorted == Sort(Code, ks)
    ensures forall i :: 0 <= i < |sorted| ==> Sized(nfc, sorted[i].value)
    ensures forall i :: 0 <= i < |sorted| ==> sorted[i].value < Object(entries)
    ensures (forall i :: 0 <= i < |sorted| ==> Acceptable(nfc, sorted[i].value))
       <==> (forall j :: 0 <= j < |entries| ==> Acceptable(nfc, entries[j].value))
  {
    forall i | 0 <= i < |sorted|
      ensures Sized(nfc, sorted[i].value) && sorted[i].value < Object(entries)
      ensures (forall j :: 0 <= j < |entries| ==> Acceptable(nfc, entries[j].value))
              ==> Acceptable(nfc, sorted[i].value)
    {
      var j := SortedFrom(nfc, entries, ks, i);
      assert entries[j].value < entries[j];
    }
    forall j | 0 <= j < |entries|
      ensures (forall i :: 0 <= i < |sorted| ==> Acceptable(nfc, sorted[i].value))
              ==> Acceptable(nfc, entries[j].value)
    {
      var i := SortedTo(nfc, entries, ks, j);
    }
  }

  /** The first `n` items have canonical encodings. */
  ghost predicate FirstAcceptable(nfc: Text -> Text, items: seq<Value>, n: nat)
    requires n <= |items|
  {
    n == 0 || (FirstAcceptable(nfc, items, n - 1) && Acceptable(nfc, items[n - 1]))
  }

  lemma {:induction false} FirstAcceptableIff(nfc: Text -> Text, items: seq<Value>, n: nat)
    requires n <= |items|
    ensures FirstAcceptable(nfc, items, n) <==> forall k :: 0 <= k < n ==> Acceptable(nfc, items[k])
  {
    if n > 0 { FirstAcceptableIff(nfc, items, n - 1); }
  }

  /** The first `n` items are sized. */
  ghost predicate FirstSized(nfc: Text -> Text, items: seq<Value>, n: nat)
    requires n <= |items|
  {
    n == 0 || (FirstSized(nfc, items, n - 1) && Sized(nfc, items[n - 1]))
  }

  lemma {:induction false} AllSized(nfc: Text -> Text, items: seq<Value>, n: nat)
    requires n <= |items| && forall k :: 0 <= k < |items| ==> Sized(nfc, items[k])
    ensures FirstSized(nfc, items, n)
  {
    if n > 0 { AllSized(nfc, items, n - 1); }
  }

  lemma {:induction false} SizedAt(nfc: Text -> Text, items: seq<Value>, n: nat, i: nat)
    requires i < n <= |items| && FirstSized(nfc, items, n)
    ensures Sized(nfc, items[i])
    decreases n
  {
    if i < n - 1 { SizedAt(nfc, items, n - 1, i); }
  }

  lemma {:induction false} NotAllAcceptable(nfc: Text -> Text, items: seq<Value>, n: nat, i: nat)
    requires i < n <= |items| && !Acceptable(nfc, items[i])
    ensures !FirstAcceptable(nfc, items, n)
    decreases n
  {
    if i < n - 1 { NotAllAcceptable(nfc, items, n - 1, i); }
  }

  /** Encodes `v` at the end of the buffer, or reports that it has no canonical encoding. */
  method EncodeCanonicalJson(nfc: Text -> Text, v: Value, enc: Encoder) returns (ok: bool)
    requires Sized(nfc, v)
    modifies enc
    ensures ok <==> Acceptable(nfc, v)
    ensures ok ==> enc.buf == old(enc.buf) + Encode(nfc, v)
    decreases v, 2
  {
    match v
    case Null => enc.Put([0xf6]); ok := true;
    case Bool(b) => enc.Put(if b then [0xf5] else [0xf4]); ok := true;
    case Integer(i) => enc.Put(if i >= 0 then Head(0, i) else Head(1, -1 - i)); ok := true;
    case Fraction(_) => ok := false;
    case String(text) => enc.Put(TextItem(nfc(text))); ok := true;
    case Array(items) => ok := EncodeArray(nfc, items, enc);
    case Object(entries) => ok := EncodeObject(nfc, entries, enc);
  }

  /** The first `n` items, made canonical. */
  ghost predicate FirstRendered(nfc: Text -> Text, items: seq<Value>, canonical: seq<Value>, n: nat)
    requires n <= |items| == |canonical|
  {
    n == 0 || (FirstRendered(nfc, items, canonical, n - 1) && canonical[n - 1] == Canonical(nfc, items[n - 1]))
  }

  lemma {:induction false} AllRendered(nfc: Text -> Text, items: seq<Value>, n: nat)
    requires n <= |items|
    ensures FirstRendered(nfc, items, CanonicalItems(nfc, items), n)
  {
    if n > 0 {
      AllRendered(nfc, items, n - 1);
      CanonicalItemsAt(nfc, items, n - 1);
    }
  }

  lemma {:induction false} RenderedAt(nfc: Text -> Text, items: seq<Value>, canonical: seq<Value>, n: nat, i: nat)
    requires i < n <= |items| == |canonical| && FirstRendered(nfc, items, canonical, n)
    ensures canonical[i] == Canonical(nfc, items[i])
    decreases n
  {
    if i < n - 1 { RenderedAt(nfc, items, canonical, n - 1, i); }
  }

  method EncodeArray(nfc: Text -> Text, items: seq<Value>, enc: Encoder) returns (ok: bool)
    requires Sized(nfc, Array(items))
    modifies enc
    ensures ok <==> Acceptable(nfc, Array(items))
    ensures ok ==> enc.buf == old(enc.buf) + Encode(nfc, Array(items))
    decreases Array(items), 1
  {
    ghost var canonical := CanonicalItems(nfc, items);
    AllSized(nfc, items, |items|);
    AllRendered(nfc, items, |items|);
    FirstAcceptableIff(nfc, items, |items|);
    enc.Put(Head(ARRAY, |items|));
    ok := EncodeItems(nfc, items, enc, canonical);
    Concat(old(enc.buf), Head(ARRAY, |items|), PlainItems(canonical));
  }

  lemma ValuesSorted(nfc: Text -> Text, entries: seq<Entry>, ks: seq<Keyed>, sorted: seq<Keyed>)
    requires Sized(nfc, Object(entries)) && Collected(nfc, entries, ks) && sorted == Sort(Code, ks)
    ensures WithinReach(nfc, sorted, Object(entries), |sorted|)
    ensures FirstValuesAcceptable(nfc, sorted, |sorted|)
       <==> forall j :: 0 <= j < |entries| ==> Acceptable(nfc, entries[j].value)
  {
    SortedValues(nfc, entries, ks, sorted);
    AllWithinReach(nfc, sorted, Object(entries), |sorted|);
    FirstValuesAcceptableIff(nfc, sorted, |sorted|);
  }

  /** An object that passes the window test is its sorted entries ... */
  lemma ObjectSorted(nfc: Text -> Text, entries: seq<Entry>, ks: seq<Keyed>, sorted: seq<Keyed>)
    requires Sized(nfc, Object(entries)) && Collected(nfc, entries, ks)
    requires sorted == Sort(Code, ks) && NeighboursDiffer(Code, sorted)
    ensures Canonical(nfc, Object(entries)) == Object(EmittedAll(nfc, sorted))
    ensures KeysStayApart(nfc, entries)
  {
    WindowTestIsExact(nfc, entries, ks);
    SortedIsCanonical(nfc, entries, ks);
  }

  /** ... and acceptable exactly when their values are. */
  lemma ObjectAcceptable(nfc: Text -> Text, entries: seq<Entry>, ks: seq<Keyed>, sorted: seq<Keyed>)
    requires Sized(nfc, Object(entries)) && Collected(nfc, entries, ks) && sorted == Sort(Code, ks)
    requires KeysStayApart(nfc, entries)
    ensures WithinReach(nfc, sorted, Object(entries), |sorted|)
    ensures FirstValuesAcceptable(nfc, sorted, |sorted|) <==> Acceptable(nfc, Object(entries))
  {
    ValuesSorted(nfc, entries, ks, sorted);
  }

  lemma ObjectRejected(nfc: Text -> Text, entries: seq<Entry>, ks: seq<Keyed>)
    requires Sized(nfc, Object(entries)) && Collected(nfc, entries, ks) && !NeighboursDiffer(Code, Sort(Code, ks))
    ensures !Acceptable(nfc, Object(entries))
  {
    WindowTestIsExact(nfc, entries, ks);
  }

  method EncodeObject(nfc: Text -> Text, entries: seq<Entry>, enc: Encoder) returns (ok: bool)
    requires Sized(nfc, Object(entries))
    modifies enc
    ensures ok <==> Acceptable(nfc, Object(entries))
    ensures ok ==> enc.buf == old(enc.buf) + Encode(nfc, Object(entries))
    decreases Object(entries), 1
  {
    var ks := Collect(nfc, entries);
    var sorted := Sort(Code, ks);
    if !NeighboursDiffer(Code, sorted) {
      ObjectRejected(nfc, entries, ks);
      return false;
    }
    ObjectSorted(nfc, entries, ks, sorted);
    ObjectAcceptable(nfc, entries, ks, sorted);
    enc.Put(Head(MAP, |sorted|));
    ok := EncodeMembers(nfc, sorted, enc, Object(entries));
    Concat(old(enc.buf), Head(MAP, |sorted|), PlainEntries(EmittedAll(nfc, sorted)));
  }

  method EncodeItem(nfc: Text -> Text, items: seq<Value>, i: nat, enc: Encoder, ghost canonical: seq<Value>,
                    ghost before: Text)
    returns (ok: bool)
    requires i < |items| == |canonical| && Sized(nfc, items[i]) && canonical[i] == Canonical(nfc, items[i])
    requires enc.buf == before + ItemsUpTo(canonical, i)
    modifies enc
    ensures ok <==> Acceptable(nfc, items[i])
    ensures ok ==> enc.buf == before + ItemsUpTo(canonical, i + 1)
    decreases items, 0
  {
    ok := EncodeCanonicalJson(nfc, items[i], enc);
    Concat(before, ItemsUpTo(canonical, i), Plain(canonical[i]));
  }

  method EncodeItems(nfc: Text -> Text, items: seq<Value>, enc: Encoder, ghost canonical: seq<Value>)
    returns (ok: bool)
    requires |items| == |canonical| && FirstSized(nfc, items, |items|)
    requires FirstRendered(nfc, items, canonical, |items|)
    modifies enc
    ensures ok <==> FirstAcceptable(nfc, items, |items|)
    ensures ok ==> enc.buf == old(enc.buf) + PlainItems(canonical)
    decreases items, 1
  {
    ghost var before := enc.buf;
    for i := 0 to |items|
      invariant FirstAcceptable(nfc, items, i)
      invariant enc.buf == before + ItemsUpTo(canonical, i)
    {
      SizedAt(nfc, items, |items|, i);
      RenderedAt(nfc, items, canonical, |items|, i);
      var done := EncodeItem(nfc, items, i, enc, canonical, before);
      if !done {
        NotAllAcceptable(nfc, items, |items|, i);
        return false;
      }
    }
    ItemsUpToIs(canonical, |items|);
    assert canonical[..|items|] == canonical;
    ok := true;
  }

  method EncodeMember(nfc: Text -> Text, k: Keyed, enc: Encoder) returns (ok: bool)
    requires Sized(nfc, k.value)
    modifies enc
    ensures ok <==> Acceptable(nfc, k.value)
    ensures ok ==> enc.buf == old(enc.buf) + (TextItem(k.key) + Encode(nfc, k.value))
    decreases k.value, 3
  {
    enc.Put(TextItem(k.key));
    ok := EncodeCanonicalJson(nfc, k.value, enc);
    Concat(old(enc.buf), TextItem(k.key), Encode(nfc, k.value));
  }

  /** The first `n` entries have values with canonical encodings. */
  ghost predicate FirstValuesAcceptable(nfc: Text -> Text, ks: seq<Keyed>, n: nat)
    requires n <= |ks|
  {
    n == 0 || (FirstValuesAcceptable(nfc, ks, n - 1) && Acceptable(nfc, ks[n - 1].value))
  }

  lemma {:induction false} FirstValuesAcceptableIff(nfc: Text -> Text, ks: seq<Keyed>, n: nat)
    requires n <= |ks|
    ensures FirstValuesAcceptable(nfc, ks, n) <==> forall k :: 0 <= k < n ==> Acceptable(nfc, ks[k].value)
  {
    if n > 0 { FirstValuesAcceptableIff(nfc, ks, n - 1); }
  }

  lemma {:induction false} NotAllValuesAcceptable(nfc: Text -> Text, ks: seq<Keyed>, n: nat, i: nat)
    requires i < n <= |ks| && !Acceptable(nfc, ks[i].value)
    ensures !FirstValuesAcceptable(nfc, ks, n)
    decreases n
  {
    if i < n - 1 { NotAllValuesAcceptable(nfc, ks, n - 1, i); }
  }

  /** The first `n` values are sized, and smaller than the object they belong to. */
  ghost predicate WithinReach(nfc: Text -> Text, ks: seq<Keyed>, whole: Value, n: nat)
    requires n <= |ks|
  {
    n == 0 || (WithinReach(nfc, ks, whole, n - 1) && Sized(nfc, ks[n - 1].value) && ks[n - 1].value < whole)
  }

  lemma {:induction false} ReachedAt(nfc: Text -> Text, ks: seq<Keyed>, whole: Value, n: nat, i: nat)
    requires i < n <= |ks| && WithinReach(nfc, ks, whole, n)
    ensures Sized(nfc, ks[i].value) && ks[i].value < whole
    decreases n
  {
    if i < n - 1 { ReachedAt(nfc, ks, whole, n - 1, i); }
  }

  lemma {:induction false} AllWithinReach(nfc: Text -> Text, ks: seq<Keyed>, whole: Value, n: nat)
    requires n <= |ks|
    requires forall i :: 0 <= i < n ==> Sized(nfc, ks[i].value)
    requires forall i :: 0 <= i < n ==> ks[i].value < whole
    ensures WithinReach(nfc, ks, whole, n)
  {
    if n > 0 { AllWithinReach(nfc, ks, whole, n - 1); }
  }

  method EncodeNthMember(nfc: Text -> Text, sorted: seq<Keyed>, i: nat, enc: Encoder, ghost before: Text)
    returns (ok: bool)
    requires i < |sorted| && Sized(nfc, sorted[i].value)
    requires enc.buf == before + EntriesUpTo(EmittedAll(nfc, sorted), i)
    modifies enc
    ensures ok <==> Acceptable(nfc, sorted[i].value)
    ensures ok ==> enc.buf == before + EntriesUpTo(EmittedAll(nfc, sorted), i + 1)
    decreases sorted[i].value, 4
  {
    EmittedAt(nfc, sorted, i);
    ok := EncodeMember(nfc, sorted[i], enc);
    Concat(before, EntriesUpTo(EmittedAll(nfc, sorted), i), TextItem(sorted[i].key) + Encode(nfc, sorted[i].value));
  }

  method EncodeMembers(nfc: Text -> Text, sorted: seq<Keyed>, enc: Encoder, ghost whole: Value) returns (ok: bool)
    requires WithinReach(nfc, sorted, whole, |sorted|)
    modifies enc
    ensures ok <==> FirstValuesAcceptable(nfc, sorted, |sorted|)
    ensures ok ==> enc.buf == old(enc.buf) + PlainEntries(EmittedAll(nfc, sorted))
    decreases whole, 0
  {
    ghost var emitted := EmittedAll(nfc, sorted);
    ghost var before := enc.buf;
    for i := 0 to |sorted|
      invariant FirstValuesAcceptable(nfc, sorted, i)
      invariant enc.buf == before + EntriesUpTo(emitted, i)
    {
      ReachedAt(nfc, sorted, whole, |sorted|, i);
      var done := EncodeNthMember(nfc, sorted, i, enc, before);
      if !done {
        NotAllValuesAcceptable(nfc, sorted, |sorted|, i);
        return false;
      }
    }
    EntriesUpToIs(emitted, |sorted|);
    assert emitted[..|sorted|] == emitted;
    ok := true;
  }
}
