/** Canonicalisation of CBOR values. How a value is encoded as bytes is a parameter. */
module CanonicalCbor {
  import opened Bytes
  import opened Sorting
  import opened Wrappers

  /** Floats are their 64-bit patterns; text is its UTF-8 bytes. */
  datatype Value =
    | Null
    | Bool(b: bool)
    | Integer(n: int)
    | Float(bits: nat)
    | ByteString(bytes: Bytes)
    | Text(text: Bytes)
    | Array(items: seq<Value>)
    | Map(entries: seq<Entry>)
    | Tag(tag: nat, item: Value)

  datatype Entry = Entry(key: Value, value: Value)

  /** The encoder, which may refuse a value. */
  type Encoder = Value -> Option<Bytes>

  datatype CanonicalError = NotFinite | NegativeZero | KeyNotEncodable | DuplicateKey

  const NEGATIVE_ZERO: nat := 0x8000_0000_0000_0000

  /** The exponent field is not all ones. */
  predicate IsFinite(bits: nat) {
    bits / 0x10_0000_0000_0000 % 0x800 != 0x7ff
  }

  /** A map entry with its canonical key encoded. */
  datatype Keyed = Keyed(encoded: Bytes, key: Value, value: Value)

  function KeyOf(keyed: Keyed): Bytes {
    keyed.encoded
  }

  function Plain(keyed: seq<Keyed>): (entries: seq<Entry>)
    ensures |entries| == |keyed|
    ensures forall i :: 0 <= i < |keyed| ==> entries[i] == Entry(keyed[i].key, keyed[i].value)
  {
    if keyed == [] then [] else [Entry(keyed[0].key, keyed[0].value)] + Plain(keyed[1..])
  }

  function Canonicalize(encode: Encoder, value: Value): Result<Value, CanonicalError>
    decreases value, 1
  {
    match value
    case Array(items) =>
      (match CanonicalizeItems(encode, items)
       case Err(error) => Err(error)
       case Ok(canonical) => Ok(Array(canonical)))
    case Map(entries) =>
      (match CanonicalizeEntries(encode, entries)
       case Err(error) => Err(error)
       case Ok(keyed) => Arrange(keyed))
    case Float(bits) =>
      if !IsFinite(bits) then Err(NotFinite)
      else if bits == NEGATIVE_ZERO then Err(NegativeZero)
      else Ok(value)
    case Tag(tag, item) =>
      (match Canonicalize(encode, item)
       case Err(error) => Err(error)
       case Ok(canonical) => Ok(Tag(tag, canonical)))
    case _ => Ok(value)
  }

  function CanonicalizeItems(encode: Encoder, items: seq<Value>): (r: Result<seq<Value>, CanonicalError>)
    decreases items, 0
  {
    if items == [] then Ok([])
    else
      match Canonicalize(encode, items[0])
      case Err(error) => Err(error)
      case Ok(first) =>
        match CanonicalizeItems(encode, items[1..])
        case Err(error) => Err(error)
        case Ok(rest) => Ok([first] + rest)
  }

  function CanonicalizeEntry(encode: Encoder, entry: Entry): Result<Keyed, CanonicalError>
    decreases entry, 2
  {
    match Canonicalize(encode, entry.key)
    case Err(error) => Err(error)
    case Ok(key) =>
      match Canonicalize(encode, entry.value)
      case Err(error) => Err(error)
      case Ok(value) =>
        match encode(key)
        case None => Err(KeyNotEncodable)
        case Some(encoded) => Ok(Keyed(encoded, key, value))
  }

  function CanonicalizeEntries(encode: Encoder, entries: seq<Entry>): Result<seq<Keyed>, CanonicalError>
    decreases entries, 0
  {
    if entries == [] then Ok([])
    else
      match CanonicalizeEntry(encode, entries[0])
      case Err(error) => Err(error)
      case Ok(first) =>
        match CanonicalizeEntries(encode, entries[1..])
        case Err(error) => Err(error)
        case Ok(rest) => Ok([first] + rest)
  }

  /** Sorts by encoded key and refuses duplicates. */
  function Arrange(keyed: seq<Keyed>): Result<Value, CanonicalError> {
    var sorted := Sort(KeyOf, keyed);
    if HasEqualNeighbours(KeyOf, sorted) then Err(DuplicateKey) else Ok(Map(Plain(sorted)))
  }

  // ----- What canonical means -----

  /** Every key can be encoded, and each encoding precedes those of all later entries. */
  ghost predicate KeysIncrease(encode: Encoder, entries: seq<Entry>) {
    && (forall i :: 0 <= i < |entries| ==> encode(entries[i].key).Some?)
    && (forall i, j :: 0 <= i < j < |entries| ==>
          Precedes(encode(entries[i].key).value, encode(entries[j].key).value))
  }

  /** A float below infinity, whatever its sign, and not negative zero. */
  predicate IsCanonicalFloat(bits: nat) {
    bits % 0x8000_0000_0000_0000 < 0x7ff0_0000_0000_0000 && bits != 0x8000_0000_0000_0000
  }

  lemma CanonicalFloat(bits: nat)
    ensures IsCanonicalFloat(bits) <==> IsFinite(bits) && bits != NEGATIVE_ZERO
  {
  }

  /** At every depth, keys increase strictly and floats are finite and not negative zero. */
  ghost predicate IsCanonical(encode: Encoder, value: Value) {
    match value
    case Array(items) => forall i :: 0 <= i < |items| ==> IsCanonical(encode, items[i])
    case Map(entries) =>
      && KeysIncrease(encode, entries)
      && (forall i :: 0 <= i < |entries| ==>
            IsCanonical(encode, entries[i].key) && IsCanonical(encode, entries[i].value))
    case Float(bits) => IsCanonicalFloat(bits)
    case Tag(_, item) => IsCanonical(encode, item)
    case _ => true
  }

  // ----- Equality up to the order of map entries -----

  /** Equal up to permuting map entries at any depth. */
  ghost predicate Same(a: Value, b: Value)
    decreases a, 1
  {
    match a
    case Array(items) =>
      b.Array? && |items| == |b.items| && forall i :: 0 <= i < |items| ==> Same(items[i], b.items[i])
    case Map(entries) => b.Map? && SameEntries(entries, b.entries)
    case Tag(tag, item) => b.Tag? && tag == b.tag && Same(item, b.item)
    case _ => a == b
  }

  ghost predicate SameEntry(a: Entry, b: Entry)
    decreases a, 2
  {
    Same(a.key, b.key) && Same(a.value, b.value)
  }

  /** Each entry has a partner of its own on the other side. */
  ghost predicate SameEntries(a: seq<Entry>, b: seq<Entry>)
    decreases a, 0
  {
    if a == [] then b == []
    else exists j :: 0 <= j < |b| && SameEntry(a[0], b[j]) && SameEntries(a[1..], Without(b, j))
  }

  // ----- Canonicalisation, element by element -----

  lemma {:induction false} ItemsPointwise(encode: Encoder, items: seq<Value>)
    ensures var r := CanonicalizeItems(encode, items);
            && (r.Ok? <==> forall i :: 0 <= i < |items| ==> Canonicalize(encode, items[i]).Ok?)
            && (r.Ok? ==> |r.value| == |items|
                          && forall i :: 0 <= i < |items| ==> Canonicalize(encode, items[i]) == Ok(r.value[i]))
  {
    if items != [] {
      hide Canonicalize;
      ItemsPointwise(encode, items[1..]);
      assert forall i :: 0 < i < |items| ==> items[i] == items[1..][i - 1];
    }
  }

  lemma {:induction false} EntriesPointwise(encode: Encoder, entries: seq<Entry>)
    ensures var r := CanonicalizeEntries(encode, entries);
            && (r.Ok? <==> forall i :: 0 <= i < |entries| ==> CanonicalizeEntry(encode, entries[i]).Ok?)
            && (r.Ok? ==> |r.value| == |entries|
                          && forall i :: 0 <= i < |entries| ==> CanonicalizeEntry(encode, entries[i]) == Ok(r.value[i]))
  {
    if entries != [] {
      hide CanonicalizeEntry;
      EntriesPointwise(encode, entries[1..]);
      assert forall i :: 0 < i < |entries| ==> entries[i] == entries[1..][i - 1];
    }
  }

  // ----- The result is canonical, and canonical values are exactly the fixed points -----

  /** The result is strictly sorted at every depth. */
  lemma {:induction false} ResultIsCanonical(encode: Encoder, value: Value)
    requires Canonicalize(encode, value).Ok?
    ensures IsCanonical(encode, Canonicalize(encode, value).value)
    decreases value, 1
  {
    match value
    case Array(items) =>
      ItemsPointwise(encode, items);
      forall i | 0 <= i < |items|
        ensures IsCanonical(encode, CanonicalizeItems(encode, items).value[i])
      {
        ResultIsCanonical(encode, items[i]);
      }
    case Map(entries) =>
      EntriesPointwise(encode, entries);
      forall i | 0 <= i < |entries|
        ensures KeyedIsCanonical(encode, CanonicalizeEntries(encode, entries).value[i])
      {
        ResultIsCanonical(encode, entries[i].key);
        ResultIsCanonical(encode, entries[i].value);
      }
      ArrangedIsCanonical(encode, CanonicalizeEntries(encode, entries).value);
    case Tag(_, item) => ResultIsCanonical(encode, item);
    case Float(bits) => CanonicalFloat(bits);
    case _ =>
  }

  ghost predicate KeyedIsCanonical(encode: Encoder, keyed: Keyed) {
    encode(keyed.key) == Some(keyed.encoded) && IsCanonical(encode, keyed.key) && IsCanonical(encode, keyed.value)
  }

  lemma ArrangedIsCanonical(encode: Encoder, keyed: seq<Keyed>)
    requires forall i :: 0 <= i < |keyed| ==> KeyedIsCanonical(encode, keyed[i])
    requires Arrange(keyed).Ok?
    ensures IsCanonical(encode, Arrange(keyed).value)
  {
    var sorted := Sort(KeyOf, keyed);
    SortSorts(KeyOf, keyed);
    DistinctNeighbours(KeyOf, sorted);
    SortedEntriesAreCanonical(encode, keyed, sorted);
  }

  lemma {:induction false} SortedEntriesAreCanonical(encode: Encoder, keyed: seq<Keyed>, sorted: seq<Keyed>)
    requires forall i :: 0 <= i < |keyed| ==> KeyedIsCanonical(encode, keyed[i])
    requires multiset(sorted) == multiset(keyed) && StrictlySorted(KeyOf, sorted)
    ensures IsCanonical(encode, Map(Plain(sorted)))
  {
    forall i | 0 <= i < |sorted|
      ensures KeyedIsCanonical(encode, sorted[i])
    {
      assert sorted[i] in multiset(keyed);
    }
    hide Less, Plain;
    forall i, j | 0 <= i < j < |sorted|
      ensures Precedes(sorted[i].encoded, sorted[j].encoded)
    {
      LessExactly(sorted[i].encoded, sorted[j].encoded);
    }
    assert KeysIncrease(encode, Plain(sorted));
  }

  /** A canonical value is left as it is. */
  lemma {:induction false} CanonicalIsFixed(encode: Encoder, value: Value)
    requires IsCanonical(encode, value)
    ensures Canonicalize(encode, value) == Ok(value)
    decreases value
  {
    match value
    case Array(items) =>
      forall i | 0 <= i < |items|
        ensures Canonicalize(encode, items[i]) == Ok(items[i])
      {
        CanonicalIsFixed(encode, items[i]);
      }
      ItemsPointwise(encode, items);
      assert CanonicalizeItems(encode, items).value == items;
    case Map(entries) =>
      forall i | 0 <= i < |entries|
        ensures CanonicalizeEntry(encode, entries[i])
                == Ok(Keyed(encode(entries[i].key).value, entries[i].key, entries[i].value))
      {
        CanonicalIsFixed(encode, entries[i].key);
        CanonicalIsFixed(encode, entries[i].value);
      }
      EntriesPointwise(encode, entries);
      ArrangeKeepsSorted(encode, CanonicalizeEntries(encode, entries).value, entries);
    case Tag(_, item) => CanonicalIsFixed(encode, item);
    case Float(bits) => CanonicalFloat(bits);
    case _ =>
  }

  lemma ArrangeKeepsSorted(encode: Encoder, keyed: seq<Keyed>, entries: seq<Entry>)
    requires KeysIncrease(encode, entries) && |keyed| == |entries|
    requires forall i :: 0 <= i < |entries| ==>
               keyed[i] == Keyed(encode(entries[i].key).value, entries[i].key, entries[i].value)
    ensures Arrange(keyed) == Ok(Map(entries))
  {
    forall i, j | 0 <= i < j < |keyed|
      ensures Less(keyed[i].encoded, keyed[j].encoded)
    {
      LessExactly(keyed[i].encoded, keyed[j].encoded);
    }
    assert StrictlySorted(KeyOf, keyed);
    SortKeepsSorted(KeyOf, keyed);
    SortSorts(KeyOf, keyed);
    DistinctNeighbours(KeyOf, keyed);
    assert Plain(keyed) == entries;
  }

  /** Canonicalising twice is canonicalising once. */
  lemma Idempotent(encode: Encoder, value: Value)
    requires Canonicalize(encode, value).Ok?
    ensures var canonical := Canonicalize(encode, value).value; Canonicalize(encode, canonical) == Ok(canonical)
  {
    ResultIsCanonical(encode, value);
    CanonicalIsFixed(encode, Canonicalize(encode, value).value);
  }

  /** The fixed points are exactly the canonical values. */
  lemma FixedExactly(encode: Encoder, value: Value)
    ensures Canonicalize(encode, value) == Ok(value) <==> IsCanonical(encode, value)
  {
    if Canonicalize(encode, value) == Ok(value) {
      ResultIsCanonical(encode, value);
    } else if IsCanonical(encode, value) {
      CanonicalIsFixed(encode, value);
    }
  }

  // ----- The order of map entries does not matter -----

  /** Values equal up to the order of map entries have the same canonical form, or neither has one. */
  lemma {:induction false} OrderInvariant(encode: Encoder, a: Value, b: Value)
    requires Same(a, b)
    ensures Canonicalize(encode, a).Ok? <==> Canonicalize(encode, b).Ok?
    ensures Canonicalize(encode, a).Ok? ==> Canonicalize(encode, a) == Canonicalize(encode, b)
    decreases a, 1
  {
    match a
    case Array(items) =>
      forall i | 0 <= i < |items|
        ensures Canonicalize(encode, items[i]).Ok? <==> Canonicalize(encode, b.items[i]).Ok?
        ensures Canonicalize(encode, items[i]).Ok? ==>
                  Canonicalize(encode, items[i]) == Canonicalize(encode, b.items[i])
      {
        OrderInvariant(encode, items[i], b.items[i]);
      }
      SameItems(encode, items, b.items);
    case Map(entries) =>
      EntriesOrderInvariant(encode, entries, b.entries);
      if CanonicalizeEntries(encode, entries).Ok? {
        SortPermuted(KeyOf, CanonicalizeEntries(encode, entries).value, CanonicalizeEntries(encode, b.entries).value);
      }
    case Tag(_, item) => OrderInvariant(encode, item, b.item);
    case _ =>
  }

  lemma {:induction false} SameItems(encode: Encoder, a: seq<Value>, b: seq<Value>)
    requires |a| == |b|
    requires forall i :: 0 <= i < |a| ==> (Canonicalize(encode, a[i]).Ok? <==> Canonicalize(encode, b[i]).Ok?)
    requires forall i :: 0 <= i < |a| ==>
               Canonicalize(encode, a[i]).Ok? ==> Canonicalize(encode, a[i]) == Canonicalize(encode, b[i])
    ensures CanonicalizeItems(encode, a).Ok? <==> CanonicalizeItems(encode, b).Ok?
    ensures CanonicalizeItems(encode, a).Ok? ==> CanonicalizeItems(encode, a) == CanonicalizeItems(encode, b)
  {
    hide Canonicalize;
    ItemsPointwise(encode, a);
    ItemsPointwise(encode, b);
    if CanonicalizeItems(encode, a).Ok? {
      assert CanonicalizeItems(encode, a).value == CanonicalizeItems(encode, b).value;
    }
  }

  lemma {:induction false} EntriesOrderInvariant(encode: Encoder, a: seq<Entry>, b: seq<Entry>)
    requires SameEntries(a, b)
    ensures CanonicalizeEntries(encode, a).Ok? <==> CanonicalizeEntries(encode, b).Ok?
    ensures CanonicalizeEntries(encode, a).Ok? ==>
              multiset(CanonicalizeEntries(encode, a).value) == multiset(CanonicalizeEntries(encode, b).value)
    decreases a, 0
  {
    if a != [] {
      var j :| 0 <= j < |b| && SameEntry(a[0], b[j]) && SameEntries(a[1..], Without(b, j));
      EntryOrderInvariant(encode, a[0], b[j]);
      EntriesOrderInvariant(encode, a[1..], Without(b, j));
      PulledOut(encode, b, j);
      FirstEntry(encode, a);
    }
  }

  lemma {:induction false} EntryOrderInvariant(encode: Encoder, a: Entry, b: Entry)
    requires SameEntry(a, b)
    ensures CanonicalizeEntry(encode, a).Ok? <==> CanonicalizeEntry(encode, b).Ok?
    ensures CanonicalizeEntry(encode, a).Ok? ==> CanonicalizeEntry(encode, a) == CanonicalizeEntry(encode, b)
    decreases a, 2
  {
    OrderInvariant(encode, a.key, b.key);
    OrderInvariant(encode, a.value, b.value);
  }

  lemma FirstEntry(encode: Encoder, entries: seq<Entry>)
    requires entries != []
    ensures CanonicalizeEntries(encode, entries).Ok?
            <==> CanonicalizeEntry(encode, entries[0]).Ok? && CanonicalizeEntries(encode, entries[1..]).Ok?
    ensures CanonicalizeEntries(encode, entries).Ok? ==>
              multiset(CanonicalizeEntries(encode, entries).value)
              == multiset(CanonicalizeEntries(encode, entries[1..]).value)
                 + multiset{CanonicalizeEntry(encode, entries[0]).value}
  {
  }

  /** Any entry may be canonicalised first. */
  lemma {:induction false} PulledOut(encode: Encoder, entries: seq<Entry>, j: nat)
    requires j < |entries|
    ensures CanonicalizeEntries(encode, entries).Ok?
            <==> CanonicalizeEntry(encode, entries[j]).Ok? && CanonicalizeEntries(encode, Without(entries, j)).Ok?
    ensures CanonicalizeEntries(encode, entries).Ok? ==>
              multiset(CanonicalizeEntries(encode, entries).value)
              == multiset(CanonicalizeEntries(encode, Without(entries, j)).value)
                 + multiset{CanonicalizeEntry(encode, entries[j]).value}
  {
    FirstEntry(encode, entries);
    if j == 0 {
      assert Without(entries, 0) == entries[1..];
    } else {
      PulledOut(encode, entries[1..], j - 1);
      FirstEntry(encode, Without(entries, j));
      assert Without(entries, j)[1..] == Without(entries[1..], j - 1);
    }
  }

  // ----- Canonicalisation changes nothing but the order of map entries -----

  lemma {:induction false} ResultIsSame(encode: Encoder, value: Value)
    requires Canonicalize(encode, value).Ok?
    ensures Same(value, Canonicalize(encode, value).value)
    decreases value, 1
  {
    match value
    case Array(items) =>
      ItemsPointwise(encode, items);
      forall i | 0 <= i < |items|
        ensures Same(items[i], CanonicalizeItems(encode, items).value[i])
      {
        ResultIsSame(encode, items[i]);
      }
    case Map(entries) => EntriesAreSame(encode, entries);
    case Tag(_, item) => ResultIsSame(encode, item);
    case _ =>
  }

  lemma {:induction false} EntriesAreSame(encode: Encoder, entries: seq<Entry>)
    requires CanonicalizeEntries(encode, entries).Ok?
    ensures SameEntries(entries, Plain(Sort(KeyOf, CanonicalizeEntries(encode, entries).value)))
    decreases entries, 0
  {
    if entries != [] {
      var keyed := CanonicalizeEntries(encode, entries).value;
      EntryIsSame(encode, entries[0]);
      EntriesAreSame(encode, entries[1..]);
      var sorted := Sort(KeyOf, keyed[1..]);
      var j := InsertedAt(keyed[0], sorted);
      assert SameEntry(entries[0], Plain(Insert(KeyOf, keyed[0], sorted))[j]);
    }
  }

  lemma {:induction false} EntryIsSame(encode: Encoder, entry: Entry)
    requires CanonicalizeEntry(encode, entry).Ok?
    ensures var keyed := CanonicalizeEntry(encode, entry).value; SameEntry(entry, Entry(keyed.key, keyed.value))
    decreases entry, 2
  {
    ResultIsSame(encode, entry.key);
    ResultIsSame(encode, entry.value);
  }

  lemma {:induction false} InsertedAt(x: Keyed, xs: seq<Keyed>) returns (j: nat)
    ensures var inserted := Plain(Insert(KeyOf, x, xs));
            j < |inserted| && inserted[j] == Entry(x.key, x.value) && Without(inserted, j) == Plain(xs)
  {
    if xs != [] && Less(KeyOf(xs[0]), KeyOf(x)) {
      var i := InsertedAt(x, xs[1..]);
      j := i + 1;
      var rest := Plain(Insert(KeyOf, x, xs[1..]));
      assert Plain(Insert(KeyOf, x, xs)) == [Entry(xs[0].key, xs[0].value)] + rest;
      WithoutLater(Entry(xs[0].key, xs[0].value), rest, i);
    } else {
      j := 0;
      assert Plain(Insert(KeyOf, x, xs)) == [Entry(x.key, x.value)] + Plain(xs);
    }
  }

  lemma WithoutLater<T>(x: T, xs: seq<T>, i: nat)
    requires i < |xs|
    ensures Without([x] + xs, i + 1) == [x] + Without(xs, i)
  {
  }

  /** What canonicalisation returns, without a word on how: the canonical value that differs only in entry order. */
  lemma CanonicalFormExactly(encode: Encoder, value: Value, canonical: Value)
    ensures Canonicalize(encode, value) == Ok(canonical) <==> Same(value, canonical) && IsCanonical(encode, canonical)
  {
    if Canonicalize(encode, value) == Ok(canonical) {
      ResultIsCanonical(encode, value);
      ResultIsSame(encode, value);
    } else if Same(value, canonical) && IsCanonical(encode, canonical) {
      CanonicalIsFixed(encode, canonical);
      OrderInvariant(encode, value, canonical);
    }
  }

  // ----- Canonical forms decide equality up to order -----

  /** Removing two positions in either order leaves the same list. */
  lemma WithoutTwo<T>(xs: seq<T>, j: nat, k: nat) returns (j': nat, k': nat)
    requires j < |xs| && k < |xs| && j != k
    ensures j' < |xs| - 1 && k' < |xs| - 1
    ensures Without(xs, j)[k'] == xs[k] && Without(xs, k)[j'] == xs[j]
    ensures Without(Without(xs, j), k') == Without(Without(xs, k), j')
  {
    j' := if j < k then j else j - 1;
    k' := if k < j then k else k - 1;
  }

  /** Every entry on the right has a partner on the left, too. */
  lemma {:induction false} Partner(a: seq<Entry>, b: seq<Entry>, k: nat) returns (i: nat)
    requires SameEntries(a, b) && k < |b|
    ensures i < |a| && SameEntry(a[i], b[k]) && SameEntries(Without(a, i), Without(b, k))
    decreases |a|
  {
    hide SameEntry;
    var j :| 0 <= j < |b| && SameEntry(a[0], b[j]) && SameEntries(a[1..], Without(b, j));
    if j == k {
      i := 0;
      assert Without(a, 0) == a[1..];
    } else {
      var j', k' := WithoutTwo(b, j, k);
      var i' := Partner(a[1..], Without(b, j), k');
      i := i' + 1;
      FirstStillMatches(a, i', Without(b, k), j');
    }
  }

  lemma {:induction false} FirstStillMatches(a: seq<Entry>, i: nat, b: seq<Entry>, j: nat)
    requires i + 1 < |a| && j < |b|
    requires SameEntry(a[0], b[j]) && SameEntries(Without(a[1..], i), Without(b, j))
    ensures SameEntries(Without(a, i + 1), b)
  {
    hide SameEntry;
    var others := Without(a, i + 1);
    assert others[0] == a[0] && others[1..] == Without(a[1..], i);
  }

  lemma {:induction false} Symmetric(a: Value, b: Value)
    requires Same(a, b)
    ensures Same(b, a)
    decreases b, 1
  {
    match b
    case Array(items) =>
      forall i | 0 <= i < |items|
        ensures Same(items[i], a.items[i])
      {
        Symmetric(a.items[i], items[i]);
      }
    case Map(entries) => EntriesSymmetric(a.entries, entries);
    case Tag(_, item) => Symmetric(a.item, item);
    case _ =>
  }

  lemma {:induction false} EntrySymmetric(a: Entry, b: Entry)
    requires SameEntry(a, b)
    ensures SameEntry(b, a)
    decreases b, 2
  {
    Symmetric(a.key, b.key);
    Symmetric(a.value, b.value);
  }

  lemma {:induction false} EntriesSymmetric(a: seq<Entry>, b: seq<Entry>)
    requires SameEntries(a, b)
    ensures SameEntries(b, a)
    decreases b, 0
  {
    if b != [] {
      var i := Partner(a, b, 0);
      assert Without(b, 0) == b[1..];
      EntrySymmetric(a[i], b[0]);
      EntriesSymmetric(Without(a, i), b[1..]);
    }
  }

  lemma {:induction false} Transitive(a: Value, b: Value, c: Value)
    requires Same(a, b) && Same(b, c)
    ensures Same(a, c)
    decreases a, 1
  {
    match a
    case Array(items) =>
      forall i | 0 <= i < |items|
        ensures Same(items[i], c.items[i])
      {
        Transitive(items[i], b.items[i], c.items[i]);
      }
    case Map(entries) => EntriesTransitive(entries, b.entries, c.entries);
    case Tag(_, item) => Transitive(item, b.item, c.item);
    case _ =>
  }

  lemma {:induction false} EntryTransitive(a: Entry, b: Entry, c: Entry)
    requires SameEntry(a, b) && SameEntry(b, c)
    ensures SameEntry(a, c)
    decreases a, 2
  {
    Transitive(a.key, b.key, c.key);
    Transitive(a.value, b.value, c.value);
  }

  lemma {:induction false} EntriesTransitive(a: seq<Entry>, b: seq<Entry>, c: seq<Entry>)
    requires SameEntries(a, b) && SameEntries(b, c)
    ensures SameEntries(a, c)
    decreases a, 0
  {
    if a != [] {
      var j :| 0 <= j < |b| && SameEntry(a[0], b[j]) && SameEntries(a[1..], Without(b, j));
      EntriesSymmetric(b, c);
      var k := Partner(c, b, j);
      EntrySymmetric(c[k], b[j]);
      EntriesSymmetric(Without(c, k), Without(b, j));
      EntryTransitive(a[0], b[j], c[k]);
      EntriesTransitive(a[1..], Without(b, j), Without(c, k));
    }
  }

  /** Two values with canonical forms have the same one exactly when they differ only in the order of map entries. */
  lemma CanonicalFormDecides(encode: Encoder, a: Value, b: Value)
    requires Canonicalize(encode, a).Ok? && Canonicalize(encode, b).Ok?
    ensures Canonicalize(encode, a) == Canonicalize(encode, b) <==> Same(a, b)
  {
    if Same(a, b) {
      OrderInvariant(encode, a, b);
    }
    if Canonicalize(encode, a) == Canonicalize(encode, b) {
      var canonical := Canonicalize(encode, a).value;
      ResultIsSame(encode, a);
      ResultIsSame(encode, b);
      Symmetric(b, canonical);
      Transitive(a, canonical, b);
    }
  }
}
