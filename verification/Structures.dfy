/** The byte strings that are hashed or signed are CBOR, and of what shape. */
module Structures {
  import opened Bytes
  import opened CborDecoder
  import opened CborHead
  import opened CborSyntax
  import opened Preimages
  import Text

  /** The shortest argument for an amount below 2^32, as the writers choose it. */
  lemma {:induction false} ShortestArgument(major: Major, n: nat) returns (argument: Argument)
    requires n < 0x1_0000_0000
    ensures argument.Amount() == n && HeadSpelling(major, argument) == Head(major, n)
  {
    HeadBytes(major, n);
    hide Head;
    var head := Head(major, n);
    argument := if n <= 23 then Direct(n)
                else if n <= 0xff then One(n)
                else if n <= 0xffff then Two(head[1], head[2])
                else Four(head[1], head[2], head[3], head[4]);
  }

  /** ASCII text as UTF-16 code units. */
  function Units(text: string): (r: Text.Units)
    requires forall i :: 0 <= i < |text| ==> text[i] < 128 as char
    ensures |r| == |text|
  {
    seq(|text|, i requires 0 <= i < |text| => text[i] as int)
  }

  lemma {:induction false} BstrIsSpelled(content: Bytes) returns (written: Written)
    requires |content| < 0x1_0000_0000
    ensures Legal(written) && Meaning(written) == ByteString(content) && Spelling(written) == Bstr(content)
  {
    var argument := ShortestArgument(2, |content|);
    written := WBytes(argument, content);
  }

  lemma {:induction false} TstrIsSpelled(text: string) returns (written: Written)
    requires |text| < 24 && forall i :: 0 <= i < |text| ==> text[i] < 128 as char
    ensures Legal(written) && Meaning(written) == TextString(Units(text)) && Spelling(written) == Tstr(Ascii(text))
  {
    Text.AsciiArrives(Ascii(text), Units(text));
    hide Text.Decode;
    written := WText(Direct(|text|), Ascii(text));
  }

  lemma NextItem(item: Written, items: seq<Written>)
    ensures ItemMeanings([item] + items) == [Meaning(item)] + ItemMeanings(items)
    ensures ItemSpellings([item] + items) == Spelling(item) + ItemSpellings(items)
  {
    assert ([item] + items)[1..] == items;
  }

  lemma NoItems()
    ensures ItemMeanings([]) == [] && ItemSpellings([]) == []
  {
  }

  lemma {:induction false} FourItems(a: Written, b: Written, c: Written, d: Written)
    ensures ItemMeanings([a, b, c, d]) == [Meaning(a), Meaning(b), Meaning(c), Meaning(d)]
    ensures ItemSpellings([a, b, c, d]) == Spelling(a) + Spelling(b) + Spelling(c) + Spelling(d)
  {
    hide *;
    NoItems();
    NextItem(d, []);
    NextItem(c, [d]);
    NextItem(b, [c, d]);
    NextItem(a, [b, c, d]);
    assert [d] + [] == [d] && [c] + [d] == [c, d] && [b] + [c, d] == [b, c, d] && [a] + [b, c, d] == [a, b, c, d];
    Joined(Spelling(a), Spelling(b), Spelling(c), Spelling(d));
  }

  lemma Joined(a: Bytes, b: Bytes, c: Bytes, d: Bytes)
    ensures a + (b + (c + (d + []))) == a + b + c + d
  {
  }

  lemma {:induction false} FourAreLegal(a: Written, b: Written, c: Written, d: Written)
    requires Legal(a) && Legal(b) && Legal(c) && Legal(d)
    ensures Legal(WArray(Direct(4), [a, b, c, d]))
  {
    var items := [a, b, c, d];
    forall i | 0 <= i < 4
      ensures Legal(items[i])
    {
      assert items[i] == a || items[i] == b || items[i] == c || items[i] == d;
    }
  }

  lemma {:induction false} ArrayParts(items: seq<Written>)
    requires |items| == 4
    ensures Meaning(WArray(Direct(4), items)) == Array(ItemMeanings(items))
    ensures Spelling(WArray(Direct(4), items)) == [0x84] + ItemSpellings(items)
  {
    hide ItemMeanings, ItemSpellings;
  }

  lemma {:induction false} ArrayOfFour(a: Written, b: Written, c: Written, d: Written)
    requires Legal(a) && Legal(b) && Legal(c) && Legal(d)
    ensures Spells([0x84] + Spelling(a) + Spelling(b) + Spelling(c) + Spelling(d),
                   Array([Meaning(a), Meaning(b), Meaning(c), Meaning(d)]))
  {
    FourItems(a, b, c, d);
    FourAreLegal(a, b, c, d);
    ArrayParts([a, b, c, d]);
    hide *;
    SpelledBy(WArray(Direct(4), [a, b, c, d]));
    InFront([0x84], Spelling(a), Spelling(b), Spelling(c), Spelling(d));
  }

  lemma SpelledBy(written: Written)
    requires Legal(written)
    ensures Spells(Spelling(written), Meaning(written))
  {
  }

  lemma NothingBehind(bytes: Bytes)
    ensures bytes + [] == bytes
  {
  }

  lemma InFront(first: Bytes, a: Bytes, b: Bytes, c: Bytes, d: Bytes)
    ensures first + (a + b + c + d) == first + a + b + c + d
  {
  }

  lemma {:induction false} SigStructureParts(header: Bytes, payload: Bytes)
    requires Encodable(header) && Encodable(payload)
    ensures SigStructure(header, payload)
            == [0x84] + Tstr(Ascii("Signature1")) + Bstr(header) + [0x40] + Bstr(payload)
  {
    hide Tstr, Bstr, Ascii;
  }

  lemma NothingIsSpelled()
    ensures var written := WBytes(Direct(0), []);
            Legal(written) && Meaning(written) == ByteString([]) && Spelling(written) == [0x40]
  {
  }

  /** The signature input is an array of a context, the protected header, nothing, and the payload. */
  lemma {:induction false} SigStructureIsCbor(header: Bytes, payload: Bytes)
    requires |header| < 0x1_0000_0000 && |payload| < 0x1_0000_0000
    ensures Spells(SigStructure(header, payload),
                   Array([TextString(Units("Signature1")), ByteString(header), ByteString([]), ByteString(payload)]))
  {
    SigStructureParts(header, payload);
    hide Legal, Meaning, Spelling, Bstr, Tstr, Ascii, Units, Spells, SigStructure;
    var a := TstrIsSpelled("Signature1");
    var b := BstrIsSpelled(header);
    var d := BstrIsSpelled(payload);
    NothingIsSpelled();
    ArrayOfFour(a, b, WBytes(Direct(0), []), d);
  }

  lemma {:induction false} CanonicalParts(scope: Bytes, event: Bytes)
    requires Encodable(scope)
    ensures CanonicalPreimage(scope, event)
            == [0xa3] + (Tstr(Ascii("version")) + Uint(1)) + (Tstr(Ascii("ledger_scope")) + Bstr(scope))
               + (Tstr(Ascii("event_payload")) + event)
  {
    hide Tstr, Bstr, Ascii, Uint;
  }

  lemma KeysDiffer()
    ensures Units("version") != Units("ledger_scope") && Units("version") != Units("event_payload")
    ensures Units("ledger_scope") != Units("event_payload")
  {
    assert |Units("version")| == 7 && |Units("ledger_scope")| == 12 && |Units("event_payload")| == 13;
  }

  lemma VersionIsSpelled() returns (written: Written)
    ensures Legal(written) && Meaning(written) == TextString(Units("version"))
    ensures Spelling(written) == Tstr(Ascii("version"))
  {
    written := TstrIsSpelled("version");
  }

  lemma ScopeIsSpelled() returns (written: Written)
    ensures Legal(written) && Meaning(written) == TextString(Units("ledger_scope"))
    ensures Spelling(written) == Tstr(Ascii("ledger_scope"))
  {
    written := TstrIsSpelled("ledger_scope");
  }

  lemma PayloadIsSpelled() returns (written: Written)
    ensures Legal(written) && Meaning(written) == TextString(Units("event_payload"))
    ensures Spelling(written) == Tstr(Ascii("event_payload"))
  {
    written := TstrIsSpelled("event_payload");
  }

  lemma OneIsSpelled()
    ensures var written := WNumber(false, Direct(1));
            Legal(written) && Meaning(written) == Number(1) && Spelling(written) == Uint(1)
  {
  }

  lemma PairsOfText(key: Written, value: Written)
    ensures PairLegal(WrittenPair(key, value)) <==> Legal(key) && Legal(value)
    ensures PairMeaning(WrittenPair(key, value)) == Pair(Meaning(key), Meaning(value))
    ensures PairSpelling(WrittenPair(key, value)) == Spelling(key) + Spelling(value)
  {
  }

  /** An event, in the form in which it is hashed, is a map of version, scope and payload. */
  lemma {:induction false} CanonicalIsCbor(scope: Bytes, event: Bytes, value: Value)
    requires |scope| < 0x1_0000_0000 && Spells(event, value)
    ensures Spells(CanonicalPreimage(scope, event),
                   Map([Pair(TextString(Units("version")), Number(1)),
                        Pair(TextString(Units("ledger_scope")), ByteString(scope)),
                        Pair(TextString(Units("event_payload")), value)]))
  {
    var e :| Legal(e) && Meaning(e) == value && event == Spelling(e);
    CanonicalParts(scope, event);
    KeysDiffer();
    hide Legal, Meaning, Spelling, Bstr, Tstr, Ascii, Units, Uint, Spells, CanonicalPreimage;
    var a := VersionIsSpelled();
    var b := ScopeIsSpelled();
    var c := PayloadIsSpelled();
    var d := BstrIsSpelled(scope);
    OneIsSpelled();
    PairsOfText(a, WNumber(false, Direct(1)));
    PairsOfText(b, d);
    PairsOfText(c, e);
    hide *;
    MapOfThree(WrittenPair(a, WNumber(false, Direct(1))), WrittenPair(b, d), WrittenPair(c, e));
  }

  lemma NextPair(pair: WrittenPair, pairs: seq<WrittenPair>)
    ensures PairMeanings([pair] + pairs) == [PairMeaning(pair)] + PairMeanings(pairs)
    ensures PairSpellings([pair] + pairs) == PairSpelling(pair) + PairSpellings(pairs)
  {
    assert ([pair] + pairs)[1..] == pairs;
  }

  lemma NoPairs()
    ensures PairMeanings([]) == [] && PairSpellings([]) == []
  {
  }

  lemma {:induction false} ThreePairs(p: WrittenPair, q: WrittenPair, r: WrittenPair)
    ensures PairMeanings([p, q, r]) == [PairMeaning(p), PairMeaning(q), PairMeaning(r)]
    ensures PairSpellings([p, q, r]) == PairSpelling(p) + PairSpelling(q) + PairSpelling(r)
  {
    hide *;
    NoPairs();
    NextPair(r, []);
    NextPair(q, [r]);
    NextPair(p, [q, r]);
    assert [r] + [] == [r] && [q] + [r] == [q, r] && [p] + [q, r] == [p, q, r];
    Joined(PairSpelling(p), PairSpelling(q), PairSpelling(r), []);
    assert PairSpelling(p) + PairSpelling(q) + PairSpelling(r) + []
        == PairSpelling(p) + PairSpelling(q) + PairSpelling(r);
    assert PairSpelling(r) + ([] + []) == PairSpelling(r) + [];
  }

  lemma {:induction false} ThreeAreLegal(p: WrittenPair, q: WrittenPair, r: WrittenPair)
    requires PairLegal(p) && PairLegal(q) && PairLegal(r)
    requires PairMeaning(p).key.TextString? && PairMeaning(q).key.TextString? && PairMeaning(r).key.TextString?
    ensures Legal(WMap(Direct(3), [p, q, r]))
  {
    var pairs := [p, q, r];
    ThreePairs(p, q, r);
    hide PairLegal, PairMeaning, PairMeanings;
    forall i | 0 <= i < 3
      ensures PairLegal(pairs[i])
    {
      assert pairs[i] == p || pairs[i] == q || pairs[i] == r;
    }
  }

  lemma {:induction false} MapParts(pairs: seq<WrittenPair>)
    requires |pairs| == 3
    ensures Meaning(WMap(Direct(3), pairs)) == Map(SetAll([], PairMeanings(pairs)))
    ensures Spelling(WMap(Direct(3), pairs)) == [0xa3] + PairSpellings(pairs)
  {
    hide PairMeanings, PairSpellings, SetAll;
  }

  /** Three pairs with different text keys are three entries. */
  lemma {:induction false} MapOfThree(p: WrittenPair, q: WrittenPair, r: WrittenPair)
    requires PairLegal(p) && PairLegal(q) && PairLegal(r)
    requires PairMeaning(p).key.TextString? && PairMeaning(q).key.TextString? && PairMeaning(r).key.TextString?
    requires PairMeaning(p).key != PairMeaning(q).key && PairMeaning(p).key != PairMeaning(r).key
    requires PairMeaning(q).key != PairMeaning(r).key
    ensures Spells([0xa3] + PairSpelling(p) + PairSpelling(q) + PairSpelling(r),
                   Map([PairMeaning(p), PairMeaning(q), PairMeaning(r)]))
  {
    ThreePairs(p, q, r);
    ThreeAreLegal(p, q, r);
    SetAllThree(PairMeaning(p), PairMeaning(q), PairMeaning(r));
    MapParts([p, q, r]);
    hide *;
    InFront([0xa3], PairSpelling(p), PairSpelling(q), PairSpelling(r), []);
    NothingBehind(PairSpelling(p) + PairSpelling(q) + PairSpelling(r));
    NothingBehind([0xa3] + PairSpelling(p) + PairSpelling(q) + PairSpelling(r));
    SpelledBy(WMap(Direct(3), [p, q, r]));
  }

  lemma {:induction false} SetAllThree(x: Pair, y: Pair, z: Pair)
    requires x.key.TextString? && y.key.TextString? && z.key.TextString?
    requires x.key != y.key && x.key != z.key && y.key != z.key
    ensures SetAll([], [x, y, z]) == [x, y, z]
  {
    SetExactly([], x.key, x.value, 0);
    SetExactly([x], y.key, y.value, 1);
    SetExactly([x, y], z.key, z.value, 2);
    hide Set;
    assert [] + [x] == [x] && [x] + [y] == [x, y] && [x, y] + [z] == [x, y, z];
    assert [x, y, z][1..] == [y, z] && [y, z][1..] == [z] && [z][1..] == [];
    assert SetAll([x, y, z], []) == [x, y, z];
    assert SetAll([x, y], [z]) == [x, y, z];
    assert SetAll([x], [y, z]) == [x, y, z];
  }
}
