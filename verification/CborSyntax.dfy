/** CBOR as it is written: what the grammar of the decoder accepts, and what it reads, stated apart from the grammar. */
module CborSyntax {
  import opened Bytes
  import opened CborDecoder
  import opened CborHead
  import opened Wrappers
  import Text

  type Small = n: nat | n < 24

  /** The argument of a head, as it is written: in the first byte or in one, two or four bytes after it. */
  datatype Argument = Direct(small: Small) | One(low: byte) | Two(high: byte, low: byte)
                    | Four(top: byte, upper: byte, high: byte, low: byte) {
    function Amount(): nat {
      match this
      case Direct(small) => small
      case One(low) => low
      case Two(high, low) => 0x100 * high + low
      case Four(top, upper, high, low) => 0x100_0000 * top + 0x1_0000 * upper + 0x100 * high + low
    }
  }

  /** A value as it is written, with the argument of each head. */
  datatype Written =
    | WNumber(negative: bool, argument: Argument)
    | WBytes(argument: Argument, content: Bytes)
    | WText(argument: Argument, content: Bytes)
    | WArray(argument: Argument, items: seq<Written>)
    | WMap(argument: Argument, pairs: seq<WrittenPair>)
    | WTag(argument: Argument, inner: Written)
    | WFalse | WTrue | WNull

  datatype WrittenPair = WrittenPair(key: Written, value: Written)

  function HeadSpelling(major: Major, argument: Argument): Bytes {
    match argument
    case Direct(small) => [32 * major + small]
    case One(low) => [32 * major + 24, low]
    case Two(high, low) => [32 * major + 25, high, low]
    case Four(top, upper, high, low) => [32 * major + 26, top, upper, high, low]
  }

  function Spelling(written: Written): Bytes
    decreases written, 1
  {
    match written
    case WNumber(negative, argument) => HeadSpelling(if negative then 1 else 0, argument)
    case WBytes(argument, content) => HeadSpelling(2, argument) + content
    case WText(argument, content) => HeadSpelling(3, argument) + content
    case WArray(argument, items) => HeadSpelling(4, argument) + ItemSpellings(items)
    case WMap(argument, pairs) => HeadSpelling(5, argument) + PairSpellings(pairs)
    case WTag(argument, inner) => HeadSpelling(6, argument) + Spelling(inner)
    case WFalse => [0xf4]
    case WTrue => [0xf5]
    case WNull => [0xf6]
  }

  function ItemSpellings(items: seq<Written>): Bytes
    decreases items, 0
  {
    if items == [] then [] else Spelling(items[0]) + ItemSpellings(items[1..])
  }

  function PairSpellings(pairs: seq<WrittenPair>): Bytes
    decreases pairs, 0
  {
    if pairs == [] then [] else PairSpelling(pairs[0]) + PairSpellings(pairs[1..])
  }

  function PairSpelling(pair: WrittenPair): Bytes
    decreases pair, 2
  {
    Spelling(pair.key) + Spelling(pair.value)
  }

  function Meaning(written: Written): Value
    decreases written, 1
  {
    match written
    case WNumber(negative, argument) => Number(if negative then -1 - argument.Amount() else argument.Amount())
    case WBytes(_, content) => ByteString(content)
    case WText(_, content) =>
      (match Text.Decode(content)
       case None => Null
       case Some(text) => TextString(text))
    case WArray(_, items) => Array(ItemMeanings(items))
    case WMap(_, pairs) => Map(SetAll([], PairMeanings(pairs)))
    case WTag(argument, inner) => Tag(argument.Amount(), Meaning(inner))
    case WFalse => Boolean(false)
    case WTrue => Boolean(true)
    case WNull => Null
  }

  function ItemMeanings(items: seq<Written>): (r: seq<Value>)
    ensures |r| == |items|
    decreases items, 0
  {
    if items == [] then [] else [Meaning(items[0])] + ItemMeanings(items[1..])
  }

  function PairMeanings(pairs: seq<WrittenPair>): (r: seq<Pair>)
    ensures |r| == |pairs|
    decreases pairs, 0
  {
    if pairs == [] then [] else [PairMeaning(pairs[0])] + PairMeanings(pairs[1..])
  }

  function PairMeaning(pair: WrittenPair): Pair
    decreases pair, 2
  {
    Pair(Meaning(pair.key), Meaning(pair.value))
  }

  /** The entries after setting all pairs, in order. */
  function SetAll(entries: seq<Pair>, pairs: seq<Pair>): seq<Pair>
    decreases |pairs|
  {
    if pairs == [] then entries else SetAll(Set(entries, pairs[0].key, pairs[0].value), pairs[1..])
  }

  /** No number is the key of two pairs. */
  ghost predicate DistinctNumbers(pairs: seq<Pair>) {
    forall i, j :: 0 <= i < j < |pairs| && pairs[i].key.Number? ==> pairs[i].key != pairs[j].key
  }

  /** Announced lengths are right, text is well-formed, and no number is twice a key of one map. */
  ghost predicate Legal(written: Written)
    decreases written, 1
  {
    match written
    case WBytes(argument, content) => argument.Amount() == |content|
    case WText(argument, content) => argument.Amount() == |content| && Text.Decode(content).Some?
    case WArray(argument, items) => argument.Amount() == |items| && forall i :: 0 <= i < |items| ==> Legal(items[i])
    case WMap(argument, pairs) => PairsLegal(argument, pairs) && DistinctNumbers(PairMeanings(pairs))
    case WTag(_, inner) => Legal(inner)
    case _ => true
  }

  ghost predicate PairsLegal(argument: Argument, pairs: seq<WrittenPair>)
    decreases pairs, 0
  {
    argument.Amount() == |pairs| && forall i :: 0 <= i < |pairs| ==> PairLegal(pairs[i])
  }

  ghost predicate PairLegal(pair: WrittenPair)
    decreases pair, 2
  {
    Legal(pair.key) && Legal(pair.value)
  }

  lemma FourDigits(bytes: Bytes)
    requires |bytes| == 4
    ensures FromBigEndian(bytes)
            == 0x100_0000 * bytes[0] as int + 0x1_0000 * bytes[1] as int + 0x100 * bytes[2] as int + bytes[3] as int
  {
    Digits(bytes);
    assert bytes[..4] == bytes;
  }

  lemma {:induction false} AfterFirst(first: byte, argument: Bytes, rest: Bytes)
    requires first < 224
    requires ParseLength(first % 32, argument + rest) == Ok(Parsed(FromBigEndian(argument), rest))
    ensures Parse([first] + argument + rest) == ParseContent(first / 32, FromBigEndian(argument), rest)
  {
    hide ParseContent, FromBigEndian, ParseLength;
    assert ([first] + argument + rest)[1..] == argument + rest;
  }

  lemma {:induction false} LengthIsParsed(additional: nat, argument: Bytes, rest: Bytes)
    requires (additional == 24 && |argument| == 1) || (additional == 25 && |argument| == 2)
             || (additional == 26 && |argument| == 4)
    ensures ParseLength(additional, argument + rest) == Ok(Parsed(FromBigEndian(argument), rest))
  {
    hide FromBigEndian;
    assert (argument + rest)[..|argument|] == argument && (argument + rest)[|argument|..] == rest;
  }

  lemma {:induction false} DirectIsParsed(major: Major, small: Small, rest: Bytes)
    requires major < 7
    ensures Parse([32 * major + small] + rest) == ParseContent(major, small, rest)
  {
    hide ParseContent;
    assert ([32 * major + small] + rest)[1..] == rest;
  }

  /** A spelled head is parsed. */
  lemma {:induction false} HeadIsParsed(major: Major, argument: Argument, rest: Bytes)
    requires major < 7
    ensures Parse(HeadSpelling(major, argument) + rest) == ParseContent(major, argument.Amount(), rest)
  {
    hide Parse, ParseContent, ParseLength, FromBigEndian;
    match argument
    case Direct(small) => DirectIsParsed(major, small, rest);
    case One(low) =>
      ShortBigEndian(0, low);
      LengthIsParsed(24, [low], rest);
      AfterFirst(32 * major + 24, [low], rest);
      assert [32 * major + 24] + [low] == HeadSpelling(major, argument);
    case Two(high, low) =>
      ShortBigEndian(high, low);
      LengthIsParsed(25, [high, low], rest);
      AfterFirst(32 * major + 25, [high, low], rest);
      assert [32 * major + 25] + [high, low] == HeadSpelling(major, argument);
    case Four(top, upper, high, low) =>
      FourDigits([top, upper, high, low]);
      LengthIsParsed(26, [top, upper, high, low], rest);
      AfterFirst(32 * major + 26, [top, upper, high, low], rest);
      assert [32 * major + 26] + [top, upper, high, low] == HeadSpelling(major, argument);
  }

  lemma {:induction false} NumberIsParsed(negative: bool, argument: Argument, rest: Bytes)
    ensures Parse(Spelling(WNumber(negative, argument)) + rest)
            == Ok(Parsed(Meaning(WNumber(negative, argument)), rest))
  {
    hide Parse, HeadSpelling, Argument.Amount;
    HeadIsParsed(if negative then 1 else 0, argument, rest);
  }

  lemma {:induction false} TagIsParsed(argument: Argument, inner: Written, rest: Bytes)
    requires Parse(Spelling(inner) + rest) == Ok(Parsed(Meaning(inner), rest))
    ensures Parse(Spelling(WTag(argument, inner)) + rest) == Ok(Parsed(Meaning(WTag(argument, inner)), rest))
  {
    hide Parse, HeadSpelling, Argument.Amount;
    HeadIsParsed(6, argument, Spelling(inner) + rest);
    assert Spelling(WTag(argument, inner)) + rest == HeadSpelling(6, argument) + (Spelling(inner) + rest);
  }

  lemma SimpleIsParsed(written: Written, rest: Bytes)
    requires written.WFalse? || written.WTrue? || written.WNull?
    ensures Parse(Spelling(written) + rest) == Ok(Parsed(Meaning(written), rest))
  {
    assert (Spelling(written) + rest)[1..] == rest;
  }

  /** Whatever is spelled legally is parsed as what it means, whatever follows. */
  lemma {:induction false} LegalIsParsed(written: Written, rest: Bytes)
    requires Legal(written)
    ensures Parse(Spelling(written) + rest) == Ok(Parsed(Meaning(written), rest))
    decreases written, 1
  {
    hide Parse, HeadSpelling, ItemSpellings, PairSpellings, ItemMeanings, PairMeanings, SetAll, Argument.Amount,
         DistinctNumbers, PairLegal, Text.Decode;
    match written
    case WNumber(negative, argument) => NumberIsParsed(negative, argument, rest);
    case WBytes(argument, content) => StringIsParsed(2, argument, content, rest);
    case WText(argument, content) => StringIsParsed(3, argument, content, rest);
    case WArray(argument, items) => ArrayIsParsed(argument, items, rest);
    case WMap(argument, pairs) => MapIsParsed(argument, pairs, rest);
    case WTag(argument, inner) =>
      LegalIsParsed(inner, rest);
      TagIsParsed(argument, inner, rest);
    case _ => SimpleIsParsed(written, rest);
  }

  lemma {:induction false} StringIsParsed(major: Major, argument: Argument, content: Bytes, rest: Bytes)
    requires (major == 2 || major == 3) && argument.Amount() == |content|
    ensures Parse(HeadSpelling(major, argument) + content + rest)
            == if major == 2 then Ok(Parsed(ByteString(content), rest))
               else if Text.Decode(content).None? then Err(MalformedText)
               else Ok(Parsed(TextString(Text.Decode(content).value), rest))
  {
    hide Parse, HeadSpelling, Text.Decode, Argument.Amount;
    HeadIsParsed(major, argument, content + rest);
    assert HeadSpelling(major, argument) + content + rest == HeadSpelling(major, argument) + (content + rest);
    assert (content + rest)[..|content|] == content && (content + rest)[|content|..] == rest;
  }

  lemma {:induction false} ArrayIsParsed(argument: Argument, items: seq<Written>, rest: Bytes)
    requires argument.Amount() == |items| && forall i :: 0 <= i < |items| ==> Legal(items[i])
    ensures Parse(Spelling(WArray(argument, items)) + rest) == Ok(Parsed(Array(ItemMeanings(items)), rest))
    decreases items, 1
  {
    hide Parse, Legal, Meaning, Argument.Amount, HeadSpelling;
    HeadIsParsed(4, argument, ItemSpellings(items) + rest);
    assert Spelling(WArray(argument, items)) + rest == HeadSpelling(4, argument) + (ItemSpellings(items) + rest);
    ItemsAreParsed(items, rest, []);
    assert [] + ItemMeanings(items) == ItemMeanings(items);
  }

  lemma {:induction false} ItemParsed(s: Bytes, n: nat, before: seq<Value>, item: Value, s': Bytes)
    requires Parse(s) == Ok(Parsed(item, s'))
    ensures ParseItems(n + 1, s, before) == ParseItems(n, s', before + [item])
  {
    hide Parse;
  }

  lemma {:induction false} ItemsUnfold(items: seq<Written>, rest: Bytes, before: seq<Value>)
    requires items != []
    ensures ItemSpellings(items) + rest == Spelling(items[0]) + (ItemSpellings(items[1..]) + rest)
    ensures before + ItemMeanings(items) == before + [Meaning(items[0])] + ItemMeanings(items[1..])
  {
    hide Spelling, Meaning;
  }

  lemma {:induction false} ItemsAreParsed(items: seq<Written>, rest: Bytes, before: seq<Value>)
    requires forall i :: 0 <= i < |items| ==> Legal(items[i])
    ensures ParseItems(|items|, ItemSpellings(items) + rest, before) == Ok(Parsed(before + ItemMeanings(items), rest))
    decreases items, 0
  {
    if items == [] {
      assert ItemSpellings(items) + rest == rest && before + ItemMeanings(items) == before;
    } else {
      hide *;
      ItemsUnfold(items, rest, before);
      LegalIsParsed(items[0], ItemSpellings(items[1..]) + rest);
      ItemsAreParsed(items[1..], rest, before + [Meaning(items[0])]);
      ItemParsed(ItemSpellings(items) + rest, |items| - 1, before, Meaning(items[0]),
                 ItemSpellings(items[1..]) + rest);
    }
  }

  /** Some number is the key of an entry and of a pair, or of two pairs. */
  ghost predicate Clash(entries: seq<Pair>, pairs: seq<Pair>) {
    || (exists i :: 0 <= i < |pairs| && pairs[i].key.Number? && Get(entries, pairs[i].key.n).Some?)
    || !DistinctNumbers(pairs)
  }

  lemma {:induction false} GetSet(entries: seq<Pair>, key: Value, value: Value, n: int)
    ensures Get(Set(entries, key, value), n) == if key == Number(n) then Some(value) else Get(entries, n)
  {
    if entries != [] {
      if IsPrimitive(key) && entries[0].key == key {
        assert Set(entries, key, value)[1..] == entries[1..];
      } else {
        GetSet(entries[1..], key, value, n);
        assert Set(entries, key, value)[1..] == Set(entries[1..], key, value);
      }
    }
  }

  /** Setting replaces the value of the first entry that has a primitive key, and otherwise appends. */
  lemma {:induction false} SetExactly(entries: seq<Pair>, key: Value, value: Value, i: nat)
    requires i <= |entries| && (IsPrimitive(key) ==> forall j :: 0 <= j < i ==> entries[j].key != key)
    ensures IsPrimitive(key) && i < |entries| && entries[i].key == key ==>
              Set(entries, key, value) == entries[i := Pair(key, value)]
    ensures i == |entries| ==> Set(entries, key, value) == entries + [Pair(key, value)]
  {
    if i > 0 {
      SetExactly(entries[1..], key, value, i - 1);
      assert entries == [entries[0]] + entries[1..];
    }
  }

  lemma {:induction false} ClashNext(entries: seq<Pair>, pairs: seq<Pair>)
    requires pairs != []
    ensures Clash(entries, pairs)
            <==> || (pairs[0].key.Number? && Get(entries, pairs[0].key.n).Some?)
                 || Clash(Set(entries, pairs[0].key, pairs[0].value), pairs[1..])
  {
    hide Get, Set;
    forall n
      ensures Get(Set(entries, pairs[0].key, pairs[0].value), n)
              == if pairs[0].key == Number(n) then Some(pairs[0].value) else Get(entries, n)
    {
      GetSet(entries, pairs[0].key, pairs[0].value, n);
    }
    assert forall i :: 0 < i < |pairs| ==> pairs[i] == pairs[1..][i - 1];
  }

  lemma {:induction false} PairsAreParsed(pairs: seq<WrittenPair>, rest: Bytes, entries: seq<Pair>)
    requires forall i :: 0 <= i < |pairs| ==> PairLegal(pairs[i])
    ensures ParsePairs(|pairs|, PairSpellings(pairs) + rest, entries)
            == if Clash(entries, PairMeanings(pairs)) then Err(DuplicateLabel)
               else Ok(Parsed(SetAll(entries, PairMeanings(pairs)), rest))
    decreases pairs, 0
  {
    hide Legal, Meaning, Spelling, Parse, Set, Get, Clash;
    if pairs == [] {
      NoClash(entries);
      assert PairSpellings(pairs) + rest == rest;
    } else {
      var key, value, others := Meaning(pairs[0].key), Meaning(pairs[0].value), PairSpellings(pairs[1..]) + rest;
      PairIsParsed(pairs[0], others);
      assert PairSpellings(pairs) + rest == Spelling(pairs[0].key) + (Spelling(pairs[0].value) + others);
      assert PairMeanings(pairs)[1..] == PairMeanings(pairs[1..]);
      ClashNext(entries, PairMeanings(pairs));
      PairsAreParsed(pairs[1..], rest, Set(entries, key, value));
    }
  }

  lemma NoClash(entries: seq<Pair>)
    ensures !Clash(entries, [])
  {
  }

  lemma {:induction false} PairIsParsed(pair: WrittenPair, rest: Bytes)
    requires PairLegal(pair)
    ensures Parse(Spelling(pair.key) + (Spelling(pair.value) + rest))
            == Ok(Parsed(Meaning(pair.key), Spelling(pair.value) + rest))
    ensures Parse(Spelling(pair.value) + rest) == Ok(Parsed(Meaning(pair.value), rest))
    decreases pair, 2
  {
    LegalIsParsed(pair.key, Spelling(pair.value) + rest);
    LegalIsParsed(pair.value, rest);
  }

  /** A map whose keys and values are legal is parsed, unless a number is a key twice. */
  lemma {:induction false} MapIsParsed(argument: Argument, pairs: seq<WrittenPair>, rest: Bytes)
    requires PairsLegal(argument, pairs)
    ensures Parse(Spelling(WMap(argument, pairs)) + rest)
            == if DistinctNumbers(PairMeanings(pairs)) then Ok(Parsed(Map(SetAll([], PairMeanings(pairs))), rest))
               else Err(DuplicateLabel)
    decreases pairs, 1
  {
    hide Parse, Legal, Meaning;
    HeadIsParsed(5, argument, PairSpellings(pairs) + rest);
    assert Spelling(WMap(argument, pairs)) + rest == HeadSpelling(5, argument) + (PairSpellings(pairs) + rest);
    PairsAreParsed(pairs, rest, []);
    assert Clash([], PairMeanings(pairs)) <==> !DistinctNumbers(PairMeanings(pairs));
  }

  // ----- Whatever is parsed was spelled legally -----

  lemma {:induction false} HeadIsSpelled(s: Bytes) returns (argument: Argument)
    requires s != [] && s[0] / 32 < 7 && ParseLength(s[0] % 32, s[1..]).Ok?
    ensures var length := ParseLength(s[0] % 32, s[1..]).value;
            && s == HeadSpelling(s[0] / 32, argument) + length.rest && argument.Amount() == length.value
            && Parse(s) == ParseContent(s[0] / 32, length.value, length.rest)
  {
    hide ParseContent, FromBigEndian;
    var additional, tail := s[0] % 32, s[1..];
    if additional <= 23 {
      argument := Direct(additional);
    } else if additional == 24 {
      ShortBigEndian(0, tail[0]);
      argument := One(tail[0]);
      assert tail[..1] == [tail[0]];
    } else if additional == 25 {
      ShortBigEndian(tail[0], tail[1]);
      argument := Two(tail[0], tail[1]);
      assert tail[..2] == [tail[0], tail[1]];
    } else {
      FourDigits(tail[..4]);
      argument := Four(tail[0], tail[1], tail[2], tail[3]);
    }
  }

  lemma {:induction false} ParsedIsSpelled(s: Bytes) returns (written: Written)
    requires Parse(s).Ok?
    ensures var p := Parse(s).value; Legal(written) && Meaning(written) == p.value && s == Spelling(written) + p.rest
    decreases |s|, 0, 0
  {
    if s[0] / 32 == 7 {
      written := if s[0] == 0xf4 then WFalse else if s[0] == 0xf5 then WTrue else WNull;
    } else {
      var argument := HeadIsSpelled(s);
      written := ContentIsSpelled(s[0] / 32, argument, ParseLength(s[0] % 32, s[1..]).value.rest);
    }
  }

  lemma {:induction false} NumberIsSpelled(major: Major, argument: Argument, s: Bytes) returns (written: Written)
    requires major < 2
    ensures Legal(written) && HeadSpelling(major, argument) + s == Spelling(written) + s
    ensures ParseContent(major, argument.Amount(), s) == Ok(Parsed(Meaning(written), s))
  {
    hide HeadSpelling, Argument.Amount;
    written := WNumber(major == 1, argument);
  }

  lemma {:induction false} StringIsSpelled(major: Major, argument: Argument, s: Bytes) returns (written: Written)
    requires (major == 2 || major == 3) && ParseContent(major, argument.Amount(), s).Ok?
    ensures var p := ParseContent(major, argument.Amount(), s).value;
            && Legal(written) && Meaning(written) == p.value
            && HeadSpelling(major, argument) + s == Spelling(written) + p.rest
  {
    hide HeadSpelling, Argument.Amount, Text.Decode;
    var n := argument.Amount();
    written := if major == 2 then WBytes(argument, s[..n]) else WText(argument, s[..n]);
    assert s == s[..n] + s[n..];
  }

  lemma {:induction false} ArrayIsSpelled(argument: Argument, s: Bytes) returns (written: Written)
    requires ParseItems(argument.Amount(), s, []).Ok?
    ensures var p := ParseItems(argument.Amount(), s, []).value;
            && Legal(written) && Meaning(written) == Array(p.value)
            && HeadSpelling(4, argument) + s == Spelling(written) + p.rest
    decreases |s|, 0, argument.Amount() + 1
  {
    hide ParseItems, HeadSpelling, ItemSpellings, ItemMeanings;
    var items := ItemsAreSpelled(argument.Amount(), s, []);
    written := WArray(argument, items);
    assert [] + ItemMeanings(items) == ItemMeanings(items);
  }

  lemma {:induction false} TagIsSpelled(argument: Argument, s: Bytes) returns (written: Written)
    requires Parse(s).Ok?
    ensures var p := Parse(s).value;
            && Legal(written) && Meaning(written) == Tag(argument.Amount(), p.value)
            && HeadSpelling(6, argument) + s == Spelling(written) + p.rest
    decreases |s|, 0, 1
  {
    hide Parse, HeadSpelling, Argument.Amount;
    var inner := ParsedIsSpelled(s);
    written := WTag(argument, inner);
  }

  lemma {:induction false} ContentIsSpelled(major: Major, argument: Argument, s: Bytes) returns (written: Written)
    requires major < 7 && ParseContent(major, argument.Amount(), s).Ok?
    ensures var p := ParseContent(major, argument.Amount(), s).value;
            && Legal(written) && Meaning(written) == p.value
            && HeadSpelling(major, argument) + s == Spelling(written) + p.rest
    decreases |s|, 1, 0
  {
    hide HeadSpelling, Argument.Amount, Legal, Meaning, Spelling, Parse, ParseItems, ParsePairs;
    if major < 2 {
      written := NumberIsSpelled(major, argument, s);
    } else if major < 4 {
      written := StringIsSpelled(major, argument, s);
    } else if major == 4 {
      written := ArrayIsSpelled(argument, s);
    } else if major == 5 {
      written := MapIsSpelled(argument, s);
    } else {
      written := TagIsSpelled(argument, s);
    }
  }

  lemma {:induction false} MapIsSpelled(argument: Argument, s: Bytes) returns (written: Written)
    requires ParsePairs(argument.Amount(), s, []).Ok?
    ensures var p := ParsePairs(argument.Amount(), s, []).value;
            && Legal(written) && Meaning(written) == Map(p.value)
            && HeadSpelling(5, argument) + s == Spelling(written) + p.rest
    decreases |s|, 0, argument.Amount() + 1
  {
    hide ParsePairs;
    var pairs := PairsAreSpelled(argument.Amount(), s, []);
    written := WMap(argument, pairs);
    hide PairLegal, HeadSpelling, PairSpellings, PairMeanings, SetAll;
  }

  lemma {:induction false} ItemsAreSpelled(n: nat, s: Bytes, before: seq<Value>) returns (items: seq<Written>)
    requires ParseItems(n, s, before).Ok?
    ensures var p := ParseItems(n, s, before).value;
            && |items| == n && (forall i :: 0 <= i < n ==> Legal(items[i]))
            && p.value == before + ItemMeanings(items) && s == ItemSpellings(items) + p.rest
    decreases |s|, 0, n
  {
    hide Legal, Meaning, Spelling, Parse;
    if n == 0 {
      items := [];
    } else {
      var first := ParsedIsSpelled(s);
      var item := Parse(s).value;
      var others := ItemsAreSpelled(n - 1, item.rest, before + [item.value]);
      items := [first] + others;
      assert items[1..] == others;
      assert before + [item.value] + ItemMeanings(others) == before + ItemMeanings(items);
      var rest := ParseItems(n, s, before).value.rest;
      assert Spelling(first) + (ItemSpellings(others) + rest) == ItemSpellings(items) + rest;
    }
  }

  lemma {:induction false} PairsAreSpelled(n: nat, s: Bytes, entries: seq<Pair>) returns (pairs: seq<WrittenPair>)
    requires ParsePairs(n, s, entries).Ok?
    ensures var p := ParsePairs(n, s, entries).value;
            && |pairs| == n && (forall i :: 0 <= i < n ==> PairLegal(pairs[i]))
            && !Clash(entries, PairMeanings(pairs))
            && p.value == SetAll(entries, PairMeanings(pairs)) && s == PairSpellings(pairs) + p.rest
    decreases |s|, 0, n
  {
    hide Legal, Meaning, Spelling, Parse, Set, Get, Clash;
    if n == 0 {
      NoClash(entries);
      pairs := [];
    } else {
      var key := ParsedIsSpelled(s);
      var afterKey := Parse(s).value.rest;
      var value := ParsedIsSpelled(afterKey);
      var afterValue := Parse(afterKey).value.rest;
      var first := WrittenPair(key, value);
      var others := PairsAreSpelled(n - 1, afterValue, Set(entries, Meaning(key), Meaning(value)));
      pairs := [first] + others;
      assert pairs[1..] == others && PairMeanings(pairs)[1..] == PairMeanings(others);
      ClashNext(entries, PairMeanings(pairs));
      var rest := ParsePairs(n, s, entries).value.rest;
      assert Spelling(key) + (Spelling(value) + (PairSpellings(others) + rest)) == PairSpellings(pairs) + rest;
    }
  }

  /** A value is parsed exactly off the front of the bytes that spell it legally. */
  lemma {:induction false} ParsesExactly(s: Bytes, value: Value, rest: Bytes)
    ensures Parse(s) == Ok(Parsed(value, rest))
            <==> exists written :: Legal(written) && Meaning(written) == value && s == Spelling(written) + rest
  {
    hide *;
    if Parse(s) == Ok(Parsed(value, rest)) {
      var written := ParsedIsSpelled(s);
    }
    forall written | Legal(written) && Meaning(written) == value && s == Spelling(written) + rest
      ensures Parse(s) == Ok(Parsed(value, rest))
    {
      LegalIsParsed(written, rest);
    }
  }

  /** The bytes spell the value legally, and nothing else. */
  ghost predicate Spells(bytes: Bytes, value: Value) {
    exists written :: Legal(written) && Meaning(written) == value && bytes == Spelling(written)
  }

  lemma {:induction false} ParsesAllExactly(bytes: Bytes, value: Value)
    ensures ParseAll(bytes) == Ok(value) <==> Spells(bytes, value)
  {
    hide Parse, Legal, Meaning, Spelling;
    ParsesExactly(bytes, value, []);
    assert ParseAll(bytes) == Ok(value) <==> Parse(bytes) == Ok(Parsed(value, []));
    if ParseAll(bytes) == Ok(value) {
      var written :| Legal(written) && Meaning(written) == value && bytes == Spelling(written) + [];
      assert Spelling(written) + [] == Spelling(written);
    }
    if Spells(bytes, value) {
      var written :| Legal(written) && Meaning(written) == value && bytes == Spelling(written);
      assert Spelling(written) + [] == Spelling(written);
      assert bytes == Spelling(written) + [];
    }
  }

  /** A spelled map in which a number is a key twice is refused. */
  lemma {:induction false} RepeatedNumberRefused(argument: Argument, pairs: seq<WrittenPair>)
    requires PairsLegal(argument, pairs) && !DistinctNumbers(PairMeanings(pairs))
    ensures ParseAll(Spelling(WMap(argument, pairs))) == Err(DuplicateLabel)
  {
    hide Parse, PairsLegal, Spelling, DistinctNumbers;
    MapIsParsed(argument, pairs, []);
    assert Spelling(WMap(argument, pairs)) + [] == Spelling(WMap(argument, pairs));
  }
}
