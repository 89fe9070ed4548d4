/** The hand-written CBOR decoder of the TypeScript package: a grammar, and the class that reads it in place. */
module CborDecoder {
  import opened Bytes
  import opened CborHead
  import opened Wrappers
  import Text

  datatype Value =
    | Number(n: int)
    | ByteString(bytes: Bytes)
    | TextString(text: Text.Units)
    | Boolean(b: bool)
    | Null
    | Tag(tag: nat, value: Value)
    | Array(items: seq<Value>)
    | Map(entries: seq<Pair>)

  /** Map entries, in insertion order. */
  datatype Pair = Pair(key: Value, value: Value)

  datatype CborError =
    | Truncated | UnsupportedLength | MalformedText | DuplicateLabel | UnsupportedSimple | TrailingBytes

  // ----- Maps -----

  /** Keys that a JavaScript map compares by value; all others are distinct objects. */
  predicate IsPrimitive(key: Value) {
    key.Number? || key.TextString? || key.Boolean? || key.Null?
  }

  function Get(entries: seq<Pair>, wanted: int): Option<Value> {
    if entries == [] then None
    else if entries[0].key == Number(wanted) then Some(entries[0].value)
    else Get(entries[1..], wanted)
  }

  function Set(entries: seq<Pair>, key: Value, value: Value): seq<Pair> {
    if entries == [] then [Pair(key, value)]
    else if IsPrimitive(key) && entries[0].key == key then [Pair(key, value)] + entries[1..]
    else [entries[0]] + Set(entries[1..], key, value)
  }

  // ----- The grammar -----

  datatype Parsed<T> = Parsed(value: T, rest: Bytes)

  function NextByte(s: Bytes): Result<Parsed<byte>, CborError> {
    if s == [] then Err(Truncated) else Ok(Parsed(s[0], s[1..]))
  }

  /** The argument of a head whose low five bits are `additional`. */
  function ParseLength(additional: nat, s: Bytes): (r: Result<Parsed<nat>, CborError>)
    ensures r.Ok? ==> |r.value.rest| <= |s|
  {
    if additional <= 23 then Ok(Parsed(additional, s))
    else if additional > 26 then Err(UnsupportedLength)
    else
      var n := if additional == 24 then 1 else if additional == 25 then 2 else 4;
      if |s| < n then Err(Truncated) else Ok(Parsed(FromBigEndian(s[..n]), s[n..]))
  }

  function ParseBytes(n: nat, s: Bytes): (r: Result<Parsed<Bytes>, CborError>)
    ensures r.Ok? ==> |r.value.rest| <= |s|
  {
    if |s| < n then Err(Truncated) else Ok(Parsed(s[..n], s[n..]))
  }

  function ParseText(n: nat, s: Bytes): (r: Result<Parsed<Text.Units>, CborError>)
    ensures r.Ok? ==> |r.value.rest| <= |s|
  {
    match ParseBytes(n, s)
    case Err(error) => Err(error)
    case Ok(bytes) =>
      match Text.Decode(bytes.value)
      case None => Err(MalformedText)
      case Some(text) => Ok(Parsed(text, bytes.rest))
  }

  function ParseSimple(additional: nat): Result<Value, CborError> {
    if additional == 20 then Ok(Boolean(false))
    else if additional == 21 then Ok(Boolean(true))
    else if additional == 22 then Ok(Null)
    else Err(UnsupportedSimple)
  }

  /** One value at the front of `s`; every successful parse uses at least one byte. */
  function Parse(s: Bytes): (r: Result<Parsed<Value>, CborError>)
    ensures r.Ok? ==> |r.value.rest| < |s|
    decreases |s|, 0, 0
  {
    if s == [] then Err(Truncated)
    else ParseBody(s[0] / 32, s[0] % 32, s[1..])
  }

  /** The rest of a value after its first byte. */
  function ParseBody(major: nat, additional: nat, s: Bytes): (r: Result<Parsed<Value>, CborError>)
    requires major < 8
    ensures r.Ok? ==> |r.value.rest| <= |s|
    decreases |s|, 2
  {
    if major == 7 then
      match ParseSimple(additional)
      case Err(error) => Err(error)
      case Ok(value) => Ok(Parsed(value, s))
    else
      match ParseLength(additional, s)
      case Err(error) => Err(error)
      case Ok(length) => ParseContent(major, length.value, length.rest)
  }

  /** What follows a head with argument `n`. */
  function ParseContent(major: nat, n: nat, s: Bytes): (r: Result<Parsed<Value>, CborError>)
    requires major < 7
    ensures r.Ok? ==> |r.value.rest| <= |s|
    decreases |s|, 1, n
  {
    match major
    case 0 => Ok(Parsed(Number(n), s))
    case 1 => Ok(Parsed(Number(-1 - n), s))
    case 2 => (match ParseBytes(n, s)
               case Err(error) => Err(error)
               case Ok(p) => Ok(Parsed(ByteString(p.value), p.rest)))
    case 3 => (match ParseText(n, s)
               case Err(error) => Err(error)
               case Ok(p) => Ok(Parsed(TextString(p.value), p.rest)))
    case 4 => (match ParseItems(n, s, [])
               case Err(error) => Err(error)
               case Ok(p) => Ok(Parsed(Array(p.value), p.rest)))
    case 5 => (match ParsePairs(n, s, [])
               case Err(error) => Err(error)
               case Ok(p) => Ok(Parsed(Map(p.value), p.rest)))
    case _ => (match Parse(s)
               case Err(error) => Err(error)
               case Ok(p) => Ok(Parsed(Tag(n, p.value), p.rest)))
  }

  /** `n` more items, added to those in `items`. */
  function ParseItems(n: nat, s: Bytes, items: seq<Value>): (r: Result<Parsed<seq<Value>>, CborError>)
    ensures r.Ok? ==> |r.value.rest| <= |s|
    decreases |s|, 0, 1
  {
    if n == 0 then Ok(Parsed(items, s))
    else
      match Parse(s)
      case Err(error) => Err(error)
      case Ok(item) => ParseItems(n - 1, item.rest, items + [item.value])
  }

  /** `n` more entries, added to those in `entries`; a number may be a key only once. */
  function ParsePairs(n: nat, s: Bytes, entries: seq<Pair>): (r: Result<Parsed<seq<Pair>>, CborError>)
    ensures r.Ok? ==> |r.value.rest| <= |s|
    decreases |s|, 0, 1
  {
    if n == 0 then Ok(Parsed(entries, s))
    else
      match Parse(s)
      case Err(error) => Err(error)
      case Ok(key) =>
        match Parse(key.rest)
        case Err(error) => Err(error)
        case Ok(value) =>
          if key.value.Number? && Get(entries, key.value.n).Some? then Err(DuplicateLabel)
          else ParsePairs(n - 1, value.rest, Set(entries, key.value, value.value))
  }

  /** One value and nothing after it. */
  function ParseAll(s: Bytes): Result<Value, CborError> {
    match Parse(s)
    case Err(error) => Err(error)
    case Ok(p) => if p.rest == [] then Ok(p.value) else Err(TrailingBytes)
  }

  // ----- What is parsed is short -----

  /** Every byte string in the value, at any depth, is shorter than four gibibytes. */
  ghost predicate Short(value: Value) {
    match value
    case ByteString(bytes) => |bytes| < 0x1_0000_0000
    case Tag(_, inner) => Short(inner)
    case Array(items) => forall i :: 0 <= i < |items| ==> Short(items[i])
    case Map(entries) => forall i :: 0 <= i < |entries| ==> ShortPair(entries[i])
    case _ => true
  }

  ghost predicate ShortPair(pair: Pair) {
    Short(pair.key) && Short(pair.value)
  }

  lemma ParsedLength(additional: nat, s: Bytes)
    ensures var r := ParseLength(additional, s); r.Ok? ==> r.value.value < 0x1_0000_0000
  {
    if 24 <= additional <= 26 {
      var n := if additional == 24 then 1 else if additional == 25 then 2 else 4;
      if n <= |s| {
        FromBigEndianReadsBack(s[..n]);
        assert Pow256(1) == 0x100 && Pow256(2) == 0x1_0000 && Pow256(4) == 0x1_0000_0000;
      }
    }
  }

  lemma {:induction false} SetHolds(entries: seq<Pair>, key: Value, value: Value, i: nat)
    requires i < |Set(entries, key, value)|
    ensures var pair := Set(entries, key, value)[i]; pair in entries || pair == Pair(key, value)
  {
    if entries != [] && !(IsPrimitive(key) && entries[0].key == key) && i > 0 {
      SetHolds(entries[1..], key, value, i - 1);
    }
  }

  lemma {:induction false} ParsedIsShort(s: Bytes)
    ensures Parse(s).Ok? ==> Short(Parse(s).value.value)
    decreases |s|, 0, 0
  {
    if s != [] {
      var length := ParseLength(s[0] % 32, s[1..]);
      if s[0] / 32 < 7 && length.Ok? {
        ParsedLength(s[0] % 32, s[1..]);
        ContentIsShort(s[0] / 32, length.value.value, length.value.rest);
      }
    }
  }

  lemma {:induction false} ContentIsShort(major: nat, n: nat, s: Bytes)
    requires major < 7 && n < 0x1_0000_0000
    ensures var r := ParseContent(major, n, s); r.Ok? ==> Short(r.value.value)
    decreases |s|, 1, n
  {
    match major
    case 4 => ItemsAreShort(n, s, []);
    case 5 => PairsAreShort(n, s, []);
    case 6 => ParsedIsShort(s);
    case _ =>
  }

  lemma {:induction false} ItemsAreShort(n: nat, s: Bytes, items: seq<Value>)
    requires forall i :: 0 <= i < |items| ==> Short(items[i])
    ensures var r := ParseItems(n, s, items); r.Ok? ==> forall i :: 0 <= i < |r.value.value| ==> Short(r.value.value[i])
    decreases |s|, 0, 1
  {
    hide Short;
    if n > 0 {
      ParsedIsShort(s);
      var item := Parse(s);
      if item.Ok? {
        ItemsAreShort(n - 1, item.value.rest, items + [item.value.value]);
      }
    }
  }

  lemma {:induction false} PairsAreShort(n: nat, s: Bytes, entries: seq<Pair>)
    requires forall i :: 0 <= i < |entries| ==> ShortPair(entries[i])
    ensures var r := ParsePairs(n, s, entries);
            r.Ok? ==> forall i :: 0 <= i < |r.value.value| ==> ShortPair(r.value.value[i])
    decreases |s|, 0, 1
  {
    hide Short, Set;
    if n > 0 {
      ParsedIsShort(s);
      var key := Parse(s);
      if key.Ok? {
        ParsedIsShort(key.value.rest);
        var value := Parse(key.value.rest);
        if value.Ok? {
          var more := Set(entries, key.value.value, value.value.value);
          forall i | 0 <= i < |more|
            ensures ShortPair(more[i])
          {
            SetHolds(entries, key.value.value, value.value.value, i);
          }
          PairsAreShort(n - 1, value.value.rest, more);
        }
      }
    }
  }

  // ----- The decoder -----

  /** A read delivered what the grammar says, and left what the grammar leaves. */
  ghost predicate Follows<T>(r: Result<T, CborError>, rest: Bytes, parsed: Result<Parsed<T>, CborError>) {
    match parsed
    case Err(error) => r == Err(error)
    case Ok(p) => r == Ok(p.value) && rest == p.rest
  }

  lemma ShortBigEndian(high: byte, low: byte)
    ensures FromBigEndian([low]) == low as int
    ensures FromBigEndian([high, low]) == 256 * high as int + low as int
  {
  }

  class Decoder {
    const bytes: Bytes
    var offset: nat

    ghost predicate Valid()
      reads this
    {
      offset <= |bytes|
    }

    /** What is still unread. */
    ghost function Rest(): Bytes
      requires Valid()
      reads this
    {
      bytes[offset..]
    }

    constructor (bytes: Bytes)
      ensures Valid() && Rest() == bytes
    {
      this.bytes := bytes;
      offset := 0;
    }

    method Next() returns (r: Result<byte, CborError>)
      requires Valid()
      modifies this
      ensures Valid() && Follows(r, Rest(), NextByte(old(Rest())))
      ensures offset >= old(offset) && (r.Ok? ==> offset > old(offset))
    {
      if offset >= |bytes| {
        return Err(Truncated);
      }
      r := Ok(bytes[offset]);
      offset := offset + 1;
    }

    method ReadLength(additional: nat) returns (r: Result<nat, CborError>)
      requires Valid()
      modifies this
      ensures Valid() && Follows(r, Rest(), ParseLength(additional, old(Rest())))
      ensures offset >= old(offset)
    {
      ghost var s := Rest();
      if additional <= 23 {
        return Ok(additional);
      }
      if additional == 24 {
        var one := this.Next();
        if one.Err? {
          return Err(one.error);
        }
        ShortBigEndian(0, one.value);
        assert s[..1] == [one.value];
        return Ok(one.value);
      }
      if additional == 25 {
        var high := this.Next();
        if high.Err? {
          return Err(high.error);
        }
        var low := this.Next();
        if low.Err? {
          return Err(low.error);
        }
        ShortBigEndian(high.value, low.value);
        assert s[..2] == [high.value, low.value];
        return Ok(256 * high.value as int + low.value as int);
      }
      if additional == 26 {
        if offset + 4 > |bytes| {
          return Err(Truncated);
        }
        assert s[..4] == bytes[offset..offset + 4];
        r := Ok(FromBigEndian(bytes[offset..offset + 4]));
        offset := offset + 4;
        return;
      }
      return Err(UnsupportedLength);
    }

    method ReadBytes(n: nat) returns (r: Result<Bytes, CborError>)
      requires Valid()
      modifies this
      ensures Valid() && Follows(r, Rest(), ParseBytes(n, old(Rest())))
      ensures offset >= old(offset)
    {
      if offset + n > |bytes| {
        return Err(Truncated);
      }
      ghost var s := Rest();
      assert s[..n] == bytes[offset..offset + n];
      r := Ok(bytes[offset..offset + n]);
      offset := offset + n;
    }

    method Read() returns (r: Result<Value, CborError>)
      requires Valid()
      modifies this
      ensures Valid() && Follows(r, Rest(), Parse(old(Rest())))
      ensures offset >= old(offset)
      decreases |bytes| - offset, 0
    {
      var initial := this.Next();
      if initial.Err? {
        return Err(initial.error);
      }
      var major, additional := initial.value / 32, initial.value % 32;
      if major == 7 {
        return ParseSimple(additional);
      }
      var length := ReadLength(additional);
      if length.Err? {
        return Err(length.error);
      }
      r := ReadContent(major, length.value);
    }

    /** The cases of `Read` once the length is known. */
    method ReadContent(major: nat, n: nat) returns (r: Result<Value, CborError>)
      requires Valid() && major < 7
      modifies this
      ensures Valid() && Follows(r, Rest(), ParseContent(major, n, old(Rest())))
      ensures offset >= old(offset)
      decreases |bytes| - offset, 2
    {
      match major {
        case 0 => return Ok(Number(n));
        case 1 => return Ok(Number(-1 - n));
        case 2 =>
          var content := ReadBytes(n);
          return if content.Err? then Err(content.error) else Ok(ByteString(content.value));
        case 3 =>
          var content := ReadBytes(n);
          if content.Err? {
            return Err(content.error);
          }
          var text := Text.Decode(content.value);
          return if text.None? then Err(MalformedText) else Ok(TextString(text.value));
        case 4 =>
          var items := ReadArray(n);
          return if items.Err? then Err(items.error) else Ok(Array(items.value));
        case 5 =>
          var entries := ReadMap(n);
          return if entries.Err? then Err(entries.error) else Ok(Map(entries.value));
        case _ =>
          var value := Read();
          return if value.Err? then Err(value.error) else Ok(Tag(n, value.value));
      }
    }

    method ReadArray(n: nat) returns (r: Result<seq<Value>, CborError>)
      requires Valid()
      modifies this
      ensures Valid() && Follows(r, Rest(), ParseItems(n, old(Rest()), []))
      ensures offset >= old(offset)
      decreases |bytes| - offset, 1
    {
      var items := [];
      for i := 0 to n
        invariant Valid() && offset >= old(offset)
        invariant ParseItems(n, old(Rest()), []) == ParseItems(n - i, Rest(), items)
      {
        var item := Read();
        if item.Err? {
          return Err(item.error);
        }
        items := items + [item.value];
      }
      return Ok(items);
    }

    method ReadMap(n: nat) returns (r: Result<seq<Pair>, CborError>)
      requires Valid()
      modifies this
      ensures Valid() && Follows(r, Rest(), ParsePairs(n, old(Rest()), []))
      ensures offset >= old(offset)
      decreases |bytes| - offset, 1
    {
      var entries := [];
      for i := 0 to n
        invariant Valid() && offset >= old(offset)
        invariant ParsePairs(n, old(Rest()), []) == ParsePairs(n - i, Rest(), entries)
      {
        var key := Read();
        if key.Err? {
          return Err(key.error);
        }
        var value := Read();
        if value.Err? {
          return Err(value.error);
        }
        if key.value.Number? && Get(entries, key.value.n).Some? {
          return Err(DuplicateLabel);
        }
        entries := Set(entries, key.value, value.value);
      }
      return Ok(entries);
    }

    method ReadFully() returns (r: Result<Value, CborError>)
      requires Valid()
      modifies this
      ensures Valid() && r == ParseAll(old(Rest()))
    {
      r := Read();
      if r.Ok? && offset != |bytes| {
        return Err(TrailingBytes);
      }
    }
  }
}
