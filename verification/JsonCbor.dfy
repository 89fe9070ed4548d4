/** JSON to CBOR and back. JSON objects are ordered maps: their members come in increasing key order. */
module JsonCbor {
  import opened Bytes
  import opened CanonicalCbor
  import opened Sorting
  import opened Wrappers

  datatype Json =
    | JNull
    | JBool(b: bool)
    | JString(text: Bytes)
    | JNumber(number: Number)
    | JArray(items: seq<Json>)
    | JObject(members: seq<Member>)

  datatype Member = Member(key: Bytes, value: Json)

  /** Non-negative integers, negative integers, and floats by their bits. */
  datatype Number = PosInt(n: nat) | NegInt(i: int) | FloatNumber(bits: nat)

  type Path = seq<Bytes>

  datatype TagRule = TagRule(path: Path, tag: nat)

  datatype JsonError = KeyEncodingFailed | IntegerOutOfRange | FloatNotCanonical | UnsupportedCbor

  const I64_MIN: int := -0x8000_0000_0000_0000
  const I64_MAX: int := 0x7fff_ffff_ffff_ffff

  function KeyOfMember(member: Member): Bytes {
    member.key
  }

  /** What every parsed JSON value satisfies: number ranges, and members in strictly increasing key order. */
  ghost predicate WellFormed(json: Json) {
    match json
    case JNumber(PosInt(n)) => n < 0x1_0000_0000_0000_0000
    case JNumber(NegInt(i)) => I64_MIN <= i < 0
    case JNumber(FloatNumber(bits)) => IsFinite(bits)
    case JArray(items) => forall i :: 0 <= i < |items| ==> WellFormed(items[i])
    case JObject(members) =>
      && StrictlySorted(KeyOfMember, members)
      && forall i :: 0 <= i < |members| ==> WellFormed(members[i].value)
    case _ => true
  }

  // ----- JSON to CBOR -----

  /** The first rule for exactly this path. */
  function TagAt(path: Path, tags: seq<TagRule>): Option<nat> {
    if tags == [] then None
    else if tags[0].path == path then Some(tags[0].tag)
    else TagAt(path, tags[1..])
  }

  function ValidateFloat(bits: nat): Result<nat, JsonError> {
    if !IsFinite(bits) || bits == NEGATIVE_ZERO then Err(FloatNotCanonical) else Ok(bits)
  }

  function NumberToCbor(number: Number): Result<Value, JsonError> {
    match number
    case NegInt(i) => Ok(Integer(i))
    case PosInt(n) => if n <= I64_MAX then Ok(Integer(n)) else Err(IntegerOutOfRange)
    case FloatNumber(bits) =>
      match ValidateFloat(bits)
      case Err(error) => Err(error)
      case Ok(valid) => Ok(Float(valid))
  }

  function StringToCbor(text: Bytes, path: Path, tags: seq<TagRule>): Value {
    match TagAt(path, tags)
    case None => Text(text)
    case Some(tag) => Tag(tag, Text(text))
  }

  function ToCbor(encode: Encoder, json: Json, path: Path, tags: seq<TagRule>): Result<Value, JsonError>
    decreases json, 1
  {
    match json
    case JNull => Ok(Null)
    case JBool(b) => Ok(Bool(b))
    case JString(text) => Ok(StringToCbor(text, path, tags))
    case JNumber(number) => NumberToCbor(number)
    case JArray(items) =>
      (match ItemsToCbor(encode, items, path, tags, [])
       case Err(error) => Err(error)
       case Ok(values) => Ok(Array(values)))
    case JObject(members) =>
      (match MembersToCbor(encode, members, path, tags, [])
       case Err(error) => Err(error)
       case Ok(keyed) => Ok(Map(Plain(Sort(KeyOf, keyed)))))
  }

  /** Converts `items` and appends them to `values`. */
  function ItemsToCbor(encode: Encoder, items: seq<Json>, path: Path, tags: seq<TagRule>, values: seq<Value>)
    : Result<seq<Value>, JsonError>
    decreases items, 0
  {
    if items == [] then Ok(values)
    else
      match ToCbor(encode, items[0], path, tags)
      case Err(error) => Err(error)
      case Ok(value) => ItemsToCbor(encode, items[1..], path, tags, values + [value])
  }

  function MemberToCbor(encode: Encoder, member: Member, path: Path, tags: seq<TagRule>): Result<Keyed, JsonError>
    decreases member, 2
  {
    match ToCbor(encode, member.value, path + [member.key], tags)
    case Err(error) => Err(error)
    case Ok(value) =>
      match encode(Text(member.key))
      case None => Err(KeyEncodingFailed)
      case Some(encoded) => Ok(Keyed(encoded, Text(member.key), value))
  }

  function MembersToCbor(encode: Encoder, members: seq<Member>, path: Path, tags: seq<TagRule>, keyed: seq<Keyed>)
    : Result<seq<Keyed>, JsonError>
    decreases members, 0
  {
    if members == [] then Ok(keyed)
    else
      match MemberToCbor(encode, members[0], path, tags)
      case Err(error) => Err(error)
      case Ok(entry) => MembersToCbor(encode, members[1..], path, tags, keyed + [entry])
  }

  /** The path shared by all recursive calls. */
  class PathStack {
    var keys: Path

    constructor ()
      ensures keys == []
    {
      keys := [];
    }

    method Push(key: Bytes)
      modifies this
      ensures keys == old(keys) + [key]
    {
      keys := keys + [key];
    }

    method Pop()
      requires keys != []
      modifies this
      ensures keys == old(keys)[..|old(keys)| - 1]
    {
      keys := keys[..|keys| - 1];
    }
  }

  /** A conversion that succeeds restores the path; one that fails leaves it extended to where it failed. */
  method JsonToCborAtPath(encode: Encoder, json: Json, path: PathStack, tags: seq<TagRule>)
    returns (r: Result<Value, JsonError>)
    modifies path
    ensures r == ToCbor(encode, json, old(path.keys), tags)
    ensures r.Ok? ==> path.keys == old(path.keys)
    ensures old(path.keys) <= path.keys
    decreases json
  {
    match json {
      case JNull => return Ok(Null);
      case JBool(b) => return Ok(Bool(b));
      case JString(text) => return Ok(StringToCbor(text, path.keys, tags));
      case JNumber(number) => return NumberToCbor(number);
      case JArray(items) =>
        var values := [];
        for i := 0 to |items|
          invariant path.keys == old(path.keys)
          invariant ItemsToCbor(encode, items, old(path.keys), tags, [])
                    == ItemsToCbor(encode, items[i..], old(path.keys), tags, values)
        {
          var item := JsonToCborAtPath(encode, items[i], path, tags);
          if item.Err? {
            return Err(item.error);
          }
          values := values + [item.value];
          assert items[i..][1..] == items[i + 1..];
        }
        return Ok(Array(values));
      case JObject(members) =>
        var entries := [];
        for i := 0 to |members|
          invariant path.keys == old(path.keys)
          invariant MembersToCbor(encode, members, old(path.keys), tags, [])
                    == MembersToCbor(encode, members[i..], old(path.keys), tags, entries)
        {
          var member := members[i];
          path.Push(member.key);
          assert member < json;
          var value := JsonToCborAtPath(encode, member.value, path, tags);
          if value.Err? {
            return Err(value.error);
          }
          path.Pop();
          var encoded := encode(Text(member.key));
          if encoded.None? {
            return Err(KeyEncodingFailed);
          }
          entries := entries + [Keyed(encoded.value, Text(member.key), value.value)];
          assert members[i..][1..] == members[i + 1..];
        }
        return Ok(Map(Plain(Sort(KeyOf, entries))));
    }
  }

  // ----- CBOR to JSON -----

  /** Base64 of a byte string. */
  type Base64 = Bytes -> Bytes

  predicate HasKey(members: seq<Member>, key: Bytes) {
    exists i :: 0 <= i < |members| && members[i].key == key
  }

  /** Ordered-map insertion: replaces the value of a key that is present. */
  function Put(members: seq<Member>, member: Member): seq<Member> {
    if HasKey(members, member.key) then Replace(members, member) else Insert(KeyOfMember, member, members)
  }

  function Replace(members: seq<Member>, member: Member): seq<Member> {
    if members == [] then []
    else [if members[0].key == member.key then member else members[0]] + Replace(members[1..], member)
  }

  function FromCbor(base64: Base64, value: Value): Result<Json, JsonError>
    decreases value, 1
  {
    match value
    case Null => Ok(JNull)
    case Bool(b) => Ok(JBool(b))
    case Integer(n) =>
      if n < I64_MIN || n > I64_MAX then Err(UnsupportedCbor)
      else Ok(JNumber(if n >= 0 then PosInt(n) else NegInt(n)))
    case Float(bits) =>
      (match ValidateFloat(bits)
       case Err(error) => Err(error)
       case Ok(valid) => Ok(JNumber(FloatNumber(valid))))
    case Text(text) => Ok(JString(text))
    case ByteString(bytes) => Ok(JString(base64(bytes)))
    case Array(items) =>
      (match ItemsFromCbor(base64, items, [])
       case Err(error) => Err(error)
       case Ok(decoded) => Ok(JArray(decoded)))
    case Map(entries) =>
      (match MembersFromCbor(base64, entries, [])
       case Err(error) => Err(error)
       case Ok(decoded) => Ok(JObject(decoded)))
    case Tag(tag, inner) => if tag == 0 || tag == 32 then FromCbor(base64, inner) else Err(UnsupportedCbor)
  }

  function ItemsFromCbor(base64: Base64, items: seq<Value>, decoded: seq<Json>): Result<seq<Json>, JsonError>
    decreases items, 0
  {
    if items == [] then Ok(decoded)
    else
      match FromCbor(base64, items[0])
      case Err(error) => Err(error)
      case Ok(json) => ItemsFromCbor(base64, items[1..], decoded + [json])
  }

  function MemberFromCbor(base64: Base64, entry: Entry): Result<Member, JsonError>
    decreases entry, 2
  {
    if !entry.key.Text? then Err(UnsupportedCbor)
    else
      match FromCbor(base64, entry.value)
      case Err(error) => Err(error)
      case Ok(json) => Ok(Member(entry.key.text, json))
  }

  function MembersFromCbor(base64: Base64, entries: seq<Entry>, decoded: seq<Member>): Result<seq<Member>, JsonError>
    decreases entries, 0
  {
    if entries == [] then Ok(decoded)
    else
      match MemberFromCbor(base64, entries[0])
      case Err(error) => Err(error)
      case Ok(member) => MembersFromCbor(base64, entries[1..], Put(decoded, member))
  }

  method CborToJson(base64: Base64, value: Value) returns (r: Result<Json, JsonError>)
    ensures r == FromCbor(base64, value)
    decreases value
  {
    match value {
      case Array(items) =>
        var decoded := [];
        for i := 0 to |items|
          invariant ItemsFromCbor(base64, items, []) == ItemsFromCbor(base64, items[i..], decoded)
        {
          var json := CborToJson(base64, items[i]);
          if json.Err? {
            return Err(json.error);
          }
          decoded := decoded + [json.value];
          assert items[i..][1..] == items[i + 1..];
        }
        return Ok(JArray(decoded));
      case Map(entries) =>
        var decoded := [];
        for i := 0 to |entries|
          invariant MembersFromCbor(base64, entries, []) == MembersFromCbor(base64, entries[i..], decoded)
        {
          var entry := entries[i];
          assert entry < value;
          if !entry.key.Text? {
            return Err(UnsupportedCbor);
          }
          var json := CborToJson(base64, entry.value);
          if json.Err? {
            return Err(json.error);
          }
          decoded := Put(decoded, Member(entry.key.text, json.value));
          assert entries[i..][1..] == entries[i + 1..];
        }
        return Ok(JObject(decoded));
      case Tag(tag, inner) =>
        if tag == 0 || tag == 32 {
          r := CborToJson(base64, inner);
        } else {
          return Err(UnsupportedCbor);
        }
      case _ => return FromCbor(base64, value);
    }
  }

  // ----- What converts, and what can be read back -----

  /** Integers fit into 64 signed bits and no float is negative zero. */
  ghost predicate Convertible(json: Json) {
    match json
    case JNumber(PosInt(n)) => n <= I64_MAX
    case JNumber(FloatNumber(bits)) => IsFinite(bits) && bits != NEGATIVE_ZERO
    case JArray(items) => forall i :: 0 <= i < |items| ==> Convertible(items[i])
    case JObject(members) => forall i :: 0 <= i < |members| ==> Convertible(members[i].value)
    case _ => true
  }

  /** Every string is untagged or carries one of the two tags the reader knows. */
  ghost predicate Readable(json: Json, path: Path, tags: seq<TagRule>) {
    match json
    case JString(_) => var tag := TagAt(path, tags); tag.Some? ==> tag.value == 0 || tag.value == 32
    case JArray(items) => forall i :: 0 <= i < |items| ==> Readable(items[i], path, tags)
    case JObject(members) =>
      forall i :: 0 <= i < |members| ==> Readable(members[i].value, path + [members[i].key], tags)
    case _ => true
  }

  lemma {:induction false} ItemsToCborPointwise(encode: Encoder, items: seq<Json>, path: Path, tags: seq<TagRule>,
                                                values: seq<Value>)
    ensures var r := ItemsToCbor(encode, items, path, tags, values);
            && (r.Ok? <==> forall i :: 0 <= i < |items| ==> ToCbor(encode, items[i], path, tags).Ok?)
            && (r.Ok? ==> |r.value| == |values| + |items| && r.value[..|values|] == values
                          && forall i :: 0 <= i < |items| ==>
                               ToCbor(encode, items[i], path, tags) == Ok(r.value[|values| + i]))
  {
    if items != [] {
      hide ToCbor;
      var first := ToCbor(encode, items[0], path, tags);
      assert forall i :: 0 < i < |items| ==> items[i] == items[1..][i - 1];
      if first.Ok? {
        ItemsToCborPointwise(encode, items[1..], path, tags, values + [first.value]);
        var r := ItemsToCbor(encode, items, path, tags, values);
        if r.Ok? {
          assert r.value[..|values| + 1][|values|] == first.value;
          assert r.value[..|values|] == r.value[..|values| + 1][..|values|];
        }
      }
    }
  }

  lemma {:induction false} MembersToCborPointwise(encode: Encoder, members: seq<Member>, path: Path,
                                                  tags: seq<TagRule>, keyed: seq<Keyed>)
    ensures var r := MembersToCbor(encode, members, path, tags, keyed);
            && (r.Ok? <==> forall i :: 0 <= i < |members| ==> MemberToCbor(encode, members[i], path, tags).Ok?)
            && (r.Ok? ==> |r.value| == |keyed| + |members| && r.value[..|keyed|] == keyed
                          && forall i :: 0 <= i < |members| ==>
                               MemberToCbor(encode, members[i], path, tags) == Ok(r.value[|keyed| + i]))
  {
    if members != [] {
      hide MemberToCbor;
      var first := MemberToCbor(encode, members[0], path, tags);
      assert forall i :: 0 < i < |members| ==> members[i] == members[1..][i - 1];
      if first.Ok? {
        MembersToCborPointwise(encode, members[1..], path, tags, keyed + [first.value]);
        var r := MembersToCbor(encode, members, path, tags, keyed);
        if r.Ok? {
          assert r.value[..|keyed| + 1][|keyed|] == first.value;
          assert r.value[..|keyed|] == r.value[..|keyed| + 1][..|keyed|];
        }
      }
    }
  }

  lemma {:induction false} ItemsFromCborPointwise(base64: Base64, items: seq<Value>, decoded: seq<Json>)
    ensures var r := ItemsFromCbor(base64, items, decoded);
            && (r.Ok? <==> forall i :: 0 <= i < |items| ==> FromCbor(base64, items[i]).Ok?)
            && (r.Ok? ==> |r.value| == |decoded| + |items| && r.value[..|decoded|] == decoded
                          && forall i :: 0 <= i < |items| ==>
                               FromCbor(base64, items[i]) == Ok(r.value[|decoded| + i]))
  {
    if items != [] {
      hide FromCbor;
      var first := FromCbor(base64, items[0]);
      assert forall i :: 0 < i < |items| ==> items[i] == items[1..][i - 1];
      if first.Ok? {
        ItemsFromCborPointwise(base64, items[1..], decoded + [first.value]);
        var r := ItemsFromCbor(base64, items, decoded);
        if r.Ok? {
          assert r.value[..|decoded| + 1][|decoded|] == first.value;
          assert r.value[..|decoded|] == r.value[..|decoded| + 1][..|decoded|];
        }
      }
    }
  }

  /** With an encoder that accepts text keys, exactly the convertible values convert. */
  lemma {:induction false} ConvertsExactly(encode: Encoder, json: Json, path: Path, tags: seq<TagRule>)
    requires WellFormed(json)
    requires forall key :: encode(Text(key)).Some?
    ensures ToCbor(encode, json, path, tags).Ok? <==> Convertible(json)
    decreases json
  {
    match json
    case JArray(items) =>
      ItemsToCborPointwise(encode, items, path, tags, []);
      forall i | 0 <= i < |items|
        ensures ToCbor(encode, items[i], path, tags).Ok? <==> Convertible(items[i])
      {
        ConvertsExactly(encode, items[i], path, tags);
      }
    case JObject(members) =>
      MembersToCborPointwise(encode, members, path, tags, []);
      forall i | 0 <= i < |members|
        ensures MemberToCbor(encode, members[i], path, tags).Ok? <==> Convertible(members[i].value)
      {
        ConvertsExactly(encode, members[i].value, path + [members[i].key], tags);
      }
    case _ =>
  }

  // ----- Reading objects back -----

  /** What each entry is read as. */
  function MembersOf(base64: Base64, entries: seq<Entry>): (members: seq<Member>)
    ensures |members| == |entries|
  {
    if entries == [] then []
    else
      [match MemberFromCbor(base64, entries[0]) case Ok(member) => member case Err(_) => Member([], JNull)]
      + MembersOf(base64, entries[1..])
  }

  /** Reading entries with distinct keys sorts their members into the map. */
  lemma {:induction false} EntriesReadBack(base64: Base64, entries: seq<Entry>, decoded: seq<Member>)
    requires forall i :: 0 <= i < |entries| ==> MemberFromCbor(base64, entries[i]).Ok?
    requires Sorted(KeyOfMember, decoded) && DistinctKeys(KeyOfMember, decoded + MembersOf(base64, entries))
    ensures var r := MembersFromCbor(base64, entries, decoded);
            && r.Ok? && Sorted(KeyOfMember, r.value)
            && multiset(r.value) == multiset(decoded + MembersOf(base64, entries))
    decreases |entries|
  {
    if entries == [] {
      assert decoded + MembersOf(base64, entries) == decoded;
    } else {
      hide MemberFromCbor, Insert;
      var member, others := MemberFromCbor(base64, entries[0]).value, MembersOf(base64, entries[1..]);
      var all := decoded + MembersOf(base64, entries);
      assert all == decoded + [member] + others;
      assert all[|decoded|] == member && forall i :: 0 <= i < |decoded| ==> all[i] == decoded[i];
      assert Put(decoded, member) == Insert(KeyOfMember, member, decoded);
      InsertSorts(KeyOfMember, member, decoded);
      assert multiset(Put(decoded, member) + others) == multiset(all);
      DistinctPermuted(KeyOfMember, Put(decoded, member) + others, all);
      EntriesReadBack(base64, entries[1..], Put(decoded, member));
    }
  }

  lemma {:induction false} EntriesReadable(base64: Base64, entries: seq<Entry>, decoded: seq<Member>)
    ensures MembersFromCbor(base64, entries, decoded).Ok?
            <==> forall i :: 0 <= i < |entries| ==> MemberFromCbor(base64, entries[i]).Ok?
    decreases |entries|
  {
    if entries != [] {
      hide MemberFromCbor, Put;
      assert forall i :: 0 < i < |entries| ==> entries[i] == entries[1..][i - 1];
      if MemberFromCbor(base64, entries[0]).Ok? {
        EntriesReadable(base64, entries[1..], Put(decoded, MemberFromCbor(base64, entries[0]).value));
      }
    }
  }

  lemma {:induction false} InsertKeepsMembers(base64: Base64, x: Keyed, xs: seq<Keyed>)
    ensures multiset(MembersOf(base64, Plain(Insert(KeyOf, x, xs))))
            == multiset(MembersOf(base64, Plain(xs))) + multiset(MembersOf(base64, Plain([x])))
    decreases |xs|
  {
    if xs == [] || !Less(KeyOf(xs[0]), KeyOf(x)) {
      FirstMember(base64, x, xs);
    } else {
      InsertKeepsMembers(base64, x, xs[1..]);
      InsertLater(base64, x, xs, Insert(KeyOf, x, xs[1..]));
    }
  }

  lemma {:induction false} InsertLater(base64: Base64, x: Keyed, xs: seq<Keyed>, rest: seq<Keyed>)
    requires xs != []
    requires multiset(MembersOf(base64, Plain(rest)))
             == multiset(MembersOf(base64, Plain(xs[1..]))) + multiset(MembersOf(base64, Plain([x])))
    ensures multiset(MembersOf(base64, Plain([xs[0]] + rest)))
            == multiset(MembersOf(base64, Plain(xs))) + multiset(MembersOf(base64, Plain([x])))
  {
    hide *;
    FirstMember(base64, xs[0], rest);
    FirstMember(base64, xs[0], xs[1..]);
    assert [xs[0]] + xs[1..] == xs;
  }

  lemma {:induction false} FirstMember(base64: Base64, x: Keyed, xs: seq<Keyed>)
    ensures MembersOf(base64, Plain([x] + xs)) == MembersOf(base64, Plain([x])) + MembersOf(base64, Plain(xs))
  {
  }

  lemma {:induction false} SortKeepsMembers(base64: Base64, keyed: seq<Keyed>)
    ensures multiset(MembersOf(base64, Plain(Sort(KeyOf, keyed)))) == multiset(MembersOf(base64, Plain(keyed)))
  {
    hide *;
    if keyed != [] {
      SortKeepsMembers(base64, keyed[1..]);
      SortedFirstMember(base64, keyed[0], keyed[1..]);
      SortUnfolds(keyed);
      assert [keyed[0]] + keyed[1..] == keyed;
    } else {
      SortUnfolds(keyed);
    }
  }

  lemma SortUnfolds(keyed: seq<Keyed>)
    ensures Sort(KeyOf, keyed) == if keyed == [] then [] else Insert(KeyOf, keyed[0], Sort(KeyOf, keyed[1..]))
  {
  }

  lemma {:induction false} SortedFirstMember(base64: Base64, x: Keyed, xs: seq<Keyed>)
    requires multiset(MembersOf(base64, Plain(Sort(KeyOf, xs)))) == multiset(MembersOf(base64, Plain(xs)))
    ensures multiset(MembersOf(base64, Plain(Insert(KeyOf, x, Sort(KeyOf, xs)))))
            == multiset(MembersOf(base64, Plain([x] + xs)))
  {
    hide *;
    InsertKeepsMembers(base64, x, Sort(KeyOf, xs));
    FirstMember(base64, x, xs);
  }

  /** Sorting the entries by encoded key does not change which object they are read as. */
  lemma {:induction false} ObjectReadsBack(base64: Base64, members: seq<Member>, keyed: seq<Keyed>)
    requires StrictlySorted(KeyOfMember, members) && |keyed| == |members|
    requires forall i :: 0 <= i < |members| ==>
               MemberFromCbor(base64, Entry(keyed[i].key, keyed[i].value)) == Ok(members[i])
    ensures MembersFromCbor(base64, Plain(Sort(KeyOf, keyed)), []) == Ok(members)
  {
    var entries := Plain(Sort(KeyOf, keyed));
    hide MemberFromCbor, Sort;
    MembersPointwise(base64, keyed, members);
    SortKeepsMembers(base64, keyed);
    SortSorts(KeyOf, keyed);
    forall i | 0 <= i < |entries|
      ensures MemberFromCbor(base64, entries[i]).Ok?
    {
      assert Sort(KeyOf, keyed)[i] in multiset(keyed);
    }
    StrictIsDistinct(KeyOfMember, members);
    DistinctPermuted(KeyOfMember, MembersOf(base64, entries), members);
    assert [] + MembersOf(base64, entries) == MembersOf(base64, entries);
    EntriesReadBack(base64, entries, []);
    SortedUnique(KeyOfMember, members, MembersFromCbor(base64, entries, []).value);
  }

  lemma {:induction false} MembersPointwise(base64: Base64, keyed: seq<Keyed>, members: seq<Member>)
    requires |keyed| == |members|
    requires forall i :: 0 <= i < |members| ==>
               MemberFromCbor(base64, Entry(keyed[i].key, keyed[i].value)) == Ok(members[i])
    ensures MembersOf(base64, Plain(keyed)) == members
  {
    if keyed != [] {
      hide MemberFromCbor;
      MembersPointwise(base64, keyed[1..], members[1..]);
      assert Plain(keyed)[0] == Entry(keyed[0].key, keyed[0].value) && Plain(keyed)[1..] == Plain(keyed[1..]);
      assert members == [members[0]] + members[1..];
    }
  }

  /** An unreadable entry makes the object unreadable, wherever sorting puts it. */
  lemma {:induction false} ObjectUnreadable(base64: Base64, keyed: seq<Keyed>, i: nat)
    requires i < |keyed| && MemberFromCbor(base64, Entry(keyed[i].key, keyed[i].value)).Err?
    ensures MembersFromCbor(base64, Plain(Sort(KeyOf, keyed)), []).Err?
  {
    hide MemberFromCbor, MembersFromCbor, Sort;
    SortSorts(KeyOf, keyed);
    assert keyed[i] in multiset(Sort(KeyOf, keyed));
    var j :| 0 <= j < |Sort(KeyOf, keyed)| && Sort(KeyOf, keyed)[j] == keyed[i];
    assert Plain(Sort(KeyOf, keyed))[j] == Entry(keyed[i].key, keyed[i].value);
    EntriesReadable(base64, Plain(Sort(KeyOf, keyed)), []);
  }

  // ----- Round trip -----

  /** A converted value is read back as it was exactly when its strings carry readable tags, and else is refused. */
  lemma {:induction false} RoundTrip(encode: Encoder, base64: Base64, json: Json, path: Path, tags: seq<TagRule>)
    requires WellFormed(json) && ToCbor(encode, json, path, tags).Ok?
    ensures var back := FromCbor(base64, ToCbor(encode, json, path, tags).value);
            if Readable(json, path, tags) then back == Ok(json) else back.Err?
    decreases json, 1
  {
    match json
    case JArray(items) => ItemsRoundTrip(encode, base64, json, path, tags);
    case JObject(members) => MembersRoundTrip(encode, base64, json, path, tags);
    case _ =>
  }

  lemma {:induction false} ItemsRoundTrip(encode: Encoder, base64: Base64, json: Json, path: Path, tags: seq<TagRule>)
    requires json.JArray? && WellFormed(json) && ToCbor(encode, json, path, tags).Ok?
    ensures var back := FromCbor(base64, ToCbor(encode, json, path, tags).value);
            if Readable(json, path, tags) then back == Ok(json) else back.Err?
    decreases json, 0
  {
    hide MembersToCbor, MembersFromCbor, ItemsToCbor, ItemsFromCbor, StringToCbor, NumberToCbor, ValidateFloat, Plain;
    var items, values := json.items, ItemsToCbor(encode, json.items, path, tags, []).value;
    ItemsToCborPointwise(encode, items, path, tags, []);
    forall i | 0 <= i < |items|
      ensures Readable(items[i], path, tags) ==> FromCbor(base64, values[i]) == Ok(items[i])
      ensures !Readable(items[i], path, tags) ==> FromCbor(base64, values[i]).Err?
    {
      RoundTrip(encode, base64, items[i], path, tags);
    }
    ArrayReadsBack(base64, values, items);
  }

  lemma {:induction false} MembersRoundTrip(encode: Encoder, base64: Base64, json: Json, path: Path, tags: seq<TagRule>)
    requires json.JObject? && WellFormed(json) && ToCbor(encode, json, path, tags).Ok?
    ensures var back := FromCbor(base64, ToCbor(encode, json, path, tags).value);
            if Readable(json, path, tags) then back == Ok(json) else back.Err?
    decreases json, 0
  {
    hide ItemsToCbor, ItemsFromCbor, MembersToCbor, MembersFromCbor, StringToCbor, NumberToCbor, ValidateFloat, Plain;
    var members, keyed := json.members, MembersToCbor(encode, json.members, path, tags, []).value;
    MembersToCborPointwise(encode, members, path, tags, []);
    forall i | 0 <= i < |members|
      ensures var back := MemberFromCbor(base64, Entry(keyed[i].key, keyed[i].value));
              if Readable(members[i].value, path + [members[i].key], tags) then back == Ok(members[i]) else back.Err?
    {
      RoundTrip(encode, base64, members[i].value, path + [members[i].key], tags);
    }
    ObjectRoundTrip(base64, members, keyed, path, tags);
  }

  lemma {:induction false} ArrayReadsBack(base64: Base64, values: seq<Value>, items: seq<Json>)
    requires |values| == |items|
    ensures (forall i :: 0 <= i < |items| ==> FromCbor(base64, values[i]) == Ok(items[i]))
              ==> ItemsFromCbor(base64, values, []) == Ok(items)
    ensures (exists i :: 0 <= i < |items| && FromCbor(base64, values[i]).Err?)
              ==> ItemsFromCbor(base64, values, []).Err?
  {
    hide FromCbor;
    ItemsFromCborPointwise(base64, values, []);
    if forall i :: 0 <= i < |items| ==> FromCbor(base64, values[i]) == Ok(items[i]) {
      assert ItemsFromCbor(base64, values, []).value == items;
    }
  }

  lemma {:induction false} ObjectRoundTrip(base64: Base64, members: seq<Member>, keyed: seq<Keyed>, path: Path,
                                           tags: seq<TagRule>)
    requires StrictlySorted(KeyOfMember, members) && |keyed| == |members|
    requires forall i :: 0 <= i < |members| ==>
               var back := MemberFromCbor(base64, Entry(keyed[i].key, keyed[i].value));
               if Readable(members[i].value, path + [members[i].key], tags) then back == Ok(members[i]) else back.Err?
    ensures var back := MembersFromCbor(base64, Plain(Sort(KeyOf, keyed)), []);
            if Readable(JObject(members), path, tags) then back == Ok(members) else back.Err?
  {
    hide MemberFromCbor, MembersFromCbor;
    if Readable(JObject(members), path, tags) {
      ObjectReadsBack(base64, members, keyed);
    } else {
      var i :| 0 <= i < |members| && !Readable(members[i].value, path + [members[i].key], tags);
      ObjectUnreadable(base64, keyed, i);
    }
  }

  // ----- The converted value is canonical -----

  /** Different text keys have different encodings. */
  ghost predicate KeepsApart(encode: Encoder) {
    forall a, b :: encode(Text(a)).Some? && encode(Text(a)) == encode(Text(b)) ==> a == b
  }

  /** Conversion orders map entries as canonicalisation does. */
  lemma {:induction false} ConvertedIsCanonical(encode: Encoder, json: Json, path: Path, tags: seq<TagRule>)
    requires KeepsApart(encode) && WellFormed(json) && ToCbor(encode, json, path, tags).Ok?
    ensures IsCanonical(encode, ToCbor(encode, json, path, tags).value)
    decreases json
  {
    match json
    case JArray(items) =>
      ItemsToCborPointwise(encode, items, path, tags, []);
      var values := ItemsToCbor(encode, items, path, tags, []).value;
      forall i | 0 <= i < |items|
        ensures IsCanonical(encode, values[i])
      {
        ConvertedIsCanonical(encode, items[i], path, tags);
      }
    case JObject(members) =>
      MembersToCborPointwise(encode, members, path, tags, []);
      var keyed := MembersToCbor(encode, members, path, tags, []).value;
      forall i | 0 <= i < |members|
        ensures KeyedIsCanonical(encode, keyed[i]) && keyed[i].key == Text(members[i].key)
      {
        ConvertedIsCanonical(encode, members[i].value, path + [members[i].key], tags);
      }
      KeyedByMembers(encode, members, keyed);
      ArrangedIsCanonical(encode, keyed);
    case JNumber(FloatNumber(bits)) => CanonicalFloat(bits);
    case _ =>
  }

  lemma {:induction false} KeyedByMembers(encode: Encoder, members: seq<Member>, keyed: seq<Keyed>)
    requires KeepsApart(encode) && StrictlySorted(KeyOfMember, members) && |keyed| == |members|
    requires forall i :: 0 <= i < |members| ==>
               keyed[i].key == Text(members[i].key) && encode(keyed[i].key) == Some(keyed[i].encoded)
    ensures Arrange(keyed) == Ok(Map(Plain(Sort(KeyOf, keyed))))
  {
    StrictIsDistinct(KeyOfMember, members);
    DistinctSorts(KeyOf, keyed);
  }

  /** So canonicalisation leaves it alone. */
  lemma ConvertedIsFixed(encode: Encoder, json: Json, path: Path, tags: seq<TagRule>)
    requires KeepsApart(encode) && WellFormed(json) && ToCbor(encode, json, path, tags).Ok?
    ensures var value := ToCbor(encode, json, path, tags).value; Canonicalize(encode, value) == Ok(value)
  {
    ConvertedIsCanonical(encode, json, path, tags);
    CanonicalIsFixed(encode, ToCbor(encode, json, path, tags).value);
  }

  // ----- What conversion means -----

  /** `tag` is that of the first rule for the path. */
  ghost predicate FirstTag(path: Path, tags: seq<TagRule>, tag: nat) {
    exists i :: 0 <= i < |tags| && tags[i] == TagRule(path, tag) && forall j :: 0 <= j < i ==> tags[j].path != path
  }

  lemma {:induction false} TagAtExactly(path: Path, tags: seq<TagRule>, tag: nat)
    ensures TagAt(path, tags) == Some(tag) <==> FirstTag(path, tags, tag)
    ensures TagAt(path, tags) == None <==> forall i :: 0 <= i < |tags| ==> tags[i].path != path
  {
    if tags != [] && tags[0].path != path {
      TagAtExactly(path, tags[1..], tag);
      assert forall i :: 0 < i < |tags| ==> tags[i] == tags[1..][i - 1];
      if FirstTag(path, tags[1..], tag) {
        var i :| 0 <= i < |tags[1..]| && tags[1..][i] == TagRule(path, tag)
                 && forall j :: 0 <= j < i ==> tags[1..][j].path != path;
        assert tags[i + 1] == TagRule(path, tag) && forall j :: 0 < j < i + 1 ==> tags[j].path == tags[1..][j - 1].path;
      }
      if FirstTag(path, tags, tag) {
        var i :| 0 <= i < |tags| && tags[i] == TagRule(path, tag) && forall j :: 0 <= j < i ==> tags[j].path != path;
        assert tags[1..][i - 1] == TagRule(path, tag);
        assert forall j :: 0 <= j < i - 1 ==> tags[1..][j].path == tags[j + 1].path;
      }
    }
  }

  /** `value` is what `json` stands for: the same data, with tags at the paths that have rules. */
  ghost predicate Denotes(json: Json, value: Value, path: Path, tags: seq<TagRule>)
    decreases json
  {
    match json
    case JNull => value == Null
    case JBool(b) => value == Bool(b)
    case JString(text) =>
      if forall i :: 0 <= i < |tags| ==> tags[i].path != path then value == Text(text)
      else value.Tag? && value.item == Text(text) && FirstTag(path, tags, value.tag)
    case JNumber(PosInt(n)) => n < 0x8000_0000_0000_0000 && value == Integer(n)
    case JNumber(NegInt(i)) => value == Integer(i)
    case JNumber(FloatNumber(bits)) => IsCanonicalFloat(bits) && value == Float(bits)
    case JArray(items) =>
      && value.Array? && |value.items| == |items|
      && forall i :: 0 <= i < |items| ==> Denotes(items[i], value.items[i], path, tags)
    case JObject(members) =>
      && value.Map? && |value.entries| == |members|
      && forall i :: 0 <= i < |members| ==>
           exists j :: 0 <= j < |value.entries| && value.entries[j].key == Text(members[i].key)
                       && Denotes(members[i].value, value.entries[j].value, path + [members[i].key], tags)
  }

  /** A converted value says what the JSON value says. */
  lemma {:induction false} ConvertedDenotes(encode: Encoder, json: Json, path: Path, tags: seq<TagRule>)
    requires ToCbor(encode, json, path, tags).Ok?
    ensures Denotes(json, ToCbor(encode, json, path, tags).value, path, tags)
    decreases json, 1
  {
    match json
    case JString(text) =>
      var tag := TagAt(path, tags);
      TagAtExactly(path, tags, if tag.Some? then tag.value else 0);
    case JNumber(FloatNumber(bits)) => CanonicalFloat(bits);
    case JArray(items) =>
      ItemsToCborPointwise(encode, items, path, tags, []);
      forall i | 0 <= i < |items|
        ensures Denotes(items[i], ItemsToCbor(encode, items, path, tags, []).value[i], path, tags)
      {
        ConvertedDenotes(encode, items[i], path, tags);
      }
    case JObject(members) => ObjectDenotes(encode, members, path, tags);
    case _ =>
  }

  lemma {:induction false} ObjectDenotes(encode: Encoder, members: seq<Member>, path: Path, tags: seq<TagRule>)
    requires MembersToCbor(encode, members, path, tags, []).Ok?
    ensures var entries := Plain(Sort(KeyOf, MembersToCbor(encode, members, path, tags, []).value));
            && |entries| == |members|
            && forall i :: 0 <= i < |members| ==>
                 exists j :: 0 <= j < |entries| && entries[j].key == Text(members[i].key)
                             && Denotes(members[i].value, entries[j].value, path + [members[i].key], tags)
    decreases members, 0
  {
    hide Denotes, MembersToCbor, Sort;
    MembersToCborPointwise(encode, members, path, tags, []);
    var keyed := MembersToCbor(encode, members, path, tags, []).value;
    var sorted := Sort(KeyOf, keyed);
    SortSorts(KeyOf, keyed);
    assert |sorted| == |multiset(sorted)| == |multiset(keyed)| == |keyed|;
    forall i | 0 <= i < |members|
      ensures exists j :: 0 <= j < |sorted| && Plain(sorted)[j].key == Text(members[i].key)
                          && Denotes(members[i].value, Plain(sorted)[j].value, path + [members[i].key], tags)
    {
      ConvertedDenotes(encode, members[i].value, path + [members[i].key], tags);
      assert keyed[i] in multiset(sorted);
      var j :| 0 <= j < |sorted| && sorted[j] == keyed[i];
      assert Plain(sorted)[j] == Entry(keyed[i].key, keyed[i].value);
    }
  }

  // ----- What reading means -----

  /** Integers fit, floats are finite and not negative zero, keys are text, and the only tags are 0 and 32. */
  ghost predicate Legible(value: Value) {
    match value
    case Integer(n) => -0x8000_0000_0000_0000 <= n < 0x8000_0000_0000_0000
    case Float(bits) => IsCanonicalFloat(bits)
    case Array(items) => forall i :: 0 <= i < |items| ==> Legible(items[i])
    case Map(entries) => forall i :: 0 <= i < |entries| ==> entries[i].key.Text? && Legible(entries[i].value)
    case Tag(tag, inner) => (tag == 0 || tag == 32) && Legible(inner)
    case _ => true
  }

  /** No later entry has the key of entry `i`. */
  ghost predicate IsLast(entries: seq<Entry>, i: nat)
    requires i < |entries|
  {
    forall j :: i < j < |entries| ==> entries[j].key != entries[i].key
  }

  ghost predicate IsKey(entries: seq<Entry>, key: Bytes) {
    exists i :: 0 <= i < |entries| && entries[i].key == Text(key)
  }

  /** `json` is what `value` says; the last of several entries with one key counts, and members are in key order. */
  ghost predicate Says(base64: Base64, value: Value, json: Json)
    decreases value
  {
    match value
    case Null => json == JNull
    case Bool(b) => json == JBool(b)
    case Integer(n) => json == JNumber(if n < 0 then NegInt(n) else PosInt(n))
    case Float(bits) => json == JNumber(FloatNumber(bits))
    case Text(text) => json == JString(text)
    case ByteString(bytes) => json == JString(base64(bytes))
    case Array(items) =>
      && json.JArray? && |json.items| == |items|
      && forall i :: 0 <= i < |items| ==> Says(base64, items[i], json.items[i])
    case Map(entries) =>
      && json.JObject?
      && (forall p, q :: 0 <= p < q < |json.members| ==> Precedes(json.members[p].key, json.members[q].key))
      && (forall p :: 0 <= p < |json.members| ==> IsKey(entries, json.members[p].key))
      && (forall i :: 0 <= i < |entries| && IsLast(entries, i) ==>
            exists p :: 0 <= p < |json.members| && entries[i].key == Text(json.members[p].key)
                        && Says(base64, entries[i].value, json.members[p].value))
    case Tag(_, inner) => Says(base64, inner, json)
  }

  /** Exactly the legible values are read. */
  lemma {:induction false} ReadsExactly(base64: Base64, value: Value)
    ensures FromCbor(base64, value).Ok? <==> Legible(value)
    decreases value
  {
    match value
    case Float(bits) => CanonicalFloat(bits);
    case Array(items) =>
      ItemsFromCborPointwise(base64, items, []);
      forall i | 0 <= i < |items|
        ensures FromCbor(base64, items[i]).Ok? <==> Legible(items[i])
      {
        ReadsExactly(base64, items[i]);
      }
    case Map(entries) =>
      EntriesReadable(base64, entries, []);
      forall i | 0 <= i < |entries|
        ensures MemberFromCbor(base64, entries[i]).Ok? <==> entries[i].key.Text? && Legible(entries[i].value)
      {
        ReadsExactly(base64, entries[i].value);
      }
    case Tag(_, inner) => ReadsExactly(base64, inner);
    case _ =>
  }

  lemma {:induction false} ReplaceKeepsKeys(members: seq<Member>, member: Member, i: nat)
    requires i < |members|
    ensures |Replace(members, member)| == |members|
    ensures Replace(members, member)[i] == if members[i].key == member.key then member else members[i]
    decreases |members|
  {
    if i > 0 {
      ReplaceKeepsKeys(members[1..], member, i - 1);
    } else if |members| > 1 {
      ReplaceKeepsKeys(members[1..], member, 0);
    }
  }

  lemma {:induction false} ReplaceExactly(members: seq<Member>, member: Member)
    requires StrictlySorted(KeyOfMember, members) && HasKey(members, member.key)
    ensures StrictlySorted(KeyOfMember, Replace(members, member))
    ensures forall m :: m in Replace(members, member) <==> m == member || (m in members && m.key != member.key)
  {
    hide Replace, Less;
    var r := Replace(members, member);
    forall i | 0 <= i < |members|
      ensures |r| == |members| && r[i] == if members[i].key == member.key then member else members[i]
    {
      ReplaceKeepsKeys(members, member, i);
    }
    forall m | m in members && m.key != member.key
      ensures m in r
    {
      var i :| 0 <= i < |members| && members[i] == m;
      assert r[i] == m;
    }
    var i :| 0 <= i < |members| && members[i].key == member.key;
    assert r[i] == member;
  }

  lemma {:induction false} InsertExactly(members: seq<Member>, member: Member)
    requires StrictlySorted(KeyOfMember, members) && !HasKey(members, member.key)
    ensures StrictlySorted(KeyOfMember, Insert(KeyOfMember, member, members))
    ensures forall m :: m in Insert(KeyOfMember, member, members) <==> m == member || m in members
  {
    hide Insert, Less;
    var r := Insert(KeyOfMember, member, members);
    SortedWithout(members);
    InsertSorts(KeyOfMember, member, members);
    StrictIsDistinct(KeyOfMember, members);
    assert multiset(members + [member]) == multiset(r);
    assert DistinctKeys(KeyOfMember, members + [member]);
    DistinctPermuted(KeyOfMember, r, members + [member]);
    forall i, j | 0 <= i < j < |r|
      ensures Less(r[i].key, r[j].key)
    {
      LessTotal(r[i].key, r[j].key);
    }
    forall m
      ensures m in r <==> m == member || m in members
    {
      assert m in r <==> m in multiset(r);
    }
  }

  lemma SortedWithout(members: seq<Member>)
    requires StrictlySorted(KeyOfMember, members)
    ensures Sorted(KeyOfMember, members)
  {
    forall i, j | 0 <= i < j < |members|
      ensures !Less(members[j].key, members[i].key)
    {
      if Less(members[j].key, members[i].key) {
        LessTransitive(members[i].key, members[j].key, members[i].key);
        LessIrreflexive(members[i].key);
      }
    }
  }

  /** Putting a member in keeps the order of keys and all other members. */
  lemma {:induction false} PutExactly(members: seq<Member>, member: Member)
    requires StrictlySorted(KeyOfMember, members)
    ensures StrictlySorted(KeyOfMember, Put(members, member))
    ensures forall m :: m in Put(members, member) <==> m == member || (m in members && m.key != member.key)
  {
    hide Replace, Insert, StrictlySorted, Less;
    if HasKey(members, member.key) {
      ReplaceExactly(members, member);
    } else {
      InsertExactly(members, member);
      assert forall m :: m in members ==> m.key != member.key;
    }
  }

  /** What has been put together from the first `n` entries. */
  ghost predicate Gathers(base64: Base64, entries: seq<Entry>, n: nat, members: seq<Member>)
    requires n <= |entries|
  {
    && StrictlySorted(KeyOfMember, members)
    && (forall m :: m in members ==>
          exists i :: 0 <= i < n && MemberFromCbor(base64, entries[i]) == Ok(m) && IsLast(entries[..n], i))
    && (forall i :: 0 <= i < n && IsLast(entries[..n], i) ==>
          MemberFromCbor(base64, entries[i]).Ok? && MemberFromCbor(base64, entries[i]).value in members)
  }

  lemma LastNext(entries: seq<Entry>, n: nat, i: nat)
    requires i < n < |entries|
    ensures IsLast(entries[..n + 1], i) <==> IsLast(entries[..n], i) && entries[i].key != entries[n].key
  {
    assert forall j :: i < j < n ==> entries[..n + 1][j] == entries[..n][j];
    assert entries[..n + 1][n] == entries[n];
  }

  lemma MemberKey(base64: Base64, entry: Entry)
    requires MemberFromCbor(base64, entry).Ok?
    ensures entry.key == Text(MemberFromCbor(base64, entry).value.key)
  {
  }

  lemma {:induction false} GathersNext(base64: Base64, entries: seq<Entry>, n: nat, members: seq<Member>)
    requires n < |entries| && Gathers(base64, entries, n, members)
    requires forall i :: 0 <= i < |entries| ==> MemberFromCbor(base64, entries[i]).Ok?
    ensures Gathers(base64, entries, n + 1, Put(members, MemberFromCbor(base64, entries[n]).value))
  {
    hide Put, MemberFromCbor, IsLast, StrictlySorted;
    var member := MemberFromCbor(base64, entries[n]).value;
    var r := Put(members, member);
    PutExactly(members, member);
    assert IsLast(entries[..n + 1], n) by {
      LastIsLast(entries[..n + 1]);
    }
    MemberKey(base64, entries[n]);
    forall m | m in r
      ensures exists i :: 0 <= i < n + 1 && MemberFromCbor(base64, entries[i]) == Ok(m) && IsLast(entries[..n + 1], i)
    {
      if m != member {
        var i :| 0 <= i < n && MemberFromCbor(base64, entries[i]) == Ok(m) && IsLast(entries[..n], i);
        MemberKey(base64, entries[i]);
        LastNext(entries, n, i);
      }
    }
    forall i | 0 <= i < n + 1 && IsLast(entries[..n + 1], i)
      ensures MemberFromCbor(base64, entries[i]).value in r
    {
      if i < n {
        MemberKey(base64, entries[i]);
        LastNext(entries, n, i);
      }
    }
  }

  lemma LastIsLast(entries: seq<Entry>)
    requires entries != []
    ensures IsLast(entries, |entries| - 1)
  {
  }

  lemma {:induction false} AllGathered(base64: Base64, entries: seq<Entry>, n: nat, members: seq<Member>)
    requires n <= |entries| && Gathers(base64, entries, n, members)
    requires forall i :: 0 <= i < |entries| ==> MemberFromCbor(base64, entries[i]).Ok?
    ensures MembersFromCbor(base64, entries[n..], members).Ok?
    ensures Gathers(base64, entries, |entries|, MembersFromCbor(base64, entries[n..], members).value)
    decreases |entries| - n
  {
    hide Gathers, MemberFromCbor, Put;
    if n < |entries| {
      GathersNext(base64, entries, n, members);
      assert entries[n..][1..] == entries[n + 1..] && entries[n..][0] == entries[n];
      AllGathered(base64, entries, n + 1, Put(members, MemberFromCbor(base64, entries[n]).value));
    }
  }

  /** What is read is what the value says. */
  lemma {:induction false} ReadSays(base64: Base64, value: Value)
    requires FromCbor(base64, value).Ok?
    ensures Says(base64, value, FromCbor(base64, value).value)
    decreases value, 1
  {
    match value
    case Array(items) =>
      ItemsFromCborPointwise(base64, items, []);
      forall i | 0 <= i < |items|
        ensures Says(base64, items[i], ItemsFromCbor(base64, items, []).value[i])
      {
        ReadSays(base64, items[i]);
      }
    case Map(entries) => MapSays(base64, entries);
    case Tag(_, inner) => ReadSays(base64, inner);
    case _ =>
  }

  lemma {:induction false} EntrySays(base64: Base64, entry: Entry)
    requires MemberFromCbor(base64, entry).Ok?
    ensures var member := MemberFromCbor(base64, entry).value;
            entry.key == Text(member.key) && Says(base64, entry.value, member.value)
    decreases entry, 2
  {
    ReadSays(base64, entry.value);
  }

  /** The members gathered from all entries are what the map says. */
  lemma {:induction false} GatheredSays(base64: Base64, entries: seq<Entry>, members: seq<Member>)
    requires Gathers(base64, entries, |entries|, members)
    requires forall i :: 0 <= i < |entries| ==>
               && MemberFromCbor(base64, entries[i]).Ok?
               && var member := MemberFromCbor(base64, entries[i]).value;
                  entries[i].key == Text(member.key) && Says(base64, entries[i].value, member.value)
    ensures Says(base64, Map(entries), JObject(members))
  {
    assert entries[..|entries|] == entries;
    hide MemberFromCbor, IsLast, Says;
    forall p, q | 0 <= p < q < |members|
      ensures Precedes(members[p].key, members[q].key)
    {
      LessExactly(members[p].key, members[q].key);
    }
    hide StrictlySorted, Less, Precedes;
    forall i | 0 <= i < |entries| && IsLast(entries, i)
      ensures exists p :: 0 <= p < |members| && entries[i].key == Text(members[p].key)
                          && Says(base64, entries[i].value, members[p].value)
    {
      var p :| 0 <= p < |members| && members[p] == MemberFromCbor(base64, entries[i]).value;
    }
    forall p | 0 <= p < |members|
      ensures IsKey(entries, members[p].key)
    {
      assert members[p] in members;
    }
    MapUnfolds(base64, entries, members);
  }

  lemma MapUnfolds(base64: Base64, entries: seq<Entry>, members: seq<Member>)
    requires forall p, q :: 0 <= p < q < |members| ==> Precedes(members[p].key, members[q].key)
    requires forall p :: 0 <= p < |members| ==> IsKey(entries, members[p].key)
    requires forall i :: 0 <= i < |entries| && IsLast(entries, i) ==>
               exists p :: 0 <= p < |members| && entries[i].key == Text(members[p].key)
                           && Says(base64, entries[i].value, members[p].value)
    ensures Says(base64, Map(entries), JObject(members))
  {
  }

  lemma {:induction false} MapSays(base64: Base64, entries: seq<Entry>)
    requires MembersFromCbor(base64, entries, []).Ok?
    ensures Says(base64, Map(entries), JObject(MembersFromCbor(base64, entries, []).value))
    decreases entries, 0
  {
    hide MembersFromCbor, MemberFromCbor, Says, Gathers;
    EntriesReadable(base64, entries, []);
    assert entries[0..] == entries;
    NothingGathered(base64, entries);
    AllGathered(base64, entries, 0, []);
    forall i | 0 <= i < |entries|
      ensures var member := MemberFromCbor(base64, entries[i]).value;
              entries[i].key == Text(member.key) && Says(base64, entries[i].value, member.value)
    {
      EntrySays(base64, entries[i]);
    }
    GatheredSays(base64, entries, MembersFromCbor(base64, entries, []).value);
  }

  lemma NothingGathered(base64: Base64, entries: seq<Entry>)
    ensures Gathers(base64, entries, 0, [])
  {
  }
}
