/** COSE_Sign1 envelopes of the TypeScript package: encoders, decoder, and their round trip. */
module CoseSign1 {
  import opened Bytes
  import opened CborDecoder
  import opened CborHead
  import opened CborSyntax
  import opened Wrappers
  import Text

  const LABEL_ALG: int := 1
  const LABEL_KID: int := 4
  const LABEL_SUITE_ID: int := -65_537
  const LABEL_ARTIFACT_TYPE: int := -65_538
  const LABEL_RETIRED_DISPATCH_ID: int := -65_539
  const LABEL_METHOD_URI: int := -65_540
  const SIGN1_TAG: nat := 18
  const MAX_METHOD_URI_LEN: nat := 512
  const MAX_SAFE_INTEGER: int := 0x1f_ffff_ffff_ffff

  datatype CoseError =
    | Cbor(error: CborError)
    | UnsafeInteger | LengthTooLarge | WrongKidLength
    | NotTagged | NotFourFields | ProtectedNotBytes | HeaderNotMap | RetiredLabel
    | UnprotectedNotMap | UnprotectedNotEmpty | PayloadNotBytes | SignatureNotBytes
    | NotInteger | NotUnsigned | NotBytes | NotText | MethodUriTooLong

  datatype CoseSign1 = CoseSign1(
    protectedHeader: seq<Pair>, protectedHeaderBytes: Bytes, unprotectedHeader: seq<Pair>,
    payload: Option<Bytes>, signature: Bytes,
    alg: Option<int>, kid: Option<Bytes>, suiteId: Option<int>,
    artifactType: Option<Text.Units>, methodUri: Option<Text.Units>)

  // ----- Encoding -----

  type Encoding = Result<Bytes, CoseError>

  /** Lengths and integers of 64 bits are not supported. */
  function EncodeMajorLen(major: Major, value: nat): Encoding {
    if value > MAX_SAFE_INTEGER then Err(UnsafeInteger)
    else if value > 0xffff_ffff then Err(LengthTooLarge)
    else Ok(Head(major, value))
  }

  function EncodeInt(value: int): Encoding {
    if value > MAX_SAFE_INTEGER || value < -MAX_SAFE_INTEGER then Err(UnsafeInteger)
    else if value >= 0 then EncodeMajorLen(0, value)
    else EncodeMajorLen(1, -1 - value)
  }

  /** A head announcing a byte length, and the bytes. */
  function EncodeString(major: Major, content: Bytes): Encoding {
    match EncodeMajorLen(major, |content|)
    case Err(error) => Err(error)
    case Ok(head) => Ok(head + content)
  }

  function EncodeBytes(content: Bytes): Encoding {
    EncodeString(2, content)
  }

  function EncodeText(text: Text.Units): Encoding {
    EncodeString(3, Text.Encode(text))
  }

  /** Joins chunks; the first that failed to encode decides. */
  function ConcatBytes(chunks: seq<Encoding>): Encoding {
    if chunks == [] then Ok([])
    else
      match chunks[0]
      case Err(error) => Err(error)
      case Ok(chunk) =>
        match ConcatBytes(chunks[1..])
        case Err(error) => Err(error)
        case Ok(rest) => Ok(chunk + rest)
  }

  /** The chunks one after the other. */
  function Flatten(chunks: seq<Bytes>): Bytes {
    if chunks == [] then [] else chunks[0] + Flatten(chunks[1..])
  }

  lemma {:induction false} FlattenNext(chunks: seq<Bytes>, i: nat)
    requires i < |chunks|
    ensures Flatten(chunks[..i + 1]) == Flatten(chunks[..i]) + chunks[i]
  {
    if i == 0 {
      assert chunks[..1][1..] == [] && chunks[..0] == [];
    } else {
      FlattenNext(chunks[1..], i - 1);
      assert chunks[..i + 1][1..] == chunks[1..][..i] && chunks[..i][1..] == chunks[1..][..i - 1];
    }
  }

  lemma {:induction false} FlattenGrows(chunks: seq<Bytes>, i: nat)
    requires i <= |chunks|
    ensures |Flatten(chunks[..i])| <= |Flatten(chunks)|
    decreases |chunks| - i
  {
    hide Flatten;
    if i < |chunks| {
      FlattenNext(chunks, i);
      FlattenGrows(chunks, i + 1);
    } else {
      assert chunks[..i] == chunks;
    }
  }

  /** Copies the chunks into a buffer of their total length. */
  method JoinChunks(chunks: seq<Bytes>) returns (output: array<byte>)
    ensures fresh(output) && output[..] == Flatten(chunks)
  {
    var length := 0;
    for i := 0 to |chunks|
      invariant length == |Flatten(chunks[..i])|
    {
      FlattenNext(chunks, i);
      length := length + |chunks[i]|;
    }
    assert chunks[..|chunks|] == chunks;
    output := new byte[length];
    var offset := 0;
    for i := 0 to |chunks|
      invariant 0 <= offset <= length && output[..offset] == Flatten(chunks[..i])
    {
      FlattenNext(chunks, i);
      FlattenGrows(chunks, i + 1);
      offset := CopyChunk(output, offset, chunks[i]);
    }
    assert output[..offset] == output[..];
  }

  /** Copies one chunk to `offset` and returns the offset after it. */
  method CopyChunk(output: array<byte>, offset: nat, chunk: Bytes) returns (next: nat)
    requires offset + |chunk| <= output.Length
    modifies output
    ensures next == offset + |chunk| && output[..next] == old(output[..offset]) + chunk
    ensures output[next..] == old(output[next..])
  {
    forall k | 0 <= k < |chunk| {
      output[offset + k] := chunk[k];
    }
    next := offset + |chunk|;
    assert output[..offset] == old(output[..offset]) && output[offset..next] == chunk;
    assert output[..next] == output[..offset] + output[offset..next];
  }

  /** Chunks that were all encoded. */
  function Written(chunks: seq<Bytes>): (r: seq<Encoding>)
    ensures |r| == |chunks|
  {
    seq(|chunks|, i requires 0 <= i < |chunks| => Ok(chunks[i]))
  }

  lemma {:induction false} ConcatenatesWritten(chunks: seq<Bytes>)
    ensures ConcatBytes(Written(chunks)) == Ok(Flatten(chunks))
  {
    if chunks != [] {
      ConcatenatesWritten(chunks[1..]);
      assert Written(chunks)[1..] == Written(chunks[1..]);
    }
  }

  function DetachedSignatureProtectedHeader(alg: int, kid: Bytes, methodUri: Text.Units): Encoding {
    ConcatBytes([EncodeMajorLen(5, 3),
                 EncodeInt(LABEL_ALG), EncodeInt(alg),
                 EncodeInt(LABEL_KID), EncodeBytes(kid),
                 EncodeInt(LABEL_METHOD_URI), EncodeText(methodUri)])
  }

  function SubstrateProtectedHeader(alg: int, kid: Bytes, suiteId: int, artifactType: Text.Units): Encoding {
    if |kid| != 16 then Err(WrongKidLength)
    else
      ConcatBytes([Ok([0xa4]),
                   EncodeInt(LABEL_ALG), EncodeInt(alg),
                   EncodeInt(LABEL_KID), EncodeBytes(kid),
                   EncodeInt(LABEL_SUITE_ID), EncodeInt(suiteId),
                   EncodeInt(LABEL_ARTIFACT_TYPE), EncodeText(artifactType)])
  }

  function EncodeCoseSign1(protectedHeader: Bytes, payload: Option<Bytes>, signature: Bytes): Encoding {
    ConcatBytes([Ok([0xd2, 0x84]),
                 EncodeBytes(protectedHeader),
                 Ok([0xa0]),
                 if payload.None? then Ok([0xf6]) else EncodeBytes(payload.value),
                 EncodeBytes(signature)])
  }

  // ----- Decoding -----

  function OptionalInteger(header: seq<Pair>, wanted: int): Result<Option<int>, CoseError> {
    match Get(header, wanted)
    case None => Ok(None)
    case Some(value) => if value.Number? then Ok(Some(value.n)) else Err(NotInteger)
  }

  function OptionalUnsigned(header: seq<Pair>, wanted: int): Result<Option<int>, CoseError> {
    match OptionalInteger(header, wanted)
    case Err(error) => Err(error)
    case Ok(None) => Ok(None)
    case Ok(Some(n)) => if n < 0 then Err(NotUnsigned) else Ok(Some(n))
  }

  function OptionalBytes(header: seq<Pair>, wanted: int): Result<Option<Bytes>, CoseError> {
    match Get(header, wanted)
    case None => Ok(None)
    case Some(value) => if value.ByteString? then Ok(Some(value.bytes)) else Err(NotBytes)
  }

  function OptionalText(header: seq<Pair>, wanted: int, maxBytes: Option<nat>): Result<Option<Text.Units>, CoseError> {
    match Get(header, wanted)
    case None => Ok(None)
    case Some(value) =>
      if !value.TextString? then Err(NotText)
      else if maxBytes.Some? && |Text.Encode(value.text)| > maxBytes.value then Err(MethodUriTooLong)
      else Ok(Some(value.text))
  }

  /** Reads the five known labels, in the order in which their errors surface. */
  function ReadLabels(header: seq<Pair>, headerBytes: Bytes, payload: Option<Bytes>, signature: Bytes)
    : Result<CoseSign1, CoseError>
  {
    var alg := OptionalInteger(header, LABEL_ALG);
    var kid := OptionalBytes(header, LABEL_KID);
    var suiteId := OptionalUnsigned(header, LABEL_SUITE_ID);
    var artifactType := OptionalText(header, LABEL_ARTIFACT_TYPE, None);
    var methodUri := OptionalText(header, LABEL_METHOD_URI, Some(MAX_METHOD_URI_LEN));
    if alg.Err? then Err(alg.error)
    else if kid.Err? then Err(kid.error)
    else if suiteId.Err? then Err(suiteId.error)
    else if artifactType.Err? then Err(artifactType.error)
    else if methodUri.Err? then Err(methodUri.error)
    else Ok(CoseSign1(header, headerBytes, [], payload, signature,
                      alg.value, kid.value, suiteId.value, artifactType.value, methodUri.value))
  }

  /** Checks the tagged four-field array around a decoded protected header. */
  function CheckEnvelope(root: Value, header: Result<Value, CborError>): Result<CoseSign1, CoseError>
    requires root.Tag? && root.value.Array? && |root.value.items| == 4 && root.value.items[0].ByteString?
  {
    var fields := root.value.items;
    if header.Err? then Err(Cbor(header.error))
    else if !header.value.Map? then Err(HeaderNotMap)
    else if Get(header.value.entries, LABEL_RETIRED_DISPATCH_ID).Some? then Err(RetiredLabel)
    else if !fields[1].Map? then Err(UnprotectedNotMap)
    else if fields[1].entries != [] then Err(UnprotectedNotEmpty)
    else if !fields[2].Null? && !fields[2].ByteString? then Err(PayloadNotBytes)
    else if !fields[3].ByteString? then Err(SignatureNotBytes)
    else ReadLabels(header.value.entries, fields[0].bytes,
                    if fields[2].Null? then None else Some(fields[2].bytes), fields[3].bytes)
  }

  function Decode(bytes: Bytes): Result<CoseSign1, CoseError> {
    match ParseAll(bytes)
    case Err(error) => Err(Cbor(error))
    case Ok(root) =>
      if !root.Tag? || root.tag != SIGN1_TAG then Err(NotTagged)
      else if !root.value.Array? || |root.value.items| != 4 then Err(NotFourFields)
      else if !root.value.items[0].ByteString? then Err(ProtectedNotBytes)
      else CheckEnvelope(root, ParseAll(root.value.items[0].bytes))
  }

  method DecodeCoseSign1(bytes: Bytes) returns (r: Result<CoseSign1, CoseError>)
    ensures r == Decode(bytes)
  {
    var decoder := new Decoder(bytes);
    var root := decoder.ReadFully();
    if root.Err? {
      return Err(Cbor(root.error));
    }
    if !root.value.Tag? || root.value.tag != SIGN1_TAG {
      return Err(NotTagged);
    }
    if !root.value.value.Array? || |root.value.value.items| != 4 {
      return Err(NotFourFields);
    }
    if !root.value.value.items[0].ByteString? {
      return Err(ProtectedNotBytes);
    }
    var inner := new Decoder(root.value.value.items[0].bytes);
    var header := inner.ReadFully();
    return CheckEnvelope(root.value, header);
  }

  // ----- Encoded pieces are read back -----

  /** Bytes that the decoder reads as `value`. */
  datatype Piece = Piece(encoded: Bytes, value: Value)

  /** It does so whatever follows. */
  ghost predicate ReadsBack(piece: Piece) {
    forall rest: Bytes :: Parse(piece.encoded + rest) == Ok(Parsed(piece.value, rest))
  }

  lemma {:induction false} HeadParses(major: Major, n: nat, rest: Bytes)
    requires major < 7 && n <= 0xffff_ffff
    ensures Parse(Head(major, n) + rest) == ParseContent(major, n, rest)
  {
    hide ParseContent, BigEndian, FromBigEndian;
    var bytes := Head(major, n) + rest;
    HeadReadsBack(major, n, rest);
    var length := ArgumentLength(bytes[0] % 32).value;
    assert bytes[1..][..length] == bytes[1..1 + length];
    assert bytes[1..][length..] == bytes[1 + length..];
  }

  lemma IntReadsBack(n: int)
    requires EncodeInt(n).Ok?
    ensures ReadsBack(Piece(EncodeInt(n).value, Number(n)))
  {
    forall rest: Bytes
      ensures Parse(EncodeInt(n).value + rest) == Ok(Parsed(Number(n), rest))
    {
      HeadParses(if n >= 0 then 0 else 1, if n >= 0 then n else -1 - n, rest);
    }
  }

  lemma {:induction false} StringParses(major: Major, content: Bytes, rest: Bytes)
    requires major < 7 && EncodeString(major, content).Ok?
    ensures Parse(EncodeString(major, content).value + rest) == ParseContent(major, |content|, content + rest)
    ensures ParseBytes(|content|, content + rest) == Ok(Parsed(content, rest))
  {
    hide Parse, ParseContent, Head;
    HeadParses(major, |content|, content + rest);
    assert Head(major, |content|) + content + rest == Head(major, |content|) + (content + rest);
    assert (content + rest)[..|content|] == content && (content + rest)[|content|..] == rest;
  }

  lemma BytesReadBack(content: Bytes)
    requires EncodeBytes(content).Ok?
    ensures ReadsBack(Piece(EncodeBytes(content).value, ByteString(content)))
  {
    forall rest: Bytes
      ensures Parse(EncodeBytes(content).value + rest) == Ok(Parsed(ByteString(content), rest))
    {
      StringParses(2, content, rest);
    }
  }

  /** The string that arrives when `text` is sent. */
  function Received(text: Text.Units): Text.Units {
    Text.RoundTrip(text);
    Text.Decode(Text.Encode(text)).value
  }

  lemma TextReadsBack(text: Text.Units)
    requires EncodeText(text).Ok?
    ensures ReadsBack(Piece(EncodeText(text).value, TextString(Received(text))))
  {
    forall rest: Bytes
      ensures Parse(EncodeText(text).value + rest) == Ok(Parsed(TextString(Received(text)), rest))
    {
      StringParses(3, Text.Encode(text), rest);
      Text.RoundTrip(text);
    }
  }

  function Joined(pieces: seq<Piece>): Bytes {
    if pieces == [] then [] else pieces[0].encoded + Joined(pieces[1..])
  }

  function Values(pieces: seq<Piece>): seq<Value> {
    if pieces == [] then [] else [pieces[0].value] + Values(pieces[1..])
  }

  lemma {:induction false} ChunksJoin(chunks: seq<Encoding>, pieces: seq<Piece>)
    requires |chunks| == |pieces|
    requires ConcatBytes(chunks).Ok?
    requires forall i :: 0 <= i < |chunks| && chunks[i].Ok? ==> pieces[i].encoded == chunks[i].value
    ensures ConcatBytes(chunks).value == Joined(pieces)
    ensures forall i :: 0 <= i < |chunks| ==> chunks[i].Ok?
  {
    if chunks != [] {
      ChunksJoin(chunks[1..], pieces[1..]);
      forall i | 0 <= i < |chunks|
        ensures chunks[i].Ok?
      {
        assert i > 0 ==> chunks[1..][i - 1].Ok?;
      }
    }
  }

  lemma {:induction false} ItemsReadBack(pieces: seq<Piece>, items: seq<Value>, rest: Bytes)
    requires forall i :: 0 <= i < |pieces| ==> ReadsBack(pieces[i])
    ensures ParseItems(|pieces|, Joined(pieces) + rest, items) == Ok(Parsed(items + Values(pieces), rest))
  {
    if pieces != [] {
      var tail := Joined(pieces[1..]) + rest;
      assert ReadsBack(pieces[0]);
      assert Joined(pieces) + rest == pieces[0].encoded + tail;
      ItemsReadBack(pieces[1..], items + [pieces[0].value], rest);
      assert items + [pieces[0].value] + Values(pieces[1..]) == items + Values(pieces);
    } else {
      assert Joined(pieces) + rest == rest && items + Values(pieces) == items;
    }
  }

  lemma {:induction false} SetAppends(entries: seq<Pair>, key: int, value: Value)
    requires Get(entries, key) == None
    ensures Set(entries, Number(key), value) == entries + [Pair(Number(key), value)]
  {
    if entries != [] {
      SetAppends(entries[1..], key, value);
      assert entries == [entries[0]] + entries[1..];
    }
  }

  lemma {:induction false} GetAppended(entries: seq<Pair>, pair: Pair, wanted: int)
    ensures Get(entries + [pair], wanted)
            == if Get(entries, wanted).Some? then Get(entries, wanted) else Get([pair], wanted)
  {
    if entries != [] {
      GetAppended(entries[1..], pair, wanted);
      assert (entries + [pair])[1..] == entries[1..] + [pair];
    } else {
      assert entries + [pair] == [pair];
    }
  }

  // ----- Labelled headers -----

  /** One header entry: its label, its encoded value, and the value it stands for. */
  datatype Field = Field(name: int, chunk: Encoding, value: Value)

  function IntField(name: int, n: int): Field {
    Field(name, EncodeInt(n), Number(n))
  }

  function BytesField(name: int, content: Bytes): Field {
    Field(name, EncodeBytes(content), ByteString(content))
  }

  function TextField(name: int, text: Text.Units): Field {
    Field(name, EncodeText(text), TextString(Received(text)))
  }

  ghost predicate FieldReadsBack(field: Field) {
    field.chunk.Ok? ==> ReadsBack(Piece(field.chunk.value, field.value))
  }

  lemma {:induction false} FieldsReadBack()
    ensures forall name, n :: FieldReadsBack(IntField(name, n))
    ensures forall name, content :: FieldReadsBack(BytesField(name, content))
    ensures forall name, text :: FieldReadsBack(TextField(name, text))
  {
    hide ReadsBack, EncodeInt, EncodeBytes, EncodeText, Received;
    forall n | EncodeInt(n).Ok? {
      IntReadsBack(n);
    }
    forall content | EncodeBytes(content).Ok? {
      BytesReadBack(content);
    }
    forall text | EncodeText(text).Ok? {
      TextReadsBack(text);
    }
  }

  function FieldChunks(fields: seq<Field>): seq<Encoding> {
    if fields == [] then []
    else [EncodeInt(fields[0].name), fields[0].chunk] + FieldChunks(fields[1..])
  }

  function FieldPairs(fields: seq<Field>): seq<Pair> {
    if fields == [] then [] else [Pair(Number(fields[0].name), fields[0].value)] + FieldPairs(fields[1..])
  }

  /** No label occurs twice, nor in `entries`. */
  ghost predicate Fresh(fields: seq<Field>, entries: seq<Pair>) {
    && (forall i :: 0 <= i < |fields| ==> Get(entries, fields[i].name) == None)
    && (forall i, j :: 0 <= i < j < |fields| ==> fields[i].name != fields[j].name)
  }

  lemma FreshAfterFirst(fields: seq<Field>, entries: seq<Pair>)
    requires fields != [] && Fresh(fields, entries)
    ensures Fresh(fields[1..], entries + [Pair(Number(fields[0].name), fields[0].value)])
  {
    var pair := Pair(Number(fields[0].name), fields[0].value);
    forall i | 0 <= i < |fields| - 1
      ensures Get(entries + [pair], fields[1..][i].name) == None
    {
      GetAppended(entries, pair, fields[i + 1].name);
    }
  }

  lemma {:induction false} FieldChunksUnfold(fields: seq<Field>, rest: Bytes)
    requires fields != [] && ConcatBytes(FieldChunks(fields)).Ok?
    ensures EncodeInt(fields[0].name).Ok? && fields[0].chunk.Ok? && ConcatBytes(FieldChunks(fields[1..])).Ok?
    ensures ConcatBytes(FieldChunks(fields)).value + rest
            == EncodeInt(fields[0].name).value
               + (fields[0].chunk.value + (ConcatBytes(FieldChunks(fields[1..])).value + rest))
  {
  }

  lemma PairsStep(n: nat, s: Bytes, entries: seq<Pair>, key: int, s': Bytes, value: Value, rest: Bytes)
    requires Parse(s) == Ok(Parsed(Number(key), s')) && Parse(s') == Ok(Parsed(value, rest))
    requires Get(entries, key) == None
    ensures ParsePairs(n + 1, s, entries) == ParsePairs(n, rest, entries + [Pair(Number(key), value)])
  {
    SetAppends(entries, key, value);
  }

  lemma ReadsBackApplied(piece: Piece, rest: Bytes)
    requires ReadsBack(piece)
    ensures Parse(piece.encoded + rest) == Ok(Parsed(piece.value, rest))
  {
  }

  lemma {:induction false} PairsReadBack(fields: seq<Field>, entries: seq<Pair>, rest: Bytes)
    requires Fresh(fields, entries) && ConcatBytes(FieldChunks(fields)).Ok?
    requires forall i :: 0 <= i < |fields| ==> FieldReadsBack(fields[i])
    ensures ParsePairs(|fields|, ConcatBytes(FieldChunks(fields)).value + rest, entries)
            == Ok(Parsed(entries + FieldPairs(fields), rest))
    decreases |fields|, 1
  {
    if fields != [] {
      PairsReadBackStep(fields, entries, rest);
    } else {
      assert [] + rest == rest && entries + FieldPairs(fields) == entries;
    }
  }

  lemma {:induction false} FirstField(fields: seq<Field>, entries: seq<Pair>)
    requires fields != [] && Fresh(fields, entries)
    requires forall i :: 0 <= i < |fields| ==> FieldReadsBack(fields[i])
    ensures Get(entries, fields[0].name) == None
    ensures fields[0].chunk.Ok? ==> ReadsBack(Piece(fields[0].chunk.value, fields[0].value))
    ensures entries + FieldPairs(fields)
            == entries + [Pair(Number(fields[0].name), fields[0].value)] + FieldPairs(fields[1..])
  {
    hide ReadsBack;
    assert FieldReadsBack(fields[0]);
  }

  lemma {:induction false} PairsReadBackStep(fields: seq<Field>, entries: seq<Pair>, rest: Bytes)
    requires fields != [] && Fresh(fields, entries) && ConcatBytes(FieldChunks(fields)).Ok?
    requires forall i :: 0 <= i < |fields| ==> FieldReadsBack(fields[i])
    ensures ParsePairs(|fields|, ConcatBytes(FieldChunks(fields)).value + rest, entries)
            == Ok(Parsed(entries + FieldPairs(fields), rest))
    decreases |fields|, 0
  {
    hide *;
    FieldChunksUnfold(fields, rest);
    FirstField(fields, entries);
    FreshAfterFirst(fields, entries);
    var first, others := fields[0], fields[1..];
    var key, tail := EncodeInt(first.name).value, ConcatBytes(FieldChunks(others)).value + rest;
    IntReadsBack(first.name);
    ReadsBackApplied(Piece(key, Number(first.name)), first.chunk.value + tail);
    ReadsBackApplied(Piece(first.chunk.value, first.value), tail);
    PairsStep(|others|, key + (first.chunk.value + tail), entries, first.name, first.chunk.value + tail,
              first.value, tail);
    PairsReadBack(others, entries + [Pair(Number(first.name), first.value)], rest);
  }

  /** A header map with distinct labels is read back whole. */
  lemma {:induction false} HeaderReadsBack(fields: seq<Field>, header: Bytes)
    requires |fields| <= 0xffff_ffff && Fresh(fields, [])
    requires forall i :: 0 <= i < |fields| ==> FieldReadsBack(fields[i])
    requires ConcatBytes([Ok(Head(5, |fields|))] + FieldChunks(fields)) == Ok(header)
    ensures ParseAll(header) == Ok(Map(FieldPairs(fields)))
  {
    var chunks := FieldChunks(fields);
    assert ([Ok(Head(5, |fields|))] + chunks)[1..] == chunks;
    assert ConcatBytes(chunks).Ok? && header == Head(5, |fields|) + ConcatBytes(chunks).value;
    hide FieldChunks, ConcatBytes, Fresh, FieldReadsBack, Head, Parse, ParsePairs;
    HeadParses(5, |fields|, ConcatBytes(chunks).value);
    PairsReadBack(fields, [], []);
    assert ConcatBytes(chunks).value + [] == ConcatBytes(chunks).value;
    assert [] + FieldPairs(fields) == FieldPairs(fields);
  }

  /** If a label occurs twice, the header map is refused. */
  lemma {:induction false} RepeatedLabelRefused(fields: seq<Field>, header: Bytes)
    requires |fields| <= 0xffff_ffff && !Fresh(fields, [])
    requires forall i :: 0 <= i < |fields| ==> FieldReadsBack(fields[i])
    requires ConcatBytes([Ok(Head(5, |fields|))] + FieldChunks(fields)) == Ok(header)
    ensures ParseAll(header) == Err(DuplicateLabel)
  {
    var chunks := FieldChunks(fields);
    assert ([Ok(Head(5, |fields|))] + chunks)[1..] == chunks;
    assert ConcatBytes(chunks).Ok? && header == Head(5, |fields|) + ConcatBytes(chunks).value;
    hide FieldChunks, ConcatBytes, Fresh, FieldReadsBack, Head, Parse, ParsePairs;
    HeadParses(5, |fields|, ConcatBytes(chunks).value);
    PairsRefused(fields, [], []);
    assert ConcatBytes(chunks).value + [] == ConcatBytes(chunks).value;
  }

  lemma PairsStop(n: nat, s: Bytes, entries: seq<Pair>, key: int, s': Bytes, value: Value, rest: Bytes)
    requires Parse(s) == Ok(Parsed(Number(key), s')) && Parse(s') == Ok(Parsed(value, rest))
    requires Get(entries, key) != None
    ensures ParsePairs(n + 1, s, entries) == Err(DuplicateLabel)
  {
  }

  lemma {:induction false} PairsRefused(fields: seq<Field>, entries: seq<Pair>, rest: Bytes)
    requires !Fresh(fields, entries) && ConcatBytes(FieldChunks(fields)).Ok?
    requires forall i :: 0 <= i < |fields| ==> FieldReadsBack(fields[i])
    ensures ParsePairs(|fields|, ConcatBytes(FieldChunks(fields)).value + rest, entries) == Err(DuplicateLabel)
    decreases |fields|
  {
    assert fields != [];
    assert FieldReadsBack(fields[0]);
    assert fields[0].chunk.Ok? ==> ReadsBack(Piece(fields[0].chunk.value, fields[0].value));
    hide *;
    var first, others := fields[0], fields[1..];
    FreshFirst(fields, entries);
    FieldChunksUnfold(fields, rest);
    var key, tail := EncodeInt(first.name).value, ConcatBytes(FieldChunks(others)).value + rest;
    IntReadsBack(first.name);
    ReadsBackApplied(Piece(key, Number(first.name)), first.chunk.value + tail);
    ReadsBackApplied(Piece(first.chunk.value, first.value), tail);
    if Get(entries, first.name) == None {
      PairsStep(|others|, key + (first.chunk.value + tail), entries, first.name, first.chunk.value + tail,
                first.value, tail);
      PairsRefused(others, entries + [Pair(Number(first.name), first.value)], rest);
    } else {
      PairsStop(|others|, key + (first.chunk.value + tail), entries, first.name, first.chunk.value + tail,
                first.value, tail);
    }
  }

  lemma FreshFirst(fields: seq<Field>, entries: seq<Pair>)
    requires fields != []
    ensures var pair := Pair(Number(fields[0].name), fields[0].value);
            Fresh(fields, entries) <==> Get(entries, fields[0].name) == None && Fresh(fields[1..], entries + [pair])
  {
    var pair := Pair(Number(fields[0].name), fields[0].value);
    forall name
      ensures Get(entries + [pair], name) == None <==> Get(entries, name) == None && name != fields[0].name
    {
      GetAppended(entries, pair, name);
    }
    assert forall i :: 0 < i < |fields| ==> fields[i] == fields[1..][i - 1];
    if Get(entries, fields[0].name) == None && Fresh(fields[1..], entries + [pair]) {
      forall i | 0 <= i < |fields|
        ensures Get(entries, fields[i].name) == None && (i > 0 ==> fields[i].name != fields[0].name)
      {
        assert i > 0 ==> Get(entries + [pair], fields[1..][i - 1].name) == None;
      }
    }
  }

  // ----- Envelopes -----

  lemma ChunksAfterFirst(first: Bytes, chunks: seq<Encoding>, pieces: seq<Piece>)
    requires |chunks| == |pieces| && ConcatBytes([Ok(first)] + chunks).Ok?
    requires forall i :: 0 <= i < |chunks| && chunks[i].Ok? ==> pieces[i].encoded == chunks[i].value
    ensures ConcatBytes([Ok(first)] + chunks).value == first + Joined(pieces)
    ensures forall i :: 0 <= i < |chunks| ==> chunks[i].Ok?
  {
    assert ([Ok(first)] + chunks)[1..] == chunks;
    ChunksJoin(chunks, pieces);
  }

  function OrNull(payload: Option<Bytes>): Value {
    if payload.None? then Null else ByteString(payload.value)
  }

  lemma EmptyMapAndNullReadBack()
    ensures ReadsBack(Piece([0xa0], Map([]))) && ReadsBack(Piece([0xf6], Null))
  {
    forall rest: Bytes
      ensures Parse([0xa0] + rest) == Ok(Parsed(Map([]), rest))
    {
      HeadParses(5, 0, rest);
    }
    forall rest: Bytes
      ensures Parse([0xf6] + rest) == Ok(Parsed(Null, rest))
    {
      assert ([0xf6] + rest)[1..] == rest;
    }
  }

  /** An encoded envelope is read as the tagged array of its four fields. */
  lemma EnvelopeReadsBack(header: Bytes, payload: Option<Bytes>, signature: Bytes)
    requires EncodeCoseSign1(header, payload, signature).Ok?
    ensures ParseAll(EncodeCoseSign1(header, payload, signature).value)
            == Ok(Tag(SIGN1_TAG, Array([ByteString(header), Map([]), OrNull(payload), ByteString(signature)])))
  {
    var payloadChunk: Encoding := if payload.None? then Ok([0xf6]) else EncodeBytes(payload.value);
    var chunks := [EncodeBytes(header), Ok([0xa0]), payloadChunk, EncodeBytes(signature)];
    assert [Ok([0xd2, 0x84])] + chunks
        == [Ok([0xd2, 0x84]), EncodeBytes(header), Ok([0xa0]), payloadChunk, EncodeBytes(signature)];
    var pieces := [PieceOf(chunks[0], ByteString(header)), PieceOf(chunks[1], Map([])),
                   PieceOf(payloadChunk, OrNull(payload)), PieceOf(chunks[3], ByteString(signature))];
    ChunksAfterFirst([0xd2, 0x84], chunks, pieces);
    assert chunks[0].Ok? && chunks[2].Ok? && chunks[3].Ok?;
    BytesReadBack(header);
    BytesReadBack(signature);
    if payload.Some? {
      BytesReadBack(payload.value);
    }
    EmptyMapAndNullReadBack();
    TaggedArrayReadsBack(pieces);
  }

  function PieceOf(chunk: Encoding, value: Value): Piece {
    Piece(if chunk.Ok? then chunk.value else [], value)
  }

  lemma ValuesOfFour(pieces: seq<Piece>)
    requires |pieces| == 4
    ensures Values(pieces) == [pieces[0].value, pieces[1].value, pieces[2].value, pieces[3].value]
  {
    assert pieces[1..][1..] == pieces[2..] && pieces[2..][1..] == pieces[3..] && pieces[3..][1..] == [];
    assert Values(pieces[3..]) == [pieces[3].value];
    assert Values(pieces[2..]) == [pieces[2].value, pieces[3].value];
    assert Values(pieces[1..]) == [pieces[1].value, pieces[2].value, pieces[3].value];
  }

  lemma {:induction false} TaggedArrayParses(s: Bytes, items: seq<Value>)
    requires ParseItems(4, s, []) == Ok(Parsed(items, []))
    requires Parse(Head(4, 4) + s) == ParseContent(4, 4, s)
    requires Parse(Head(6, 18) + (Head(4, 4) + s)) == ParseContent(6, 18, Head(4, 4) + s)
    ensures ParseAll(Head(6, 18) + (Head(4, 4) + s)) == Ok(Tag(SIGN1_TAG, Array(items)))
  {
    hide Parse, ParseItems;
  }

  lemma {:induction false} TaggedArrayReadsBack(pieces: seq<Piece>)
    requires |pieces| == 4
    requires forall i :: 0 <= i < 4 ==> ReadsBack(pieces[i])
    ensures ParseAll([0xd2, 0x84] + Joined(pieces))
            == Ok(Tag(SIGN1_TAG, Array([pieces[0].value, pieces[1].value, pieces[2].value, pieces[3].value])))
  {
    assert Head(6, 18) == [0xd2] && Head(4, 4) == [0x84];
    hide *;
    var s := Joined(pieces);
    assert [0xd2, 0x84] + s == Head(6, 18) + (Head(4, 4) + s);
    HeadParses(6, 18, Head(4, 4) + s);
    HeadParses(4, 4, s);
    ItemsReadBack(pieces, [], []);
    assert s + [] == s && [] + Values(pieces) == Values(pieces);
    TaggedArrayParses(s, Values(pieces));
    ValuesOfFour(pieces);
  }

  /** What the decoder makes of a header with these fields inside an encoded envelope. */
  lemma {:induction false} EnvelopeRoundTrip(fields: seq<Field>, header: Bytes, payload: Option<Bytes>,
                                             signature: Bytes, envelope: Bytes)
    requires |fields| <= 0xffff_ffff && Fresh(fields, [])
    requires forall i :: 0 <= i < |fields| ==> FieldReadsBack(fields[i]) && fields[i].name != LABEL_RETIRED_DISPATCH_ID
    requires ConcatBytes([Ok(Head(5, |fields|))] + FieldChunks(fields)) == Ok(header)
    requires EncodeCoseSign1(header, payload, signature) == Ok(envelope)
    ensures Decode(envelope) == ReadLabels(FieldPairs(fields), header, payload, signature)
  {
    hide ParseAll, EncodeCoseSign1, ConcatBytes, FieldChunks, Fresh, FieldReadsBack, ReadLabels;
    EnvelopeReadsBack(header, payload, signature);
    HeaderReadsBack(fields, header);
    GetNoField(fields, LABEL_RETIRED_DISPATCH_ID);
  }

  /** Looking up a label finds the first header field that has it. */
  lemma {:induction false} GetFieldAt(fields: seq<Field>, i: nat)
    requires i < |fields| && forall j :: 0 <= j < i ==> fields[j].name != fields[i].name
    ensures Get(FieldPairs(fields), fields[i].name) == Some(fields[i].value)
  {
    if i > 0 {
      assert fields[0].name != fields[i].name;
      GetFieldAt(fields[1..], i - 1);
      assert FieldPairs(fields)[1..] == FieldPairs(fields[1..]);
    }
  }

  lemma {:induction false} GetNoField(fields: seq<Field>, wanted: int)
    requires forall i :: 0 <= i < |fields| ==> fields[i].name != wanted
    ensures Get(FieldPairs(fields), wanted) == None
  {
    if fields != [] {
      GetNoField(fields[1..], wanted);
      assert FieldPairs(fields)[1..] == FieldPairs(fields[1..]);
    }
  }

  function DetachedFields(alg: int, kid: Bytes, methodUri: Text.Units): (fields: seq<Field>)
    ensures |fields| == 3
  {
    [IntField(LABEL_ALG, alg), BytesField(LABEL_KID, kid), TextField(LABEL_METHOD_URI, methodUri)]
  }

  function SubstrateFields(alg: int, kid: Bytes, suiteId: int, artifactType: Text.Units): (fields: seq<Field>)
    ensures |fields| == 4
  {
    [IntField(LABEL_ALG, alg), BytesField(LABEL_KID, kid),
     IntField(LABEL_SUITE_ID, suiteId), TextField(LABEL_ARTIFACT_TYPE, artifactType)]
  }

  lemma {:induction false} ChunksOfThree(fields: seq<Field>)
    requires |fields| == 3
    ensures FieldChunks(fields)
            == [EncodeInt(fields[0].name), fields[0].chunk, EncodeInt(fields[1].name), fields[1].chunk,
                EncodeInt(fields[2].name), fields[2].chunk]
  {
    hide EncodeInt;
    assert fields[1..][1..] == fields[2..] && fields[2..][1..] == [];
    assert FieldChunks(fields[2..]) == [EncodeInt(fields[2].name), fields[2].chunk];
    assert FieldChunks(fields[1..]) == [EncodeInt(fields[1].name), fields[1].chunk,
                                        EncodeInt(fields[2].name), fields[2].chunk];
  }

  lemma {:induction false} DetachedIsLabelled(alg: int, kid: Bytes, methodUri: Text.Units)
    ensures DetachedSignatureProtectedHeader(alg, kid, methodUri)
            == ConcatBytes([Ok(Head(5, 3))] + FieldChunks(DetachedFields(alg, kid, methodUri)))
  {
    var fields := DetachedFields(alg, kid, methodUri);
    ChunksOfThree(fields);
    assert EncodeMajorLen(5, 3) == Ok(Head(5, 3));
    hide EncodeInt, EncodeBytes, EncodeText, EncodeMajorLen, ConcatBytes, Head, FieldChunks, Received;
  }

  lemma {:induction false} DetachedFieldsReadBack(alg: int, kid: Bytes, methodUri: Text.Units)
    ensures var fields := DetachedFields(alg, kid, methodUri);
            && Fresh(fields, [])
            && forall i :: 0 <= i < 3 ==> FieldReadsBack(fields[i]) && fields[i].name != LABEL_RETIRED_DISPATCH_ID
  {
    hide FieldReadsBack, EncodeInt, EncodeBytes, EncodeText, Received;
    FieldsReadBack();
  }

  lemma {:induction false} DetachedLabels(alg: int, kid: Bytes, methodUri: Text.Units)
    ensures var pairs := FieldPairs(DetachedFields(alg, kid, methodUri));
            && Get(pairs, LABEL_ALG) == Some(Number(alg)) && Get(pairs, LABEL_KID) == Some(ByteString(kid))
            && Get(pairs, LABEL_SUITE_ID) == None && Get(pairs, LABEL_ARTIFACT_TYPE) == None
            && Get(pairs, LABEL_METHOD_URI) == Some(TextString(Received(methodUri)))
  {
    hide EncodeInt, EncodeBytes, EncodeText, Received, FieldPairs, Get;
    var fields := DetachedFields(alg, kid, methodUri);
    assert fields[0] == IntField(LABEL_ALG, alg) && fields[1] == BytesField(LABEL_KID, kid);
    assert fields[2] == TextField(LABEL_METHOD_URI, methodUri);
    GetFieldAt(fields, 0);
    GetFieldAt(fields, 1);
    GetFieldAt(fields, 2);
    GetNoField(fields, LABEL_SUITE_ID);
    GetNoField(fields, LABEL_ARTIFACT_TYPE);
  }

  /** What comes back from an encoded detached-signature envelope. */
  lemma {:induction false} DetachedRoundTrip(alg: int, kid: Bytes, methodUri: Text.Units, payload: Option<Bytes>,
                                             signature: Bytes, header: Bytes, envelope: Bytes)
    requires DetachedSignatureProtectedHeader(alg, kid, methodUri) == Ok(header)
    requires EncodeCoseSign1(header, payload, signature) == Ok(envelope)
    ensures Decode(envelope)
            == if |Text.Encode(Received(methodUri))| > MAX_METHOD_URI_LEN then Err(MethodUriTooLong)
               else Ok(CoseSign1(FieldPairs(DetachedFields(alg, kid, methodUri)), header, [], payload, signature,
                                 Some(alg), Some(kid), None, None, Some(Received(methodUri))))
  {
    hide *;
    DetachedIsLabelled(alg, kid, methodUri);
    DetachedFieldsReadBack(alg, kid, methodUri);
    EnvelopeRoundTrip(DetachedFields(alg, kid, methodUri), header, payload, signature, envelope);
    DetachedLabels(alg, kid, methodUri);
    ReadsDetached(FieldPairs(DetachedFields(alg, kid, methodUri)), header, payload, signature, alg, kid,
                  Received(methodUri));
  }

  lemma {:induction false} ReadsDetached(entries: seq<Pair>, header: Bytes, payload: Option<Bytes>, signature: Bytes,
                                         alg: int, kid: Bytes, methodUri: Text.Units)
    requires Get(entries, LABEL_ALG) == Some(Number(alg)) && Get(entries, LABEL_KID) == Some(ByteString(kid))
    requires Get(entries, LABEL_SUITE_ID) == None && Get(entries, LABEL_ARTIFACT_TYPE) == None
    requires Get(entries, LABEL_METHOD_URI) == Some(TextString(methodUri))
    ensures ReadLabels(entries, header, payload, signature)
            == if |Text.Encode(methodUri)| > MAX_METHOD_URI_LEN then Err(MethodUriTooLong)
               else Ok(CoseSign1(entries, header, [], payload, signature, Some(alg), Some(kid), None, None,
                                 Some(methodUri)))
  {
    hide Get, Text.Encode;
  }

  /** All five inputs come back exactly when the URI is short enough, well-formed and has no byte-order mark. */
  lemma {:induction false} DetachedRoundTripExact(alg: int, kid: Bytes, methodUri: Text.Units, payload: Option<Bytes>,
                                                  signature: Bytes, header: Bytes, envelope: Bytes)
    requires DetachedSignatureProtectedHeader(alg, kid, methodUri) == Ok(header)
    requires EncodeCoseSign1(header, payload, signature) == Ok(envelope)
    ensures (match Decode(envelope)
             case Err(_) => false
             case Ok(cose) =>
               && cose.protectedHeaderBytes == header && cose.unprotectedHeader == []
               && cose.payload == payload && cose.signature == signature
               && cose.alg == Some(alg) && cose.kid == Some(kid) && cose.methodUri == Some(methodUri)
               && cose.suiteId == None && cose.artifactType == None)
            <==> Text.Survives(methodUri) && |Text.Encode(methodUri)| <= MAX_METHOD_URI_LEN
  {
    hide Decode, EncodeCoseSign1, DetachedSignatureProtectedHeader, FieldPairs;
    DetachedRoundTrip(alg, kid, methodUri, payload, signature, header, envelope);
    Text.RoundTrip(methodUri);
  }

  lemma {:induction false} ChunksOfFour(fields: seq<Field>)
    requires |fields| == 4
    ensures FieldChunks(fields)
            == [EncodeInt(fields[0].name), fields[0].chunk, EncodeInt(fields[1].name), fields[1].chunk,
                EncodeInt(fields[2].name), fields[2].chunk, EncodeInt(fields[3].name), fields[3].chunk]
  {
    hide EncodeInt;
    ChunksOfThree(fields[1..]);
  }

  lemma {:induction false} SubstrateIsLabelled(alg: int, kid: Bytes, suiteId: int, artifactType: Text.Units)
    requires |kid| == 16
    ensures SubstrateProtectedHeader(alg, kid, suiteId, artifactType)
            == ConcatBytes([Ok(Head(5, 4))] + FieldChunks(SubstrateFields(alg, kid, suiteId, artifactType)))
  {
    ChunksOfFour(SubstrateFields(alg, kid, suiteId, artifactType));
    assert Head(5, 4) == [0xa4];
    hide EncodeInt, EncodeBytes, EncodeText, ConcatBytes, Head, FieldChunks, Received;
  }

  lemma {:induction false} SubstrateFieldsReadBack(alg: int, kid: Bytes, suiteId: int, artifactType: Text.Units)
    ensures var fields := SubstrateFields(alg, kid, suiteId, artifactType);
            && Fresh(fields, [])
            && forall i :: 0 <= i < 4 ==> FieldReadsBack(fields[i]) && fields[i].name != LABEL_RETIRED_DISPATCH_ID
  {
    hide FieldReadsBack, EncodeInt, EncodeBytes, EncodeText, Received;
    FieldsReadBack();
  }

  lemma {:induction false} SubstrateLabels(alg: int, kid: Bytes, suiteId: int, artifactType: Text.Units)
    ensures var pairs := FieldPairs(SubstrateFields(alg, kid, suiteId, artifactType));
            && Get(pairs, LABEL_ALG) == Some(Number(alg)) && Get(pairs, LABEL_KID) == Some(ByteString(kid))
            && Get(pairs, LABEL_SUITE_ID) == Some(Number(suiteId))
            && Get(pairs, LABEL_ARTIFACT_TYPE) == Some(TextString(Received(artifactType)))
            && Get(pairs, LABEL_METHOD_URI) == None
  {
    hide EncodeInt, EncodeBytes, EncodeText, Received, FieldPairs, Get;
    var fields := SubstrateFields(alg, kid, suiteId, artifactType);
    assert fields[0] == IntField(LABEL_ALG, alg) && fields[1] == BytesField(LABEL_KID, kid);
    assert fields[2] == IntField(LABEL_SUITE_ID, suiteId) && fields[3] == TextField(LABEL_ARTIFACT_TYPE, artifactType);
    GetFieldAt(fields, 0);
    GetFieldAt(fields, 1);
    GetFieldAt(fields, 2);
    GetFieldAt(fields, 3);
    GetNoField(fields, LABEL_METHOD_URI);
  }

  /** What comes back from an encoded substrate envelope: a negative suite identifier is written but not read. */
  lemma {:induction false} SubstrateRoundTrip(alg: int, kid: Bytes, suiteId: int, artifactType: Text.Units,
                                              payload: Option<Bytes>, signature: Bytes, header: Bytes,
                                              envelope: Bytes)
    requires SubstrateProtectedHeader(alg, kid, suiteId, artifactType) == Ok(header)
    requires EncodeCoseSign1(header, payload, signature) == Ok(envelope)
    ensures Decode(envelope)
            == if suiteId < 0 then Err(NotUnsigned)
               else Ok(CoseSign1(FieldPairs(SubstrateFields(alg, kid, suiteId, artifactType)), header, [], payload,
                                 signature, Some(alg), Some(kid), Some(suiteId), Some(Received(artifactType)), None))
  {
    assert |kid| == 16;
    hide *;
    SubstrateIsLabelled(alg, kid, suiteId, artifactType);
    SubstrateFieldsReadBack(alg, kid, suiteId, artifactType);
    EnvelopeRoundTrip(SubstrateFields(alg, kid, suiteId, artifactType), header, payload, signature, envelope);
    SubstrateLabels(alg, kid, suiteId, artifactType);
    ReadsSubstrate(FieldPairs(SubstrateFields(alg, kid, suiteId, artifactType)), header, payload, signature, alg, kid,
                   suiteId, Received(artifactType));
  }

  lemma {:induction false} ReadsSubstrate(entries: seq<Pair>, header: Bytes, payload: Option<Bytes>, signature: Bytes,
                                          alg: int, kid: Bytes, suiteId: int, artifactType: Text.Units)
    requires Get(entries, LABEL_ALG) == Some(Number(alg)) && Get(entries, LABEL_KID) == Some(ByteString(kid))
    requires Get(entries, LABEL_SUITE_ID) == Some(Number(suiteId))
    requires Get(entries, LABEL_ARTIFACT_TYPE) == Some(TextString(artifactType))
    requires Get(entries, LABEL_METHOD_URI) == None
    ensures ReadLabels(entries, header, payload, signature)
            == if suiteId < 0 then Err(NotUnsigned)
               else Ok(CoseSign1(entries, header, [], payload, signature, Some(alg), Some(kid), Some(suiteId),
                                 Some(artifactType), None))
  {
    hide Get, Text.Encode;
  }

  /** The encoders accept exactly lengths and algorithm numbers of at most 32 bits. */
  lemma {:induction false} DetachedHeaderEncodes(alg: int, kid: Bytes, methodUri: Text.Units)
    ensures DetachedSignatureProtectedHeader(alg, kid, methodUri).Ok?
            <==> -0x1_0000_0000 <= alg < 0x1_0000_0000 && |kid| < 0x1_0000_0000
                 && |Text.Encode(methodUri)| < 0x1_0000_0000
  {
    var chunks := [EncodeMajorLen(5, 3), EncodeInt(LABEL_ALG), EncodeInt(alg), EncodeInt(LABEL_KID), EncodeBytes(kid),
                   EncodeInt(LABEL_METHOD_URI), EncodeText(methodUri)];
    assert EncodeInt(LABEL_ALG).Ok? && EncodeInt(LABEL_KID).Ok? && EncodeInt(LABEL_METHOD_URI).Ok?;
    assert EncodeInt(alg).Ok? <==> -0x1_0000_0000 <= alg < 0x1_0000_0000;
    hide ConcatBytes, EncodeInt;
    AllOk(chunks);
    assert (forall i :: 0 <= i < |chunks| ==> chunks[i].Ok?) <==> chunks[2].Ok? && chunks[4].Ok? && chunks[6].Ok?;
  }

  lemma {:induction false} CoseSign1Encodes(header: Bytes, payload: Option<Bytes>, signature: Bytes)
    ensures EncodeCoseSign1(header, payload, signature).Ok?
            <==> |header| < 0x1_0000_0000 && |signature| < 0x1_0000_0000
                 && (payload.Some? ==> |payload.value| < 0x1_0000_0000)
  {
    var chunks := [Ok([0xd2, 0x84]), EncodeBytes(header), Ok([0xa0]),
                   if payload.None? then Ok([0xf6]) else EncodeBytes(payload.value), EncodeBytes(signature)];
    hide ConcatBytes;
    AllOk(chunks);
    assert (forall i :: 0 <= i < |chunks| ==> chunks[i].Ok?) <==> chunks[1].Ok? && chunks[3].Ok? && chunks[4].Ok?;
  }

  /** Whatever bytes were decoded, what was decoded can be written again, and then reads the same. */
  lemma {:induction false} DecodedIsRewritten(bytes: Bytes, cose: CoseSign1)
    requires Decode(bytes) == Ok(cose)
    ensures var written := EncodeCoseSign1(cose.protectedHeaderBytes, cose.payload, cose.signature);
            written.Ok? && Decode(written.value) == Ok(cose)
  {
    hide Parse, EncodeCoseSign1, Get, OptionalInteger, OptionalUnsigned, OptionalBytes, OptionalText;
    ParsedIsShort(bytes);
    var fields := ParseAll(bytes).value.value.items;
    assert forall i :: 0 <= i < 4 ==> Short(fields[i]);
    CoseSign1Encodes(cose.protectedHeaderBytes, cose.payload, cose.signature);
    EnvelopeReadsBack(cose.protectedHeaderBytes, cose.payload, cose.signature);
  }

  /** Under a label there is nothing, or this number. */
  predicate HoldsNumber(header: seq<Pair>, name: int, n: Option<int>) {
    Get(header, name) == match n case None => None case Some(i) => Some(Number(i))
  }

  predicate HoldsBytes(header: seq<Pair>, name: int, bytes: Option<Bytes>) {
    Get(header, name) == match bytes case None => None case Some(b) => Some(ByteString(b))
  }

  predicate HoldsText(header: seq<Pair>, name: int, text: Option<Text.Units>) {
    Get(header, name) == match text case None => None case Some(t) => Some(TextString(t))
  }

  /**
   * What is decoded, without the decoder: a tag 18 around four fields, a header that is a map, its five known labels
   * with values of their types, no retired label, an empty unprotected header, and no byte too many.
   */
  lemma {:induction false} DecodesExactly(bytes: Bytes, cose: CoseSign1)
    ensures Decode(bytes) == Ok(cose)
            <==> && Spells(bytes, Tag(18, Array([ByteString(cose.protectedHeaderBytes), Map([]), OrNull(cose.payload),
                                                 ByteString(cose.signature)])))
                 && Spells(cose.protectedHeaderBytes, Map(cose.protectedHeader)) && cose.unprotectedHeader == []
                 && HoldsNumber(cose.protectedHeader, 1, cose.alg) && HoldsBytes(cose.protectedHeader, 4, cose.kid)
                 && HoldsNumber(cose.protectedHeader, -65537, cose.suiteId)
                 && (cose.suiteId.Some? ==> cose.suiteId.value >= 0)
                 && HoldsText(cose.protectedHeader, -65538, cose.artifactType)
                 && Get(cose.protectedHeader, -65539) == None
                 && HoldsText(cose.protectedHeader, -65540, cose.methodUri)
                 && (cose.methodUri.Some? ==> |Text.Encode(cose.methodUri.value)| <= 512)
  {
    hide ParseAll, Spells, Get, Text.Encode, ReadLabels;
    var fields := [ByteString(cose.protectedHeaderBytes), Map([]), OrNull(cose.payload), ByteString(cose.signature)];
    ParsesAllExactly(bytes, Tag(18, Array(fields)));
    ParsesAllExactly(cose.protectedHeaderBytes, Map(cose.protectedHeader));
    LabelsExactly(cose.protectedHeader, cose.protectedHeaderBytes, cose.payload, cose.signature, cose);
    if Decode(bytes) == Ok(cose) {
      var root := ParseAll(bytes).value;
      ReadLabelsKeeps(ParseAll(root.value.items[0].bytes).value.entries, root.value.items[0].bytes,
                      if root.value.items[2].Null? then None else Some(root.value.items[2].bytes),
                      root.value.items[3].bytes, cose);
      assert root.value.items == fields;
    }
  }

  lemma {:induction false} ReadLabelsKeeps(header: seq<Pair>, headerBytes: Bytes, payload: Option<Bytes>,
                                           signature: Bytes, cose: CoseSign1)
    requires ReadLabels(header, headerBytes, payload, signature) == Ok(cose)
    ensures cose.protectedHeader == header && cose.protectedHeaderBytes == headerBytes
    ensures cose.payload == payload && cose.signature == signature && cose.unprotectedHeader == []
  {
  }

  lemma {:induction false} LabelsExactly(header: seq<Pair>, headerBytes: Bytes, payload: Option<Bytes>,
                                         signature: Bytes, cose: CoseSign1)
    requires cose.protectedHeader == header && cose.protectedHeaderBytes == headerBytes
    requires cose.payload == payload && cose.signature == signature
    ensures ReadLabels(header, headerBytes, payload, signature) == Ok(cose)
            <==> && cose.unprotectedHeader == []
                 && HoldsNumber(header, 1, cose.alg) && HoldsBytes(header, 4, cose.kid)
                 && HoldsNumber(header, -65537, cose.suiteId)
                 && (cose.suiteId.Some? ==> cose.suiteId.value >= 0)
                 && HoldsText(header, -65538, cose.artifactType) && HoldsText(header, -65540, cose.methodUri)
                 && (cose.methodUri.Some? ==> |Text.Encode(cose.methodUri.value)| <= 512)
  {
    hide Get, Text.Encode;
  }

  /** An envelope whose header has a number for a label twice is refused. */
  lemma {:induction false} RepeatedLabelInHeader(bytes: Bytes, argument: Argument, pairs: seq<WrittenPair>,
                                                 unprotected: Value, payload: Value, signature: Value)
    requires PairsLegal(argument, pairs) && !DistinctNumbers(PairMeanings(pairs))
    requires Spells(bytes, Tag(18, Array([ByteString(Spelling(WMap(argument, pairs))), unprotected, payload,
                                          signature])))
    ensures Decode(bytes) == Err(Cbor(DuplicateLabel))
  {
    hide Spells, ParseAll, PairsLegal, DistinctNumbers, Spelling;
    RepeatedNumberRefused(argument, pairs);
    ParsesAllExactly(bytes, Tag(18, Array([ByteString(Spelling(WMap(argument, pairs))), unprotected, payload,
                                           signature])));
  }

  lemma {:induction false} AllOk(chunks: seq<Encoding>)
    ensures ConcatBytes(chunks).Ok? <==> forall i :: 0 <= i < |chunks| ==> chunks[i].Ok?
  {
    if chunks != [] {
      AllOk(chunks[1..]);
      assert forall i :: 0 < i < |chunks| ==> chunks[i] == chunks[1..][i - 1];
    }
  }
}
