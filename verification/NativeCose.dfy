/** The envelope writers of the Rust crate, and their agreement with the TypeScript package. */
module NativeCose {
  import opened Bytes
  import opened CborHead
  import opened Wrappers
  import CoseSign1
  import Text

  type i32 = x: int | -0x8000_0000 <= x < 0x8000_0000

  function EncodeInt(value: i32): Bytes {
    if value >= 0 then Head(0, value) else Head(1, -1 - value)
  }

  /** Private labels are written by their unsigned magnitude. */
  const SUITE_ID_LABEL_MAGNITUDE: u64 := 65_536
  const ARTIFACT_TYPE_LABEL_MAGNITUDE: u64 := 65_537
  const METHOD_URI_LABEL_MAGNITUDE: u64 := 65_539

  function SubstrateProtectedHeader(alg: i32, kid: Bytes, suiteId: u64, artifactType: Bytes): Bytes
    requires Encodable(kid) && Encodable(artifactType)
  {
    [0xa4] + Uint(1) + EncodeInt(alg) + Uint(4) + Bstr(kid)
    + Head(1, SUITE_ID_LABEL_MAGNITUDE) + Uint(suiteId)
    + Head(1, ARTIFACT_TYPE_LABEL_MAGNITUDE) + Tstr(artifactType)
  }

  function DetachedSignatureProtectedHeader(alg: i32, kid: Bytes, methodUri: Bytes): Bytes
    requires Encodable(kid) && Encodable(methodUri)
  {
    [0xa3] + Uint(1) + EncodeInt(alg) + Uint(4) + Bstr(kid) + Head(1, METHOD_URI_LABEL_MAGNITUDE) + Tstr(methodUri)
  }

  function EncodeCoseSign1(protectedHeader: Bytes, payload: Option<Bytes>, signature: Bytes): Bytes
    requires Encodable(protectedHeader) && Encodable(signature) && (payload.Some? ==> Encodable(payload.value))
  {
    [0xd2] + [0x84] + Bstr(protectedHeader) + [0xa0]
    + (match payload case Some(bytes) => Bstr(bytes) case None => [0xf6])
    + Bstr(signature)
  }

  // ----- Agreement of the writers -----

  lemma FlatSnoc(parts: seq<Bytes>, last: Bytes)
    ensures CoseSign1.Flatten(parts + [last]) == CoseSign1.Flatten(parts) + last
  {
    CoseSign1.FlattenNext(parts + [last], |parts|);
    assert (parts + [last])[..|parts|] == parts && (parts + [last])[..|parts| + 1] == parts + [last];
  }

  lemma FlatFive(a: Bytes, b: Bytes, c: Bytes, d: Bytes, e: Bytes)
    ensures CoseSign1.Flatten([a, b, c, d, e]) == a + b + c + d + e
  {
    assert CoseSign1.Flatten([]) == [];
    FlatSnoc([], a);
    assert [] + [a] == [a] && [] + a == a;
    FlatSnoc([a], b);
    FlatSnoc([a] + [b], c);
    FlatSnoc([a] + [b] + [c], d);
    FlatSnoc([a] + [b] + [c] + [d], e);
    assert [a] + [b] + [c] + [d] + [e] == [a, b, c, d, e];
  }

  lemma FlatNine(a: Bytes, b: Bytes, c: Bytes, d: Bytes, e: Bytes, f: Bytes, g: Bytes, h: Bytes, i: Bytes)
    ensures CoseSign1.Flatten([a, b, c, d, e, f, g]) == a + b + c + d + e + f + g
    ensures CoseSign1.Flatten([a, b, c, d, e, f, g, h, i]) == a + b + c + d + e + f + g + h + i
  {
    var five, six := [a, b, c, d, e], [a, b, c, d, e, f];
    var seven, eight := [a, b, c, d, e, f, g], [a, b, c, d, e, f, g, h];
    FlatFive(a, b, c, d, e);
    FlatSnoc(five, f);
    assert five + [f] == six;
    FlatSnoc(six, g);
    assert six + [g] == seven;
    FlatSnoc(seven, h);
    assert seven + [h] == eight;
    FlatSnoc(eight, i);
    assert eight + [i] == [a, b, c, d, e, f, g, h, i];
  }

  predicate Short(bytes: Bytes) {
    |bytes| < 0x1_0000_0000
  }

  lemma SamePieces(alg: i32, content: Bytes)
    requires Short(content)
    ensures CoseSign1.EncodeInt(alg) == Ok(EncodeInt(alg))
    ensures CoseSign1.EncodeBytes(content) == Ok(Bstr(content))
    ensures CoseSign1.EncodeString(3, content) == Ok(Tstr(content))
  {
  }

  lemma SameUint(value: u32)
    ensures CoseSign1.EncodeInt(value) == Ok(Uint(value))
  {
  }

  lemma SameLabels()
    ensures CoseSign1.EncodeMajorLen(5, 3) == Ok([0xa3])
    ensures CoseSign1.EncodeInt(CoseSign1.LABEL_ALG) == Ok(Uint(1))
    ensures CoseSign1.EncodeInt(CoseSign1.LABEL_KID) == Ok(Uint(4))
    ensures CoseSign1.EncodeInt(CoseSign1.LABEL_SUITE_ID) == Ok(Head(1, SUITE_ID_LABEL_MAGNITUDE))
    ensures CoseSign1.EncodeInt(CoseSign1.LABEL_ARTIFACT_TYPE) == Ok(Head(1, ARTIFACT_TYPE_LABEL_MAGNITUDE))
    ensures CoseSign1.EncodeInt(CoseSign1.LABEL_METHOD_URI) == Ok(Head(1, METHOD_URI_LABEL_MAGNITUDE))
  {
  }

  /** Both write the same detached-signature header, as far as the TypeScript package supports the lengths. */
  lemma {:induction false} DetachedHeadersAgree(alg: i32, kid: Bytes, methodUri: Text.Units)
    requires Short(kid) && Short(Text.Encode(methodUri))
    ensures CoseSign1.DetachedSignatureProtectedHeader(alg, kid, methodUri)
            == Ok(DetachedSignatureProtectedHeader(alg, kid, Text.Encode(methodUri)))
  {
    hide Head, Bstr, Tstr, Uint, EncodeInt, Text.Encode, CoseSign1.Flatten;
    hide CoseSign1.EncodeInt, CoseSign1.EncodeBytes, CoseSign1.EncodeString, CoseSign1.EncodeMajorLen,
         CoseSign1.ConcatBytes;
    var uri := Text.Encode(methodUri);
    SameLabels();
    SamePieces(alg, kid);
    SamePieces(alg, uri);
    var a, b, c, d, e, f, g := [0xa3], Uint(1), EncodeInt(alg), Uint(4), Bstr(kid),
                               Head(1, METHOD_URI_LABEL_MAGNITUDE), Tstr(uri);
    CoseSign1.ConcatenatesWritten([a, b, c, d, e, f, g]);
    FlatNine(a, b, c, d, e, f, g, [], []);
    assert CoseSign1.Written([a, b, c, d, e, f, g]) == [Ok(a), Ok(b), Ok(c), Ok(d), Ok(e), Ok(f), Ok(g)];
  }

  /** Both implementations write the same substrate header for key identifiers of the one supported length. */
  lemma {:induction false} SubstrateHeadersAgree(alg: i32, kid: Bytes, suiteId: u32, artifactType: Text.Units)
    requires |kid| == 16 && Short(Text.Encode(artifactType))
    ensures CoseSign1.SubstrateProtectedHeader(alg, kid, suiteId, artifactType)
            == Ok(SubstrateProtectedHeader(alg, kid, suiteId, Text.Encode(artifactType)))
  {
    hide Head, Bstr, Tstr, Text.Encode, CoseSign1.Flatten;
    hide CoseSign1.EncodeInt, CoseSign1.EncodeBytes, CoseSign1.EncodeString, CoseSign1.EncodeMajorLen,
         CoseSign1.ConcatBytes;
    var name := Text.Encode(artifactType);
    SameLabels();
    SamePieces(alg, kid);
    SamePieces(alg, name);
    SameUint(suiteId);
    var a, b, c, d, e, f, g, h, i := [0xa4], Uint(1), EncodeInt(alg), Uint(4), Bstr(kid),
                                     Head(1, SUITE_ID_LABEL_MAGNITUDE), Uint(suiteId),
                                     Head(1, ARTIFACT_TYPE_LABEL_MAGNITUDE), Tstr(name);
    CoseSign1.ConcatenatesWritten([a, b, c, d, e, f, g, h, i]);
    FlatNine(a, b, c, d, e, f, g, h, i);
    assert CoseSign1.Written([a, b, c, d, e, f, g, h, i])
        == [Ok(a), Ok(b), Ok(c), Ok(d), Ok(e), Ok(f), Ok(g), Ok(h), Ok(i)];
  }

  lemma {:induction false} EnvelopesAgree(protectedHeader: Bytes, payload: Option<Bytes>, signature: Bytes)
    requires Short(protectedHeader) && Short(signature) && (payload.Some? ==> Short(payload.value))
    ensures CoseSign1.EncodeCoseSign1(protectedHeader, payload, signature)
            == Ok(EncodeCoseSign1(protectedHeader, payload, signature))
  {
    hide Head, Bstr, CoseSign1.Flatten;
    hide CoseSign1.EncodeBytes, CoseSign1.ConcatBytes;
    SamePieces(0, protectedHeader);
    SamePieces(0, signature);
    if payload.Some? {
      SamePieces(0, payload.value);
    }
    var a, b, c, d, e := [0xd2, 0x84], Bstr(protectedHeader), [0xa0],
                         (match payload case Some(bytes) => Bstr(bytes) case None => [0xf6]), Bstr(signature);
    CoseSign1.ConcatenatesWritten([a, b, c, d, e]);
    FlatFive(a, b, c, d, e);
    assert CoseSign1.Written([a, b, c, d, e]) == [Ok(a), Ok(b), Ok(c), Ok(d), Ok(e)];
    assert [0xd2] + [0x84] == a;
  }

  /** An envelope the Rust crate writes is read back by the TypeScript package. */
  lemma {:induction false} NativeEnvelopeReadsBack(alg: i32, kid: Bytes, methodUri: Text.Units,
                                                   payload: Option<Bytes>, signature: Bytes)
    requires Short(kid) && Short(signature) && (payload.Some? ==> Short(payload.value))
    requires Text.Survives(methodUri) && |Text.Encode(methodUri)| <= CoseSign1.MAX_METHOD_URI_LEN
    requires Short(DetachedSignatureProtectedHeader(alg, kid, Text.Encode(methodUri)))
    ensures var header := DetachedSignatureProtectedHeader(alg, kid, Text.Encode(methodUri));
            var r := CoseSign1.Decode(EncodeCoseSign1(header, payload, signature));
            && r.Ok? && r.value.protectedHeaderBytes == header
            && r.value.payload == payload && r.value.signature == signature
            && r.value.alg == Some(alg) && r.value.kid == Some(kid) && r.value.methodUri == Some(methodUri)
            && r.value.suiteId == None && r.value.artifactType == None
  {
    hide DetachedSignatureProtectedHeader, EncodeCoseSign1, CoseSign1.DetachedSignatureProtectedHeader,
         CoseSign1.EncodeCoseSign1, CoseSign1.Decode, Text.Encode, Text.Survives;
    var header := DetachedSignatureProtectedHeader(alg, kid, Text.Encode(methodUri));
    DetachedHeadersAgree(alg, kid, methodUri);
    EnvelopesAgree(header, payload, signature);
    CoseSign1.DetachedRoundTripExact(alg, kid, methodUri, payload, signature, header,
                                     EncodeCoseSign1(header, payload, signature));
  }
}
