/** Text as a JavaScript runtime holds it (UTF-16 code units) and as it travels (UTF-8). */
module Text {
  import opened Bytes
  import opened Wrappers

  type Unit = u: int | 0 <= u < 0x1_0000
  type Units = seq<Unit>
  /** A Unicode scalar value: any code point but a surrogate. */
  type Scalar = c: int | 0 <= c < 0x11_0000 && !(0xd800 <= c < 0xe000)

  const REPLACEMENT: Scalar := 0xfffd
  const BOM: Scalar := 0xfeff

  predicate IsHigh(u: Unit) {
    0xd800 <= u < 0xdc00
  }

  predicate IsLow(u: Unit) {
    0xdc00 <= u < 0xe000
  }

  /** The scalar values of a string; a lone surrogate stands for the replacement character. */
  function Scalars(text: Units): seq<Scalar> {
    if text == [] then []
    else if IsHigh(text[0]) && |text| > 1 && IsLow(text[1]) then
      [0x1_0000 + (text[0] - 0xd800) * 0x400 + (text[1] - 0xdc00)] + Scalars(text[2..])
    else [if IsHigh(text[0]) || IsLow(text[0]) then REPLACEMENT else text[0] as int] + Scalars(text[1..])
  }

  function UnitsOf(c: Scalar): Units {
    if c < 0x1_0000 then [c] else [0xd800 + (c - 0x1_0000) / 0x400, 0xdc00 + (c - 0x1_0000) % 0x400]
  }

  function FromScalars(scalars: seq<Scalar>): Units {
    if scalars == [] then [] else UnitsOf(scalars[0]) + FromScalars(scalars[1..])
  }

  /** No surrogate stands alone. */
  predicate IsWellFormed(text: Units) {
    text == []
    || (IsHigh(text[0]) && |text| > 1 && IsLow(text[1]) && IsWellFormed(text[2..]))
    || (!IsHigh(text[0]) && !IsLow(text[0]) && IsWellFormed(text[1..]))
  }

  /** Going through scalar values changes exactly the strings with a lone surrogate. */
  lemma {:induction false} ScalarsRoundTrip(text: Units)
    ensures FromScalars(Scalars(text)) == text <==> IsWellFormed(text)
    ensures |FromScalars(Scalars(text))| == |text|
  {
    if text != [] {
      if IsHigh(text[0]) && |text| > 1 && IsLow(text[1]) {
        ScalarsRoundTrip(text[2..]);
        SurrogatePair(text[0], text[1]);
        assert FromScalars(Scalars(text)) == [text[0], text[1]] + FromScalars(Scalars(text[2..]));
        SameTail([text[0], text[1]], FromScalars(Scalars(text[2..])), text);
      } else {
        ScalarsRoundTrip(text[1..]);
        var first := if IsHigh(text[0]) || IsLow(text[0]) then REPLACEMENT else text[0] as int;
        assert Scalars(text) == [first] + Scalars(text[1..]);
        assert FromScalars(Scalars(text)) == [first] + FromScalars(Scalars(text[1..]));
        if first == text[0] {
          SameTail([text[0]], FromScalars(Scalars(text[1..])), text);
        }
      }
    }
  }

  lemma SurrogatePair(high: Unit, low: Unit)
    requires IsHigh(high) && IsLow(low)
    ensures UnitsOf(0x1_0000 + (high - 0xd800) * 0x400 + (low - 0xdc00)) == [high, low]
  {
  }

  lemma SameTail(front: Units, tail: Units, whole: Units)
    requires |front| <= |whole| && whole[..|front|] == front
    ensures front + tail == whole <==> tail == whole[|front|..]
  {
  }

  // ----- UTF-8 -----

  function EncodeScalar(c: Scalar): (r: Bytes)
    ensures 0 < |r| <= 4
  {
    if c < 0x80 then [c]
    else if c < 0x800 then [0xc0 + c / 0x40, 0x80 + c % 0x40]
    else if c < 0x1_0000 then [0xe0 + c / 0x1000, 0x80 + c / 0x40 % 0x40, 0x80 + c % 0x40]
    else [0xf0 + c / 0x4_0000, 0x80 + c / 0x1000 % 0x40, 0x80 + c / 0x40 % 0x40, 0x80 + c % 0x40]
  }

  function EncodeScalars(scalars: seq<Scalar>): Bytes {
    if scalars == [] then [] else EncodeScalar(scalars[0]) + EncodeScalars(scalars[1..])
  }

  predicate IsContinuation(b: byte) {
    0x80 <= b < 0xc0
  }

  function Payload(b: byte): int {
    b as int - 0x80
  }

  datatype First = First(scalar: Scalar, length: nat)

  /** The scalar value at the front of well-formed UTF-8: shortest form only, no surrogates, nothing above the range. */
  function DecodeFirst(bytes: Bytes): (r: Option<First>)
    ensures r.Some? ==> 0 < r.value.length <= |bytes|
  {
    if bytes == [] then None
    else
      var lead := bytes[0] as int;
      if lead < 0x80 then Some(First(lead, 1))
      else if 0xc2 <= lead < 0xe0 && |bytes| > 1 && IsContinuation(bytes[1]) then
        Some(First((lead - 0xc0) * 0x40 + Payload(bytes[1]), 2))
      else if 0xe0 <= lead < 0xf0 && |bytes| > 2 && IsContinuation(bytes[1]) && IsContinuation(bytes[2]) then
        var c := (lead - 0xe0) * 0x1000 + Payload(bytes[1]) * 0x40 + Payload(bytes[2]);
        if c < 0x800 || 0xd800 <= c < 0xe000 then None else Some(First(c, 3))
      else if 0xf0 <= lead < 0xf5 && |bytes| > 3
              && IsContinuation(bytes[1]) && IsContinuation(bytes[2]) && IsContinuation(bytes[3]) then
        var c := (lead - 0xf0) * 0x4_0000 + Payload(bytes[1]) * 0x1000 + Payload(bytes[2]) * 0x40 + Payload(bytes[3]);
        if c < 0x1_0000 || c >= 0x11_0000 then None else Some(First(c, 4))
      else None
  }

  function DecodeScalars(bytes: Bytes): Option<seq<Scalar>> {
    if bytes == [] then Some([])
    else
      match DecodeFirst(bytes)
      case None => None
      case Some(first) =>
        match DecodeScalars(bytes[first.length..])
        case None => None
        case Some(rest) => Some([first.scalar] + rest)
  }

  lemma SixBits(c: nat)
    ensures c == c / 0x40 * 0x40 + c % 0x40
    ensures c / 0x40 == c / 0x1000 * 0x40 + c / 0x40 % 0x40
    ensures c / 0x1000 == c / 0x4_0000 * 0x40 + c / 0x1000 % 0x40
  {
  }

  lemma TwoReadBack(c: Scalar, rest: Bytes)
    requires 0x80 <= c < 0x800
    ensures DecodeFirst([0xc0 + c / 0x40, 0x80 + c % 0x40] + rest) == Some(First(c, 2))
  {
  }

  lemma ThreeReadBack(c: Scalar, a: nat, b: nat, d: nat, rest: Bytes)
    requires 0x800 <= c < 0x1_0000 && a < 0x10 && b < 0x40 && d < 0x40 && c == a * 0x1000 + b * 0x40 + d
    ensures DecodeFirst([0xe0 + a, 0x80 + b, 0x80 + d] + rest) == Some(First(c, 3))
  {
  }

  lemma FourReadBack(c: Scalar, a: nat, b: nat, d: nat, e: nat, rest: Bytes)
    requires 0x1_0000 <= c && a < 5 && b < 0x40 && d < 0x40 && e < 0x40
    requires c == a * 0x4_0000 + b * 0x1000 + d * 0x40 + e
    ensures DecodeFirst([0xf0 + a, 0x80 + b, 0x80 + d, 0x80 + e] + rest) == Some(First(c, 4))
  {
  }

  lemma {:induction false} FirstReadsBack(c: Scalar, rest: Bytes)
    ensures DecodeFirst(EncodeScalar(c) + rest) == Some(First(c, |EncodeScalar(c)|))
  {
    hide DecodeFirst;
    SixBits(c);
    if c < 0x80 {
      OneReadBack(c, rest);
    } else if c < 0x800 {
      TwoReadBack(c, rest);
    } else if c < 0x1_0000 {
      ThreeReadBack(c, c / 0x1000, c / 0x40 % 0x40, c % 0x40, rest);
    } else {
      FourReadBack(c, c / 0x4_0000, c / 0x1000 % 0x40, c / 0x40 % 0x40, c % 0x40, rest);
    }
  }

  lemma OneReadBack(c: Scalar, rest: Bytes)
    requires c < 0x80
    ensures DecodeFirst([c] + rest) == Some(First(c, 1))
  {
  }

  lemma {:induction false} ScalarsReadBack(scalars: seq<Scalar>)
    ensures DecodeScalars(EncodeScalars(scalars)) == Some(scalars)
  {
    if scalars != [] {
      var front, rest := EncodeScalar(scalars[0]), EncodeScalars(scalars[1..]);
      FirstReadsBack(scalars[0], rest);
      ScalarsReadBack(scalars[1..]);
      assert (front + rest)[|front|..] == rest;
      assert scalars == [scalars[0]] + scalars[1..];
    }
  }

  lemma TwoGroups(a: nat, b: nat)
    requires b < 0x40
    ensures (a * 0x40 + b) / 0x40 == a && (a * 0x40 + b) % 0x40 == b
  {
  }

  /** What is read at the front is what the scalar value is written as. */
  lemma {:induction false} FirstIsEncoded(bytes: Bytes)
    requires DecodeFirst(bytes).Some?
    ensures var first := DecodeFirst(bytes).value; EncodeScalar(first.scalar) == bytes[..first.length]
  {
    var lead := bytes[0] as int;
    if lead < 0x80 {
      assert bytes[..1] == [bytes[0]];
    } else if lead < 0xe0 {
      TwoGroups(lead - 0xc0, Payload(bytes[1]));
      assert bytes[..2] == [bytes[0], bytes[1]];
    } else if lead < 0xf0 {
      var c := DecodeFirst(bytes).value.scalar;
      TwoGroups((lead - 0xe0) * 0x40 + Payload(bytes[1]), Payload(bytes[2]));
      TwoGroups(lead - 0xe0, Payload(bytes[1]));
      assert c / 0x1000 == c / 0x40 / 0x40;
      assert bytes[..3] == [bytes[0], bytes[1], bytes[2]];
    } else {
      FourIsEncoded(bytes);
    }
  }

  lemma {:induction false} FourIsEncoded(bytes: Bytes)
    requires DecodeFirst(bytes).Some? && bytes[0] >= 0xf0
    ensures var first := DecodeFirst(bytes).value; EncodeScalar(first.scalar) == bytes[..first.length]
  {
    var lead, c := bytes[0] as int, DecodeFirst(bytes).value.scalar;
    TwoGroups(((lead - 0xf0) * 0x40 + Payload(bytes[1])) * 0x40 + Payload(bytes[2]), Payload(bytes[3]));
    TwoGroups((lead - 0xf0) * 0x40 + Payload(bytes[1]), Payload(bytes[2]));
    TwoGroups(lead - 0xf0, Payload(bytes[1]));
    assert c / 0x1000 == c / 0x40 / 0x40 && c / 0x4_0000 == c / 0x40 / 0x40 / 0x40;
    assert bytes[..4] == [bytes[0], bytes[1], bytes[2], bytes[3]];
  }

  /** Exactly what scalar values are written as is read, and as them. */
  lemma {:induction false} ScalarsExactly(bytes: Bytes, scalars: seq<Scalar>)
    ensures DecodeScalars(bytes) == Some(scalars) <==> EncodeScalars(scalars) == bytes
    decreases |bytes|
  {
    if EncodeScalars(scalars) == bytes {
      ScalarsReadBack(scalars);
    }
    if DecodeScalars(bytes) == Some(scalars) && bytes != [] {
      hide DecodeFirst, EncodeScalar;
      FirstIsEncoded(bytes);
      var first := DecodeFirst(bytes).value;
      ScalarsExactly(bytes[first.length..], scalars[1..]);
      assert bytes == bytes[..first.length] + bytes[first.length..];
    }
  }

  /** What a text encoder writes. */
  function Encode(text: Units): Bytes {
    EncodeScalars(Scalars(text))
  }

  /** What a strict text decoder reads: a leading byte-order mark is dropped, malformed input is refused. */
  function Decode(bytes: Bytes): Option<Units> {
    match DecodeScalars(bytes)
    case None => None
    case Some(scalars) =>
      Some(FromScalars(if scalars != [] && scalars[0] == BOM then scalars[1..] else scalars))
  }

  /** The strings that survive encoding and decoding. */
  predicate Survives(text: Units) {
    IsWellFormed(text) && (text != [] ==> text[0] != BOM)
  }

  lemma RoundTrip(text: Units)
    ensures Decode(Encode(text)).Some?
    ensures Decode(Encode(text)) == Some(text) <==> Survives(text)
  {
    ScalarsReadBack(Scalars(text));
    ScalarsRoundTrip(text);
    if text != [] && text[0] == BOM {
      assert Scalars(text)[0] == BOM;
      assert FromScalars(Scalars(text)) == [BOM] + FromScalars(Scalars(text)[1..]);
    } else if text != [] {
      assert Scalars(text)[0] != BOM;
    }
  }

  // ----- What arrives, unit by unit -----

  /** A surrogate without its other half beside it. */
  predicate Lone(text: Units, i: nat)
    requires i < |text|
  {
    || (0xd800 <= text[i] < 0xdc00 && !(i + 1 < |text| && 0xdc00 <= text[i + 1] < 0xe000))
    || (0xdc00 <= text[i] < 0xe000 && !(i > 0 && 0xd800 <= text[i - 1] < 0xdc00))
  }

  /** The text with the replacement character for each lone surrogate. */
  function Repaired(text: Units): (r: Units)
    ensures |r| == |text|
  {
    seq(|text|, i requires 0 <= i < |text| => if Lone(text, i) then 0xfffd else text[i])
  }

  lemma LoneLater(text: Units, front: nat, i: nat)
    requires 0 < front <= i < |text|
    requires 0xdc00 <= text[front] < 0xe000 ==> !(0xd800 <= text[front - 1] < 0xdc00)
    ensures Lone(text, i) <==> Lone(text[front..], i - front)
  {
  }

  lemma {:induction false} RepairedLater(text: Units, front: nat, first: Units)
    requires 0 < front <= |text| && |first| == front
    requires front < |text| && 0xdc00 <= text[front] < 0xe000 ==> !(0xd800 <= text[front - 1] < 0xdc00)
    requires forall i :: 0 <= i < front ==> first[i] == if Lone(text, i) then 0xfffd else text[i]
    ensures Repaired(text) == first + Repaired(text[front..])
  {
    hide Lone;
    forall i | front <= i < |text|
      ensures Repaired(text)[i] == Repaired(text[front..])[i - front]
    {
      LoneLater(text, front, i);
    }
  }

  lemma FromFirst(scalars: seq<Scalar>)
    requires scalars != []
    ensures FromScalars(scalars) == UnitsOf(scalars[0]) + FromScalars(scalars[1..])
  {
  }

  lemma {:induction false} ScalarsRepair(text: Units)
    ensures FromScalars(Scalars(text)) == Repaired(text)
  {
    hide FromScalars, Repaired;
    if text == [] {
      NothingRepaired();
    } else {
      FromFirst(Scalars(text));
      if IsHigh(text[0]) && |text| > 1 && IsLow(text[1]) {
        ScalarsRepair(text[2..]);
        SurrogatePair(text[0], text[1]);
        RepairedLater(text, 2, [text[0], text[1]]);
        assert Scalars(text)[1..] == Scalars(text[2..]);
      } else {
        ScalarsRepair(text[1..]);
        RepairedLater(text, 1, [if IsHigh(text[0]) || IsLow(text[0]) then REPLACEMENT else text[0]]);
        assert Scalars(text)[1..] == Scalars(text[1..]);
      }
    }
  }

  lemma NothingRepaired()
    ensures FromScalars([]) == Repaired([])
  {
  }

  /** What arrives is the repaired text, without a byte-order mark at its front. */
  lemma {:induction false} ArrivesRepaired(text: Units)
    ensures Decode(Encode(text))
            == Some(if text != [] && text[0] == 0xfeff then Repaired(text)[1..] else Repaired(text))
  {
    ScalarsReadBack(Scalars(text));
    ScalarsRepair(text);
    if text != [] {
      var scalars := Scalars(text);
      assert FromScalars(scalars) == UnitsOf(scalars[0]) + FromScalars(scalars[1..]);
      assert scalars[0] == BOM <==> text[0] == 0xfeff;
    }
  }

  /** The bytes of a scalar value: its bits in groups of six, the first group with the length before it. */
  lemma {:induction false} ScalarBytes(c: Scalar)
    ensures var r := EncodeScalar(c);
            && (c < 0x80 ==> r == [c])
            && (0x80 <= c < 0x800 ==> |r| == 2 && c == 0x40 * (r[0] as int - 0xc0) + (r[1] as int - 0x80))
            && (0x800 <= c < 0x1_0000 ==>
                  |r| == 3 && c == 0x1000 * (r[0] as int - 0xe0) + 0x40 * (r[1] as int - 0x80) + (r[2] as int - 0x80))
            && (0x1_0000 <= c ==>
                  |r| == 4
                  && c == 0x4_0000 * (r[0] as int - 0xf0) + 0x1000 * (r[1] as int - 0x80)
                          + 0x40 * (r[2] as int - 0x80) + (r[3] as int - 0x80))
            && forall i :: 0 < i < |r| ==> 0x80 <= r[i] < 0xc0
  {
    SixBits(c);
  }

  /** ASCII text is read as it is. */
  lemma {:induction false} AsciiArrives(bytes: Bytes, units: Units)
    requires |units| == |bytes| && forall i :: 0 <= i < |bytes| ==> bytes[i] < 0x80 && units[i] == bytes[i] as int
    ensures Decode(bytes) == Some(units)
  {
    AsciiScalars(bytes, units);
  }

  lemma {:induction false} AsciiScalars(bytes: Bytes, units: Units)
    requires |units| == |bytes| && forall i :: 0 <= i < |bytes| ==> bytes[i] < 0x80 && units[i] == bytes[i] as int
    ensures DecodeScalars(bytes).Some? && FromScalars(DecodeScalars(bytes).value) == units
    ensures bytes != [] ==> DecodeScalars(bytes).value != [] && DecodeScalars(bytes).value[0] == bytes[0] as int
  {
    if bytes != [] {
      AsciiScalars(bytes[1..], units[1..]);
      assert DecodeFirst(bytes) == Some(First(bytes[0] as int, 1));
      assert DecodeScalars(bytes).value == [bytes[0] as int] + DecodeScalars(bytes[1..]).value;
      assert units == [units[0]] + units[1..];
    }
  }
}
