/** Byte strings: their lexicographic order and fixed-width integers. */
module Bytes {

  type byte = b: int | 0 <= b < 256
  type Bytes = seq<byte>
  type u16 = x: nat | x < 0x1_0000
  type u32 = x: nat | x < 0x1_0000_0000
  type u64 = x: nat | x < 0x1_0000_0000_0000_0000

  predicate IsAscii(text: Bytes) {
    forall i :: 0 <= i < |text| ==> text[i] < 128
  }

  /** Strict lexicographic order. */
  predicate Less(a: Bytes, b: Bytes) {
    b != [] && (a == [] || a[0] < b[0] || (a[0] == b[0] && Less(a[1..], b[1..])))
  }

  /** Up to position `k` the strings agree, and there `a` ends or has the smaller byte. */
  ghost predicate FirstSmaller(a: Bytes, b: Bytes, k: nat) {
    && k <= |a| && k < |b| && a[..k] == b[..k]
    && (k == |a| || a[k] < b[k])
  }

  /** The first difference decides, and a proper beginning comes before the whole. */
  ghost predicate Precedes(a: Bytes, b: Bytes) {
    exists k: nat :: FirstSmaller(a, b, k)
  }

  lemma {:induction false} LessExactly(a: Bytes, b: Bytes)
    ensures Less(a, b) <==> Precedes(a, b)
  {
    if a == [] || b == [] || a[0] != b[0] {
      if Less(a, b) {
        assert FirstSmaller(a, b, 0);
      }
    } else {
      LessExactly(a[1..], b[1..]);
      if Less(a[1..], b[1..]) {
        var k: nat :| FirstSmaller(a[1..], b[1..], k);
        assert a[..k + 1] == [a[0]] + a[1..][..k] && b[..k + 1] == [b[0]] + b[1..][..k];
        assert FirstSmaller(a, b, k + 1);
      }
      if Precedes(a, b) {
        var k: nat :| FirstSmaller(a, b, k);
        assert k > 0 && a[1..][..k - 1] == a[..k][1..] && b[1..][..k - 1] == b[..k][1..];
        assert FirstSmaller(a[1..], b[1..], k - 1);
      }
    }
  }

  lemma {:induction false} LessIrreflexive(a: Bytes)
    ensures !Less(a, a)
  {
    if a != [] {
      LessIrreflexive(a[1..]);
    }
  }

  lemma {:induction false} LessTransitive(a: Bytes, b: Bytes, c: Bytes)
    requires Less(a, b) && Less(b, c)
    ensures Less(a, c)
  {
    if a != [] && a[0] == b[0] == c[0] {
      LessTransitive(a[1..], b[1..], c[1..]);
    }
  }

  lemma {:induction false} LessTotal(a: Bytes, b: Bytes)
    ensures Less(a, b) || Less(b, a) || a == b
  {
    if a != [] && b != [] && a[0] == b[0] {
      LessTotal(a[1..], b[1..]);
      assert a == [a[0]] + a[1..] && b == [b[0]] + b[1..];
    }
  }

  function Le16(v: u16): (r: Bytes)
    ensures |r| == 2
  {
    [v % 256, v / 256]
  }

  function Le32(v: u32): (r: Bytes)
    ensures |r| == 4
  {
    Le16(v % 0x1_0000) + Le16(v / 0x1_0000)
  }

  function ReadU16(bytes: Bytes, offset: nat): u16
    requires offset + 2 <= |bytes|
  {
    bytes[offset] as int + 256 * bytes[offset + 1] as int
  }

  function ReadU32(bytes: Bytes, offset: nat): u32
    requires offset + 4 <= |bytes|
  {
    ReadU16(bytes, offset) + 0x1_0000 * ReadU16(bytes, offset + 2)
  }

  /** The two bytes at `offset` make up `v`, the low byte first. */
  predicate Holds16(bytes: Bytes, offset: nat, v: nat) {
    offset + 2 <= |bytes| && v == bytes[offset] as int + 0x100 * bytes[offset + 1] as int
  }

  /** The four bytes at `offset` make up `v`, the low byte first. */
  predicate Holds32(bytes: Bytes, offset: nat, v: nat) {
    && offset + 4 <= |bytes|
    && v == bytes[offset] as int + 0x100 * bytes[offset + 1] as int
            + 0x1_0000 * bytes[offset + 2] as int + 0x100_0000 * bytes[offset + 3] as int
  }

  lemma ReadsHeld(bytes: Bytes, offset: nat)
    ensures offset + 2 <= |bytes| ==> forall v: nat :: ReadU16(bytes, offset) == v <==> Holds16(bytes, offset, v)
    ensures offset + 4 <= |bytes| ==> forall v: nat :: ReadU32(bytes, offset) == v <==> Holds32(bytes, offset, v)
  {
  }

  /** `part` is what `bytes` holds from `offset` on. */
  predicate At(bytes: Bytes, offset: nat, part: Bytes) {
    offset + |part| <= |bytes| && bytes[offset..offset + |part|] == part
  }

  lemma AtIndex(bytes: Bytes, offset: nat, part: Bytes, i: nat)
    requires At(bytes, offset, part) && i < |part|
    ensures bytes[offset + i] == part[i]
  {
  }

  /** A string is held somewhere exactly when its two pieces are held there side by side. */
  lemma AtConcat(bytes: Bytes, offset: nat, front: Bytes, back: Bytes)
    ensures At(bytes, offset, front + back) <==> At(bytes, offset, front) && At(bytes, offset + |front|, back)
  {
    if offset + |front| + |back| <= |bytes| {
      var middle := offset + |front|;
      assert bytes[offset..middle + |back|] == bytes[offset..middle] + bytes[middle..middle + |back|];
      if bytes[offset..middle] + bytes[middle..middle + |back|] == front + back {
        assert (front + back)[..|front|] == front && (front + back)[|front|..] == back;
      }
    }
  }

  /** Five strings held side by side. */
  lemma {:induction false} AtFive(bytes: Bytes, offset: nat, a: Bytes, b: Bytes, c: Bytes, d: Bytes, e: Bytes)
    requires At(bytes, offset, a + b + c + d + e)
    ensures At(bytes, offset, a) && At(bytes, offset + |a|, b) && At(bytes, offset + |a| + |b|, c)
    ensures At(bytes, offset + |a| + |b| + |c|, d) && At(bytes, offset + |a| + |b| + |c| + |d|, e)
  {
    hide At;
    AtConcat(bytes, offset, a + b + c + d, e);
    AtConcat(bytes, offset, a + b + c, d);
    AtConcat(bytes, offset, a + b, c);
    AtConcat(bytes, offset, a, b);
  }

  lemma Le16Reads(bytes: Bytes, offset: nat, v: u16)
    requires At(bytes, offset, Le16(v))
    ensures ReadU16(bytes, offset) == v
  {
  }

  lemma Le32Reads(bytes: Bytes, offset: nat, v: u32)
    requires At(bytes, offset, Le32(v))
    ensures ReadU32(bytes, offset) == v
  {
  }
}
