/** CBOR heads in shortest form, and the strings built on them (RFC 8949, section 3). */
module CborHead {
  import opened Bytes
  import opened Wrappers

  type Major = m: nat | m < 8

  function Pow256(n: nat): (p: nat)
    ensures p > 0
  {
    if n == 0 then 1 else 256 * Pow256(n - 1)
  }

  /** `value` as `n` bytes, most significant first. */
  function BigEndian(value: nat, n: nat): (r: Bytes)
    ensures |r| == n
  {
    if n == 0 then [] else BigEndian(value / 256, n - 1) + [value % 256]
  }

  function FromBigEndian(bytes: Bytes): nat {
    if bytes == [] then 0
    else 256 * FromBigEndian(bytes[..|bytes| - 1]) + bytes[|bytes| - 1]
  }

  lemma {:induction false} BigEndianReadsBack(value: nat, n: nat)
    requires value < Pow256(n)
    ensures FromBigEndian(BigEndian(value, n)) == value
  {
    if n > 0 {
      BigEndianReadsBack(value / 256, n - 1);
      assert BigEndian(value, n)[..n - 1] == BigEndian(value / 256, n - 1);
    }
  }

  /** Every byte string is the encoding of the number it stands for. */
  lemma {:induction false} FromBigEndianReadsBack(bytes: Bytes)
    ensures BigEndian(FromBigEndian(bytes), |bytes|) == bytes && FromBigEndian(bytes) < Pow256(|bytes|)
  {
    if bytes != [] {
      FromBigEndianReadsBack(bytes[..|bytes| - 1]);
      DivideBack(FromBigEndian(bytes[..|bytes| - 1]), bytes[|bytes| - 1]);
    }
  }

  lemma DivideBack(high: nat, low: byte)
    ensures (256 * high + low) / 256 == high && (256 * high + low) % 256 == low
  {
  }

  /** Major type and argument in the fewest bytes. */
  function Head(major: Major, value: u64): (r: Bytes)
    ensures r != []
  {
    if value <= 23 then [32 * major + value]
    else if value <= 0xff then [32 * major + 24] + BigEndian(value, 1)
    else if value <= 0xffff then [32 * major + 25] + BigEndian(value, 2)
    else if value <= 0xffff_ffff then [32 * major + 26] + BigEndian(value, 4)
    else [32 * major + 27] + BigEndian(value, 8)
  }

  /** The number of argument bytes announced by the low five bits of the first byte. */
  function ArgumentLength(info: nat): Option<nat> {
    if info <= 23 then Some(0)
    else if info == 24 then Some(1)
    else if info == 25 then Some(2)
    else if info == 26 then Some(4)
    else if info == 27 then Some(8)
    else None
  }

  datatype Decoded = Decoded(major: nat, value: nat, rest: Bytes)

  function ReadHead(bytes: Bytes): Option<Decoded> {
    if bytes == [] then None
    else
      var major, info := bytes[0] / 32, bytes[0] % 32;
      match ArgumentLength(info)
      case None => None
      case Some(n) =>
        if |bytes| < 1 + n then None
        else Some(Decoded(major, if n == 0 then info else FromBigEndian(bytes[1..1 + n]), bytes[1 + n..]))
  }

  lemma {:induction false} ReadLongHead(major: Major, info: nat, n: nat, value: nat, rest: Bytes)
    requires 24 <= info < 28 && ArgumentLength(info) == Some(n) && value < Pow256(n)
    ensures ReadHead([32 * major + info] + BigEndian(value, n) + rest) == Some(Decoded(major, value, rest))
  {
    hide BigEndian, FromBigEndian, Pow256;
    var bytes := [32 * major + info] + BigEndian(value, n) + rest;
    BigEndianReadsBack(value, n);
    assert bytes[0] / 32 == major && bytes[0] % 32 == info;
    assert bytes[1..1 + n] == BigEndian(value, n) && bytes[1 + n..] == rest;
  }

  lemma ReadShortHead(major: Major, value: nat, rest: Bytes)
    requires value < 24
    ensures ReadHead([32 * major + value] + rest) == Some(Decoded(major, value, rest))
  {
  }

  lemma NextDigit(bytes: Bytes, n: nat)
    requires n < |bytes|
    ensures FromBigEndian(bytes[..n + 1]) == 256 * FromBigEndian(bytes[..n]) + bytes[n] as int
  {
    assert bytes[..n + 1][..n] == bytes[..n];
  }

  /** What two and four bytes stand for, the most significant first. */
  lemma {:induction false} Digits(bytes: Bytes)
    ensures |bytes| >= 1 ==> FromBigEndian(bytes[..1]) == bytes[0] as int
    ensures |bytes| >= 2 ==> FromBigEndian(bytes[..2]) == 0x100 * bytes[0] as int + bytes[1] as int
    ensures |bytes| >= 4 ==>
              FromBigEndian(bytes[..4])
              == 0x100_0000 * bytes[0] as int + 0x1_0000 * bytes[1] as int + 0x100 * bytes[2] as int + bytes[3] as int
  {
    assert bytes[..0] == [] && FromBigEndian([]) == 0;
    hide FromBigEndian;
    if |bytes| >= 1 {
      NextDigit(bytes, 0);
    }
    if |bytes| >= 2 {
      NextDigit(bytes, 1);
    }
    if |bytes| >= 4 {
      NextDigit(bytes, 2);
      NextDigit(bytes, 3);
    }
  }

  lemma {:induction false} EightDigits(bytes: Bytes)
    requires |bytes| == 8
    ensures FromBigEndian(bytes)
            == 0x1_0000_0000 * (0x100_0000 * bytes[0] as int + 0x1_0000 * bytes[1] as int + 0x100 * bytes[2] as int
                                + bytes[3] as int)
               + (0x100_0000 * bytes[4] as int + 0x1_0000 * bytes[5] as int + 0x100 * bytes[6] as int + bytes[7] as int)
  {
    hide FromBigEndian;
    Digits(bytes);
    NextDigit(bytes, 4);
    NextDigit(bytes, 5);
    NextDigit(bytes, 6);
    NextDigit(bytes, 7);
    assert bytes[..8] == bytes;
  }

  /** The bytes of a head: the argument in the first byte, or in the fewest of one, two, four or eight after it. */
  lemma {:induction false} HeadBytes(major: Major, value: u64)
    ensures var head := Head(major, value);
            if value <= 23 then head == [32 * major + value]
            else if value <= 0xff then head == [32 * major + 24, value]
            else if value <= 0xffff then
              |head| == 3 && head[0] == 32 * major + 25 && value == 0x100 * head[1] as int + head[2] as int
            else if value <= 0xffff_ffff then
              && |head| == 5 && head[0] == 32 * major + 26
              && value == 0x100_0000 * head[1] as int + 0x1_0000 * head[2] as int + 0x100 * head[3] as int
                          + head[4] as int
            else
              && |head| == 9 && head[0] == 32 * major + 27
              && value == 0x1_0000_0000 * (0x100_0000 * head[1] as int + 0x1_0000 * head[2] as int
                                           + 0x100 * head[3] as int + head[4] as int)
                          + (0x100_0000 * head[5] as int + 0x1_0000 * head[6] as int + 0x100 * head[7] as int
                             + head[8] as int)
  {
    assert Pow256(1) == 0x100 && Pow256(2) == 0x1_0000 && Pow256(4) == 0x1_0000_0000;
    assert Pow256(8) == 0x1_0000_0000_0000_0000;
    hide FromBigEndian, BigEndian, Pow256;
    if 24 <= value <= 0xff {
      BigEndianReadsBack(value, 1);
      Digits(BigEndian(value, 1));
      assert BigEndian(value, 1)[..1] == BigEndian(value, 1);
    } else if 0xff < value <= 0xffff {
      BigEndianReadsBack(value, 2);
      Digits(BigEndian(value, 2));
      assert BigEndian(value, 2)[..2] == BigEndian(value, 2);
    } else if 0xffff < value <= 0xffff_ffff {
      BigEndianReadsBack(value, 4);
      Digits(BigEndian(value, 4));
      assert BigEndian(value, 4)[..4] == BigEndian(value, 4);
    } else if value > 0xffff_ffff {
      BigEndianReadsBack(value, 8);
      EightDigits(BigEndian(value, 8));
    }
  }

  /** A head is read back from the front of any string. */
  lemma {:induction false} HeadReadsBack(major: Major, value: u64, rest: Bytes)
    ensures ReadHead(Head(major, value) + rest) == Some(Decoded(major, value, rest))
  {
    assert Pow256(1) == 0x100 && Pow256(2) == 0x1_0000 && Pow256(4) == 0x1_0000_0000;
    assert Pow256(8) == 0x1_0000_0000_0000_0000;
    hide ReadHead, Pow256, BigEndian;
    if value <= 23 {
      ReadShortHead(major, value, rest);
    } else if value <= 0xff {
      ReadLongHead(major, 24, 1, value, rest);
    } else if value <= 0xffff {
      ReadLongHead(major, 25, 2, value, rest);
    } else if value <= 0xffff_ffff {
      ReadLongHead(major, 26, 4, value, rest);
    } else {
      ReadLongHead(major, 27, 8, value, rest);
    }
  }

  /** So heads are prefix-free. */
  lemma HeadPrefixFree(major: Major, value: u64, rest: Bytes, major': Major, value': u64, rest': Bytes)
    requires Head(major, value) + rest == Head(major', value') + rest'
    ensures major == major' && value == value' && rest == rest'
  {
    HeadReadsBack(major, value, rest);
    HeadReadsBack(major', value', rest');
  }

  predicate Encodable(bytes: Bytes) {
    |bytes| < 0x1_0000_0000_0000_0000
  }

  function Bstr(bytes: Bytes): Bytes
    requires Encodable(bytes)
  {
    Head(2, |bytes|) + bytes
  }

  function Tstr(text: Bytes): Bytes
    requires Encodable(text)
  {
    Head(3, |text|) + text
  }

  function Uint(value: u64): Bytes {
    Head(0, value)
  }

  /** Byte strings are prefix-free as well. */
  lemma BstrPrefixFree(a: Bytes, rest: Bytes, b: Bytes, rest': Bytes)
    requires Encodable(a) && Encodable(b)
    requires Bstr(a) + rest == Bstr(b) + rest'
    ensures a == b && rest == rest'
  {
    assert Bstr(a) + rest == Head(2, |a|) + (a + rest);
    assert Bstr(b) + rest' == Head(2, |b|) + (b + rest');
    HeadPrefixFree(2, |a|, a + rest, 2, |b|, b + rest');
    assert (a + rest)[..|a|] == a && (b + rest')[..|b|] == b;
    assert (a + rest)[|a|..] == rest && (b + rest')[|b|..] == rest';
  }

  /** ASCII text as bytes. */
  function Ascii(text: string): (r: Bytes)
    requires forall i :: 0 <= i < |text| ==> text[i] < 128 as char
    ensures |r| == |text|
  {
    seq(|text|, i requires 0 <= i < |text| => text[i] as int)
  }
}
