/** The byte strings that are hashed or signed, and why none of them stands for two inputs. */
module Preimages {
  import opened Bytes
  import opened CborHead

  lemma SameFront(front: Bytes, a: Bytes, b: Bytes)
    requires front + a == front + b
    ensures a == b
  {
    assert (front + a)[|front|..] == a && (front + b)[|front|..] == b;
  }

  /** Regrouping around a byte string in the middle. */
  lemma {:induction false} SameMiddle(front: Bytes, scope: Bytes, scope': Bytes, tail: Bytes, tail': Bytes)
    requires Encodable(scope) && Encodable(scope')
    requires front + Bstr(scope) + tail == front + Bstr(scope') + tail'
    ensures scope == scope' && tail == tail'
  {
    hide Bstr;
    assert front + Bstr(scope) + tail == front + (Bstr(scope) + tail);
    assert front + Bstr(scope') + tail' == front + (Bstr(scope') + tail');
    SameFront(front, Bstr(scope) + tail, Bstr(scope') + tail');
    BstrPrefixFree(scope, tail, scope', tail');
  }

  // ----- The COSE signature input -----

  /** The `Sig_structure` of RFC 9052, section 4.4, with an empty external field. */
  function SigStructure(protectedHeader: Bytes, payload: Bytes): Bytes
    requires Encodable(protectedHeader) && Encodable(payload)
  {
    [0x84] + Tstr(Ascii("Signature1")) + Bstr(protectedHeader) + ([0x40] + Bstr(payload))
  }

  lemma {:induction false} SigStructureInjective(header: Bytes, payload: Bytes, header': Bytes, payload': Bytes)
    requires Encodable(header) && Encodable(payload) && Encodable(header') && Encodable(payload')
    ensures SigStructure(header, payload) == SigStructure(header', payload')
            <==> header == header' && payload == payload'
  {
    if SigStructure(header, payload) == SigStructure(header', payload') {
      hide Tstr, Ascii, Bstr;
      SameMiddle([0x84] + Tstr(Ascii("Signature1")), header, header', [0x40] + Bstr(payload), [0x40] + Bstr(payload'));
      assert [0x40] + Bstr(payload) + [] == [0x40] + Bstr(payload);
      assert [0x40] + Bstr(payload') + [] == [0x40] + Bstr(payload');
      SameMiddle([0x40], payload, payload', [], []);
    }
  }

  // ----- Domain-separated hashing -----

  /** The number of lengths that a prefix tells apart. */
  const LENGTHS: nat := 0x1_0000_0000

  /** The length prefix, truncated to 32 bits as a word cast does. */
  function LengthPrefix(bytes: Bytes): (r: Bytes)
    ensures |r| == 4
  {
    BigEndian(|bytes| % LENGTHS, 4)
  }

  function DomainPreimage(tag: Bytes, component: Bytes): Bytes {
    LengthPrefix(tag) + tag + LengthPrefix(component) + component
  }

  /** Four bytes, the most significant first, that make up `n`. */
  predicate FourBytesOf(bytes: Bytes, n: nat) {
    && |bytes| == 4
    && n == 0x100_0000 * bytes[0] as int + 0x1_0000 * bytes[1] as int + 0x100 * bytes[2] as int + bytes[3] as int
  }

  /** Tag and component follow one another, each after its length in four bytes. */
  lemma {:induction false} DomainPreimageBytes(tag: Bytes, component: Bytes) returns (a: Bytes, b: Bytes)
    ensures DomainPreimage(tag, component) == a + tag + b + component
    ensures FourBytesOf(a, |tag| % 0x1_0000_0000) && FourBytesOf(b, |component| % 0x1_0000_0000)
  {
    a, b := LengthPrefix(tag), LengthPrefix(component);
    LengthPrefixReadsBack(tag);
    LengthPrefixReadsBack(component);
    hide LengthPrefix, FromBigEndian;
    Digits(a);
    Digits(b);
    assert a[..4] == a && b[..4] == b;
  }

  lemma Pow256Of4()
    ensures Pow256(4) == LENGTHS
  {
  }

  lemma {:induction false} LengthPrefixReadsBack(a: Bytes)
    ensures FromBigEndian(LengthPrefix(a)) == |a| % LENGTHS
  {
    hide BigEndian, FromBigEndian, Pow256;
    Pow256Of4();
    BigEndianReadsBack(|a| % LENGTHS, 4);
  }

  /** Four bytes are the prefix of every string whose length they stand for, up to truncation. */
  lemma {:induction false} PrefixOfLength(prefix: Bytes, a: Bytes)
    requires |prefix| == 4 && |a| % LENGTHS == FromBigEndian(prefix)
    ensures LengthPrefix(a) == prefix
  {
    hide BigEndian, FromBigEndian;
    FromBigEndianReadsBack(prefix);
  }

  /** One tag keeps all components apart. */
  lemma {:induction false} SameTagBinds(tag: Bytes, component: Bytes, component': Bytes)
    ensures DomainPreimage(tag, component) == DomainPreimage(tag, component') <==> component == component'
  {
    hide LengthPrefix;
    if DomainPreimage(tag, component) == DomainPreimage(tag, component') {
      var front, rest, rest' :=
        LengthPrefix(tag) + tag, LengthPrefix(component) + component, LengthPrefix(component') + component';
      assert DomainPreimage(tag, component) == front + rest && DomainPreimage(tag, component') == front + rest';
      SameFront(front, rest, rest');
      assert rest[4..] == component && rest'[4..] == component';
    }
  }

  lemma {:induction false} MeetingTags(tag: Bytes, component: Bytes, tag': Bytes, component': Bytes)
    requires DomainPreimage(tag, component) == DomainPreimage(tag', component')
    ensures |tag| % LENGTHS == |tag'| % LENGTHS && (tag <= tag' || tag' <= tag)
  {
    hide LengthPrefix;
    var whole := DomainPreimage(tag, component);
    assert whole[..4] == LengthPrefix(tag) && whole[..4] == LengthPrefix(tag');
    LengthPrefixReadsBack(tag);
    LengthPrefixReadsBack(tag');
    assert whole[4..4 + |tag|] == tag && whole[4..4 + |tag'|] == tag';
    if |tag| <= |tag'| {
      assert tag == tag'[..|tag|];
    } else {
      assert tag' == tag[..|tag'|];
    }
  }

  /** The component that completes a longer tag to a collision with its own beginning. */
  function Completion(extra: Bytes): (component: Bytes)
    requires |extra| >= 4
    ensures |component| == FromBigEndian(extra[..4])
  {
    seq(FromBigEndian(extra[..4]), i => 0)
  }

  lemma {:induction false} LongerTagCollides(tag: Bytes, extra: Bytes)
    requires |extra| > 0 && |extra| % LENGTHS == 0
    ensures |extra| >= 4
    ensures var c' := Completion(extra);
            DomainPreimage(tag, extra[4..] + LengthPrefix(c') + c') == DomainPreimage(tag + extra, c')
  {
    hide LengthPrefix, FromBigEndian, Completion;
    var c' := Completion(extra);
    var c := extra[4..] + LengthPrefix(c') + c';
    FromBigEndianReadsBack(extra[..4]);
    Pow256Of4();
    AddsMultiple(|c'|, |extra|);
    PrefixOfLength(extra[..4], c);
    AddsMultiple(|tag|, |extra|);
    SamePrefix(tag, tag + extra);
    assert extra == extra[..4] + extra[4..];
  }

  lemma AddsMultiple(n: nat, multiple: nat)
    requires multiple % LENGTHS == 0
    ensures (n + multiple) % LENGTHS == n % LENGTHS
  {
  }

  lemma SamePrefix(a: Bytes, b: Bytes)
    requires |a| % LENGTHS == |b| % LENGTHS
    ensures LengthPrefix(a) == LengthPrefix(b)
  {
  }

  /** Some components make the two tags stand for one preimage. */
  ghost predicate Meet(tag: Bytes, tag': Bytes) {
    exists component, component' :: DomainPreimage(tag, component) == DomainPreimage(tag', component')
  }

  lemma {:induction false} PrefixesMeet(tag: Bytes, tag': Bytes)
    requires |tag| % LENGTHS == |tag'| % LENGTHS && tag < tag'
    ensures Meet(tag, tag') && Meet(tag', tag)
  {
    hide DomainPreimage, LengthPrefix, Completion;
    var extra := tag'[|tag|..];
    assert tag' == tag + extra;
    RemovesMultiple(|tag|, |extra|);
    LongerTagCollides(tag, extra);
    var c' := Completion(extra);
    var c := extra[4..] + LengthPrefix(c') + c';
    assert DomainPreimage(tag, c) == DomainPreimage(tag', c');
  }

  lemma RemovesMultiple(n: nat, more: nat)
    requires (n + more) % LENGTHS == n % LENGTHS
    ensures more % LENGTHS == 0
  {
  }

  /** Two tags meet exactly when one begins the other and their lengths agree up to truncation. */
  lemma {:induction false} TagsMeetExactly(tag: Bytes, tag': Bytes)
    ensures Meet(tag, tag') <==> |tag| % LENGTHS == |tag'| % LENGTHS && (tag <= tag' || tag' <= tag)
  {
    hide DomainPreimage;
    if Meet(tag, tag') {
      var c, c' :| DomainPreimage(tag, c) == DomainPreimage(tag', c');
      MeetingTags(tag, c, tag', c');
    }
    if tag == tag' {
      assert DomainPreimage(tag, []) == DomainPreimage(tag', []);
    } else if |tag| % LENGTHS == |tag'| % LENGTHS {
      if tag < tag' {
        PrefixesMeet(tag, tag');
      } else if tag' < tag {
        PrefixesMeet(tag', tag);
      }
    }
  }

  /** Tags below four gibibytes never collide, whatever the length of the component. */
  lemma {:induction false} DomainPreimageInjective(tag: Bytes, component: Bytes, tag': Bytes, component': Bytes)
    requires |tag| < LENGTHS && |tag'| < LENGTHS
    ensures DomainPreimage(tag, component) == DomainPreimage(tag', component')
            <==> tag == tag' && component == component'
  {
    hide DomainPreimage;
    if DomainPreimage(tag, component) == DomainPreimage(tag', component') {
      MeetingTags(tag, component, tag', component');
      assert |tag| == |tag'| && tag == tag'[..|tag|] == tag';
      SameTagBinds(tag, component, component');
    }
  }

  /** Every longer tag collides with the short tag it begins with. */
  lemma {:induction false} LongTagsCollide(tag: Bytes)
    requires |tag| >= LENGTHS
    ensures Meet(tag, tag[..|tag| % LENGTHS])
  {
    hide DomainPreimage, Meet;
    var short := tag[..|tag| % LENGTHS];
    assert short < tag && |short| % LENGTHS == |tag| % LENGTHS;
    PrefixesMeet(short, tag);
  }

  /** No preimage under this tag is one under a tag below four gibibytes, but for the same tag and component. */
  ghost predicate KeptApart(tag: Bytes) {
    forall component, tag', component' ::
      |tag'| < LENGTHS && DomainPreimage(tag, component) == DomainPreimage(tag', component') ==>
        tag == tag' && component == component'
  }

  /** A tag is kept apart from all tags below four gibibytes exactly if it is below that itself. */
  lemma {:induction false} KeptApartExactly(tag: Bytes)
    ensures KeptApart(tag) <==> |tag| < LENGTHS
  {
    hide DomainPreimage;
    if |tag| < LENGTHS {
      forall component, tag', component' |
        |tag'| < LENGTHS && DomainPreimage(tag, component) == DomainPreimage(tag', component')
        ensures tag == tag' && component == component'
      {
        DomainPreimageInjective(tag, component, tag', component');
      }
    } else {
      LongTagsCollide(tag);
      var tag' := tag[..|tag| % LENGTHS];
      var c, c' :| DomainPreimage(tag, c) == DomainPreimage(tag', c');
      assert |tag'| < LENGTHS && |tag'| < |tag|;
    }
  }

  // ----- The canonical event -----

  function EventFront(): Bytes {
    [0xa3] + Tstr(Ascii("version")) + Uint(1) + Tstr(Ascii("ledger_scope"))
  }

  function CanonicalPreimage(scope: Bytes, event: Bytes): Bytes
    requires Encodable(scope)
  {
    EventFront() + Bstr(scope) + (Tstr(Ascii("event_payload")) + event)
  }

  lemma {:induction false} CanonicalPreimageInjective(scope: Bytes, event: Bytes, scope': Bytes, event': Bytes)
    requires Encodable(scope) && Encodable(scope')
    ensures CanonicalPreimage(scope, event) == CanonicalPreimage(scope', event') <==> scope == scope' && event == event'
  {
    if CanonicalPreimage(scope, event) == CanonicalPreimage(scope', event') {
      var key := Tstr(Ascii("event_payload"));
      hide Tstr, EventFront, Bstr, Ascii;
      SameMiddle(EventFront(), scope, scope', key + event, key + event');
      SameFront(key, event, event');
    }
  }
}
