/** Recovering the bytes an author hashed from a canonical event, by stripping its last map entry. */
module AuthoredEvent {
  import opened Bytes
  import opened CborHead
  import opened Wrappers

  function HashKey(): (r: Bytes) {
    Tstr(Ascii("author_event_hash"))
  }

  /** The header of a 32-byte string. */
  function HashHead(): Bytes {
    [0x58, 0x20]
  }

  predicate OccursAt(bytes: Bytes, part: Bytes, i: int) {
    0 <= i <= |bytes| - |part| && bytes[i..i + |part|] == part
  }

  /** The last occurrence of `part` that starts before `end`. */
  function LastOccurrence(bytes: Bytes, part: Bytes, end: nat): (r: Option<nat>)
    ensures match r
            case None => forall i :: 0 <= i < end ==> !OccursAt(bytes, part, i)
            case Some(last) =>
              last < end && OccursAt(bytes, part, last) && forall i :: last < i < end ==> !OccursAt(bytes, part, i)
  {
    if end == 0 then None
    else if OccursAt(bytes, part, end - 1) then Some(end - 1)
    else LastOccurrence(bytes, part, end - 1)
  }

  /** A canonical event is a map, so it does not begin with a text string. */
  function AuthoredPreimage(canonical: Bytes): Option<Bytes>
    requires canonical != [] ==> canonical[0] / 32 != 3
  {
    match LastOccurrence(canonical, HashKey(), |canonical|)
    case None => None
    case Some(position) =>
      KeyShape();
      assert canonical[position] == canonical[position..position + 18][0];
      var value := position + |HashKey()|;
      if |canonical| != value + 34 then None
      else if canonical[value] != 0x58 || canonical[value + 1] != 0x20 then None
      else if canonical[0] == 0 then None
      else Some([canonical[0] - 1] + canonical[1..position])
  }

  /** An event map of `fields` entries with the author's hash appended as one entry more. */
  function Appended(fields: nat, entries: Bytes, hash: Bytes): Bytes
    requires fields + 1 < 0x1_0000_0000_0000_0000
  {
    Head(5, fields + 1) + entries + HashKey() + HashHead() + hash
  }

  lemma KeyShape()
    ensures |HashKey()| == 18 && HashKey()[0] == 0x71
    ensures forall i :: 0 < i < 18 ==> HashKey()[i] != 0x71
  {
  }

  lemma KeyText()
    ensures HashKey() == [0x71] + Ascii("author_event_hash")
  {
  }

  /** The key shows up again within the value that follows it. */
  ghost predicate HidesKey(hash: Bytes) {
    exists i :: OccursAt(hash, HashKey(), i)
  }

  /** After the key at `position`, the key can only begin within the hash. */
  lemma NoLaterKey(canonical: Bytes, front: Bytes, hash: Bytes, i: nat)
    requires canonical == front + HashKey() + HashHead() + hash
    requires |front| < i && OccursAt(canonical, HashKey(), i)
    ensures i >= |front| + 20 && OccursAt(hash, HashKey(), i - |front| - 20)
  {
    KeyShape();
    assert canonical[i] == canonical[i..i + 18][0] == 0x71;
    assert forall k :: |front| < k < |front| + 18 ==> canonical[k] == HashKey()[k - |front|];
    assert canonical[|front| + 18] == 0x58 && canonical[|front| + 19] == 0x20;
    assert canonical[i..i + 18] == hash[i - |front| - 20..i - |front| - 2];
  }

  lemma KeyAgain(canonical: Bytes, front: Bytes, hash: Bytes, i: nat)
    requires canonical == front + HashKey() + HashHead() + hash && OccursAt(hash, HashKey(), i)
    ensures OccursAt(canonical, HashKey(), |front| + 20 + i)
  {
  }

  lemma LocatesKey(canonical: Bytes, front: Bytes, hash: Bytes)
    requires canonical == front + HashKey() + HashHead() + hash
    ensures (LastOccurrence(canonical, HashKey(), |canonical|) == Some(|front|)) <==> !HidesKey(hash)
  {
    KeyShape();
    assert canonical[|front|..|front| + 18] == HashKey();
    assert OccursAt(canonical, HashKey(), |front|);
    if HidesKey(hash) {
      var i :| OccursAt(hash, HashKey(), i);
      KeyAgain(canonical, front, hash, i);
    } else {
      var last := LastOccurrence(canonical, HashKey(), |canonical|).value;
      if last != |front| {
        NoLaterKey(canonical, front, hash, last);
      }
    }
  }

  lemma {:induction false} RecoveredFrom(canonical: Bytes, authored: Bytes) returns (hash: Bytes)
    requires (canonical != [] ==> canonical[0] / 32 != 3) && AuthoredPreimage(canonical) == Some(authored)
    ensures authored != [] && authored[0] < 255 && |hash| == 32 && !HidesKey(hash)
    ensures canonical == [authored[0] + 1] + authored[1..] + HashKey() + HashHead() + hash
  {
    KeyShape();
    hide HashKey;
    var position := LastOccurrence(canonical, HashKey(), |canonical|).value;
    var front := canonical[..position];
    hash := canonical[position + 20..];
    assert authored[1..] == canonical[1..position];
    assert front == [authored[0] + 1] + authored[1..];
    assert canonical[position + 18..position + 20] == HashHead();
    assert canonical == front + HashKey() + HashHead() + hash;
    LocatesKey(canonical, front, hash);
  }

  lemma {:induction false} Recovers(canonical: Bytes, authored: Bytes, hash: Bytes)
    requires canonical != [] ==> canonical[0] / 32 != 3
    requires authored != [] && authored[0] < 255 && |hash| == 32 && !HidesKey(hash)
    requires canonical == [authored[0] + 1] + authored[1..] + HashKey() + HashHead() + hash
    ensures AuthoredPreimage(canonical) == Some(authored)
  {
    KeyShape();
    hide HashKey;
    var front := [authored[0] + 1] + authored[1..];
    LocatesKey(canonical, front, hash);
    assert canonical[1..|front|] == authored[1..] && canonical[0] == front[0];
    assert [canonical[0] - 1] + canonical[1..|front|] == authored;
    assert canonical[|front| + 18] == HashHead()[0] && canonical[|front| + 19] == HashHead()[1];
  }

  /** What is recovered, exactly: a front with its head lowered, ahead of the key and a 32-byte string without it. */
  lemma {:induction false} RecoveredExactly(canonical: Bytes, authored: Bytes)
    requires canonical != [] ==> canonical[0] / 32 != 3
    ensures AuthoredPreimage(canonical) == Some(authored)
            <==> authored != [] && authored[0] < 255
                 && exists hash :: |hash| == 32 && !HidesKey(hash)
                                   && canonical == [authored[0] + 1] + authored[1..]
                                                   + ([0x71] + Ascii("author_event_hash")) + [0x58, 0x20] + hash
  {
    KeyText();
    assert HashHead() == [0x58, 0x20];
    hide AuthoredPreimage, Ascii, HidesKey, HashKey, HashHead;
    if AuthoredPreimage(canonical) == Some(authored) {
      var hash := RecoveredFrom(canonical, authored);
    }
    if authored != [] && authored[0] < 255 {
      forall hash | |hash| == 32 && !HidesKey(hash)
                    && canonical == [authored[0] + 1] + authored[1..] + HashKey() + HashHead() + hash
        ensures AuthoredPreimage(canonical) == Some(authored)
      {
        Recovers(canonical, authored, hash);
      }
    }
  }

  /**
   * Stripping an appended hash recovers the original map exactly when the map had at most 22 entries, so that its head
   * is one byte before and after, and the hash does not contain the key.
   */
  lemma StripsAppendedExactly(fields: nat, entries: Bytes, hash: Bytes)
    requires fields + 1 < 0x1_0000_0000_0000_0000 && |hash| == 32
    ensures var canonical := Appended(fields, entries, hash);
            && canonical[0] / 32 != 3
            && (AuthoredPreimage(canonical) == Some(Head(5, fields) + entries) <==> fields <= 22 && !HidesKey(hash))
  {
    var canonical, original := Appended(fields, entries, hash), Head(5, fields) + entries;
    assert canonical[0] == Head(5, fields + 1)[0] && original[0] == Head(5, fields)[0];
    var front := Head(5, fields + 1) + entries;
    LocatesKey(canonical, front, hash);
    KeyShape();
    RecoveredExactly(canonical, original);
    if fields <= 22 {
      assert front == [original[0] + 1] + original[1..];
    } else {
      assert |front| != |original| || front[0] != original[0] + 1;
    }
  }
}
