/** The deterministic STORED-only ZIP writer and its reader. The checksum is a parameter. */
module Zip {
  import opened Bytes
  import opened Sorting
  import opened Wrappers

  const VERSION: u16 := 20
  const GENERAL_PURPOSE_BITS: u16 := 0
  const COMPRESSION_STORED: u16 := 0
  const FIXED_TIME: u16 := 0
  const FIXED_DATE: u16 := 33
  const LOCAL_SIGNATURE: u32 := 0x0403_4b50
  const CENTRAL_SIGNATURE: u32 := 0x0201_4b50
  const EOCD_SIGNATURE: u32 := 0x0605_4b50
  const EOCD_LEN: nat := 22
  const LOCAL_HEADER_LEN: nat := 30
  const CENTRAL_HEADER_LEN: nat := 46

  type Crc = Bytes -> u32

  /** A path is given by its UTF-8 bytes. */
  datatype Entry = Entry(path: Bytes, bytes: Bytes)

  datatype ZipError =
    | DuplicatePath | NotAscii | EntryTooLarge | PathTooLong
    | OffsetTooLarge | CentralOffsetTooLarge | CentralSizeTooLarge | TooManyEntries
    | TooShort | NoEndRecord | MultiDisk | EntryCountMismatch | ArchiveComment
    | CentralOutOfBounds | CentralSizeOutOfBounds | CentralSizeMismatch
    | TruncatedCentral | MissingCentralSignature | TruncatedName
    | UnsupportedFlags | UnsupportedCompression | SizeMismatch | ExtraField | EntryComment
    | TruncatedLocal | MissingLocalSignature | CrcMismatch | NameMismatch | TruncatedPayload

  // ----- Writing -----

  /** Needed version, flags, compression and the fixed time stamp: what no entry changes. */
  function FixedFields(): (r: Bytes)
    ensures |r| == 10
  {
    Le16(VERSION) + Le16(GENERAL_PURPOSE_BITS) + Le16(COMPRESSION_STORED) + Le16(FIXED_TIME) + Le16(FIXED_DATE)
  }

  /** Checksum, both sizes, path length and extra-field length. */
  function EntryFields(crc: u32, size: u32, pathLen: u16): (r: Bytes)
    ensures |r| == 16
  {
    Le32(crc) + Le32(size) + Le32(size) + Le16(pathLen) + Le16(0)
  }

  /** Comment length, disk number, attributes and local offset of a central header. */
  function CentralFields(localOffset: u32): (r: Bytes)
    ensures |r| == 14
  {
    Le16(0) + Le16(0) + Le16(0) + Le32(0) + Le32(localOffset)
  }

  function LocalHeader(crc: u32, size: u32, pathLen: u16): (r: Bytes)
    ensures |r| == LOCAL_HEADER_LEN
  {
    Le32(LOCAL_SIGNATURE) + FixedFields() + EntryFields(crc, size, pathLen)
  }

  function CentralHeader(crc: u32, size: u32, pathLen: u16, localOffset: u32): (r: Bytes)
    ensures |r| == CENTRAL_HEADER_LEN
  {
    Le32(CENTRAL_SIGNATURE) + Le16(VERSION) + FixedFields() + EntryFields(crc, size, pathLen)
    + CentralFields(localOffset)
  }

  function EndCounts(count: u16): (r: Bytes)
    ensures |r| == 12
  {
    Le32(EOCD_SIGNATURE) + Le16(0) + Le16(0) + Le16(count) + Le16(count)
  }

  function EndRecord(count: u16, centralSize: u32, centralOffset: u32): (r: Bytes)
    ensures |r| == EOCD_LEN
  {
    EndCounts(count) + Le32(centralSize) + Le32(centralOffset) + Le16(0)
  }

  /** The first check that `entry`, to be stored at `offset`, fails. */
  function EntryError(entry: Entry, offset: nat): Option<ZipError> {
    if !IsAscii(entry.path) then Some(NotAscii)
    else if |entry.bytes| >= 0x1_0000_0000 then Some(EntryTooLarge)
    else if |entry.path| >= 0x1_0000 then Some(PathTooLong)
    else if offset >= 0x1_0000_0000 then Some(OffsetTooLarge)
    else None
  }

  function LocalSection(crc: Crc, entry: Entry): Bytes
    requires EntryError(entry, 0) == None
  {
    LocalHeader(crc(entry.bytes), |entry.bytes|, |entry.path|) + entry.path + entry.bytes
  }

  function CentralRecord(crc: Crc, entry: Entry, offset: nat): Bytes
    requires EntryError(entry, offset) == None
  {
    CentralHeader(crc(entry.bytes), |entry.bytes|, |entry.path|, offset) + entry.path
  }

  datatype Sections = Sections(local: Bytes, central: Bytes)

  /** The local and central sections of entries stored from `offset` on. */
  function Emit(crc: Crc, entries: seq<Entry>, offset: nat): Result<Sections, ZipError> {
    if entries == [] then Ok(Sections([], []))
    else
      match EntryError(entries[0], offset)
      case Some(error) => Err(error)
      case None =>
        var local := LocalSection(crc, entries[0]);
        After(local, CentralRecord(crc, entries[0], offset), Emit(crc, entries[1..], offset + |local|))
  }

  /** Sections already written, followed by what the rest of the entries give. */
  function After(local: Bytes, central: Bytes, rest: Result<Sections, ZipError>): Result<Sections, ZipError> {
    match rest
    case Err(error) => Err(error)
    case Ok(sections) => Ok(Sections(local + sections.local, central + sections.central))
  }

  lemma AfterNothing(local: Bytes, central: Bytes, rest: Result<Sections, ZipError>)
    ensures After([], [], rest) == rest
    ensures After(local, central, Ok(Sections([], []))) == Ok(Sections(local, central))
  {
    assert local + [] == local && central + [] == central;
    if rest.Ok? {
      assert [] + rest.value.local == rest.value.local && [] + rest.value.central == rest.value.central;
    }
  }

  lemma AfterTwice(local: Bytes, central: Bytes, local': Bytes, central': Bytes, rest: Result<Sections, ZipError>)
    ensures After(local, central, After(local', central', rest)) == After(local + local', central + central', rest)
  {
    if rest.Ok? {
      assert local + (local' + rest.value.local) == (local + local') + rest.value.local;
      assert central + (central' + rest.value.central) == (central + central') + rest.value.central;
    }
  }

  function PathOf(entry: Entry): Bytes {
    entry.path
  }

  /** The whole archive: local sections, central directory, end record. */
  function Archive(crc: Crc, entries: seq<Entry>): Result<Bytes, ZipError> {
    var sorted := Sort(PathOf, entries);
    if HasEqualNeighbours(PathOf, sorted) then Err(DuplicatePath)
    else
      match Emit(crc, sorted, 0)
      case Err(error) => Err(error)
      case Ok(sections) =>
        if |sections.local| >= 0x1_0000_0000 then Err(CentralOffsetTooLarge)
        else if |sections.central| >= 0x1_0000_0000 then Err(CentralSizeTooLarge)
        else if |sorted| >= 0x1_0000 then Err(TooManyEntries)
        else Ok(sections.local + sections.central + EndRecord(|sorted|, |sections.central|, |sections.local|))
  }

  class Bundle {
    var entries: seq<Entry>

    constructor ()
      ensures entries == []
    {
      entries := [];
    }

    method AddEntry(entry: Entry)
      modifies this
      ensures entries == old(entries) + [entry]
    {
      entries := entries + [entry];
    }

    method ToZipBytes(crc: Crc) returns (r: Result<Bytes, ZipError>)
      ensures r == Archive(crc, entries)
    {
      hide Sort, LocalSection, CentralRecord, EndRecord;
      var sorted := Sort(PathOf, entries);
      if HasEqualNeighbours(PathOf, sorted) {
        return Err(DuplicatePath);
      }
      var locals, centrals, offset := [], [], 0;
      assert sorted[0..] == sorted;
      AfterNothing([], [], Emit(crc, sorted, 0));
      for i := 0 to |sorted|
        invariant offset == |locals|
        invariant Emit(crc, sorted, 0) == After(locals, centrals, Emit(crc, sorted[i..], offset))
      {
        var entry := sorted[i];
        match EntryError(entry, offset) {
          case Some(error) => return Err(error);
          case None =>
        }
        var local, central := LocalSection(crc, entry), CentralRecord(crc, entry, offset);
        assert sorted[i..][1..] == sorted[i + 1..];
        AfterTwice(locals, centrals, local, central, Emit(crc, sorted[i + 1..], offset + |local|));
        offset := offset + |local|;
        locals := locals + local;
        centrals := centrals + central;
      }
      AfterNothing(locals, centrals, Ok(Sections([], [])));
      if |locals| >= 0x1_0000_0000 {
        return Err(CentralOffsetTooLarge);
      }
      if |centrals| >= 0x1_0000_0000 {
        return Err(CentralSizeTooLarge);
      }
      if |sorted| >= 0x1_0000 {
        return Err(TooManyEntries);
      }
      return Ok(locals + centrals + EndRecord(|sorted|, |centrals|, |locals|));
    }
  }

  // ----- Reading -----

  function ReadLocalFilePayload(crc: Crc, bytes: Bytes, offset: nat, name: Bytes, expectedCrc: u32,
                                compressedSize: nat, uncompressedSize: nat): (r: Result<Bytes, ZipError>)
    ensures r.Ok? ==> |r.value| + LOCAL_HEADER_LEN + |name| <= |bytes| && crc(r.value) == expectedCrc
  {
    if offset + LOCAL_HEADER_LEN > |bytes| then Err(TruncatedLocal)
    else if ReadU32(bytes, offset) != LOCAL_SIGNATURE then Err(MissingLocalSignature)
    else if ReadU16(bytes, offset + 6) != GENERAL_PURPOSE_BITS then Err(UnsupportedFlags)
    else if ReadU16(bytes, offset + 8) != COMPRESSION_STORED then Err(UnsupportedCompression)
    else if ReadU32(bytes, offset + 14) != expectedCrc then Err(CrcMismatch)
    else if ReadU32(bytes, offset + 18) != compressedSize then Err(SizeMismatch)
    else if ReadU32(bytes, offset + 22) != uncompressedSize then Err(SizeMismatch)
    else if ReadU16(bytes, offset + 28) != 0 then Err(ExtraField)
    else if ReadU16(bytes, offset + 26) != |name| then Err(NameMismatch)
    else
      var nameStart := offset + LOCAL_HEADER_LEN;
      var nameEnd := nameStart + |name|;
      if nameEnd > |bytes| then Err(TruncatedName)
      else if bytes[nameStart..nameEnd] != name then Err(NameMismatch)
      else if nameEnd + compressedSize > |bytes| then Err(TruncatedPayload)
      else
        var payload := bytes[nameEnd..nameEnd + compressedSize];
        if crc(payload) != expectedCrc then Err(CrcMismatch) else Ok(payload)
  }

  datatype Step = Step(entry: Entry, next: nat)

  /** Reads the central directory record at `cursor` and the local section it points to. */
  function ReadCentralRecord(crc: Crc, bytes: Bytes, cursor: nat): (r: Result<Step, ZipError>)
    ensures r.Ok? ==> IsAscii(r.value.entry.path)
                      && |r.value.entry.path| + |r.value.entry.bytes| + LOCAL_HEADER_LEN <= |bytes|
  {
    if cursor + CENTRAL_HEADER_LEN > |bytes| then Err(TruncatedCentral)
    else if ReadU32(bytes, cursor) != CENTRAL_SIGNATURE then Err(MissingCentralSignature)
    else if ReadU16(bytes, cursor + 8) != GENERAL_PURPOSE_BITS then Err(UnsupportedFlags)
    else if ReadU16(bytes, cursor + 10) != COMPRESSION_STORED then Err(UnsupportedCompression)
    else if ReadU32(bytes, cursor + 20) != ReadU32(bytes, cursor + 24) then Err(SizeMismatch)
    else if ReadU16(bytes, cursor + 30) != 0 then Err(ExtraField)
    else if ReadU16(bytes, cursor + 32) != 0 then Err(EntryComment)
    else
      var next := cursor + CENTRAL_HEADER_LEN + ReadU16(bytes, cursor + 28);
      if next > |bytes| then Err(TruncatedCentral)
      else
        var name := bytes[cursor + CENTRAL_HEADER_LEN..next];
        if !IsAscii(name) then Err(NotAscii)
        else
          match ReadLocalFilePayload(crc, bytes, ReadU32(bytes, cursor + 42), name, ReadU32(bytes, cursor + 16),
                                     ReadU32(bytes, cursor + 20), ReadU32(bytes, cursor + 24))
          case Err(error) => Err(error)
          case Ok(payload) => Ok(Step(Entry(name, payload), next))
  }

  datatype Scan = Scan(entries: seq<Entry>, end: nat)

  /** Reads `count` central directory records from `cursor` on. */
  function ReadCentralRecords(crc: Crc, bytes: Bytes, cursor: nat, count: nat): (r: Result<Scan, ZipError>)
    decreases count
  {
    if count == 0 then Ok(Scan([], cursor))
    else
      match ReadCentralRecord(crc, bytes, cursor)
      case Err(error) => Err(error)
      case Ok(step) =>
        AfterEntries([step.entry], ReadCentralRecords(crc, bytes, step.next, count - 1))
  }

  /** The last end-record signature at or before `index`. */
  function LastSignature(bytes: Bytes, index: nat): (r: Result<nat, ZipError>)
    requires index + EOCD_LEN <= |bytes|
    ensures r.Ok? ==> r.value <= index
  {
    if ReadU32(bytes, index) == EOCD_SIGNATURE then Ok(index)
    else if index == 0 then Err(NoEndRecord)
    else LastSignature(bytes, index - 1)
  }

  function Entries(crc: Crc, bytes: Bytes): (r: Result<seq<Entry>, ZipError>) {
    if |bytes| < EOCD_LEN then Err(TooShort)
    else
      match LastSignature(bytes, |bytes| - EOCD_LEN)
      case Err(error) => Err(error)
      case Ok(eocd) =>
        var total := ReadU16(bytes, eocd + 10);
        var centralSize, centralOffset := ReadU32(bytes, eocd + 12), ReadU32(bytes, eocd + 16);
        if ReadU16(bytes, eocd + 4) != 0 || ReadU16(bytes, eocd + 6) != 0 then Err(MultiDisk)
        else if ReadU16(bytes, eocd + 8) != total then Err(EntryCountMismatch)
        else if ReadU16(bytes, eocd + 20) != 0 then Err(ArchiveComment)
        else if centralOffset >= |bytes| then Err(CentralOutOfBounds)
        else if centralOffset + centralSize > eocd then Err(CentralSizeOutOfBounds)
        else
          match ReadCentralRecords(crc, bytes, centralOffset, total)
          case Err(error) => Err(error)
          case Ok(scan) =>
            if scan.end != centralOffset + centralSize then Err(CentralSizeMismatch) else Ok(scan.entries)
  }

  method FindEocd(bytes: Bytes) returns (r: Result<nat, ZipError>)
    ensures |bytes| < EOCD_LEN ==> r == Err(TooShort)
    ensures |bytes| >= EOCD_LEN ==> r == LastSignature(bytes, |bytes| - EOCD_LEN)
  {
    if |bytes| < EOCD_LEN {
      return Err(TooShort);
    }
    var index := |bytes| - EOCD_LEN;
    while true
      invariant 0 <= index <= |bytes| - EOCD_LEN
      invariant LastSignature(bytes, index) == LastSignature(bytes, |bytes| - EOCD_LEN)
      decreases index
    {
      if ReadU32(bytes, index) == EOCD_SIGNATURE {
        return Ok(index);
      }
      if index == 0 {
        return Err(NoEndRecord);
      }
      index := index - 1;
    }
  }

  /** Entries already read, followed by what the rest of the directory gives. */
  function AfterEntries(entries: seq<Entry>, rest: Result<Scan, ZipError>): Result<Scan, ZipError> {
    match rest
    case Err(error) => Err(error)
    case Ok(scan) => Ok(Scan(entries + scan.entries, scan.end))
  }

  lemma AfterNoEntries(entries: seq<Entry>, end: nat, rest: Result<Scan, ZipError>)
    ensures AfterEntries([], rest) == rest
    ensures AfterEntries(entries, Ok(Scan([], end))) == Ok(Scan(entries, end))
  {
    assert entries + [] == entries;
    if rest.Ok? {
      assert [] + rest.value.entries == rest.value.entries;
    }
  }

  lemma AfterEntriesError(entries: seq<Entry>, error: ZipError)
    ensures AfterEntries(entries, Err(error)) == Err(error)
  {
  }

  lemma AfterEntriesTwice(entries: seq<Entry>, entry: Entry, rest: Result<Scan, ZipError>)
    ensures AfterEntries(entries, AfterEntries([entry], rest)) == AfterEntries(entries + [entry], rest)
  {
    if rest.Ok? {
      assert entries + ([entry] + rest.value.entries) == (entries + [entry]) + rest.value.entries;
    }
  }

  /** The reader's loop over the central directory. */
  method ReadCentralDirectory(crc: Crc, bytes: Bytes, start: nat, count: nat) returns (r: Result<Scan, ZipError>)
    ensures r == ReadCentralRecords(crc, bytes, start, count)
  {
    hide ReadCentralRecord, AfterEntries;
    var cursor, out: seq<Entry> := start, [];
    AfterNoEntries(out, start, ReadCentralRecords(crc, bytes, start, count));
    for i := 0 to count
      invariant ReadCentralRecords(crc, bytes, start, count)
                == AfterEntries(out, ReadCentralRecords(crc, bytes, cursor, count - i))
    {
      var step := ReadCentralRecord(crc, bytes, cursor);
      if step.Err? {
        AfterEntriesError(out, step.error);
        return Err(step.error);
      }
      AfterEntriesTwice(out, step.value.entry, ReadCentralRecords(crc, bytes, step.value.next, count - i - 1));
      out := out + [step.value.entry];
      cursor := step.value.next;
    }
    AfterNoEntries(out, cursor, Ok(Scan([], cursor)));
    return Ok(Scan(out, cursor));
  }

  method ReadStoredZip(crc: Crc, bytes: Bytes) returns (r: Result<seq<Entry>, ZipError>)
    ensures r == Entries(crc, bytes)
  {
    hide ReadU16, ReadU32, LastSignature, ReadCentralRecords;
    if |bytes| < EOCD_LEN {
      return Err(TooShort);
    }
    var found := FindEocd(bytes);
    if found.Err? {
      return Err(found.error);
    }
    var eocd := found.value;
    var total := ReadU16(bytes, eocd + 10);
    var centralSize, centralOffset := ReadU32(bytes, eocd + 12), ReadU32(bytes, eocd + 16);
    if ReadU16(bytes, eocd + 4) != 0 || ReadU16(bytes, eocd + 6) != 0 {
      return Err(MultiDisk);
    }
    if ReadU16(bytes, eocd + 8) != total {
      return Err(EntryCountMismatch);
    }
    if ReadU16(bytes, eocd + 20) != 0 {
      return Err(ArchiveComment);
    }
    if centralOffset >= |bytes| {
      return Err(CentralOutOfBounds);
    }
    if centralOffset + centralSize > eocd {
      return Err(CentralSizeOutOfBounds);
    }
    var scan := ReadCentralDirectory(crc, bytes, centralOffset, total);
    if scan.Err? {
      return Err(scan.error);
    }
    return if scan.value.end != centralOffset + centralSize then Err(CentralSizeMismatch) else Ok(scan.value.entries);
  }

  // ----- Round trip -----

  /** The fields of each block, where the reader looks for them. */
  lemma FixedFieldsRead(archive: Bytes, offset: nat)
    requires At(archive, offset, FixedFields())
    ensures ReadU16(archive, offset + 2) == GENERAL_PURPOSE_BITS
    ensures ReadU16(archive, offset + 4) == COMPRESSION_STORED
  {
  }

  lemma {:induction false} EntryFieldsRead(archive: Bytes, offset: nat, crc: u32, size: u32, pathLen: u16)
    requires At(archive, offset, EntryFields(crc, size, pathLen))
    ensures offset + 16 <= |archive|
    ensures ReadU32(archive, offset) == crc
    ensures ReadU32(archive, offset + 4) == size && ReadU32(archive, offset + 8) == size
    ensures ReadU16(archive, offset + 12) == pathLen && ReadU16(archive, offset + 14) == 0
  {
    AtFive(archive, offset, Le32(crc), Le32(size), Le32(size), Le16(pathLen), Le16(0));
    hide Le16, Le32, ReadU16, ReadU32;
    Le32Reads(archive, offset, crc);
    Le32Reads(archive, offset + 4, size);
    Le32Reads(archive, offset + 8, size);
    Le16Reads(archive, offset + 12, pathLen);
    Le16Reads(archive, offset + 14, 0);
  }

  lemma CentralFieldsRead(archive: Bytes, offset: nat, localOffset: u32)
    requires At(archive, offset, CentralFields(localOffset))
    ensures offset + 14 <= |archive|
    ensures ReadU16(archive, offset) == 0 && ReadU32(archive, offset + 10) == localOffset
  {
  }

  lemma {:induction false} EndRecordRead(archive: Bytes, offset: nat, count: u16, centralSize: u32, centralOffset: u32)
    requires At(archive, offset, EndRecord(count, centralSize, centralOffset))
    ensures offset + EOCD_LEN <= |archive|
    ensures ReadU32(archive, offset) == EOCD_SIGNATURE
    ensures ReadU16(archive, offset + 4) == 0 && ReadU16(archive, offset + 6) == 0
    ensures ReadU16(archive, offset + 8) == count && ReadU16(archive, offset + 10) == count
    ensures ReadU32(archive, offset + 12) == centralSize && ReadU32(archive, offset + 16) == centralOffset
    ensures ReadU16(archive, offset + 20) == 0
  {
    EndRecordParts(archive, offset, count, centralSize, centralOffset);
    hide Le16, Le32, ReadU16, ReadU32;
    Le32Reads(archive, offset, EOCD_SIGNATURE);
    Le16Reads(archive, offset + 4, 0);
    Le16Reads(archive, offset + 6, 0);
    Le16Reads(archive, offset + 8, count);
    Le16Reads(archive, offset + 10, count);
    Le32Reads(archive, offset + 12, centralSize);
    Le32Reads(archive, offset + 16, centralOffset);
    Le16Reads(archive, offset + 20, 0);
  }

  lemma {:induction false} EndRecordParts(archive: Bytes, offset: nat, count: u16, centralSize: u32, centralOffset: u32)
    requires At(archive, offset, EndRecord(count, centralSize, centralOffset))
    ensures At(archive, offset, Le32(EOCD_SIGNATURE))
    ensures At(archive, offset + 4, Le16(0)) && At(archive, offset + 6, Le16(0))
    ensures At(archive, offset + 8, Le16(count)) && At(archive, offset + 10, Le16(count))
    ensures At(archive, offset + 12, Le32(centralSize)) && At(archive, offset + 16, Le32(centralOffset))
    ensures At(archive, offset + 20, Le16(0))
  {
    hide At, Le16, Le32;
    AtConcat(archive, offset, EndCounts(count) + Le32(centralSize) + Le32(centralOffset), Le16(0));
    AtConcat(archive, offset, EndCounts(count) + Le32(centralSize), Le32(centralOffset));
    AtConcat(archive, offset, EndCounts(count), Le32(centralSize));
    AtFive(archive, offset, Le32(EOCD_SIGNATURE), Le16(0), Le16(0), Le16(count), Le16(count));
  }

  lemma {:induction false} LocalHeaderParts(archive: Bytes, offset: nat, crc: u32, size: u32, pathLen: u16)
    requires At(archive, offset, LocalHeader(crc, size, pathLen))
    ensures At(archive, offset, Le32(LOCAL_SIGNATURE)) && At(archive, offset + 4, FixedFields())
    ensures At(archive, offset + 14, EntryFields(crc, size, pathLen))
  {
    hide At, Le32, FixedFields, EntryFields;
    AtConcat(archive, offset, Le32(LOCAL_SIGNATURE) + FixedFields(), EntryFields(crc, size, pathLen));
    AtConcat(archive, offset, Le32(LOCAL_SIGNATURE), FixedFields());
  }

  lemma {:induction false} CentralHeaderParts(archive: Bytes, offset: nat, crc: u32, size: u32, pathLen: u16,
                                              localOffset: u32)
    requires At(archive, offset, CentralHeader(crc, size, pathLen, localOffset))
    ensures At(archive, offset, Le32(CENTRAL_SIGNATURE)) && At(archive, offset + 6, FixedFields())
    ensures At(archive, offset + 16, EntryFields(crc, size, pathLen))
    ensures At(archive, offset + 32, CentralFields(localOffset))
  {
    hide At, Le16, Le32, FixedFields, EntryFields, CentralFields;
    AtFive(archive, offset, Le32(CENTRAL_SIGNATURE), Le16(VERSION), FixedFields(),
           EntryFields(crc, size, pathLen), CentralFields(localOffset));
  }

  /** A stored local section gives its payload back. */
  lemma {:induction false} PayloadReadsBack(crc: Crc, archive: Bytes, offset: nat, entry: Entry)
    requires EntryError(entry, offset) == None && EntryError(entry, 0) == None
    requires At(archive, offset, LocalSection(crc, entry))
    ensures ReadLocalFilePayload(crc, archive, offset, entry.path, crc(entry.bytes), |entry.bytes|, |entry.bytes|)
            == Ok(entry.bytes)
  {
    var header := LocalHeader(crc(entry.bytes), |entry.bytes|, |entry.path|);
    assert At(archive, offset, header + entry.path + entry.bytes);
    AtConcat(archive, offset, header + entry.path, entry.bytes);
    AtConcat(archive, offset, header, entry.path);
    hide LocalHeader, LocalSection, FixedFields, EntryFields, ReadU16, ReadU32, Le32;
    LocalHeaderParts(archive, offset, crc(entry.bytes), |entry.bytes|, |entry.path|);
    Le32Reads(archive, offset, LOCAL_SIGNATURE);
    FixedFieldsRead(archive, offset + 4);
    EntryFieldsRead(archive, offset + 14, crc(entry.bytes), |entry.bytes|, |entry.path|);
  }

  lemma {:induction false} CentralRecordRead(archive: Bytes, cursor: nat, crc: u32, size: u32, path: Bytes, offset: u32)
    requires |path| < 0x1_0000
    requires At(archive, cursor, CentralHeader(crc, size, |path|, offset) + path)
    ensures cursor + CENTRAL_HEADER_LEN + |path| <= |archive|
    ensures archive[cursor + CENTRAL_HEADER_LEN..cursor + CENTRAL_HEADER_LEN + |path|] == path
    ensures ReadU32(archive, cursor) == CENTRAL_SIGNATURE
    ensures ReadU16(archive, cursor + 8) == GENERAL_PURPOSE_BITS
    ensures ReadU16(archive, cursor + 10) == COMPRESSION_STORED
    ensures ReadU32(archive, cursor + 16) == crc
    ensures ReadU32(archive, cursor + 20) == size == ReadU32(archive, cursor + 24)
    ensures ReadU16(archive, cursor + 28) == |path|
    ensures ReadU16(archive, cursor + 30) == 0 && ReadU16(archive, cursor + 32) == 0
    ensures ReadU32(archive, cursor + 42) == offset
  {
    hide CentralHeader, FixedFields, EntryFields, CentralFields, ReadU16, ReadU32, Le32;
    AtConcat(archive, cursor, CentralHeader(crc, size, |path|, offset), path);
    CentralHeaderParts(archive, cursor, crc, size, |path|, offset);
    Le32Reads(archive, cursor, CENTRAL_SIGNATURE);
    FixedFieldsRead(archive, cursor + 6);
    EntryFieldsRead(archive, cursor + 16, crc, size, |path|);
    CentralFieldsRead(archive, cursor + 32, offset);
  }

  /** A stored central record, with its local section, gives its entry back. */
  lemma {:induction false} RecordReadsBack(crc: Crc, archive: Bytes, offset: nat, cursor: nat, entry: Entry)
    requires EntryError(entry, offset) == None && EntryError(entry, 0) == None
    requires At(archive, offset, LocalSection(crc, entry))
    requires At(archive, cursor, CentralRecord(crc, entry, offset))
    ensures ReadCentralRecord(crc, archive, cursor)
            == Ok(Step(entry, cursor + |CentralRecord(crc, entry, offset)|))
  {
    hide CentralHeader, LocalSection, ReadLocalFilePayload, ReadU16, ReadU32, At;
    PayloadReadsBack(crc, archive, offset, entry);
    CentralRecordRead(archive, cursor, crc(entry.bytes), |entry.bytes|, entry.path, offset);
  }

  lemma EmitStep(crc: Crc, entries: seq<Entry>, offset: nat)
    requires entries != [] && Emit(crc, entries, offset).Ok?
    ensures EntryError(entries[0], offset) == None && EntryError(entries[0], 0) == None
    ensures var local, central := LocalSection(crc, entries[0]), CentralRecord(crc, entries[0], offset);
            var rest := Emit(crc, entries[1..], offset + |local|);
            rest.Ok?
            && Emit(crc, entries, offset) == Ok(Sections(local + rest.value.local, central + rest.value.central))
  {
  }

  lemma ReadStep(crc: Crc, archive: Bytes, cursor: nat, step: Step, rest: seq<Entry>, end: nat)
    requires ReadCentralRecord(crc, archive, cursor) == Ok(step)
    requires ReadCentralRecords(crc, archive, step.next, |rest|) == Ok(Scan(rest, end))
    ensures ReadCentralRecords(crc, archive, cursor, |rest| + 1) == Ok(Scan([step.entry] + rest, end))
  {
  }

  /** So the whole directory gives all entries back, in order. */
  lemma {:induction false} DirectoryReadsBack(crc: Crc, archive: Bytes, entries: seq<Entry>, offset: nat, cursor: nat)
    requires Emit(crc, entries, offset).Ok?
    requires At(archive, offset, Emit(crc, entries, offset).value.local)
    requires At(archive, cursor, Emit(crc, entries, offset).value.central)
    ensures ReadCentralRecords(crc, archive, cursor, |entries|)
            == Ok(Scan(entries, cursor + |Emit(crc, entries, offset).value.central|))
    decreases |entries|, 1
  {
    if entries != [] {
      DirectoryReadsBackStep(crc, archive, entries, offset, cursor);
    }
  }

  lemma {:induction false} DirectoryReadsBackStep(crc: Crc, archive: Bytes, entries: seq<Entry>, offset: nat,
                                                  cursor: nat)
    requires entries != [] && Emit(crc, entries, offset).Ok?
    requires At(archive, offset, Emit(crc, entries, offset).value.local)
    requires At(archive, cursor, Emit(crc, entries, offset).value.central)
    ensures ReadCentralRecords(crc, archive, cursor, |entries|)
            == Ok(Scan(entries, cursor + |Emit(crc, entries, offset).value.central|))
    decreases |entries|, 0
  {
    hide *;
    EmitStep(crc, entries, offset);
    var entry := entries[0];
    var local, central := LocalSection(crc, entry), CentralRecord(crc, entry, offset);
    var rest := Emit(crc, entries[1..], offset + |local|).value;
    AtConcat(archive, offset, local, rest.local);
    AtConcat(archive, cursor, central, rest.central);
    RecordReadsBack(crc, archive, offset, cursor, entry);
    DirectoryReadsBack(crc, archive, entries[1..], offset + |local|, cursor + |central|);
    ReadStep(crc, archive, cursor, Step(entry, cursor + |central|), entries[1..],
             cursor + |central| + |rest.central|);
    assert [entry] + entries[1..] == entries;
  }

  /** The end record is found at once and points back at the central directory. */
  lemma {:induction false} EndRecordReadsBack(crc: Crc, archive: Bytes, central: nat, end: nat, count: u16, scan: Scan)
    requires central <= end && |archive| == end + EOCD_LEN
    requires central < 0x1_0000_0000 && end - central < 0x1_0000_0000
    requires At(archive, end, EndRecord(count, end - central, central))
    requires ReadCentralRecords(crc, archive, central, count) == Ok(scan) && scan.end == end
    ensures Entries(crc, archive) == Ok(scan.entries)
  {
    hide EndRecord, ReadCentralRecords, ReadU16, ReadU32, At, LastSignature;
    EndRecordRead(archive, end, count, end - central, central);
    FoundAtOnce(archive, end);
  }

  lemma FoundAtOnce(bytes: Bytes, index: nat)
    requires index + EOCD_LEN <= |bytes| && ReadU32(bytes, index) == EOCD_SIGNATURE
    ensures LastSignature(bytes, index) == Ok(index)
  {
  }

  lemma ArchiveUnfolds(crc: Crc, entries: seq<Entry>)
    requires Archive(crc, entries).Ok?
    ensures var sorted := Sort(PathOf, entries); var emitted := Emit(crc, sorted, 0);
            && emitted.Ok? && |sorted| < 0x1_0000
            && |emitted.value.local| < 0x1_0000_0000 && |emitted.value.central| < 0x1_0000_0000
            && Archive(crc, entries).value == emitted.value.local + emitted.value.central
               + EndRecord(|sorted|, |emitted.value.central|, |emitted.value.local|)
  {
  }

  /** Whatever was archived is read back, each path preceding those of all later entries. */
  lemma {:induction false} RoundTrip(crc: Crc, entries: seq<Entry>)
    requires Archive(crc, entries).Ok?
    ensures var read := Entries(crc, Archive(crc, entries).value);
            && read.Ok? && multiset(read.value) == multiset(entries)
            && forall i, j :: 0 <= i < j < |read.value| ==> Precedes(read.value[i].path, read.value[j].path)
  {
    ReadsBackSorted(crc, entries);
    var sorted := Sort(PathOf, entries);
    hide Sort, Emit, Entries;
    SortSorts(PathOf, entries);
    DistinctNeighbours(PathOf, sorted);
    forall i, j | 0 <= i < j < |sorted|
      ensures Precedes(sorted[i].path, sorted[j].path)
    {
      LessExactly(sorted[i].path, sorted[j].path);
    }
  }

  lemma {:induction false} ReadsBackSorted(crc: Crc, entries: seq<Entry>)
    requires Archive(crc, entries).Ok?
    ensures Entries(crc, Archive(crc, entries).value) == Ok(Sort(PathOf, entries))
  {
    hide *;
    ArchiveUnfolds(crc, entries);
    var archive, sorted := Archive(crc, entries).value, Sort(PathOf, entries);
    var local, central := Emit(crc, sorted, 0).value.local, Emit(crc, sorted, 0).value.central;
    AtParts(local, central, EndRecord(|sorted|, |central|, |local|));
    DirectoryReadsBack(crc, archive, sorted, 0, |local|);
    EndRecordReadsBack(crc, archive, |local|, |local| + |central|, |sorted|, Scan(sorted, |local| + |central|));
  }

  lemma AtParts(a: Bytes, b: Bytes, c: Bytes)
    ensures At(a + b + c, 0, a) && At(a + b + c, |a|, b) && At(a + b + c, |a| + |b|, c)
  {
  }

  /** The order in which entries were added changes neither success nor the bytes. */
  lemma OrderDoesNotMatter(crc: Crc, a: seq<Entry>, b: seq<Entry>)
    requires multiset(a) == multiset(b)
    ensures Archive(crc, a).Ok? <==> Archive(crc, b).Ok?
    ensures Archive(crc, a).Ok? ==> Archive(crc, a) == Archive(crc, b)
  {
    SortPermuted(PathOf, a, b);
  }

  /** Two collections of entries have one archive only when they are permutations of each other. */
  lemma ArchiveBindsEntries(crc: Crc, a: seq<Entry>, b: seq<Entry>)
    requires Archive(crc, a).Ok? && Archive(crc, b).Ok?
    ensures Archive(crc, a) == Archive(crc, b) <==> multiset(a) == multiset(b)
  {
    if Archive(crc, a) == Archive(crc, b) {
      RoundTrip(crc, a);
      RoundTrip(crc, b);
    } else if multiset(a) == multiset(b) {
      OrderDoesNotMatter(crc, a, b);
    }
  }

  /** All entries have ASCII names and, with a local header each, fit into `size` bytes. */
  predicate Fit(entries: seq<Entry>, size: nat) {
    forall e :: e in entries ==> IsAscii(e.path) && |e.path| + |e.bytes| + LOCAL_HEADER_LEN <= size
  }

  lemma FitTogether(entry: Entry, rest: seq<Entry>, size: nat)
    requires IsAscii(entry.path) && |entry.path| + |entry.bytes| + LOCAL_HEADER_LEN <= size && Fit(rest, size)
    ensures Fit([entry] + rest, size)
  {
  }

  lemma ReadUnfolds(crc: Crc, bytes: Bytes, cursor: nat, count: nat)
    requires count > 0 && ReadCentralRecords(crc, bytes, cursor, count).Ok?
    ensures ReadCentralRecord(crc, bytes, cursor).Ok?
    ensures var step := ReadCentralRecord(crc, bytes, cursor).value;
            var rest := ReadCentralRecords(crc, bytes, step.next, count - 1);
            && rest.Ok?
            && ReadCentralRecords(crc, bytes, cursor, count).value.entries == [step.entry] + rest.value.entries
  {
  }

  lemma {:induction false} RecordsFit(crc: Crc, bytes: Bytes, cursor: nat, count: nat)
    requires ReadCentralRecords(crc, bytes, cursor, count).Ok?
    ensures |ReadCentralRecords(crc, bytes, cursor, count).value.entries| == count
    ensures Fit(ReadCentralRecords(crc, bytes, cursor, count).value.entries, |bytes|)
    decreases count, 1
  {
    if count > 0 {
      RecordsFitStep(crc, bytes, cursor, count);
    }
  }

  lemma {:induction false} RecordsFitStep(crc: Crc, bytes: Bytes, cursor: nat, count: nat)
    requires count > 0 && ReadCentralRecords(crc, bytes, cursor, count).Ok?
    ensures |ReadCentralRecords(crc, bytes, cursor, count).value.entries| == count
    ensures Fit(ReadCentralRecords(crc, bytes, cursor, count).value.entries, |bytes|)
    decreases count, 0
  {
    hide *;
    ReadUnfolds(crc, bytes, cursor, count);
    var step := ReadCentralRecord(crc, bytes, cursor).value;
    RecordsFit(crc, bytes, step.next, count - 1);
    FitTogether(step.entry, ReadCentralRecords(crc, bytes, step.next, count - 1).value.entries, |bytes|);
  }

  /** Whatever the bytes, every payload read is at least a local header shorter than the archive. */
  lemma PayloadsAreShorter(crc: Crc, bytes: Bytes)
    requires Entries(crc, bytes).Ok?
    ensures Fit(Entries(crc, bytes).value, |bytes|)
  {
    var eocd := LastSignature(bytes, |bytes| - EOCD_LEN).value;
    RecordsFit(crc, bytes, ReadU32(bytes, eocd + 16), ReadU16(bytes, eocd + 10));
  }

  // ----- The layout of archives -----

  /** A local section: signature, no flags, stored, checksum, both sizes, no extra field, name, payload. */
  ghost predicate LocalAt(crc: Crc, bytes: Bytes, offset: nat, entry: Entry) {
    && At(bytes, offset, [0x50, 0x4b, 0x03, 0x04])
    && Holds16(bytes, offset + 6, 0) && Holds16(bytes, offset + 8, 0)
    && Holds32(bytes, offset + 14, crc(entry.bytes))
    && Holds32(bytes, offset + 18, |entry.bytes|) && Holds32(bytes, offset + 22, |entry.bytes|)
    && Holds16(bytes, offset + 26, |entry.path|) && Holds16(bytes, offset + 28, 0)
    && At(bytes, offset + 30, entry.path) && At(bytes, offset + 30 + |entry.path|, entry.bytes)
  }

  /** A central record of the entry whose local section is at `offset`; it has no extra field and no comment. */
  ghost predicate CentralAt(crc: Crc, bytes: Bytes, cursor: nat, offset: nat, entry: Entry) {
    && At(bytes, cursor, [0x50, 0x4b, 0x01, 0x02])
    && Holds16(bytes, cursor + 8, 0) && Holds16(bytes, cursor + 10, 0)
    && Holds32(bytes, cursor + 16, crc(entry.bytes))
    && Holds32(bytes, cursor + 20, |entry.bytes|) && Holds32(bytes, cursor + 24, |entry.bytes|)
    && Holds16(bytes, cursor + 28, |entry.path|) && Holds16(bytes, cursor + 30, 0) && Holds16(bytes, cursor + 32, 0)
    && Holds32(bytes, cursor + 42, offset)
    && At(bytes, cursor + 46, entry.path) && forall i :: 0 <= i < |entry.path| ==> entry.path[i] < 128
  }

  lemma SignatureHeld(bytes: Bytes, offset: nat)
    ensures At(bytes, offset, [0x50, 0x4b, 0x03, 0x04])
            <==> offset + 4 <= |bytes| && ReadU32(bytes, offset) == LOCAL_SIGNATURE
    ensures At(bytes, offset, [0x50, 0x4b, 0x01, 0x02])
            <==> offset + 4 <= |bytes| && ReadU32(bytes, offset) == CENTRAL_SIGNATURE
    ensures At(bytes, offset, [0x50, 0x4b, 0x05, 0x06])
            <==> offset + 4 <= |bytes| && ReadU32(bytes, offset) == EOCD_SIGNATURE
  {
    if offset + 4 <= |bytes| {
      FourBytes(bytes, offset, [0x50, 0x4b, 0x03, 0x04]);
      FourBytes(bytes, offset, [0x50, 0x4b, 0x01, 0x02]);
      FourBytes(bytes, offset, [0x50, 0x4b, 0x05, 0x06]);
    }
  }

  lemma FourBytes(bytes: Bytes, offset: nat, part: Bytes)
    requires offset + 4 <= |bytes| && |part| == 4
    ensures At(bytes, offset, part)
            <==> && bytes[offset] == part[0] && bytes[offset + 1] == part[1]
                 && bytes[offset + 2] == part[2] && bytes[offset + 3] == part[3]
  {
    if At(bytes, offset, part) {
      assert bytes[offset..offset + 4][0] == bytes[offset] && bytes[offset..offset + 4][1] == bytes[offset + 1];
      assert bytes[offset..offset + 4][2] == bytes[offset + 2] && bytes[offset..offset + 4][3] == bytes[offset + 3];
    }
  }

  /** The payload is read exactly from a local section of that name. */
  lemma {:induction false} PayloadExactly(crc: Crc, bytes: Bytes, offset: nat, entry: Entry, sum: u32, size: nat)
    ensures ReadLocalFilePayload(crc, bytes, offset, entry.path, sum, size, size) == Ok(entry.bytes)
            <==> LocalAt(crc, bytes, offset, entry) && sum == crc(entry.bytes) && size == |entry.bytes|
  {
    hide ReadU16, ReadU32, Holds16, Holds32;
    if offset + LOCAL_HEADER_LEN <= |bytes| {
      SignatureHeld(bytes, offset);
      ReadsHeld(bytes, offset + 6);
      ReadsHeld(bytes, offset + 8);
      ReadsHeld(bytes, offset + 14);
      ReadsHeld(bytes, offset + 18);
      ReadsHeld(bytes, offset + 22);
      ReadsHeld(bytes, offset + 26);
      ReadsHeld(bytes, offset + 28);
    }
  }

  /** A central record and the local section it points to. */
  ghost predicate RecordAt(crc: Crc, bytes: Bytes, cursor: nat, entry: Entry) {
    exists offset: nat :: CentralAt(crc, bytes, cursor, offset, entry) && LocalAt(crc, bytes, offset, entry)
  }

  lemma {:induction false} CentralHeld(crc: Crc, bytes: Bytes, cursor: nat, offset: nat, entry: Entry)
    ensures CentralAt(crc, bytes, cursor, offset, entry)
            <==> && cursor + 46 + |entry.path| <= |bytes| && ReadU32(bytes, cursor) == CENTRAL_SIGNATURE
                 && ReadU16(bytes, cursor + 8) == 0 && ReadU16(bytes, cursor + 10) == 0
                 && ReadU32(bytes, cursor + 16) == crc(entry.bytes)
                 && ReadU32(bytes, cursor + 20) == |entry.bytes| && ReadU32(bytes, cursor + 24) == |entry.bytes|
                 && ReadU16(bytes, cursor + 28) == |entry.path|
                 && ReadU16(bytes, cursor + 30) == 0 && ReadU16(bytes, cursor + 32) == 0
                 && ReadU32(bytes, cursor + 42) == offset
                 && bytes[cursor + 46..cursor + 46 + |entry.path|] == entry.path && IsAscii(entry.path)
  {
    hide ReadU16, ReadU32, Holds16, Holds32;
    if cursor + 46 <= |bytes| {
      SignatureHeld(bytes, cursor);
      ReadsHeld(bytes, cursor + 8);
      ReadsHeld(bytes, cursor + 10);
      ReadsHeld(bytes, cursor + 16);
      ReadsHeld(bytes, cursor + 20);
      ReadsHeld(bytes, cursor + 24);
      ReadsHeld(bytes, cursor + 28);
      ReadsHeld(bytes, cursor + 30);
      ReadsHeld(bytes, cursor + 32);
      ReadsHeld(bytes, cursor + 42);
    }
  }

  lemma {:induction false} RecordExactly(crc: Crc, bytes: Bytes, cursor: nat, step: Step)
    ensures ReadCentralRecord(crc, bytes, cursor) == Ok(step)
            <==> RecordAt(crc, bytes, cursor, step.entry) && step.next == cursor + 46 + |step.entry.path|
  {
    hide ReadU16, ReadU32, CentralAt, LocalAt, ReadLocalFilePayload, IsAscii;
    if cursor + 46 <= |bytes| {
      var offset := ReadU32(bytes, cursor + 42);
      CentralHeld(crc, bytes, cursor, offset, step.entry);
      PayloadExactly(crc, bytes, offset, step.entry, ReadU32(bytes, cursor + 16), ReadU32(bytes, cursor + 20));
    }
    if RecordAt(crc, bytes, cursor, step.entry) {
      var offset: nat :| CentralAt(crc, bytes, cursor, offset, step.entry) && LocalAt(crc, bytes, offset, step.entry);
      CentralHeld(crc, bytes, cursor, offset, step.entry);
      PayloadExactly(crc, bytes, offset, step.entry, ReadU32(bytes, cursor + 16), ReadU32(bytes, cursor + 20));
    }
  }

  /** The directory from `cursor` to `end` lists the entries, one record after the other. */
  ghost predicate Listed(crc: Crc, bytes: Bytes, cursor: nat, entries: seq<Entry>, end: nat)
    decreases |entries|
  {
    if entries == [] then cursor == end
    else
      && RecordAt(crc, bytes, cursor, entries[0])
      && Listed(crc, bytes, cursor + 46 + |entries[0].path|, entries[1..], end)
  }

  lemma {:induction false} DirectoryExactly(crc: Crc, bytes: Bytes, cursor: nat, count: nat, scan: Scan)
    ensures ReadCentralRecords(crc, bytes, cursor, count) == Ok(scan)
            <==> |scan.entries| == count && Listed(crc, bytes, cursor, scan.entries, scan.end)
    decreases count
  {
    hide ReadCentralRecord, RecordAt;
    if count > 0 {
      var first := ReadCentralRecord(crc, bytes, cursor);
      if first.Ok? {
        RecordExactly(crc, bytes, cursor, first.value);
        var rest := ReadCentralRecords(crc, bytes, first.value.next, count - 1);
        if rest.Ok? {
          DirectoryExactly(crc, bytes, first.value.next, count - 1, rest.value);
          assert ([first.value.entry] + rest.value.entries)[1..] == rest.value.entries;
        }
      }
      if |scan.entries| == count && Listed(crc, bytes, cursor, scan.entries, scan.end) {
        var step := Step(scan.entries[0], cursor + 46 + |scan.entries[0].path|);
        RecordExactly(crc, bytes, cursor, step);
        DirectoryExactly(crc, bytes, step.next, count - 1, Scan(scan.entries[1..], scan.end));
        assert [scan.entries[0]] + scan.entries[1..] == scan.entries;
      }
    }
  }

  /** An end record of one disk without comment, after which no other begins. */
  ghost predicate EndAt(bytes: Bytes, eocd: nat, count: nat, start: nat, size: nat) {
    && eocd + 22 <= |bytes| && At(bytes, eocd, [0x50, 0x4b, 0x05, 0x06])
    && (forall k :: eocd < k <= |bytes| - 22 ==> !At(bytes, k, [0x50, 0x4b, 0x05, 0x06]))
    && Holds16(bytes, eocd + 4, 0) && Holds16(bytes, eocd + 6, 0)
    && Holds16(bytes, eocd + 8, count) && Holds16(bytes, eocd + 10, count)
    && Holds32(bytes, eocd + 12, size) && Holds32(bytes, eocd + 16, start) && Holds16(bytes, eocd + 20, 0)
  }

  lemma {:induction false} LastSignatureExactly(bytes: Bytes, index: nat, eocd: nat)
    requires index + EOCD_LEN <= |bytes|
    ensures LastSignature(bytes, index) == Ok(eocd)
            <==> && eocd <= index && At(bytes, eocd, [0x50, 0x4b, 0x05, 0x06])
                 && forall k :: eocd < k <= index ==> !At(bytes, k, [0x50, 0x4b, 0x05, 0x06])
  {
    hide ReadU32, At;
    SignatureHeld(bytes, index);
    SignatureHeld(bytes, eocd);
    if ReadU32(bytes, index) != EOCD_SIGNATURE && index > 0 {
      LastSignatureExactly(bytes, index - 1, eocd);
    }
  }

  /** An archive as the reader demands it, with its directory at `start` and its end record at `eocd`. */
  ghost predicate StoredZip(crc: Crc, bytes: Bytes, entries: seq<Entry>, start: nat, end: nat, eocd: nat) {
    && start < |bytes| && start <= end <= eocd
    && EndAt(bytes, eocd, |entries|, start, end - start) && Listed(crc, bytes, start, entries, end)
  }

  /** Exactly the archives of this layout are read, and as these entries. */
  lemma {:induction false} ReadsExactly(crc: Crc, bytes: Bytes, entries: seq<Entry>)
    ensures Entries(crc, bytes) == Ok(entries)
            <==> exists start: nat, end: nat, eocd: nat :: StoredZip(crc, bytes, entries, start, end, eocd)
  {
    hide ReadU16, ReadU32, At, Holds16, Holds32, LastSignature, ReadCentralRecords, Listed;
    if Entries(crc, bytes) == Ok(entries) {
      var eocd := LastSignature(bytes, |bytes| - EOCD_LEN).value;
      EndHeld(bytes, eocd);
      var start: nat, size: nat := ReadU32(bytes, eocd + 16), ReadU32(bytes, eocd + 12);
      DirectoryExactly(crc, bytes, start, ReadU16(bytes, eocd + 10), Scan(entries, start + size));
      assert StoredZip(crc, bytes, entries, start, start + size, eocd);
    }
    if exists start: nat, end: nat, eocd: nat :: StoredZip(crc, bytes, entries, start, end, eocd) {
      var start: nat, end: nat, eocd: nat :| StoredZip(crc, bytes, entries, start, end, eocd);
      EndHeld(bytes, eocd);
      DirectoryExactly(crc, bytes, start, |entries|, Scan(entries, end));
    }
  }

  lemma {:induction false} EndHeld(bytes: Bytes, eocd: nat)
    requires eocd + EOCD_LEN <= |bytes|
    ensures forall count: nat, start: nat, size: nat ::
              EndAt(bytes, eocd, count, start, size)
              <==> && LastSignature(bytes, |bytes| - EOCD_LEN) == Ok(eocd)
                   && ReadU16(bytes, eocd + 4) == 0 && ReadU16(bytes, eocd + 6) == 0
                   && ReadU16(bytes, eocd + 8) == count && ReadU16(bytes, eocd + 10) == count
                   && ReadU32(bytes, eocd + 12) == size && ReadU32(bytes, eocd + 16) == start
                   && ReadU16(bytes, eocd + 20) == 0
  {
    hide ReadU16, ReadU32, At, Holds16, Holds32, LastSignature;
    LastSignatureExactly(bytes, |bytes| - EOCD_LEN, eocd);
    ReadsHeld(bytes, eocd + 4);
    ReadsHeld(bytes, eocd + 6);
    ReadsHeld(bytes, eocd + 8);
    ReadsHeld(bytes, eocd + 10);
    ReadsHeld(bytes, eocd + 12);
    ReadsHeld(bytes, eocd + 16);
    ReadsHeld(bytes, eocd + 20);
  }

  // ----- When an archive can be written -----

  /** The size of a section with a header of `header` bytes and a path for each entry, without payloads. */
  function PathSizes(entries: seq<Entry>, header: nat): nat {
    if entries == [] then 0 else header + |entries[0].path| + PathSizes(entries[1..], header)
  }

  function PayloadSizes(entries: seq<Entry>): nat {
    if entries == [] then 0 else |entries[0].bytes| + PayloadSizes(entries[1..])
  }

  /** An ASCII path of less than 64 KiB and a payload of less than 4 GiB. */
  ghost predicate Storable(entry: Entry) {
    && (forall i :: 0 <= i < |entry.path| ==> entry.path[i] < 128)
    && |entry.path| < 0x1_0000 && |entry.bytes| < 0x1_0000_0000
  }

  lemma StorableExactly(entry: Entry, offset: nat)
    ensures EntryError(entry, offset) == None <==> Storable(entry) && offset < 0x1_0000_0000
  {
  }

  lemma {:induction false} SectionSizes(crc: Crc, entry: Entry, offset: nat)
    requires EntryError(entry, offset) == None
    ensures |LocalSection(crc, entry)| == 30 + |entry.path| + |entry.bytes|
    ensures |CentralRecord(crc, entry, offset)| == 46 + |entry.path|
  {
    hide LocalHeader, CentralHeader;
  }

  /** Sections that stay below four gibibytes can be written exactly for storable entries, and have these sizes. */
  lemma {:induction false} EmitsExactly(crc: Crc, entries: seq<Entry>, offset: nat)
    ensures Emit(crc, entries, offset).Ok? ==>
              var r := Emit(crc, entries, offset).value;
              && |r.local| == PathSizes(entries, 30) + PayloadSizes(entries) && |r.central| == PathSizes(entries, 46)
              && forall i :: 0 <= i < |entries| ==> Storable(entries[i])
    ensures (offset + PathSizes(entries, 30) + PayloadSizes(entries) < 0x1_0000_0000
             && forall i :: 0 <= i < |entries| ==> Storable(entries[i]))
            ==> Emit(crc, entries, offset).Ok?
    decreases |entries|
  {
    hide LocalSection, CentralRecord, EntryError, Storable;
    if entries != [] {
      StorableExactly(entries[0], offset);
      assert forall i :: 0 < i < |entries| ==> entries[i] == entries[1..][i - 1];
      if EntryError(entries[0], offset) == None {
        StorableExactly(entries[0], 0);
        SectionSizes(crc, entries[0], offset);
        EmitsExactly(crc, entries[1..], offset + |LocalSection(crc, entries[0])|);
      }
    }
  }

  lemma {:induction false} SizesOfInsert(x: Entry, xs: seq<Entry>, header: nat)
    ensures PathSizes(Insert(PathOf, x, xs), header) == header + |x.path| + PathSizes(xs, header)
    ensures PayloadSizes(Insert(PathOf, x, xs)) == |x.bytes| + PayloadSizes(xs)
  {
    if xs != [] && Less(PathOf(xs[0]), PathOf(x)) {
      SizesOfInsert(x, xs[1..], header);
    }
  }

  lemma {:induction false} SizesOfSorted(entries: seq<Entry>, header: nat)
    ensures PathSizes(Sort(PathOf, entries), header) == PathSizes(entries, header)
    ensures PayloadSizes(Sort(PathOf, entries)) == PayloadSizes(entries)
  {
    if entries != [] {
      SizesOfSorted(entries[1..], header);
      SizesOfInsert(entries[0], Sort(PathOf, entries[1..]), header);
    }
  }

  lemma {:induction false} DistinctPaths(entries: seq<Entry>)
    ensures HasEqualNeighbours(PathOf, Sort(PathOf, entries)) <==> !DistinctKeys(PathOf, entries)
  {
    hide Sort;
    SortSorts(PathOf, entries);
    DistinctNeighbours(PathOf, Sort(PathOf, entries));
    if DistinctKeys(PathOf, entries) {
      DistinctSorts(PathOf, entries);
    } else if !HasEqualNeighbours(PathOf, Sort(PathOf, entries)) {
      StrictIsDistinct(PathOf, Sort(PathOf, entries));
      DistinctPermuted(PathOf, entries, Sort(PathOf, entries));
    }
  }

  /** The sorted entries can be archived, as far as that does not depend on their order. */
  lemma {:induction false} SortedWrites(crc: Crc, entries: seq<Entry>, sorted: seq<Entry>)
    requires sorted == Sort(PathOf, entries)
    ensures |sorted| == |entries|
    ensures Archive(crc, entries).Ok?
            <==> && DistinctKeys(PathOf, entries) && (forall i :: 0 <= i < |sorted| ==> Storable(sorted[i]))
                 && |sorted| < 0x1_0000
                 && PathSizes(sorted, 30) + PayloadSizes(sorted) < 0x1_0000_0000
                 && PathSizes(sorted, 46) < 0x1_0000_0000
  {
    hide Sort, Emit, Storable, DistinctKeys, HasEqualNeighbours, PathSizes, PayloadSizes;
    DistinctPaths(entries);
    EmitsExactly(crc, sorted, 0);
    SortSorts(PathOf, entries);
    assert |sorted| == |multiset(sorted)| == |multiset(entries)| == |entries|;
  }

  /** An archive is written exactly for fewer than 64 Ki storable entries of distinct paths with small sections. */
  lemma {:induction false} WritesExactly(crc: Crc, entries: seq<Entry>)
    ensures Archive(crc, entries).Ok?
            <==> && (forall i, j :: 0 <= i < j < |entries| ==> entries[i].path != entries[j].path)
                 && (forall i :: 0 <= i < |entries| ==> Storable(entries[i]))
                 && |entries| < 0x1_0000
                 && PathSizes(entries, 30) + PayloadSizes(entries) < 0x1_0000_0000
                 && PathSizes(entries, 46) < 0x1_0000_0000
  {
    var sorted := Sort(PathOf, entries);
    assert DistinctKeys(PathOf, entries)
      <==> forall i, j :: 0 <= i < j < |entries| ==> entries[i].path != entries[j].path;
    hide Sort, Archive, Storable, DistinctKeys, PathSizes, PayloadSizes;
    SortedWrites(crc, entries, sorted);
    SizesOfSorted(entries, 30);
    SizesOfSorted(entries, 46);
    SortSorts(PathOf, entries);
    if forall i :: 0 <= i < |sorted| ==> Storable(sorted[i]) {
      SameElements(sorted, entries);
    }
    if forall i :: 0 <= i < |entries| ==> Storable(entries[i]) {
      SameElements(entries, sorted);
    }
  }

  lemma {:induction false} SameElements(a: seq<Entry>, b: seq<Entry>)
    requires multiset(a) == multiset(b) && forall i :: 0 <= i < |a| ==> Storable(a[i])
    ensures forall i :: 0 <= i < |b| ==> Storable(b[i])
  {
    hide Storable;
    forall i | 0 <= i < |b|
      ensures Storable(b[i])
    {
      assert b[i] in multiset(a);
      var j :| 0 <= j < |a| && a[j] == b[i];
    }
  }

  lemma FixedBytes(offset: u32)
    ensures Le32(LOCAL_SIGNATURE) == [0x50, 0x4b, 0x03, 0x04] && Le32(CENTRAL_SIGNATURE) == [0x50, 0x4b, 0x01, 0x02]
    ensures Le16(VERSION) == [20, 0] && FixedFields() == [20, 0, 0, 0, 0, 0, 0, 0, 33, 0]
    ensures CentralFields(offset) == [0, 0, 0, 0, 0, 0, 0, 0, 0, 0] + Le32(offset)
  {
  }

  /** The bytes of the headers: version 2.0, the first day of 1980, and no attributes. */
  lemma {:induction false} HeaderBytes(sum: u32, size: u32, pathLen: u16, offset: u32)
    ensures LocalHeader(sum, size, pathLen)
            == [0x50, 0x4b, 0x03, 0x04] + [20, 0, 0, 0, 0, 0, 0, 0, 33, 0] + EntryFields(sum, size, pathLen)
    ensures CentralHeader(sum, size, pathLen, offset)
            == [0x50, 0x4b, 0x01, 0x02] + [20, 0] + [20, 0, 0, 0, 0, 0, 0, 0, 33, 0] + EntryFields(sum, size, pathLen)
               + ([0, 0, 0, 0, 0, 0, 0, 0, 0, 0] + Le32(offset))
  {
    FixedBytes(offset);
    hide Le16, Le32, FixedFields, CentralFields, EntryFields;
  }
}
