/**
 A whole .tds file: header, payload block and slot index, as the non-recursive writer lays it out and as the reader
 checks it. CRC-32 and Adler-32 are parameters; the sidecar file is not part of this model.
 */
module TdsFile {
  import opened Bytes
  import opened IntCodec
  import opened SlotFormat
  import ArchivePath
  import Utf8Plan

  const FILE_MAGIC: seq<byte> := [84, 68, 83, 88]
  const FILE_VERSION: nat := 2
  const FILE_HDR_SIZE: nat := 44

  type Crc = seq<byte> -> uint32

  datatype Header = Header(version: nat, slotCount: nat, indexOffset: nat, dataOffset: nat, ts: nat)

  datatype Sums = Sums(crc32: Crc, adler32: Adler)

  datatype FileError =
    | TooShort | BadMagic | BadVersion | CrcMismatch | DataInsideHeader | IndexBeforeData | IndexPastEnd
    | BadIndex(error: IndexError) | SlotOutOfBounds

  datatype HeaderResult = HeaderOk(header: Header) | HeaderBad(error: FileError)

  // ---- the header ----

  predicate HeaderInRange(h: Header) {
    && h.version <= UINT32_MAX && h.slotCount <= UINT64_MAX && h.indexOffset <= UINT64_MAX
    && h.dataOffset <= UINT64_MAX && h.ts <= UINT64_MAX
  }

  function RawHeader(h: Header, crc: nat): (s: seq<byte>)
    ensures |s| == FILE_HDR_SIZE
  {
    FILE_MAGIC + BigEndian(4, h.version) + BigEndian(8, h.slotCount) + BigEndian(8, h.indexOffset)
    + BigEndian(8, h.dataOffset) + BigEndian(8, h.ts) + BigEndian(4, crc)
  }

  /** The header sealed with the checksum of itself under a zero checksum. */
  function BuildHeader(h: Header, crc32: Crc): (s: seq<byte>)
    ensures |s| == FILE_HDR_SIZE
  {
    RawHeader(h, crc32(RawHeader(h, 0)))
  }

  function ParseHeader(raw: seq<byte>, crc32: Crc): HeaderResult {
    if |raw| < FILE_HDR_SIZE then HeaderBad(TooShort)
    else
      var h := Header(FromBigEndian(raw[4..8]), FromBigEndian(raw[8..16]), FromBigEndian(raw[16..24]),
                      FromBigEndian(raw[24..32]), FromBigEndian(raw[32..40]));
      if raw[..4] != FILE_MAGIC then HeaderBad(BadMagic)
      else if h.version != 1 && h.version != FILE_VERSION then HeaderBad(BadVersion)
      else if crc32(RawHeader(h, 0)) != FromBigEndian(raw[40..44]) then HeaderBad(CrcMismatch)
      else HeaderOk(h)
  }

  lemma RawHeaderFields(h: Header, crc: uint32)
    requires HeaderInRange(h)
    ensures var raw := RawHeader(h, crc);
            && raw[..4] == FILE_MAGIC && FromBigEndian(raw[40..44]) == crc
            && h == Header(FromBigEndian(raw[4..8]), FromBigEndian(raw[8..16]), FromBigEndian(raw[16..24]),
                           FromBigEndian(raw[24..32]), FromBigEndian(raw[32..40]))
  {
    hide FromBigEndian, BigEndian;
    Pow256Values();
    BigEndianRoundTrip(4, h.version);
    BigEndianRoundTrip(8, h.slotCount);
    BigEndianRoundTrip(8, h.indexOffset);
    BigEndianRoundTrip(8, h.dataOffset);
    BigEndianRoundTrip(8, h.ts);
    BigEndianRoundTrip(4, crc);
    var raw := RawHeader(h, crc);
    assert raw[4..8] == BigEndian(4, h.version) && raw[8..16] == BigEndian(8, h.slotCount);
    assert raw[16..24] == BigEndian(8, h.indexOffset) && raw[24..32] == BigEndian(8, h.dataOffset);
    assert raw[32..40] == BigEndian(8, h.ts) && raw[40..44] == BigEndian(4, crc);
  }

  /** A header is in range exactly when each of its fields can be read back. */
  lemma HeaderInRangeExactly(h: Header, crc: uint32)
    ensures var raw := RawHeader(h, crc);
            HeaderInRange(h) <==>
            h == Header(FromBigEndian(raw[4..8]), FromBigEndian(raw[8..16]), FromBigEndian(raw[16..24]),
                        FromBigEndian(raw[24..32]), FromBigEndian(raw[32..40]))
  {
    hide FromBigEndian, BigEndian;
    Pow256Values();
    SurvivesExactly(4, h.version);
    SurvivesExactly(8, h.slotCount);
    SurvivesExactly(8, h.indexOffset);
    SurvivesExactly(8, h.dataOffset);
    SurvivesExactly(8, h.ts);
    var raw := RawHeader(h, crc);
    assert raw[4..8] == BigEndian(4, h.version) && raw[8..16] == BigEndian(8, h.slotCount);
    assert raw[16..24] == BigEndian(8, h.indexOffset) && raw[24..32] == BigEndian(8, h.dataOffset);
    assert raw[32..40] == BigEndian(8, h.ts);
  }

  /** A header reads back exactly when its version is one the reader knows. */
  lemma HeaderReadsBack(h: Header, tail: seq<byte>, crc32: Crc)
    requires HeaderInRange(h)
    ensures ParseHeader(BuildHeader(h, crc32) + tail, crc32) ==
            if h.version == 1 || h.version == FILE_VERSION then HeaderOk(h) else HeaderBad(BadVersion)
  {
    hide FromBigEndian, RawHeader;
    var crc := crc32(RawHeader(h, 0));
    var raw := RawHeader(h, crc);
    RawHeaderFields(h, crc);
    var b := raw + tail;
    assert b[..4] == raw[..4] && b[4..8] == raw[4..8] && b[8..16] == raw[8..16] && b[16..24] == raw[16..24];
    assert b[24..32] == raw[24..32] && b[32..40] == raw[32..40] && b[40..44] == raw[40..44];
  }

  /** Every accepted header prints back to itself. */
  lemma HeaderReprints(raw: seq<byte>, crc32: Crc)
    requires ParseHeader(raw, crc32).HeaderOk?
    ensures BuildHeader(ParseHeader(raw, crc32).header, crc32) == raw[..FILE_HDR_SIZE]
    ensures HeaderInRange(ParseHeader(raw, crc32).header)
  {
    hide FromBigEndian, BigEndian;
    Pow256Values();
    BigEndianReprints(raw[4..8]);
    BigEndianReprints(raw[8..16]);
    BigEndianReprints(raw[16..24]);
    BigEndianReprints(raw[24..32]);
    BigEndianReprints(raw[32..40]);
    BigEndianReprints(raw[40..44]);
    assert raw[..44] == raw[..4] + raw[4..8] + raw[8..16] + raw[16..24] + raw[24..32] + raw[32..40] + raw[40..44];
  }

  // ---- what the reader accepts ----

  datatype Opened = Opened(header: Header, records: seq<SlotRecord>) | Refused(error: FileError)

  predicate InBlock(r: SlotRecord, h: Header) {
    h.dataOffset + r.offset + r.length <= h.indexOffset
  }

  /** The reader's checks, in order. */
  function OpenFile(file: seq<byte>, sums: Sums): Opened {
    match ParseHeader(file, sums.crc32)
    case HeaderBad(error) => Refused(error)
    case HeaderOk(h) =>
      if h.dataOffset < FILE_HDR_SIZE then Refused(DataInsideHeader)
      else if h.indexOffset < h.dataOffset then Refused(IndexBeforeData)
      else if h.indexOffset > |file| then Refused(IndexPastEnd)
      else
        match ParseIndex(file[h.indexOffset..], h.slotCount, sums.adler32)
        case Err(error) => Refused(BadIndex(error))
        case Ok(records) =>
          if forall i :: 0 <= i < |records| ==> InBlock(records[i], h) then Opened(h, records)
          else Refused(SlotOutOfBounds)
  }

  /** An accepted file is its header, its payload block and its index, and every slot is inside the block. */
  lemma OpenedFileIsWhole(file: seq<byte>, sums: Sums)
    requires OpenFile(file, sums).Opened?
    ensures var o := OpenFile(file, sums);
            && o.header.indexOffset <= |file| && |o.records| == o.header.slotCount
            && file[..44] == BuildHeader(o.header, sums.crc32)
            && file[o.header.indexOffset..] == IndexBytes(o.records)
            && forall i :: 0 <= i < |o.records| ==> InBlock(o.records[i], o.header)
  {
    hide ParseHeader, ParseIndex, BuildHeader, IndexBytes;
    var o := OpenFile(file, sums);
    HeaderReprints(file, sums.crc32);
    ParseThenPrint(file[o.header.indexOffset..], o.header.slotCount, sums.adler32);
  }

  /** The file as a header, a payload block between it and the index, and an index of that many readable records whose
      slots lie in the block. */
  ghost predicate Whole(file: seq<byte>, h: Header, records: seq<SlotRecord>, sums: Sums) {
    && HeaderInRange(h) && (h.version == 1 || h.version == 2) && h.slotCount == |records|
    && 44 <= h.dataOffset <= h.indexOffset <= |file|
    && file[..44] == BuildHeader(h, sums.crc32)
    && file[h.indexOffset..] == IndexBytes(records)
    && Readable(records, sums.adler32)
    && forall i :: 0 <= i < |records| ==>
                     InRange(records[i]) && h.dataOffset + records[i].offset + records[i].length <= h.indexOffset
  }

  /** The reader accepts exactly the whole files, and shows the header and the records they are made of. */
  lemma OpensExactly(file: seq<byte>, h: Header, records: seq<SlotRecord>, sums: Sums)
    ensures OpenFile(file, sums) == Opened(h, records) <==> Whole(file, h, records, sums)
  {
    hide ParseHeader, ParseIndex, BuildHeader, IndexBytes, Readable, InRange;
    if OpenFile(file, sums) == Opened(h, records) {
      KnownVersion(file, sums.crc32);
      HeaderReprints(file, sums.crc32);
      ParseThenPrint(file[h.indexOffset..], h.slotCount, sums.adler32);
    }
    if Whole(file, h, records, sums) {
      assert file == BuildHeader(h, sums.crc32) + file[44..];
      HeaderReadsBack(h, file[44..], sums.crc32);
      PrintThenParse(records, sums.adler32);
    }
  }

  lemma KnownVersion(raw: seq<byte>, crc32: Crc)
    requires ParseHeader(raw, crc32).HeaderOk?
    ensures |raw| >= 44
    ensures ParseHeader(raw, crc32).header.version == 1 || ParseHeader(raw, crc32).header.version == 2
  {
  }

  // ---- what the writer lays out ----

  datatype Entry = Entry(name: Name, payload: seq<byte>, fmtId: nat)

  function SlotKey(path: Name, name: Name): Name {
    path + [ArchivePath.SLASH] + name
  }

  function Payloads(entries: seq<Entry>): seq<byte> {
    if entries == [] then [] else Payloads(entries[..|entries| - 1]) + entries[|entries| - 1].payload
  }

  function RecordAt(path: Name, e: Entry, cursor: nat, adler: Adler): SlotRecord {
    var key := SlotKey(path, e.name);
    SlotRecord(key, adler(key), cursor, |e.payload|, e.fmtId)
  }

  function RecordsOf(path: Name, entries: seq<Entry>, adler: Adler): (r: seq<SlotRecord>)
    ensures |r| == |entries|
  {
    if entries == [] then []
    else
      var front := entries[..|entries| - 1];
      RecordsOf(path, front, adler) + [RecordAt(path, entries[|entries| - 1], |Payloads(front)|, adler)]
  }

  function HeaderFor(entries: seq<Entry>, ts: nat): Header {
    Header(FILE_VERSION, |entries|, FILE_HDR_SIZE + |Payloads(entries)|, FILE_HDR_SIZE, ts)
  }

  function FileBytes(path: Name, entries: seq<Entry>, ts: nat, sums: Sums): seq<byte> {
    BuildHeader(HeaderFor(entries, ts), sums.crc32) + Payloads(entries)
    + IndexBytes(RecordsOf(path, entries, sums.adler32))
  }

  lemma {:induction false} RecordsAt(path: Name, entries: seq<Entry>, k: nat, adler: Adler)
    requires k < |entries|
    ensures RecordsOf(path, entries, adler)[k] == RecordAt(path, entries[k], |Payloads(entries[..k])|, adler)
  {
    hide RecordAt;
    var n := |entries| - 1;
    if k == n {
    } else {
      RecordsAt(path, entries[..n], k, adler);
      assert entries[..n][..k] == entries[..k];
    }
  }

  /** Each payload sits in the block right where the payloads before it end. */
  lemma {:induction false} PayloadAt(entries: seq<Entry>, k: nat)
    requires k < |entries|
    ensures var at := |Payloads(entries[..k])|;
            && at + |entries[k].payload| <= |Payloads(entries)|
            && Payloads(entries)[at..at + |entries[k].payload|] == entries[k].payload
            && |Payloads(entries[..k + 1])| == at + |entries[k].payload|
  {
    var n := |entries| - 1;
    assert entries[..k + 1][..k] == entries[..k];
    if k == n {
    } else {
      PayloadAt(entries[..n], k);
      assert entries[..n][..k] == entries[..k];
      var at := |Payloads(entries[..k])|;
      assert Payloads(entries)[at..at + |entries[k].payload|] == Payloads(entries[..n])[at..at + |entries[k].payload|];
    }
  }

  /** A directory as the writer sees it: proper UTF-8 throughout, and no two entries under one name. */
  ghost predicate Directory(path: Name, entries: seq<Entry>) {
    && Utf8Plan.WellFormed(path)
    && (forall i :: 0 <= i < |entries| ==> Utf8Plan.WellFormed(entries[i].name))
    && forall i, j :: 0 <= i < j < |entries| ==> entries[i].name != entries[j].name
  }

  lemma SlotKeyInjective(path: Name, a: Name, b: Name)
    requires SlotKey(path, a) == SlotKey(path, b)
    ensures a == b
  {
    assert SlotKey(path, a)[|path| + 1..] == a && SlotKey(path, b)[|path| + 1..] == b;
  }

  lemma SlotKeyWellFormed(path: Name, name: Name)
    requires Utf8Plan.WellFormed(path) && Utf8Plan.WellFormed(name)
    ensures Utf8Plan.WellFormed(SlotKey(path, name))
  {
    hide Utf8Plan.WellFormed;
    ArchivePath.JoinWellFormed([path, name]);
    assert [path, name][1..] == [name];
    assert ArchivePath.JoinSlash([name]) == name;
    assert ArchivePath.JoinSlash([path, name]) == SlotKey(path, name);
  }

  lemma RecordsReadable(path: Name, entries: seq<Entry>, adler: Adler)
    requires Directory(path, entries)
    ensures Readable(RecordsOf(path, entries, adler), adler)
  {
    hide Utf8Plan.WellFormed, RecordsOf, SlotKey;
    var rs := RecordsOf(path, entries, adler);
    forall k | 0 <= k < |rs| ensures Admitted(rs, k, adler) {
      RecordsAt(path, entries, k, adler);
      SlotKeyWellFormed(path, entries[k].name);
      forall i | 0 <= i < k ensures rs[i].name != rs[k].name {
        RecordsAt(path, entries, i, adler);
        if SlotKey(path, entries[i].name) == SlotKey(path, entries[k].name) {
          SlotKeyInjective(path, entries[i].name, entries[k].name);
        }
      }
    }
  }

  lemma RecordsInBlock(path: Name, entries: seq<Entry>, ts: nat, adler: Adler)
    ensures var rs := RecordsOf(path, entries, adler);
            forall k :: 0 <= k < |rs| ==> InBlock(rs[k], HeaderFor(entries, ts))
  {
    hide RecordsOf, Payloads;
    var rs := RecordsOf(path, entries, adler);
    forall k | 0 <= k < |rs| ensures InBlock(rs[k], HeaderFor(entries, ts)) {
      RecordsAt(path, entries, k, adler);
      PayloadAt(entries, k);
    }
  }

  /** A file the writer lays out passes every check of the reader and shows the records written. */
  lemma WrittenFileOpens(path: Name, entries: seq<Entry>, ts: nat, sums: Sums)
    requires Directory(path, entries) && HeaderInRange(HeaderFor(entries, ts))
    requires forall i :: 0 <= i < |entries| ==> InRange(RecordsOf(path, entries, sums.adler32)[i])
    ensures OpenFile(FileBytes(path, entries, ts, sums), sums) ==
            Opened(HeaderFor(entries, ts), RecordsOf(path, entries, sums.adler32))
  {
    hide ParseHeader, ParseIndex, BuildHeader, Payloads, IndexBytes, RecordsOf, Directory, InRange, Readable;
    var h, rs := HeaderFor(entries, ts), RecordsOf(path, entries, sums.adler32);
    var file := FileBytes(path, entries, ts, sums);
    assert file == BuildHeader(h, sums.crc32) + (Payloads(entries) + IndexBytes(rs));
    HeaderReadsBack(h, Payloads(entries) + IndexBytes(rs), sums.crc32);
    assert file[h.indexOffset..] == IndexBytes(rs);
    RecordsReadable(path, entries, sums.adler32);
    PrintThenParse(rs, sums.adler32);
    RecordsInBlock(path, entries, ts, sums.adler32);
  }

  /** The bytes of a slot in a file. */
  function SlotPayload(file: seq<byte>, h: Header, r: SlotRecord): seq<byte>
    requires h.indexOffset <= |file| && InBlock(r, h)
  {
    file[h.dataOffset + r.offset..h.dataOffset + r.offset + r.length]
  }

  /** Every slot of a written file holds its entry's payload, and the slots tile the block: the first starts it, each
      next one starts where the one before ends, and the last ends it. */
  lemma SlotsTileBlock(path: Name, entries: seq<Entry>, ts: nat, sums: Sums, k: nat)
    requires k < |entries|
    ensures var h, rs := HeaderFor(entries, ts), RecordsOf(path, entries, sums.adler32);
            var file := FileBytes(path, entries, ts, sums);
            && h.indexOffset <= |file| && InBlock(rs[k], h)
            && SlotPayload(file, h, rs[k]) == entries[k].payload
            && rs[0].offset == 0
            && (k + 1 < |rs| ==> rs[k + 1].offset == rs[k].offset + rs[k].length)
            && (k + 1 == |rs| ==> h.dataOffset + rs[k].offset + rs[k].length == h.indexOffset)
  {
    hide BuildHeader, IndexBytes, RecordsOf;
    var h, rs := HeaderFor(entries, ts), RecordsOf(path, entries, sums.adler32);
    var file := FileBytes(path, entries, ts, sums);
    RecordsAt(path, entries, k, sums.adler32);
    RecordsAt(path, entries, 0, sums.adler32);
    PayloadAt(entries, k);
    var at := |Payloads(entries[..k])|;
    var n := |entries[k].payload|;
    assert file[44..44 + |Payloads(entries)|] == Payloads(entries);
    assert file[44 + at..44 + at + n] == file[44..44 + |Payloads(entries)|][at..at + n];
    if k + 1 < |rs| {
      RecordsAt(path, entries, k + 1, sums.adler32);
    } else {
      assert entries[..k + 1] == entries;
    }
  }
}
