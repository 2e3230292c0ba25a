/** The writer and the reader of a .tds file, shown to compute `FileBytes` and `OpenFile`. */
module TdsIo {
  import opened Bytes
  import opened SlotFormat
  import opened SlotIndex
  import opened TdsFile

  /** Lays out a directory; None when a field does not fit its width. */
  method WriteDirectory(path: Name, entries: seq<Entry>, ts: nat, sums: Sums) returns (r: Option<seq<byte>>)
    ensures r.Some? <==> && HeaderInRange(HeaderFor(entries, ts))
                         && forall i :: 0 <= i < |entries| ==> InRange(RecordsOf(path, entries, sums.adler32)[i])
    ensures r.Some? ==> r.value == FileBytes(path, entries, ts, sums)
  {
    hide BuildHeader, IndexBytes, ByName;
    var idx := new SlotTableIndex();
    var data, cursor := [], 0;
    for i := 0 to |entries|
      invariant fresh(idx) && idx.Valid()
      invariant idx.records == RecordsOf(path, entries[..i], sums.adler32)
      invariant data == Payloads(entries[..i]) && cursor == |data|
    {
      assert entries[..i + 1][..i] == entries[..i];
      idx.Add(RecordAt(path, entries[i], cursor, sums.adler32));
      data := data + entries[i].payload;
      cursor := cursor + |entries[i].payload|;
    }
    assert entries[..|entries|] == entries;
    var index := idx.ToBytes();
    var header := HeaderFor(entries, ts);
    if index.None? || !HeaderInRange(header) {
      return None;
    }
    var raw := BuildHeader(header, sums.crc32);
    HeaderReadsBack(header, [], sums.crc32);
    assert raw + [] == raw;
    if ParseHeader(raw, sums.crc32).HeaderBad? {
      assert false;
    }
    r := Some(raw + data + index.value);
  }

  /** A snapshot of one file: its bytes, its header and its index. */
  class TdsReader {
    const file: seq<byte>
    const header: Header
    const index: SlotTableIndex

    ghost predicate Valid(sums: Sums)
      reads this, index
    {
      && index.Valid()
      && OpenFile(file, sums) == Opened(header, index.records)
    }

    constructor (file: seq<byte>, header: Header, index: SlotTableIndex, ghost sums: Sums)
      requires index.Valid() && OpenFile(file, sums) == Opened(header, index.records)
      ensures Valid(sums) && this.file == file && this.header == header && this.index == index
    {
      this.file, this.header, this.index := file, header, index;
    }

    /** The stored bytes a record points at, or a refusal exactly when it reaches outside the payload block; no record
        of the file's own index does. */
    method StoredPayload(rec: SlotRecord, ghost sums: Sums) returns (r: Option<seq<byte>>)
      requires Valid(sums)
      ensures header.indexOffset <= |file|
      ensures r.Some? <==> InBlock(rec, header)
      ensures r.Some? ==> r.value == SlotPayload(file, header, rec)
      ensures rec in index.records ==> r.Some?
    {
      hide ParseHeader, ParseIndex, ByName;
      OpenedFileIsWhole(file, sums);
      var start := header.dataOffset + rec.offset;
      var end := start + rec.length;
      if start < header.dataOffset || end > header.indexOffset || end > |file| {
        return None;
      }
      var payload := file[start..end];
      if |payload| != rec.length {
        assert false;
      }
      r := Some(payload);
    }
  }

  datatype OpenResult = Reader(reader: TdsReader) | Failed(error: FileError)

  /** Opens a file with every header, index and geometry check. */
  method OpenReader(file: seq<byte>, sums: Sums) returns (r: OpenResult)
    ensures r.Failed? ==> OpenFile(file, sums) == Refused(r.error)
    ensures r.Reader? ==> r.reader.Valid(sums) && r.reader.file == file
    ensures r.Reader? <==> OpenFile(file, sums).Opened?
  {
    hide ParseHeader, ParseIndex, ByName;
    var parsed := ParseHeader(file, sums.crc32);
    if parsed.HeaderBad? {
      return Failed(parsed.error);
    }
    var h := parsed.header;
    if h.dataOffset < FILE_HDR_SIZE {
      return Failed(DataInsideHeader);
    }
    if h.indexOffset < h.dataOffset {
      return Failed(IndexBeforeData);
    }
    if h.indexOffset > |file| {
      return Failed(IndexPastEnd);
    }
    var loaded := FromBytes(file[h.indexOffset..], h.slotCount, sums.adler32);
    if loaded.Corrupt? {
      return Failed(BadIndex(loaded.error));
    }
    var records := loaded.index.records;
    for i := 0 to |records|
      invariant forall j :: 0 <= j < i ==> InBlock(records[j], h)
      invariant loaded.index.Valid() && loaded.index.records == records
    {
      if !InBlock(records[i], h) {
        return Failed(SlotOutOfBounds);
      }
    }
    var reader := new TdsReader(file, h, loaded.index, sums);
    r := Reader(reader);
  }

  /** Writing a directory, opening the file and reading every slot gives the payloads back in order. */
  method WriteThenRead(path: Name, entries: seq<Entry>, ts: nat, sums: Sums) returns (r: Option<seq<seq<byte>>>)
    requires Directory(path, entries)
    ensures r.Some? <==> && HeaderInRange(HeaderFor(entries, ts))
                         && forall i :: 0 <= i < |entries| ==> InRange(RecordsOf(path, entries, sums.adler32)[i])
    ensures r.Some? ==> |r.value| == |entries| && forall i :: 0 <= i < |entries| ==> r.value[i] == entries[i].payload
  {
    hide OpenFile, FileBytes, RecordsOf, SlotPayload, InBlock, Directory, ByName;
    var file := WriteDirectory(path, entries, ts, sums);
    if file.None? {
      return None;
    }
    WrittenFileOpens(path, entries, ts, sums);
    var result := OpenReader(file.value, sums);
    var reader := result.reader;
    var payloads := [];
    for i := 0 to |entries|
      invariant reader.Valid(sums)
      invariant |payloads| == i && forall j :: 0 <= j < i ==> payloads[j] == entries[j].payload
    {
      SlotsTileBlock(path, entries, ts, sums, i);
      var payload := reader.StoredPayload(reader.index.records[i], sums);
      payloads := payloads + [payload.value];
    }
    r := Some(payloads);
  }
}
