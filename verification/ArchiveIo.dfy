/** The methods that write and read a transition image, shown to compute `Image` and `Parse`. */
module ArchiveIo {
  import opened Bytes
  import opened IntCodec
  import opened Segments
  import opened ArchivePath
  import opened Archive

  const ARCHIVE_CHUNK_BYTES: nat := 1024 * 1024

  /** One entry: its header, its path, its payload and its digest. */
  method EntryChunks(f: File, env: Env) returns (chunks: seq<seq<byte>>)
    ensures Flatten(chunks) == EntryBytes(f, env)
  {
    var header, digest := EntryHeader(|f.path|, |f.data|), env.sha256(f.data);
    var payload := Pieces(f.data, ARCHIVE_CHUNK_BYTES);
    chunks := [header] + [f.path] + payload + [digest];
    FlattenOne([], header);
    FlattenOne([header], f.path);
    FlattenAppend([header] + [f.path], payload);
    FlattenOne([header] + [f.path] + payload, digest);
  }

  /** The chunks of a mount's image, or None when a path is empty or too long for a header. */
  method ArchiveChunks(files: seq<File>, env: Env) returns (r: Option<seq<seq<byte>>>)
    ensures r.Some? <==> forall i :: 0 <= i < |files| ==> Encodable(files[i])
    ensures r.Some? ==> Flatten(r.value) == Image(files, env)
  {
    hide Flatten, EntriesBytes, EntryBytes, Image;
    var chunks: seq<seq<byte>> := [MAGIC];
    Opening(files, env);
    for i := 0 to |files|
      invariant forall j :: 0 <= j < i ==> Encodable(files[j])
      invariant Flatten(chunks) + EntriesBytes(files[i..], env) == Image(files, env)
    {
      if !Encodable(files[i]) {
        return None;
      }
      var entry := EntryChunks(files[i], env);
      FlattenAppend(chunks, entry);
      EntriesStep(files, i, env);
      chunks := chunks + entry;
    }
    FlattenOne(chunks, EntryHeader(0, 0));
    Closing(files, env);
    r := Some(chunks + [EntryHeader(0, 0)]);
  }

  lemma Opening(files: seq<File>, env: Env)
    ensures Flatten([MAGIC]) + EntriesBytes(files[0..], env) == Image(files, env)
  {
    assert files[0..] == files;
    FlattenOne([], MAGIC);
    assert [] + [MAGIC] == [MAGIC];
  }

  lemma Closing(files: seq<File>, env: Env)
    ensures EntriesBytes(files[|files|..], env) == EntryHeader(0, 0)
  {
  }

  lemma EntriesStep(files: seq<File>, i: nat, env: Env)
    requires i < |files|
    ensures EntriesBytes(files[i..], env) == EntryBytes(files[i], env) + EntriesBytes(files[i + 1..], env)
  {
    assert files[i..][1..] == files[i + 1..];
  }

  /** Reads sized requests out of a sequence of chunks. */
  class SegmentArchiveReader {
    var chunks: seq<seq<byte>>
    var buffer: seq<byte>
    var closed: bool

    /** What is still to be read. */
    ghost function Content(): seq<byte>
      reads this
    {
      buffer + Flatten(chunks)
    }

    constructor (source: seq<seq<byte>>)
      ensures !closed && Content() == Flatten(source)
    {
      chunks, buffer, closed := source, [], false;
    }

    method Close()
      modifies this
      ensures closed && buffer == [] && chunks == old(chunks)
    {
      closed, buffer := true, [];
    }

    /** Moves the next chunk into the buffer. */
    method Pull()
      requires chunks != []
      modifies this`chunks, this`buffer
      ensures Content() == old(Content()) && chunks == old(chunks)[1..]
    {
      buffer := buffer + chunks[0];
      chunks := chunks[1..];
    }

    /** The next `size` bytes, or all there are left; None when closed. Chunk boundaries do not show. */
    method Read(size: int) returns (r: Option<seq<byte>>)
      modifies this`chunks, this`buffer
      ensures r.None? <==> closed
      ensures closed ==> Content() == old(Content())
      ensures !closed ==> r.value + Content() == old(Content())
      ensures !closed ==> |r.value| == if 0 <= size < |old(Content())| then size else |old(Content())|
    {
      if closed {
        return None;
      }
      if size == 0 {
        return Some([]);
      }
      while chunks != [] && (size < 0 || |buffer| < size)
        invariant Content() == old(Content())
        decreases |chunks|
      {
        Pull();
      }
      var n := if 0 <= size < |buffer| then size else |buffer|;
      r := Some(buffer[..n]);
      buffer := buffer[n..];
    }

    /** Reads exactly `size` bytes, or reports that there are too few. */
    method ReadExactly(size: nat) returns (r: Option<seq<byte>>)
      requires !closed
      modifies this`chunks, this`buffer
      ensures r.Some? <==> |old(Content())| >= size
      ensures r.Some? ==> r.value == old(Content())[..size] && Content() == old(Content())[size..]
    {
      var got := Read(size);
      assert old(Content())[..|got.value|] == got.value;
      r := if |got.value| == size then got else None;
    }

    /** Reads a payload piece by piece. */
    method ReadPayload(size: nat) returns (r: Option<seq<byte>>)
      requires !closed
      modifies this`chunks, this`buffer
      ensures r.Some? <==> |old(Content())| >= size
      ensures r.Some? ==> r.value == old(Content())[..size] && Content() == old(Content())[size..]
    {
      var data := [];
      while |data| < size
        invariant |data| <= size && data + Content() == old(Content())
        decreases size - |data|
      {
        ghost var before := Content();
        var want := if size - |data| < ARCHIVE_CHUNK_BYTES then size - |data| else ARCHIVE_CHUNK_BYTES;
        var chunk := Read(want);
        if chunk.value == [] {
          return None;
        }
        assert data + before == data + chunk.value + Content();
        data := data + chunk.value;
      }
      assert old(Content())[..size] == data && old(Content())[size..] == Content();
      r := Some(data);
    }
  }

  /** One turn of the reader's loop: the outcome it stops with, or the file it has read. */
  method ReadEntry(source: SegmentArchiveReader, st: Progress, env: Env) returns (stop: Option<Outcome>, file: File)
    requires !source.closed
    modifies source`chunks, source`buffer
    ensures NextEntry(old(source.Content()), st, env) ==
            if stop.Some? then Stop(stop.value) else Entry(file, source.Content())
  {
    file := File([], []);
    ghost var b := source.Content();
    var header := source.ReadExactly(ENTRY_SIZE);
    if header.None? {
      return Some(Err(Truncated)), file;
    }
    var pathLen, size := FromBigEndian(header.value[..4]), FromBigEndian(header.value[4..]);
    assert header.value[..4] == b[..4] && header.value[4..] == b[4..12];
    if pathLen == 0 {
      if size != 0 {
        return Some(Err(BadEndMarker)), file;
      }
      var more := source.Read(1);
      return Some(if more.value != [] then Err(TrailingBytes) else Ok(st.files)), file;
    }
    if pathLen > MAX_PATH_BYTES {
      return Some(Err(PathTooLong)), file;
    }
    stop, file := ReadFile(source, b, pathLen, size, st, env);
  }

  /** The part of an entry that follows its header. */
  method ReadFile(source: SegmentArchiveReader, ghost b: seq<byte>, pathLen: nat, size: nat, st: Progress, env: Env)
    returns (stop: Option<Outcome>, file: File)
    requires !source.closed
    requires |b| >= 12 && source.Content() == b[12..]
    requires FromBigEndian(b[..4]) == pathLen && FromBigEndian(b[4..12]) == size
    requires 0 < pathLen <= MAX_PATH_BYTES
    modifies source`chunks, source`buffer
    ensures NextEntry(b, st, env) == if stop.Some? then Stop(stop.value) else Entry(file, source.Content())
  {
    hide FromBigEndian, SafeRelative;
    file := File([], []);
    var i, j := 12 + pathLen, 12 + pathLen + size;
    var raw := source.ReadExactly(pathLen);
    if raw.None? {
      return Some(Err(PathTruncated)), file;
    }
    assert raw.value == b[12..i] && source.Content() == b[i..];
    var bad := PathError(st, raw.value, env);
    if bad.Some? {
      return Some(Err(bad.value)), file;
    }
    var data := source.ReadPayload(size);
    if data.None? {
      return Some(Err(PayloadTruncated)), file;
    }
    assert data.value == b[i..j] && source.Content() == b[j..];
    var digest := source.ReadExactly(DIGEST_BYTES);
    if digest.None? || env.sha256(data.value) != digest.value {
      assert digest.Some? ==> digest.value == b[j..j + 32];
      return Some(Err(DigestMismatch)), file;
    }
    assert digest.value == b[j..j + 32] && source.Content() == b[j + 32..];
    if st.count + 1 > MAX_ARCHIVE_FILES {
      return Some(Err(TooManyFiles)), file;
    }
    return None, File(SafeRelative(raw.value).value, data.value);
  }

  /** The reader's loop. */
  method ReadImage(chunks: seq<seq<byte>>, env: Env) returns (r: Outcome)
    ensures r == Parse(Flatten(chunks), env)
  {
    hide NextEntry, Add;
    var source := new SegmentArchiveReader(chunks);
    ghost var b := source.Content();
    var magic := source.ReadExactly(|MAGIC|);
    if magic != Some(MAGIC) {
      source.Close();
      return Err(BadMagic);
    }
    var st := START;
    while true
      invariant !source.closed && fresh(source)
      invariant ParseEntries(source.Content(), st, env) == Parse(b, env)
      decreases |source.Content()|
    {
      var stop, file := ReadEntry(source, st, env);
      if stop.Some? {
        source.Close();
        return stop.value;
      }
      st := Add(st, file, env);
    }
  }

  /** Materialises an image delivered in chunks; how it was cut into chunks does not matter. */
  method Materialize(chunks: seq<seq<byte>>, env: Env) returns (r: Outcome)
    ensures r == Parse(Flatten(chunks), env)
    ensures r.Ok? ==> forall p :: p in r.mount ==> NormalPath(p)
  {
    r := ReadImage(chunks, env);
    forall p | r.Ok? && p in r.mount
      ensures NormalPath(p)
    {
      AcceptedPathsAreNormal(Flatten(chunks), env, p);
    }
  }

  /** Archiving a mount, cutting the image into segments and materialising from them gives the mount back. */
  method ArchiveAndMaterialize(files: seq<File>, segmentBytes: nat, env: Env) returns (r: Option<Outcome>)
    requires segmentBytes > 0
    ensures r.Some? <==> forall i :: 0 <= i < |files| ==> Encodable(files[i])
    ensures r.Some? && SafeMount(files, env) ==> r.value == Ok(MountOf(Canons(files)))
    ensures r.Some? && !SafeMount(files, env) ==> r.value.Err?
  {
    hide Parse, Image, SafeMount;
    var chunks := ArchiveChunks(files, env);
    if chunks.None? {
      return None;
    }
    var segments := SplitStream(chunks.value, segmentBytes);
    CutCovers(Image(files, env), segmentBytes);
    var outcome := Materialize(segments, env);
    ImageReadsBack(files, env);
    r := Some(outcome);
  }
}
