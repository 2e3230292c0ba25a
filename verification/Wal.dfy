/**
 The write-ahead log: what replaying any truncation of it applies.

 Names are their UTF-8 bytes. CRC-32 and the payload codec are parameters.
 */
module Wal {
  import opened Bytes
  import opened IntCodec
  import Utf8Plan

  const MAGIC: seq<byte> := [87, 65, 76, 82]

  datatype Codec<!V> = Codec(encode: (V, nat) -> seq<byte>, decode: (seq<byte>, nat) -> Option<V>,
                             crc32: seq<byte> -> uint32)

  datatype Entry<V> = Entry(name: seq<byte>, fmtId: nat, ts: nat, value: V)

  /** What a replayed record writes into the directory. */
  datatype Write<V> = Write(name: seq<byte>, fmtId: nat, value: V)

  /** What `append` can pack. */
  predicate Packable<V>(e: Entry<V>, codec: Codec<V>) {
    && |e.name| <= UINT32_MAX && e.fmtId <= UINT32_MAX && e.ts <= UINT64_MAX
    && |codec.encode(e.value, e.fmtId)| <= UINT32_MAX
  }

  /** An entry whose name is proper UTF-8 and whose payload the codec gives back. */
  predicate Recoverable<V(==)>(e: Entry<V>, codec: Codec<V>) {
    && Packable(e, codec)
    && Utf8Plan.WellFormed(e.name)
    && codec.decode(codec.encode(e.value, e.fmtId), e.fmtId) == Some(e.value)
  }

  /** A record before its checksum, with the payload as it is stored. */
  datatype Raw = Raw(name: seq<byte>, fmtId: nat, ts: nat, data: seq<byte>)

  function RawBody(x: Raw): seq<byte> {
    MAGIC + BigEndian(4, |x.name|) + BigEndian(4, x.fmtId) + x.name + BigEndian(8, x.ts) + BigEndian(4, |x.data|)
    + x.data
  }

  function RawOf<V>(e: Entry<V>, codec: Codec<V>): Raw {
    Raw(e.name, e.fmtId, e.ts, codec.encode(e.value, e.fmtId))
  }

  function Body<V>(e: Entry<V>, codec: Codec<V>): seq<byte> {
    RawBody(RawOf(e, codec))
  }

  function RecordBytes<V>(e: Entry<V>, codec: Codec<V>): seq<byte> {
    Body(e, codec) + BigEndian(4, codec.crc32(Body(e, codec)))
  }

  function LogBytes<V>(entries: seq<Entry<V>>, codec: Codec<V>): seq<byte> {
    if entries == [] then [] else RecordBytes(entries[0], codec) + LogBytes(entries[1..], codec)
  }

  datatype Next<V> = Stop | Apply(write: Write<V>, size: nat)

  /** What replay makes of the bytes at its cursor: one write and the length of its record, or the end. */
  function NextRecord<V>(b: seq<byte>, codec: Codec<V>): (r: Next<V>)
    ensures r.Apply? ==> 0 < r.size <= |b|
  {
    if |b| < 12 || b[..4] != MAGIC then Stop
    else
      var n, fmt := FromBigEndian(b[4..8]), FromBigEndian(b[8..12]);
      if |b| < 12 + n + 12 then Stop
      else
        var p := 12 + n + 12;
        var d := FromBigEndian(b[p - 4..p]);
        if |b| < p + d + 4 then Stop
        else if !Utf8Plan.WellFormed(b[12..12 + n]) then Stop
        else if codec.crc32(b[..p + d]) != FromBigEndian(b[p + d..p + d + 4]) then Stop
        else
          match codec.decode(b[p..p + d], fmt)
          case None => Stop
          case Some(v) => Apply(Write(b[12..12 + n], fmt, v), p + d + 4)
  }

  /** Everything replay applies, in order. */
  function Replayed<V>(b: seq<byte>, codec: Codec<V>): seq<Write<V>>
    decreases |b|
  {
    match NextRecord(b, codec)
    case Stop => []
    case Apply(w, size) => [w] + Replayed(b[size..], codec)
  }

  function WriteOf<V>(e: Entry<V>): Write<V> {
    Write(e.name, e.fmtId, e.value)
  }

  function WritesOf<V>(entries: seq<Entry<V>>): seq<Write<V>> {
    if entries == [] then [] else [WriteOf(entries[0])] + WritesOf(entries[1..])
  }

  predicate Fits(x: Raw) {
    |x.name| <= UINT32_MAX && x.fmtId <= UINT32_MAX && x.ts <= UINT64_MAX && |x.data| <= UINT32_MAX
  }

  /** A record with its checksum. */
  function Framed(x: Raw, crc32: seq<byte> -> uint32): seq<byte> {
    RawBody(x) + BigEndian(4, crc32(RawBody(x)))
  }

  lemma FrameFields(x: Raw, crc32: seq<byte> -> uint32)
    requires Fits(x)
    ensures var r, n, d := Framed(x, crc32), |x.name|, |x.data|;
            var p := 12 + n + 12;
            && |r| == p + d + 4
            && r[..4] == MAGIC && FromBigEndian(r[4..8]) == n && FromBigEndian(r[8..12]) == x.fmtId
            && r[12..12 + n] == x.name && FromBigEndian(r[p - 4..p]) == d && r[p..p + d] == x.data
            && r[..p + d] == RawBody(x)
            && FromBigEndian(r[p + d..p + d + 4]) == crc32(RawBody(x))
  {
    hide BigEndian, FromBigEndian;
    var body, r, n, data := RawBody(x), Framed(x, crc32), |x.name|, x.data;
    var p := 12 + n + 12;
    Pow256Values();
    BigEndianRoundTrip(4, n);
    BigEndianRoundTrip(4, x.fmtId);
    BigEndianRoundTrip(4, |data|);
    BigEndianRoundTrip(4, crc32(body));
    assert r[..p + |data|] == body;
    assert r[p + |data|..p + |data| + 4] == BigEndian(4, crc32(body));
    assert r[4..8] == BigEndian(4, n) && r[8..12] == BigEndian(4, x.fmtId);
    assert r[12..12 + n] == x.name;
    assert r[p - 4..p] == BigEndian(4, |data|);
    assert r[p..p + |data|] == data;
  }

  /** An entry can be packed exactly when every number in its record can be read back. */
  lemma PackableExactly<V>(e: Entry<V>, codec: Codec<V>)
    ensures Packable(e, codec) <==>
            && FromBigEndian(BigEndian(4, |e.name|)) == |e.name| && FromBigEndian(BigEndian(4, e.fmtId)) == e.fmtId
            && FromBigEndian(BigEndian(8, e.ts)) == e.ts
            && FromBigEndian(BigEndian(4, |codec.encode(e.value, e.fmtId)|)) == |codec.encode(e.value, e.fmtId)|
    ensures Packable(e, codec) <==> Fits(RawOf(e, codec))
  {
    hide BigEndian, FromBigEndian;
    Pow256Values();
    SurvivesExactly(4, |e.name|);
    SurvivesExactly(4, e.fmtId);
    SurvivesExactly(8, e.ts);
    SurvivesExactly(4, |codec.encode(e.value, e.fmtId)|);
  }

  lemma RecordFields<V>(e: Entry<V>, codec: Codec<V>)
    requires Packable(e, codec)
    ensures var r, n, data := RecordBytes(e, codec), |e.name|, codec.encode(e.value, e.fmtId);
            var p := 12 + n + 12;
            && |r| == p + |data| + 4
            && r[..4] == MAGIC && FromBigEndian(r[4..8]) == n && FromBigEndian(r[8..12]) == e.fmtId
            && r[12..12 + n] == e.name && FromBigEndian(r[p - 4..p]) == |data| && r[p..p + |data|] == data
            && r[..p + |data|] == Body(e, codec)
            && FromBigEndian(r[p + |data|..p + |data| + 4]) == codec.crc32(Body(e, codec))
  {
    hide RawBody, FromBigEndian;
    FrameFields(RawOf(e, codec), codec.crc32);
  }

  lemma Slice(b: seq<byte>, r: seq<byte>, i: nat, j: nat)
    requires i <= j <= |b| && i <= j <= |r| && (b <= r || r <= b)
    ensures b[i..j] == r[i..j]
  {
  }

  // ---- exactly what replay accepts ----

  /** A record replay applies: its name is UTF-8 and its payload decodes. */
  predicate Replayable<V>(x: Raw, codec: Codec<V>) {
    Fits(x) && Utf8Plan.WellFormed(x.name) && codec.decode(x.data, x.fmtId).Some?
  }

  function WriteOfRaw<V>(x: Raw, codec: Codec<V>): Write<V>
    requires Replayable(x, codec)
  {
    Write(x.name, x.fmtId, codec.decode(x.data, x.fmtId).value)
  }

  lemma FrameIsApplied<V>(x: Raw, b: seq<byte>, codec: Codec<V>)
    requires Replayable(x, codec) && Framed(x, codec.crc32) <= b
    ensures NextRecord(b, codec) == Apply(WriteOfRaw(x, codec), |Framed(x, codec.crc32)|)
  {
    hide Framed, RawBody, FromBigEndian, Utf8Plan.WellFormed;
    var r, n, d := Framed(x, codec.crc32), |x.name|, |x.data|;
    var p := 12 + n + 12;
    FrameFields(x, codec.crc32);
    Slice(b, r, 0, 4);
    Slice(b, r, 4, 8);
    Slice(b, r, 8, 12);
    Slice(b, r, 12, 12 + n);
    Slice(b, r, p - 4, p);
    Slice(b, r, p, p + d);
    Slice(b, r, 0, p + d);
    Slice(b, r, p + d, p + d + 4);
  }

  /** The record at the front of b, as its length fields cut it. */
  ghost function FrontRaw(b: seq<byte>): Raw
    requires |b| >= 12
  {
    var n := FromBigEndian(b[4..8]);
    var p := 12 + n + 12;
    if |b| < p then Raw([], 0, 0, [])
    else
      var d := FromBigEndian(b[p - 4..p]);
      if |b| < p + d then Raw([], 0, 0, [])
      else Raw(b[12..12 + n], FromBigEndian(b[8..12]), FromBigEndian(b[p - 12..p - 4]), b[p..p + d])
  }

  lemma Glue(b: seq<byte>, i: nat, j: nat)
    requires i <= j <= |b|
    ensures b[..j] == b[..i] + b[i..j]
  {
  }

  lemma Reprints(b: seq<byte>, i: nat, w: nat)
    requires i + w <= |b|
    ensures BigEndian(w, FromBigEndian(b[i..i + w])) == b[i..i + w] && FromBigEndian(b[i..i + w]) < Pow256(w)
  {
    BigEndianReprints(b[i..i + w]);
  }

  /** Whatever is applied is a framed record: its last four bytes are the checksum of all the bytes before them. */
  lemma AppliedIsFrame<V>(b: seq<byte>, codec: Codec<V>) returns (x: Raw)
    requires NextRecord(b, codec).Apply?
    ensures Replayable(x, codec) && Framed(x, codec.crc32) <= b
    ensures NextRecord(b, codec) == Apply(WriteOfRaw(x, codec), |Framed(x, codec.crc32)|)
    ensures var size := NextRecord(b, codec).size;
            4 <= size && FromBigEndian(b[size - 4..size]) == codec.crc32(b[..size - 4])
  {
    hide BigEndian, FromBigEndian, Utf8Plan.WellFormed;
    var n := FromBigEndian(b[4..8]);
    var p := 12 + n + 12;
    var d := FromBigEndian(b[p - 4..p]);
    Pow256Values();
    Reprints(b, 4, 4);
    Reprints(b, 8, 4);
    Reprints(b, p - 12, 8);
    Reprints(b, p - 4, 4);
    Reprints(b, p + d, 4);
    x := FrontRaw(b);
    Glue(b, 4, 8);
    Glue(b, 8, 12);
    Glue(b, 12, 12 + n);
    Glue(b, p - 12, p - 4);
    Glue(b, p - 4, p);
    Glue(b, p, p + d);
    assert RawBody(x) == b[..p + d];
    Glue(b, p + d, p + d + 4);
  }

  function FramesBytes(xs: seq<Raw>, crc32: seq<byte> -> uint32): seq<byte> {
    if xs == [] then [] else Framed(xs[0], crc32) + FramesBytes(xs[1..], crc32)
  }

  function WritesOfRaw<V>(xs: seq<Raw>, codec: Codec<V>): seq<Write<V>>
    requires forall i :: 0 <= i < |xs| ==> Replayable(xs[i], codec)
  {
    if xs == [] then [] else [WriteOfRaw(xs[0], codec)] + WritesOfRaw(xs[1..], codec)
  }

  /** The records replay applies to any file at all: the framed records at its front, in order, and none beyond the
      first place at which no framed record stands. */
  lemma {:induction false} ReplayExactly<V>(b: seq<byte>, codec: Codec<V>) returns (xs: seq<Raw>)
    ensures forall i :: 0 <= i < |xs| ==> Replayable(xs[i], codec)
    ensures Replayed(b, codec) == WritesOfRaw(xs, codec)
    ensures FramesBytes(xs, codec.crc32) <= b
    ensures forall x :: Replayable(x, codec) ==> !(Framed(x, codec.crc32) <= b[|FramesBytes(xs, codec.crc32)|..])
    decreases |b|
  {
    hide NextRecord, Framed, Replayable, WriteOfRaw;
    var next := NextRecord(b, codec);
    if next.Stop? {
      xs := [];
      forall x | Replayable(x, codec)
        ensures !(Framed(x, codec.crc32) <= b)
      {
        if Framed(x, codec.crc32) <= b {
          FrameIsApplied(x, b, codec);
        }
      }
      assert b[0..] == b;
    } else {
      var x := AppliedIsFrame(b, codec);
      var rest := ReplayExactly(b[next.size..], codec);
      xs := [x] + rest;
      assert xs[1..] == rest;
      var size := |Framed(x, codec.crc32)|;
      assert b == b[..size] + b[size..];
      assert b[size..][|FramesBytes(rest, codec.crc32)|..] == b[|FramesBytes(xs, codec.crc32)|..];
    }
  }

  /** A whole record is applied. */
  lemma WholeRecord<V>(e: Entry<V>, tail: seq<byte>, codec: Codec<V>)
    requires Recoverable(e, codec)
    ensures NextRecord(RecordBytes(e, codec) + tail, codec) == Apply(WriteOf(e), |RecordBytes(e, codec)|)
  {
    hide RecordBytes, Body, FromBigEndian, Utf8Plan.WellFormed;
    var r, n, d := RecordBytes(e, codec), |e.name|, |codec.encode(e.value, e.fmtId)|;
    RecordFields(e, codec);
    var b, p := r + tail, 12 + n + 12;
    Slice(b, r, 0, 4);
    Slice(b, r, 4, 8);
    Slice(b, r, 8, 12);
    Slice(b, r, 12, 12 + n);
    Slice(b, r, p - 4, p);
    Slice(b, r, p, p + d);
    Slice(b, r, 0, p + d);
    Slice(b, r, p + d, p + d + 4);
  }

  /** A record cut short anywhere ends the replay. */
  lemma TornRecord<V>(e: Entry<V>, c: nat, codec: Codec<V>)
    requires Packable(e, codec) && c < |RecordBytes(e, codec)|
    ensures NextRecord(RecordBytes(e, codec)[..c], codec) == Stop
  {
    hide RecordBytes, Body, FromBigEndian, Utf8Plan.WellFormed;
    var r, n := RecordBytes(e, codec), |e.name|;
    RecordFields(e, codec);
    var b, p := r[..c], 12 + n + 12;
    if c >= 12 {
      Slice(b, r, 4, 8);
      if c >= p {
        Slice(b, r, p - 4, p);
      }
    }
  }

  /** How many records lie wholly before a cut. */
  function WholeBefore<V>(entries: seq<Entry<V>>, c: nat, codec: Codec<V>): (n: nat)
    ensures n <= |entries|
  {
    if entries == [] || |RecordBytes(entries[0], codec)| > c then 0
    else 1 + WholeBefore(entries[1..], c - |RecordBytes(entries[0], codec)|, codec)
  }

  lemma {:induction false} WholeBeforeExact<V>(entries: seq<Entry<V>>, c: nat, codec: Codec<V>, n: nat)
    requires n <= |entries|
    ensures n <= WholeBefore(entries, c, codec) <==> |LogBytes(entries[..n], codec)| <= c
  {
    hide RecordBytes;
    if n == 0 {
    } else {
      var size := |RecordBytes(entries[0], codec)|;
      assert entries[..n][1..] == entries[1..][..n - 1];
      if size <= c {
        WholeBeforeExact(entries[1..], c - size, codec, n - 1);
      }
    }
  }

  /** Replaying any truncation of a log applies exactly the records lying wholly before the cut, in order. */
  lemma {:induction false} ReplayAfterTruncation<V>(entries: seq<Entry<V>>, c: nat, codec: Codec<V>)
    requires forall i :: 0 <= i < |entries| ==> Recoverable(entries[i], codec)
    requires c <= |LogBytes(entries, codec)|
    ensures Replayed(LogBytes(entries, codec)[..c], codec) == WritesOf(entries[..WholeBefore(entries, c, codec)])
    decreases |entries|
  {
    hide RecordBytes, NextRecord, Recoverable;
    if entries == [] {
      EmptyStops(codec);
    } else {
      var r, rest := RecordBytes(entries[0], codec), LogBytes(entries[1..], codec);
      var b := LogBytes(entries, codec)[..c];
      if c < |r| {
        assert b == r[..c];
        TornFirst(entries[0], c, codec);
      } else {
        assert b == r + rest[..c - |r|];
        WholeRecord(entries[0], rest[..c - |r|], codec);
        assert b[|r|..] == rest[..c - |r|];
        ReplayAfterTruncation(entries[1..], c - |r|, codec);
        var n := WholeBefore(entries, c, codec);
        assert entries[..n][1..] == entries[1..][..n - 1];
      }
    }
  }

  lemma EmptyStops<V>(codec: Codec<V>)
    ensures NextRecord([], codec) == Stop
  {
  }

  lemma TornFirst<V>(e: Entry<V>, c: nat, codec: Codec<V>)
    requires Recoverable(e, codec) && c < |RecordBytes(e, codec)|
    ensures NextRecord(RecordBytes(e, codec)[..c], codec) == Stop
  {
    TornRecord(e, c, codec);
  }

  lemma {:induction false} LogAppend<V>(entries: seq<Entry<V>>, e: Entry<V>, codec: Codec<V>)
    ensures LogBytes(entries + [e], codec) == LogBytes(entries, codec) + RecordBytes(e, codec)
  {
    hide RecordBytes;
    if entries == [] {
      assert [e][1..] == [];
    } else {
      LogAppend(entries[1..], e, codec);
      assert (entries + [e])[1..] == entries[1..] + [e];
    }
  }

  // ---- the log file ----

  class WriteAheadLog<!V(!new)> {
    const codec: Codec<V>
    var file: seq<byte>

    /** Opens whatever file is there; appends go to its end. */
    constructor (found: seq<byte>, codec: Codec<V>)
      ensures file == found && this.codec == codec
    {
      file := found;
      this.codec := codec;
    }

    /** Appends one record, or nothing when a field does not fit. */
    method Append(e: Entry<V>) returns (ok: bool)
      modifies this
      ensures ok <==> Packable(e, codec)
      ensures file == if ok then old(file) + RecordBytes(e, codec) else old(file)
    {
      ok := Packable(e, codec);
      if ok {
        var body := Body(e, codec);
        file := file + (body + BigEndian(4, codec.crc32(body)));
      }
    }

    method Checkpoint()
      modifies this
      ensures file == []
    {
      file := [];
    }

    /** Appending entries to an empty log gives their log. */
    method AppendAll(entries: seq<Entry<V>>)
      requires file == [] && forall i :: 0 <= i < |entries| ==> Packable(entries[i], codec)
      modifies this
      ensures file == LogBytes(entries, codec)
    {
      for i := 0 to |entries|
        invariant file == LogBytes(entries[..i], codec)
      {
        LogAppend(entries[..i], entries[i], codec);
        assert entries[..i] + [entries[i]] == entries[..i + 1];
        var ok := Append(entries[i]);
      }
      assert entries[..|entries|] == entries;
    }

    /** Reads one record at the cursor, field by field, stopping at the first thing that is missing or wrong. */
    method ReadRecord(cursor: nat) returns (r: Next<V>)
      requires cursor <= |file|
      ensures r == NextRecord(file[cursor..], codec)
    {
      hide FromBigEndian, Utf8Plan.WellFormed;
      ghost var b := file[cursor..];
      if cursor + 12 > |file| {
        return Stop;
      }
      assert b[..4] == file[cursor..cursor + 4] && b[4..8] == file[cursor + 4..cursor + 8];
      assert b[8..12] == file[cursor + 8..cursor + 12];
      if file[cursor..cursor + 4] != MAGIC {
        return Stop;
      }
      var n, fmt := FromBigEndian(file[cursor + 4..cursor + 8]), FromBigEndian(file[cursor + 8..cursor + 12]);
      var p := cursor + 12;
      if p + n + 12 > |file| || !Utf8Plan.WellFormed(file[p..p + n]) {
        assert p + n + 12 <= |file| ==> file[p..p + n] == b[12..12 + n];
        return Stop;
      }
      var name := file[p..p + n];
      assert name == b[12..12 + n];
      p := p + n + 12;
      var d := FromBigEndian(file[p - 4..p]);
      assert file[p - 4..p] == b[12 + n + 8..12 + n + 12];
      if p + d + 4 > |file| {
        return Stop;
      }
      var data := file[p..p + d];
      assert data == b[12 + n + 12..12 + n + 12 + d] && file[cursor..p + d] == b[..12 + n + 12 + d];
      assert file[p + d..p + d + 4] == b[12 + n + 12 + d..12 + n + 12 + d + 4];
      if codec.crc32(file[cursor..p + d]) != FromBigEndian(file[p + d..p + d + 4]) {
        return Stop;
      }
      var value := codec.decode(data, fmt);
      r := if value.None? then Stop else Apply(Write(name, fmt, value.value), p + d + 4 - cursor);
    }

    /** Applies records from the front until one is not whole or not right. */
    method Replay() returns (writes: seq<Write<V>>)
      ensures writes == Replayed(file, codec)
    {
      hide NextRecord;
      writes := [];
      var cursor := 0;
      assert file[0..] == file;
      while cursor < |file|
        invariant cursor <= |file| && writes + Replayed(file[cursor..], codec) == Replayed(file, codec)
        decreases |file| - cursor
      {
        var next := ReadRecord(cursor);
        if next.Stop? {
          return;
        }
        assert file[cursor..][next.size..] == file[cursor + next.size..];
        writes := writes + [next.write];
        cursor := cursor + next.size;
      }
      EmptyStops(codec);
      assert file[cursor..] == [];
    }
  }
}
