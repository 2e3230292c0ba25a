/** The in-memory slot index: its batch packing kernel, its printer and its parser. */
module SlotIndex {
  import opened Bytes
  import opened IntCodec
  import opened SlotFormat
  import Utf8Plan

  // ---- fixed headers in one pass ----

  /** A sequence with part of it overwritten. */
  function Splice(s: seq<byte>, at: nat, x: seq<byte>): (r: seq<byte>)
    requires at + |x| <= |s|
    ensures |r| == |s|
  {
    s[..at] + x + s[at + |x|..]
  }

  lemma SpliceNext(s: seq<byte>, at: nat, x: seq<byte>, y: seq<byte>)
    requires at + |x| + |y| <= |s|
    ensures Splice(Splice(s, at, x), at + |x|, y) == Splice(s, at, x + y)
  {
  }

  lemma SpliceNone(s: seq<byte>, at: nat)
    requires at <= |s|
    ensures Splice(s, at, []) == s
  {
  }

  lemma SpliceOne(s: seq<byte>, at: nat, x: byte)
    requires at < |s|
    ensures Splice(s, at, [x]) == s[at := x]
  {
  }

  /** Stores one big-endian field, byte by byte. */
  method StoreField(out: array<byte>, at: nat, w: nat, v: nat)
    requires at + w <= out.Length
    modifies out
    ensures out[..] == Splice(old(out[..]), at, BigEndian(w, v))
  {
    hide BigEndian, Splice, Pow256;
    ghost var s, field := out[..], BigEndian(w, v);
    SpliceNone(s, at);
    assert field[..0] == [];
    for k := 0 to w
      invariant out[..] == Splice(s, at, field[..k])
    {
      BigEndianAt(w, v, k);
      SpliceNext(s, at, field[..k], [field[k]]);
      assert field[..k] + [field[k]] == field[..k + 1];
      SpliceOne(out[..], at + k, field[k]);
      out[at + k] := v / Pow256(w - 1 - k) % 256;
    }
    assert field[..w] == field;
  }

  /** The 24-byte fixed header of one record. */
  method StoreFixed(out: array<byte>, base: nat, r: SlotRecord)
    requires base + 24 <= out.Length
    modifies out
    ensures out[..] == Splice(old(out[..]), base, FixedBytes(r))
  {
    hide BigEndian, Splice;
    ghost var s := out[..];
    ghost var h, o, l := BigEndian(8, r.nameHash), BigEndian(8, r.offset), BigEndian(4, r.length);
    ghost var f, n := BigEndian(2, r.fmtId), BigEndian(2, |r.name|);
    StoreField(out, base, 8, r.nameHash);
    SpliceNext(s, base, h, o);
    StoreField(out, base + 8, 8, r.offset);
    SpliceNext(s, base, h + o, l);
    StoreField(out, base + 16, 4, r.length);
    SpliceNext(s, base, h + o + l, f);
    StoreField(out, base + 20, 2, r.fmtId);
    SpliceNext(s, base, h + o + l + f, n);
    StoreField(out, base + 22, 2, |r.name|);
  }

  /** The headers of a batch of records, one after another. */
  function FixedBatch(records: seq<SlotRecord>): (s: seq<byte>)
    ensures |s| == 24 * |records|
  {
    if records == [] then [] else FixedBatch(records[..|records| - 1]) + FixedBytes(records[|records| - 1])
  }

  method PackSlotFixedBatch(records: seq<SlotRecord>, out: array<byte>)
    requires out.Length == 24 * |records|
    modifies out
    ensures out[..] == FixedBatch(records)
  {
    hide FixedBytes;
    for i := 0 to |records|
      invariant out[..24 * i] == FixedBatch(records[..i])
    {
      assert records[..i + 1][..i] == records[..i];
      ghost var before := out[..];
      StoreFixed(out, 24 * i, records[i]);
      assert out[..24 * (i + 1)] == out[..][..24 * (i + 1)] == before[..24 * i] + FixedBytes(records[i]);
    }
    assert records[..|records|] == records && out[..24 * |records|] == out[..];
  }

  lemma {:induction false} FixedAt(records: seq<SlotRecord>, i: nat)
    requires i < |records|
    ensures FixedBatch(records)[24 * i..24 * i + 24] == FixedBytes(records[i])
  {
    hide FixedBytes;
    var k := |records| - 1;
    if i == k {
    } else {
      FixedAt(records[..k], i);
      assert FixedBatch(records)[24 * i..24 * i + 24] == FixedBatch(records[..k])[24 * i..24 * i + 24];
    }
  }

  lemma {:induction false} IndexBytesAppend(a: seq<SlotRecord>, r: SlotRecord)
    ensures IndexBytes(a + [r]) == IndexBytes(a) + SlotBytes(r)
  {
    hide SlotBytes;
    if a == [] {
      assert [r][1..] == [];
    } else {
      IndexBytesAppend(a[1..], r);
      assert (a + [r])[1..] == a[1..] + [r];
    }
  }

  // ---- the index ----

  /** The dictionary beside the record list: the last record of a name wins. */
  function ByName(records: seq<SlotRecord>): map<Name, SlotRecord> {
    if records == [] then map[] else
      var r := records[|records| - 1];
      ByName(records[..|records| - 1])[r.name := r]
  }

  /** Over distinct names the dictionary finds exactly the listed records. */
  lemma {:induction false} ByNameFinds(records: seq<SlotRecord>, name: Name)
    requires forall i, j :: 0 <= i < j < |records| ==> records[i].name != records[j].name
    ensures name in ByName(records) <==> Named(records, name)
    ensures name in ByName(records) ==> ByName(records)[name] in records && ByName(records)[name].name == name
    ensures forall i :: 0 <= i < |records| && records[i].name == name ==> ByName(records)[name] == records[i]
  {
    if records == [] {
    } else {
      ByNameFinds(records[..|records| - 1], name);
    }
  }

  datatype Loaded = Index(index: SlotTableIndex) | Corrupt(error: IndexError)

  class SlotTableIndex {
    var records: seq<SlotRecord>
    var byName: map<Name, SlotRecord>

    ghost predicate Valid()
      reads this
    {
      byName == ByName(records)
    }

    constructor ()
      ensures Valid() && records == []
    {
      records, byName := [], map[];
    }

    method Add(r: SlotRecord)
      requires Valid()
      modifies this
      ensures Valid() && records == old(records) + [r]
    {
      records := records + [r];
      byName := byName[r.name := r];
      assert records[..|records| - 1] == old(records);
    }

    method Lookup(name: Name) returns (r: Option<SlotRecord>)
      requires Valid()
      ensures r.Some? <==> name in ByName(records)
      ensures r.Some? ==> r.value == ByName(records)[name]
    {
      r := if name in byName then Some(byName[name]) else None;
    }

    /** Prints the index, or refuses a record whose fields do not fit. */
    method ToBytes() returns (r: Option<seq<byte>>)
      ensures r.Some? <==> forall i :: 0 <= i < |records| ==> InRange(records[i])
      ensures r.Some? ==> r.value == IndexBytes(records)
    {
      hide FixedBytes, FixedBatch;
      if records == [] {
        return Some([]);
      }
      for i := 0 to |records|
        invariant forall j :: 0 <= j < i ==> InRange(records[j])
      {
        if !InRange(records[i]) {
          return None;
        }
      }
      var fixed := new byte[24 * |records|];
      PackSlotFixedBatch(records, fixed);
      var bytes := [];
      for i := 0 to |records|
        invariant fixed[..] == FixedBatch(records)
        invariant bytes == IndexBytes(records[..i])
      {
        FixedAt(records, i);
        IndexBytesAppend(records[..i], records[i]);
        assert records[..i] + [records[i]] == records[..i + 1];
        assert fixed[24 * i..24 * i + 24] == fixed[..][24 * i..24 * i + 24];
        bytes := bytes + (fixed[24 * i..24 * i + 24] + records[i].name);
      }
      assert records[..|records|] == records;
      r := Some(bytes);
    }
  }

  /** One turn of the parser at a cursor. */
  method ParseSlot(buf: seq<byte>, cursor: nat, seen: set<Name>, ghost records: seq<SlotRecord>, adler: Adler)
    returns (error: Option<IndexError>, r: SlotRecord, next: nat)
    requires cursor <= |buf|
    requires forall name :: name in seen <==> Named(records, name)
    ensures cursor <= next <= |buf|
    ensures NextSlot(buf[cursor..], records, adler) == if error.Some? then Bad(error.value) else Slot(r, buf[next..])
  {
    hide Utf8Plan.WellFormed, FromBigEndian, Named;
    r, next := SlotRecord([], 0, 0, 0, 0), cursor;
    ghost var b := buf[cursor..];
    if cursor + SLOT_FIXED_SIZE > |buf| {
      return Some(IncompleteHeader), r, next;
    }
    assert b[..8] == buf[cursor..cursor + 8] && b[8..16] == buf[cursor + 8..cursor + 16];
    assert b[16..20] == buf[cursor + 16..cursor + 20] && b[20..22] == buf[cursor + 20..cursor + 22];
    assert b[22..24] == buf[cursor + 22..cursor + 24];
    var hash := FromBigEndian(buf[cursor..cursor + 8]);
    var n := FromBigEndian(buf[cursor + 22..cursor + 24]);
    var at := cursor + SLOT_FIXED_SIZE;
    if at + n > |buf| {
      return Some(IncompleteName), r, next;
    }
    var name := buf[at..at + n];
    assert name == b[24..24 + n] && buf[at + n..] == b[24 + n..];
    if !Utf8Plan.WellFormed(name) {
      return Some(NotUtf8), r, next;
    }
    if hash != adler(name) {
      return Some(HashMismatch), r, next;
    }
    if name in seen {
      return Some(DuplicateName), r, next;
    }
    r := SlotRecord(name, hash, FromBigEndian(buf[cursor + 8..cursor + 16]),
                    FromBigEndian(buf[cursor + 16..cursor + 20]), FromBigEndian(buf[cursor + 20..cursor + 22]));
    return None, r, at + n;
  }

  /** Parses a whole index; the count check after the loop cannot fail. */
  method FromBytes(buf: seq<byte>, count: nat, adler: Adler) returns (r: Loaded)
    ensures r.Corrupt? <==> ParseIndex(buf, count, adler).Err?
    ensures r.Corrupt? ==> ParseIndex(buf, count, adler) == Err(r.error)
    ensures r.Index? ==> fresh(r.index) && r.index.Valid() && ParseIndex(buf, count, adler) == Ok(r.index.records)
  {
    hide NextSlot, ByName;
    var idx := new SlotTableIndex();
    var cursor := 0;
    var seen: set<Name> := {};
    assert buf[0..] == buf;
    for i := 0 to count
      invariant cursor <= |buf| && idx.Valid() && |idx.records| == i && fresh(idx)
      invariant forall name :: name in seen <==> Named(idx.records, name)
      invariant ParseSlots(buf[cursor..], count - i, idx.records, adler) == ParseIndex(buf, count, adler)
    {
      ghost var before := idx.records;
      var error, record, next := ParseSlot(buf, cursor, seen, idx.records, adler);
      if error.Some? {
        return Corrupt(error.value);
      }
      idx.Add(record);
      NamedAppend(before, record);
      seen := seen + {record.name};
      cursor := next;
    }
    if cursor != |buf| {
      return Corrupt(TrailingBytes);
    }
    if |idx.records| != count {
      assert false;
    }
    r := Index(idx);
  }

  lemma NamedAppend(records: seq<SlotRecord>, r: SlotRecord)
    ensures forall name :: Named(records + [r], name) <==> Named(records, name) || name == r.name
  {
    forall name ensures Named(records + [r], name) <==> Named(records, name) || name == r.name {
      if Named(records, name) {
        var i :| 0 <= i < |records| && records[i].name == name;
        assert (records + [r])[i].name == name;
      }
      assert (records + [r])[|records|].name == r.name;
    }
  }
}
