/**
 The slot index of a .tds file: a printer and a fail-closed parser that undo each other.

 Names are their UTF-8 bytes. The Adler-32 checksum is a parameter.
 */
module SlotFormat {
  import opened Bytes
  import opened IntCodec
  import Utf8Plan

  const SLOT_FIXED_SIZE: nat := 24

  type Name = seq<byte>
  type Adler = Name -> uint32

  datatype SlotRecord = SlotRecord(name: Name, nameHash: nat, offset: nat, length: nat, fmtId: nat)

  datatype IndexError =
    | IncompleteHeader | IncompleteName | NotUtf8 | HashMismatch | DuplicateName | TrailingBytes

  datatype Parsed = Ok(records: seq<SlotRecord>) | Err(error: IndexError)

  /** What the printer demands of a record. */
  predicate InRange(r: SlotRecord) {
    && |r.name| <= UINT16_MAX
    && r.nameHash <= UINT64_MAX
    && r.offset <= UINT64_MAX
    && r.length <= UINT32_MAX
    && r.fmtId <= UINT16_MAX
  }

  function FixedBytes(r: SlotRecord): (s: seq<byte>)
    ensures |s| == SLOT_FIXED_SIZE
  {
    BigEndian(8, r.nameHash) + BigEndian(8, r.offset) + BigEndian(4, r.length) + BigEndian(2, r.fmtId)
    + BigEndian(2, |r.name|)
  }

  /** A record is in range exactly when each of its fields can be read back from its fixed header. */
  lemma InRangeExactly(r: SlotRecord)
    ensures var b := FixedBytes(r);
            InRange(r) <==>
            && FromBigEndian(b[..8]) == r.nameHash && FromBigEndian(b[8..16]) == r.offset
            && FromBigEndian(b[16..20]) == r.length && FromBigEndian(b[20..22]) == r.fmtId
            && FromBigEndian(b[22..24]) == |r.name|
  {
    hide BigEndian, FromBigEndian;
    Pow256Values();
    SurvivesExactly(8, r.nameHash);
    SurvivesExactly(8, r.offset);
    SurvivesExactly(4, r.length);
    SurvivesExactly(2, r.fmtId);
    SurvivesExactly(2, |r.name|);
    var b := FixedBytes(r);
    assert b[..8] == BigEndian(8, r.nameHash) && b[8..16] == BigEndian(8, r.offset);
    assert b[16..20] == BigEndian(4, r.length) && b[20..22] == BigEndian(2, r.fmtId);
    assert b[22..24] == BigEndian(2, |r.name|);
  }

  function SlotBytes(r: SlotRecord): seq<byte> {
    FixedBytes(r) + r.name
  }

  /** The printed index. */
  function IndexBytes(records: seq<SlotRecord>): seq<byte> {
    if records == [] then [] else SlotBytes(records[0]) + IndexBytes(records[1..])
  }

  predicate Named(records: seq<SlotRecord>, name: Name) {
    exists i :: 0 <= i < |records| && records[i].name == name
  }

  datatype Turn = Bad(error: IndexError) | Slot(record: SlotRecord, rest: seq<byte>)

  /** One record at the head of a buffer, given the records before it. */
  function NextSlot(b: seq<byte>, seen: seq<SlotRecord>, adler: Adler): (t: Turn)
    ensures t.Slot? ==> |t.rest| < |b|
  {
    if |b| < SLOT_FIXED_SIZE then Bad(IncompleteHeader)
    else
      var n := FromBigEndian(b[22..24]);
      if |b| < 24 + n then Bad(IncompleteName)
      else
        var name := b[24..24 + n];
        var hash := FromBigEndian(b[..8]);
        if !Utf8Plan.WellFormed(name) then Bad(NotUtf8)
        else if hash != adler(name) then Bad(HashMismatch)
        else if Named(seen, name) then Bad(DuplicateName)
        else Slot(SlotRecord(name, hash, FromBigEndian(b[8..16]), FromBigEndian(b[16..20]), FromBigEndian(b[20..22])),
                  b[24 + n..])
  }

  /** `count` more records and nothing after them. */
  function ParseSlots(b: seq<byte>, count: nat, seen: seq<SlotRecord>, adler: Adler): Parsed
    decreases count
  {
    if count == 0 then if b == [] then Ok(seen) else Err(TrailingBytes)
    else
      match NextSlot(b, seen, adler)
      case Bad(error) => Err(error)
      case Slot(r, rest) => ParseSlots(rest, count - 1, seen + [r], adler)
  }

  function ParseIndex(b: seq<byte>, count: nat, adler: Adler): Parsed {
    ParseSlots(b, count, [], adler)
  }

  // ---- one record ----

  /** The record at position k can be read back: a proper name under its own checksum, not used before. */
  ghost predicate Admitted(records: seq<SlotRecord>, k: nat, adler: Adler)
    requires k < |records|
  {
    && Utf8Plan.WellFormed(records[k].name)
    && records[k].nameHash == adler(records[k].name)
    && !Named(records[..k], records[k].name)
  }

  ghost predicate Readable(records: seq<SlotRecord>, adler: Adler) {
    forall k :: 0 <= k < |records| ==> Admitted(records, k, adler)
  }

  lemma SlotReads(r: SlotRecord, tail: seq<byte>, seen: seq<SlotRecord>, adler: Adler)
    requires InRange(r)
    ensures NextSlot(SlotBytes(r) + tail, seen, adler) ==
            if !Utf8Plan.WellFormed(r.name) then Bad(NotUtf8)
            else if r.nameHash != adler(r.name) then Bad(HashMismatch)
            else if Named(seen, r.name) then Bad(DuplicateName)
            else Slot(r, tail)
  {
    hide FromBigEndian, BigEndian, Utf8Plan.WellFormed, Named;
    Pow256Values();
    BigEndianRoundTrip(8, r.nameHash);
    BigEndianRoundTrip(8, r.offset);
    BigEndianRoundTrip(4, r.length);
    BigEndianRoundTrip(2, r.fmtId);
    BigEndianRoundTrip(2, |r.name|);
    var b := SlotBytes(r) + tail;
    var n := |r.name|;
    assert b[..8] == BigEndian(8, r.nameHash) && b[8..16] == BigEndian(8, r.offset);
    assert b[16..20] == BigEndian(4, r.length) && b[20..22] == BigEndian(2, r.fmtId);
    assert b[22..24] == BigEndian(2, n);
    assert b[24..24 + n] == r.name && b[24 + n..] == tail;
  }

  lemma SlotReprints(b: seq<byte>, seen: seq<SlotRecord>, adler: Adler)
    requires NextSlot(b, seen, adler).Slot?
    ensures var t := NextSlot(b, seen, adler);
            && b == SlotBytes(t.record) + t.rest && InRange(t.record)
            && Admitted(seen + [t.record], |seen|, adler)
  {
    hide FromBigEndian, BigEndian, Utf8Plan.WellFormed, Named;
    Pow256Values();
    var n := FromBigEndian(b[22..24]);
    BigEndianReprints(b[..8]);
    BigEndianReprints(b[8..16]);
    BigEndianReprints(b[16..20]);
    BigEndianReprints(b[20..22]);
    BigEndianReprints(b[22..24]);
    var t := NextSlot(b, seen, adler);
    assert FixedBytes(t.record) == b[..8] + b[8..16] + b[16..20] + b[20..22] + b[22..24];
    assert b == b[..8] + b[8..16] + b[16..20] + b[20..22] + b[22..24] + b[24..24 + n] + b[24 + n..];
    assert (seen + [t.record])[..|seen|] == seen;
  }

  // ---- the two directions ----

  lemma {:induction false} ReadBack(all: seq<SlotRecord>, k: nat, adler: Adler)
    requires k <= |all| && forall i :: 0 <= i < |all| ==> InRange(all[i])
    requires forall i :: 0 <= i < k ==> Admitted(all, i, adler)
    ensures var r := ParseSlots(IndexBytes(all[k..]), |all| - k, all[..k], adler);
            if Readable(all, adler) then r == Ok(all) else r.Err?
    decreases |all| - k
  {
    hide NextSlot, SlotBytes, Utf8Plan.WellFormed, Named;
    if k == |all| {
      assert all[..k] == all;
    } else {
      assert all[k..][1..] == all[k + 1..];
      SlotReads(all[k], IndexBytes(all[k + 1..]), all[..k], adler);
      if Admitted(all, k, adler) {
        assert all[..k] + [all[k]] == all[..k + 1];
        ReadBack(all, k + 1, adler);
      }
    }
  }

  /** Printed records parse back to themselves exactly when their names are proper, checksummed and distinct. */
  lemma PrintThenParse(records: seq<SlotRecord>, adler: Adler)
    requires forall i :: 0 <= i < |records| ==> InRange(records[i])
    ensures var r := ParseIndex(IndexBytes(records), |records|, adler);
            if Readable(records, adler) then r == Ok(records) else r.Err?
  {
    hide ParseSlots, IndexBytes, Readable;
    assert records[0..] == records && records[..0] == [];
    ReadBack(records, 0, adler);
  }

  lemma {:induction false} ParsedFrom(b: seq<byte>, count: nat, seen: seq<SlotRecord>, adler: Adler)
    requires ParseSlots(b, count, seen, adler).Ok?
    requires Readable(seen, adler) && forall i :: 0 <= i < |seen| ==> InRange(seen[i])
    ensures var rs := ParseSlots(b, count, seen, adler).records;
            && |rs| == |seen| + count && rs[..|seen|] == seen && IndexBytes(rs[|seen|..]) == b
            && Readable(rs, adler) && forall i :: 0 <= i < |rs| ==> InRange(rs[i])
    decreases count
  {
    hide NextSlot, SlotBytes, Admitted, InRange;
    if count == 0 {
    } else {
      SlotReprints(b, seen, adler);
      var t := NextSlot(b, seen, adler);
      var more := seen + [t.record];
      forall k | 0 <= k < |more| ensures Admitted(more, k, adler) {
        if k < |seen| {
          AdmittedPrefix(seen, more, k, adler);
        }
      }
      ParsedFrom(t.rest, count - 1, more, adler);
      var rs := ParseSlots(b, count, seen, adler).records;
      assert rs[..|seen|] == rs[..|more|][..|seen|];
      assert rs[|seen|] == rs[..|more|][|seen|] == t.record;
      assert rs[|seen|..][1..] == rs[|more|..];
    }
  }

  lemma AdmittedPrefix(seen: seq<SlotRecord>, more: seq<SlotRecord>, k: nat, adler: Adler)
    requires k < |seen| && seen <= more && Admitted(seen, k, adler)
    ensures Admitted(more, k, adler)
  {
    hide Utf8Plan.WellFormed;
    assert more[..k] == seen[..k];
  }

  /** Every accepted buffer prints back to itself. */
  lemma ParseThenPrint(b: seq<byte>, count: nat, adler: Adler)
    requires ParseIndex(b, count, adler).Ok?
    ensures var rs := ParseIndex(b, count, adler).records;
            && |rs| == count && IndexBytes(rs) == b
            && Readable(rs, adler) && forall i :: 0 <= i < |rs| ==> InRange(rs[i])
  {
    hide ParseSlots, IndexBytes, Admitted;
    ParsedFrom(b, count, [], adler);
    var rs := ParseIndex(b, count, adler).records;
    assert rs[0..] == rs;
  }
}
