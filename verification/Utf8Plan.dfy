/**
 Strict UTF-8 and the greedy chunk planner.

 `IsCodePoint` is the grammar of section 4 of RFC 3629. The planner cuts a byte string between code points into
 chunks of at most `chunkSize` bytes (a longer code point stands alone) and uses as few chunks as any legal plan.
 */
module Utf8Plan {
  import opened Bytes

  predicate Tail(b: byte) {
    0x80 <= b <= 0xBF
  }

  /** The productions UTF8-1 to UTF8-4. */
  predicate IsCodePoint(s: seq<byte>) {
    || (|s| == 1 && s[0] <= 0x7F)
    || (|s| == 2 && 0xC2 <= s[0] <= 0xDF && Tail(s[1]))
    || (|s| == 3 && s[0] == 0xE0 && 0xA0 <= s[1] <= 0xBF && Tail(s[2]))
    || (|s| == 3 && 0xE1 <= s[0] <= 0xEC && Tail(s[1]) && Tail(s[2]))
    || (|s| == 3 && s[0] == 0xED && 0x80 <= s[1] <= 0x9F && Tail(s[2]))
    || (|s| == 3 && 0xEE <= s[0] <= 0xEF && Tail(s[1]) && Tail(s[2]))
    || (|s| == 4 && s[0] == 0xF0 && 0x90 <= s[1] <= 0xBF && Tail(s[2]) && Tail(s[3]))
    || (|s| == 4 && 0xF1 <= s[0] <= 0xF3 && Tail(s[1]) && Tail(s[2]) && Tail(s[3]))
    || (|s| == 4 && s[0] == 0xF4 && 0x80 <= s[1] <= 0x8F && Tail(s[2]) && Tail(s[3]))
  }

  /** Width of the code point that starts s, or 0 when none does. */
  function Width(s: seq<byte>): (w: nat)
    ensures w > 0 ==> w <= |s| && IsCodePoint(s[..w])
    ensures w == 0 ==> forall k :: 0 <= k <= |s| ==> !IsCodePoint(s[..k])
  {
    if |s| >= 1 && IsCodePoint(s[..1]) then 1
    else if |s| >= 2 && IsCodePoint(s[..2]) then 2
    else if |s| >= 3 && IsCodePoint(s[..3]) then 3
    else if |s| >= 4 && IsCodePoint(s[..4]) then 4
    else 0
  }

  /** UTF8-octets: a sequence of code points. */
  predicate WellFormed(s: seq<byte>) {
    s == [] || (Width(s) > 0 && WellFormed(s[Width(s)..]))
  }

  /** The lead byte fixes the width, so no code point is a proper prefix of another. */
  lemma WidthUnique(s: seq<byte>, k: nat)
    requires k <= |s| && IsCodePoint(s[..k])
    ensures Width(s) == k
  {
    var w := Width(s);
    assert s[..k][0] == s[..w][0];
  }

  // ---- well-formed text is the encoding of scalar values ----

  /** A Unicode scalar value: not a surrogate. */
  predicate Scalar(v: nat) {
    v < 0xD800 || 0xE000 <= v <= 0x10FFFF
  }

  /** The octets of a scalar value, by the table of section 3 of RFC 3629. */
  function Octets(v: nat): seq<byte>
    requires v <= 0x10FFFF
  {
    if v < 0x80 then [v]
    else if v < 0x800 then [0xC0 + v / 0x40, 0x80 + v % 0x40]
    else if v < 0x1_0000 then [0xE0 + v / 0x1000, 0x80 + v / 0x40 % 0x40, 0x80 + v % 0x40]
    else [0xF0 + v / 0x4_0000, 0x80 + v / 0x1000 % 0x40, 0x80 + v / 0x40 % 0x40, 0x80 + v % 0x40]
  }

  lemma OctetsAreCodePoint(v: nat)
    requires Scalar(v)
    ensures IsCodePoint(Octets(v))
  {
  }

  /** The value a code point stands for: the bits its octets carry, put together. */
  function ValueOf(s: seq<byte>): nat
    requires IsCodePoint(s)
  {
    if |s| == 1 then s[0]
    else if |s| == 2 then Bits([s[0] - 0xC0, s[1] - 0x80])
    else if |s| == 3 then Bits([s[0] - 0xE0, s[1] - 0x80, s[2] - 0x80])
    else Bits([s[0] - 0xF0, s[1] - 0x80, s[2] - 0x80, s[3] - 0x80])
  }

  /** Digits of six bits each. */
  function Bits(digits: seq<nat>): nat {
    if digits == [] then 0 else 0x40 * Bits(digits[..|digits| - 1]) + digits[|digits| - 1]
  }

  lemma BitsLast(digits: seq<nat>, d: nat)
    ensures Bits(digits + [d]) == 0x40 * Bits(digits) + d
  {
    assert (digits + [d])[..|digits|] == digits;
  }

  lemma NoBits()
    ensures Bits([]) == 0
  {
  }

  lemma TwoDigits(a: nat, b: nat)
    requires b < 0x40
    ensures var v := Bits([a, b]); v == 0x40 * a + b && v / 0x40 == a && v % 0x40 == b
  {
    hide Bits;
    NoBits();
    BitsLast([], a);
    BitsLast([a], b);
    assert [] + [a] == [a] && [a] + [b] == [a, b];
  }

  lemma ThreeDigits(a: nat, b: nat, c: nat)
    requires b < 0x40 && c < 0x40
    ensures var v := Bits([a, b, c]);
            v == 0x1000 * a + 0x40 * b + c && v / 0x1000 == a && v / 0x40 % 0x40 == b && v % 0x40 == c
  {
    hide Bits;
    TwoDigits(a, b);
    BitsLast([a, b], c);
    assert [a, b] + [c] == [a, b, c];
    assert Bits([a, b, c]) / 0x40 == 0x40 * a + b;
  }

  lemma FourDigits(a: nat, b: nat, c: nat, d: nat)
    requires b < 0x40 && c < 0x40 && d < 0x40
    ensures var v := Bits([a, b, c, d]);
            && v == 0x4_0000 * a + 0x1000 * b + 0x40 * c + d
            && v / 0x4_0000 == a && v / 0x1000 % 0x40 == b && v / 0x40 % 0x40 == c && v % 0x40 == d
  {
    hide Bits;
    ThreeDigits(a, b, c);
    BitsLast([a, b, c], d);
    assert [a, b, c] + [d] == [a, b, c, d];
    var v := Bits([a, b, c, d]);
    assert v / 0x40 == 0x1000 * a + 0x40 * b + c;
    assert v / 0x1000 == 0x40 * a + b;
  }

  lemma CodePointIsOctets(s: seq<byte>)
    requires IsCodePoint(s)
    ensures Scalar(ValueOf(s)) && Octets(ValueOf(s)) == s
  {
    hide Bits;
    if |s| == 2 {
      TwoDigits(s[0] - 0xC0, s[1] - 0x80);
    } else if |s| == 3 {
      ThreeDigits(s[0] - 0xE0, s[1] - 0x80, s[2] - 0x80);
    } else if |s| == 4 {
      FourDigits(s[0] - 0xF0, s[1] - 0x80, s[2] - 0x80, s[3] - 0x80);
    }
  }

  predicate Scalars(vs: seq<nat>) {
    forall i :: 0 <= i < |vs| ==> Scalar(vs[i])
  }

  function Encoding(vs: seq<nat>): seq<byte>
    requires Scalars(vs)
  {
    if vs == [] then [] else assert Scalar(vs[0]); Octets(vs[0]) + Encoding(vs[1..])
  }

  lemma {:induction false} EncodingIsWellFormed(vs: seq<nat>)
    requires Scalars(vs)
    ensures WellFormed(Encoding(vs))
  {
    hide IsCodePoint, Octets, Width;
    if vs == [] {
    } else {
      var first, rest := Octets(vs[0]), Encoding(vs[1..]);
      var s := first + rest;
      OctetsAreCodePoint(vs[0]);
      assert s[..|first|] == first && s[|first|..] == rest;
      WidthUnique(s, |first|);
      EncodingIsWellFormed(vs[1..]);
      NotEmpty(first);
    }
  }

  lemma NotEmpty(s: seq<byte>)
    requires IsCodePoint(s)
    ensures s != []
  {
  }

  lemma {:induction false} WellFormedIsEncoding(s: seq<byte>) returns (vs: seq<nat>)
    requires WellFormed(s)
    ensures Scalars(vs) && Encoding(vs) == s
  {
    hide IsCodePoint, Octets;
    if s == [] {
      vs := [];
    } else {
      var w := Width(s);
      CodePointIsOctets(s[..w]);
      var rest := WellFormedIsEncoding(s[w..]);
      vs := [ValueOf(s[..w])] + rest;
      assert vs[1..] == rest;
      assert s == s[..w] + s[w..];
    }
  }

  /** The well-formed byte strings are exactly the encodings of sequences of scalar values. */
  lemma WellFormedExactly(s: seq<byte>)
    ensures WellFormed(s) <==> exists vs :: Scalars(vs) && Encoding(vs) == s
  {
    hide WellFormed, Encoding, Scalar;
    if WellFormed(s) {
      var vs := WellFormedIsEncoding(s);
    }
    if vs: seq<nat> :| Scalars(vs) && Encoding(vs) == s {
      EncodingIsWellFormed(vs);
    }
  }

  lemma WidthPrefix(a: seq<byte>, b: seq<byte>)
    requires Width(a) > 0
    ensures Width(a + b) == Width(a)
  {
    assert (a + b)[..Width(a)] == a[..Width(a)];
    WidthUnique(a + b, Width(a));
  }

  /** Decoding is unambiguous: after a well-formed prefix, the whole is well formed exactly when the rest is. */
  lemma {:induction false} Cancel(a: seq<byte>, b: seq<byte>)
    requires WellFormed(a)
    ensures WellFormed(a + b) <==> WellFormed(b)
    decreases |a|
  {
    hide IsCodePoint, Width;
    if a == [] {
      assert a + b == b;
    } else {
      var w := Width(a);
      WidthPrefix(a, b);
      Cancel(a[w..], b);
      assert (a + b)[w..] == a[w..] + b;
    }
  }

  // ---- boundaries ----

  /** A position between two code points. */
  ghost predicate Boundary(data: seq<byte>, p: int) {
    0 <= p <= |data| && WellFormed(data[..p])
  }

  lemma BoundaryReach(data: seq<byte>, p: nat, b: nat)
    requires Boundary(data, p) && Boundary(data, b) && p < b
    ensures 0 < Width(data[p..]) && p + Width(data[p..]) <= b
  {
    hide IsCodePoint;
    var d := data[p..b];
    assert data[..b] == data[..p] + d;
    Cancel(data[..p], d);
    WidthPrefix(d, data[b..]);
    assert data[p..] == d + data[b..];
  }

  lemma NextBoundary(data: seq<byte>, p: nat)
    requires Boundary(data, p)
    requires Width(data[p..]) > 0
    ensures Boundary(data, p + Width(data[p..]))
    ensures forall b :: Boundary(data, b) && b > p ==> b >= p + Width(data[p..])
  {
    hide IsCodePoint;
    var w := Width(data[p..]);
    var c := data[p..][..w];
    assert c[..w] == c;
    WidthUnique(c, w);
    assert WellFormed(c);
    Cancel(data[..p], c);
    assert data[..p] + c == data[..p + w];
    forall b | Boundary(data, b) && b > p
      ensures b >= p + w
    {
      BoundaryReach(data, p, b);
    }
  }

  /** In a well-formed string everything after a boundary is well formed too. */
  lemma SuffixWellFormed(data: seq<byte>, p: nat)
    requires Boundary(data, p)
    ensures WellFormed(data) <==> WellFormed(data[p..])
  {
    Cancel(data[..p], data[p..]);
    assert data[..p] + data[p..] == data;
  }

  // ---- plans ----

  function StartOf(bounds: seq<nat>, j: nat): nat
    requires j <= |bounds|
  {
    if j == 0 then 0 else bounds[j - 1]
  }

  /** A chunk is legal when it fits or is a single code point. */
  ghost predicate LegalChunk(data: seq<byte>, chunkSize: nat, lo: nat, hi: nat) {
    lo < hi <= |data| && (hi - lo <= chunkSize || IsCodePoint(data[lo..hi]))
  }

  /** Cuts between code points that cover data[..end]. */
  ghost predicate LegalPlanTo(data: seq<byte>, chunkSize: nat, bounds: seq<nat>, end: nat) {
    && StartOf(bounds, |bounds|) == end
    && forall j :: 0 <= j < |bounds| ==> LegalAt(data, chunkSize, bounds, j)
  }

  ghost predicate LegalAt(data: seq<byte>, chunkSize: nat, bounds: seq<nat>, j: int) {
    0 <= j < |bounds| && Boundary(data, bounds[j]) && LegalChunk(data, chunkSize, StartOf(bounds, j), bounds[j])
  }

  ghost predicate LegalPlan(data: seq<byte>, chunkSize: nat, bounds: seq<nat>) {
    LegalPlanTo(data, chunkSize, bounds, |data|)
  }

  /** Every chunk is as long as it can be: any later boundary is out of its reach. */
  ghost predicate Greedy(data: seq<byte>, chunkSize: nat, bounds: seq<nat>) {
    forall j :: 0 <= j < |bounds| ==> MaximalAt(data, chunkSize, bounds, j)
  }

  ghost predicate MaximalAt(data: seq<byte>, chunkSize: nat, bounds: seq<nat>, j: int) {
    0 <= j < |bounds| && MaximalChunk(data, chunkSize, StartOf(bounds, j), bounds[j])
  }

  ghost predicate MaximalChunk(data: seq<byte>, chunkSize: nat, lo: nat, hi: nat) {
    forall b :: Boundary(data, b) && b > hi ==> b - lo > chunkSize
  }

  /** A greedy plan stays ahead of every legal plan, chunk by chunk. */
  lemma {:induction false} GreedyStaysAhead(data: seq<byte>, chunkSize: nat, greedy: seq<nat>, other: seq<nat>, j: nat)
    requires LegalPlan(data, chunkSize, greedy) && Greedy(data, chunkSize, greedy)
    requires LegalPlan(data, chunkSize, other)
    requires j < |greedy| && j < |other|
    ensures other[j] <= greedy[j]
  {
    hide IsCodePoint, WellFormed;
    var s, g := StartOf(other, j), StartOf(greedy, j);
    if j == 0 {
    } else {
      GreedyStaysAhead(data, chunkSize, greedy, other, j - 1);
    }
    assert LegalAt(data, chunkSize, other, j) && MaximalAt(data, chunkSize, greedy, j);
    assert LegalAt(data, chunkSize, greedy, j);
    if IsCodePoint(data[s..other[j]]) {
      StartIsBoundary(data, chunkSize, other, j);
      WholeCodePoint(data, s, other[j]);
    }
  }

  lemma StartIsBoundary(data: seq<byte>, chunkSize: nat, bounds: seq<nat>, j: nat)
    requires j <= |bounds|
    requires forall k :: 0 <= k < |bounds| ==> LegalAt(data, chunkSize, bounds, k)
    ensures Boundary(data, StartOf(bounds, j))
  {
    assert j == 0 || LegalAt(data, chunkSize, bounds, j - 1);
  }

  /** No boundary lies strictly inside a code point. */
  lemma WholeCodePoint(data: seq<byte>, lo: nat, hi: nat)
    requires Boundary(data, lo) && lo < hi <= |data| && IsCodePoint(data[lo..hi])
    ensures forall b :: Boundary(data, b) && b > lo ==> b >= hi
  {
    assert data[lo..][..hi - lo] == data[lo..hi];
    WidthUnique(data[lo..], hi - lo);
    NextBoundary(data, lo);
  }

  /** No legal plan uses fewer chunks than a greedy one. */
  lemma GreedyIsShortest(data: seq<byte>, chunkSize: nat, greedy: seq<nat>, other: seq<nat>)
    requires LegalPlan(data, chunkSize, greedy) && Greedy(data, chunkSize, greedy)
    requires LegalPlan(data, chunkSize, other)
    ensures |greedy| <= |other|
  {
    hide IsCodePoint, WellFormed;
    var n := |other|;
    if n < |greedy| {
      assert LegalAt(data, chunkSize, greedy, n);
      if n > 0 {
        GreedyStaysAhead(data, chunkSize, greedy, other, n - 1);
      }
    }
  }

  /** Each chunk of a legal plan decodes on its own. */
  lemma ChunksWellFormed(data: seq<byte>, chunkSize: nat, bounds: seq<nat>, j: nat)
    requires LegalPlan(data, chunkSize, bounds)
    requires j < |bounds|
    ensures StartOf(bounds, j) <= bounds[j] <= |data|
    ensures WellFormed(data[StartOf(bounds, j)..bounds[j]])
  {
    hide IsCodePoint;
    assert LegalAt(data, chunkSize, bounds, j);
    StartIsBoundary(data, chunkSize, bounds, j);
    var lo, hi := StartOf(bounds, j), bounds[j];
    assert data[..hi] == data[..lo] + data[lo..hi];
    Cancel(data[..lo], data[lo..hi]);
  }

  // ---- the planner ----

  datatype ErrorCode =
    | InvalidStart | InvalidContinuation | Truncated | Overlong | Surrogate | OutOfRange

  datatype Utf8Error = Utf8Error(code: ErrorCode, start: nat, end: nat)

  /** The number of bytes a lead byte asks for; 0 for a byte that cannot lead. */
  function LeadWidth(lead: byte): nat {
    if lead <= 0x7F then 1
    else if 0xC2 <= lead <= 0xDF then 2
    else if 0xE0 <= lead <= 0xEF then 3
    else if 0xF0 <= lead <= 0xF4 then 4
    else 0
  }

  /** What each error says about the bytes at a position: the code, and the range it points at. */
  predicate Explains(e: Utf8Error, data: seq<byte>, position: nat)
    requires position < |data|
  {
    var lead := data[position];
    var width := LeadWidth(lead);
    && position <= e.start < e.end <= |data|
    && match e.code
       case InvalidStart => width == 0 && e.start == position && e.end == position + 1
       case Truncated => |data| - position < width && e.start == position && e.end == |data|
       case InvalidContinuation =>
         && position < e.start < position + width <= |data| && e.end == e.start + 1 && !Tail(data[e.start])
         && forall k :: position < k < e.start ==> Tail(data[k])
       case Overlong =>
         && WholeAt(e, data, position)
         && ((lead == 0xE0 && data[position + 1] < 0xA0) || (lead == 0xF0 && data[position + 1] < 0x90))
       case Surrogate => WholeAt(e, data, position) && lead == 0xED && data[position + 1] > 0x9F
       case OutOfRange => WholeAt(e, data, position) && lead == 0xF4 && data[position + 1] > 0x8F
  }

  /** The error covers a lead byte with all the continuation bytes it asks for. */
  predicate WholeAt(e: Utf8Error, data: seq<byte>, position: nat)
    requires position < |data|
  {
    && e.start == position && e.end == position + LeadWidth(data[position]) <= |data|
    && LeadWidth(data[position]) >= 2
    && forall k :: position < k < e.end ==> Tail(data[k])
  }

  /** The error is about the first position at which the data stops being well formed. */
  ghost predicate FirstBad(e: Utf8Error, data: seq<byte>, p: nat) {
    p < |data| && WellFormed(data[..p]) && Width(data[p..]) == 0 && Explains(e, data, p)
  }

  /** Measure the code point at `position`, or say why there is none. */
  method CodePointWidth(data: seq<byte>, position: nat) returns (width: nat, error: Option<Utf8Error>)
    requires position < |data|
    ensures width == Width(data[position..])
    ensures error.Some? <==> width == 0
    ensures error.Some? ==> Explains(error.value, data, position)
  {
    var lead := data[position];
    var rest := data[position..];
    var remaining := |data| - position;
    var expected := 0;
    width := 0;
    if lead <= 0x7F {
      WidthUnique(rest, 1);
      return 1, None;
    }
    if 0xC2 <= lead <= 0xDF {
      expected := 2;
    } else if 0xE0 <= lead <= 0xEF {
      expected := 3;
    } else if 0xF0 <= lead <= 0xF4 {
      expected := 4;
    } else {
      return 0, Some(Utf8Error(InvalidStart, position, position + 1));
    }
    if remaining < expected {
      return 0, Some(Utf8Error(Truncated, position, |data|));
    }
    var offset := 1;
    while offset < expected
      invariant 1 <= offset <= expected
      invariant forall k :: 1 <= k < offset ==> Tail(rest[k])
      invariant forall k :: position < k < position + offset ==> Tail(data[k])
    {
      assert rest[offset] == data[position + offset];
      if !Tail(data[position + offset]) {
        return 0, Some(Utf8Error(InvalidContinuation, position + offset, position + offset + 1));
      }
      offset := offset + 1;
    }
    assert rest[1] == data[position + 1];
    var second := data[position + 1];
    if lead == 0xE0 && second < 0xA0 {
      return 0, Some(Utf8Error(Overlong, position, position + expected));
    }
    if lead == 0xED && second > 0x9F {
      return 0, Some(Utf8Error(Surrogate, position, position + expected));
    }
    if lead == 0xF0 && second < 0x90 {
      return 0, Some(Utf8Error(Overlong, position, position + expected));
    }
    if lead == 0xF4 && second > 0x8F {
      return 0, Some(Utf8Error(OutOfRange, position, position + expected));
    }
    WidthUnique(rest, expected);
    return expected, None;
  }

  /** The chunk that is open while planning: it fits, or holds nothing yet. */
  ghost predicate OpenChunk(data: seq<byte>, chunkSize: nat, chunkStart: nat, position: nat) {
    Boundary(data, position) && chunkStart <= position && (position - chunkStart < chunkSize || position == chunkStart)
  }

  ghost predicate PlanSoFar(data: seq<byte>, chunkSize: nat, bounds: seq<nat>, chunkStart: nat) {
    LegalPlanTo(data, chunkSize, bounds, chunkStart) && Greedy(data, chunkSize, bounds) && |bounds| <= chunkStart
  }

  lemma CloseChunk(data: seq<byte>, chunkSize: nat, bounds: seq<nat>, chunkStart: nat, position: nat)
    requires PlanSoFar(data, chunkSize, bounds, chunkStart)
    requires Boundary(data, position)
    requires LegalChunk(data, chunkSize, chunkStart, position)
    requires MaximalChunk(data, chunkSize, chunkStart, position)
    ensures PlanSoFar(data, chunkSize, bounds + [position], position)
  {
    hide IsCodePoint, WellFormed, Boundary, MaximalChunk;
    var plan := bounds + [position];
    forall j | 0 <= j < |plan|
      ensures LegalAt(data, chunkSize, plan, j) && MaximalAt(data, chunkSize, plan, j)
    {
      if j < |bounds| {
        assert LegalAt(data, chunkSize, bounds, j) && MaximalAt(data, chunkSize, bounds, j);
      }
    }
  }

  /** Fill `bounds` with the greedy plan; the capacity check of the C loop never fires for |data| entries. */
  method PlanBounds(data: seq<byte>, chunkSize: nat, bounds: array<nat>) returns (count: nat, error: Option<Utf8Error>)
    requires chunkSize > 0
    requires bounds.Length == |data|
    modifies bounds
    ensures error.None? <==> WellFormed(data)
    ensures error.None? ==> count <= bounds.Length
    ensures error.None? ==> LegalPlan(data, chunkSize, bounds[..count]) && Greedy(data, chunkSize, bounds[..count])
    ensures error.Some? ==> exists p :: FirstBad(error.value, data, p)
  {
    hide IsCodePoint, LegalPlanTo, Greedy, MaximalChunk, Width, Explains;
    var position, chunkStart := 0, 0;
    count := 0;
    error := None;
    assert PlanSoFar(data, chunkSize, [], 0) by {
      PlanStart(data, chunkSize);
    }
    while position < |data|
      invariant error.None? && count <= chunkStart <= position <= |data|
      invariant PlanSoFar(data, chunkSize, bounds[..count], chunkStart)
      invariant OpenChunk(data, chunkSize, chunkStart, position)
    {
      var used := position - chunkStart;
      var width;
      width, error := CodePointWidth(data, position);
      SuffixWellFormed(data, position);
      if error.Some? {
        assert FirstBad(error.value, data, position);
        return;
      }
      NextBoundary(data, position);
      if position > chunkStart && width > chunkSize - used {
        if count >= bounds.Length {
          assert false;  // "UTF-8 boundary capacity exceeded"
        }
        OutOfReach(data, chunkSize, chunkStart, position);
        CloseChunk(data, chunkSize, bounds[..count], chunkStart, position);
        bounds[count] := position;
        assert bounds[..count + 1] == bounds[..count] + [position];
        count := count + 1;
        chunkStart := position;
      }
      ghost var before := position;
      position := position + width;
      if position - chunkStart >= chunkSize {
        if count >= bounds.Length {
          assert false;
        }
        FullChunk(data, chunkSize, chunkStart, before, position);
        CloseChunk(data, chunkSize, bounds[..count], chunkStart, position);
        bounds[count] := position;
        assert bounds[..count + 1] == bounds[..count] + [position];
        count := count + 1;
        chunkStart := position;
      }
    }
    assert data[..position] == data;
    if position > chunkStart {
      if count >= bounds.Length {
        assert false;
      }
      LastChunk(data, chunkSize, chunkStart);
      CloseChunk(data, chunkSize, bounds[..count], chunkStart, position);
      bounds[count] := position;
      assert bounds[..count + 1] == bounds[..count] + [position];
      count := count + 1;
    }
  }

  lemma PlanStart(data: seq<byte>, chunkSize: nat)
    ensures PlanSoFar(data, chunkSize, [], 0)
  {
  }

  /** The next code point does not fit, so no later boundary does. */
  lemma OutOfReach(data: seq<byte>, chunkSize: nat, chunkStart: nat, position: nat)
    requires OpenChunk(data, chunkSize, chunkStart, position) && position > chunkStart && position < |data|
    requires Width(data[position..]) > chunkSize - (position - chunkStart)
    ensures LegalChunk(data, chunkSize, chunkStart, position)
    ensures MaximalChunk(data, chunkSize, chunkStart, position)
  {
    hide IsCodePoint, WellFormed, Width;
    NextBoundary(data, position);
  }

  /** A chunk that has reached the size is full, and it overshoots only when it is one code point. */
  lemma FullChunk(data: seq<byte>, chunkSize: nat, chunkStart: nat, before: nat, position: nat)
    requires chunkSize > 0
    requires chunkStart <= before < position <= |data|
    requires position == before + Width(data[before..])
    requires before == chunkStart || position - chunkStart <= chunkSize
    requires position - chunkStart >= chunkSize
    ensures LegalChunk(data, chunkSize, chunkStart, position)
    ensures MaximalChunk(data, chunkSize, chunkStart, position)
  {
    if before == chunkStart {
      assert data[before..][..position - before] == data[chunkStart..position];
    }
  }

  lemma LastChunk(data: seq<byte>, chunkSize: nat, chunkStart: nat)
    requires OpenChunk(data, chunkSize, chunkStart, |data|) && chunkStart < |data|
    ensures LegalChunk(data, chunkSize, chunkStart, |data|)
    ensures MaximalChunk(data, chunkSize, chunkStart, |data|)
  {
  }

  datatype PlanResult = Plan(bounds: seq<nat>) | BadChunkSize | NotUtf8(error: Utf8Error)

  /** The planner's contract: it accepts exactly strict UTF-8 and answers a shortest legal plan. */
  method ChunkBounds(data: seq<byte>, chunkSize: int) returns (r: PlanResult)
    ensures r.BadChunkSize? <==> chunkSize <= 0
    ensures chunkSize > 0 ==> (r.Plan? <==> WellFormed(data))
    ensures r.NotUtf8? ==> exists p :: FirstBad(r.error, data, p)
    ensures r.Plan? ==> LegalPlan(data, chunkSize, r.bounds)
    ensures r.Plan? ==> forall other :: LegalPlan(data, chunkSize, other) ==> |r.bounds| <= |other|
  {
    if chunkSize <= 0 {
      return BadChunkSize;
    }
    var bounds := new nat[|data|];
    var count, error := PlanBounds(data, chunkSize, bounds);
    if error.Some? {
      return NotUtf8(error.value);
    }
    forall other | LegalPlan(data, chunkSize, other)
      ensures count <= |other|
    {
      GreedyIsShortest(data, chunkSize, bounds[..count], other);
    }
    return Plan(bounds[..count]);
  }
}
