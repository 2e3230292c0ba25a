/**
 The native CSV row scanner: a counting pass and a filling pass that must agree.

 `ByteRows` is the reference: a machine that reads one byte at a time, without lookahead. `RowsFrom` follows the C
 loops, which look one byte ahead and consume one or two bytes a turn. The counting pass also knows the delimiter,
 the filling pass does not; the module shows for which dialects that makes no difference.
 */
module CsvScan {
  import opened Bytes

  const LF: byte := 10
  const CR: byte := 13

  /** escape is -1 when there is none. */
  datatype Dialect = Dialect(delimiter: byte, quote: byte, escape: int, doublequote: bool)

  // ---- the reference: one byte at a time ----

  datatype Mode =
    | NewRow       // at the start, or just after a complete row terminator
    | Plain
    | PlainCr      // just after a CR outside quotes, which an LF may complete
    | Quoted
    | QuotedCr     // just after a CR inside quotes
    | Escaped      // the next byte is literal
    | QuoteSeen    // a quote inside quotes: the next byte tells an escaped quote from a closing one

  function PlainByte(d: Dialect, b: byte): Mode {
    if b == d.quote then Quoted
    else if b == LF then NewRow
    else if b == CR then PlainCr
    else Plain
  }

  function QuotedByte(d: Dialect, b: byte): Mode {
    if b == d.escape then Escaped
    else if b == d.quote then (if d.doublequote then QuoteSeen else Plain)
    else if b == CR then QuotedCr
    else Quoted
  }

  function Consume(d: Dialect, m: Mode, b: byte): Mode {
    match m
    case NewRow => PlainByte(d, b)
    case Plain => PlainByte(d, b)
    case PlainCr => if b == LF then NewRow else PlainByte(d, b)
    case Quoted => QuotedByte(d, b)
    case QuotedCr => if b == LF then Quoted else QuotedByte(d, b)
    case Escaped => Quoted
    case QuoteSeen => if b == d.quote then Quoted else PlainByte(d, b)
  }

  /** A row starts at the byte that follows a complete terminator. */
  predicate StartsRow(m: Mode, b: byte) {
    m.NewRow? || (m.PlainCr? && b != LF)
  }

  /** The row starts among buf[i..], when the machine stands in mode m before byte i. */
  function ByteRows(buf: seq<byte>, d: Dialect, i: nat, m: Mode): seq<nat>
    requires i <= |buf|
    decreases |buf| - i
  {
    if i == |buf| then []
    else (if StartsRow(m, buf[i]) then [i] else []) + ByteRows(buf, d, i + 1, Consume(d, m, buf[i]))
  }

  // ---- the scanning loops ----

  datatype Turn = Turn(next: nat, inQuotes: bool, row: Option<nat>)

  predicate ByteAt(buf: seq<byte>, i: nat, b: int) {
    i < |buf| && buf[i] == b
  }

  function NewlineWidth(buf: seq<byte>, i: nat): (w: nat)
    requires i < |buf|
    ensures i + w <= |buf|
  {
    if buf[i] == CR && ByteAt(buf, i + 1, LF) then 2 else 1
  }

  /** One turn of the loop at byte i; `counting` selects the pass that also recognises the delimiter. */
  function OneTurn(buf: seq<byte>, d: Dialect, i: nat, inQuotes: bool, counting: bool): (t: Turn)
    requires i < |buf|
    ensures i < t.next <= |buf|
    ensures t.row.Some? ==> t.row.value == t.next < |buf|
  {
    var b := buf[i];
    if d.escape >= 0 && inQuotes && b == d.escape && i + 1 < |buf| then Turn(i + 2, true, None)
    else if b == d.quote then
      if inQuotes && d.doublequote && ByteAt(buf, i + 1, d.quote) then Turn(i + 2, true, None)
      else Turn(i + 1, !inQuotes, None)
    else if counting && b == d.delimiter && !inQuotes then Turn(i + 1, inQuotes, None)
    else if b == LF || b == CR then
      var next := i + NewlineWidth(buf, i);
      Turn(next, inQuotes, if !inQuotes && next < |buf| then Some(next) else None)
    else Turn(i + 1, inQuotes, None)
  }

  function RowsFrom(buf: seq<byte>, d: Dialect, i: nat, inQuotes: bool, counting: bool): seq<nat>
    requires i <= |buf|
    decreases |buf| - i
  {
    if i == |buf| then []
    else
      var t := OneTurn(buf, d, i, inQuotes, counting);
      (if t.row.Some? then [t.row.value] else []) + RowsFrom(buf, d, t.next, t.inQuotes, counting)
  }

  /** All row starts one pass sees. */
  function Rows(buf: seq<byte>, d: Dialect, counting: bool): seq<nat> {
    if buf == [] then [] else [0] + RowsFrom(buf, d, 0, false, counting)
  }

  // ---- the loops compute the reference ----

  /** The modes in which the loop can be standing at a turn boundary. */
  predicate AtTurn(buf: seq<byte>, d: Dialect, i: nat, inQuotes: bool, m: Mode) {
    if inQuotes then m.Quoted? || (m.QuotedCr? && !ByteAt(buf, i, LF))
    else
      || m.NewRow?
      || m.Plain?
      || (m.PlainCr? && !ByteAt(buf, i, LF))
      || (m.QuoteSeen? && !ByteAt(buf, i, d.quote))
  }

  function Pending(buf: seq<byte>, i: nat, m: Mode): seq<nat> {
    if i < |buf| && (m.NewRow? || m.PlainCr?) then [i] else []
  }

  /** A turn of one byte: the machine takes one step and stands at a turn boundary again. */
  lemma ShortTurn(buf: seq<byte>, d: Dialect, i: nat, inQuotes: bool, m: Mode)
    requires i < |buf| && AtTurn(buf, d, i, inQuotes, m)
    requires OneTurn(buf, d, i, inQuotes, false).next == i + 1
    ensures var t, m1 := OneTurn(buf, d, i, inQuotes, false), Consume(d, m, buf[i]);
            && (AtTurn(buf, d, i + 1, t.inQuotes, m1) || (i + 1 == |buf| && m1.Escaped?))
            && Pending(buf, i + 1, m1) == (if t.row.Some? then [t.row.value] else [])
            && Pending(buf, i, m) == (if StartsRow(m, buf[i]) then [i] else [])
  {
  }

  /** A turn of two bytes: an escape, a doubled quote or a CRLF. */
  lemma LongTurn(buf: seq<byte>, d: Dialect, i: nat, inQuotes: bool, m: Mode)
    requires i < |buf| && AtTurn(buf, d, i, inQuotes, m)
    requires OneTurn(buf, d, i, inQuotes, false).next != i + 1
    ensures i + 2 <= |buf|
    ensures var t, m1 := OneTurn(buf, d, i, inQuotes, false), Consume(d, m, buf[i]);
            var m2 := Consume(d, m1, buf[i + 1]);
            && t.next == i + 2
            && AtTurn(buf, d, i + 2, t.inQuotes, m2)
            && Pending(buf, i + 2, m2) == (if t.row.Some? then [t.row.value] else [])
            && Pending(buf, i, m) == (if StartsRow(m, buf[i]) then [i] else [])
            && !StartsRow(m1, buf[i + 1])
  {
  }

  /** The lookahead loop, a turn at a time, finds exactly the rows of the byte-at-a-time machine. */
  lemma {:induction false} TurnsRefineBytes(buf: seq<byte>, d: Dialect, i: nat, inQuotes: bool, m: Mode)
    requires i <= |buf| && AtTurn(buf, d, i, inQuotes, m)
    ensures ByteRows(buf, d, i, m) == Pending(buf, i, m) + RowsFrom(buf, d, i, inQuotes, false)
    decreases |buf| - i
  {
    hide OneTurn, Consume, AtTurn, StartsRow;
    if i == |buf| {
    } else {
      var t := OneTurn(buf, d, i, inQuotes, false);
      var m1 := Consume(d, m, buf[i]);
      if t.next == i + 1 {
        ShortTurn(buf, d, i, inQuotes, m);
        if i + 1 < |buf| {
          TurnsRefineBytes(buf, d, i + 1, t.inQuotes, m1);
        }
      } else {
        LongTurn(buf, d, i, inQuotes, m);
        var m2 := Consume(d, m1, buf[i + 1]);
        TurnsRefineBytes(buf, d, i + 2, t.inQuotes, m2);
        assert ByteRows(buf, d, i + 1, m1) == ByteRows(buf, d, i + 2, m2);
      }
    }
  }

  lemma RowsAreByteRows(buf: seq<byte>, d: Dialect)
    ensures Rows(buf, d, false) == ByteRows(buf, d, 0, NewRow)
  {
    TurnsRefineBytes(buf, d, 0, false, NewRow);
  }

  // ---- shape of the row list ----

  ghost predicate RowsWithin(rows: seq<nat>, lo: nat, hi: nat) {
    && (forall j :: 0 <= j < |rows| ==> lo < rows[j] < hi)
    && (forall j, k :: 0 <= j < k < |rows| ==> rows[j] < rows[k])
  }

  lemma {:induction false} RowsFromOrdered(buf: seq<byte>, d: Dialect, i: nat, inQuotes: bool, counting: bool)
    requires i <= |buf|
    ensures RowsWithin(RowsFrom(buf, d, i, inQuotes, counting), i, |buf|)
    decreases |buf| - i
  {
    hide OneTurn;
    if i == |buf| {
    } else {
      var t := OneTurn(buf, d, i, inQuotes, counting);
      RowsFromOrdered(buf, d, t.next, t.inQuotes, counting);
    }
  }

  /** Offsets start at 0, increase strictly and stay below the length. */
  lemma RowsOrdered(buf: seq<byte>, d: Dialect, counting: bool)
    ensures var rows := Rows(buf, d, counting);
            && (buf == [] <==> rows == [])
            && (buf != [] ==> rows[0] == 0)
            && (forall j :: 0 <= j < |rows| ==> rows[j] < |buf|)
            && (forall j, k :: 0 <= j < k < |rows| ==> rows[j] < rows[k])
  {
    if buf != [] {
      RowsFromOrdered(buf, d, 0, false, counting);
    }
  }

  /** Lengths of the records that start at `rows` in a text of n bytes. */
  function Spans(rows: seq<nat>, n: nat): (spans: seq<int>)
    ensures |spans| == |rows|
    ensures forall j :: 0 <= j < |rows| ==> spans[j] == (if j + 1 < |rows| then rows[j + 1] else n) - rows[j]
  {
    if rows == [] then []
    else Spans(rows[..|rows| - 1], rows[|rows| - 1]) + [n - rows[|rows| - 1]]
  }

  function Sum(s: seq<int>): int {
    if s == [] then 0 else Sum(s[..|s| - 1]) + s[|s| - 1]
  }

  function Max(a: int, b: int): int {
    if a < b then b else a
  }

  function MaxOf(s: seq<int>): int {
    if s == [] then 0 else Max(MaxOf(s[..|s| - 1]), s[|s| - 1])
  }

  lemma {:induction false} SpansTile(rows: seq<nat>, n: nat)
    requires rows != []
    ensures Sum(Spans(rows, n)) == n - rows[0]
  {
    var last := |rows| - 1;
    var spans := Spans(rows, n);
    assert spans[..last] == Spans(rows[..last], rows[last]);
    if last == 0 {
    } else {
      SpansTile(rows[..last], rows[last]);
    }
  }

  lemma {:induction false} MaxOfIsMax(s: seq<int>)
    requires forall j :: 0 <= j < |s| ==> s[j] >= 0
    ensures forall j :: 0 <= j < |s| ==> s[j] <= MaxOf(s)
    ensures s != [] ==> MaxOf(s) in s
  {
    if s == [] {
    } else {
      MaxOfIsMax(s[..|s| - 1]);
      assert s == s[..|s| - 1] + [s[|s| - 1]];
    }
  }

  lemma MaxSpanNext(rows: seq<nat>, next: nat)
    requires rows != []
    ensures MaxOf(Spans(rows, next)) == Max(MaxOf(Spans(rows[..|rows| - 1], rows[|rows| - 1])), next - rows[|rows| - 1])
  {
    var last := |rows| - 1;
    assert Spans(rows, next)[..last] == Spans(rows[..last], rows[last]);
  }

  // ---- the two passes ----

  /** `done` are the rows already found when a pass stands at byte i. */
  ghost predicate Found(buf: seq<byte>, d: Dialect, counting: bool, done: seq<nat>, i: nat, inQuotes: bool) {
    && i <= |buf|
    && (buf != [] ==> done != [])
    && Rows(buf, d, counting) == done + RowsFrom(buf, d, i, inQuotes, counting)
  }

  function RowOf(t: Turn): seq<nat> {
    if t.row.Some? then [t.row.value] else []
  }

  lemma FoundStart(buf: seq<byte>, d: Dialect, counting: bool)
    ensures Found(buf, d, counting, if buf == [] then [] else [0], 0, false)
  {
  }

  lemma FoundNext(buf: seq<byte>, d: Dialect, counting: bool, done: seq<nat>, i: nat, inQuotes: bool)
    requires i < |buf| && Found(buf, d, counting, done, i, inQuotes)
    ensures var t := OneTurn(buf, d, i, inQuotes, counting);
            && (t.row.None? ==> Found(buf, d, counting, done, t.next, t.inQuotes))
            && (t.row.Some? ==> Found(buf, d, counting, done + [t.row.value], t.next, t.inQuotes))
  {
    hide OneTurn, Rows, RowsFrom;
    var t := OneTurn(buf, d, i, inQuotes, counting);
    var rest := RowsFrom(buf, d, t.next, t.inQuotes, counting);
    RowsNext(buf, d, counting, i, inQuotes);
    assert done + (RowOf(t) + rest) == (done + RowOf(t)) + rest;
    assert t.row.None? ==> done + RowOf(t) == done;
  }

  lemma RowsNext(buf: seq<byte>, d: Dialect, counting: bool, i: nat, inQuotes: bool)
    requires i < |buf|
    ensures var t := OneTurn(buf, d, i, inQuotes, counting);
            RowsFrom(buf, d, i, inQuotes, counting)
            == RowOf(t) + RowsFrom(buf, d, t.next, t.inQuotes, counting)
  {
    hide OneTurn;
  }

  lemma FoundAll(buf: seq<byte>, d: Dialect, counting: bool, done: seq<nat>, inQuotes: bool)
    requires Found(buf, d, counting, done, |buf|, inQuotes)
    ensures done == Rows(buf, d, counting)
  {
  }

  /** `maxSpan` is the longest record closed so far; the record at `lastStart` is still open. */
  ghost predicate Measured(done: seq<nat>, lastStart: nat, maxSpan: int) {
    done != [] ==> lastStart == done[|done| - 1] && maxSpan == MaxOf(Spans(done[..|done| - 1], lastStart))
  }

  lemma MeasuredNext(done: seq<nat>, lastStart: nat, maxSpan: int, next: nat)
    requires done != [] && Measured(done, lastStart, maxSpan)
    ensures Measured(done + [next], next, Max(maxSpan, next - lastStart))
    ensures MaxOf(Spans(done, next)) == Max(maxSpan, next - lastStart)
  {
    MaxSpanNext(done, next);
    assert (done + [next])[..|done|] == done;
  }

  /** Close the record that is open at `lastStart`, keeping the longest span. */
  method CloseRecord(ghost done: seq<nat>, lastStart: nat, maxSpan: int, next: nat) returns (longest: int)
    requires done != [] && Measured(done, lastStart, maxSpan)
    ensures Measured(done + [next], next, longest)
    ensures longest == MaxOf(Spans(done, next))
  {
    MeasuredNext(done, lastStart, maxSpan, next);
    var span := next - lastStart;
    longest := maxSpan;
    if span > maxSpan {
      longest := span;
    }
  }

  /** The dialects for which knowing the delimiter cannot hide a row end. */
  predicate SafeDialect(d: Dialect) {
    (d.delimiter != 10 && d.delimiter != 13) || d.delimiter == d.quote
  }

  // ---- the tallies ----

  /** What the counting pass counts. */
  datatype Mark = LfEnd | CrLfEnd | CrEnd | QuotedNewline | Delimiter | Quote | EscapedQuote | EscapeSequence

  /** The marks one byte makes, read in mode m. A lone CR is known as such one byte later. */
  function ByteMarks(d: Dialect, m: Mode, b: byte, last: bool): seq<Mark> {
    match m
    case NewRow => PlainMarks(d, b)
    case Plain => PlainMarks(d, b)
    case PlainCr => if b == LF then [CrLfEnd] else [CrEnd] + PlainMarks(d, b)
    case Quoted => QuotedMarks(d, b, last)
    case QuotedCr => if b == LF then [] else QuotedMarks(d, b, last)
    case Escaped => []
    case QuoteSeen => if b == d.quote then [Quote, EscapedQuote] else PlainMarks(d, b)
  }

  function PlainMarks(d: Dialect, b: byte): seq<Mark> {
    if b == d.quote then [Quote]
    else if b == d.delimiter then [Delimiter]
    else if b == LF then [LfEnd]
    else []
  }

  function QuotedMarks(d: Dialect, b: byte, last: bool): seq<Mark> {
    if b == d.escape && !last then [EscapeSequence]
    else if b == d.quote then [Quote]
    else if b == LF || b == CR then [QuotedNewline]
    else []
  }

  function LoneCr(m: Mode): seq<Mark> {
    if m.PlainCr? then [CrEnd] else []
  }

  /** The marks of buf[i..], one byte at a time from mode m. */
  function ByteLog(buf: seq<byte>, d: Dialect, i: nat, m: Mode): seq<Mark>
    requires i <= |buf|
    decreases |buf| - i
  {
    if i == |buf| then LoneCr(m)
    else ByteMarks(d, m, buf[i], i + 1 == |buf|) + ByteLog(buf, d, i + 1, Consume(d, m, buf[i]))
  }

  /** The marks of one turn of the counting loop. */
  function TurnMarks(buf: seq<byte>, d: Dialect, i: nat, inQuotes: bool): seq<Mark>
    requires i < |buf|
  {
    var b := buf[i];
    if d.escape >= 0 && inQuotes && b == d.escape && i + 1 < |buf| then [EscapeSequence]
    else if b == d.quote then
      if inQuotes && d.doublequote && ByteAt(buf, i + 1, d.quote) then [Quote, Quote, EscapedQuote] else [Quote]
    else if b == d.delimiter && !inQuotes then [Delimiter]
    else if b == LF || b == CR then
      if inQuotes then [QuotedNewline]
      else if NewlineWidth(buf, i) == 2 then [CrLfEnd]
      else if b == LF then [LfEnd]
      else [CrEnd]
    else []
  }

  function TurnLog(buf: seq<byte>, d: Dialect, i: nat, inQuotes: bool): seq<Mark>
    requires i <= |buf|
    decreases |buf| - i
  {
    if i == |buf| then []
    else
      var t := OneTurn(buf, d, i, inQuotes, true);
      TurnMarks(buf, d, i, inQuotes) + TurnLog(buf, d, t.next, t.inQuotes)
  }

  lemma ShortMarks(buf: seq<byte>, d: Dialect, i: nat, inQuotes: bool, m: Mode)
    requires SafeDialect(d) && i < |buf| && AtTurn(buf, d, i, inQuotes, m)
    requires OneTurn(buf, d, i, inQuotes, false).next == i + 1
    ensures var m1 := Consume(d, m, buf[i]);
            ByteMarks(d, m, buf[i], i + 1 == |buf|) + LoneCr(m1) == LoneCr(m) + TurnMarks(buf, d, i, inQuotes)
  {
  }

  lemma LongMarks(buf: seq<byte>, d: Dialect, i: nat, inQuotes: bool, m: Mode)
    requires SafeDialect(d) && i < |buf| && AtTurn(buf, d, i, inQuotes, m)
    requires OneTurn(buf, d, i, inQuotes, false).next != i + 1
    ensures i + 2 <= |buf|
    ensures var m1 := Consume(d, m, buf[i]);
            var m2 := Consume(d, m1, buf[i + 1]);
            && LoneCr(m2) == []
            && ByteMarks(d, m, buf[i], false) + ByteMarks(d, m1, buf[i + 1], i + 2 == |buf|)
               == LoneCr(m) + TurnMarks(buf, d, i, inQuotes)
  {
  }

  lemma SameTurn(buf: seq<byte>, d: Dialect, i: nat, inQuotes: bool)
    requires SafeDialect(d) && i < |buf|
    ensures OneTurn(buf, d, i, inQuotes, true) == OneTurn(buf, d, i, inQuotes, false)
  {
  }

  lemma Associate(a: seq<Mark>, b: seq<Mark>, c: seq<Mark>)
    ensures a + (b + c) == a + b + c
  {
  }

  /** Under a safe dialect the counting loop marks what the byte-at-a-time machine marks, in the same order. */
  lemma {:induction false} MarksRefineBytes(buf: seq<byte>, d: Dialect, i: nat, inQuotes: bool, m: Mode)
    requires SafeDialect(d) && i <= |buf| && AtTurn(buf, d, i, inQuotes, m)
    ensures ByteLog(buf, d, i, m) == LoneCr(m) + TurnLog(buf, d, i, inQuotes)
    decreases |buf| - i
  {
    hide OneTurn, Consume, AtTurn, SafeDialect, ByteMarks, TurnMarks, LoneCr;
    if i == |buf| {
    } else {
      SameTurn(buf, d, i, inQuotes);
      var t := OneTurn(buf, d, i, inQuotes, false);
      var m1, marks := Consume(d, m, buf[i]), TurnMarks(buf, d, i, inQuotes);
      var rest := TurnLog(buf, d, t.next, t.inQuotes);
      Associate(LoneCr(m), marks, rest);
      if t.next == i + 1 {
        ShortTurn(buf, d, i, inQuotes, m);
        ShortMarks(buf, d, i, inQuotes, m);
        if i + 1 < |buf| {
          MarksRefineBytes(buf, d, i + 1, t.inQuotes, m1);
          Associate(ByteMarks(d, m, buf[i], false), LoneCr(m1), rest);
        }
      } else {
        LongTurn(buf, d, i, inQuotes, m);
        LongMarks(buf, d, i, inQuotes, m);
        var m2 := Consume(d, m1, buf[i + 1]);
        MarksRefineBytes(buf, d, i + 2, t.inQuotes, m2);
        var second := ByteMarks(d, m1, buf[i + 1], i + 2 == |buf|);
        assert [] + rest == rest;
        assert ByteLog(buf, d, i + 1, m1) == second + rest;
        Associate(ByteMarks(d, m, buf[i], false), second, rest);
      }
    }
  }

  function CountOf(log: seq<Mark>, mark: Mark): nat {
    if log == [] then 0 else CountOf(log[..|log| - 1], mark) + if log[|log| - 1] == mark then 1 else 0
  }

  datatype Tally = Tally(lf: nat, crlf: nat, cr: nat, quotedNewlines: nat, delimiters: nat, quotes: nat,
                         escapedQuotes: nat, escapeSequences: nat)

  /** How often each mark occurs. */
  function TallyOf(log: seq<Mark>): Tally {
    Tally(CountOf(log, LfEnd), CountOf(log, CrLfEnd), CountOf(log, CrEnd), CountOf(log, QuotedNewline),
          CountOf(log, Delimiter), CountOf(log, Quote), CountOf(log, EscapedQuote), CountOf(log, EscapeSequence))
  }

  /** A mark is counted in its own field. */
  function Counted(t: Tally, mark: Mark): Tally {
    match mark
    case LfEnd => t.(lf := t.lf + 1)
    case CrLfEnd => t.(crlf := t.crlf + 1)
    case CrEnd => t.(cr := t.cr + 1)
    case QuotedNewline => t.(quotedNewlines := t.quotedNewlines + 1)
    case Delimiter => t.(delimiters := t.delimiters + 1)
    case Quote => t.(quotes := t.quotes + 1)
    case EscapedQuote => t.(escapedQuotes := t.escapedQuotes + 1)
    case EscapeSequence => t.(escapeSequences := t.escapeSequences + 1)
  }

  lemma TallyNext(log: seq<Mark>, mark: Mark)
    ensures TallyOf(log + [mark]) == Counted(TallyOf(log), mark)
  {
    assert (log + [mark])[..|log|] == log;
  }

  lemma TallyTurn(log: seq<Mark>, marks: seq<Mark>)
    requires |marks| <= 1 || marks == [Quote, Quote, EscapedQuote]
    ensures marks == [] ==> TallyOf(log + marks) == TallyOf(log)
    ensures |marks| == 1 ==> TallyOf(log + marks) == Counted(TallyOf(log), marks[0])
    ensures |marks| > 1 ==> TallyOf(log + marks) == TallyOf(log).(quotes := TallyOf(log).quotes + 2,
                                                                 escapedQuotes := TallyOf(log).escapedQuotes + 1)
  {
    hide TallyOf;
    if marks == [] {
      assert log + marks == log;
    } else if |marks| == 1 {
      assert marks == [marks[0]];
      TallyNext(log, marks[0]);
    } else {
      TallyNext(log, Quote);
      TallyNext(log + [Quote], Quote);
      TallyNext(log + [Quote] + [Quote], EscapedQuote);
      assert log + marks == log + [Quote] + [Quote] + [EscapedQuote];
    }
  }

  /** The local variables of the counting loop. */
  datatype Scan = Scan(i: nat, inQuotes: bool, offsets: nat, lastStart: nat, maxSpan: int, tally: Tally)

  ghost predicate RowsOk(buf: seq<byte>, d: Dialect, s: Scan, done: seq<nat>) {
    && Found(buf, d, true, done, s.i, s.inQuotes)
    && s.offsets == |done|
    && Measured(done, s.lastStart, s.maxSpan)
  }

  function Newlines(t: Tally): nat {
    t.lf + t.crlf + t.cr
  }

  ghost predicate TallyOk(buf: seq<byte>, s: Scan) {
    && (s.inQuotes <==> s.tally.quotes % 2 == 1)
    && 2 * s.tally.escapedQuotes + (if s.inQuotes then 1 else 0) <= s.tally.quotes
    && (buf != [] ==> s.offsets - 1 <= Newlines(s.tally) <= s.offsets)
    && (s.i < |buf| ==> Newlines(s.tally) == s.offsets - 1)
  }

  /** The loop has moved on by one turn and counted its marks. */
  ghost predicate TurnTaken(buf: seq<byte>, d: Dialect, s: Scan, t: Scan)
    requires s.i < |buf|
  {
    var turn, marks := OneTurn(buf, d, s.i, s.inQuotes, true), TurnMarks(buf, d, s.i, s.inQuotes);
    && t.i == turn.next && t.inQuotes == turn.inQuotes
    && t.tally == if marks == [] then s.tally
                  else if |marks| == 1 then Counted(s.tally, marks[0])
                  else s.tally.(quotes := s.tally.quotes + 2, escapedQuotes := s.tally.escapedQuotes + 1)
  }

  /** The tally counts the marks made so far, and what is still to come completes the log. */
  ghost predicate Tallied(buf: seq<byte>, d: Dialect, s: Scan, log: seq<Mark>) {
    && s.i <= |buf|
    && log + TurnLog(buf, d, s.i, s.inQuotes) == TurnLog(buf, d, 0, false)
    && s.tally == TallyOf(log)
  }

  lemma TalliedNext(buf: seq<byte>, d: Dialect, s: Scan, t: Scan, log: seq<Mark>)
    requires s.i < |buf| && Tallied(buf, d, s, log) && TurnTaken(buf, d, s, t)
    ensures Tallied(buf, d, t, log + TurnMarks(buf, d, s.i, s.inQuotes))
  {
    hide OneTurn, TallyOf;
    TallyTurn(log, TurnMarks(buf, d, s.i, s.inQuotes));
    Associate(log, TurnMarks(buf, d, s.i, s.inQuotes), TurnLog(buf, d, t.i, t.inQuotes));
  }

  /** The newline branch outside quotes: end the record, and start the next one if any byte is left. */
  method NewlineTurn(buf: seq<byte>, d: Dialect, s: Scan, ghost done: seq<nat>) returns (t: Scan, ghost done': seq<nat>)
    requires s.i < |buf| && done != [] && RowsOk(buf, d, s, done) && TallyOk(buf, s)
    requires !s.inQuotes && (buf[s.i] == LF || buf[s.i] == CR)
    requires buf[s.i] != d.quote && buf[s.i] != d.delimiter
    ensures RowsOk(buf, d, t, done') && TallyOk(buf, t) && s.i < t.i <= |buf|
    ensures TurnTaken(buf, d, s, t)
  {
    hide Found, Measured;
    FoundNext(buf, d, true, done, s.i, s.inQuotes);
    var isCrlf := buf[s.i] == CR && s.i + 1 < |buf| && buf[s.i + 1] == LF;
    var tally := s.tally;
    var next := s.i + 1;
    if isCrlf {
      tally := tally.(crlf := tally.crlf + 1);
      next := s.i + 2;
    } else if buf[s.i] == LF {
      tally := tally.(lf := tally.lf + 1);
    } else {
      tally := tally.(cr := tally.cr + 1);
    }
    assert Newlines(tally) == Newlines(s.tally) + 1;
    assert OneTurn(buf, d, s.i, false, true) == Turn(next, false, if next < |buf| then Some(next) else None);
    hide OneTurn;
    if next < |buf| {
      var longest := CloseRecord(done, s.lastStart, s.maxSpan, next);
      t := s.(i := next, offsets := s.offsets + 1, lastStart := next, maxSpan := longest, tally := tally);
      done' := done + [next];
    } else {
      t := s.(i := next, tally := tally);
      done' := done;
    }
  }

  /** Every other branch of the loop body: no row starts here. */
  method QuietTurn(buf: seq<byte>, d: Dialect, s: Scan, ghost done: seq<nat>) returns (t: Scan)
    requires s.i < |buf| && RowsOk(buf, d, s, done) && TallyOk(buf, s)
    requires s.inQuotes || buf[s.i] == d.quote || buf[s.i] == d.delimiter || (buf[s.i] != LF && buf[s.i] != CR)
    ensures RowsOk(buf, d, t, done) && TallyOk(buf, t) && s.i < t.i <= |buf|
    ensures TurnTaken(buf, d, s, t)
  {
    hide Found, Measured;
    FoundNext(buf, d, true, done, s.i, s.inQuotes);
    var b, i, n, tally := buf[s.i], s.i, |buf|, s.tally;
    if d.escape >= 0 && s.inQuotes && b == d.escape && i + 1 < n {
      return s.(i := i + 2, tally := tally.(escapeSequences := tally.escapeSequences + 1));
    }
    if b == d.quote {
      if s.inQuotes && d.doublequote && i + 1 < n && buf[i + 1] == d.quote {
        return s.(i := i + 2, tally := tally.(quotes := tally.quotes + 2, escapedQuotes := tally.escapedQuotes + 1));
      }
      return s.(i := i + 1, inQuotes := !s.inQuotes, tally := tally.(quotes := tally.quotes + 1));
    }
    if b == d.delimiter && !s.inQuotes {
      return s.(i := i + 1, tally := tally.(delimiters := tally.delimiters + 1));
    }
    if b == LF || b == CR {
      var isCrlf := b == CR && i + 1 < n && buf[i + 1] == LF;
      return s.(i := if isCrlf then i + 2 else i + 1, tally := tally.(quotedNewlines := tally.quotedNewlines + 1));
    }
    return s.(i := i + 1);
  }

  lemma TalliedStart(buf: seq<byte>, d: Dialect, s: Scan)
    requires s.i == 0 && !s.inQuotes && s.tally == Tally(0, 0, 0, 0, 0, 0, 0, 0)
    ensures Tallied(buf, d, s, [])
  {
    hide TurnLog;
    assert [] + TurnLog(buf, d, 0, false) == TurnLog(buf, d, 0, false);
  }

  /** At the end the log is complete, and under a safe dialect it is the byte machine's. */
  lemma TalliedEnd(buf: seq<byte>, d: Dialect, s: Scan, log: seq<Mark>)
    requires s.i == |buf| && Tallied(buf, d, s, log)
    ensures s.tally == TallyOf(TurnLog(buf, d, 0, false))
    ensures SafeDialect(d) ==> s.tally == TallyOf(ByteLog(buf, d, 0, NewRow))
  {
    hide TallyOf, SafeDialect, ByteLog;
    assert log + [] == log;
    if SafeDialect(d) {
      MarksRefineBytes(buf, d, 0, false, NewRow);
      assert [] + TurnLog(buf, d, 0, false) == TurnLog(buf, d, 0, false);
    }
  }

  datatype Counts = Counts(rows: nat, tally: Tally, maxRecordSpan: int, endedInOpenQuote: bool)

  /** What the counting loop keeps, with the row starts and the marks it has passed. */
  ghost predicate Passed(buf: seq<byte>, d: Dialect, s: Scan, done: seq<nat>, log: seq<Mark>) {
    && s.i <= |buf|
    && RowsOk(buf, d, s, done) && TallyOk(buf, s) && Tallied(buf, d, s, log)
    && (buf == [] ==> s.maxSpan == 0)
  }

  lemma PassedStart(buf: seq<byte>, d: Dialect, s: Scan)
    requires s == Scan(0, false, if |buf| == 0 then 0 else 1, 0, 0, Tally(0, 0, 0, 0, 0, 0, 0, 0))
    ensures Passed(buf, d, s, if buf == [] then [] else [0], [])
  {
    hide Found, Measured, Tallied;
    FoundStart(buf, d, true);
    MeasuredStart(if buf == [] then [] else [0]);
    TalliedStart(buf, d, s);
  }

  /** One turn of the counting loop. */
  method ScanTurn(buf: seq<byte>, d: Dialect, s: Scan, ghost done: seq<nat>, ghost log: seq<Mark>)
    returns (t: Scan, ghost done1: seq<nat>, ghost log1: seq<Mark>)
    requires s.i < |buf| && Passed(buf, d, s, done, log)
    ensures s.i < t.i && Passed(buf, d, t, done1, log1)
  {
    hide Found, Measured, Tallied, TurnTaken, TurnMarks, OneTurn;
    var b := buf[s.i];
    done1 := done;
    if !s.inQuotes && b != d.quote && b != d.delimiter && (b == LF || b == CR) {
      FoundSome(buf, d, true, done, s.i, s.inQuotes);
      t, done1 := NewlineTurn(buf, d, s, done);
    } else {
      t := QuietTurn(buf, d, s, done);
    }
    TalliedNext(buf, d, s, t, log);
    log1 := log + TurnMarks(buf, d, s.i, s.inQuotes);
  }

  /** What remains after the loop: the record still open is closed. */
  method CloseScan(buf: seq<byte>, d: Dialect, s: Scan, ghost done: seq<nat>, ghost log: seq<Mark>)
    returns (c: Counts)
    requires s.i >= |buf| && Passed(buf, d, s, done, log)
    ensures c.rows == |Rows(buf, d, true)|
    ensures c.maxRecordSpan == MaxOf(Spans(Rows(buf, d, true), |buf|))
    ensures c.tally == TallyOf(TurnLog(buf, d, 0, false))
    ensures SafeDialect(d) ==> c.tally == TallyOf(ByteLog(buf, d, 0, NewRow))
    ensures c.endedInOpenQuote <==> c.tally.quotes % 2 == 1
    ensures 2 * c.tally.escapedQuotes <= c.tally.quotes
    ensures buf != [] ==> c.rows - 1 <= Newlines(c.tally) <= c.rows
  {
    hide Found, Measured, Rows, RowsFrom, Spans, MaxOf, TurnLog, ByteLog, Tallied, TallyOf, SafeDialect;
    FoundAll(buf, d, true, done, s.inQuotes);
    TalliedEnd(buf, d, s, log);
    var longest := s.maxSpan;
    if |buf| > 0 {
      FoundSome(buf, d, true, done, s.i, s.inQuotes);
      longest := CloseRecord(done, s.lastStart, s.maxSpan, |buf|);
    } else {
      EmptyRows(buf, d, true);
    }
    c := Counts(s.offsets, s.tally, longest, s.inQuotes);
  }

  /** First pass: count the rows and measure the longest record. */
  method ScanCounts(buf: seq<byte>, d: Dialect) returns (c: Counts)
    ensures c.rows == |Rows(buf, d, true)|
    ensures c.maxRecordSpan == MaxOf(Spans(Rows(buf, d, true), |buf|))
    ensures c.tally == TallyOf(TurnLog(buf, d, 0, false))
    ensures SafeDialect(d) ==> c.tally == TallyOf(ByteLog(buf, d, 0, NewRow))
    ensures c.endedInOpenQuote <==> c.tally.quotes % 2 == 1
    ensures 2 * c.tally.escapedQuotes <= c.tally.quotes
    ensures buf != [] ==> c.rows - 1 <= Newlines(c.tally) <= c.rows
  {
    hide Passed;
    var s := Scan(0, false, if |buf| == 0 then 0 else 1, 0, 0, Tally(0, 0, 0, 0, 0, 0, 0, 0));
    ghost var done, log := if buf == [] then [] else [0], [];
    PassedStart(buf, d, s);
    while s.i < |buf|
      invariant Passed(buf, d, s, done, log)
      decreases |buf| - s.i
    {
      s, done, log := ScanTurn(buf, d, s, done, log);
    }
    c := CloseScan(buf, d, s, done, log);
  }

  lemma FoundSome(buf: seq<byte>, d: Dialect, counting: bool, done: seq<nat>, i: nat, inQuotes: bool)
    requires Found(buf, d, counting, done, i, inQuotes)
    ensures buf != [] ==> done != []
  {
  }

  lemma MeasuredStart(done: seq<nat>)
    requires done == [] || done == [0]
    ensures Measured(done, 0, 0)
  {
    assert done != [] ==> done[..|done| - 1] == [];
  }

  lemma EmptyRows(buf: seq<byte>, d: Dialect, counting: bool)
    requires buf == []
    ensures Rows(buf, d, counting) == []
    ensures MaxOf(Spans(Rows(buf, d, counting), 0)) == 0
  {
  }

  /** Second pass: write the row starts into `offsets`, or fail if there are more of them than entries. */
  method FillOffsets(buf: seq<byte>, d: Dialect, offsets: array<nat>) returns (ok: bool, written: nat)
    modifies offsets
    ensures ok <==> if buf == [] then offsets.Length == 0 else |Rows(buf, d, false)| <= offsets.Length
    ensures ok ==> written == |Rows(buf, d, false)| <= offsets.Length && offsets[..written] == Rows(buf, d, false)
  {
    hide Found, Rows, RowsFrom;
    written := 0;
    if |buf| == 0 {
      EmptyRows(buf, d, false);
      return offsets.Length == 0, 0;
    }
    FoundStart(buf, d, false);
    if offsets.Length <= 0 {
      FoundSize(buf, d, [0], 0, false);
      return false, 0;
    }
    var inQuotes, out, i := false, 1, 0;
    offsets[0] := 0;
    assert offsets[..1] == [0];
    while i < |buf|
      invariant 0 <= i <= |buf| && 1 <= out <= offsets.Length
      invariant Found(buf, d, false, offsets[..out], i, inQuotes)
    {
      ghost var turn := OneTurn(buf, d, i, inQuotes, false);
      FoundNext(buf, d, false, offsets[..out], i, inQuotes);
      var b := buf[i];
      if d.escape >= 0 && inQuotes && b == d.escape && i + 1 < |buf| {
        i := i + 2;
        continue;
      }
      if b == d.quote {
        if inQuotes && d.doublequote && i + 1 < |buf| && buf[i + 1] == d.quote {
          i := i + 2;
          continue;
        }
        inQuotes := !inQuotes;
      } else if b == LF || b == CR {
        var isCrlf := b == CR && i + 1 < |buf| && buf[i + 1] == LF;
        if isCrlf {
          i := i + 1;
        }
        var next := i + 1;
        if !inQuotes && next < |buf| {
          if out >= offsets.Length {
            FoundSize(buf, d, offsets[..out] + [next], next, inQuotes);
            return false, 0;
          }
          offsets[out] := next;
          assert offsets[..out + 1] == offsets[..out] + [next];
          out := out + 1;
        }
      }
      i := i + 1;
    }
    FoundAll(buf, d, false, offsets[..out], inQuotes);
    return true, out;
  }

  lemma FoundSize(buf: seq<byte>, d: Dialect, done: seq<nat>, i: nat, inQuotes: bool)
    requires Found(buf, d, false, done, i, inQuotes)
    ensures |done| <= |Rows(buf, d, false)|
  {
  }

  // ---- the two entry points ----

  lemma {:induction false} PassesAgreeFrom(buf: seq<byte>, d: Dialect, i: nat, inQuotes: bool)
    requires SafeDialect(d) && i <= |buf|
    ensures RowsFrom(buf, d, i, inQuotes, true) == RowsFrom(buf, d, i, inQuotes, false)
    decreases |buf| - i
  {
    if i == |buf| {
    } else {
      var t := OneTurn(buf, d, i, inQuotes, true);
      assert t == OneTurn(buf, d, i, inQuotes, false);
      PassesAgreeFrom(buf, d, t.next, t.inQuotes);
    }
  }

  lemma PassesAgree(buf: seq<byte>, d: Dialect)
    requires SafeDialect(d)
    ensures Rows(buf, d, true) == Rows(buf, d, false)
  {
    PassesAgreeFrom(buf, d, 0, false);
  }

  ghost predicate AlwaysAgrees(d: Dialect) {
    forall buf :: |Rows(buf, d, true)| == |Rows(buf, d, false)|
  }

  /** The two passes agree on every input exactly for the safe dialects. */
  lemma AgreementIsExact(d: Dialect)
    ensures AlwaysAgrees(d) <==> SafeDialect(d)
  {
    if SafeDialect(d) {
      forall buf
        ensures |Rows(buf, d, true)| == |Rows(buf, d, false)|
      {
        PassesAgree(buf, d);
      }
    } else {
      DelimiterHidesRow(d);
    }
  }

  /** A text of two delimiter bytes has two rows for the filling pass and one for the counting pass. */
  lemma DelimiterHidesRow(d: Dialect)
    requires !SafeDialect(d)
    ensures Rows([d.delimiter, d.delimiter], d, true) == [0]
    ensures Rows([d.delimiter, d.delimiter], d, false) == [0, 1]
  {
    var buf := [d.delimiter, d.delimiter];
    assert RowsFrom(buf, d, 2, false, true) == [];
    assert RowsFrom(buf, d, 1, false, true) == [];
    assert RowsFrom(buf, d, 2, false, false) == [];
    assert RowsFrom(buf, d, 1, false, false) == [];
    assert OneTurn(buf, d, 0, false, false) == Turn(1, false, Some(1));
  }

  datatype ScanResult = Scanned(rowOffsets: seq<nat>, counts: Counts) | InvariantFailed

  /** scan_bytes: its invariant error appears exactly when the two passes disagree on the input. */
  method ScanBytes(buf: seq<byte>, d: Dialect) returns (r: ScanResult)
    ensures r.InvariantFailed? <==> |Rows(buf, d, true)| != |Rows(buf, d, false)|
    ensures SafeDialect(d) ==> r.Scanned?
    ensures r.Scanned? ==> r.rowOffsets == ByteRows(buf, d, 0, NewRow)
    ensures r.Scanned? ==> r.counts.rows == |r.rowOffsets|
    ensures r.Scanned? ==> r.counts.tally == TallyOf(TurnLog(buf, d, 0, false))
    ensures r.Scanned? ==> (r.counts.endedInOpenQuote <==> r.counts.tally.quotes % 2 == 1)
    ensures r.Scanned? ==> r.counts.maxRecordSpan == MaxOf(Spans(Rows(buf, d, true), |buf|))
    ensures SafeDialect(d) ==> r.counts.tally == TallyOf(ByteLog(buf, d, 0, NewRow))
    ensures SafeDialect(d) ==> r.counts.maxRecordSpan == MaxOf(Spans(r.rowOffsets, |buf|))
  {
    hide TallyOf, TurnLog, ByteLog, MaxOf, Spans, Rows;
    var counts := ScanCounts(buf, d);
    var offsets := new nat[counts.rows];
    RowsAreByteRows(buf, d);
    if SafeDialect(d) {
      PassesAgree(buf, d);
    }
    RowsOrdered(buf, d, true);
    RowsOrdered(buf, d, false);
    if counts.rows > 0 {
      var ok, written := FillOffsets(buf, d, offsets);
      if !ok || written != counts.rows {
        return InvariantFailed;
      }
    }
    return Scanned(offsets[..], counts);
  }

  /** row_offsets scans with a comma delimiter, so for every quote, escape and doublequote setting it succeeds. */
  method RowOffsets(buf: seq<byte>, quote: byte, escape: int, doublequote: bool)
    returns (rows: seq<nat>, spans: seq<int>, maxRecordSpan: int)
    ensures rows == ByteRows(buf, Dialect(44, quote, escape, doublequote), 0, NewRow)
    ensures buf != [] ==> rows != [] && rows[0] == 0
    ensures forall j :: 0 <= j < |rows| ==> rows[j] < |buf|
    ensures forall j, k :: 0 <= j < k < |rows| ==> rows[j] < rows[k]
    ensures spans == Spans(rows, |buf|) && Sum(spans) == |buf|
    ensures forall j :: 0 <= j < |spans| ==> 0 < spans[j] <= maxRecordSpan
    ensures buf != [] ==> maxRecordSpan in spans
  {
    var d := Dialect(44, quote, escape, doublequote);
    hide Rows, RowsFrom, ByteRows, Spans, MaxOf, Sum;
    var counts := ScanCounts(buf, d);
    PassesAgree(buf, d);
    RowsAreByteRows(buf, d);
    RowsOrdered(buf, d, false);
    var offsets := new nat[counts.rows];
    if counts.rows > 0 {
      var ok, written := FillOffsets(buf, d, offsets);
      if !ok || written != counts.rows {
        assert false;  // "CSV row-count/offset invariant failed for stable input"
      }
    }
    rows := offsets[..];
    assert rows == Rows(buf, d, false);
    spans := BuildSpans(rows, |buf|);
    maxRecordSpan := counts.maxRecordSpan;
    SpansMeasured(rows, |buf|);
  }

  ghost predicate Ordered(rows: seq<nat>, n: nat) {
    && (forall j :: 0 <= j < |rows| ==> rows[j] < n)
    && (forall j, k :: 0 <= j < k < |rows| ==> rows[j] < rows[k])
  }

  /** The span loop of row_offsets; its ordering error cannot occur. */
  method BuildSpans(rows: seq<nat>, n: nat) returns (spans: seq<int>)
    requires Ordered(rows, n)
    ensures spans == Spans(rows, n)
  {
    spans := [];
    for i := 0 to |rows|
      invariant |spans| == i
      invariant forall j :: 0 <= j < i ==> spans[j] == Spans(rows, n)[j]
    {
      var start, end := rows[i], if i + 1 < |rows| then rows[i + 1] else n;
      if end < start || end > n {
        assert false;  // "CSV row-offset ordering invariant failed"
      }
      spans := spans + [end - start];
    }
  }

  lemma SpansMeasured(rows: seq<nat>, n: nat)
    requires Ordered(rows, n)
    requires if rows == [] then n == 0 else rows[0] == 0
    ensures Sum(Spans(rows, n)) == n
    ensures forall j :: 0 <= j < |rows| ==> 0 < Spans(rows, n)[j] <= MaxOf(Spans(rows, n))
    ensures rows != [] ==> MaxOf(Spans(rows, n)) in Spans(rows, n)
  {
    if rows != [] {
      SpansTile(rows, n);
    }
    MaxOfIsMax(Spans(rows, n));
  }
}
