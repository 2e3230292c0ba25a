/**
 The diagnostic event counters and the sampler, as interleaved atomic increments.

 A run starts when sampling was last configured, with no writer in flight, and contains no reset; counters are
 taken below their 64-bit ceiling. Whether a writer is admitted, gets a sequence, wins its slot or overwrites an
 older event is left open, so the law holds whatever the ring does.
 */
module DiagCounters {
  import opened Probing

  /** The sampler's verdict on the n-th automatic attempt. */
  predicate Passes(n: nat, burst: nat, interval: nat)
    requires interval >= 1
  {
    n <= burst || interval == 1 || (n - burst) % interval == 0
  }

  function PassCount(n: nat, burst: nat, interval: nat): nat
    requires interval >= 1
  {
    if n == 0 then 0
    else PassCount(n - 1, burst, interval) + (if Passes(n, burst, interval) then 1 else 0)
  }

  function Min(a: nat, b: nat): nat {
    if a < b then a else b
  }

  /** Stepping a dividend by one moves the quotient exactly at multiples. */
  lemma DivStep(x: nat, m: nat)
    requires m >= 1
    ensures (x + 1) / m == x / m + (if (x + 1) % m == 0 then 1 else 0)
  {
    var q, r := x / m, x % m;
    assert x == q * m + r;
    if r + 1 == m {
      assert x + 1 == (q + 1) * m;
      DivModUnique(x + 1, q + 1, 0, m);
    } else {
      DivModUnique(x + 1, q, r + 1, m);
    }
  }

  /** The sampling law: the whole burst passes, and then one attempt in every interval. */
  lemma {:induction false} SamplerLaw(n: nat, burst: nat, interval: nat)
    requires interval >= 1
    ensures PassCount(n, burst, interval) == Min(n, burst) + (if n <= burst then 0 else (n - burst) / interval)
  {
    if n == 0 {
    } else {
      SamplerLaw(n - 1, burst, interval);
      if n > burst {
        DivStep(n - 1 - burst, interval);
      }
    }
  }

  datatype Pc =
    | Idle
    | CountedManual                 // counted as an attempt, not yet as a manual one
    | Numbered(n: nat)              // automatic attempt n, not yet counted as an attempt
    | CountedAutomatic(n: nat)      // counted as an attempt, not yet as an automatic one
    | Judging(n: nat)               // counted, verdict of the sampler pending
    | SampledOut                    // will count itself as sampled out
    | Emitting                      // past the sampler, outcome open
    | Dropping                      // refused by reset, by the sequence limit or by a busy slot
    | Published(overwrote: bool)    // will count itself as emitted
    | Overwriting                   // emitted; will count the overwritten event as dropped
    | Wrapping                      // counted that drop; will count the wrap-around

  /** The counters, and what has happened to events since the run began. */
  datatype Counters = Counters(
    attempts: nat,
    manual: nat,
    automatic: nat,
    sampledOut: nat,
    emitted: nat,
    dropped: nat,
    wraps: nat,
    numbered: nat,                  // the sampler's own count of automatic attempts
    passed: nat,                    // events let through by the sampler
    refused: nat,                   // events the ring did not take
    published: nat,                 // events published in the ring
    overwrote: nat,                 // events published over an older one
    writers: seq<Pc>)

  ghost predicate Quiescent(c: Counters) {
    forall w :: 0 <= w < |c.writers| ==> c.writers[w].Idle?
  }

  ghost predicate Init(c: Counters) {
    && c.attempts == c.sampledOut + c.emitted + c.dropped - c.wraps
    && c.numbered == c.passed == c.refused == c.published == c.overwrote == 0
    && Quiescent(c)
  }

  ghost predicate Step(c: Counters, w: nat, d: Counters, burst: nat, interval: nat)
    requires w < |c.writers| && interval >= 1
  {
    var ws := c.writers;
    match c.writers[w]
    case Idle =>
      || d == c.(attempts := c.attempts + 1, writers := ws[w := CountedManual])
      || d == c.(numbered := c.numbered + 1, writers := ws[w := Numbered(c.numbered + 1)])
    case CountedManual => d == c.(manual := c.manual + 1, writers := ws[w := Emitting])
    case Numbered(n) => d == c.(attempts := c.attempts + 1, writers := ws[w := CountedAutomatic(n)])
    case CountedAutomatic(n) => d == c.(automatic := c.automatic + 1, writers := ws[w := Judging(n)])
    case Judging(n) =>
      if Passes(n, burst, interval) then d == c.(passed := c.passed + 1, writers := ws[w := Emitting])
      else d == c.(writers := ws[w := SampledOut])
    case SampledOut => d == c.(sampledOut := c.sampledOut + 1, writers := ws[w := Idle])
    case Emitting =>
      || d == c.(refused := c.refused + 1, writers := ws[w := Dropping])
      || d == c.(published := c.published + 1, writers := ws[w := Published(false)])
      || d == c.(published := c.published + 1, overwrote := c.overwrote + 1, writers := ws[w := Published(true)])
    case Dropping => d == c.(dropped := c.dropped + 1, writers := ws[w := Idle])
    case Published(over) => d == c.(emitted := c.emitted + 1, writers := ws[w := if over then Overwriting else Idle])
    case Overwriting => d == c.(dropped := c.dropped + 1, writers := ws[w := Wrapping])
    case Wrapping => d == c.(wraps := c.wraps + 1, writers := ws[w := Idle])
  }

  // ---- what writers in flight have still to count ----

  /** One counter after another: how much a writer in flight is ahead of it. */
  datatype Debt = Kind | Attempt | Verdict | Pass | Outcome | Emission | Drop | Wrap

  function Owes(debt: Debt, p: Pc, burst: nat, interval: nat): int
    requires interval >= 1
  {
    match debt
    case Kind => if p.CountedManual? || p.CountedAutomatic? then 1 else 0
    case Attempt => if p.Numbered? || p.CountedAutomatic? then 1 else 0
    case Verdict => if p.Numbered? || p.CountedAutomatic? || p.Judging? || p.SampledOut? then 1 else 0
    case Pass => if (p.Numbered? || p.CountedAutomatic? || p.Judging?) && Passes(p.n, burst, interval) then 1 else 0
    case Outcome => if p.Emitting? then 1 else 0
    case Emission => if p.Published? then 1 else 0
    case Drop => if p.Dropping? || p.Overwriting? || (p.Published? && p.overwrote) then 1 else 0
    case Wrap => if p.Overwriting? || p.Wrapping? || (p.Published? && p.overwrote) then 1 else 0
  }

  function Total(ws: seq<Pc>, debt: Debt, burst: nat, interval: nat): int
    requires interval >= 1
  {
    if ws == [] then 0
    else Total(ws[..|ws| - 1], debt, burst, interval) + Owes(debt, ws[|ws| - 1], burst, interval)
  }

  lemma {:induction false} TotalUpdate(ws: seq<Pc>, debt: Debt, w: nat, p: Pc, burst: nat, interval: nat)
    requires w < |ws| && interval >= 1
    ensures Total(ws[w := p], debt, burst, interval)
            == Total(ws, debt, burst, interval) + Owes(debt, p, burst, interval) - Owes(debt, ws[w], burst, interval)
  {
    var n := |ws| - 1;
    if w == n {
      assert ws[w := p][..n] == ws[..n];
    } else {
      TotalUpdate(ws[..n], debt, w, p, burst, interval);
      assert ws[w := p][..n] == ws[..n][w := p];
    }
  }

  lemma {:induction false} TotalIdle(ws: seq<Pc>, debt: Debt, burst: nat, interval: nat)
    requires interval >= 1
    requires forall w :: 0 <= w < |ws| ==> ws[w].Idle?
    ensures Total(ws, debt, burst, interval) == 0
  {
    if ws == [] {
    } else {
      TotalIdle(ws[..|ws| - 1], debt, burst, interval);
    }
  }

  /** The books since state b: each line holds once the writers in flight have paid their debt. */
  ghost predicate Books(b: Counters, c: Counters, debt: Debt, burst: nat, interval: nat)
    requires interval >= 1
  {
    var owed := Total(c.writers, debt, burst, interval);
    match debt
    case Kind => c.attempts - b.attempts == (c.manual - b.manual) + (c.automatic - b.automatic) + owed
    case Attempt => c.numbered == (c.automatic - b.automatic) + owed
    case Verdict => c.numbered == c.passed + (c.sampledOut - b.sampledOut) + owed
    case Pass => PassCount(c.numbered, burst, interval) == c.passed + owed
    case Outcome => (c.manual - b.manual) + c.passed == c.refused + c.published + owed
    case Emission => c.published == (c.emitted - b.emitted) + owed
    case Drop => c.refused + c.overwrote == (c.dropped - b.dropped) + owed
    case Wrap => c.overwrote == (c.wraps - b.wraps) + owed
  }

  ghost predicate Inv(b: Counters, c: Counters, burst: nat, interval: nat)
    requires interval >= 1
  {
    forall debt :: Books(b, c, debt, burst, interval)
  }

  lemma StepKeepsBooks(b: Counters, c: Counters, w: nat, d: Counters, debt: Debt, burst: nat, interval: nat)
    requires interval >= 1 && w < |c.writers|
    requires Books(b, c, debt, burst, interval)
    requires Step(c, w, d, burst, interval)
    ensures Books(b, d, debt, burst, interval)
  {
    hide Total, Passes;
    assert d.writers == c.writers[w := d.writers[w]];
    TotalUpdate(c.writers, debt, w, d.writers[w], burst, interval);
  }

  /** Every counter update keeps the books. */
  lemma StepKeepsInv(b: Counters, c: Counters, w: nat, d: Counters, burst: nat, interval: nat)
    requires interval >= 1 && w < |c.writers|
    requires Inv(b, c, burst, interval)
    requires Step(c, w, d, burst, interval)
    ensures Inv(b, d, burst, interval)
  {
    hide Step, Books;
    forall debt
      ensures Books(b, d, debt, burst, interval)
    {
      StepKeepsBooks(b, c, w, d, debt, burst, interval);
    }
  }

  ghost predicate Next(c: Counters, d: Counters, burst: nat, interval: nat)
    requires interval >= 1
  {
    exists w: nat :: w < |c.writers| && Step(c, w, d, burst, interval)
  }

  ghost predicate StepAt(r: seq<Counters>, j: int, burst: nat, interval: nat)
    requires interval >= 1
  {
    0 <= j && j + 1 < |r| && Next(r[j], r[j + 1], burst, interval)
  }

  ghost predicate IsRun(r: seq<Counters>, burst: nat, interval: nat)
    requires interval >= 1
  {
    |r| > 0 && Init(r[0]) && forall j :: 0 <= j < |r| - 1 ==> StepAt(r, j, burst, interval)
  }

  lemma InitInv(c: Counters, burst: nat, interval: nat)
    requires interval >= 1 && Init(c)
    ensures Inv(c, c, burst, interval)
  {
    forall debt
      ensures Books(c, c, debt, burst, interval)
    {
      TotalIdle(c.writers, debt, burst, interval);
    }
  }

  lemma {:induction false} RunInv(r: seq<Counters>, j: nat, burst: nat, interval: nat)
    requires interval >= 1
    requires IsRun(r, burst, interval) && j < |r|
    ensures Inv(r[0], r[j], burst, interval)
  {
    hide Inv, Step, Init;
    if j == 0 {
      InitInv(r[0], burst, interval);
    } else {
      RunInv(r, j - 1, burst, interval);
      assert StepAt(r, j - 1, burst, interval);
      var w: nat :| w < |r[j - 1].writers| && Step(r[j - 1], w, r[j], burst, interval);
      StepKeepsInv(r[0], r[j - 1], w, r[j], burst, interval);
    }
  }

  /** A line of the books with no writer in flight. */
  lemma Settled(r: seq<Counters>, j: nat, debt: Debt, burst: nat, interval: nat)
    requires interval >= 1
    requires IsRun(r, burst, interval) && j < |r|
    requires Quiescent(r[j])
    ensures Books(r[0], r[j], debt, burst, interval) && Total(r[j].writers, debt, burst, interval) == 0
  {
    hide Books, Init;
    RunInv(r, j, burst, interval);
    TotalIdle(r[j].writers, debt, burst, interval);
  }

  /** Whenever no event is in flight every counter has grown by exactly what happened since the run began. */
  lemma CountersExact(r: seq<Counters>, j: nat, burst: nat, interval: nat)
    requires interval >= 1
    requires IsRun(r, burst, interval) && j < |r|
    requires Quiescent(r[j])
    ensures var b, c, n := r[0], r[j], r[j].numbered;
            && c.passed == Min(n, burst) + (if n <= burst then 0 else (n - burst) / interval)
            && c.automatic - b.automatic == n
            && c.sampledOut - b.sampledOut == n - c.passed
            && c.attempts - b.attempts == (c.manual - b.manual) + n
            && c.emitted - b.emitted == c.published
            && c.dropped - b.dropped == c.refused + c.overwrote
            && c.wraps - b.wraps == c.overwrote
            && (c.manual - b.manual) + c.passed == c.refused + c.published
  {
    hide IsRun, Total, PassCount;
    Settled(r, j, Kind, burst, interval);
    Settled(r, j, Attempt, burst, interval);
    Settled(r, j, Verdict, burst, interval);
    Settled(r, j, Pass, burst, interval);
    Settled(r, j, Outcome, burst, interval);
    Settled(r, j, Emission, burst, interval);
    Settled(r, j, Drop, burst, interval);
    Settled(r, j, Wrap, burst, interval);
    SamplerLaw(r[j].numbered, burst, interval);
  }

  /** So every attempt is accounted for, as long as it was when the run began. */
  lemma CountersBalance(r: seq<Counters>, j: nat, burst: nat, interval: nat)
    requires interval >= 1
    requires IsRun(r, burst, interval) && j < |r|
    requires Quiescent(r[j])
    ensures r[j].attempts == r[j].emitted + r[j].sampledOut + (r[j].dropped - r[j].wraps)
  {
    CountersExact(r, j, burst, interval);
  }

  // ---- every outcome happens ----

  datatype Fate = Refuse | Publish | Overwrite

  /** What one event past the sampler does to the counters. */
  function Emitted(c: Counters, fate: Fate): Counters {
    match fate
    case Refuse => c.(refused := c.refused + 1, dropped := c.dropped + 1)
    case Publish => c.(published := c.published + 1, emitted := c.emitted + 1)
    case Overwrite =>
      c.(published := c.published + 1, overwrote := c.overwrote + 1, emitted := c.emitted + 1,
         dropped := c.dropped + 1, wraps := c.wraps + 1)
  }

  /** What one event does to the counters. */
  function Counted(c: Counters, byHand: bool, fate: Fate, burst: nat, interval: nat): Counters
    requires interval >= 1
  {
    if byHand then Emitted(c.(attempts := c.attempts + 1, manual := c.manual + 1), fate)
    else
      var d := c.(attempts := c.attempts + 1, automatic := c.automatic + 1, numbered := c.numbered + 1);
      if Passes(d.numbered, burst, interval) then Emitted(d.(passed := d.passed + 1), fate)
      else d.(sampledOut := d.sampledOut + 1)
  }

  ghost function Last(r: seq<Counters>): Counters
    requires r != []
  {
    r[|r| - 1]
  }

  lemma Moves(r: seq<Counters>, w: nat, d: Counters, burst: nat, interval: nat) returns (more: seq<Counters>)
    requires interval >= 1 && IsRun(r, burst, interval)
    requires w < |Last(r).writers| && Step(Last(r), w, d, burst, interval)
    ensures IsRun(more, burst, interval) && r <= more && Last(more) == d
  {
    hide Step, Init;
    more := r + [d];
    forall j | 0 <= j < |more| - 1
      ensures StepAt(more, j, burst, interval)
    {
      assert j == |r| - 1 || StepAt(r, j, burst, interval);
    }
  }

  lemma Emit(r: seq<Counters>, w: nat, fate: Fate, burst: nat, interval: nat) returns (more: seq<Counters>)
    requires interval >= 1 && IsRun(r, burst, interval)
    requires w < |Last(r).writers| && Last(r).writers[w].Emitting?
    ensures IsRun(more, burst, interval) && r <= more
    ensures Last(more) == Emitted(Last(r), fate).(writers := Last(r).writers[w := Idle])
  {
    hide StepAt, Init;
    var c := Last(r);
    var ws := c.writers;
    match fate
    case Refuse =>
      more := Moves(r, w, c.(refused := c.refused + 1, writers := ws[w := Dropping]), burst, interval);
      more := Moves(more, w, Emitted(c, fate).(writers := ws[w := Idle]), burst, interval);
    case Publish =>
      more := Moves(r, w, c.(published := c.published + 1, writers := ws[w := Published(false)]), burst, interval);
      more := Moves(more, w, Emitted(c, fate).(writers := ws[w := Idle]), burst, interval);
    case Overwrite =>
      var d := c.(published := c.published + 1, overwrote := c.overwrote + 1, writers := ws[w := Published(true)]);
      more := Moves(r, w, d, burst, interval);
      d := d.(emitted := d.emitted + 1, writers := ws[w := Overwriting]);
      more := Moves(more, w, d, burst, interval);
      d := d.(dropped := d.dropped + 1, writers := ws[w := Wrapping]);
      more := Moves(more, w, d, burst, interval);
      more := Moves(more, w, Emitted(c, fate).(writers := ws[w := Idle]), burst, interval);
  }

  lemma SameWriters(c: Counters, ws: seq<Pc>, xs: seq<Pc>, fate: Fate)
    requires c.writers == xs
    ensures Emitted(c.(writers := ws), fate).(writers := xs) == Emitted(c, fate)
    ensures Emitted(c, fate).writers == xs
  {
  }

  /** From every reachable state at rest a writer can carry one event of either kind to each of its possible ends, and
      the counters then show exactly that. */
  lemma OneEvent(r: seq<Counters>, w: nat, byHand: bool, fate: Fate, burst: nat, interval: nat)
    returns (more: seq<Counters>)
    requires interval >= 1 && IsRun(r, burst, interval)
    requires Quiescent(Last(r)) && w < |Last(r).writers|
    ensures IsRun(more, burst, interval) && r <= more
    ensures Quiescent(Last(more)) && Last(more) == Counted(Last(r), byHand, fate, burst, interval)
  {
    hide StepAt, Init, Emitted, Passes;
    var c := Last(r);
    var ws := c.writers;
    assert ws[w := Idle] == ws;
    if byHand {
      more := Moves(r, w, c.(attempts := c.attempts + 1, writers := ws[w := CountedManual]), burst, interval);
      var d := c.(attempts := c.attempts + 1, manual := c.manual + 1);
      more := Moves(more, w, d.(writers := ws[w := Emitting]), burst, interval);
      more := Emit(more, w, fate, burst, interval);
      SameWriters(d, ws[w := Emitting], ws, fate);
    } else {
      var n := c.numbered + 1;
      more := Moves(r, w, c.(numbered := n, writers := ws[w := Numbered(n)]), burst, interval);
      var d := c.(numbered := n, attempts := c.attempts + 1);
      more := Moves(more, w, d.(writers := ws[w := CountedAutomatic(n)]), burst, interval);
      d := d.(automatic := d.automatic + 1);
      more := Moves(more, w, d.(writers := ws[w := Judging(n)]), burst, interval);
      if Passes(n, burst, interval) {
        d := d.(passed := d.passed + 1);
        more := Moves(more, w, d.(writers := ws[w := Emitting]), burst, interval);
        more := Emit(more, w, fate, burst, interval);
        SameWriters(d, ws[w := Emitting], ws, fate);
      } else {
        more := Moves(more, w, d.(writers := ws[w := SampledOut]), burst, interval);
        more := Moves(more, w, d.(sampledOut := d.sampledOut + 1), burst, interval);
      }
    }
  }
}
