/** cpp/cpp_target.cpp: the linear buffer whose data is shifted back every few periods, as the
    generated program uses it.
 */
module DataShifting {
  import opened Buffers
  import opened FoldedMemory
  import opened IndexArithmetic

  /** Flat position of column c of a row of `factor` cells. */
  function Cell(row: int, c: int, factor: int): int {
    row * factor + c
  }

  lemma CellInside(row: int, c: int, factor: int, rows: int)
    requires 0 <= row < rows && 0 <= c < factor
    ensures 0 <= Cell(row, c, factor) < rows * factor
  {
    ProductGrows(0, row, factor);
    ProductGrows(row + 1, rows, factor);
    Distribute(row, 1, factor);
  }

  lemma CellsOrdered(row: int, c: int, row': int, c': int, factor: int)
    requires 0 <= c < factor && 0 <= c' < factor && row < row'
    ensures Cell(row, c, factor) < Cell(row', c', factor)
  {
    ProductGrows(row + 1, row', factor);
    Distribute(row, 1, factor);
  }

  lemma CellsDiffer(row: int, c: int, row': int, c': int, factor: int)
    requires 0 <= c < factor && 0 <= c' < factor && (row != row' || c != c')
    ensures Cell(row, c, factor) != Cell(row', c', factor)
  {
    if row < row' {
      CellsOrdered(row, c, row', c', factor);
    } else if row' < row {
      CellsOrdered(row', c', row, c, factor);
    }
  }

  /** std::copy of data[source..end] to dest, front to back.  The ranges may overlap. */
  method CopyForward(data: array<int>, source: nat, end: nat, dest: nat)
    requires dest <= source <= end <= data.Length
    modifies data
    ensures forall p :: dest <= p < dest + (end - source) ==> data[p] == old(data[p - dest + source])
    ensures forall p :: 0 <= p < data.Length && !(dest <= p < dest + (end - source)) ==> data[p] == old(data[p])
  {
    var n := 0;
    while n < end - source
      invariant n <= end - source
      invariant forall p :: dest <= p < dest + n ==> data[p] == old(data[p - dest + source])
      invariant forall p :: 0 <= p < data.Length && !(dest <= p < dest + n) ==> data[p] == old(data[p])
    {
      data[dest + n] := data[source + n];
      n := n + 1;
    }
  }

  /** The layout that BufferAnalysis gives to a shifting buffer. */
  ghost predicate IsPlan(a: ArrayInfo, opt: Options, hasPhase: bool, shift: DataShift) {
    WellFormed(a) && Shifts(a, opt) && IsShiftPlan(a, hasPhase, shift)
  }

  function Rows(a: ArrayInfo, shift: DataShift): int {
    a.lastAccess + shift.periodCount * a.period + 1
  }

  /** Rows copied after k periods. */
  function RowsCopied(k: nat, shift: DataShift): int
    requires shift.periodCount >= 1
  {
    (k / shift.periodCount) * shift.size
  }

  /** On average at most a tenth of the rows that a period accesses is copied per period. */
  lemma ShiftingIsAmortised(a: ArrayInfo, opt: Options, hasPhase: bool, shift: DataShift, k: nat)
    requires IsPlan(a, opt, hasPhase, shift)
    ensures 10 * RowsCopied(k, shift) <= k * PeriodSize(a)
  {
    var q, n := k / shift.periodCount, shift.periodCount;
    if Overlap(a) > 0 {
      AmortisedProduct(k, q, n, shift.size, PeriodSize(a));
    } else {
      assert q * 0 == 0;
      ProductGrows(0, k, PeriodSize(a));
    }
  }

  lemma AmortisedProduct(k: nat, q: nat, n: int, size: int, rows: int)
    requires n >= 1 && q == k / n && size >= 1 && rows >= 0 && 10 * size <= n * rows
    ensures 10 * (q * size) <= k * rows
  {
    ProductGrows(10 * size, n * rows, q);
    ProductGrows(n * q, k, rows);
    assert (10 * size) * q == 10 * (q * size);
    assert (n * rows) * q == (n * q) * rows;
  }

  class ShiftBuffer {
    const a: ArrayInfo
    const hasPhase: bool
    const shift: DataShift
    const factor: nat
    const data: array<int>
    var phase: int

    /** Periods completed, and the array as an unbounded one: (row, column) to value. */
    ghost var periods: nat
    ghost var contents: map<(int, int), int>
    ghost var rowsCopied: int

    ghost predicate Shape()
      reads this
    {
      && WellFormed(a) && a.isInfinite && IsShiftPlan(a, hasPhase, shift) && factor >= 1
      && data.Length == Rows(a, shift) * factor
      && phase == (periods % shift.periodCount) * a.period
      && rowsCopied == RowsCopied(periods, shift)
    }

    /** An element of the array that the current or a later period may access, if it has a value. */
    ghost predicate Kept(r: int, c: int)
      reads this
    {
      (r, c) in contents && (periods == 0 || r >= a.firstAccess + periods * a.period)
    }

    ghost predicate Valid()
      reads this, data
    {
      && Shape()
      && (forall r, c :: (r, c) in contents ==> 0 <= c < factor && 0 <= r <= a.lastAccess + periods * a.period)
      && (forall r, c :: Kept(r, c) ==> InBounds(r, c) && data[Position(r, c)] == contents[(r, c)])
    }

    ghost function Position(r: int, c: int): int
      reads this
    {
      Cell(r - periods * a.period + phase, c, factor)
    }

    ghost predicate InBounds(r: int, c: int)
      reads this
    {
      0 <= Position(r, c) < data.Length
    }

    lemma PhaseBound()
      requires Shape()
      ensures 0 <= phase <= (shift.periodCount - 1) * a.period
    {
      ProductGrows(0, periods % shift.periodCount, a.period);
      ProductGrows(periods % shift.periodCount, shift.periodCount - 1, a.period);
    }

    /** Every access of a period stays inside the buffer. */
    lemma AccessInside(i: int, c: int)
      requires Shape() && 0 <= i <= a.lastAccess && 0 <= c < factor
      ensures 0 <= i + phase < Rows(a, shift)
      ensures 0 <= Cell(i + phase, c, factor) < data.Length
    {
      PhaseBound();
      CellInside(i + phase, c, factor, Rows(a, shift));
    }

    constructor (a: ArrayInfo, hasPhase: bool, shift: DataShift, factor: nat)
      requires WellFormed(a) && a.isInfinite && IsShiftPlan(a, hasPhase, shift) && factor >= 1
      ensures Valid() && fresh(data) && periods == 0 && contents == map[] && rowsCopied == 0
      ensures this.a == a && this.shift == shift && this.factor == factor && this.hasPhase == hasPhase
    {
      this.a, this.hasPhase, this.shift, this.factor := a, hasPhase, shift, factor;
      assert Rows(a, shift) * factor >= 0;
      data := new int[Rows(a, shift) * factor];
      phase, periods, contents, rowsCopied := 0, 0, map[], 0;
    }

    lemma OtherCells(i: int, c: int)
      requires Valid() && 0 <= c < factor
      ensures forall r, c' :: (r, c') in contents && (r, c') != (i + periods * a.period, c) ==>
        Position(r, c') != Cell(i + phase, c, factor)
    {
      forall r, c' | (r, c') in contents && (r, c') != (i + periods * a.period, c)
        ensures Position(r, c') != Cell(i + phase, c, factor)
      {
        CellsDiffer(r - periods * a.period + phase, c', i + phase, c, factor);
      }
    }

    /** A write in the prelude, or by a period to row i of period 0. */
    method Write(i: int, c: int, v: int)
      requires Valid() && 0 <= c < factor && 0 <= i <= a.lastAccess
      requires periods == 0 || a.firstAccess <= i
      modifies this`contents, data
      ensures Valid()
      ensures contents == old(contents)[(i + periods * a.period, c) := v]
    {
      AccessInside(i, c);
      OtherCells(i, c);
      ProductGrows(0, periods, a.period);
      data[Cell(i + phase, c, factor)] := v;
      contents := contents[(i + periods * a.period, c) := v];
      assert Position(i + periods * a.period, c) == Cell(i + phase, c, factor);
    }

    /** A read in the prelude, or by a period of row i of period 0. */
    method Read(i: int, c: int) returns (v: int)
      requires Valid() && 0 <= c < factor && 0 <= i <= a.lastAccess
      requires periods == 0 || a.firstAccess <= i
      ensures (i + periods * a.period, c) in contents ==> v == contents[(i + periods * a.period, c)]
    {
      AccessInside(i, c);
      assert (i + periods * a.period, c) in contents ==> Kept(i + periods * a.period, c);
      v := data[Cell(i + phase, c, factor)];
    }

    lemma NextPeriod()
      requires Shape()
      ensures (periods + 1) * a.period == periods * a.period + a.period
      ensures var m := periods % shift.periodCount;
        && phase + a.period == (m + 1) * a.period
        && (phase + a.period >= shift.periodCount * a.period <==> m + 1 == shift.periodCount)
    {
      var n, m := shift.periodCount, periods % shift.periodCount;
      Distribute(periods, 1, a.period);
      Distribute(m, 1, a.period);
      if m + 1 < n {
        ProductGrows(m + 2, n, a.period);
        Distribute(m + 1, 1, a.period);
      }
    }

    /** Cells that the accumulated phase amounts to. */
    ghost function Moved(): int {
      (shift.periodCount * a.period) * factor
    }

    lemma ShiftInside()
      requires hasPhase && WellFormed(a) && a.isInfinite && IsShiftPlan(a, hasPhase, shift)
      ensures 0 <= a.firstAccess * factor <= shift.source * factor
      ensures shift.source * factor <= (shift.source + shift.size) * factor <= Rows(a, shift) * factor
      ensures shift.source * factor == a.firstAccess * factor + Moved()
      ensures (shift.source + shift.size) * factor == shift.source * factor + shift.size * factor
    {
      ProductGrows(0, shift.periodCount, a.period);
      ProductGrows(0, a.firstAccess, factor);
      ProductGrows(a.firstAccess, shift.source, factor);
      ProductGrows(shift.source, shift.source + shift.size, factor);
      ProductGrows(shift.source + shift.size, Rows(a, shift), factor);
      Distribute(a.firstAccess, shift.periodCount * a.period, factor);
      Distribute(shift.source, shift.size, factor);
    }

    /** The shift: the overlapping rows go back by the accumulated phase. */
    method ShiftRows()
      requires hasPhase && WellFormed(a) && a.isInfinite && IsShiftPlan(a, hasPhase, shift)
      requires data.Length == Rows(a, shift) * factor
      modifies data
      ensures forall p :: a.firstAccess * factor <= p < a.firstAccess * factor + shift.size * factor ==>
        0 <= p < data.Length && 0 <= p + Moved() < data.Length && data[p] == old(data[p + Moved()])
    {
      ShiftInside();
      var source := shift.source * factor;
      var end := (shift.source + shift.size) * factor;
      var dest := (shift.source - shift.periodCount * a.period) * factor;
      assert shift.source - shift.periodCount * a.period == a.firstAccess;
      CopyForward(data, source, end, dest);
    }

    /** A row of the overlap, counted in the next period, before and after the shift. */
    lemma ShiftedRow(row: int, c: int)
      requires hasPhase && WellFormed(a) && a.isInfinite && IsShiftPlan(a, hasPhase, shift)
      requires a.firstAccess <= row <= a.lastAccess - a.period && 0 <= c < factor
      ensures a.firstAccess * factor <= Cell(row, c, factor) < a.firstAccess * factor + shift.size * factor
      ensures Cell(row + shift.periodCount * a.period, c, factor) == Cell(row, c, factor) + Moved()
    {
      CopiedCell(row, c, a.firstAccess, shift.size, factor);
      Distribute(row, shift.periodCount * a.period, factor);
    }

    /** Every element from row firstAccess + back on is where a period whose rows start `back` rows
        into the array looks for it, with the given phase. */
    ghost predicate Located(back: int, phase: int)
      reads this, data
    {
      forall r, c :: (r, c) in contents && r >= a.firstAccess + back ==>
        && 0 <= Cell(r - back + phase, c, factor) < data.Length
        && data[Cell(r - back + phase, c, factor)] == contents[(r, c)]
    }

    /** The time-to-shift branch. */
    method ShiftBack(ghost back: int)
      requires hasPhase && WellFormed(a) && a.isInfinite && IsShiftPlan(a, hasPhase, shift)
      requires data.Length == Rows(a, shift) * factor
      requires forall r, c :: (r, c) in contents ==> 0 <= c < factor && r <= a.lastAccess + back - a.period
      requires phase == shift.periodCount * a.period && Located(back, phase)
      modifies `phase, `rowsCopied, data
      ensures Located(back, 0)
      ensures phase == 0 && rowsCopied == old(rowsCopied) + shift.size
    {
      ShiftRows();
      forall r, c | (r, c) in contents && r >= a.firstAccess + back
        ensures 0 <= Cell(r - back, c, factor) < data.Length
        ensures data[Cell(r - back, c, factor)] == contents[(r, c)]
      {
        ShiftedRow(r - back, c);
      }
      phase := 0;
      rowsCopied := rowsCopied + shift.size;
    }

    lemma KeptAreLocated()
      requires Valid()
      ensures (periods + 1) * a.period == periods * a.period + a.period
      ensures Located((periods + 1) * a.period, phase + a.period)
    {
      Distribute(periods, 1, a.period);
      assert forall r, c :: (r, c) in contents && r >= a.firstAccess + (periods + 1) * a.period ==> Kept(r, c);
    }

    ghost function NextPhase(): int
      reads this
    {
      if !hasPhase || shift.size == 0 then phase
      else if phase + a.period >= shift.periodCount * a.period then 0
      else phase + a.period
    }

    ghost predicate ShiftsNow()
      reads this
    {
      hasPhase && shift.size != 0 && phase + a.period >= shift.periodCount * a.period
    }

    lemma NextShape()
      requires Shape()
      ensures NextPhase() == ((periods + 1) % shift.periodCount) * a.period
      ensures RowsCopied(periods + 1, shift) == rowsCopied + if ShiftsNow() then shift.size else 0
      ensures ShiftsNow() ==> phase + a.period == shift.periodCount * a.period
    {
      NextPeriod();
      NextRemainder(periods, shift.periodCount);
      if ShiftsNow() {
        Distribute(periods / shift.periodCount, 1, shift.size);
      }
    }

    /** advance_buffers, for a buffer that shifts data (or whose periods do not overlap) */
    method Advance()
      requires Valid()
      modifies `phase, `periods, `rowsCopied, data
      ensures Valid()
      ensures periods == old(periods) + 1 && contents == old(contents)
    {
      NextShape();
      KeptAreLocated();
      ghost var back := (periods + 1) * a.period;
      if hasPhase && shift.size != 0 {
        phase := phase + a.period;
        if phase >= shift.periodCount * a.period {
          ShiftBack(back);
        }
      }
      periods := periods + 1;
    }
  }

  lemma CopiedCell(row: int, c: int, first: int, size: int, factor: int)
    requires first <= row < first + size && 0 <= c < factor
    ensures first * factor <= Cell(row, c, factor) < first * factor + size * factor
  {
    ProductGrows(first, row, factor);
    ProductGrows(row + 1, first + size, factor);
    Distribute(row, 1, factor);
    Distribute(first, size, factor);
  }

  lemma NextRemainder(k: nat, n: int)
    requires n >= 1
    ensures (k + 1) % n == (if k % n + 1 == n then 0 else k % n + 1)
    ensures (k + 1) / n == k / n + (if k % n + 1 == n then 1 else 0)
  {
    var q, m := k / n, k % n;
    if m + 1 == n {
      Distribute(q, 1, n);
      QuotientUnique(k + 1, n, q + 1, 0);
    } else {
      QuotientUnique(k + 1, n, q, m + 1);
    }
  }

  // ---- Whole runs ---------------------------------------------------------------------------

  /** Accesses by (row, column); a period's code names the rows of period 0. */
  type Code = seq<Event<(int, int)>>

  function Displace(e: Event<(int, int)>, rows: int): Event<(int, int)> {
    e.(elem := (e.elem.0 + rows, e.elem.1))
  }

  /** The accesses of the code when it runs as period k, by their rows in the unbounded array. */
  function InPeriod(code: Code, k: nat, period: int): (c: Code)
    ensures |c| == |code| && forall j :: 0 <= j < |code| ==> c[j] == Displace(code[j], k * period)
  {
    seq(|code|, j requires 0 <= j < |code| => Displace(code[j], k * period))
  }

  /** The prelude and then one period after the other. */
  function Unrolled(prelude: Code, periods: seq<Code>, period: int): Code {
    if periods == [] then prelude
    else Unrolled(prelude, periods[..|periods| - 1], period)
         + InPeriod(periods[|periods| - 1], |periods| - 1, period)
  }

  ghost predicate RowsWithin(code: Code, lo: int, hi: int, factor: int) {
    forall j :: 0 <= j < |code| ==> lo <= code[j].elem.0 <= hi && 0 <= code[j].elem.1 < factor
  }

  lemma {:induction false} WrittenIsStored<E(!new)>(trace: seq<Event<E>>, n: nat, x: E)
    requires n <= |trace| && WrittenBefore(trace, n, x)
    ensures x in Run(trace[..n], Own()).memory
  {
    assert trace[..n][..n - 1] == trace[..n - 1] && trace[..n][n - 1] == trace[n - 1];
    if !(trace[n - 1].Write? && trace[n - 1].elem == x) {
      WrittenIsStored(trace, n - 1, x);
    }
  }

  /** The buffer holds what the unbounded array holds after the trace. */
  ghost predicate Mirrors(b: ShiftBuffer, trace: Code, log: seq<int>)
    reads b, b.data
  {
    b.Valid() && b.contents == Run(trace, Own()).memory && log == Run(trace, Own()).log
  }

  lemma ReadsAreWrittenInPrefix<E(!new)>(a: seq<Event<E>>, b: seq<Event<E>>)
    requires ReadsAreWritten(a + b)
    ensures ReadsAreWritten(a)
  {
    forall j | 0 <= j < |a| && a[j].Read? ensures WrittenBefore(a, j, a[j].elem) {
      assert (a + b)[j] == a[j];
      assert WrittenBefore(a + b, j, a[j].elem);
    }
  }

  method ExecuteEvent(b: ShiftBuffer, e: Event<(int, int)>, log: seq<int>, ghost before: Code)
    returns (after: seq<int>)
    requires Mirrors(b, before, log)
    requires (if b.periods == 0 then 0 else b.a.firstAccess) <= e.elem.0 <= b.a.lastAccess && 0 <= e.elem.1 < b.factor
    requires ReadsAreWritten(before + [Displace(e, b.periods * b.a.period)])
    modifies b`contents, b.data
    ensures Mirrors(b, before + [Displace(e, b.periods * b.a.period)], after)
  {
    ghost var trace := before + [Displace(e, b.periods * b.a.period)];
    assert trace[..|before|] == before && trace[|before|] == Displace(e, b.periods * b.a.period);
    match e {
      case Read(x) =>
        WrittenIsStored(trace, |before|, trace[|before|].elem);
        var v := b.Read(x.0, x.1);
        after := log + [v];
      case Write(x, compute) =>
        b.Write(x.0, x.1, compute(log));
        after := log;
    }
  }

  /** Straight-line code, event by event. */
  method Execute(b: ShiftBuffer, code: Code, log: seq<int>, ghost before: Code) returns (after: seq<int>)
    requires Mirrors(b, before, log)
    requires RowsWithin(code, if b.periods == 0 then 0 else b.a.firstAccess, b.a.lastAccess, b.factor)
    requires ReadsAreWritten(before + InPeriod(code, b.periods, b.a.period))
    modifies b`contents, b.data
    ensures Mirrors(b, before + InPeriod(code, b.periods, b.a.period), after)
    decreases |code|
  {
    if code == [] {
      assert before + InPeriod(code, b.periods, b.a.period) == before;
      return log;
    }
    var n := |code| - 1;
    ghost var mid := before + InPeriod(code[..n], b.periods, b.a.period);
    ghost var last := [Displace(code[n], b.periods * b.a.period)];
    assert before + InPeriod(code, b.periods, b.a.period) == mid + last;
    ReadsAreWrittenInPrefix(mid, last);
    after := Execute(b, code[..n], log, before);
    after := ExecuteEvent(b, code[n], after, mid);
  }

  lemma {:induction false} PrefixReadsAreWritten(prelude: Code, periods: seq<Code>, period: int, n: nat)
    requires n <= |periods| && ReadsAreWritten(Unrolled(prelude, periods, period))
    ensures ReadsAreWritten(Unrolled(prelude, periods[..n], period))
    decreases |periods|
  {
    if n == |periods| {
      assert periods[..n] == periods;
    } else {
      var shorter := periods[..|periods| - 1];
      ReadsAreWrittenInPrefix(Unrolled(prelude, shorter, period), InPeriod(periods[|periods| - 1], |shorter|, period));
      PrefixReadsAreWritten(prelude, shorter, period, n);
      assert shorter[..n] == periods[..n];
    }
  }

  /** One period: its code, then the buffer moves on. */
  method RunPeriod(b: ShiftBuffer, code: Code, log: seq<int>, ghost before: Code) returns (after: seq<int>)
    requires Mirrors(b, before, log)
    requires RowsWithin(code, b.a.firstAccess, b.a.lastAccess, b.factor)
    requires ReadsAreWritten(before + InPeriod(code, b.periods, b.a.period))
    modifies b, b.data
    ensures Mirrors(b, before + InPeriod(code, old(b.periods), b.a.period), after)
    ensures b.periods == old(b.periods) + 1
  {
    after := Execute(b, code, log, before);
    b.Advance();
  }

  method RunPeriods(b: ShiftBuffer, ghost prelude: Code, periods: seq<Code>, log: seq<int>) returns (after: seq<int>)
    requires b.periods == 0 && Mirrors(b, prelude, log)
    requires forall k :: 0 <= k < |periods| ==> RowsWithin(periods[k], b.a.firstAccess, b.a.lastAccess, b.factor)
    requires ReadsAreWritten(Unrolled(prelude, periods, b.a.period))
    modifies b, b.data
    ensures Mirrors(b, Unrolled(prelude, periods, b.a.period), after)
    ensures b.periods == |periods|
  {
    after := log;
    for k := 0 to |periods|
      invariant b.periods == k
      invariant Mirrors(b, Unrolled(prelude, periods[..k], b.a.period), after)
    {
      assert periods[..k + 1][..k] == periods[..k];
      PrefixReadsAreWritten(prelude, periods, b.a.period, k + 1);
      after := RunPeriod(b, periods[k], after, Unrolled(prelude, periods[..k], b.a.period));
    }
    assert periods[..|periods|] == periods;
  }

  /** Prelude and any number of periods on the small buffer read exactly what they read on the
      unbounded array, and copy no more than a tenth of the rows they access. */
  method RunProgram(a: ArrayInfo, opt: Options, hasPhase: bool, shift: DataShift, factor: nat,
                    prelude: Code, periods: seq<Code>)
    returns (log: seq<int>, ghost rowsCopied: int)
    requires IsPlan(a, opt, hasPhase, shift) && factor >= 1
    requires RowsWithin(prelude, 0, a.lastAccess, factor)
    requires forall k :: 0 <= k < |periods| ==> RowsWithin(periods[k], a.firstAccess, a.lastAccess, factor)
    requires ReadsAreWritten(Unrolled(prelude, periods, a.period))
    ensures log == Run(Unrolled(prelude, periods, a.period), Own()).log
    ensures rowsCopied == RowsCopied(|periods|, shift) && 10 * rowsCopied <= |periods| * PeriodSize(a)
  {
    var b := new ShiftBuffer(a, hasPhase, shift, factor);
    PrefixReadsAreWritten(prelude, periods, a.period, 0);
    assert periods[..0] == [] && [] + InPeriod(prelude, 0, a.period) == prelude;
    log := Execute(b, prelude, [], []);
    log := RunPeriods(b, prelude, periods, log);
    rowsCopied := b.rowsCopied;
    ShiftingIsAmortised(a, opt, hasPhase, shift, |periods|);
  }
}
