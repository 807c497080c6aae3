/**
 * The wrapped view of a whole LineBlock: its raw lines cut into rows at a
 * display width, the wrapped-line lookup with its decrement-and-continue
 * protocol, and the conversions between cell positions and (x, y).
 *
 * A block's content is an ordered sequence of raw lines. Each raw line carries
 * opaque metadata of type M and a continuation cell. Positions are offsets of
 * cells counted from the first live cell of the block.
 */
module Layout {
  import opened Wrap

  datatype RawLine<M> = RawLine(cells: seq<Cell>, metadata: M, continuation: Cell)

  /** How a wrapped line ends: a hard newline, a soft wrap, or a wrap one column early before a DWC. */
  datatype Eol = Hard | Soft | Dwc

  /** One wrapped line as getWrappedLineWithWrapWidth reports it. */
  datatype Row<M> = Row(cells: seq<Cell>, eol: Eol, isStartOfWrappedLine: bool, metadata: M, continuation: Cell)

  /** Result of the lookup: the row found, or the line number left for the next block. */
  datatype Wrapped<M> =
    | Found(row: Row<M>, rawIndex: nat, offset: nat, yOffset: nat)
    | NotFound(remaining: int)

  datatype Option<T> = None | Some(value: T)

  datatype Coord = Coord(x: nat, y: nat)

  /** Result of getPositionOfLine. */
  datatype PositionResult =
    | Position(position: nat, yOffset: nat, pastEnd: bool)
    | PositionNotFound(remaining: int)

  function Min(a: int, b: int): int { if a <= b then a else b }

  // ---------------------------------------------------------------------------
  // Counting wrapped lines

  /** Wrapped lines one raw line occupies at `width`. */
  function LineRowCount<M>(line: RawLine<M>, width: int, mayHaveDwc: bool): nat
    requires width >= 1
  {
    FullLines(line.cells, width, mayHaveDwc) + 1
  }

  /** getNumLinesWithWrapWidth: the wrapped lines of all raw lines at `width`. */
  function TotalLines<M>(lines: seq<RawLine<M>>, width: int, mayHaveDwc: bool): (r: nat)
    requires width >= 1
    ensures r >= |lines|
  {
    if lines == [] then 0
    else TotalLines(lines[..|lines| - 1], width, mayHaveDwc) + LineRowCount(lines[|lines| - 1], width, mayHaveDwc)
  }

  /** All cells of the raw lines, in order. */
  function Flatten<M>(lines: seq<RawLine<M>>): seq<Cell> {
    if lines == [] then [] else Flatten(lines[..|lines| - 1]) + lines[|lines| - 1].cells
  }

  // ---------------------------------------------------------------------------
  // Rows

  /** The rows of one raw line; `endsPartial` holds for the block's partial last line. */
  function LineRows<M>(line: RawLine<M>, endsPartial: bool, width: int, mayHaveDwc: bool): seq<Row<M>>
    requires width >= 1
  {
    var segs := Segments(line.cells, width, mayHaveDwc);
    seq(|segs|, k requires 0 <= k < |segs| =>
      Row(segs[k],
          if k + 1 < |segs| then (if |segs[k]| == width then Soft else Dwc)
          else if endsPartial then Soft else Hard,
          k == 0, line.metadata, line.continuation))
  }

  /** Rows of the first i raw lines. */
  function RowsUpTo<M>(lines: seq<RawLine<M>>, i: nat, partial: bool, width: int, mayHaveDwc: bool): seq<Row<M>>
    requires width >= 1 && i <= |lines|
  {
    if i == 0 then []
    else RowsUpTo(lines, i - 1, partial, width, mayHaveDwc)
         + LineRows(lines[i - 1], partial && i == |lines|, width, mayHaveDwc)
  }

  /** Every wrapped line of the block, in order. */
  function Rows<M>(lines: seq<RawLine<M>>, partial: bool, width: int, mayHaveDwc: bool): seq<Row<M>>
    requires width >= 1
  {
    RowsUpTo(lines, |lines|, partial, width, mayHaveDwc)
  }

  /** The cells of a run of rows, in order. */
  function RowFlat<M>(rows: seq<Row<M>>): seq<Cell> {
    if rows == [] then [] else rows[0].cells + RowFlat(rows[1..])
  }

  /** Position of the first cell of row n. */
  function RowStart<M>(rows: seq<Row<M>>, n: nat): nat
    requires n <= |rows|
  {
    |RowFlat(rows[..n])|
  }

  /** Number of consecutive empty rows right before row n. */
  function EmptyRunBefore<M>(rows: seq<Row<M>>, n: nat): nat {
    if n == 0 || n > |rows| || rows[n - 1].cells != [] then 0 else 1 + EmptyRunBefore(rows, n - 1)
  }

  // ---------------------------------------------------------------------------
  // Lookup

  /**
   * getWrappedLineWithWrapWidth, scanning raw lines from `i` with `n` wrapped
   * lines still to skip and `run` empty raw lines seen just before.
   */
  function LookupFrom<M>(lines: seq<RawLine<M>>, partial: bool, width: int, mayHaveDwc: bool,
                         i: nat, n: nat, run: nat): (r: Wrapped<M>)
    requires width >= 1
    ensures r.Found? ==> r.rawIndex < |lines|
    decreases |lines| - i
  {
    if i >= |lines| then NotFound(n)
    else
      var spans := FullLines(lines[i].cells, width, mayHaveDwc);
      if n > spans then
        LookupFrom(lines, partial, width, mayHaveDwc, i + 1, n - spans - 1,
                   if lines[i].cells == [] then run + 1 else 0)
      else
        SegmentsConcat(lines[i].cells, width, mayHaveDwc);
        Found(LineRows(lines[i], partial && i == |lines| - 1, width, mayHaveDwc)[n], i,
              SegmentStart(lines[i].cells, n, width, mayHaveDwc),
              if n == 0 then run else 0)
  }

  function Lookup<M>(lines: seq<RawLine<M>>, partial: bool, width: int, mayHaveDwc: bool, n: nat): Wrapped<M>
    requires width >= 1
  {
    LookupFrom(lines, partial, width, mayHaveDwc, 0, n, 0)
  }

  // ---------------------------------------------------------------------------
  // Facts about counting and rows

  lemma {:induction false} TotalLinesAppend<M>(a: seq<RawLine<M>>, b: seq<RawLine<M>>, width: int, mayHaveDwc: bool)
    requires width >= 1
    ensures TotalLines(a + b, width, mayHaveDwc) == TotalLines(a, width, mayHaveDwc) + TotalLines(b, width, mayHaveDwc)
    decreases |b|
  {
    if b != [] {
      var b' := b[..|b| - 1];
      assert (a + b)[..|a + b| - 1] == a + b';
      TotalLinesAppend(a, b', width, mayHaveDwc);
    } else {
      assert a + b == a;
    }
  }

  lemma TotalLinesStep<M>(lines: seq<RawLine<M>>, i: nat, width: int, mayHaveDwc: bool)
    requires width >= 1 && i < |lines|
    ensures TotalLines(lines[..i + 1], width, mayHaveDwc)
            == TotalLines(lines[..i], width, mayHaveDwc) + LineRowCount(lines[i], width, mayHaveDwc)
    ensures TotalLines(lines[i..], width, mayHaveDwc)
            == LineRowCount(lines[i], width, mayHaveDwc) + TotalLines(lines[i + 1..], width, mayHaveDwc)
  {
    assert lines[..i + 1][..i] == lines[..i];
    assert lines[i..] == [lines[i]] + lines[i + 1..];
    TotalLinesAppend([lines[i]], lines[i + 1..], width, mayHaveDwc);
    assert [lines[i]][..0] == [];
  }

  /** The rows of one raw line: one per segment, empty exactly when the raw line is. */
  lemma LineRowsFacts<M>(line: RawLine<M>, endsPartial: bool, width: int, mayHaveDwc: bool)
    requires width >= 1
    ensures |LineRows(line, endsPartial, width, mayHaveDwc)| == LineRowCount(line, width, mayHaveDwc)
    ensures forall k :: 0 <= k < |LineRows(line, endsPartial, width, mayHaveDwc)| ==>
              (LineRows(line, endsPartial, width, mayHaveDwc)[k].cells == [] <==> line.cells == [])
  {
    var c := line.cells;
    SegmentsConcat(c, width, mayHaveDwc);
    var rows := LineRows(line, endsPartial, width, mayHaveDwc);
    forall k | 0 <= k < |rows|
      ensures rows[k].cells == [] <==> c == []
    {
      SegmentAt(c, k, width, mayHaveDwc);
      var n := FullLines(c, width, mayHaveDwc);
      if k < n {
        StartFromMonotone(c, 0, k, k + 1, width, mayHaveDwc);
        StartFromBounds(c, 0, k + 1, width, mayHaveDwc);
      } else if k > 0 {
        StartFromBounds(c, 0, k, width, mayHaveDwc);
      }
    }
  }

  lemma {:induction false} RowsUpToLength<M>(lines: seq<RawLine<M>>, i: nat, partial: bool, width: int, mayHaveDwc: bool)
    requires width >= 1 && i <= |lines|
    ensures |RowsUpTo(lines, i, partial, width, mayHaveDwc)| == TotalLines(lines[..i], width, mayHaveDwc)
    decreases i
  {
    if i > 0 {
      RowsUpToLength(lines, i - 1, partial, width, mayHaveDwc);
      LineRowsFacts(lines[i - 1], partial && i == |lines|, width, mayHaveDwc);
      TotalLinesStep(lines, i - 1, width, mayHaveDwc);
    }
  }

  lemma {:induction false} RowsUpToPrefix<M>(lines: seq<RawLine<M>>, j: nat, k: nat, partial: bool, width: int, mayHaveDwc: bool)
    requires width >= 1 && j <= k <= |lines|
    ensures |RowsUpTo(lines, j, partial, width, mayHaveDwc)| <= |RowsUpTo(lines, k, partial, width, mayHaveDwc)|
    ensures RowsUpTo(lines, k, partial, width, mayHaveDwc)[..|RowsUpTo(lines, j, partial, width, mayHaveDwc)|]
            == RowsUpTo(lines, j, partial, width, mayHaveDwc)
    decreases k
  {
    if j < k {
      RowsUpToPrefix(lines, j, k - 1, partial, width, mayHaveDwc);
      var a := RowsUpTo(lines, j, partial, width, mayHaveDwc);
      var b := RowsUpTo(lines, k - 1, partial, width, mayHaveDwc);
      var c := LineRows(lines[k - 1], partial && k == |lines|, width, mayHaveDwc);
      assert (b + c)[..|a|] == b[..|a|];
    }
  }

  /** The rows of the first i raw lines depend only on those lines and on whether line i - 1 ends the block partially. */
  lemma {:induction false} RowsUpToSame<M>(a: seq<RawLine<M>>, b: seq<RawLine<M>>, i: nat, pa: bool, pb: bool,
                                           width: int, mayHaveDwc: bool)
    requires width >= 1 && i <= |a| && i <= |b| && a[..i] == b[..i]
    requires (pa && i == |a|) == (pb && i == |b|)
    ensures RowsUpTo(a, i, pa, width, mayHaveDwc) == RowsUpTo(b, i, pb, width, mayHaveDwc)
    decreases i
  {
    if i > 0 {
      assert a[..i - 1] == a[..i][..i - 1];
      assert b[..i - 1] == b[..i][..i - 1];
      assert a[i - 1] == a[..i][i - 1];
      assert b[i - 1] == b[..i][i - 1];
      RowsUpToSame(a, b, i - 1, pa, pb, width, mayHaveDwc);
    }
  }

  /** The block has as many rows as getNumLinesWithWrapWidth counts. */
  lemma RowsLength<M>(lines: seq<RawLine<M>>, partial: bool, width: int, mayHaveDwc: bool)
    requires width >= 1
    ensures |Rows(lines, partial, width, mayHaveDwc)| == TotalLines(lines, width, mayHaveDwc)
  {
    RowsUpToLength(lines, |lines|, partial, width, mayHaveDwc);
    assert lines[..|lines|] == lines;
  }

  /** Row T_i + m, for m within raw line i, is row m of that raw line. */
  lemma RowInLine<M>(lines: seq<RawLine<M>>, i: nat, m: nat, partial: bool, width: int, mayHaveDwc: bool)
    requires width >= 1 && i < |lines|
    requires m < LineRowCount(lines[i], width, mayHaveDwc)
    ensures TotalLines(lines[..i], width, mayHaveDwc) + m < |Rows(lines, partial, width, mayHaveDwc)|
    ensures |LineRows(lines[i], partial && i == |lines| - 1, width, mayHaveDwc)| == LineRowCount(lines[i], width, mayHaveDwc)
    ensures Rows(lines, partial, width, mayHaveDwc)[TotalLines(lines[..i], width, mayHaveDwc) + m]
            == LineRows(lines[i], partial && i == |lines| - 1, width, mayHaveDwc)[m]
  {
    var t := TotalLines(lines[..i], width, mayHaveDwc);
    RowsUpToPrefix(lines, i + 1, |lines|, partial, width, mayHaveDwc);
    RowsUpToLength(lines, i, partial, width, mayHaveDwc);
    RowsUpToLength(lines, i + 1, partial, width, mayHaveDwc);
    TotalLinesStep(lines, i, width, mayHaveDwc);
    LineRowsFacts(lines[i], partial && i == |lines| - 1, width, mayHaveDwc);
    var all := Rows(lines, partial, width, mayHaveDwc);
    var before := RowsUpTo(lines, i, partial, width, mayHaveDwc);
    var own := LineRows(lines[i], partial && i == |lines| - 1, width, mayHaveDwc);
    var upto := RowsUpTo(lines, i + 1, partial, width, mayHaveDwc);
    assert upto == before + own;
    assert upto[t + m] == own[m];
    assert all[t + m] == upto[t + m];
  }

  // ---------------------------------------------------------------------------
  // The lookup protocol

  /** After raw line i, the run of empty rows is one longer if that line is empty, else zero. */
  lemma EmptyRunAfterLine<M>(lines: seq<RawLine<M>>, i: nat, partial: bool, width: int, mayHaveDwc: bool)
    requires width >= 1 && i < |lines|
    ensures var rows := Rows(lines, partial, width, mayHaveDwc);
            var t := TotalLines(lines[..i], width, mayHaveDwc);
            && t + LineRowCount(lines[i], width, mayHaveDwc) <= |rows|
            && TotalLines(lines[..i + 1], width, mayHaveDwc) == t + LineRowCount(lines[i], width, mayHaveDwc)
            && EmptyRunBefore(rows, t + LineRowCount(lines[i], width, mayHaveDwc))
               == if lines[i].cells == [] then EmptyRunBefore(rows, t) + 1 else 0
  {
    var rows := Rows(lines, partial, width, mayHaveDwc);
    var t := TotalLines(lines[..i], width, mayHaveDwc);
    var spans := FullLines(lines[i].cells, width, mayHaveDwc);
    var own := LineRows(lines[i], partial && i == |lines| - 1, width, mayHaveDwc);
    TotalLinesStep(lines, i, width, mayHaveDwc);
    LineRowsFacts(lines[i], partial && i == |lines| - 1, width, mayHaveDwc);
    RowInLine(lines, i, spans, partial, width, mayHaveDwc);
    assert rows[t + spans] == own[spans];
    if lines[i].cells == [] {
      assert spans == 0;
    }
  }

  /** When raw line i holds the wanted row, the lookup reports it. */
  lemma LookupHit<M>(lines: seq<RawLine<M>>, partial: bool, width: int, mayHaveDwc: bool, i: nat, m: nat, run: nat)
    requires width >= 1 && i < |lines|
    requires m <= FullLines(lines[i].cells, width, mayHaveDwc)
    requires run == EmptyRunBefore(Rows(lines, partial, width, mayHaveDwc), TotalLines(lines[..i], width, mayHaveDwc))
    ensures var r := LookupFrom(lines, partial, width, mayHaveDwc, i, m, run);
            var n := TotalLines(lines[..i], width, mayHaveDwc) + m;
            && r.Found?
            && n < |Rows(lines, partial, width, mayHaveDwc)|
            && r.row == Rows(lines, partial, width, mayHaveDwc)[n]
            && r.yOffset == EmptyRunBefore(Rows(lines, partial, width, mayHaveDwc), n)
  {
    var rows := Rows(lines, partial, width, mayHaveDwc);
    var t := TotalLines(lines[..i], width, mayHaveDwc);
    var own := LineRows(lines[i], partial && i == |lines| - 1, width, mayHaveDwc);
    LookupAnswer(lines, partial, width, mayHaveDwc, i, m, run);
    LineRowsFacts(lines[i], partial && i == |lines| - 1, width, mayHaveDwc);
    RowInLine(lines, i, m, partial, width, mayHaveDwc);
    if m > 0 {
      RowInLine(lines, i, m - 1, partial, width, mayHaveDwc);
      assert rows[t + m - 1] == own[m - 1];
      assert lines[i].cells != [];
    }
  }

  /** What a lookup must report, given the rows before and from the scan position. */
  ghost predicate LookupMeets<M>(rows: seq<Row<M>>, before: nat, after: nat, m: nat, r: Wrapped<M>) {
    && (r.NotFound? <==> m >= after)
    && (r.NotFound? ==> r.remaining == m - after)
    && (r.Found? ==> before + m < |rows| && r.row == rows[before + m] && r.yOffset == EmptyRunBefore(rows, before + m))
  }

  lemma {:induction false} LookupFromSpec<M>(lines: seq<RawLine<M>>, partial: bool, width: int, mayHaveDwc: bool,
                                             i: nat, m: nat, run: nat)
    requires width >= 1 && i <= |lines|
    requires run == EmptyRunBefore(Rows(lines, partial, width, mayHaveDwc), TotalLines(lines[..i], width, mayHaveDwc))
    ensures LookupMeets(Rows(lines, partial, width, mayHaveDwc), TotalLines(lines[..i], width, mayHaveDwc),
                        TotalLines(lines[i..], width, mayHaveDwc), m,
                        LookupFrom(lines, partial, width, mayHaveDwc, i, m, run))
    decreases |lines| - i
  {
    if i == |lines| {
      assert lines[i..] == [];
    } else {
      var spans := FullLines(lines[i].cells, width, mayHaveDwc);
      if m > spans {
        NextRun(lines, i, partial, width, mayHaveDwc, run);
        var run' := if lines[i].cells == [] then run + 1 else 0;
        LookupFromSpec(lines, partial, width, mayHaveDwc, i + 1, m - spans - 1, run');
        LookupSkipMeets(lines, partial, width, mayHaveDwc, i, m, run);
      } else {
        LookupHitMeets(lines, partial, width, mayHaveDwc, i, m, run);
      }
    }
  }

  /** The run of empty rows before raw line i + 1, from the one before raw line i. */
  lemma NextRun<M>(lines: seq<RawLine<M>>, i: nat, partial: bool, width: int, mayHaveDwc: bool, run: nat)
    requires width >= 1 && i < |lines|
    requires run == EmptyRunBefore(Rows(lines, partial, width, mayHaveDwc), TotalLines(lines[..i], width, mayHaveDwc))
    ensures (if lines[i].cells == [] then run + 1 else 0)
            == EmptyRunBefore(Rows(lines, partial, width, mayHaveDwc), TotalLines(lines[..i + 1], width, mayHaveDwc))
  {
    EmptyRunAfterLine(lines, i, partial, width, mayHaveDwc);
  }

  /** A lookup that skips raw line i meets its promise when the lookup from line i + 1 does. */
  lemma LookupSkipMeets<M>(lines: seq<RawLine<M>>, partial: bool, width: int, mayHaveDwc: bool, i: nat, m: nat, run: nat)
    requires width >= 1 && i < |lines| && m > FullLines(lines[i].cells, width, mayHaveDwc)
    requires var rows := Rows(lines, partial, width, mayHaveDwc);
             var spans := FullLines(lines[i].cells, width, mayHaveDwc);
             LookupMeets(rows, TotalLines(lines[..i + 1], width, mayHaveDwc), TotalLines(lines[i + 1..], width, mayHaveDwc),
                         m - spans - 1,
                         LookupFrom(lines, partial, width, mayHaveDwc, i + 1, m - spans - 1,
                                    if lines[i].cells == [] then run + 1 else 0))
    ensures LookupMeets(Rows(lines, partial, width, mayHaveDwc), TotalLines(lines[..i], width, mayHaveDwc),
                        TotalLines(lines[i..], width, mayHaveDwc), m,
                        LookupFrom(lines, partial, width, mayHaveDwc, i, m, run))
  {
    TotalLinesStep(lines, i, width, mayHaveDwc);
    LookupSkip(lines, partial, width, mayHaveDwc, i, m, run);
  }

  /** A lookup that stops at raw line i meets its promise. */
  lemma LookupHitMeets<M>(lines: seq<RawLine<M>>, partial: bool, width: int, mayHaveDwc: bool, i: nat, m: nat, run: nat)
    requires width >= 1 && i < |lines| && m <= FullLines(lines[i].cells, width, mayHaveDwc)
    requires run == EmptyRunBefore(Rows(lines, partial, width, mayHaveDwc), TotalLines(lines[..i], width, mayHaveDwc))
    ensures LookupMeets(Rows(lines, partial, width, mayHaveDwc), TotalLines(lines[..i], width, mayHaveDwc),
                        TotalLines(lines[i..], width, mayHaveDwc), m,
                        LookupFrom(lines, partial, width, mayHaveDwc, i, m, run))
  {
    TotalLinesStep(lines, i, width, mayHaveDwc);
    LookupHit(lines, partial, width, mayHaveDwc, i, m, run);
  }

  /**
   * The decrement-and-continue contract: a lookup of wrapped line n finds row n
   * of the block when n is below the block's wrapped-line count, and otherwise
   * reports "not found" with n decreased by exactly that count. yOffset is the
   * number of empty rows right before the one found.
   */
  lemma LookupProtocol<M>(lines: seq<RawLine<M>>, partial: bool, width: int, mayHaveDwc: bool, n: nat)
    requires width >= 1
    ensures var r := Lookup(lines, partial, width, mayHaveDwc, n);
            && (r.NotFound? <==> n >= TotalLines(lines, width, mayHaveDwc))
            && (r.NotFound? ==> r.remaining == n - TotalLines(lines, width, mayHaveDwc))
            && (r.Found? ==>
                  && n < |Rows(lines, partial, width, mayHaveDwc)|
                  && r.row == Rows(lines, partial, width, mayHaveDwc)[n]
                  && r.yOffset == EmptyRunBefore(Rows(lines, partial, width, mayHaveDwc), n))
  {
    assert lines[..0] == [];
    assert lines[0..] == lines;
    LookupFromSpec(lines, partial, width, mayHaveDwc, 0, n, 0);
  }

  // ---------------------------------------------------------------------------
  // Re-wrap round trip

  lemma {:induction false} RowFlatAppend<M>(a: seq<Row<M>>, b: seq<Row<M>>)
    ensures RowFlat(a + b) == RowFlat(a) + RowFlat(b)
    decreases |a|
  {
    if a != [] {
      assert (a + b)[1..] == a[1..] + b;
      RowFlatAppend(a[1..], b);
    } else {
      assert a + b == b;
    }
  }

  lemma {:induction false} RowFlatSegments<M>(rows: seq<Row<M>>, segs: seq<seq<Cell>>)
    requires |rows| == |segs|
    requires forall k :: 0 <= k < |rows| ==> rows[k].cells == segs[k]
    ensures RowFlat(rows) == Concat(segs)
    decreases |rows|
  {
    if rows != [] {
      RowFlatSegments(rows[1..], segs[1..]);
    }
  }

  lemma LineRowsFlat<M>(line: RawLine<M>, endsPartial: bool, width: int, mayHaveDwc: bool)
    requires width >= 1
    ensures RowFlat(LineRows(line, endsPartial, width, mayHaveDwc)) == line.cells
  {
    SegmentsConcat(line.cells, width, mayHaveDwc);
    RowFlatSegments(LineRows(line, endsPartial, width, mayHaveDwc), Segments(line.cells, width, mayHaveDwc));
  }

  lemma {:induction false} RowsUpToFlat<M>(lines: seq<RawLine<M>>, i: nat, partial: bool, width: int, mayHaveDwc: bool)
    requires width >= 1 && i <= |lines|
    ensures RowFlat(RowsUpTo(lines, i, partial, width, mayHaveDwc)) == Flatten(lines[..i])
    decreases i
  {
    if i > 0 {
      RowsUpToFlat(lines, i - 1, partial, width, mayHaveDwc);
      var line := lines[i - 1];
      RowFlatAppend(RowsUpTo(lines, i - 1, partial, width, mayHaveDwc), LineRows(line, partial && i == |lines|, width, mayHaveDwc));
      LineRowsFlat(line, partial && i == |lines|, width, mayHaveDwc);
      assert lines[..i][..i - 1] == lines[..i - 1];
    }
  }

  /**
   * Re-wrap round trip: reading the block's wrapped lines at any width, in
   * order, gives back exactly the cells that were stored.
   */
  lemma RowsFlatten<M>(lines: seq<RawLine<M>>, partial: bool, width: int, mayHaveDwc: bool)
    requires width >= 1
    ensures |Rows(lines, partial, width, mayHaveDwc)| == TotalLines(lines, width, mayHaveDwc)
    ensures RowFlat(Rows(lines, partial, width, mayHaveDwc)) == Flatten(lines)
  {
    RowsLength(lines, partial, width, mayHaveDwc);
    RowsUpToFlat(lines, |lines|, partial, width, mayHaveDwc);
    assert lines[..|lines|] == lines;
  }

  // ---------------------------------------------------------------------------
  // Positions and coordinates

  /** convertPosition, scanning rows from j, whose first cell is at `base`. */
  function ConvertFrom<M>(rows: seq<Row<M>>, j: nat, base: nat, p: int, wrapOnEOL: bool): Option<Coord>
    decreases |rows| - j
  {
    if j >= |rows| then
      if wrapOnEOL && p == base then Some(Coord(0, j)) else None
    else
      var len := |rows[j].cells|;
      if base <= p && (p < base + len || (!wrapOnEOL && p == base + len)) then Some(Coord(p - base, j))
      else ConvertFrom(rows, j + 1, base + len, p, wrapOnEOL)
  }

  /**
   * convertPosition: the (x, y) of the cell at position p when the block is
   * wrapped to `width`. A position just after the last cell of a row belongs
   * to that row when wrapOnEOL is false and to the next row when it is true.
   */
  function ConvertPosition<M>(lines: seq<RawLine<M>>, partial: bool, width: int, mayHaveDwc: bool,
                              p: int, wrapOnEOL: bool): (r: Option<Coord>)
    requires width >= 1
    ensures r.Some? ==> r.value.y <= TotalLines(lines, width, mayHaveDwc) && 0 <= p <= |Flatten(lines)|
  {
    var rows := Rows(lines, partial, width, mayHaveDwc);
    RowsFlatten(lines, partial, width, mayHaveDwc);
    assert rows[..0] == [] && rows[..|rows|] == rows;
    ConvertFromSound(rows, 0, p, wrapOnEOL);
    var c := ConvertFrom(rows, 0, 0, p, wrapOnEOL);
    if c.Some? && c.value.y < |rows| then
      RowStartWithin(rows, c.value.y);
      c
    else
      c
  }

  /**
   * getPositionOfLine: the position of the cell at column x of wrapped line n,
   * clamped to the end of that line's content (then `pastEnd` is set); when
   * the block has fewer wrapped lines, the line number left for the next block.
   */
  function PositionOfLine<M>(lines: seq<RawLine<M>>, partial: bool, width: int, mayHaveDwc: bool,
                             n: nat, x: nat): (r: PositionResult)
    requires width >= 1
    ensures r.PositionNotFound? <==> n >= TotalLines(lines, width, mayHaveDwc)
    ensures r.PositionNotFound? ==> r.remaining == n - TotalLines(lines, width, mayHaveDwc)
    ensures r.Position? ==> r.position <= |Flatten(lines)|
  {
    LookupProtocol(lines, partial, width, mayHaveDwc, n);
    match Lookup(lines, partial, width, mayHaveDwc, n)
    case NotFound(m) => PositionNotFound(m)
    case Found(row, _, _, y) =>
      RowsFlatten(lines, partial, width, mayHaveDwc);
      RowStartWithin(Rows(lines, partial, width, mayHaveDwc), n);
      Position(RowStart(Rows(lines, partial, width, mayHaveDwc), n) + Min(x, |row.cells|), y, x >= |row.cells|)
  }

  lemma RowStartStep<M>(rows: seq<Row<M>>, j: nat)
    requires j < |rows|
    ensures RowStart(rows, j + 1) == RowStart(rows, j) + |rows[j].cells|
  {
    assert rows[..j + 1] == rows[..j] + [rows[j]];
    RowFlatAppend(rows[..j], [rows[j]]);
  }

  lemma {:induction false} RowStartMonotone<M>(rows: seq<Row<M>>, j: nat, k: nat)
    requires j <= k <= |rows|
    ensures RowStart(rows, j) <= RowStart(rows, k)
    decreases k - j
  {
    if j < k {
      RowStartStep(rows, j);
      RowStartMonotone(rows, j + 1, k);
    }
  }

  /** A row's cells end no later than the cells of all rows. */
  lemma RowStartWithin<M>(rows: seq<Row<M>>, n: nat)
    requires n < |rows|
    ensures RowStart(rows, n) + |rows[n].cells| <= |RowFlat(rows)|
  {
    RowStartStep(rows, n);
    RowStartMonotone(rows, n + 1, |rows|);
    assert rows[..|rows|] == rows;
  }

  lemma {:induction false} ConvertFromRow<M>(rows: seq<Row<M>>, j: nat, n: nat, x: nat, wrapOnEOL: bool)
    requires j <= n < |rows| && x < |rows[n].cells| && (wrapOnEOL || x > 0)
    ensures ConvertFrom(rows, j, RowStart(rows, j), RowStart(rows, n) + x, wrapOnEOL) == Some(Coord(x, n))
    decreases n - j
  {
    if j < n {
      RowStartStep(rows, j);
      RowStartMonotone(rows, j + 1, n);
      ConvertFromRow(rows, j + 1, n, x, wrapOnEOL);
    }
  }

  lemma {:induction false} ConvertFromSound<M>(rows: seq<Row<M>>, j: nat, p: int, wrapOnEOL: bool)
    requires j <= |rows|
    ensures var r := ConvertFrom(rows, j, RowStart(rows, j), p, wrapOnEOL);
            r.Some? ==> && j <= r.value.y <= |rows|
                        && (r.value.y < |rows| ==>
                              && r.value.x <= |rows[r.value.y].cells|
                              && p == RowStart(rows, r.value.y) + r.value.x)
                        && (r.value.y == |rows| ==> wrapOnEOL && r.value.x == 0 && p == RowStart(rows, |rows|))
    decreases |rows| - j
  {
    if j < |rows| {
      RowStartStep(rows, j);
      ConvertFromSound(rows, j + 1, p, wrapOnEOL);
    }
  }

  /**
   * getPositionOfLine followed by convertPosition gives back the coordinate,
   * for every cell of every wrapped line (a cell at x = 0 needs wrapOnEOL,
   * since its position is also the end of the previous row).
   */
  lemma ConvertAfterPosition<M>(lines: seq<RawLine<M>>, partial: bool, width: int, mayHaveDwc: bool,
                                n: nat, x: nat, wrapOnEOL: bool)
    requires width >= 1
    requires n < |Rows(lines, partial, width, mayHaveDwc)|
    requires x < |Rows(lines, partial, width, mayHaveDwc)[n].cells|
    requires wrapOnEOL || x > 0
    ensures var r := PositionOfLine(lines, partial, width, mayHaveDwc, n, x);
            && r.Position? && !r.pastEnd
            && ConvertPosition(lines, partial, width, mayHaveDwc, r.position, wrapOnEOL) == Some(Coord(x, n))
  {
    RowsLength(lines, partial, width, mayHaveDwc);
    LookupProtocol(lines, partial, width, mayHaveDwc, n);
    var rows := Rows(lines, partial, width, mayHaveDwc);
    ConvertFromRow(rows, 0, n, x, wrapOnEOL);
    assert rows[..0] == [];
  }

  /**
   * convertPosition followed by getPositionOfLine gives back the position,
   * for every position that converts to a wrapped line of the block.
   */
  lemma PositionAfterConvert<M>(lines: seq<RawLine<M>>, partial: bool, width: int, mayHaveDwc: bool,
                                p: int, wrapOnEOL: bool)
    requires width >= 1
    requires ConvertPosition(lines, partial, width, mayHaveDwc, p, wrapOnEOL).Some?
    ensures var c := ConvertPosition(lines, partial, width, mayHaveDwc, p, wrapOnEOL).value;
            && c.y <= TotalLines(lines, width, mayHaveDwc)
            && (c.y < TotalLines(lines, width, mayHaveDwc) ==>
                  PositionOfLine(lines, partial, width, mayHaveDwc, c.y, c.x).Position?
                  && PositionOfLine(lines, partial, width, mayHaveDwc, c.y, c.x).position == p)
            && (c.y == TotalLines(lines, width, mayHaveDwc) ==> wrapOnEOL && c.x == 0 && p == |Flatten(lines)|)
  {
    var rows := Rows(lines, partial, width, mayHaveDwc);
    assert rows[..0] == [];
    ConvertFromSound(rows, 0, p, wrapOnEOL);
    RowsFlatten(lines, partial, width, mayHaveDwc);
    assert rows[..|rows|] == rows;
    var c := ConvertPosition(lines, partial, width, mayHaveDwc, p, wrapOnEOL).value;
    if c.y < |rows| {
      LookupProtocol(lines, partial, width, mayHaveDwc, c.y);
    }
  }

  // ---------------------------------------------------------------------------
  // Raw-line queries

  /** The raw line holding the cell at `offset`. */
  function RawLineContaining<M>(lines: seq<RawLine<M>>, offset: nat): (i: nat)
    requires offset < |Flatten(lines)|
    ensures i < |lines|
    ensures |Flatten(lines[..i])| <= offset < |Flatten(lines[..i])| + |lines[i].cells|
  {
    var k := |lines| - 1;
    assert lines[..k + 1] == lines;
    if offset >= |Flatten(lines[..k])| then k
    else
      var i := RawLineContaining(lines[..k], offset);
      assert lines[..k][..i] == lines[..i];
      i
  }

  /** offsetOfStartOfLineIncludingOffset: where the raw line holding the cell at `offset` starts. */
  function OffsetOfStartOfLine<M>(lines: seq<RawLine<M>>, offset: nat): (r: nat)
    requires offset < |Flatten(lines)|
    ensures r <= offset
    ensures exists i :: 0 <= i < |lines| && r == |Flatten(lines[..i])| && offset < r + |lines[i].cells|
  {
    |Flatten(lines[..RawLineContaining(lines, offset)])|
  }

  /** numberOfLeadingEmptyLines: how many raw lines at the start are empty. */
  function LeadingEmptyLines<M>(lines: seq<RawLine<M>>): (r: nat)
    ensures r <= |lines|
    ensures forall k :: 0 <= k < r ==> lines[k].cells == []
    ensures r < |lines| ==> lines[r].cells != []
  {
    if lines == [] || lines[0].cells != [] then 0 else 1 + LeadingEmptyLines(lines[1..])
  }

  /** numberOfTrailingEmptyLines: how many raw lines at the end are empty. */
  function TrailingEmptyLines<M>(lines: seq<RawLine<M>>): (r: nat)
    ensures r <= |lines|
    ensures forall k :: |lines| - r <= k < |lines| ==> lines[k].cells == []
    ensures r < |lines| ==> lines[|lines| - 1 - r].cells != []
  {
    if lines == [] || lines[|lines| - 1].cells != [] then 0 else 1 + TrailingEmptyLines(lines[..|lines| - 1])
  }

  /** allLinesAreEmpty: no raw line holds a cell (true when there are no lines). */
  function AllLinesEmpty<M>(lines: seq<RawLine<M>>): (r: bool)
    ensures r <==> forall k :: 0 <= k < |lines| ==> lines[k].cells == []
  {
    if lines == [] then true
    else
      var init := lines[..|lines| - 1];
      assert forall k :: 0 <= k < |init| ==> init[k] == lines[k];
      lines[|lines| - 1].cells == [] && AllLinesEmpty(init)
  }

  /** The block's lines are all empty exactly when they hold no cell at all. */
  lemma {:induction false} AllLinesEmptyFlatten<M>(lines: seq<RawLine<M>>)
    ensures AllLinesEmpty(lines) <==> Flatten(lines) == []
    decreases |lines|
  {
    if lines != [] {
      AllLinesEmptyFlatten(lines[..|lines| - 1]);
    }
  }

  // ---------------------------------------------------------------------------
  // Content changes

  lemma {:induction false} FlattenAppend<M>(a: seq<RawLine<M>>, b: seq<RawLine<M>>)
    ensures Flatten(a + b) == Flatten(a) + Flatten(b)
    decreases |b|
  {
    if b == [] {
      assert a + b == a;
    } else {
      var b' := b[..|b| - 1];
      assert (a + b)[..|a + b| - 1] == a + b';
      FlattenAppend(a, b');
    }
  }

  /**
   * appendLine on success: the cells continue the last raw line when the
   * block ends with a partial line, and start a new raw line otherwise. The
   * line takes the new metadata and continuation cell.
   */
  function AppendLine<M>(lines: seq<RawLine<M>>, partial: bool, cells: seq<Cell>, metadata: M, continuation: Cell)
    : (r: seq<RawLine<M>>)
    ensures |r| == if partial && lines != [] then |lines| else |lines| + 1
    ensures r[..|r| - 1] == lines[..|r| - 1]
    ensures r[|r| - 1].cells == (if partial && lines != [] then lines[|lines| - 1].cells else []) + cells
    ensures r[|r| - 1].metadata == metadata && r[|r| - 1].continuation == continuation
  {
    if partial && lines != [] then
      var last := lines[|lines| - 1];
      var r := lines[..|lines| - 1] + [RawLine(last.cells + cells, metadata, continuation)];
      assert r[..|r| - 1] == lines[..|lines| - 1];
      assert lines == lines[..|lines| - 1] + [last];
      r
    else
      var r := lines + [RawLine(cells, metadata, continuation)];
      assert r[..|r| - 1] == lines;
      r
  }

  /** appendLine adds exactly the appended cells to the end of the block's content. */
  lemma AppendLineFlatten<M>(lines: seq<RawLine<M>>, partial: bool, cells: seq<Cell>, metadata: M, continuation: Cell)
    ensures Flatten(AppendLine(lines, partial, cells, metadata, continuation)) == Flatten(lines) + cells
  {
    var r := AppendLine(lines, partial, cells, metadata, continuation);
    if partial && lines != [] {
      var k := |lines| - 1;
      assert r[..|r| - 1] == lines[..k];
      assert Flatten(r) == Flatten(lines[..k]) + (lines[k].cells + cells);
    } else {
      assert r[..|r| - 1] == lines;
    }
  }

  /** Appending a line that starts a new raw line adds its wrapped lines and keeps every earlier row. */
  lemma AppendNewLineRows<M>(lines: seq<RawLine<M>>, cells: seq<Cell>, metadata: M, continuation: Cell,
                             partial: bool, width: int, mayHaveDwc: bool)
    requires width >= 1
    ensures var r := AppendLine(lines, false, cells, metadata, continuation);
            |Rows(r, partial, width, mayHaveDwc)| == TotalLines(r, width, mayHaveDwc)
    ensures var r := AppendLine(lines, false, cells, metadata, continuation);
            && TotalLines(r, width, mayHaveDwc)
               == TotalLines(lines, width, mayHaveDwc) + FullLines(cells, width, mayHaveDwc) + 1
            && Rows(r, partial, width, mayHaveDwc)[..TotalLines(lines, width, mayHaveDwc)]
               == Rows(lines, false, width, mayHaveDwc)
  {
    var r := AppendLine(lines, false, cells, metadata, continuation);
    RowsLength(r, partial, width, mayHaveDwc);
    assert r[..|lines|] == lines;
    assert lines[..|lines|] == lines;
    RowsUpToPrefix(r, |lines|, |r|, partial, width, mayHaveDwc);
    RowsUpToLength(r, |lines|, partial, width, mayHaveDwc);
    RowsUpToSame(r, lines, |lines|, partial, false, width, mayHaveDwc);
  }

  /** Result of dropLines: the remaining lines, the wrapped lines dropped and the cells dropped. */
  datatype Dropped<M> = Dropped(lines: seq<RawLine<M>>, count: nat, chars: nat)

  /**
   * dropLines: drop n wrapped lines from the head. Raw lines that fit in
   * what is left to drop go entirely; the first one that does not loses only
   * its first wrapped lines, so that exactly min(n, total) wrapped lines go.
   */
  function DropLines<M>(lines: seq<RawLine<M>>, n: nat, width: int, mayHaveDwc: bool): (r: Dropped<M>)
    requires width >= 1
    ensures r.count <= n && |r.lines| <= |lines|
    decreases |lines|
  {
    if lines == [] then Dropped([], 0, 0)
    else
      var first := lines[0];
      var spans := FullLines(first.cells, width, mayHaveDwc);
      if n > spans then
        var rest := DropLines(lines[1..], n - spans - 1, width, mayHaveDwc);
        Dropped(rest.lines, rest.count + spans + 1, rest.chars + |first.cells|)
      else
        DropSegments(first.cells, n, width, mayHaveDwc);
        var off := SegmentStart(first.cells, n, width, mayHaveDwc);
        Dropped([first.(cells := first.cells[off..])] + lines[1..], n, off)
  }

  /** The count and the cells of a block split at its first raw line. */
  lemma FrontSplit<M>(first: RawLine<M>, rest: seq<RawLine<M>>, width: int, mayHaveDwc: bool)
    requires width >= 1
    ensures TotalLines([first] + rest, width, mayHaveDwc) == LineRowCount(first, width, mayHaveDwc) + TotalLines(rest, width, mayHaveDwc)
    ensures Flatten([first] + rest) == first.cells + Flatten(rest)
  {
    TotalLinesAppend([first], rest, width, mayHaveDwc);
    FlattenAppend([first], rest);
    assert [first][..0] == [];
    assert Flatten([first]) == first.cells;
  }

  /** dropLines on a raw line whose wrapped lines all fall within the count: it goes whole. */
  lemma DropLinesWhole<M>(lines: seq<RawLine<M>>, n: nat, width: int, mayHaveDwc: bool)
    requires width >= 1 && lines != [] && n > FullLines(lines[0].cells, width, mayHaveDwc)
    ensures var spans := FullLines(lines[0].cells, width, mayHaveDwc);
            var rest := DropLines(lines[1..], n - spans - 1, width, mayHaveDwc);
            DropLines(lines, n, width, mayHaveDwc) == Dropped(rest.lines, rest.count + spans + 1, rest.chars + |lines[0].cells|)
  {
  }

  /** DropLinesWhole for the lines from i on. */
  lemma DropLinesWholeAt<M>(lines: seq<RawLine<M>>, i: nat, n: nat, width: int, mayHaveDwc: bool)
    requires width >= 1 && i < |lines| && n > FullLines(lines[i].cells, width, mayHaveDwc)
    ensures var spans := FullLines(lines[i].cells, width, mayHaveDwc);
            var rest := DropLines(lines[i + 1..], n - spans - 1, width, mayHaveDwc);
            DropLines(lines[i..], n, width, mayHaveDwc) == Dropped(rest.lines, rest.count + spans + 1, rest.chars + |lines[i].cells|)
  {
    DropLinesWhole(lines[i..], n, width, mayHaveDwc);
    assert lines[i..][1..] == lines[i + 1..];
  }

  /** dropLines on a raw line with more wrapped lines than the count: it loses its first n wrapped lines. */
  lemma DropLinesPart<M>(lines: seq<RawLine<M>>, n: nat, width: int, mayHaveDwc: bool)
    requires width >= 1 && lines != [] && n <= FullLines(lines[0].cells, width, mayHaveDwc)
    ensures var off := SegmentStart(lines[0].cells, n, width, mayHaveDwc);
            && off <= |lines[0].cells|
            && DropLines(lines, n, width, mayHaveDwc) == Dropped([lines[0].(cells := lines[0].cells[off..])] + lines[1..], n, off)
  {
    DropSegments(lines[0].cells, n, width, mayHaveDwc);
  }

  /** The facts dropLines promises about its result. */
  ghost predicate DropMeets<M>(lines: seq<RawLine<M>>, n: nat, width: int, mayHaveDwc: bool, r: Dropped<M>)
    requires width >= 1
  {
    && r.count == Min(n, TotalLines(lines, width, mayHaveDwc))
    && TotalLines(r.lines, width, mayHaveDwc) == TotalLines(lines, width, mayHaveDwc) - r.count
    && r.chars <= |Flatten(lines)|
    && Flatten(r.lines) == Flatten(lines)[r.chars..]
    && (r.lines == [] <==> n >= TotalLines(lines, width, mayHaveDwc))
  }

  /** The first n wrapped lines cut from the first raw line meet dropLines' promises. */
  lemma DropPartMeets<M>(lines: seq<RawLine<M>>, n: nat, width: int, mayHaveDwc: bool)
    requires width >= 1 && lines != [] && n <= FullLines(lines[0].cells, width, mayHaveDwc)
    ensures var off := SegmentStart(lines[0].cells, n, width, mayHaveDwc);
            && off <= |lines[0].cells|
            && DropMeets(lines, n, width, mayHaveDwc, Dropped([lines[0].(cells := lines[0].cells[off..])] + lines[1..], n, off))
  {
    var first, rest := lines[0], lines[1..];
    assert lines == [first] + rest;
    FrontSplit(first, rest, width, mayHaveDwc);
    DropSegments(first.cells, n, width, mayHaveDwc);
    var off := SegmentStart(first.cells, n, width, mayHaveDwc);
    FrontSplit(first.(cells := first.cells[off..]), rest, width, mayHaveDwc);
    assert first.cells == first.cells[..off] + first.cells[off..];
  }

  lemma MeetsSame<M>(lines: seq<RawLine<M>>, n: nat, width: int, mayHaveDwc: bool, r: Dropped<M>, r': Dropped<M>)
    requires width >= 1 && r == r' && DropMeets(lines, n, width, mayHaveDwc, r)
    ensures DropMeets(lines, n, width, mayHaveDwc, r')
  {
  }

  /** A whole first line dropped ahead of a drop from the rest meets dropLines' promises. */
  lemma DropWholeMeets<M>(lines: seq<RawLine<M>>, n: nat, width: int, mayHaveDwc: bool, d: Dropped<M>)
    requires width >= 1 && lines != [] && n > FullLines(lines[0].cells, width, mayHaveDwc)
    requires DropMeets(lines[1..], n - FullLines(lines[0].cells, width, mayHaveDwc) - 1, width, mayHaveDwc, d)
    ensures var spans := FullLines(lines[0].cells, width, mayHaveDwc);
            DropMeets(lines, n, width, mayHaveDwc, Dropped(d.lines, d.count + spans + 1, d.chars + |lines[0].cells|))
  {
    var first, rest := lines[0], lines[1..];
    assert lines == [first] + rest;
    FrontSplit(first, rest, width, mayHaveDwc);
    assert (first.cells + Flatten(rest))[|first.cells| + d.chars..] == Flatten(rest)[d.chars..];
  }

  lemma DropWholeStep<M>(lines: seq<RawLine<M>>, n: nat, width: int, mayHaveDwc: bool)
    requires width >= 1 && lines != [] && n > FullLines(lines[0].cells, width, mayHaveDwc)
    requires var m := n - FullLines(lines[0].cells, width, mayHaveDwc) - 1;
             DropMeets(lines[1..], m, width, mayHaveDwc, DropLines(lines[1..], m, width, mayHaveDwc))
    ensures DropMeets(lines, n, width, mayHaveDwc, DropLines(lines, n, width, mayHaveDwc))
  {
    var spans := FullLines(lines[0].cells, width, mayHaveDwc);
    var d := DropLines(lines[1..], n - spans - 1, width, mayHaveDwc);
    DropLinesWhole(lines, n, width, mayHaveDwc);
    DropWholeMeets(lines, n, width, mayHaveDwc, d);
    MeetsSame(lines, n, width, mayHaveDwc, Dropped(d.lines, d.count + spans + 1, d.chars + |lines[0].cells|), DropLines(lines, n, width, mayHaveDwc));
  }

  lemma DropPartStep<M>(lines: seq<RawLine<M>>, n: nat, width: int, mayHaveDwc: bool)
    requires width >= 1 && lines != [] && n <= FullLines(lines[0].cells, width, mayHaveDwc)
    ensures DropMeets(lines, n, width, mayHaveDwc, DropLines(lines, n, width, mayHaveDwc))
  {
    var off := SegmentStart(lines[0].cells, n, width, mayHaveDwc);
    DropLinesPart(lines, n, width, mayHaveDwc);
    DropPartMeets(lines, n, width, mayHaveDwc);
    MeetsSame(lines, n, width, mayHaveDwc, Dropped([lines[0].(cells := lines[0].cells[off..])] + lines[1..], n, off), DropLines(lines, n, width, mayHaveDwc));
  }

  /**
   * dropLines returns min(n, total wrapped lines); the wrapped-line count
   * falls by exactly that much, the cells dropped are a prefix of the
   * block's content, and the block is left empty exactly when n covers it.
   */
  lemma {:induction false} DropLinesCount<M>(lines: seq<RawLine<M>>, n: nat, width: int, mayHaveDwc: bool)
    requires width >= 1
    ensures DropMeets(lines, n, width, mayHaveDwc, DropLines(lines, n, width, mayHaveDwc))
    decreases |lines|
  {
    if lines != [] {
      var spans := FullLines(lines[0].cells, width, mayHaveDwc);
      if n > spans {
        DropLinesCount(lines[1..], n - spans - 1, width, mayHaveDwc);
        DropWholeStep(lines, n, width, mayHaveDwc);
      } else {
        DropPartStep(lines, n, width, mayHaveDwc);
      }
    }
  }

  /** What popLastLineInto hands back, and the block left behind. */
  datatype Popped<M> = Popped(cells: seq<Cell>, metadata: M, continuation: Cell,
                              lines: seq<RawLine<M>>, partial: bool)

  /**
   * popLastLineInto: nothing when the block is empty. Otherwise, a last raw
   * line longer than `width` loses its last wrapped line and the block ends
   * partial; a shorter one is removed whole and the block ends with a hard
   * newline.
   */
  function PopLast<M>(lines: seq<RawLine<M>>, width: int, mayHaveDwc: bool): (r: Option<Popped<M>>)
    requires width >= 1
    ensures r.None? <==> lines == []
    ensures r.Some? ==> |r.value.lines| == |lines| - (if r.value.partial then 0 else 1)
    ensures r.Some? ==> && r.value.metadata == lines[|lines| - 1].metadata
                        && r.value.continuation == lines[|lines| - 1].continuation
  {
    if lines == [] then None
    else
      var last := lines[|lines| - 1];
      if |last.cells| > width then
        var n := FullLines(last.cells, width, mayHaveDwc);
        DropSegments(last.cells, n, width, mayHaveDwc);
        var e := SegmentStart(last.cells, n, width, mayHaveDwc);
        Some(Popped(last.cells[e..], last.metadata, last.continuation,
                    lines[..|lines| - 1] + [last.(cells := last.cells[..e])], true))
      else
        Some(Popped(last.cells, last.metadata, last.continuation, lines[..|lines| - 1], false))
  }

  /** popLastLineInto on a last raw line longer than the width: its last wrapped line goes. */
  lemma PopLastCut<M>(lines: seq<RawLine<M>>, width: int, mayHaveDwc: bool)
    requires width >= 1 && lines != [] && |lines[|lines| - 1].cells| > width
    ensures var last := lines[|lines| - 1];
            var e := SegmentStart(last.cells, FullLines(last.cells, width, mayHaveDwc), width, mayHaveDwc);
            && e <= |last.cells|
            && PopLast(lines, width, mayHaveDwc)
               == Some(Popped(last.cells[e..], last.metadata, last.continuation,
                              lines[..|lines| - 1] + [last.(cells := last.cells[..e])], true))
  {
    var last := lines[|lines| - 1];
    DropSegments(last.cells, FullLines(last.cells, width, mayHaveDwc), width, mayHaveDwc);
  }

  /** popLastLineInto on a last raw line that fits the width: the whole raw line goes. */
  lemma PopLastWhole<M>(lines: seq<RawLine<M>>, width: int, mayHaveDwc: bool)
    requires width >= 1 && lines != [] && |lines[|lines| - 1].cells| <= width
    ensures var last := lines[|lines| - 1];
            PopLast(lines, width, mayHaveDwc)
            == Some(Popped(last.cells, last.metadata, last.continuation, lines[..|lines| - 1], false))
  {
  }

  /** The block's last wrapped line is the last wrapped line of its last raw line. */
  lemma LastRow<M>(lines: seq<RawLine<M>>, partial: bool, width: int, mayHaveDwc: bool)
    requires width >= 1 && lines != []
    ensures |Rows(lines, partial, width, mayHaveDwc)| == TotalLines(lines, width, mayHaveDwc) >= 1
    ensures var last := lines[|lines| - 1];
            var n := FullLines(last.cells, width, mayHaveDwc);
            && |LineRows(last, partial, width, mayHaveDwc)| == n + 1
            && Rows(lines, partial, width, mayHaveDwc)[TotalLines(lines, width, mayHaveDwc) - 1]
               == LineRows(last, partial, width, mayHaveDwc)[n]
  {
    var k := |lines| - 1;
    RowsLength(lines, partial, width, mayHaveDwc);
    assert lines[..k + 1] == lines;
    RowsUpToLength(lines, k, partial, width, mayHaveDwc);
    LineRowsFacts(lines[k], partial, width, mayHaveDwc);
  }

  /**
   * popLastLineInto fails exactly on an empty block; otherwise it returns the
   * block's last wrapped line with its raw line's metadata and continuation,
   * and what remains followed by what was popped is the old content.
   */
  lemma PopLastSpec<M>(lines: seq<RawLine<M>>, partial: bool, width: int, mayHaveDwc: bool)
    requires width >= 1
    ensures PopLast(lines, width, mayHaveDwc).None? <==> lines == []
    ensures |Rows(lines, partial, width, mayHaveDwc)| == TotalLines(lines, width, mayHaveDwc)
    ensures var r := PopLast(lines, width, mayHaveDwc);
            r.Some? ==>
              && Flatten(r.value.lines) + r.value.cells == Flatten(lines)
              && TotalLines(lines, width, mayHaveDwc) >= 1
              && var row := Rows(lines, partial, width, mayHaveDwc)[TotalLines(lines, width, mayHaveDwc) - 1];
                 && r.value.cells == row.cells
                 && r.value.metadata == row.metadata
                 && r.value.continuation == row.continuation
  {
    RowsLength(lines, partial, width, mayHaveDwc);
    if lines != [] {
      LastRow(lines, partial, width, mayHaveDwc);
      PopLastContent(lines, width, mayHaveDwc);
      var last := lines[|lines| - 1];
      var n := FullLines(last.cells, width, mayHaveDwc);
      SegmentAt(last.cells, n, width, mayHaveDwc);
    }
  }

  lemma PopLastContent<M>(lines: seq<RawLine<M>>, width: int, mayHaveDwc: bool)
    requires width >= 1 && lines != []
    ensures var last := lines[|lines| - 1];
            var n := FullLines(last.cells, width, mayHaveDwc);
            var r := PopLast(lines, width, mayHaveDwc);
            && SegmentStart(last.cells, n, width, mayHaveDwc) <= |last.cells|
            && r.Some?
            && Flatten(r.value.lines) + r.value.cells == Flatten(lines)
            && r.value.cells == last.cells[SegmentStart(last.cells, n, width, mayHaveDwc)..]
            && r.value.metadata == last.metadata && r.value.continuation == last.continuation
  {
    var k := |lines| - 1;
    var last := lines[k];
    var n := FullLines(last.cells, width, mayHaveDwc);
    DropSegments(last.cells, n, width, mayHaveDwc);
    var e := SegmentStart(last.cells, n, width, mayHaveDwc);
    assert lines == lines[..k] + [last];
    if |last.cells| > width {
      var front := last.(cells := last.cells[..e]);
      var rest := lines[..k] + [front];
      assert rest[..k] == lines[..k] && rest[k] == front;
      assert Flatten(rest) == Flatten(lines[..k]) + last.cells[..e];
      assert last.cells[..e] + last.cells[e..] == last.cells;
    } else {
      assert e == 0;
    }
  }

  /**
   * Popping removes exactly one wrapped line, provided that, when double-width
   * characters are honoured, the last raw line is well formed (every right
   * half follows a left half).
   */
  lemma PopLastCount<M>(lines: seq<RawLine<M>>, width: int, mayHaveDwc: bool)
    requires width >= 1 && lines != []
    requires mayHaveDwc ==> WellFormed(lines[|lines| - 1].cells)
    ensures PopLast(lines, width, mayHaveDwc).Some?
    ensures TotalLines(PopLast(lines, width, mayHaveDwc).value.lines, width, mayHaveDwc)
            == TotalLines(lines, width, mayHaveDwc) - 1
  {
    var k := |lines| - 1;
    var last := lines[k];
    if |last.cells| > width {
      CutLastSegment(last.cells, width, mayHaveDwc);
      var n := FullLines(last.cells, width, mayHaveDwc);
      var e := SegmentStart(last.cells, n, width, mayHaveDwc);
      var rest := lines[..k] + [last.(cells := last.cells[..e])];
      assert rest[..k] == lines[..k];
    }
  }

  /** Every raw line is well formed: each right half of a double-width character follows its left half. */
  ghost predicate AllWellFormed<M>(lines: seq<RawLine<M>>) {
    forall k :: 0 <= k < |lines| ==> WellFormed(lines[k].cells)
  }

  lemma PopLastKeepsWellFormed<M>(lines: seq<RawLine<M>>, width: int, mayHaveDwc: bool)
    requires width >= 1 && lines != [] && AllWellFormed(lines)
    ensures AllWellFormed(PopLast(lines, width, mayHaveDwc).value.lines)
  {
    var k := |lines| - 1;
    var last := lines[k];
    if |last.cells| > width {
      var n := FullLines(last.cells, width, mayHaveDwc);
      DropSegments(last.cells, n, width, mayHaveDwc);
      var e := SegmentStart(last.cells, n, width, mayHaveDwc);
      assert WellFormed(last.cells);
      assert WellFormed(last.cells[..e]);
      var r := lines[..k] + [last.(cells := last.cells[..e])];
      assert forall j :: 0 <= j < k ==> r[j] == lines[j];
    }
  }

  /**
   * removeLastWrappedLines: popLastLineInto repeated k times; a pop on an
   * empty block changes nothing. The result is the remaining lines and the
   * partial flag.
   */
  function RemoveLastWrapped<M>(lines: seq<RawLine<M>>, partial: bool, k: nat, width: int, mayHaveDwc: bool)
    : (r: (seq<RawLine<M>>, bool))
    requires width >= 1
    ensures |r.0| <= |lines|
    ensures lines == [] ==> r == (lines, partial)
    decreases k
  {
    if k == 0 then (lines, partial)
    else match PopLast(lines, width, mayHaveDwc)
      case None => RemoveLastWrapped(lines, partial, k - 1, width, mayHaveDwc)
      case Some(p) => RemoveLastWrapped(p.lines, p.partial, k - 1, width, mayHaveDwc)
  }

  lemma NonEmptyHasLines<M>(lines: seq<RawLine<M>>, width: int, mayHaveDwc: bool)
    requires width >= 1
    ensures lines == [] <==> TotalLines(lines, width, mayHaveDwc) == 0
  {
  }

  /**
   * removeLastWrappedLines removes min(k, total) wrapped lines, when the
   * content is well formed or double-width characters are not honoured.
   */
  lemma {:induction false} RemoveLastWrappedCount<M>(lines: seq<RawLine<M>>, partial: bool, k: nat, width: int, mayHaveDwc: bool)
    requires width >= 1
    requires mayHaveDwc ==> AllWellFormed(lines)
    ensures TotalLines(RemoveLastWrapped(lines, partial, k, width, mayHaveDwc).0, width, mayHaveDwc)
            == TotalLines(lines, width, mayHaveDwc) - Min(k, TotalLines(lines, width, mayHaveDwc))
    decreases k
  {
    NonEmptyHasLines(lines, width, mayHaveDwc);
    if k > 0 && lines != [] {
      PopLastCount(lines, width, mayHaveDwc);
      var p := PopLast(lines, width, mayHaveDwc).value;
      if mayHaveDwc {
        PopLastKeepsWellFormed(lines, width, mayHaveDwc);
      }
      RemoveLastWrappedCount(p.lines, p.partial, k - 1, width, mayHaveDwc);
    } else if k > 0 {
      RemoveLastWrappedCount(lines, partial, k - 1, width, mayHaveDwc);
    }
  }

  /** The n-th wrapped line of a raw line, spelled out from the segment bounds. */
  lemma LineRowAt<M>(line: RawLine<M>, endsPartial: bool, width: int, mayHaveDwc: bool, n: nat)
    requires width >= 1 && n <= FullLines(line.cells, width, mayHaveDwc)
    ensures SegmentStart(line.cells, n, width, mayHaveDwc) <= SegmentEnd(line.cells, n, width, mayHaveDwc) <= |line.cells|
    ensures |LineRows(line, endsPartial, width, mayHaveDwc)| == FullLines(line.cells, width, mayHaveDwc) + 1
    ensures var a := SegmentStart(line.cells, n, width, mayHaveDwc);
            var b := SegmentEnd(line.cells, n, width, mayHaveDwc);
            LineRows(line, endsPartial, width, mayHaveDwc)[n]
            == Row(line.cells[a..b],
                   if n < FullLines(line.cells, width, mayHaveDwc) then (if b - a == width then Soft else Dwc)
                   else if endsPartial then Soft else Hard,
                   n == 0, line.metadata, line.continuation)
  {
    SegmentAt(line.cells, n, width, mayHaveDwc);
  }

  /** hasPartial: the block's last wrapped line ends softly exactly when the block is partial. */
  lemma LastRowEol<M>(lines: seq<RawLine<M>>, partial: bool, width: int, mayHaveDwc: bool)
    requires width >= 1 && lines != []
    ensures |Rows(lines, partial, width, mayHaveDwc)| == TotalLines(lines, width, mayHaveDwc) >= 1
    ensures |Rows(lines, false, width, mayHaveDwc)| == TotalLines(lines, width, mayHaveDwc)
    ensures Rows(lines, partial, width, mayHaveDwc)[TotalLines(lines, width, mayHaveDwc) - 1].eol
            == if partial then Soft else Hard
    ensures forall k :: 0 <= k < TotalLines(lines, width, mayHaveDwc) - 1 ==>
              Rows(lines, partial, width, mayHaveDwc)[k].eol == Rows(lines, false, width, mayHaveDwc)[k].eol
  {
    LastRow(lines, partial, width, mayHaveDwc);
    LastRow(lines, false, width, mayHaveDwc);
    var k := |lines| - 1;
    assert lines[..k + 1] == lines;
    RowsUpToSame(lines, lines, k, partial, false, width, mayHaveDwc);
    RowsUpToLength(lines, k, partial, width, mayHaveDwc);
    var last := lines[k];
    var n := FullLines(last.cells, width, mayHaveDwc);
    SegmentsConcat(last.cells, width, mayHaveDwc);
    var a := RowsUpTo(lines, k, partial, width, mayHaveDwc);
    forall j | 0 <= j < TotalLines(lines, width, mayHaveDwc) - 1
      ensures Rows(lines, partial, width, mayHaveDwc)[j].eol == Rows(lines, false, width, mayHaveDwc)[j].eol
    {
      if j >= |a| {
        assert LineRows(last, partial, width, mayHaveDwc)[j - |a|].eol == LineRows(last, false, width, mayHaveDwc)[j - |a|].eol;
      }
    }
  }

  /** The leading-empty count is the only count with its two properties. */
  lemma {:induction false} LeadingUnique<M>(lines: seq<RawLine<M>>, r: nat)
    requires r <= |lines|
    requires forall k :: 0 <= k < r ==> lines[k].cells == []
    requires r < |lines| ==> lines[r].cells != []
    ensures r == LeadingEmptyLines(lines)
    decreases r
  {
    if r > 0 {
      LeadingUnique(lines[1..], r - 1);
    }
  }

  /** The trailing-empty count is the only count with its two properties. */
  lemma {:induction false} TrailingUnique<M>(lines: seq<RawLine<M>>, r: nat)
    requires r <= |lines|
    requires forall k :: |lines| - r <= k < |lines| ==> lines[k].cells == []
    requires r < |lines| ==> lines[|lines| - 1 - r].cells != []
    ensures r == TrailingEmptyLines(lines)
    decreases r
  {
    if r > 0 {
      TrailingUnique(lines[..|lines| - 1], r - 1);
    }
  }

  /** One step of the lookup: raw line i has too few wrapped lines and is skipped. */
  lemma LookupSkip<M>(lines: seq<RawLine<M>>, partial: bool, width: int, mayHaveDwc: bool, i: nat, n: nat, run: nat)
    requires width >= 1 && i < |lines|
    requires n > FullLines(lines[i].cells, width, mayHaveDwc)
    ensures LookupFrom(lines, partial, width, mayHaveDwc, i, n, run)
            == LookupFrom(lines, partial, width, mayHaveDwc, i + 1, n - FullLines(lines[i].cells, width, mayHaveDwc) - 1,
                          if lines[i].cells == [] then run + 1 else 0)
  {
  }

  /** One step of the lookup: wrapped line n of raw line i is the answer. */
  lemma LookupAnswer<M>(lines: seq<RawLine<M>>, partial: bool, width: int, mayHaveDwc: bool, i: nat, n: nat, run: nat)
    requires width >= 1 && i < |lines|
    requires n <= FullLines(lines[i].cells, width, mayHaveDwc)
    ensures n < |LineRows(lines[i], partial && i == |lines| - 1, width, mayHaveDwc)|
    ensures LookupFrom(lines, partial, width, mayHaveDwc, i, n, run)
            == Found(LineRows(lines[i], partial && i == |lines| - 1, width, mayHaveDwc)[n], i,
                     SegmentStart(lines[i].cells, n, width, mayHaveDwc), if n == 0 then run else 0)
  {
    LineRowsFacts(lines[i], partial && i == |lines| - 1, width, mayHaveDwc);
  }
}
