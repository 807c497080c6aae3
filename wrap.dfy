/**
 * Wrapping one raw line of a LineBlock to a display width.
 *
 * A raw line is a sequence of cells. A double-width character occupies two
 * cells: its left half is an ordinary cell and its right half is a cell marked
 * `dwcRight`. Wrapping cuts a raw line into segments (wrapped lines) of at most
 * `width` cells. When the block may hold double-width characters, a cut that
 * would separate the two halves of such a character is moved one cell to the
 * left, so the earlier segment is one column short.
 */
module Wrap {

  /** One screen cell; only the double-width right-half marker matters here. */
  datatype Cell = Cell(code: int, dwcRight: bool)

  /** Cells are well formed when every right half directly follows a left half. */
  ghost predicate WellFormed(line: seq<Cell>) {
    forall i :: 0 <= i < |line| && line[i].dwcRight ==> 0 < i && !line[i - 1].dwcRight
  }

  /** Where the segment after the one starting at `s` begins. */
  function Next(line: seq<Cell>, s: nat, width: int, mayHaveDwc: bool): nat
    requires width >= 1
  {
    if mayHaveDwc && width > 1 && s + width < |line| && line[s + width].dwcRight
    then s + width - 1
    else s + width
  }

  /** Number of wrap boundaries in `line` counted from offset `s`. */
  function FullLinesFrom(line: seq<Cell>, s: nat, width: int, mayHaveDwc: bool): nat
    requires width >= 1
    decreases |line| - s
  {
    if s + width < |line| then 1 + FullLinesFrom(line, Next(line, s, width, mayHaveDwc), width, mayHaveDwc)
    else 0
  }

  /**
   * numberOfFullLinesFromBuffer: the number of wrapped lines of `line` at
   * `width`, minus one.
   */
  function FullLines(line: seq<Cell>, width: int, mayHaveDwc: bool): nat
    requires width >= 1
  {
    FullLinesFrom(line, 0, width, mayHaveDwc)
  }

  /** Start of the n-th segment counted from a segment starting at `s`. */
  function StartFrom(line: seq<Cell>, s: nat, n: nat, width: int, mayHaveDwc: bool): nat
    requires width >= 1
    requires n <= FullLinesFrom(line, s, width, mayHaveDwc)
    decreases n
  {
    if n == 0 then s else StartFrom(line, Next(line, s, width, mayHaveDwc), n - 1, width, mayHaveDwc)
  }

  /** Specification of OffsetOfWrappedLine: where segment `n` begins. */
  function SegmentStart(line: seq<Cell>, n: nat, width: int, mayHaveDwc: bool): nat
    requires width >= 1
    requires n <= FullLines(line, width, mayHaveDwc)
  {
    StartFrom(line, 0, n, width, mayHaveDwc)
  }

  /** The segments of `line` from offset `s`, in order. */
  function SegmentsFrom(line: seq<Cell>, s: nat, width: int, mayHaveDwc: bool): seq<seq<Cell>>
    requires width >= 1
    requires s <= |line|
    decreases |line| - s
  {
    if s + width < |line| then
      [line[s..Next(line, s, width, mayHaveDwc)]] + SegmentsFrom(line, Next(line, s, width, mayHaveDwc), width, mayHaveDwc)
    else
      [line[s..]]
  }

  /** The wrapped lines of a raw line. */
  function Segments(line: seq<Cell>, width: int, mayHaveDwc: bool): seq<seq<Cell>>
    requires width >= 1
  {
    SegmentsFrom(line, 0, width, mayHaveDwc)
  }

  function Concat(parts: seq<seq<Cell>>): seq<Cell> {
    if parts == [] then [] else parts[0] + Concat(parts[1..])
  }

  // ---------------------------------------------------------------------------
  // Basic facts about one step

  lemma NextBounds(line: seq<Cell>, s: nat, width: int, mayHaveDwc: bool)
    requires width >= 1
    ensures s < Next(line, s, width, mayHaveDwc) <= s + width
    ensures !mayHaveDwc ==> Next(line, s, width, mayHaveDwc) == s + width
  {
  }

  /** Every segment start lies inside the line (or is 0 for an empty line). */
  lemma {:induction false} StartFromBounds(line: seq<Cell>, s: nat, n: nat, width: int, mayHaveDwc: bool)
    requires width >= 1 && s <= |line|
    requires n <= FullLinesFrom(line, s, width, mayHaveDwc)
    ensures s <= StartFrom(line, s, n, width, mayHaveDwc) <= |line|
    ensures n > 0 ==> s < StartFrom(line, s, n, width, mayHaveDwc) < |line|
    decreases n
  {
    if n > 0 {
      var t := Next(line, s, width, mayHaveDwc);
      NextBounds(line, s, width, mayHaveDwc);
      StartFromBounds(line, t, n - 1, width, mayHaveDwc);
    }
  }

  /** Counting boundaries from the k-th segment start leaves k fewer. */
  lemma {:induction false} FullLinesAfterStart(line: seq<Cell>, s: nat, k: nat, width: int, mayHaveDwc: bool)
    requires width >= 1
    requires k <= FullLinesFrom(line, s, width, mayHaveDwc)
    ensures FullLinesFrom(line, StartFrom(line, s, k, width, mayHaveDwc), width, mayHaveDwc)
            == FullLinesFrom(line, s, width, mayHaveDwc) - k
    decreases k
  {
    if k > 0 {
      FullLinesAfterStart(line, Next(line, s, width, mayHaveDwc), k - 1, width, mayHaveDwc);
    }
  }

  /** Segment starts only move right. */
  lemma {:induction false} StartFromMonotone(line: seq<Cell>, s: nat, j: nat, k: nat, width: int, mayHaveDwc: bool)
    requires width >= 1
    requires j < k <= FullLinesFrom(line, s, width, mayHaveDwc)
    ensures StartFrom(line, s, j, width, mayHaveDwc) < StartFrom(line, s, k, width, mayHaveDwc)
    decreases k
  {
    var t := Next(line, s, width, mayHaveDwc);
    NextBounds(line, s, width, mayHaveDwc);
    if j == 0 {
      if k > 1 {
        StartFromMonotone(line, t, 0, k - 1, width, mayHaveDwc);
      }
    } else {
      StartFromMonotone(line, t, j - 1, k - 1, width, mayHaveDwc);
    }
  }

  // ---------------------------------------------------------------------------
  // The rule without double-width characters

  /** Closed form of the number of full lines: ceil(length / width) - 1, and 0 for an empty line. */
  function PlainFullLines(length: nat, width: nat): nat
    requires width >= 1
  {
    if length == 0 then 0 else (length - 1) / width
  }

  lemma {:induction false} FullLinesFromPlain(line: seq<Cell>, s: nat, width: int)
    requires width >= 1
    ensures FullLinesFrom(line, s, width, false) == if s >= |line| then 0 else PlainFullLines(|line| - s, width)
    decreases |line| - s
  {
    if s + width < |line| {
      FullLinesFromPlain(line, s + width, width);
      DivStep(|line| - s - width - 1, width);
    } else if s < |line| {
      DivSmall(|line| - s - 1, width);
    }
  }

  lemma DivStep(m: nat, width: int)
    requires width >= 1
    ensures (m + width) / width == m / width + 1
  {
    var q, r := m / width, m % width;
    assert m + width == (q + 1) * width + r;
    DivUnique(m + width, width, q + 1, r);
  }

  lemma DivUnique(n: int, width: int, q: int, r: int)
    requires width >= 1 && 0 <= r < width && n == q * width + r
    ensures n / width == q
  {
    var q0, r0 := n / width, n % width;
    assert (q - q0) * width == r0 - r;
    if q > q0 {
      MulAtLeast(q - q0, width);
    } else if q < q0 {
      MulAtLeast(q0 - q, width);
    }
  }

  lemma MulAtLeast(k: int, width: int)
    requires k >= 1 && width >= 1
    ensures k * width >= width
  {
  }

  lemma DivSmall(m: nat, width: int)
    requires width >= 1 && m < width
    ensures m / width == 0
  {
  }

  /** Without double-width handling the number of full lines depends on the length only. */
  lemma FullLinesPlain(line: seq<Cell>, width: int)
    requires width >= 1
    ensures FullLines(line, width, false) == PlainFullLines(|line|, width)
  {
    FullLinesFromPlain(line, 0, width);
  }

  /** The boundary cases drawn in the header's diagrams. */
  lemma FullLinesBoundaries(line: seq<Cell>, width: int)
    requires width >= 1
    ensures |line| == 0 ==> FullLines(line, width, false) == 0
    ensures |line| == 1 ==> FullLines(line, width, false) == 0
    ensures |line| == width ==> FullLines(line, width, false) == 0
    ensures |line| == width + 1 ==> FullLines(line, width, false) == 1
    ensures |line| == 11 && width == 5 ==> FullLines(line, width, false) == 2
  {
    FullLinesPlain(line, width);
    if |line| == width + 1 {
      assert width / width == 1;
    }
  }

  lemma {:induction false} StartFromPlain(line: seq<Cell>, s: nat, n: nat, width: int)
    requires width >= 1
    requires n <= FullLinesFrom(line, s, width, false)
    ensures StartFrom(line, s, n, width, false) == s + n * width
    decreases n
  {
    if n > 0 {
      StartFromPlain(line, s + width, n - 1, width);
      assert s + width + (n - 1) * width == s + n * width;
    }
  }

  /** Without double-width handling segment n starts at n * width. */
  lemma SegmentStartPlain(line: seq<Cell>, n: nat, width: int)
    requires width >= 1
    requires n <= FullLines(line, width, false)
    ensures SegmentStart(line, n, width, false) == n * width
  {
    StartFromPlain(line, 0, n, width);
  }

  // ---------------------------------------------------------------------------
  // The rule with double-width characters

  /** In the header's example `|abcde|` / `|XXzzzz|` at width 6 the second row starts at XX. */
  lemma DwcExample(a: Cell, b: Cell, c: Cell, d: Cell, e: Cell, x: Cell, z: Cell)
    requires !a.dwcRight && !b.dwcRight && !c.dwcRight && !d.dwcRight && !e.dwcRight && !x.dwcRight && !z.dwcRight
    ensures var line := [a, b, c, d, e, x, Cell(x.code, true), z, z, z, z];
            && FullLines(line, 6, true) == 1
            && SegmentStart(line, 0, 6, true) == 0
            && SegmentStart(line, 1, 6, true) == 5
            && Segments(line, 6, true) == [[a, b, c, d, e], [x, Cell(x.code, true), z, z, z, z]]
            && FullLines(line, 6, false) == 1
            && SegmentStart(line, 1, 6, false) == 6
  {
    var line := [a, b, c, d, e, x, Cell(x.code, true), z, z, z, z];
    assert Next(line, 0, 6, true) == 5;
    assert Next(line, 0, 6, false) == 6;
    assert FullLinesFrom(line, 5, 6, true) == 0;
    assert SegmentsFrom(line, 5, 6, true) == [line[5..]];
    assert line[0..5] == [a, b, c, d, e];
    assert FullLinesFrom(line, 6, 6, false) == 0;
  }

  /**
   * With double-width handling on and well-formed cells, no segment starts with
   * the right half of a double-width character: such characters are never split.
   */
  lemma {:induction false} NoSegmentStartsInsideDwc(line: seq<Cell>, s: nat, n: nat, width: int)
    requires width >= 2 && WellFormed(line)
    requires s < |line| ==> !line[s].dwcRight
    requires n <= FullLinesFrom(line, s, width, true)
    ensures var t := StartFrom(line, s, n, width, true); t < |line| ==> !line[t].dwcRight
    decreases n
  {
    if n > 0 {
      NoSegmentStartsInsideDwc(line, Next(line, s, width, true), n - 1, width);
    }
  }

  /**
   * A wrapped line that is not the last one is exactly `width` cells long, or
   * one cell shorter when the next one starts with a double-width character
   * that would otherwise have straddled the right margin.
   */
  lemma SegmentLengths(line: seq<Cell>, n: nat, width: int, mayHaveDwc: bool)
    requires width >= 1
    requires n < FullLines(line, width, mayHaveDwc)
    ensures var a := SegmentStart(line, n, width, mayHaveDwc);
            var b := SegmentStart(line, n + 1, width, mayHaveDwc);
            && a + width < |line|
            && (b == a + width - 1 <==> mayHaveDwc && width > 1 && line[a + width].dwcRight)
            && (b != a + width - 1 ==> b == a + width)
  {
    StartAfter(line, 0, n, width, mayHaveDwc);
    FullLinesAfterStart(line, 0, n, width, mayHaveDwc);
  }

  /** Segment n + 1 starts where the step from segment n leads. */
  lemma {:induction false} StartAfter(line: seq<Cell>, s: nat, n: nat, width: int, mayHaveDwc: bool)
    requires width >= 1
    requires n < FullLinesFrom(line, s, width, mayHaveDwc)
    ensures StartFrom(line, s, n, width, mayHaveDwc) + width < |line|
    ensures StartFrom(line, s, n + 1, width, mayHaveDwc)
            == Next(line, StartFrom(line, s, n, width, mayHaveDwc), width, mayHaveDwc)
    decreases n
  {
    if n > 0 {
      StartAfter(line, Next(line, s, width, mayHaveDwc), n - 1, width, mayHaveDwc);
    }
  }

  // ---------------------------------------------------------------------------
  // Segments reassemble the raw line

  lemma {:induction false} SegmentsFromShape(line: seq<Cell>, s: nat, width: int, mayHaveDwc: bool)
    requires width >= 1 && s <= |line|
    ensures |SegmentsFrom(line, s, width, mayHaveDwc)| == FullLinesFrom(line, s, width, mayHaveDwc) + 1
    ensures Concat(SegmentsFrom(line, s, width, mayHaveDwc)) == line[s..]
    decreases |line| - s
  {
    var segs := SegmentsFrom(line, s, width, mayHaveDwc);
    if s + width < |line| {
      var t := Next(line, s, width, mayHaveDwc);
      NextBounds(line, s, width, mayHaveDwc);
      SegmentsFromShape(line, t, width, mayHaveDwc);
      assert segs[1..] == SegmentsFrom(line, t, width, mayHaveDwc);
      assert line[s..] == line[s..t] + line[t..];
    } else {
      assert segs[1..] == [];
    }
  }

  /** Re-wrap round trip: the segments at any width concatenate back to the raw line. */
  lemma SegmentsConcat(line: seq<Cell>, width: int, mayHaveDwc: bool)
    requires width >= 1
    ensures |Segments(line, width, mayHaveDwc)| == FullLines(line, width, mayHaveDwc) + 1
    ensures Concat(Segments(line, width, mayHaveDwc)) == line
  {
    SegmentsFromShape(line, 0, width, mayHaveDwc);
  }

  /** End offset of segment n. */
  function SegmentEnd(line: seq<Cell>, n: nat, width: int, mayHaveDwc: bool): nat
    requires width >= 1
    requires n <= FullLines(line, width, mayHaveDwc)
  {
    if n < FullLines(line, width, mayHaveDwc) then SegmentStart(line, n + 1, width, mayHaveDwc) else |line|
  }

  lemma {:induction false} SegmentsFromAt(line: seq<Cell>, s: nat, n: nat, width: int, mayHaveDwc: bool)
    requires width >= 1 && s <= |line|
    requires n <= FullLinesFrom(line, s, width, mayHaveDwc)
    ensures |SegmentsFrom(line, s, width, mayHaveDwc)| == FullLinesFrom(line, s, width, mayHaveDwc) + 1
    ensures var a := StartFrom(line, s, n, width, mayHaveDwc);
            var b := if n < FullLinesFrom(line, s, width, mayHaveDwc) then StartFrom(line, s, n + 1, width, mayHaveDwc) else |line|;
            a <= b <= |line| && SegmentsFrom(line, s, width, mayHaveDwc)[n] == line[a..b]
    decreases n
  {
    SegmentsFromShape(line, s, width, mayHaveDwc);
    var t := Next(line, s, width, mayHaveDwc);
    NextBounds(line, s, width, mayHaveDwc);
    if n > 0 {
      SegmentsFromAt(line, t, n - 1, width, mayHaveDwc);
    } else if s + width < |line| {
      StartFromBounds(line, t, 0, width, mayHaveDwc);
    }
  }

  /** The n-th wrapped line is the cells between the n-th and the (n+1)-th segment starts. */
  lemma SegmentAt(line: seq<Cell>, n: nat, width: int, mayHaveDwc: bool)
    requires width >= 1
    requires n <= FullLines(line, width, mayHaveDwc)
    ensures |Segments(line, width, mayHaveDwc)| == FullLines(line, width, mayHaveDwc) + 1
    ensures SegmentStart(line, n, width, mayHaveDwc) <= SegmentEnd(line, n, width, mayHaveDwc) <= |line|
    ensures Segments(line, width, mayHaveDwc)[n]
            == line[SegmentStart(line, n, width, mayHaveDwc)..SegmentEnd(line, n, width, mayHaveDwc)]
  {
    SegmentsFromAt(line, 0, n, width, mayHaveDwc);
  }

  // ---------------------------------------------------------------------------
  // Dropping leading cells and cutting trailing segments

  /** Wrapping does not depend on cells before the segment start. */
  lemma {:induction false} ShiftFrom(line: seq<Cell>, d: nat, s: nat, width: int, mayHaveDwc: bool)
    requires width >= 1 && d <= s <= |line|
    ensures FullLinesFrom(line[d..], s - d, width, mayHaveDwc) == FullLinesFrom(line, s, width, mayHaveDwc)
    ensures SegmentsFrom(line[d..], s - d, width, mayHaveDwc) == SegmentsFrom(line, s, width, mayHaveDwc)
    decreases |line| - s
  {
    var tail := line[d..];
    if s + width < |line| {
      var t := Next(line, s, width, mayHaveDwc);
      assert Next(tail, s - d, width, mayHaveDwc) == t - d;
      NextBounds(line, s, width, mayHaveDwc);
      ShiftFrom(line, d, t, width, mayHaveDwc);
      assert tail[s - d..t - d] == line[s..t];
    } else {
      assert tail[s - d..] == line[s..];
    }
  }

  /**
   * Dropping the first k wrapped lines of a raw line (as dropLines does with the
   * raw line it stops in) leaves a line whose wrapped lines are the rest.
   */
  lemma DropSegments(line: seq<Cell>, k: nat, width: int, mayHaveDwc: bool)
    requires width >= 1
    requires k <= FullLines(line, width, mayHaveDwc)
    ensures SegmentStart(line, k, width, mayHaveDwc) <= |line|
    ensures |Segments(line, width, mayHaveDwc)| == FullLines(line, width, mayHaveDwc) + 1
    ensures var rest := line[SegmentStart(line, k, width, mayHaveDwc)..];
            && FullLines(rest, width, mayHaveDwc) == FullLines(line, width, mayHaveDwc) - k
            && Segments(rest, width, mayHaveDwc) == Segments(line, width, mayHaveDwc)[k..]
  {
    var a := SegmentStart(line, k, width, mayHaveDwc);
    StartFromBounds(line, 0, k, width, mayHaveDwc);
    ShiftFrom(line, a, a, width, mayHaveDwc);
    FullLinesAfterStart(line, 0, k, width, mayHaveDwc);
    SegmentsFromSuffix(line, 0, k, width, mayHaveDwc);
    SegmentsFromShape(line, 0, width, mayHaveDwc);
  }

  lemma {:induction false} SegmentsFromSuffix(line: seq<Cell>, s: nat, k: nat, width: int, mayHaveDwc: bool)
    requires width >= 1 && s <= |line|
    requires k <= FullLinesFrom(line, s, width, mayHaveDwc)
    ensures StartFrom(line, s, k, width, mayHaveDwc) <= |line|
    ensures |SegmentsFrom(line, s, width, mayHaveDwc)| == FullLinesFrom(line, s, width, mayHaveDwc) + 1
    ensures SegmentsFrom(line, StartFrom(line, s, k, width, mayHaveDwc), width, mayHaveDwc)
            == SegmentsFrom(line, s, width, mayHaveDwc)[k..]
    decreases k
  {
    StartFromBounds(line, s, k, width, mayHaveDwc);
    SegmentsFromShape(line, s, width, mayHaveDwc);
    if k > 0 {
      var t := Next(line, s, width, mayHaveDwc);
      NextBounds(line, s, width, mayHaveDwc);
      SegmentsFromSuffix(line, t, k - 1, width, mayHaveDwc);
    }
  }

  /** Two steps always get past the first margin (needs well-formed cells when wrapping is DWC aware). */
  lemma TwoSteps(line: seq<Cell>, s: nat, width: int, mayHaveDwc: bool)
    requires width >= 1 && (mayHaveDwc ==> WellFormed(line))
    requires s + width < |line|
    ensures s + width < Next(line, Next(line, s, width, mayHaveDwc), width, mayHaveDwc)
  {
    var t := Next(line, s, width, mayHaveDwc);
    if mayHaveDwc && width > 1 && t == s + width - 1 && t + width < |line| {
      assert line[s + width].dwcRight;
      assert width == 2 ==> !line[t + width].dwcRight;
    }
  }

  /**
   * Cutting a raw line at the start of its n-th segment leaves a line with
   * n wrapped lines, the first n of the original.
   */
  lemma {:induction false} CutFrom(line: seq<Cell>, s: nat, n: nat, width: int, mayHaveDwc: bool)
    requires width >= 1 && (mayHaveDwc ==> WellFormed(line)) && s <= |line|
    requires 1 <= n <= FullLinesFrom(line, s, width, mayHaveDwc)
    ensures CutMeets(line, s, n, width, mayHaveDwc)
    decreases n
  {
    if n == 1 {
      CutFromOne(line, s, width, mayHaveDwc);
    } else {
      var t := Next(line, s, width, mayHaveDwc);
      NextBounds(line, s, width, mayHaveDwc);
      SegmentsFromShape(line, s, width, mayHaveDwc);
      CutFrom(line, t, n - 1, width, mayHaveDwc);
      CutFromStep(line, s, n, width, mayHaveDwc);
    }
  }

  /** What cutting a raw line at the start of its n-th segment from s gives. */
  ghost predicate CutMeets(line: seq<Cell>, s: nat, n: nat, width: int, mayHaveDwc: bool)
    requires width >= 1 && s <= |line|
  {
    && n <= FullLinesFrom(line, s, width, mayHaveDwc)
    && var e := StartFrom(line, s, n, width, mayHaveDwc);
    && s < e <= |line|
    && FullLinesFrom(line[..e], s, width, mayHaveDwc) == n - 1
    && |SegmentsFrom(line, s, width, mayHaveDwc)| == FullLinesFrom(line, s, width, mayHaveDwc) + 1
    && SegmentsFrom(line[..e], s, width, mayHaveDwc) == SegmentsFrom(line, s, width, mayHaveDwc)[..n]
  }

  lemma CutFromOne(line: seq<Cell>, s: nat, width: int, mayHaveDwc: bool)
    requires width >= 1 && s <= |line| && 1 <= FullLinesFrom(line, s, width, mayHaveDwc)
    ensures CutMeets(line, s, 1, width, mayHaveDwc)
  {
    var e := StartFrom(line, s, 1, width, mayHaveDwc);
    StartFromBounds(line, s, 1, width, mayHaveDwc);
    var p := line[..e];
    var t := Next(line, s, width, mayHaveDwc);
    SegmentsFromShape(line, s, width, mayHaveDwc);
    NextBounds(line, s, width, mayHaveDwc);
    assert e == t;
    assert SegmentsFrom(p, s, width, mayHaveDwc) == [p[s..]];
    assert p[s..] == line[s..t];
  }

  lemma CutFromStep(line: seq<Cell>, s: nat, n: nat, width: int, mayHaveDwc: bool)
    requires width >= 1 && (mayHaveDwc ==> WellFormed(line)) && s <= |line|
    requires 2 <= n <= FullLinesFrom(line, s, width, mayHaveDwc)
    requires var t := Next(line, s, width, mayHaveDwc);
             t <= |line| && CutMeets(line, t, n - 1, width, mayHaveDwc)
    ensures CutMeets(line, s, n, width, mayHaveDwc)
  {
    var e := StartFrom(line, s, n, width, mayHaveDwc);
    StartFromBounds(line, s, n, width, mayHaveDwc);
    var p := line[..e];
    var t := Next(line, s, width, mayHaveDwc);
    SegmentsFromShape(line, s, width, mayHaveDwc);
    NextBounds(line, s, width, mayHaveDwc);
    if n > 2 {
      StartFromMonotone(line, t, 1, n - 1, width, mayHaveDwc);
    }
    TwoSteps(line, s, width, mayHaveDwc);
    assert s + width < e;
    assert Next(p, s, width, mayHaveDwc) == t;
    assert p[s..t] == line[s..t];
  }

  /**
   * Removing the last wrapped line of a raw line that has more than one leaves
   * exactly one wrapped line fewer, and the others unchanged.
   */
  lemma CutLastSegment(line: seq<Cell>, width: int, mayHaveDwc: bool)
    requires width >= 1 && (mayHaveDwc ==> WellFormed(line))
    requires FullLines(line, width, mayHaveDwc) >= 1
    ensures var n := FullLines(line, width, mayHaveDwc);
            var e := SegmentStart(line, n, width, mayHaveDwc);
            && 0 < e < |line|
            && FullLines(line[..e], width, mayHaveDwc) == n - 1
            && Segments(line, width, mayHaveDwc) == Segments(line[..e], width, mayHaveDwc) + [line[e..]]
  {
    var n := FullLines(line, width, mayHaveDwc);
    var e := SegmentStart(line, n, width, mayHaveDwc);
    CutFrom(line, 0, n, width, mayHaveDwc);
    StartFromBounds(line, 0, n, width, mayHaveDwc);
    SegmentAt(line, n, width, mayHaveDwc);
    var segs := Segments(line, width, mayHaveDwc);
    assert SegmentEnd(line, n, width, mayHaveDwc) == |line|;
    assert segs[n] == line[e..];
    assert segs == segs[..n] + [segs[n]];
  }
}
