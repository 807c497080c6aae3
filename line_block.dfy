/**
 * The LineBlock object: a fixed-capacity raw buffer of cells, the table of
 * cumulative raw-line ends into it, a start offset that advances as lines are
 * dropped from the head, the partial flag of the last line, the
 * double-width-character flag and the cached wrapped-line count.
 *
 * Every method is proved against the pure specifications of Wrap and Layout:
 * the ghost field Contents is the block's sequence of raw lines, tied to the
 * buffer by Valid().
 */
module Blocks {
  import opened Wrap
  import opened Layout

  /** The cell a fresh buffer is filled with. */
  const Null := Cell(0, false)

  /**
   * numberOfFullLinesFromBuffer over a[start..start + length]: the closed
   * form (length - 1) / width when no double-width character can occur, a
   * scan over the wrap points otherwise.
   */
  method NumberOfFullLines(a: array<Cell>, start: nat, length: nat, width: int, mayHaveDwc: bool) returns (n: nat)
    requires width >= 1 && start + length <= a.Length
    ensures n == FullLines(a[start..start + length], width, mayHaveDwc)
  {
    ghost var line := a[start..start + length];
    if !mayHaveDwc {
      FullLinesPlain(line, width);
      n := if length == 0 then 0 else (length - 1) / width;
      return;
    }
    var s: nat := 0;
    n := 0;
    while s + width < length
      invariant s <= length
      invariant n + FullLinesFrom(line, s, width, true) == FullLines(line, width, true)
      decreases length - s
    {
      assert line[s + width] == a[start + s + width];
      if width > 1 && a[start + s + width].dwcRight {
        s := s + width - 1;
      } else {
        s := s + width;
      }
      n := n + 1;
    }
  }

  /**
   * OffsetOfWrappedLine: where wrapped line n of a[start..start + length]
   * begins. Without double-width characters (or at width 1) this is n * width;
   * otherwise a wrap point that would land on the right half of a
   * double-width character moves one column back.
   */
  method OffsetOfWrappedLine(a: array<Cell>, start: nat, n: nat, length: nat, width: int, mayHaveDwc: bool)
    returns (off: nat)
    requires width >= 1 && start + length <= a.Length
    requires n <= FullLines(a[start..start + length], width, mayHaveDwc)
    ensures off == SegmentStart(a[start..start + length], n, width, mayHaveDwc)
  {
    ghost var line := a[start..start + length];
    if !(width > 1 && mayHaveDwc) {
      if mayHaveDwc {
        SameWithoutDwc(line, 0, n, width);
      }
      SegmentStartPlain(line, n, width);
      return n * width;
    }
    var i: nat := 0;
    var lines := 0;
    while lines < n
      invariant lines <= n && i <= length
      invariant n - lines <= FullLinesFrom(line, i, width, true)
      invariant StartFrom(line, i, n - lines, width, true) == SegmentStart(line, n, width, true)
      decreases n - lines
    {
      i := i + width;
      lines := lines + 1;
      assert line[i] == a[start + i];
      if a[start + i].dwcRight {
        i := i - 1;
      }
    }
    off := i;
  }

  /** At width 1 the double-width rule never applies. */
  lemma {:induction false} SameWithoutDwc(line: seq<Cell>, s: nat, n: nat, width: int)
    requires width == 1
    ensures FullLinesFrom(line, s, width, true) == FullLinesFrom(line, s, width, false)
    ensures n <= FullLinesFrom(line, s, width, true) ==>
              StartFrom(line, s, n, width, true) == StartFrom(line, s, n, width, false)
    decreases |line| - s, n
  {
    if s + width < |line| {
      SameWithoutDwc(line, s + 1, if n > 0 then n - 1 else 0, width);
    }
  }

  /**
   * Wrapped line n of the raw line stored at a[start..start + length]: its
   * cells run from the n-th wrap point to the next one (or the end), and it
   * ends softly, one column early before a double-width character, or as the
   * raw line does.
   */
  method RowAt<M>(a: array<Cell>, start: nat, length: nat, n: nat, spans: nat, width: int, mayHaveDwc: bool,
                  endsPartial: bool, metadata: M, continuation: Cell, ghost line: RawLine<M>)
    returns (row: Row<M>, offset: nat)
    requires width >= 1 && start + length <= a.Length
    requires line == RawLine(a[start..start + length], metadata, continuation)
    requires spans == FullLines(line.cells, width, mayHaveDwc) && n <= spans
    ensures offset == SegmentStart(line.cells, n, width, mayHaveDwc)
    ensures n < |LineRows(line, endsPartial, width, mayHaveDwc)|
    ensures row == LineRows(line, endsPartial, width, mayHaveDwc)[n]
  {
    offset := OffsetOfWrappedLine(a, start, n, length, width, mayHaveDwc);
    var b := length;
    if n < spans {
      b := OffsetOfWrappedLine(a, start, n + 1, length, width, mayHaveDwc);
    }
    var eol := if n < spans then (if b - offset == width then Soft else Dwc)
               else if endsPartial then Soft else Hard;
    LineRowAt(line, endsPartial, width, mayHaveDwc, n);
    assert b == SegmentEnd(line.cells, n, width, mayHaveDwc);
    assert offset <= b <= length;
    SliceOfSlice(a[..], start, start + length, offset, b);
    assert a[start + offset..start + b] == a[start..start + length][offset..b];
    row := Row(a[start + offset..start + b], eol, n == 0, metadata, continuation);
  }

  /** A slice of a slice is a slice of the whole. */
  lemma SliceOfSlice<T>(s: seq<T>, i: nat, j: nat, k: nat, l: nat)
    requires i <= j <= |s| && k <= l <= j - i
    ensures s[i..j][k..l] == s[i + k..i + l]
  {
    forall x | 0 <= x < l - k
      ensures s[i..j][k..l][x] == s[i + k..i + l][x]
    {
    }
  }

  /** Adjacent slices join into one. */
  lemma SliceConcat<T>(s: seq<T>, i: nat, j: nat, l: nat)
    requires i <= j <= l <= |s|
    ensures s[i..l] == s[i..j] + s[j..l]
  {
    forall x | 0 <= x < l - i
      ensures s[i..l][x] == (s[i..j] + s[j..l])[x]
    {
    }
  }

  // ---------------------------------------------------------------------------
  // The raw lines a buffer and a table of line ends describe

  /** Line ends that are ordered, start no earlier than `start` and stay inside a buffer of `size` cells. */
  ghost predicate Table(size: nat, start: nat, ends: seq<nat>) {
    && (|ends| > 0 ==> start <= ends[0])
    && (forall i, j :: 0 <= i <= j < |ends| ==> EndAt(ends, i) <= EndAt(ends, j))
    && (forall i :: 0 <= i < |ends| ==> EndAt(ends, i) <= size)
    && start <= End(start, ends) <= size
  }

  /** ends[i]; quantifiers over the table hang on this term only, so plain indexing does not set them off. */
  function EndAt(ends: seq<nat>, i: nat): nat
    requires i < |ends|
  {
    ends[i]
  }

  /** Where line k of the table begins. */
  function Begin(start: nat, ends: seq<nat>, k: nat): nat
    requires k <= |ends|
  {
    if k == 0 then start else ends[k - 1]
  }

  /** Where the next line would begin: just after the last one. */
  function End(start: nat, ends: seq<nat>): nat {
    if ends == [] then start else ends[|ends| - 1]
  }

  /** Raw line k held by `cells` according to the table. */
  ghost function LineOf<M>(cells: seq<Cell>, start: nat, ends: seq<nat>, metas: seq<M>, conts: seq<Cell>, k: nat)
    : RawLine<M>
    requires Table(|cells|, start, ends) && |metas| == |ends| && |conts| == |ends| && k < |ends|
  {
    EndBounds(|cells|, start, ends);
    RawLine(cells[Begin(start, ends, k)..ends[k]], metas[k], conts[k])
  }

  /** The raw lines held by `cells` according to the table. */
  ghost function Lines<M>(cells: seq<Cell>, start: nat, ends: seq<nat>, metas: seq<M>, conts: seq<Cell>)
    : seq<RawLine<M>>
    requires Table(|cells|, start, ends) && |metas| == |ends| && |conts| == |ends|
  {
    seq(|ends|, k requires 0 <= k < |ends| => LineOf(cells, start, ends, metas, conts, k))
  }

  lemma EndBounds(size: nat, start: nat, ends: seq<nat>)
    requires Table(size, start, ends)
    ensures start <= End(start, ends) <= size
    ensures forall k :: 0 <= k < |ends| ==> start <= Begin(start, ends, k) <= ends[k] <= End(start, ends)
  {
    if ends != [] {
      assert EndAt(ends, |ends| - 1) <= size;
    }
    forall k | 0 <= k < |ends|
      ensures start <= Begin(start, ends, k) <= ends[k] <= End(start, ends)
    {
      if k > 0 {
        assert EndAt(ends, k - 1) <= EndAt(ends, k);
        assert EndAt(ends, 0) <= EndAt(ends, k - 1);
      }
      assert EndAt(ends, k) <= EndAt(ends, |ends| - 1);
    }
  }

  lemma TablePrefix(size: nat, start: nat, ends: seq<nat>, k: nat)
    requires Table(size, start, ends) && k <= |ends|
    ensures Table(size, start, ends[..k])
  {
    EndBounds(size, start, ends);
    if k > 0 {
      assert End(start, ends[..k]) == ends[k - 1];
    }
    forall i, j | 0 <= i <= j < k
      ensures EndAt(ends[..k], i) <= EndAt(ends[..k], j)
    {
      assert EndAt(ends, i) <= EndAt(ends, j);
    }
    forall i | 0 <= i < k
      ensures EndAt(ends[..k], i) <= size
    {
      assert EndAt(ends, i) <= size;
    }
  }

  lemma TableSnoc(size: nat, start: nat, ends: seq<nat>, e: nat)
    requires Table(size, start, ends) && End(start, ends) <= e <= size
    ensures Table(size, start, ends + [e])
  {
    EndBounds(size, start, ends);
    var ends' := ends + [e];
    forall i, j | 0 <= i <= j < |ends'|
      ensures EndAt(ends', i) <= EndAt(ends', j)
    {
      if j < |ends| {
        assert EndAt(ends, i) <= EndAt(ends, j);
      }
    }
  }

  lemma TableDrop(size: nat, start: nat, ends: seq<nat>, i: nat)
    requires Table(size, start, ends) && i <= |ends|
    ensures Table(size, Begin(start, ends, i), ends[i..])
  {
    EndBounds(size, start, ends);
    var t := ends[i..];
    var b := Begin(start, ends, i);
    if t != [] {
      assert End(b, t) == ends[|ends| - 1];
      if i > 0 {
        assert EndAt(ends, i - 1) <= EndAt(ends, i);
      }
    }
    forall x, y | 0 <= x <= y < |t|
      ensures EndAt(t, x) <= EndAt(t, y)
    {
      assert EndAt(ends, x + i) <= EndAt(ends, y + i);
    }
    forall x | 0 <= x < |t|
      ensures EndAt(t, x) <= size
    {
      assert EndAt(ends, x + i) <= size;
    }
  }

  /** Cells past the end of the last line do not matter. */
  lemma LinesFrame<M>(a: seq<Cell>, b: seq<Cell>, start: nat, ends: seq<nat>, metas: seq<M>, conts: seq<Cell>)
    requires Table(|a|, start, ends) && |metas| == |ends| && |conts| == |ends|
    requires End(start, ends) <= |b| && a[..End(start, ends)] == b[..End(start, ends)]
    ensures Table(|b|, start, ends)
    ensures Lines(b, start, ends, metas, conts) == Lines(a, start, ends, metas, conts)
  {
    var u := End(start, ends);
    EndBounds(|a|, start, ends);
    forall i | 0 <= i < |ends|
      ensures EndAt(ends, i) <= |b|
    {
      assert EndAt(ends, i) <= EndAt(ends, |ends| - 1);
    }
    forall k | 0 <= k < |ends|
      ensures b[Begin(start, ends, k)..ends[k]] == a[Begin(start, ends, k)..ends[k]]
    {
      assert b[Begin(start, ends, k)..ends[k]] == b[..u][Begin(start, ends, k)..ends[k]];
      assert a[Begin(start, ends, k)..ends[k]] == a[..u][Begin(start, ends, k)..ends[k]];
    }
  }

  /** Tables that agree on their first k entries describe the same first k lines. */
  lemma LinesSamePrefix<M>(a: seq<Cell>, start: nat, ends: seq<nat>, metas: seq<M>, conts: seq<Cell>,
                           ends': seq<nat>, metas': seq<M>, conts': seq<Cell>, k: nat)
    requires Table(|a|, start, ends) && |metas| == |ends| && |conts| == |ends|
    requires Table(|a|, start, ends') && |metas'| == |ends'| && |conts'| == |ends'|
    requires k <= |ends| && k <= |ends'|
    requires ends'[..k] == ends[..k] && metas'[..k] == metas[..k] && conts'[..k] == conts[..k]
    ensures Lines(a, start, ends', metas', conts')[..k] == Lines(a, start, ends, metas, conts)[..k]
  {
    var L := Lines(a, start, ends, metas, conts);
    var L' := Lines(a, start, ends', metas', conts');
    forall j | 0 <= j < k
      ensures L'[j] == L[j]
    {
      assert ends'[j] == ends'[..k][j] == ends[..k][j] == ends[j];
      assert metas'[j] == metas'[..k][j] == metas[..k][j] == metas[j];
      assert conts'[j] == conts'[..k][j] == conts[..k][j] == conts[j];
      if j > 0 {
        assert ends'[j - 1] == ends'[..k][j - 1] == ends[..k][j - 1] == ends[j - 1];
      }
      assert L'[j] == LineOf(a, start, ends', metas', conts', j);
      assert L[j] == LineOf(a, start, ends, metas, conts, j);
    }
  }

  /** A new line after the last one. */
  lemma LinesPush<M>(a: seq<Cell>, start: nat, ends: seq<nat>, metas: seq<M>, conts: seq<Cell>,
                     e: nat, m: M, c: Cell)
    requires Table(|a|, start, ends) && |metas| == |ends| && |conts| == |ends|
    requires End(start, ends) <= e <= |a|
    ensures Table(|a|, start, ends + [e])
    ensures Lines(a, start, ends + [e], metas + [m], conts + [c])
            == Lines(a, start, ends, metas, conts) + [RawLine(a[End(start, ends)..e], m, c)]
  {
    var k := |ends|;
    var ends', metas', conts' := ends + [e], metas + [m], conts + [c];
    TableSnoc(|a|, start, ends, e);
    assert ends'[..k] == ends && metas'[..k] == metas && conts'[..k] == conts;
    LinesSamePrefix(a, start, ends, metas, conts, ends', metas', conts', k);
    var L := Lines(a, start, ends, metas, conts);
    var L' := Lines(a, start, ends', metas', conts');
    assert L'[k] == RawLine(a[End(start, ends)..e], m, c) by {
      assert Begin(start, ends', k) == End(start, ends);
      assert L'[k] == LineOf(a, start, ends', metas', conts', k);
    }
    assert L[..k] == L;
    assert L' == L'[..k] + [L'[k]];
  }

  /** The last line continued up to e. */
  lemma LinesExtend<M>(a: seq<Cell>, start: nat, ends: seq<nat>, metas: seq<M>, conts: seq<Cell>,
                       e: nat, m: M, c: Cell)
    requires Table(|a|, start, ends) && |metas| == |ends| && |conts| == |ends| && ends != []
    requires End(start, ends) <= e <= |a|
    ensures var k := |ends| - 1;
            && Table(|a|, start, ends[..k] + [e])
            && Lines(a, start, ends[..k] + [e], metas[..k] + [m], conts[..k] + [c])
               == Lines(a, start, ends, metas, conts)[..k]
                  + [RawLine(Lines(a, start, ends, metas, conts)[k].cells + a[ends[k]..e], m, c)]
  {
    var k := |ends| - 1;
    EndBounds(|a|, start, ends);
    TableReplaceLast(|a|, start, ends, e);
    var ends', metas', conts' := ends[..k] + [e], metas[..k] + [m], conts[..k] + [c];
    assert ends'[..k] == ends[..k] && metas'[..k] == metas[..k] && conts'[..k] == conts[..k];
    LinesSamePrefix(a, start, ends, metas, conts, ends', metas', conts', k);
    var L := Lines(a, start, ends, metas, conts);
    var L' := Lines(a, start, ends', metas', conts');
    LastExtended(a, start, ends, metas, conts, e, m, c);
    assert L' == L'[..k] + [L'[k]];
  }

  /** The line ends with the last one moved to e, which stays after the line before it. */
  lemma TableReplaceLast(size: nat, start: nat, ends: seq<nat>, e: nat)
    requires Table(size, start, ends) && ends != [] && Begin(start, ends, |ends| - 1) <= e <= size
    ensures Table(size, start, ends[..|ends| - 1] + [e])
  {
    var k := |ends| - 1;
    TablePrefix(size, start, ends, k);
    assert End(start, ends[..k]) == Begin(start, ends, k);
    TableSnoc(size, start, ends[..k], e);
  }

  /** The last line of the extended table: the old last line and the cells up to e. */
  lemma LastExtended<M>(a: seq<Cell>, start: nat, ends: seq<nat>, metas: seq<M>, conts: seq<Cell>,
                        e: nat, m: M, c: Cell)
    requires Table(|a|, start, ends) && |metas| == |ends| && |conts| == |ends| && ends != []
    requires End(start, ends) <= e <= |a|
    requires Table(|a|, start, ends[..|ends| - 1] + [e])
    ensures var k := |ends| - 1;
            Lines(a, start, ends[..k] + [e], metas[..k] + [m], conts[..k] + [c])[k]
            == RawLine(Lines(a, start, ends, metas, conts)[k].cells + a[ends[k]..e], m, c)
  {
    var k := |ends| - 1;
    var b := Begin(start, ends, k);
    var ends', metas', conts' := ends[..k] + [e], metas[..k] + [m], conts[..k] + [c];
    EndBounds(|a|, start, ends);
    assert Begin(start, ends', k) == b;
    assert Lines(a, start, ends', metas', conts')[k] == LineOf(a, start, ends', metas', conts', k);
    assert Lines(a, start, ends, metas, conts)[k] == LineOf(a, start, ends, metas, conts, k);
    SliceConcat(a, b, ends[k], e);
  }

  /** The last line cut back to end at e. */
  lemma LinesCut<M>(a: seq<Cell>, start: nat, ends: seq<nat>, metas: seq<M>, conts: seq<Cell>, e: nat)
    requires Table(|a|, start, ends) && |metas| == |ends| && |conts| == |ends| && ends != []
    requires Begin(start, ends, |ends| - 1) <= e <= ends[|ends| - 1]
    ensures var k := |ends| - 1;
            var old_ := Lines(a, start, ends, metas, conts);
            && Table(|a|, start, ends[..k] + [e])
            && Lines(a, start, ends[..k] + [e], metas, conts)
               == old_[..k] + [old_[k].(cells := old_[k].cells[..e - Begin(start, ends, k)])]
  {
    var k := |ends| - 1;
    var b := Begin(start, ends, k);
    EndBounds(|a|, start, ends);
    TableReplaceLast(|a|, start, ends, e);
    var ends' := ends[..k] + [e];
    assert ends'[..k] == ends[..k];
    LinesSamePrefix(a, start, ends, metas, conts, ends', metas, conts, k);
    var L := Lines(a, start, ends, metas, conts);
    var L' := Lines(a, start, ends', metas, conts);
    LastCut(a, start, ends, metas, conts, e);
    assert L' == L'[..k] + [L'[k]];
  }

  /** The last line of the cut table: the old last line's first e - Begin cells. */
  lemma LastCut<M>(a: seq<Cell>, start: nat, ends: seq<nat>, metas: seq<M>, conts: seq<Cell>, e: nat)
    requires Table(|a|, start, ends) && |metas| == |ends| && |conts| == |ends| && ends != []
    requires Begin(start, ends, |ends| - 1) <= e <= ends[|ends| - 1]
    requires Table(|a|, start, ends[..|ends| - 1] + [e])
    ensures var k := |ends| - 1;
            var L := Lines(a, start, ends, metas, conts);
            Lines(a, start, ends[..k] + [e], metas, conts)[k] == L[k].(cells := L[k].cells[..e - Begin(start, ends, k)])
  {
    var k := |ends| - 1;
    var b := Begin(start, ends, k);
    var ends' := ends[..k] + [e];
    EndBounds(|a|, start, ends);
    assert Begin(start, ends', k) == b;
    assert Lines(a, start, ends', metas, conts)[k] == LineOf(a, start, ends', metas, conts, k);
    assert Lines(a, start, ends, metas, conts)[k] == LineOf(a, start, ends, metas, conts, k);
    SliceOfSlice(a, b, ends[k], 0, e - b);
  }

  /** The last line removed. */
  lemma LinesPop<M>(a: seq<Cell>, start: nat, ends: seq<nat>, metas: seq<M>, conts: seq<Cell>)
    requires Table(|a|, start, ends) && |metas| == |ends| && |conts| == |ends| && ends != []
    ensures var k := |ends| - 1;
            && Table(|a|, start, ends[..k])
            && Lines(a, start, ends[..k], metas[..k], conts[..k]) == Lines(a, start, ends, metas, conts)[..k]
  {
    TablePrefix(|a|, start, ends, |ends| - 1);
  }

  /** The lines of a table hold every cell from the start to the end of the last line. */
  lemma {:induction false} LinesSize<M>(a: seq<Cell>, start: nat, ends: seq<nat>, metas: seq<M>, conts: seq<Cell>)
    requires Table(|a|, start, ends) && |metas| == |ends| && |conts| == |ends|
    ensures start <= End(start, ends)
    ensures |Flatten(Lines(a, start, ends, metas, conts))| == End(start, ends) - start
    decreases |ends|
  {
    EndBounds(|a|, start, ends);
    if ends != [] {
      var k := |ends| - 1;
      LinesPop(a, start, ends, metas, conts);
      LinesSize(a, start, ends[..k], metas[..k], conts[..k]);
      var L := Lines(a, start, ends, metas, conts);
      assert L[..k] == Lines(a, start, ends[..k], metas[..k], conts[..k]);
      assert End(start, ends[..k]) == Begin(start, ends, k);
      assert |L[k].cells| == ends[k] - Begin(start, ends, k);
    }
  }

  /** The first i lines removed: the next one begins where they ended. */
  lemma LinesDrop<M>(a: seq<Cell>, start: nat, ends: seq<nat>, metas: seq<M>, conts: seq<Cell>, i: nat)
    requires Table(|a|, start, ends) && |metas| == |ends| && |conts| == |ends| && i <= |ends|
    ensures Table(|a|, Begin(start, ends, i), ends[i..])
    ensures Lines(a, Begin(start, ends, i), ends[i..], metas[i..], conts[i..]) == Lines(a, start, ends, metas, conts)[i..]
  {
    TableDrop(|a|, start, ends, i);
    var b := Begin(start, ends, i);
    var L := Lines(a, start, ends, metas, conts);
    var L' := Lines(a, b, ends[i..], metas[i..], conts[i..]);
    forall j | 0 <= j < |L'|
      ensures L'[j] == L[i + j]
    {
      assert Begin(b, ends[i..], j) == Begin(start, ends, i + j);
      assert L'[j] == LineOf(a, b, ends[i..], metas[i..], conts[i..], j);
      assert L[i + j] == LineOf(a, start, ends, metas, conts, i + j);
    }
  }

  /** The first line starting `off` cells later. */
  lemma LinesAdvance<M>(a: seq<Cell>, start: nat, ends: seq<nat>, metas: seq<M>, conts: seq<Cell>, off: nat)
    requires Table(|a|, start, ends) && |metas| == |ends| && |conts| == |ends| && ends != []
    requires start + off <= ends[0] <= |a|
    ensures Table(|a|, start + off, ends)
    ensures var old_ := Lines(a, start, ends, metas, conts);
            Lines(a, start + off, ends, metas, conts) == [old_[0].(cells := old_[0].cells[off..])] + old_[1..]
  {
    var old_ := Lines(a, start, ends, metas, conts);
    EndBounds(|a|, start, ends);
    assert a[start + off..ends[0]] == a[start..ends[0]][off..];
  }

  /** A table after appendLine: its last entry replaced (extending the last line) or a new one added. */
  function AppendedEntries<T>(xs: seq<T>, extend: bool, x: T): (r: seq<T>)
    requires extend ==> xs != []
    ensures |r| == if extend then |xs| else |xs| + 1
    ensures r[|r| - 1] == x
  {
    if extend then xs[..|xs| - 1] + [x] else xs + [x]
  }

  /** Writing the cells after the last line and updating the tables appends a line. */
  lemma LinesAppend<M>(a: seq<Cell>, a': seq<Cell>, start: nat, ends: seq<nat>, metas: seq<M>, conts: seq<Cell>,
                       cells: seq<Cell>, extend: bool, m: M, c: Cell,
                       e: nat, ends': seq<nat>, metas': seq<M>, conts': seq<Cell>)
    requires Table(|a|, start, ends) && |metas| == |ends| && |conts| == |ends| && (extend ==> ends != [])
    requires |a'| == |a| && e == End(start, ends) + |cells| <= |a|
    requires a'[..End(start, ends)] == a[..End(start, ends)]
    requires a'[End(start, ends)..e] == cells
    requires ends' == AppendedEntries(ends, extend, e)
    requires metas' == AppendedEntries(metas, extend, m) && conts' == AppendedEntries(conts, extend, c)
    ensures Table(|a'|, start, ends') && End(start, ends') == e && |metas'| == |ends'| && |conts'| == |ends'|
    ensures Lines(a', start, ends', metas', conts') == AppendLine(Lines(a, start, ends, metas, conts), extend, cells, m, c)
  {
    if extend {
      var k := |ends| - 1;
      assert ends' == ends[..k] + [e];
      assert metas' == metas[..k] + [m];
      assert conts' == conts[..k] + [c];
      LinesAppendExtend(a, a', start, ends, metas, conts, cells, m, c, e);
    } else {
      LinesAppendPush(a, a', start, ends, metas, conts, cells, m, c, e);
    }
  }

  lemma LinesAppendExtend<M>(a: seq<Cell>, a': seq<Cell>, start: nat, ends: seq<nat>, metas: seq<M>, conts: seq<Cell>,
                             cells: seq<Cell>, m: M, c: Cell, e: nat)
    requires Table(|a|, start, ends) && |metas| == |ends| && |conts| == |ends| && ends != []
    requires |a'| == |a| && e == End(start, ends) + |cells| <= |a|
    requires a'[..End(start, ends)] == a[..End(start, ends)] && a'[End(start, ends)..e] == cells
    ensures var k := |ends| - 1;
            && Table(|a'|, start, ends[..k] + [e])
            && Lines(a', start, ends[..k] + [e], metas[..k] + [m], conts[..k] + [c])
               == AppendLine(Lines(a, start, ends, metas, conts), true, cells, m, c)
  {
    var k := |ends| - 1;
    EndBounds(|a|, start, ends);
    LinesFrame(a, a', start, ends, metas, conts);
    LinesExtend(a', start, ends, metas, conts, e, m, c);
    var L := Lines(a, start, ends, metas, conts);
    assert a'[ends[k]..e] == cells;
    assert AppendLine(L, true, cells, m, c) == L[..k] + [RawLine(L[k].cells + cells, m, c)];
  }

  lemma LinesAppendPush<M>(a: seq<Cell>, a': seq<Cell>, start: nat, ends: seq<nat>, metas: seq<M>, conts: seq<Cell>,
                           cells: seq<Cell>, m: M, c: Cell, e: nat)
    requires Table(|a|, start, ends) && |metas| == |ends| && |conts| == |ends|
    requires |a'| == |a| && e == End(start, ends) + |cells| <= |a|
    requires a'[..End(start, ends)] == a[..End(start, ends)] && a'[End(start, ends)..e] == cells
    ensures && Table(|a'|, start, ends + [e])
            && Lines(a', start, ends + [e], metas + [m], conts + [c])
               == AppendLine(Lines(a, start, ends, metas, conts), false, cells, m, c)
  {
    EndBounds(|a|, start, ends);
    LinesFrame(a, a', start, ends, metas, conts);
    LinesPush(a', start, ends, metas, conts, e, m, c);
    var L := Lines(a, start, ends, metas, conts);
    assert AppendLine(L, false, cells, m, c) == L + [RawLine(cells, m, c)];
  }

  /** The new count from the old one, the rows the old last line had and the spans of the new last line. */
  lemma CountAfterAppend<M>(lines: seq<RawLine<M>>, r: seq<RawLine<M>>, partial: bool, cells: seq<Cell>, m: M, c: Cell,
                            width: int, mayHaveDwc: bool, oldCount: nat, oldRows: nat, spans: nat)
    requires width >= 1 && r == AppendLine(lines, partial, cells, m, c)
    requires oldCount == TotalLines(lines, width, mayHaveDwc)
    requires oldRows == if partial && lines != [] then LineRowCount(lines[|lines| - 1], width, mayHaveDwc) else 0
    requires spans + 1 == LineRowCount(r[|r| - 1], width, mayHaveDwc)
    ensures oldRows <= oldCount && TotalLines(r, width, mayHaveDwc) == oldCount - oldRows + spans + 1
  {
    AppendCount(lines, partial, cells, m, c, width, mayHaveDwc);
  }

  /** The wrapped-line count after appendLine: the last line's count is replaced or added. */
  lemma AppendCount<M>(lines: seq<RawLine<M>>, partial: bool, cells: seq<Cell>, m: M, c: Cell,
                       width: int, mayHaveDwc: bool)
    requires width >= 1
    ensures var r := AppendLine(lines, partial, cells, m, c);
            TotalLines(r, width, mayHaveDwc)
              + (if partial && lines != [] then LineRowCount(lines[|lines| - 1], width, mayHaveDwc) else 0)
            == TotalLines(lines, width, mayHaveDwc) + LineRowCount(r[|r| - 1], width, mayHaveDwc)
  {
    var r := AppendLine(lines, partial, cells, m, c);
    if partial && lines != [] {
      assert r[..|r| - 1] == lines[..|lines| - 1];
    } else {
      assert r[..|r| - 1] == lines;
    }
  }

  /** memcpy of `src` into `dst` at offset `at`. */
  method CopyInto(dst: array<Cell>, at: nat, src: seq<Cell>)
    requires at + |src| <= dst.Length
    modifies dst
    ensures dst[..at] == old(dst[..at]) && dst[at..at + |src|] == src
    ensures dst[at + |src|..] == old(dst[at + |src|..])
  {
    forall j | 0 <= j < |src| {
      dst[at + j] := src[j];
    }
  }

  /** What popLastLineInto hands back. */
  datatype PoppedLine<M> = PoppedLine(cells: seq<Cell>, metadata: M, continuation: Cell)

  class LineBlock<M> {
    /** The raw buffer; its length is the block's capacity. */
    var buffer: array<Cell>
    /** Offset of the first live cell (cells before it were dropped). */
    var bufferStart: nat
    /** Cumulative end offset of every live raw line. */
    var ends: seq<nat>
    var metas: seq<M>
    var conts: seq<Cell>
    /** Number of raw lines dropped from the head so far. */
    var firstEntry: nat
    var isPartial: bool
    var mayHaveDwc: bool
    /** Width of the cached wrapped-line count, or -1 when there is none. */
    var cachedWidth: int
    var cachedNumLines: nat

    /** The raw lines the block holds, in order. */
    ghost var Contents: seq<RawLine<M>>

    /** rawSpaceUsed: the cells used, dropped ones included. */
    function RawSpaceUsed(): nat
      reads this`bufferStart, this`ends
    {
      End(bufferStart, ends)
    }

    /** The tables are consistent with each other and with the buffer. */
    ghost predicate Tables()
      reads this`bufferStart, this`ends, this`metas, this`conts, this`buffer
    {
      |metas| == |ends| && |conts| == |ends| && Table(buffer.Length, bufferStart, ends)
    }

    /** Raw line i as the buffer and the tables hold it. */
    ghost function LineAt(i: nat): RawLine<M>
      reads this`bufferStart, this`ends, this`metas, this`conts, this`buffer, buffer
      requires Tables() && i < |ends|
    {
      EndBounds(buffer.Length, bufferStart, ends);
      RawLine(buffer[Begin(bufferStart, ends, i)..ends[i]], metas[i], conts[i])
    }

    /** The buffer and the tables hold Contents. */
    ghost predicate Holds()
      reads this`bufferStart, this`ends, this`metas, this`conts, this`buffer, buffer, this`Contents
    {
      && Tables()
      && |Contents| == |ends|
      && (forall i {:trigger LineAt(i)} :: 0 <= i < |ends| ==> LineAt(i) == Contents[i])
    }

    /** The storage holds Contents; the cached count, if any, is right. */
    ghost predicate Valid()
      reads this`bufferStart, this`ends, this`metas, this`conts, this`buffer, buffer
      reads this`Contents, this`cachedWidth, this`cachedNumLines, this`mayHaveDwc
    {
      && Holds()
      && (cachedWidth >= 1 ==> cachedNumLines == TotalLines(Contents, cachedWidth, mayHaveDwc))
    }

    /** The lines the tables describe, as a value. */
    ghost function Stored(): seq<RawLine<M>>
      reads this`bufferStart, this`ends, this`metas, this`conts, this`buffer, buffer
      requires Tables()
    {
      Lines(buffer[..], bufferStart, ends, metas, conts)
    }

    /** A valid block holds exactly what the tables describe. */
    lemma ContentsStored()
      requires Holds()
      ensures Tables() && Contents == Stored()
    {
      forall k | 0 <= k < |Contents|
        ensures Contents[k] == Stored()[k]
      {
        assert LineAt(k) == Contents[k];
      }
    }

    /** rawSpaceUsed: the cells dropped from the head of the buffer together with every stored cell. */
    lemma UsedSpace()
      requires Holds()
      ensures RawSpaceUsed() == bufferStart + |Flatten(Contents)|
    {
      ContentsStored();
      LinesSize(buffer[..], bufferStart, ends, metas, conts);
    }

    /** Tables that describe Contents, with a right cached count if any, make a valid block. */
    lemma StoredContents()
      requires Tables() && Contents == Stored()
      ensures Holds()
    {
      forall i | 0 <= i < |ends|
        ensures LineAt(i) == Contents[i]
      {
        assert Contents[i] == LineOf(buffer[..], bufferStart, ends, metas, conts, i);
        EndBounds(buffer.Length, bufferStart, ends);
        assert buffer[..][Begin(bufferStart, ends, i)..ends[i]] == buffer[Begin(bufferStart, ends, i)..ends[i]];
      }
    }

    /** initWithRawBufferSize: an empty block of the given capacity. */
    constructor(size: nat)
      ensures Valid() && fresh(buffer)
      ensures buffer.Length == size && RawSpaceUsed() == 0
      ensures Contents == [] && !isPartial && !mayHaveDwc && firstEntry == 0
    {
      buffer := new Cell[size](_ => Null);
      bufferStart := 0;
      ends := [];
      metas := [];
      conts := [];
      firstEntry := 0;
      isPartial := false;
      mayHaveDwc := false;
      cachedWidth := -1;
      cachedNumLines := 0;
      Contents := [];
    }

    /** isEmpty: no raw lines. */
    function IsEmpty(): (r: bool)
      reads this, buffer
      requires Valid()
      ensures r <==> Contents == []
      ensures r ==> AllLinesEmpty(Contents)
    {
      |ends| == 0
    }

    /** hasPartial: the last line is not terminated by a hard newline. */
    function HasPartial(): (r: bool)
      reads this
      ensures r == isPartial
    {
      isPartial
    }

    /** hasCachedNumLinesForWidth: whether a count at `width` is cached, and then it is right. */
    function HasCachedNumLines(width: int): (r: bool)
      reads this, buffer
      requires Valid()
      ensures r && width >= 1 ==> cachedNumLines == TotalLines(Contents, width, mayHaveDwc)
    {
      cachedWidth == width
    }

    /** numRawLines: the raw lines the block holds. */
    function NumRawLines(): (r: nat)
      reads this, buffer
      requires Valid()
      ensures r == |Contents|
    {
      |ends|
    }

    /** numEntries: the raw lines held together with those dropped from the head. */
    function NumEntries(): (r: nat)
      reads this, buffer
      requires Valid()
      ensures r == firstEntry + |Contents|
    {
      firstEntry + |ends|
    }

    /** The cells of raw line i, read from the buffer. */
    lemma LineCells(i: nat)
      requires Holds() && i < |ends|
      ensures Begin(bufferStart, ends, i) <= ends[i] <= buffer.Length
      ensures buffer[Begin(bufferStart, ends, i)..ends[i]] == Contents[i].cells
      ensures metas[i] == Contents[i].metadata && conts[i] == Contents[i].continuation
    {
      EndBounds(buffer.Length, bufferStart, ends);
      assert LineAt(i) == Contents[i];
    }

    /** Length of raw line i. */
    function LineLength(i: nat): (r: nat)
      reads this, buffer
      requires Valid() && i < |ends|
      ensures r == |Contents[i].cells|
    {
      LineCells(i);
      ends[i] - Begin(bufferStart, ends, i)
    }

    /** numberOfFullLinesFromOffset for raw line i. */
    method LineSpans(i: nat, width: int) returns (spans: nat)
      requires Holds() && i < |ends| && width >= 1
      ensures spans == FullLines(Contents[i].cells, width, mayHaveDwc)
    {
      LineCells(i);
      var start := Begin(bufferStart, ends, i);
      assert buffer[start..start + (ends[i] - start)] == buffer[start..ends[i]];
      spans := NumberOfFullLines(buffer, start, ends[i] - start, width, mayHaveDwc);
    }

    /** Wrapped line n of raw line i, and the offset where it begins in that raw line. */
    method WrappedLineOf(i: nat, n: nat, width: int, spans: nat) returns (row: Row<M>, offset: nat)
      requires Valid() && i < |ends| && width >= 1
      requires spans == FullLines(Contents[i].cells, width, mayHaveDwc) && n <= spans
      ensures offset == SegmentStart(Contents[i].cells, n, width, mayHaveDwc)
      ensures n < |LineRows(Contents[i], isPartial && i == |ends| - 1, width, mayHaveDwc)|
      ensures row == LineRows(Contents[i], isPartial && i == |ends| - 1, width, mayHaveDwc)[n]
    {
      LineCells(i);
      var start := Begin(bufferStart, ends, i);
      assert buffer[start..start + (ends[i] - start)] == buffer[start..ends[i]];
      row, offset := RowAt(buffer, start, ends[i] - start, n, spans, width, mayHaveDwc,
                           isPartial && i == |ends| - 1, metas[i], conts[i], Contents[i]);
    }

    /** The wrapped-line count at `width`, summed raw line by raw line. */
    method CountLines(width: int) returns (n: nat)
      requires Valid() && width >= 1
      ensures n == TotalLines(Contents, width, mayHaveDwc)
    {
      n := 0;
      var i := 0;
      while i < |ends|
        invariant i <= |ends|
        invariant n == TotalLines(Contents[..i], width, mayHaveDwc)
      {
        var spans := LineSpans(i, width);
        TotalLinesStep(Contents, i, width, mayHaveDwc);
        n := n + spans + 1;
        i := i + 1;
      }
      assert Contents[..|Contents|] == Contents;
    }

    /** getNumLinesWithWrapWidth: the cached count when it is for `width`; otherwise count and cache. */
    method GetNumLines(width: int) returns (n: nat)
      requires Valid() && width >= 1
      modifies this`cachedWidth, this`cachedNumLines
      ensures Valid()
      ensures n == TotalLines(Contents, width, mayHaveDwc)
      ensures cachedWidth == width && cachedNumLines == n
    {
      if cachedWidth == width {
        return cachedNumLines;
      }
      n := CountLines(width);
      cachedWidth := width;
      cachedNumLines := n;
    }

    /**
     * getWrappedLineWithWrapWidth: walk the raw lines; a line with fewer
     * wrapped lines than are left to skip is passed over and the line number
     * decremented by its count; otherwise its n-th wrapped line is returned.
     */
    method GetWrappedLine(width: int, lineNum: nat) returns (r: Wrapped<M>)
      requires Valid() && width >= 1
      ensures r == Lookup(Contents, isPartial, width, mayHaveDwc, lineNum)
    {
      ghost var target := Lookup(Contents, isPartial, width, mayHaveDwc, lineNum);
      var n: nat := lineNum;
      var run: nat := 0;
      var i := 0;
      while i < |ends|
        invariant i <= |ends|
        invariant target == LookupFrom(Contents, isPartial, width, mayHaveDwc, i, n, run)
        decreases |ends| - i
      {
        var spans := LineSpans(i, width);
        if n <= spans {
          r := FoundAt(i, n, run, width, spans);
          return;
        }
        LookupSkip(Contents, isPartial, width, mayHaveDwc, i, n, run);
        var empty := LineLength(i) == 0;
        n := n - spans - 1;
        run := if empty then run + 1 else 0;
        i := i + 1;
      }
      r := NotFound(n);
    }

    /** The answer of a lookup that reaches wrapped line n of raw line i. */
    method FoundAt(i: nat, n: nat, run: nat, width: int, spans: nat) returns (r: Wrapped<M>)
      requires Valid() && i < |ends| && width >= 1
      requires spans == FullLines(Contents[i].cells, width, mayHaveDwc) && n <= spans
      ensures r == LookupFrom(Contents, isPartial, width, mayHaveDwc, i, n, run)
    {
      LookupAnswer(Contents, isPartial, width, mayHaveDwc, i, n, run);
      var row, offset := WrappedLineOf(i, n, width, spans);
      r := Found(row, i, offset, if n == 0 then run else 0);
    }

    /** allLinesAreEmpty: every raw line has length zero (true when there are none). */
    method AllLinesAreEmpty() returns (r: bool)
      requires Valid()
      ensures r == AllLinesEmpty(Contents)
    {
      var i := 0;
      while i < |ends|
        invariant i <= |ends|
        invariant forall j :: 0 <= j < i ==> Contents[j].cells == []
      {
        if LineLength(i) > 0 {
          return false;
        }
        i := i + 1;
      }
      return true;
    }

    /** containsAnyNonEmptyLine: some raw line holds a cell. */
    method ContainsAnyNonEmptyLine() returns (r: bool)
      requires Valid()
      ensures r <==> exists k :: 0 <= k < |Contents| && Contents[k].cells != []
    {
      var empty := AllLinesAreEmpty();
      r := !empty;
    }

    /** numberOfLeadingEmptyLines. */
    method NumberOfLeadingEmptyLines() returns (r: nat)
      requires Valid()
      ensures r == LeadingEmptyLines(Contents)
    {
      r := 0;
      while r < |ends| && LineLength(r) == 0
        invariant r <= |ends|
        invariant forall j :: 0 <= j < r ==> Contents[j].cells == []
      {
        r := r + 1;
      }
      LeadingUnique(Contents, r);
    }

    /** numberOfTrailingEmptyLines. */
    method NumberOfTrailingEmptyLines() returns (r: nat)
      requires Valid()
      ensures r == TrailingEmptyLines(Contents)
    {
      r := 0;
      while r < |ends| && LineLength(|ends| - 1 - r) == 0
        invariant r <= |ends|
        invariant forall j :: |Contents| - r <= j < |Contents| ==> Contents[j].cells == []
      {
        r := r + 1;
      }
      TrailingUnique(Contents, r);
    }

    // -------------------------------------------------------------------------
    // Changing the block

    /** Copy `cells` to `used`, the end of the last line, and extend or add the last table entry. */
    method Store(cells: seq<Cell>, used: nat, extend: bool, metadata: M, continuation: Cell)
      requires Tables() && used == RawSpaceUsed() && used + |cells| <= buffer.Length
      requires extend ==> ends != []
      modifies this`ends, this`metas, this`conts, buffer
      ensures Tables() && RawSpaceUsed() == used + |cells|
      ensures Stored() == AppendLine(old(Stored()), extend, cells, metadata, continuation)
    {
      ghost var before := buffer[..];
      ghost var ends0, metas0, conts0 := ends, metas, conts;
      ghost var lines := Stored();
      assert lines == Lines(before, bufferStart, ends0, metas0, conts0);
      var e: nat := used + |cells|;
      ends, metas, conts := AppendedEntries(ends, extend, e), AppendedEntries(metas, extend, metadata),
                            AppendedEntries(conts, extend, continuation);
      CopyInto(buffer, used, cells);
      LinesAppend(before, buffer[..], bufferStart, ends0, metas0, conts0, cells, extend, metadata, continuation,
                  e, ends, metas, conts);
    }

    /** `cells` stored after the last used cell, continuing a partial last raw line. */
    method AppendCells(cells: seq<Cell>, metadata: M, continuation: Cell)
      requires Holds() && |cells| <= buffer.Length - RawSpaceUsed()
      modifies this`ends, this`metas, this`conts, buffer, this`Contents
      ensures Holds() && RawSpaceUsed() == old(RawSpaceUsed()) + |cells|
      ensures Contents == AppendLine(old(Contents), isPartial, cells, metadata, continuation)
    {
      var extend := isPartial && ends != [];
      ContentsStored();
      ghost var lines := Contents;
      Store(cells, RawSpaceUsed(), extend, metadata, continuation);
      assert AppendLine(lines, isPartial, cells, metadata, continuation)
             == AppendLine(lines, extend, cells, metadata, continuation);
      Contents := AppendLine(lines, extend, cells, metadata, continuation);
      StoredContents();
    }

    /** AppendCells, with the cached count at `width` brought up to date. */
    method AppendCounted(cells: seq<Cell>, width: int, metadata: M, continuation: Cell)
      requires Valid() && cachedWidth >= 1 && width == cachedWidth
      requires |cells| <= buffer.Length - RawSpaceUsed()
      modifies this`ends, this`metas, this`conts, buffer, this`Contents, this`cachedWidth, this`cachedNumLines
      ensures Valid() && RawSpaceUsed() == old(RawSpaceUsed()) + |cells| && cachedWidth == width
      ensures Contents == AppendLine(old(Contents), isPartial, cells, metadata, continuation)
    {
      var oldCount := cachedNumLines;
      var oldRows := PartialRows(width);
      ghost var lines := Contents;
      AppendCells(cells, metadata, continuation);
      var spans := LastSpans(width);
      CountAfterAppend(lines, Contents, isPartial, cells, metadata, continuation, width, mayHaveDwc, oldCount, oldRows, spans);
      SetCache(width, oldCount - oldRows + spans + 1);
    }

    /** The wrapped lines of a partial last raw line, which an append continues; 0 when there is none. */
    method PartialRows(width: int) returns (rows: nat)
      requires Holds() && width >= 1
      ensures rows == if isPartial && Contents != [] then LineRowCount(Contents[|Contents| - 1], width, mayHaveDwc) else 0
    {
      rows := 0;
      if isPartial && ends != [] {
        var spans := LineSpans(|ends| - 1, width);
        rows := spans + 1;
      }
    }

    /** The wrapped lines of the last raw line, less one. */
    method LastSpans(width: int) returns (spans: nat)
      requires Holds() && ends != [] && width >= 1
      ensures spans + 1 == LineRowCount(Contents[|Contents| - 1], width, mayHaveDwc)
    {
      spans := LineSpans(|ends| - 1, width);
    }

    /** The cached count set to `count` lines at `width`. */
    method SetCache(width: int, count: nat)
      requires Holds() && width >= 1 && count == TotalLines(Contents, width, mayHaveDwc)
      modifies this`cachedWidth, this`cachedNumLines
      ensures Valid() && cachedWidth == width && cachedNumLines == count
    {
      cachedWidth, cachedNumLines := width, count;
    }

    /**
     * appendLine: store `cells` after the last used cell, continuing the last
     * raw line if the block ends partially, and record `partial` for the new
     * last line. It fails and changes nothing when the cells do not fit in the
     * space left after the last used cell. A cached count at `width` is
     * brought up to date; one at another width is dropped.
     */
    method Append(cells: seq<Cell>, partial: bool, width: int, metadata: M, continuation: Cell) returns (ok: bool)
      requires Valid()
      modifies this, buffer
      ensures Valid() && buffer == old(buffer) && mayHaveDwc == old(mayHaveDwc)
      ensures ok <==> |cells| <= old(buffer.Length - RawSpaceUsed())
      ensures ok ==> && Contents == AppendLine(old(Contents), old(isPartial), cells, metadata, continuation)
                     && isPartial == partial
                     && RawSpaceUsed() == old(RawSpaceUsed()) + |cells|
      ensures !ok ==> unchanged(this) && unchanged(buffer)
      ensures firstEntry == old(firstEntry) && bufferStart == old(bufferStart)
    {
      if |cells| > buffer.Length - RawSpaceUsed() {
        return false;
      }
      if cachedWidth >= 1 && width == cachedWidth {
        AppendCounted(cells, width, metadata, continuation);
      } else {
        cachedWidth := -1;
        AppendCells(cells, metadata, continuation);
      }
      isPartial := partial;
      ok := true;
    }

    /** The first i raw lines dropped whole: the block now starts where they ended. */
    method DropWholeLines(i: nat)
      requires Valid() && cachedWidth < 1 && i <= |ends|
      modifies this`bufferStart, this`ends, this`metas, this`conts, this`firstEntry, this`Contents
      ensures Valid() && Contents == old(Contents[i..])
      ensures bufferStart == old(Begin(bufferStart, ends, i)) && firstEntry == old(firstEntry) + i
      ensures RawSpaceUsed() == old(RawSpaceUsed())
    {
      ContentsStored();
      LinesDrop(buffer[..], bufferStart, ends, metas, conts, i);
      Contents := Contents[i..];
      bufferStart := Begin(bufferStart, ends, i);
      ends := ends[i..];
      metas := metas[i..];
      conts := conts[i..];
      firstEntry := firstEntry + i;
      StoredContents();
    }

    /** The first `off` cells of the first raw line dropped. */
    method AdvanceStart(off: nat)
      requires Valid() && cachedWidth < 1 && ends != [] && off <= |Contents[0].cells|
      modifies this`bufferStart, this`Contents
      ensures Valid() && bufferStart == old(bufferStart) + off
      ensures Contents == [old(Contents[0]).(cells := old(Contents[0].cells[off..]))] + old(Contents[1..])
      ensures RawSpaceUsed() == old(RawSpaceUsed())
    {
      ContentsStored();
      LineCells(0);
      LinesAdvance(buffer[..], bufferStart, ends, metas, conts, off);
      bufferStart := bufferStart + off;
      Contents := [Contents[0].(cells := Contents[0].cells[off..])] + Contents[1..];
      StoredContents();
    }

    /**
     * The scan of dropLines: the first i raw lines go whole, with their
     * dropped wrapped lines and cells; left wrapped lines remain to drop.
     */
    method ScanDrop(n: nat, width: int) returns (i: nat, left: nat, dropped: nat, chars: nat)
      requires Valid() && width >= 1
      ensures i <= |ends| && chars == Begin(bufferStart, ends, i) - bufferStart
      ensures i < |ends| ==> left <= FullLines(Contents[i].cells, width, mayHaveDwc)
      ensures var target := Layout.DropLines(Contents, n, width, mayHaveDwc);
              var t := Layout.DropLines(Contents[i..], left, width, mayHaveDwc);
              t.lines == target.lines && dropped + t.count == target.count && chars + t.chars == target.chars
    {
      ghost var target := Layout.DropLines(Contents, n, width, mayHaveDwc);
      left, i, dropped, chars := n, 0, 0, 0;
      while i < |ends|
        invariant i <= |ends|
        invariant chars == Begin(bufferStart, ends, i) - bufferStart
        invariant var t := Layout.DropLines(Contents[i..], left, width, mayHaveDwc);
                  t.lines == target.lines && dropped + t.count == target.count && chars + t.chars == target.chars
        decreases |ends| - i
      {
        var spans := LineSpans(i, width);
        if left <= spans {
          return;
        }
        var length := LineLength(i);
        LineCells(i);
        DropLinesWholeAt(Contents, i, left, width, mayHaveDwc);
        dropped, chars := dropped + spans + 1, chars + length;
        left := left - spans - 1;
        i := i + 1;
      }
    }

    /** The first n wrapped lines of the first raw line go, when it has that many. */
    method DropFront(n: nat, width: int) returns (dropped: nat, chars: nat)
      requires Valid() && cachedWidth < 1 && width >= 1
      requires ends != [] ==> n <= FullLines(Contents[0].cells, width, mayHaveDwc)
      modifies this`bufferStart, this`Contents
      ensures Valid() && RawSpaceUsed() == old(RawSpaceUsed()) && |ends| == old(|ends|)
      ensures var t := Layout.DropLines(old(Contents), n, width, mayHaveDwc);
              Contents == t.lines && dropped == t.count && chars == t.chars
    {
      if ends == [] {
        return 0, 0;
      }
      LineCells(0);
      var length := LineLength(0);
      DropLinesPart(Contents, n, width, mayHaveDwc);
      assert buffer[bufferStart..bufferStart + length] == Contents[0].cells;
      var off := OffsetOfWrappedLine(buffer, bufferStart, n, length, width, mayHaveDwc);
      AdvanceStart(off);
      dropped, chars := n, off;
    }

    /**
     * dropLines: drop n wrapped lines from the head. Raw lines whose wrapped
     * lines all fall within the count are dropped whole; the first one that
     * does not loses its leading wrapped lines and the walk stops. Returns the
     * number of wrapped lines and of cells dropped. The cached count is dropped.
     */
    method DropLines(n: nat, width: int) returns (dropped: nat, chars: nat)
      requires Valid() && width >= 1
      modifies this
      ensures Valid() && buffer == old(buffer)
      ensures var d := Layout.DropLines(old(Contents), n, width, old(mayHaveDwc));
              Contents == d.lines && dropped == d.count && chars == d.chars
      ensures isPartial == old(isPartial) && mayHaveDwc == old(mayHaveDwc)
      ensures RawSpaceUsed() == old(RawSpaceUsed())
      ensures firstEntry == old(firstEntry) + (old(|Contents|) - |Contents|)
    {
      var i, left, whole, wholeChars := ScanDrop(n, width);
      cachedWidth := -1;
      DropWholeLines(i);
      var part, partChars := DropFront(left, width);
      dropped, chars := whole + part, wholeChars + partChars;
    }

    /** The last raw line cut back to end at e. */
    method CutLast(off: nat)
      requires Valid() && cachedWidth < 1 && ends != [] && off <= |Contents[|Contents| - 1].cells|
      modifies this`ends, this`Contents
      ensures Valid() && |ends| == old(|ends|)
      ensures RawSpaceUsed() == old(Begin(bufferStart, ends, |ends| - 1)) + off
      ensures Contents == old(Contents[..|Contents| - 1] + [Contents[|Contents| - 1].(cells := Contents[|Contents| - 1].cells[..off])])
    {
      ContentsStored();
      var k := |ends| - 1;
      LineCells(k);
      var e := Begin(bufferStart, ends, k) + off;
      ghost var lines := Stored();
      LinesCut(buffer[..], bufferStart, ends, metas, conts, e);
      var ends' := ends[..k] + [e];
      ghost var cut := lines[..k] + [lines[k].(cells := lines[k].cells[..off])];
      assert Lines(buffer[..], bufferStart, ends', metas, conts) == cut;
      ends := ends';
      Contents := cut;
      StoredContents();
    }

    /** The last raw line removed; an emptied block starts over at the beginning of the buffer. */
    method RemoveLast() returns (popped: PoppedLine<M>)
      requires Valid() && cachedWidth < 1 && ends != []
      modifies this`ends, this`metas, this`conts, this`bufferStart, this`firstEntry, this`Contents
      ensures Valid() && Contents == old(Contents[..|Contents| - 1])
      ensures var last := old(Contents[|Contents| - 1]);
              popped == PoppedLine(last.cells, last.metadata, last.continuation)
      ensures ends == [] ==> bufferStart == 0 && firstEntry == 0 && RawSpaceUsed() == 0
      ensures ends != [] ==> && bufferStart == old(bufferStart) && firstEntry == old(firstEntry)
                             && RawSpaceUsed() == old(Begin(bufferStart, ends, |ends| - 1))
    {
      ContentsStored();
      var k := |ends| - 1;
      LineCells(k);
      popped := PoppedLine(buffer[Begin(bufferStart, ends, k)..ends[k]], metas[k], conts[k]);
      LinesPop(buffer[..], bufferStart, ends, metas, conts);
      Contents := Contents[..k];
      ends := ends[..k];
      metas := metas[..k];
      conts := conts[..k];
      if ends == [] {
        bufferStart := 0;
        firstEntry := 0;
      }
      StoredContents();
    }

    /** Where the last wrapped line of the last raw line starts, from the start of that raw line. */
    method LastWrappedStart(width: int) returns (off: nat)
      requires Valid() && width >= 1 && ends != []
      ensures var last := Contents[|Contents| - 1].cells;
              && off == SegmentStart(last, FullLines(last, width, mayHaveDwc), width, mayHaveDwc)
              && off <= |last|
    {
      var k := |ends| - 1;
      LineCells(k);
      var start := Begin(bufferStart, ends, k);
      var length := ends[k] - start;
      assert buffer[start..start + length] == Contents[k].cells;
      var spans := NumberOfFullLines(buffer, start, length, width, mayHaveDwc);
      DropSegments(Contents[k].cells, spans, width, mayHaveDwc);
      off := OffsetOfWrappedLine(buffer, start, spans, length, width, mayHaveDwc);
    }

    /** The last wrapped line of a last raw line longer than `width` popped off. */
    method PopWrapped(width: int) returns (popped: PoppedLine<M>)
      requires Valid() && cachedWidth < 1 && width >= 1 && ends != []
      requires |Contents[|Contents| - 1].cells| > width
      modifies this`ends, this`Contents
      ensures Valid()
      ensures var p := PopLast(old(Contents), width, mayHaveDwc).value;
              popped == PoppedLine(p.cells, p.metadata, p.continuation) && Contents == p.lines && p.partial
      ensures Contents != [] && RawSpaceUsed() + |popped.cells| == old(RawSpaceUsed())
    {
      var k := |ends| - 1;
      var off := LastWrappedStart(width);
      LineCells(k);
      var start := Begin(bufferStart, ends, k);
      ghost var last := Contents[k];
      PopLastCut(Contents, width, mayHaveDwc);
      assert buffer[start + off..ends[k]] == last.cells[off..];
      popped := PoppedLine(buffer[start + off..ends[k]], metas[k], conts[k]);
      CutLast(off);
    }

    /** A last raw line that fits `width` popped off whole. */
    method PopWhole(width: int) returns (popped: PoppedLine<M>)
      requires Valid() && cachedWidth < 1 && width >= 1 && ends != []
      requires |Contents[|Contents| - 1].cells| <= width
      modifies this`ends, this`metas, this`conts, this`bufferStart, this`firstEntry, this`Contents
      ensures Valid()
      ensures var p := PopLast(old(Contents), width, mayHaveDwc).value;
              popped == PoppedLine(p.cells, p.metadata, p.continuation) && Contents == p.lines && !p.partial
      ensures Contents == [] ==> bufferStart == 0 && firstEntry == 0 && RawSpaceUsed() == 0
      ensures Contents != [] ==> && bufferStart == old(bufferStart) && firstEntry == old(firstEntry)
                                 && RawSpaceUsed() + |popped.cells| == old(RawSpaceUsed())
    {
      LineCells(|ends| - 1);
      PopLastWhole(Contents, width, mayHaveDwc);
      popped := RemoveLast();
    }

    /**
     * popLastLineInto: fails on an empty block. A last raw line longer than
     * `width` loses its last wrapped line and the block ends partially;
     * otherwise the whole raw line is removed and the block ends with a hard
     * newline. The cached count is dropped.
     */
    method PopLastLine(width: int) returns (r: Option<PoppedLine<M>>)
      requires Valid() && width >= 1
      modifies this
      ensures Valid() && buffer == old(buffer) && mayHaveDwc == old(mayHaveDwc)
      ensures var p := PopLast(old(Contents), width, old(mayHaveDwc));
              && (p.None? ==> r.None? && unchanged(this))
              && (p.Some? ==> && r == Some(PoppedLine(p.value.cells, p.value.metadata, p.value.continuation))
                              && Contents == p.value.lines && isPartial == p.value.partial)
      ensures Contents != [] ==> firstEntry == old(firstEntry) && bufferStart == old(bufferStart)
      ensures r.Some? && Contents != [] ==> RawSpaceUsed() + |r.value.cells| == old(RawSpaceUsed())
      ensures old(Contents) != [] && Contents == [] ==> firstEntry == 0 && bufferStart == 0 && RawSpaceUsed() == 0
    {
      if ends == [] {
        return None;
      }
      cachedWidth := -1;
      var popped;
      if LineLength(|ends| - 1) > width {
        popped := PopWrapped(width);
        isPartial := true;
      } else {
        popped := PopWhole(width);
        isPartial := false;
      }
      r := Some(popped);
    }

    /** removeLastRawLine: the last raw line removed whole; the block then ends with a hard newline. */
    method RemoveLastRawLine()
      requires Valid()
      modifies this
      ensures Valid() && buffer == old(buffer) && mayHaveDwc == old(mayHaveDwc)
      ensures old(Contents) == [] ==> unchanged(this)
      ensures old(Contents) != [] ==> Contents == old(Contents[..|Contents| - 1]) && !isPartial
      ensures |old(Contents)| == 1 ==> RawSpaceUsed() == 0
      ensures |old(Contents)| > 1 ==> RawSpaceUsed() == old(RawSpaceUsed() - |Contents[|Contents| - 1].cells|)
      ensures |old(Contents)| == 1 ==> firstEntry == 0 && bufferStart == 0
      ensures |old(Contents)| > 1 ==> firstEntry == old(firstEntry) && bufferStart == old(bufferStart)
    {
      if ends == [] {
        return;
      }
      LineCells(|ends| - 1);
      cachedWidth := -1;
      var _ := RemoveLast();
      isPartial := false;
    }

    /** removeLastWrappedLines: popLastLineInto, k times. */
    method RemoveLastWrappedLines(k: nat, width: int)
      requires Valid() && width >= 1
      modifies this
      ensures Valid() && buffer == old(buffer) && mayHaveDwc == old(mayHaveDwc)
      ensures (Contents, isPartial) == RemoveLastWrapped(old(Contents), old(isPartial), k, width, mayHaveDwc)
      ensures Contents != [] ==> && firstEntry == old(firstEntry) && bufferStart == old(bufferStart)
                                 && RawSpaceUsed() + |Flatten(old(Contents))| == old(RawSpaceUsed()) + |Flatten(Contents)|
      ensures old(Contents) != [] && Contents == [] ==> firstEntry == 0 && bufferStart == 0 && RawSpaceUsed() == 0
    {
      UsedSpace();
      var i := 0;
      while i < k
        invariant i <= k && Valid() && buffer == old(buffer) && mayHaveDwc == old(mayHaveDwc)
        invariant RemoveLastWrapped(Contents, isPartial, k - i, width, mayHaveDwc)
                  == RemoveLastWrapped(old(Contents), old(isPartial), k, width, mayHaveDwc)
        invariant Contents != [] ==> firstEntry == old(firstEntry) && bufferStart == old(bufferStart)
        invariant old(Contents) != [] && Contents == [] ==> firstEntry == 0 && bufferStart == 0
      {
        var _ := PopLastLine(width);
        i := i + 1;
      }
      UsedSpace();
    }

    /**
     * changeBufferSize: move the block to a buffer of `capacity` cells, which
     * must hold every used cell.
     */
    method ChangeBufferSize(capacity: nat)
      requires Valid() && capacity >= RawSpaceUsed()
      modifies this
      ensures Valid() && fresh(buffer) && buffer.Length == capacity
      ensures Contents == old(Contents) && RawSpaceUsed() == old(RawSpaceUsed())
      ensures isPartial == old(isPartial) && mayHaveDwc == old(mayHaveDwc)
      ensures firstEntry == old(firstEntry) && bufferStart == old(bufferStart)
    {
      ContentsStored();
      var used := RawSpaceUsed();
      var grown := new Cell[capacity](_ => Null);
      CopyInto(grown, 0, buffer[..used]);
      assert grown[..used] == buffer[..][..used];
      LinesFrame(buffer[..], grown[..], bufferStart, ends, metas, conts);
      buffer := grown;
      StoredContents();
    }

    /** shrinkToFit: the capacity becomes the used space, so no nonempty append fits any more. */
    method ShrinkToFit()
      requires Valid()
      modifies this
      ensures Valid() && fresh(buffer) && buffer.Length == RawSpaceUsed()
      ensures Contents == old(Contents) && RawSpaceUsed() == old(RawSpaceUsed())
      ensures isPartial == old(isPartial) && mayHaveDwc == old(mayHaveDwc)
      ensures firstEntry == old(firstEntry) && bufferStart == old(bufferStart)
    {
      ChangeBufferSize(RawSpaceUsed());
    }

    /** setPartial. */
    method SetPartial(partial: bool)
      requires Valid()
      modifies this`isPartial
      ensures Valid() && isPartial == partial
    {
      isPartial := partial;
    }

    /**
     * setMayHaveDoubleWidthCharacter: once set the flag stays set; setting it
     * drops the cached count, which may change under the slower rule.
     */
    method SetMayHaveDwc(value: bool)
      requires Valid()
      modifies this`mayHaveDwc, this`cachedWidth
      ensures Valid() && mayHaveDwc == (old(mayHaveDwc) || value)
    {
      if !mayHaveDwc && value {
        mayHaveDwc := true;
        cachedWidth := -1;
      }
    }
  }
}
