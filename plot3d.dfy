/**
 * Reader for single-block Plot3D formatted ("P3Dfmt") two-dimensional grids.
 *
 * The file is given as a sequence of lines, each already stripped and split
 * on whitespace into tokens, so a blank line is the empty sequence.  Reading
 * past the last line yields a blank line, as `readline` does at end of file.
 * The layout is: the block count, then `idim jdim`, then `jdim` columns of
 * `idim` x-coordinates, then `jdim` columns of `idim` y-coordinates, where a
 * column may span several lines.
 */
module Plot3D {

  /** A coordinate; a 64-bit float in the source, only carried through here. */
  type Coord = real

  /** One token of a line, as the two number parsers the reader uses see it. */
  datatype Token =
    | IntText(n: int)      // accepted by int() and by float()
    | FloatText(v: Coord)  // accepted by float() only
    | OtherText            // rejected by both

  type Line = seq<Token>

  datatype Option<T> = None | Some(value: T)

  datatype Axis = X | Y

  datatype LoadError =
    | MissingBlockCount                  // first line blank or missing
    | BadBlockCount                      // first line is not one integer
    | WrongBlockCount(count: int)        // a block count other than 1
    | MissingDimensions                  // second line blank or missing
    | BadDimensions                      // second line is not two integers
    | NegativeDimension                  // the coordinate arrays cannot be allocated
    | UnexpectedEnd(axis: Axis, row: nat)  // blank line or end of input inside column row - 1
    | BadCoordinate(axis: Axis, row: nat)  // a token of column row - 1 that float() rejects

  /** The non-fatal diagnostic: column row - 1 had more than idim values. */
  datatype Warning = ExcessCoordinates(axis: Axis, row: nat)

  datatype Result<T> = Success(value: T) | Failure(error: LoadError)

  /** One structured block: x[i][j] and y[i][j] for 0 <= i < idim, 0 <= j < jdim. */
  datatype Grid = Grid(idim: nat, jdim: nat, x: seq<seq<Coord>>, y: seq<seq<Coord>>)
  {
    predicate WellFormed()
    {
      Shaped(x, idim, jdim) && Shaped(y, idim, jdim)
    }
  }

  predicate AllWellFormed(blocks: seq<Grid>)
  {
    forall b :: 0 <= b < |blocks| ==> blocks[b].WellFormed()
  }

  predicate Shaped(m: seq<seq<Coord>>, rows: nat, cols: nat)
  {
    |m| == rows && forall i :: 0 <= i < rows ==> |m[i]| == cols
  }

  lemma SameMatrix(m: seq<seq<Coord>>, m': seq<seq<Coord>>, rows: nat, cols: nat)
    requires Shaped(m, rows, cols) && Shaped(m', rows, cols)
    requires forall i, j :: 0 <= i < rows && 0 <= j < cols ==> m[i][j] == m'[i][j]
    ensures m == m'
  {
    assert forall i :: 0 <= i < rows ==> m[i] == m'[i];
  }

  lemma Associative<T>(a: seq<T>, b: seq<T>, c: seq<T>)
    ensures a + (b + c) == (a + b) + c
  {
  }

  function Last(s: seq<nat>): nat
    requires |s| > 0
  {
    s[|s| - 1]
  }

  // ---------------------------------------------------------------------
  // Reading lines and tokens
  // ---------------------------------------------------------------------

  /** The line `readline` returns at position pos: blank past the end. */
  function LineAt(lines: seq<Line>, pos: nat): Line
  {
    if pos < |lines| then lines[pos] else []
  }

  function FloatValue(t: Token): Coord
    requires !t.OtherText?
  {
    if t.IntText? then t.n as real else t.v
  }

  /** Every token of the line is a number. */
  predicate Numeric(line: Line)
  {
    forall k :: 0 <= k < |line| ==> !line[k].OtherText?
  }

  /** `list(map(float, line.split()))`: the value of each token, or None when any token is not a number. */
  function ParseFloats(line: Line): (r: Option<seq<Coord>>)
    ensures r.Some? <==> Numeric(line)
    ensures r.Some? ==> |r.value| == |line| && forall k :: 0 <= k < |line| ==> r.value[k] == FloatValue(line[k])
  {
    if Numeric(line) then Some(seq(|line|, k requires 0 <= k < |line| && Numeric(line) => FloatValue(line[k])))
    else None
  }

  /** The block count of the first line, `int(first_line)`. */
  function BlockCount(line: Line): (r: Result<int>)
    ensures r == Failure(MissingBlockCount) <==> line == []
    ensures r.Success? <==> |line| == 1 && line[0].IntText?
    ensures r.Success? ==> line == [IntText(r.value)]
  {
    if line == [] then Failure(MissingBlockCount)
    else if |line| == 1 && line[0].IntText? then Success(line[0].n)
    else Failure(BadBlockCount)
  }

  /** `idim, jdim` of the second line; a negative one fails at allocation. */
  function Dimensions(line: Line): (r: Result<(nat, nat)>)
    ensures r == Failure(MissingDimensions) <==> line == []
    ensures r.Success? <==> |line| == 2 && line[0].IntText? && line[1].IntText? && line[0].n >= 0 && line[1].n >= 0
    ensures r.Success? ==> line == [IntText(r.value.0), IntText(r.value.1)]
  {
    if line == [] then Failure(MissingDimensions)
    else if |line| == 2 && line[0].IntText? && line[1].IntText? then
      if line[0].n < 0 || line[1].n < 0 then Failure(NegativeDimension)
      else Success((line[0].n, line[1].n))
    else Failure(BadDimensions)
  }

  // ---------------------------------------------------------------------
  // Reference definitions over a range of lines [a, b)
  // ---------------------------------------------------------------------

  /** No line in [a, b) is blank. */
  predicate NoBlank(lines: seq<Line>, a: nat, b: nat)
  {
    forall k :: a <= k < b ==> LineAt(lines, k) != []
  }

  /** Every token of every line in [a, b) is a number. */
  predicate AllNumbers(lines: seq<Line>, a: nat, b: nat)
  {
    forall k :: a <= k < b ==> ParseFloats(LineAt(lines, k)).Some?
  }

  /** The number of tokens on the lines in [a, b). */
  function Count(lines: seq<Line>, a: nat, b: nat): nat
    requires a <= b
    decreases b - a
  {
    if a == b then 0 else |LineAt(lines, a)| + Count(lines, a + 1, b)
  }

  /** The values of the lines in [a, b), in reading order. */
  function Values(lines: seq<Line>, a: nat, b: nat): (v: seq<Coord>)
    requires a <= b && AllNumbers(lines, a, b)
    ensures |v| == Count(lines, a, b)
    decreases b - a
  {
    if a == b then [] else ParseFloats(LineAt(lines, a)).value + Values(lines, a + 1, b)
  }

  /** The first blank line at or after pos (end of input counts as blank). */
  function RunEnd(lines: seq<Line>, pos: nat): (e: nat)
    ensures pos <= e && LineAt(lines, e) == [] && NoBlank(lines, pos, e)
    decreases |lines| - pos
  {
    if LineAt(lines, pos) == [] then pos else RunEnd(lines, pos + 1)
  }

  // ---------------------------------------------------------------------
  // Column accumulation
  // ---------------------------------------------------------------------

  /**
   * The inner `while len(values) < idim` loop: starting at line pos with the
   * values acc already collected, add the values of whole lines until at
   * least need have been collected.  The result is the collected values and
   * the position of the next unread line.
   */
  function Gather(lines: seq<Line>, pos: nat, acc: seq<Coord>, need: nat, axis: Axis, row: nat)
    : (r: Result<(seq<Coord>, nat)>)
    ensures r.Success? ==> |r.value.0| >= need && pos <= r.value.1
    ensures r.Failure? ==> r.error == UnexpectedEnd(axis, row) || r.error == BadCoordinate(axis, row)
    decreases |lines| - pos
  {
    if |acc| >= need then Success((acc, pos))
    else
      var line := LineAt(lines, pos);
      if line == [] then Failure(UnexpectedEnd(axis, row))
      else match ParseFloats(line)
        case None => Failure(BadCoordinate(axis, row))
        case Some(vs) => Gather(lines, pos + 1, acc + vs, need, axis, row)
  }

  /** Prefixing a non-blank line of numbers to a run of lines [pos + 1, p). */
  lemma RunStep(lines: seq<Line>, pos: nat, p: nat)
    requires pos < p && LineAt(lines, pos) != [] && ParseFloats(LineAt(lines, pos)).Some?
    requires NoBlank(lines, pos + 1, p) && AllNumbers(lines, pos + 1, p)
    ensures NoBlank(lines, pos, p) && AllNumbers(lines, pos, p)
    ensures Values(lines, pos, p) == ParseFloats(LineAt(lines, pos)).value + Values(lines, pos + 1, p)
  {
  }

  /** When Gather succeeds, it has read exactly the shortest run of non-blank lines that holds need values. */
  lemma {:induction false} GatherSuccess(lines: seq<Line>, pos: nat, acc: seq<Coord>, need: nat,
                                         axis: Axis, row: nat, vals: seq<Coord>, p: nat)
    requires Gather(lines, pos, acc, need, axis, row) == Success((vals, p))
    ensures pos <= p && NoBlank(lines, pos, p) && AllNumbers(lines, pos, p)
    ensures vals == acc + Values(lines, pos, p)
    ensures |vals| == |acc| + Count(lines, pos, p) >= need
    ensures pos < p ==> |acc| + Count(lines, pos, p - 1) < need
    decreases |lines| - pos
  {
    if |acc| < need {
      var line := LineAt(lines, pos);
      assert line != [] && ParseFloats(line).Some?;
      var vs := ParseFloats(line).value;
      assert Gather(lines, pos, acc, need, axis, row) == Gather(lines, pos + 1, acc + vs, need, axis, row);
      GatherSuccess(lines, pos + 1, acc + vs, need, axis, row, vals, p);
      RunStep(lines, pos, p);
      Associative(acc, vs, Values(lines, pos + 1, p));
      assert Count(lines, pos, p) == |vs| + Count(lines, pos + 1, p);
      if pos + 1 < p {
        assert Count(lines, pos, p - 1) == |vs| + Count(lines, pos + 1, p - 1);
      }
    }
  }

  /**
   * Conversely, when the lines [pos, b) are the shortest run of non-blank,
   * all-numeric lines that brings the values to at least need, Gather
   * succeeds with exactly their values and stops at b.
   */
  lemma {:induction false} GatherSucceeds(lines: seq<Line>, pos: nat, acc: seq<Coord>, need: nat,
                                          axis: Axis, row: nat, b: nat)
    requires pos <= b && NoBlank(lines, pos, b) && AllNumbers(lines, pos, b)
    requires |acc| + Count(lines, pos, b) >= need
    requires pos < b ==> |acc| + Count(lines, pos, b - 1) < need
    ensures Gather(lines, pos, acc, need, axis, row) == Success((acc + Values(lines, pos, b), b))
    decreases b - pos
  {
    if pos == b {
      assert acc + [] == acc;
    } else {
      var vs := ParseFloats(LineAt(lines, pos)).value;
      assert Count(lines, pos, b) == |vs| + Count(lines, pos + 1, b);
      if pos + 1 < b {
        assert Count(lines, pos, b - 1) == |vs| + Count(lines, pos + 1, b - 1);
      }
      GatherSucceeds(lines, pos + 1, acc + vs, need, axis, row, b);
      Associative(acc, vs, Values(lines, pos + 1, b));
    }
  }

  /**
   * Gather stops at a blank line or at end of input exactly when the run of
   * non-blank lines from pos holds only numbers, and too few of them.
   */
  lemma {:induction false} GatherEnd(lines: seq<Line>, pos: nat, acc: seq<Coord>, need: nat, axis: Axis, row: nat)
    ensures Gather(lines, pos, acc, need, axis, row) == Failure(UnexpectedEnd(axis, row))
        <==> AllNumbers(lines, pos, RunEnd(lines, pos)) && |acc| + Count(lines, pos, RunEnd(lines, pos)) < need
    decreases |lines| - pos
  {
    var e := RunEnd(lines, pos);
    var line := LineAt(lines, pos);
    if |acc| >= need {
    } else if line == [] {
      assert e == pos;
    } else if ParseFloats(line).None? {
      assert pos < e;
      assert !AllNumbers(lines, pos, e);
    } else {
      var vs := ParseFloats(line).value;
      GatherEnd(lines, pos + 1, acc + vs, need, axis, row);
      assert e == RunEnd(lines, pos + 1);
      assert Count(lines, pos, e) == |line| + Count(lines, pos + 1, e);
      assert AllNumbers(lines, pos, e) <==> AllNumbers(lines, pos + 1, e);
    }
  }

  // ---------------------------------------------------------------------
  // Reading jdim columns
  // ---------------------------------------------------------------------

  /**
   * The columns read so far: each truncated to idim values, the warnings
   * issued, and the line positions where the columns start and end
   * (column j occupies lines [bounds[j], bounds[j + 1])).
   */
  datatype ColumnsRead = ColumnsRead(cols: seq<seq<Coord>>, warnings: seq<Warning>, bounds: seq<nat>)

  /** The warning for a column that gathered more than idim coordinates: those beyond idim are dropped. */
  function Excess(vals: seq<Coord>, idim: nat, axis: Axis, row: nat): (w: seq<Warning>)
    ensures |vals| > idim <==> w == [ExcessCoordinates(axis, row)]
    ensures |vals| <= idim <==> w == []
  {
    if |vals| > idim then [ExcessCoordinates(axis, row)] else []
  }

  /** The `for j in range(n)` loop that reads n columns starting at line start. */
  function ReadColumns(lines: seq<Line>, start: nat, idim: nat, n: nat, axis: Axis): (r: Result<ColumnsRead>)
    ensures r.Success? ==> |r.value.cols| == n && |r.value.bounds| == n + 1 && r.value.bounds[0] == start
    ensures r.Failure? ==> (r.error.UnexpectedEnd? || r.error.BadCoordinate?) &&
                           r.error.axis == axis && 1 <= r.error.row <= n
    decreases n
  {
    if n == 0 then Success(ColumnsRead([], [], [start]))
    else match ReadColumns(lines, start, idim, n - 1, axis)
      case Failure(e) => Failure(e)
      case Success(c) =>
        match Gather(lines, Last(c.bounds), [], idim, axis, n)
        case Failure(e) => Failure(e)
        case Success((vals, p)) =>
          Success(ColumnsRead(c.cols + [vals[..idim]], c.warnings + Excess(vals, idim, axis, n), c.bounds + [p]))
  }

  /** Every column read holds exactly idim coordinates. */
  lemma {:induction false} ColumnLengths(lines: seq<Line>, start: nat, idim: nat, n: nat, axis: Axis, c: ColumnsRead)
    requires ReadColumns(lines, start, idim, n, axis) == Success(c)
    ensures forall j :: 0 <= j < n ==> |c.cols[j]| == idim
  {
    if n > 0 {
      var prev := ReadColumns(lines, start, idim, n - 1, axis).value;
      ColumnLengths(lines, start, idim, n - 1, axis, prev);
    }
  }

  /** Reading column n adds at most one warning, and that one names row n. */
  lemma WarningsStep(lines: seq<Line>, start: nat, idim: nat, n: nat, axis: Axis, c: ColumnsRead)
    returns (prev: ColumnsRead, extra: seq<Warning>)
    requires n > 0 && ReadColumns(lines, start, idim, n, axis) == Success(c)
    ensures ReadColumns(lines, start, idim, n - 1, axis) == Success(prev)
    ensures c.warnings == prev.warnings + extra
    ensures |extra| <= 1 && forall k :: 0 <= k < |extra| ==> extra[k].axis == axis && extra[k].row == n
  {
    prev := ReadColumns(lines, start, idim, n - 1, axis).value;
    var (vals, p) := Gather(lines, Last(prev.bounds), [], idim, axis, n).value;
    extra := Excess(vals, idim, axis, n);
  }

  /**
   * Appending at most one warning, for row n of this axis, to warnings of this
   * axis whose rows lie in 1..n - 1 and strictly increase keeps them so, with n
   * as the new upper bound.
   */
  lemma AppendRow(ws: seq<Warning>, extra: seq<Warning>, axis: Axis, n: nat, all: seq<Warning>)
    requires 1 <= n
    requires forall k :: 0 <= k < |ws| ==> ws[k].axis == axis && 1 <= ws[k].row <= n - 1
    requires forall k, l :: 0 <= k < l < |ws| ==> ws[k].row < ws[l].row
    requires |extra| <= 1 && forall k :: 0 <= k < |extra| ==> extra[k].axis == axis && extra[k].row == n
    requires all == ws + extra
    ensures forall k :: 0 <= k < |all| ==> all[k].axis == axis && 1 <= all[k].row <= n
    ensures forall k, l :: 0 <= k < l < |all| ==> all[k].row < all[l].row
  {
    forall k | |ws| <= k < |all|
      ensures all[k] == extra[k - |ws|]
    {
    }
  }

  /**
   * Every warning of a successful read of n columns is about this axis and names
   * a row in 1..n, and the rows strictly increase: warnings come in column order,
   * at most one per column.
   */
  lemma {:induction false} WarningRows(lines: seq<Line>, start: nat, idim: nat, n: nat, axis: Axis, c: ColumnsRead)
    requires ReadColumns(lines, start, idim, n, axis) == Success(c)
    ensures forall k :: 0 <= k < |c.warnings| ==> c.warnings[k].axis == axis && 1 <= c.warnings[k].row <= n
    ensures forall k, l :: 0 <= k < l < |c.warnings| ==> c.warnings[k].row < c.warnings[l].row
    decreases n
  {
    if n > 0 {
      var prev, extra := WarningsStep(lines, start, idim, n, axis, c);
      WarningRows(lines, start, idim, n - 1, axis, prev);
      AppendRow(prev.warnings, extra, axis, n, c.warnings);
    }
  }

  /** Once reading a column fails, reading more columns fails with the same error. */
  lemma {:induction false} ColumnsFailurePersists(lines: seq<Line>, start: nat, idim: nat, k: nat, m: nat, axis: Axis)
    requires k <= m && ReadColumns(lines, start, idim, k, axis).Failure?
    ensures ReadColumns(lines, start, idim, m, axis) == ReadColumns(lines, start, idim, k, axis)
    decreases m - k
  {
    if k < m {
      ColumnsFailurePersists(lines, start, idim, k, m - 1, axis);
    }
  }

  /**
   * Column col was read from lines [a, b): the shortest run of non-blank
   * lines from a that holds at least need values, all of them numbers, and
   * col is the first need of those values.
   */
  predicate ColumnSpan(lines: seq<Line>, a: nat, b: nat, need: nat, col: seq<Coord>)
  {
    a <= b && NoBlank(lines, a, b) && AllNumbers(lines, a, b) &&
    Count(lines, a, b) >= need && (a < b ==> Count(lines, a, b - 1) < need) &&
    col == Values(lines, a, b)[..need]
  }

  /**
   * What a successful read of n columns holds: column j is the first idim
   * values of the shortest run of non-blank lines, from where column j - 1
   * ended, that holds at least idim values; a warning names row j + 1 exactly
   * when that run held more than idim values.
   */
  lemma ColumnsSpans(lines: seq<Line>, start: nat, idim: nat, n: nat, axis: Axis, c: ColumnsRead)
    requires ReadColumns(lines, start, idim, n, axis) == Success(c)
    ensures forall j :: 0 <= j < n ==>
      ColumnSpan(lines, c.bounds[j], c.bounds[j + 1], idim, c.cols[j]) &&
      (ExcessCoordinates(axis, j + 1) in c.warnings <==> Count(lines, c.bounds[j], c.bounds[j + 1]) > idim)
  {
    forall j | 0 <= j < n
      ensures ColumnSpan(lines, c.bounds[j], c.bounds[j + 1], idim, c.cols[j])
      ensures ExcessCoordinates(axis, j + 1) in c.warnings <==> Count(lines, c.bounds[j], c.bounds[j + 1]) > idim
    {
      ColumnSpanAt(lines, start, idim, n, axis, c, j);
    }
  }

  /** Column j of a successful read of n columns, as ColumnsSpans states it. */
  lemma {:induction false} ColumnSpanAt(lines: seq<Line>, start: nat, idim: nat, n: nat, axis: Axis, c: ColumnsRead, j: nat)
    requires ReadColumns(lines, start, idim, n, axis) == Success(c) && j < n
    ensures ColumnSpan(lines, c.bounds[j], c.bounds[j + 1], idim, c.cols[j])
    ensures ExcessCoordinates(axis, j + 1) in c.warnings <==> Count(lines, c.bounds[j], c.bounds[j + 1]) > idim
    decreases n
  {
    if j + 1 == n {
      LastColumnSpan(lines, start, idim, j, axis, c);
    } else {
      var prev := ColumnsDropLast(lines, start, idim, n, axis, c, j);
      ColumnSpanAt(lines, start, idim, n - 1, axis, prev, j);
    }
  }

  /** Dropping the last of n columns keeps column j < n - 1, its bounds and its warning. */
  lemma ColumnsDropLast(lines: seq<Line>, start: nat, idim: nat, n: nat, axis: Axis, c: ColumnsRead, j: nat)
    returns (prev: ColumnsRead)
    requires ReadColumns(lines, start, idim, n, axis) == Success(c) && j + 1 < n
    ensures ReadColumns(lines, start, idim, n - 1, axis) == Success(prev)
    ensures c.cols[j] == prev.cols[j] && c.bounds[j] == prev.bounds[j] && c.bounds[j + 1] == prev.bounds[j + 1]
    ensures ExcessCoordinates(axis, j + 1) in c.warnings <==> ExcessCoordinates(axis, j + 1) in prev.warnings
  {
    prev := ReadColumns(lines, start, idim, n - 1, axis).value;
  }

  /** The last column of a read that stopped after column j. */
  lemma LastColumnSpan(lines: seq<Line>, start: nat, idim: nat, j: nat, axis: Axis, c: ColumnsRead)
    requires ReadColumns(lines, start, idim, j + 1, axis) == Success(c)
    ensures ColumnSpan(lines, c.bounds[j], c.bounds[j + 1], idim, c.cols[j])
    ensures ExcessCoordinates(axis, j + 1) in c.warnings <==> Count(lines, c.bounds[j], c.bounds[j + 1]) > idim
  {
    var prev := ReadColumns(lines, start, idim, j, axis).value;
    var a := Last(prev.bounds);
    var (vals, p) := Gather(lines, a, [], idim, axis, j + 1).value;
    GatherSpan(lines, a, idim, axis, j + 1, vals, p);
    WarningRows(lines, start, idim, j, axis, prev);
    assert ExcessCoordinates(axis, j + 1) !in prev.warnings;
  }

  /** A column gathered from line pos occupies lines [pos, p) in the sense of ColumnSpan. */
  lemma GatherSpan(lines: seq<Line>, pos: nat, need: nat, axis: Axis, row: nat, vals: seq<Coord>, p: nat)
    requires Gather(lines, pos, [], need, axis, row) == Success((vals, p))
    ensures ColumnSpan(lines, pos, p, need, vals[..need])
    ensures |vals| == Count(lines, pos, p)
  {
    GatherSuccess(lines, pos, [], need, axis, row, vals, p);
    assert [] + Values(lines, pos, p) == Values(lines, pos, p);
  }

  /** Conversely to GatherSpan: the lines of a span are gathered into their values, and they exceed need exactly when Count does. */
  lemma SpanGathers(lines: seq<Line>, a: nat, b: nat, need: nat, axis: Axis, row: nat, col: seq<Coord>)
    returns (vals: seq<Coord>)
    requires ColumnSpan(lines, a, b, need, col)
    ensures Gather(lines, a, [], need, axis, row) == Success((vals, b))
    ensures |vals| >= need && vals[..need] == col
    ensures Excess(vals, need, axis, row) == if Count(lines, a, b) > need then [ExcessCoordinates(axis, row)] else []
  {
    vals := Values(lines, a, b);
    GatherSucceeds(lines, a, [], need, axis, row, b);
    assert [] + vals == vals;
  }

  /** Reading column j after j columns were read, when gathering it succeeds: the read extended by that column. */
  lemma ColumnsExtend(lines: seq<Line>, start: nat, idim: nat, j: nat, axis: Axis, c: ColumnsRead,
                      vals: seq<Coord>, p: nat)
    requires ReadColumns(lines, start, idim, j, axis) == Success(c)
    requires Gather(lines, Last(c.bounds), [], idim, axis, j + 1) == Success((vals, p))
    ensures |vals| >= idim
    ensures ReadColumns(lines, start, idim, j + 1, axis) ==
      Success(ColumnsRead(c.cols + [vals[..idim]], c.warnings + Excess(vals, idim, axis, j + 1), c.bounds + [p]))
  {
  }

  /**
   * Conversely to ColumnSpanAt: when column j + 1's lines from where column j
   * ended form the span of col, the read goes on with col, that end line and
   * a warning exactly when the lines held more than idim values.
   */
  lemma ColumnsAdvance(lines: seq<Line>, start: nat, idim: nat, j: nat, axis: Axis, c: ColumnsRead,
                       b: nat, col: seq<Coord>)
    requires ReadColumns(lines, start, idim, j, axis) == Success(c)
    requires ColumnSpan(lines, Last(c.bounds), b, idim, col)
    ensures ReadColumns(lines, start, idim, j + 1, axis) ==
      Success(ColumnsRead(c.cols + [col],
                          c.warnings + (if Count(lines, Last(c.bounds), b) > idim then [ExcessCoordinates(axis, j + 1)] else []),
                          c.bounds + [b]))
  {
    var vals := SpanGathers(lines, Last(c.bounds), b, idim, axis, j + 1, col);
    ColumnsExtend(lines, start, idim, j, axis, c, vals, b);
  }

  /** Reading column j after j columns were read, when gathering it fails: all later reads fail too. */
  lemma ColumnsBreak(lines: seq<Line>, start: nat, idim: nat, j: nat, n: nat, axis: Axis, c: ColumnsRead, e: LoadError)
    requires j < n && ReadColumns(lines, start, idim, j, axis) == Success(c)
    requires Gather(lines, Last(c.bounds), [], idim, axis, j + 1) == Failure(e)
    ensures ReadColumns(lines, start, idim, n, axis) == Failure(e)
  {
    assert ReadColumns(lines, start, idim, j + 1, axis) == Failure(e);
    ColumnsFailurePersists(lines, start, idim, j + 1, n, axis);
  }

  /**
   * A read that stops at a blank line or at end of input names the row it
   * stopped in: every earlier column was read, and the run of non-blank
   * lines left for this one held only numbers, but fewer than idim.
   */
  lemma {:induction false} ColumnsUnexpectedEnd(lines: seq<Line>, start: nat, idim: nat, n: nat, axis: Axis, e: LoadError)
    requires ReadColumns(lines, start, idim, n, axis) == Failure(e) && e.UnexpectedEnd?
    ensures e.axis == axis && 1 <= e.row <= n
    ensures var prev := ReadColumns(lines, start, idim, e.row - 1, axis);
      prev.Success? &&
      var p := Last(prev.value.bounds);
      AllNumbers(lines, p, RunEnd(lines, p)) && Count(lines, p, RunEnd(lines, p)) < idim
    decreases n
  {
    var before := ReadColumns(lines, start, idim, n - 1, axis);
    if before.Failure? {
      ColumnsUnexpectedEnd(lines, start, idim, n - 1, axis, e);
    } else {
      var p := Last(before.value.bounds);
      assert Gather(lines, p, [], idim, axis, n) == Failure(UnexpectedEnd(axis, n));
      GatherEnd(lines, p, [], idim, axis, n);
    }
  }

  /**
   * Conversely, when the columns before row j + 1 were read and the run of
   * non-blank lines that follows is all numbers but too short, reading any
   * number of columns beyond j fails naming row j + 1.
   */
  lemma ColumnsStopAt(lines: seq<Line>, start: nat, idim: nat, j: nat, n: nat, axis: Axis)
    requires j < n
    requires ReadColumns(lines, start, idim, j, axis).Success?
    requires var p := Last(ReadColumns(lines, start, idim, j, axis).value.bounds);
      AllNumbers(lines, p, RunEnd(lines, p)) && Count(lines, p, RunEnd(lines, p)) < idim
    ensures ReadColumns(lines, start, idim, n, axis) == Failure(UnexpectedEnd(axis, j + 1))
  {
    var p := Last(ReadColumns(lines, start, idim, j, axis).value.bounds);
    GatherEnd(lines, p, [], idim, axis, j + 1);
    ColumnsFailurePersists(lines, start, idim, j + 1, n, axis);
  }

  // ---------------------------------------------------------------------
  // The whole file
  // ---------------------------------------------------------------------

  function FromColumns(cols: seq<seq<Coord>>, rows: nat): (m: seq<seq<Coord>>)
    requires forall j :: 0 <= j < |cols| ==> |cols[j]| == rows
    ensures Shaped(m, rows, |cols|)
    ensures forall i, j :: 0 <= i < rows && 0 <= j < |cols| ==> m[i][j] == cols[j][i]
  {
    seq(rows, i requires 0 <= i < rows => seq(|cols|, j requires 0 <= j < |cols| => cols[j][i]))
  }

  datatype Loaded = Loaded(grid: Grid, warnings: seq<Warning>)

  /** What `P3DfmtFile.load` makes of a file: one grid and its warnings, or the fatal error. */
  function Parse(lines: seq<Line>): (r: Result<Loaded>)
    ensures LineAt(lines, 0) == [] ==> r == Failure(MissingBlockCount)
    ensures var first := LineAt(lines, 0);
      |first| == 1 && first[0].IntText? && first[0].n != 1 ==> r == Failure(WrongBlockCount(first[0].n))
    ensures LineAt(lines, 0) == [IntText(1)] && LineAt(lines, 1) == [] ==> r == Failure(MissingDimensions)
    ensures r.Success? ==>
      var g := r.value.grid;
      LineAt(lines, 0) == [IntText(1)] &&
      LineAt(lines, 1) == [IntText(g.idim), IntText(g.jdim)] &&
      g.WellFormed()
  {
    match BlockCount(LineAt(lines, 0))
    case Failure(e) => Failure(e)
    case Success(count) =>
      if count != 1 then Failure(WrongBlockCount(count))
      else match Dimensions(LineAt(lines, 1))
        case Failure(e) => Failure(e)
        case Success((idim, jdim)) =>
          match ReadColumns(lines, 2, idim, jdim, X)
          case Failure(e) => Failure(e)
          case Success(xs) =>
            match ReadColumns(lines, Last(xs.bounds), idim, jdim, Y)
            case Failure(e) => Failure(e)
            case Success(ys) =>
              ColumnLengths(lines, 2, idim, jdim, X, xs);
              ColumnLengths(lines, Last(xs.bounds), idim, jdim, Y, ys);
              var g := Grid(idim, jdim, FromColumns(xs.cols, idim), FromColumns(ys.cols, idim));
              Success(Loaded(g, xs.warnings + ys.warnings))
  }

  /**
   * A loaded grid stores column j of the x-columns, read from line 2 on, as
   * x[.][j], and column j of the y-columns, read from where the x-columns
   * ended, as y[.][j]; the warnings are those of the x-columns, then those of
   * the y-columns.
   */
  lemma ParseColumns(lines: seq<Line>, ld: Loaded)
    requires Parse(lines) == Success(ld)
    ensures var g := ld.grid;
      var xs := ReadColumns(lines, 2, g.idim, g.jdim, X);
      xs.Success? &&
      var ys := ReadColumns(lines, Last(xs.value.bounds), g.idim, g.jdim, Y);
      ys.Success? &&
      ld.warnings == xs.value.warnings + ys.value.warnings &&
      (forall j :: 0 <= j < g.jdim ==> |xs.value.cols[j]| == g.idim && |ys.value.cols[j]| == g.idim) &&
      forall i, j :: 0 <= i < g.idim && 0 <= j < g.jdim ==>
        g.x[i][j] == xs.value.cols[j][i] && g.y[i][j] == ys.value.cols[j][i]
  {
    var g := ld.grid;
    var xs := ReadColumns(lines, 2, g.idim, g.jdim, X).value;
    ColumnLengths(lines, 2, g.idim, g.jdim, X, xs);
    var ys := ReadColumns(lines, Last(xs.bounds), g.idim, g.jdim, Y).value;
    ColumnLengths(lines, Last(xs.bounds), g.idim, g.jdim, Y, ys);
  }

  /** A file with a good header whose x-columns and then y-columns read successfully loads, with their warnings. */
  lemma ParseLoads(lines: seq<Line>, idim: nat, jdim: nat, xs: ColumnsRead, ys: ColumnsRead)
    requires LineAt(lines, 0) == [IntText(1)] && LineAt(lines, 1) == [IntText(idim), IntText(jdim)]
    requires ReadColumns(lines, 2, idim, jdim, X) == Success(xs)
    requires ReadColumns(lines, Last(xs.bounds), idim, jdim, Y) == Success(ys)
    ensures Parse(lines).Success?
    ensures Parse(lines).value.grid.idim == idim && Parse(lines).value.grid.jdim == jdim
    ensures Parse(lines).value.warnings == xs.warnings + ys.warnings
  {
  }

  /** After a good header, an error reading the x-columns, or then the y-columns, is the error of the load. */
  lemma ParseColumnError(lines: seq<Line>, idim: nat, jdim: nat, e: LoadError)
    requires LineAt(lines, 0) == [IntText(1)] && LineAt(lines, 1) == [IntText(idim), IntText(jdim)]
    requires var xs := ReadColumns(lines, 2, idim, jdim, X);
      xs == Failure(e) || (xs.Success? && ReadColumns(lines, Last(xs.value.bounds), idim, jdim, Y) == Failure(e))
    ensures Parse(lines) == Failure(e)
  {
  }

  /** A file of one 2-by-1 grid whose single x-column line holds one value too many. */
  function ExampleLines(): seq<Line>
  {
    [[IntText(1)], [IntText(2), IntText(1)], [IntText(5), IntText(6), IntText(7)], [IntText(8), IntText(9)]]
  }

  /** Its x-column keeps the first two values of line 2, and row 1 is warned about. */
  lemma ExampleX()
    ensures ReadColumns(ExampleLines(), 2, 2, 1, X) == Success(ColumnsRead([[5.0, 6.0]], [ExcessCoordinates(X, 1)], [2, 3]))
  {
    var lines := ExampleLines();
    assert Values(lines, 2, 3) == [5.0, 6.0, 7.0];
    assert Count(lines, 2, 3) == 3;
    assert ReadColumns(lines, 2, 2, 0, X) == Success(ColumnsRead([], [], [2]));
    assert Last([2]) == 2;
    ColumnsAdvance(lines, 2, 2, 0, X, ColumnsRead([], [], [2]), 3, [5.0, 6.0]);
    assert [2] + [3] == [2, 3] && [] + [[5.0, 6.0]] == [[5.0, 6.0]] && [] + [ExcessCoordinates(X, 1)] == [ExcessCoordinates(X, 1)];
  }

  /** Its y-column is line 3, without a warning. */
  lemma ExampleY()
    ensures ReadColumns(ExampleLines(), 3, 2, 1, Y) == Success(ColumnsRead([[8.0, 9.0]], [], [3, 4]))
  {
    var lines := ExampleLines();
    assert Values(lines, 3, 4) == [8.0, 9.0];
    assert Count(lines, 3, 4) == 2;
    assert ReadColumns(lines, 3, 2, 0, Y) == Success(ColumnsRead([], [], [3]));
    assert Last([3]) == 3;
    ColumnsAdvance(lines, 3, 2, 0, Y, ColumnsRead([], [], [3]), 4, [8.0, 9.0]);
    var none: seq<Warning> := [];
    assert [3] + [4] == [3, 4] && [] + [[8.0, 9.0]] == [[8.0, 9.0]] && none + none == none;
  }

  /** The example file loads: the excess value is dropped with a warning, as the reader promises. */
  lemma ExcessExample()
    ensures Parse(ExampleLines()) == Success(Loaded(Grid(2, 1, [[5.0], [6.0]], [[8.0], [9.0]]), [ExcessCoordinates(X, 1)]))
  {
    var lines := ExampleLines();
    ExampleX();
    ExampleY();
    var xs := ColumnsRead([[5.0, 6.0]], [ExcessCoordinates(X, 1)], [2, 3]);
    var ys := ColumnsRead([[8.0, 9.0]], [], [3, 4]);
    SameMatrix(FromColumns(xs.cols, 2), [[5.0], [6.0]], 2, 1);
    SameMatrix(FromColumns(ys.cols, 2), [[8.0], [9.0]], 2, 1);
    assert Last(xs.bounds) == 3 && xs.warnings + ys.warnings == [ExcessCoordinates(X, 1)];
    assert Parse(lines) == Success(Loaded(Grid(2, 1, FromColumns(xs.cols, 2), FromColumns(ys.cols, 2)), xs.warnings + ys.warnings));
  }

  /** The snapshot of a coordinate array as a grid of rows. */
  function Matrix(a: array2<Coord>): (m: seq<seq<Coord>>)
    reads a
    ensures Shaped(m, a.Length0, a.Length1)
    ensures forall i, j :: 0 <= i < a.Length0 && 0 <= j < a.Length1 ==> m[i][j] == a[i, j]
  {
    seq(a.Length0, i requires 0 <= i < a.Length0 reads a =>
      seq(a.Length1, j requires 0 <= j < a.Length1 reads a => a[i, j]))
  }

  /**
   * The `while len(values) < idim` loop for one column, from line pos on:
   * the values collected and the position of the next unread line, or the
   * error that names the column's row.
   */
  method GatherColumn(lines: seq<Line>, pos: nat, idim: nat, axis: Axis, row: nat)
    returns (r: Result<(seq<Coord>, nat)>)
    ensures r == Gather(lines, pos, [], idim, axis, row)
  {
    var values: seq<Coord> := [];
    var next := pos;
    while |values| < idim
      invariant Gather(lines, next, values, idim, axis, row) == Gather(lines, pos, [], idim, axis, row)
      decreases |lines| - next
    {
      var line := LineAt(lines, next);
      if line == [] {
        return Failure(UnexpectedEnd(axis, row));
      }
      var parsed := ParseFloats(line);
      if parsed.None? {
        return Failure(BadCoordinate(axis, row));
      }
      values := values + parsed.value;
      next := next + 1;
    }
    r := Success((values, next));
  }

  /** The first n columns of a hold cols, column k of a being cols[k]. */
  ghost predicate Stored(a: array2<Coord>, cols: seq<seq<Coord>>, n: nat)
    reads a
  {
    n <= |cols| && n <= a.Length1 &&
    (forall k :: 0 <= k < n ==> |cols[k]| == a.Length0) &&
    forall i, k :: 0 <= i < a.Length0 && 0 <= k < n ==> a[i, k] == cols[k][i]
  }

  /** `a[:, j] = col`: stores col as column j of a, after the first j columns were stored. */
  method StoreColumn(a: array2<Coord>, j: nat, col: seq<Coord>, ghost cols: seq<seq<Coord>>)
    requires j < a.Length1 && |col| == a.Length0 && |cols| == j && Stored(a, cols, j)
    modifies a
    ensures Stored(a, cols + [col], j + 1)
    ensures forall i, k :: 0 <= i < a.Length0 && 0 <= k < a.Length1 && k != j ==> a[i, k] == old(a[i, k])
  {
    forall i | 0 <= i < a.Length0 {
      a[i, j] := col[i];
    }
  }

  /**
   * Fills the columns of a (idim = a.Length0 rows, jdim = a.Length1 columns)
   * from line start on, as both coordinate loops of `load` do, and returns
   * the warnings and the position of the next unread line.
   */
  method FillColumns(lines: seq<Line>, start: nat, axis: Axis, a: array2<Coord>)
    returns (r: Result<(seq<Warning>, nat)>)
    modifies a
    ensures var spec := ReadColumns(lines, start, a.Length0, a.Length1, axis);
      match spec
      case Failure(e) => r == Failure(e)
      case Success(c) =>
        r == Success((c.warnings, Last(c.bounds))) && Stored(a, c.cols, a.Length1)
  {
    var pos := start;
    var warnings: seq<Warning> := [];
    ghost var c := ColumnsRead([], [], [start]);
    for j := 0 to a.Length1
      invariant ReadColumns(lines, start, a.Length0, j, axis) == Success(c)
      invariant warnings == c.warnings && pos == Last(c.bounds) && Stored(a, c.cols, j)
    {
      var next;
      ghost var read;
      next, read := ReadColumn(lines, start, axis, a, j, pos, warnings, c);
      if next.Failure? {
        return Failure(next.error);
      }
      warnings, pos, c := next.value.0, next.value.1, read;
    }
    r := Success((warnings, pos));
  }

  /**
   * One pass of the column loop of `load`: gathers column j from line pos on,
   * warns when the lines held more than idim values, and stores the first idim
   * of them as column j of a.  Gives the warnings and the next unread line,
   * with the read extended by that column, or the error that ends all reading.
   */
  method ReadColumn(lines: seq<Line>, start: nat, axis: Axis, a: array2<Coord>, j: nat, pos: nat,
                    warnings: seq<Warning>, ghost c: ColumnsRead)
    returns (r: Result<(seq<Warning>, nat)>, ghost next: ColumnsRead)
    requires j < a.Length1 && ReadColumns(lines, start, a.Length0, j, axis) == Success(c)
    requires warnings == c.warnings && pos == Last(c.bounds) && Stored(a, c.cols, j)
    modifies a
    ensures r.Failure? ==> ReadColumns(lines, start, a.Length0, a.Length1, axis) == Failure(r.error) && unchanged(a)
    ensures r.Success? ==>
      ReadColumns(lines, start, a.Length0, j + 1, axis) == Success(next) &&
      r.value.0 == next.warnings && r.value.1 == Last(next.bounds) && Stored(a, next.cols, j + 1)
    ensures r.Success? ==>
      forall i, k :: 0 <= i < a.Length0 && j < k < a.Length1 ==> a[i, k] == old(a[i, k])
  {
    var idim := a.Length0;
    var gathered := GatherColumn(lines, pos, idim, axis, j + 1);
    if gathered.Failure? {
      ColumnsBreak(lines, start, idim, j, a.Length1, axis, c, gathered.error);
      return Failure(gathered.error), c;
    }
    var values := gathered.value.0;
    var p := gathered.value.1;
    ColumnsExtend(lines, start, idim, j, axis, c, values, p);
    var ws := warnings;
    if |values| > idim {
      ws := ws + [ExcessCoordinates(axis, j + 1)];
    } else {
      assert ws == ws + [];
    }
    next := ColumnsRead(c.cols + [values[..idim]], ws, c.bounds + [p]);
    StoreColumn(a, j, values[..idim], c.cols);
    r := Success((ws, p));
  }

  /** The reader object: the block count and the blocks of the last load. */
  class P3DfmtFile {
    var nblocks: int
    var coords: seq<Grid>

    ghost predicate Valid()
      reads this
    {
      AllWellFormed(coords)
    }

    /** A reader with nothing loaded (the source keeps `None` where this keeps no blocks). */
    constructor ()
      ensures Valid() && nblocks == 0 && coords == []
    {
      nblocks := 0;
      coords := [];
    }

    /**
     * `load`: reads the block count, the dimensions and the columns.  On
     * success the file holds exactly the parsed grid; on failure the blocks
     * are left as they were, and the block count is updated only when the
     * first line held an integer.
     */
    method Load(lines: seq<Line>) returns (r: Result<seq<Warning>>)
      requires Valid()
      modifies this
      ensures Valid()
      ensures var spec := Parse(lines);
        match spec
        case Success(ld) => r == Success(ld.warnings) && coords == [ld.grid] && nblocks == 1
        case Failure(e) => r == Failure(e) && coords == old(coords)
      ensures var count := BlockCount(LineAt(lines, 0));
        nblocks == if count.Success? then count.value else old(nblocks)
    {
      var count := BlockCount(LineAt(lines, 0));
      if count.Failure? {
        return Failure(count.error);
      }
      nblocks := count.value;
      if nblocks != 1 {
        return Failure(WrongBlockCount(nblocks));
      }
      var dims := Dimensions(LineAt(lines, 1));
      if dims.Failure? {
        return Failure(dims.error);
      }
      var idim, jdim := dims.value.0, dims.value.1;
      var x := new Coord[idim, jdim]((i, j) => 0.0);
      var y := new Coord[idim, jdim]((i, j) => 0.0);
      var xr := FillColumns(lines, 2, X, x);
      if xr.Failure? {
        return Failure(xr.error);
      }
      var yr := FillColumns(lines, xr.value.1, Y, y);
      if yr.Failure? {
        return Failure(yr.error);
      }
      ghost var xs := ReadColumns(lines, 2, idim, jdim, X).value;
      ghost var ys := ReadColumns(lines, Last(xs.bounds), idim, jdim, Y).value;
      SameMatrix(Matrix(x), FromColumns(xs.cols, idim), idim, jdim);
      SameMatrix(Matrix(y), FromColumns(ys.cols, idim), idim, jdim);
      coords := [Grid(idim, jdim, Matrix(x), Matrix(y))];
      r := Success(xr.value.0 + yr.value.0);
    }
  }
}
