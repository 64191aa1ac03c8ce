/** csvmerge: a k-way outer join of CSV files on their integer first column. A file is a sequence of lines, the header
    first; a row is the integer its line begins with and the text of its other columns. */
module CsvMerge {
  import opened Types
  import opened CsvText
  import Numbers

  datatype Row = Row(key: int, rest: string)

  /** A printed line: the key, and for each file the columns of its row or nothing. */
  datatype Line = Line(key: int, cells: seq<Option<string>>)

  /** What the script comes to: a header and the joined lines, a complaint about the headers, the StopIteration of a
      file without header or data rows, or the ValueError of a line without delimiter or integer. */
  datatype Outcome = Joined(header: string, lines: seq<string>) | DifferentColumns | StopIteration | ValueError

  ghost predicate Increasing(rows: seq<Row>) {
    forall i, j :: 0 <= i < j < |rows| ==> rows[i].key < rows[j].key
  }

  // ----- conservation, for any input

  function Rests(rows: seq<Row>): seq<string> {
    if rows == [] then [] else Rests(rows[..|rows| - 1]) + [rows[|rows| - 1].rest]
  }

  /** The texts printed in the columns of file idx, top to bottom. */
  function Column(lines: seq<Line>, idx: nat): seq<string>
    requires forall l :: 0 <= l < |lines| ==> idx < |lines[l].cells|
  {
    if lines == [] then [] else
      var n := |lines| - 1;
      var c := lines[n].cells[idx];
      Column(lines[..n], idx) + if c.Some? then [c.value] else []
  }

  ghost predicate Wide(lines: seq<Line>, k: nat) {
    forall l :: 0 <= l < |lines| ==> |lines[l].cells| == k
  }

  /** The first pos[i] rows of each file i have been printed, in order, in that file's columns. */
  ghost predicate Printed(files: seq<seq<Row>>, pos: seq<nat>, lines: seq<Line>) {
    && |pos| == |files| && Wide(lines, |files|)
    && forall i :: 0 <= i < |files| ==> pos[i] <= |files[i]| && Column(lines, i) == Rests(files[i][..pos[i]])
  }

  /** Every line has the key of some row. */
  ghost predicate KeysFromRows(files: seq<seq<Row>>, lines: seq<Line>) {
    forall l :: 0 <= l < |lines| ==> KeyOfRow(files, lines[l].key)
  }

  ghost predicate KeyOfRow(files: seq<seq<Row>>, key: int) {
    exists i :: 0 <= i < |files| && HasKey(files[i], key)
  }

  /** All rows of all files are printed, once and in order, in the columns of their file, on lines with their keys. */
  ghost predicate Listed(files: seq<seq<Row>>, lines: seq<Line>) {
    && Wide(lines, |files|) && KeysFromRows(files, lines)
    && forall i :: 0 <= i < |files| ==> Column(lines, i) == Rests(files[i])
  }

  predicate Exhausted(files: seq<seq<Row>>, pos: seq<nat>)
    requires |pos| == |files|
  {
    forall i :: 0 <= i < |files| ==> pos[i] >= |files[i]|
  }

  /** m is the smallest key among the rows next in line. */
  ghost predicate IsNextKey(files: seq<seq<Row>>, pos: seq<nat>, m: int)
    requires |pos| == |files|
  {
    && (exists i :: 0 <= i < |files| && pos[i] < |files[i]| && files[i][pos[i]].key == m)
    && (forall i :: 0 <= i < |files| && pos[i] < |files[i]| ==> m <= files[i][pos[i]].key)
  }

  predicate Hits(file: seq<Row>, p: nat, m: int) {
    p < |file| && file[p].key == m
  }

  function CellOf(file: seq<Row>, p: nat, m: int): Option<string> {
    if Hits(file, p, m) then Some(file[p].rest) else None
  }

  /** The line for key m, and the positions behind it. */
  function LineFor(files: seq<seq<Row>>, pos: seq<nat>, m: int): (r: Line)
    requires |pos| == |files|
    ensures r.key == m && |r.cells| == |files| && forall i :: 0 <= i < |files| ==>
              r.cells[i] == CellOf(files[i], pos[i], m)
  {
    Line(m, seq(|files|, i requires 0 <= i < |files| => CellOf(files[i], pos[i], m)))
  }

  function Step(files: seq<seq<Row>>, pos: seq<nat>, m: int): (r: seq<nat>)
    requires |pos| == |files|
    ensures |r| == |files| && forall i :: 0 <= i < |files| ==>
              r[i] == if Hits(files[i], pos[i], m) then pos[i] + 1 else pos[i]
  {
    seq(|files|, i requires 0 <= i < |files| => if Hits(files[i], pos[i], m) then pos[i] + 1 else pos[i])
  }

  lemma PrintedStep(files: seq<seq<Row>>, pos: seq<nat>, lines: seq<Line>, m: int)
    requires Printed(files, pos, lines)
    ensures Printed(files, Step(files, pos, m), lines + [LineFor(files, pos, m)])
  {
    var line, pos' := LineFor(files, pos, m), Step(files, pos, m);
    var lines' := lines + [line];
    forall i | 0 <= i < |files|
      ensures pos'[i] <= |files[i]| && Column(lines', i) == Rests(files[i][..pos'[i]])
    {
      ColumnAppend(lines, line, i);
      if Hits(files[i], pos[i], m) {
        assert files[i][..pos[i] + 1][..pos[i]] == files[i][..pos[i]];
      }
    }
  }

  lemma ColumnAppend(lines: seq<Line>, line: Line, i: nat)
    requires i < |line.cells| && forall l :: 0 <= l < |lines| ==> i < |lines[l].cells|
    ensures Column(lines + [line], i) == Column(lines, i) + if line.cells[i].Some? then [line.cells[i].value] else []
  {
    var lines' := lines + [line];
    assert lines'[..|lines'| - 1] == lines;
  }

  // ----- the join, for files with increasing keys

  predicate HasKey(rows: seq<Row>, key: int) {
    exists j :: 0 <= j < |rows| && rows[j].key == key
  }

  /** The cell a file contributes to the line of a key: its row for the key, or a blank if it has none. */
  ghost predicate CellFor(c: Option<string>, rows: seq<Row>, key: int) {
    if c.Some? then Row(key, c.value) in rows else !HasKey(rows, key)
  }

  ghost predicate LineCorrect(line: Line, files: seq<seq<Row>>) {
    && |line.cells| == |files|
    && (forall i :: 0 <= i < |files| ==> CellFor(line.cells[i], files[i], line.key))
    && (exists i :: 0 <= i < |files| && HasKey(files[i], line.key))
  }

  ghost predicate KeysIncrease(lines: seq<Line>) {
    forall k, l :: 0 <= k < l < |lines| ==> lines[k].key < lines[l].key
  }

  /** Every printed key is below every key still to come. */
  ghost predicate Below(files: seq<seq<Row>>, pos: seq<nat>, lines: seq<Line>)
    requires |pos| == |files|
  {
    forall l, i, j :: 0 <= l < |lines| && 0 <= i < |files| && pos[i] <= j < |files[i]| ==>
      lines[l].key < files[i][j].key
  }

  ghost predicate KeyPrinted(lines: seq<Line>, key: int) {
    exists l :: 0 <= l < |lines| && lines[l].key == key
  }

  ghost predicate JoinedUpTo(files: seq<seq<Row>>, pos: seq<nat>, lines: seq<Line>) {
    && |pos| == |files| && (forall i :: 0 <= i < |files| ==> pos[i] <= |files[i]|)
    && KeysIncrease(lines) && Below(files, pos, lines)
    && (forall l :: 0 <= l < |lines| ==> LineCorrect(lines[l], files))
    && (forall i, j :: 0 <= i < |files| && 0 <= j < pos[i] ==> KeyPrinted(lines, files[i][j].key))
  }

  lemma NewLineCorrect(files: seq<seq<Row>>, pos: seq<nat>, lines: seq<Line>, m: int)
    requires JoinedUpTo(files, pos, lines) && IsNextKey(files, pos, m)
    requires forall i :: 0 <= i < |files| ==> Increasing(files[i])
    ensures LineCorrect(LineFor(files, pos, m), files)
    ensures forall l :: 0 <= l < |lines| ==> lines[l].key < m
  {
    var w :| 0 <= w < |files| && pos[w] < |files[w]| && files[w][pos[w]].key == m;
    assert HasKey(files[w], m);
    forall l | 0 <= l < |lines|
      ensures lines[l].key < m
    {
      assert lines[l].key < files[w][pos[w]].key;
    }
    forall i | 0 <= i < |files|
      ensures CellFor(CellOf(files[i], pos[i], m), files[i], m)
    {
      if Hits(files[i], pos[i], m) {
        assert files[i][pos[i]] == Row(m, files[i][pos[i]].rest);
      } else {
        forall j | 0 <= j < |files[i]|
          ensures files[i][j].key != m
        {
          if j < pos[i] {
            assert KeyPrinted(lines, files[i][j].key);
          } else if j > pos[i] {
            assert files[i][pos[i]].key < files[i][j].key;
          }
        }
      }
    }
  }

  lemma StepBelow(files: seq<seq<Row>>, pos: seq<nat>, lines: seq<Line>, m: int)
    requires |pos| == |files| && Below(files, pos, lines) && IsNextKey(files, pos, m)
    requires forall i :: 0 <= i < |files| ==> Increasing(files[i])
    ensures Below(files, Step(files, pos, m), lines + [LineFor(files, pos, m)])
  {
    var pos' := Step(files, pos, m);
    forall i, j | 0 <= i < |files| && pos'[i] <= j < |files[i]|
      ensures m < files[i][j].key
    {
      if j == pos[i] {
        assert m <= files[i][pos[i]].key && !Hits(files[i], pos[i], m);
      } else {
        assert m <= files[i][pos[i]].key < files[i][j].key;
      }
    }
  }

  lemma StepPrintsKeys(files: seq<seq<Row>>, pos: seq<nat>, lines: seq<Line>, m: int, i: nat, j: nat)
    requires |pos| == |files| && i < |files| && j < Step(files, pos, m)[i] && pos[i] <= |files[i]|
    requires j < pos[i] ==> KeyPrinted(lines, files[i][j].key)
    ensures j < |files[i]| && KeyPrinted(lines + [LineFor(files, pos, m)], files[i][j].key)
  {
    var lines' := lines + [LineFor(files, pos, m)];
    if j < pos[i] {
      var l :| 0 <= l < |lines| && lines[l].key == files[i][j].key;
      assert lines'[l].key == files[i][j].key;
    } else {
      assert lines'[|lines|].key == files[i][j].key;
    }
  }

  lemma JoinStep(files: seq<seq<Row>>, pos: seq<nat>, lines: seq<Line>, m: int)
    requires JoinedUpTo(files, pos, lines) && IsNextKey(files, pos, m)
    requires forall i :: 0 <= i < |files| ==> Increasing(files[i])
    ensures JoinedUpTo(files, Step(files, pos, m), lines + [LineFor(files, pos, m)])
  {
    NewLineCorrect(files, pos, lines, m);
    StepBelow(files, pos, lines, m);
    var pos' := Step(files, pos, m);
    forall i, j | 0 <= i < |files| && 0 <= j < pos'[i]
      ensures j < |files[i]| && KeyPrinted(lines + [LineFor(files, pos, m)], files[i][j].key)
    {
      StepPrintsKeys(files, pos, lines, m, i, j);
    }
  }

  /** The outer join: one line per key of the union, increasing, each file's row in its own columns and blanks
      elsewhere. */
  ghost predicate OuterJoin(files: seq<seq<Row>>, lines: seq<Line>) {
    && KeysIncrease(lines)
    && (forall l :: 0 <= l < |lines| ==> LineCorrect(lines[l], files))
    && (forall i, j :: 0 <= i < |files| && 0 <= j < |files[i]| ==> KeyPrinted(lines, files[i][j].key))
  }

  // ----- the merge loop

  function Remaining(files: seq<seq<Row>>, pos: seq<nat>): int
    requires |pos| == |files|
  {
    if files == [] then 0 else
      var n := |files| - 1;
      Remaining(files[..n], pos[..n]) + |files[n]| - pos[n]
  }

  lemma {:induction false} RemainingShrinks(files: seq<seq<Row>>, pos: seq<nat>, pos': seq<nat>)
    requires |pos| == |pos'| == |files| && forall i :: 0 <= i < |files| ==> pos[i] <= pos'[i]
    ensures Remaining(files, pos') <= Remaining(files, pos)
    ensures (exists i :: 0 <= i < |files| && pos[i] < pos'[i]) ==> Remaining(files, pos') < Remaining(files, pos)
  {
    if files != [] {
      var n := |files| - 1;
      RemainingShrinks(files[..n], pos[..n], pos'[..n]);
    }
  }

  lemma {:induction false} RemainingNatural(files: seq<seq<Row>>, pos: seq<nat>)
    requires |pos| == |files| && forall i :: 0 <= i < |files| ==> pos[i] <= |files[i]|
    ensures Remaining(files, pos) >= 0
  {
    if files != [] {
      RemainingNatural(files[..|files| - 1], pos[..|files| - 1]);
    }
  }

  /** min over the rows next in line, exhausted files counting as infinite. */
  method NextKey(files: seq<seq<Row>>, pos: seq<nat>) returns (m: int)
    requires |pos| == |files| && !Exhausted(files, pos)
    ensures IsNextKey(files, pos, m)
  {
    var found := false;
    m := 0;
    for i := 0 to |files|
      invariant found ==> exists k :: 0 <= k < i && pos[k] < |files[k]| && files[k][pos[k]].key == m
      invariant forall k :: 0 <= k < i && pos[k] < |files[k]| ==> found && m <= files[k][pos[k]].key
    {
      if pos[i] < |files[i]| && (!found || files[i][pos[i]].key < m) {
        m, found := files[i][pos[i]].key, true;
      }
    }
  }

  /** The inner loop: build the line for the smallest key and move on in the files that had it. */
  method BuildLine(files: seq<seq<Row>>, pos0: seq<nat>, m: int) returns (line: Line, pos: seq<nat>)
    requires |pos0| == |files|
    ensures line == LineFor(files, pos0, m) && pos == Step(files, pos0, m)
  {
    var cells := [];
    pos := pos0;
    for idx := 0 to |files|
      invariant |cells| == idx && |pos| == |files|
      invariant forall i :: 0 <= i < idx ==> cells[i] == CellOf(files[i], pos0[i], m)
      invariant forall i :: 0 <= i < |files| ==> pos[i] == if i < idx then Step(files, pos0, m)[i] else pos0[i]
    {
      if pos[idx] < |files[idx]| && files[idx][pos[idx]].key == m {
        cells := cells + [Some(files[idx][pos[idx]].rest)];
        pos := pos[idx := pos[idx] + 1];
      } else {
        cells := cells + [None];
      }
    }
    line := Line(m, cells);
    assert cells == LineFor(files, pos0, m).cells;
    assert pos == Step(files, pos0, m);
  }

  /** The merge loop. Whatever the order of the rows it ends, with every row printed once, in order, in the columns of
      its file; and on files with increasing keys the lines are the outer join. */
  method Merge(files: seq<seq<Row>>) returns (lines: seq<Line>)
    ensures Listed(files, lines)
    ensures (forall i :: 0 <= i < |files| ==> Increasing(files[i])) ==> OuterJoin(files, lines)
  {
    lines := [];
    var pos: seq<nat> := seq(|files|, _ => 0);
    ghost var sorted := forall i :: 0 <= i < |files| ==> Increasing(files[i]);
    while !Exhausted(files, pos)
      invariant MergeInv(files, pos, lines, sorted)
      decreases Remaining(files, pos)
    {
      RemainingNatural(files, pos);
      var m := NextKey(files, pos);
      var line, pos' := BuildLine(files, pos, m);
      Progress(files, pos, m);
      MergeStep(files, pos, lines, sorted, m);
      lines, pos := lines + [line], pos';
    }
    assert forall i :: 0 <= i < |files| ==> files[i][..pos[i]] == files[i];
  }

  ghost predicate MergeInv(files: seq<seq<Row>>, pos: seq<nat>, lines: seq<Line>, sorted: bool) {
    Printed(files, pos, lines) && KeysFromRows(files, lines) && (sorted ==> JoinedUpTo(files, pos, lines))
  }

  lemma MergeStep(files: seq<seq<Row>>, pos: seq<nat>, lines: seq<Line>, sorted: bool, m: int)
    requires MergeInv(files, pos, lines, sorted) && IsNextKey(files, pos, m)
    requires sorted ==> forall i :: 0 <= i < |files| ==> Increasing(files[i])
    ensures MergeInv(files, Step(files, pos, m), lines + [LineFor(files, pos, m)], sorted)
  {
    PrintedStep(files, pos, lines, m);
    NextKeyOfRow(files, pos, m);
    if sorted {
      JoinStep(files, pos, lines, m);
    }
  }

  lemma NextKeyOfRow(files: seq<seq<Row>>, pos: seq<nat>, m: int)
    requires |pos| == |files| && IsNextKey(files, pos, m)
    ensures KeyOfRow(files, m)
  {
    var w :| 0 <= w < |files| && pos[w] < |files[w]| && files[w][pos[w]].key == m;
    assert HasKey(files[w], m);
  }

  lemma Progress(files: seq<seq<Row>>, pos: seq<nat>, m: int)
    requires |pos| == |files| && IsNextKey(files, pos, m)
    ensures Remaining(files, Step(files, pos, m)) < Remaining(files, pos)
  {
    var w :| 0 <= w < |files| && pos[w] < |files[w]| && files[w][pos[w]].key == m;
    assert Hits(files[w], pos[w], m) && Step(files, pos, m)[w] == pos[w] + 1;
    RemainingShrinks(files, pos, Step(files, pos, m));
  }

  // ----- the text of a line

  /** The columns of one file: the delimiter and its text, or as many delimiters as the header has. */
  function RenderCell(c: Option<string>, delim: char, numDelims: nat): string {
    if c.Some? then [delim] + c.value else Repeat(delim, numDelims)
  }

  function RenderCells(cells: seq<Option<string>>, delim: char, numDelims: nat): string {
    if cells == [] then ""
    else RenderCells(cells[..|cells| - 1], delim, numDelims) + RenderCell(cells[|cells| - 1], delim, numDelims)
  }

  function Render(line: Line, delim: char, numDelims: nat): string {
    DecimalInt(line.key) + RenderCells(line.cells, delim, numDelims)
  }

  lemma CellDelimiters(c: Option<string>, delim: char, numDelims: nat)
    ensures Count(RenderCell(c, delim, numDelims), delim) == if c.Some? then 1 + Count(c.value, delim) else numDelims
  {
    CountRepeat(delim, numDelims);
    if c.Some? {
      assert ([delim] + c.value)[1..] == c.value;
    }
  }

  /** The columns of a cell: those of the row, or empty ones. */
  function CellColumns(c: Option<string>, delim: char, numDelims: nat): seq<string> {
    if c.Some? then Split(c.value, delim) else Blanks(numDelims)
  }

  /** The columns of all files, in the order of the files. */
  function Columns(cells: seq<Option<string>>, delim: char, numDelims: nat): seq<string> {
    if cells == [] then [] else
      var n := |cells| - 1;
      Columns(cells[..n], delim, numDelims) + CellColumns(cells[n], delim, numDelims)
  }

  lemma RenderCellColumns(text: string, c: Option<string>, delim: char, numDelims: nat)
    ensures Split(text + RenderCell(c, delim, numDelims), delim)
         == Split(text, delim) + CellColumns(c, delim, numDelims)
  {
    if c.Some? {
      SplitJoin(text, c.value, delim);
    } else if numDelims == 0 {
      assert text + "" == text;
      assert Split(text, delim) + [] == Split(text, delim);
    } else {
      SplitJoin(text, Repeat(delim, numDelims - 1), delim);
      SplitRepeat(delim, numDelims - 1);
    }
  }

  /** The printed line read back column by column: the key and then the columns of each file, in the order of the files
      and in their own order. */
  lemma {:induction false} RenderedColumns(key: string, cells: seq<Option<string>>, delim: char, numDelims: nat)
    requires delim !in key
    ensures Split(key + RenderCells(cells, delim, numDelims), delim) == [key] + Columns(cells, delim, numDelims)
  {
    if cells == [] {
      assert key + "" == key;
      SplitWhole(key, delim);
    } else {
      var n := |cells| - 1;
      RenderedColumns(key, cells[..n], delim, numDelims);
      var text, last := RenderCells(cells[..n], delim, numDelims), RenderCell(cells[n], delim, numDelims);
      Associate(key, text, last);
      RenderCellColumns(key + text, cells[n], delim, numDelims);
      Associate([key], Columns(cells[..n], delim, numDelims), CellColumns(cells[n], delim, numDelims));
    }
  }

  lemma Associate<T>(a: seq<T>, b: seq<T>, c: seq<T>)
    ensures a + (b + c) == (a + b) + c
  {
  }

  lemma CellWidth(c: Option<string>, delim: char, numDelims: nat)
    requires c.Some? ==> Count(c.value, delim) == numDelims - 1
    ensures |CellColumns(c, delim, numDelims)| == numDelims
  {
    if c.Some? {
      SplitCount(c.value, delim);
    }
  }

  lemma {:induction false} ColumnsWidth(cells: seq<Option<string>>, delim: char, numDelims: nat)
    requires CellsFull(cells, delim, numDelims)
    ensures |Columns(cells, delim, numDelims)| == numDelims * |cells|
  {
    if cells != [] {
      var n := |cells| - 1;
      ColumnsWidth(cells[..n], delim, numDelims);
      CellWidth(cells[n], delim, numDelims);
      NextProduct(numDelims, n);
    }
  }

  /** Where the columns of file i are, when no cell is short of one. */
  lemma {:induction false} ColumnsOfFile(cells: seq<Option<string>>, delim: char, numDelims: nat, i: nat)
    requires i < |cells| && CellsFull(cells, delim, numDelims)
    ensures IsSlice(Columns(cells, delim, numDelims), numDelims * i, CellColumns(cells[i], delim, numDelims))
  {
    var n := |cells| - 1;
    var init, last := Columns(cells[..n], delim, numDelims), CellColumns(cells[n], delim, numDelims);
    ColumnsWidth(cells[..n], delim, numDelims);
    if i < n {
      ColumnsOfFile(cells[..n], delim, numDelims, i);
      SlicePrefix(init, last, numDelims * i, CellColumns(cells[i], delim, numDelims));
    } else {
      SliceSuffix(init, last);
    }
  }

  /** s holds t at position a. */
  ghost predicate IsSlice(s: seq<string>, a: int, t: seq<string>) {
    0 <= a <= a + |t| <= |s| && s[a..a + |t|] == t
  }

  lemma SlicePrefix(s: seq<string>, more: seq<string>, a: int, t: seq<string>)
    requires IsSlice(s, a, t)
    ensures IsSlice(s + more, a, t)
  {
    assert (s + more)[a..a + |t|] == s[a..a + |t|];
  }

  lemma SliceSuffix(s: seq<string>, t: seq<string>)
    ensures IsSlice(s + t, |s|, t)
  {
  }

  lemma SliceBehind(x: string, s: seq<string>, a: int, t: seq<string>)
    requires IsSlice(s, a, t)
    ensures IsSlice([x] + s, 1 + a, t)
  {
    assert ([x] + s)[1 + a..1 + a + |t|] == s[a..a + |t|];
  }

  /** No cell has more delimiters than its columns need. */
  ghost predicate CellsFit(cells: seq<Option<string>>, delim: char, numDelims: nat) {
    forall i :: 0 <= i < |cells| && cells[i].Some? ==> Count(cells[i].value, delim) < numDelims
  }

  /** Every cell has exactly as many. */
  ghost predicate CellsFull(cells: seq<Option<string>>, delim: char, numDelims: nat) {
    forall i :: 0 <= i < |cells| && cells[i].Some? ==> Count(cells[i].value, delim) == numDelims - 1
  }

  lemma {:induction false} CellsDelimitersIff(cells: seq<Option<string>>, delim: char, numDelims: nat)
    requires CellsFit(cells, delim, numDelims)
    ensures Count(RenderCells(cells, delim, numDelims), delim) <= numDelims * |cells|
    ensures Count(RenderCells(cells, delim, numDelims), delim) == numDelims * |cells|
            <==> CellsFull(cells, delim, numDelims)
  {
    if cells != [] {
      var n := |cells| - 1;
      var init, c := cells[..n], cells[n];
      CellsDelimitersIff(init, delim, numDelims);
      CountConcat(RenderCells(init, delim, numDelims), RenderCell(c, delim, numDelims), delim);
      CellDelimiters(c, delim, numDelims);
      NextProduct(numDelims, n);
      LastCell(cells, delim, numDelims);
    }
  }

  lemma LastCell(cells: seq<Option<string>>, delim: char, numDelims: nat)
    requires cells != []
    ensures var n := |cells| - 1;
            CellsFull(cells, delim, numDelims) <==>
              && CellsFull(cells[..n], delim, numDelims)
              && (cells[n].Some? ==> Count(cells[n].value, delim) == numDelims - 1)
  {
  }

  lemma NextProduct(a: int, n: int)
    ensures a * (n + 1) == a * n + a
  {
  }

  /** A line has the header's delimiter count once per file exactly when none of its cells is short of one. */
  lemma LineDelimitersIff(line: Line, delim: char, numDelims: nat)
    requires Count(DecimalInt(line.key), delim) == 0 && CellsFit(line.cells, delim, numDelims)
    ensures Count(Render(line, delim, numDelims), delim) == numDelims * |line.cells|
            <==> CellsFull(line.cells, delim, numDelims)
  {
    CountConcat(DecimalInt(line.key), RenderCells(line.cells, delim, numDelims), delim);
    CellsDelimitersIff(line.cells, delim, numDelims);
  }

  // ----- the rows of a file

  /** The row a line stands for: firstcol and restcols both succeed. */
  predicate IsRow(text: string, delim: char) {
    delim in text && ParseInt(FirstField(text, delim)).Some?
  }

  function RowOf(text: string, delim: char): Row
    requires IsRow(text, delim)
  {
    Row(ParseInt(FirstField(text, delim)).value, RestCols(text, delim))
  }

  predicate AllRows(texts: seq<string>, delim: char) {
    forall j :: 0 <= j < |texts| ==> IsRow(texts[j], delim)
  }

  function RowsOf(texts: seq<string>, delim: char): (r: seq<Row>)
    requires AllRows(texts, delim)
    ensures |r| == |texts| && forall j :: 0 <= j < |texts| ==> r[j] == RowOf(texts[j], delim)
  {
    seq(|texts|, j requires 0 <= j < |texts| => RowOf(texts[j], delim))
  }

  predicate AllData(data: seq<seq<string>>, delim: char) {
    forall i :: 0 <= i < |data| ==> AllRows(data[i], delim)
  }

  function Tables(data: seq<seq<string>>, delim: char): (r: seq<seq<Row>>)
    requires AllData(data, delim)
    ensures |r| == |data| && forall i :: 0 <= i < |data| ==> r[i] == RowsOf(data[i], delim)
  {
    seq(|data|, i requires 0 <= i < |data| => RowsOf(data[i], delim))
  }

  lemma {:induction false} InRests(rows: seq<Row>, rest: string)
    ensures rest in Rests(rows) <==> exists j :: 0 <= j < |rows| && rows[j].rest == rest
  {
    if rows != [] {
      var n := |rows| - 1;
      InRests(rows[..n], rest);
      if j :| 0 <= j < |rows[..n]| && rows[..n][j].rest == rest {
        assert rows[j].rest == rest;
      }
      if j :| 0 <= j < |rows| && rows[j].rest == rest {
        if j < n {
          assert rows[..n][j].rest == rest;
        }
      }
    }
  }

  lemma {:induction false} InColumn(lines: seq<Line>, i: nat, rest: string)
    requires forall l :: 0 <= l < |lines| ==> i < |lines[l].cells|
    ensures rest in Column(lines, i) <==> exists l :: 0 <= l < |lines| && lines[l].cells[i] == Some(rest)
  {
    if lines != [] {
      var n := |lines| - 1;
      InColumn(lines[..n], i, rest);
      if l :| 0 <= l < |lines[..n]| && lines[..n][l].cells[i] == Some(rest) {
        assert lines[l].cells[i] == Some(rest);
      }
      if l :| 0 <= l < |lines| && lines[l].cells[i] == Some(rest) {
        if l < n {
          assert lines[..n][l].cells[i] == Some(rest);
        }
      }
    }
  }

  /** The cells of a file are the texts of its rows. */
  lemma CellsAreRows(files: seq<seq<Row>>, lines: seq<Line>, i: nat, rest: string)
    requires Listed(files, lines) && i < |files|
    ensures (exists l :: 0 <= l < |lines| && lines[l].cells[i] == Some(rest))
            <==> (exists j :: 0 <= j < |files[i]| && files[i][j].rest == rest)
  {
    InColumn(lines, i, rest);
    InRests(files[i], rest);
  }

  /** Every row has as many delimiters as the header. */
  ghost predicate SameWidth(data: seq<seq<string>>, delim: char, numDelims: nat) {
    forall i, j :: 0 <= i < |data| && 0 <= j < |data[i]| ==> Count(data[i][j], delim) == numDelims
  }

  /** No row loses a column to the strip in restcols. */
  ghost predicate AllKeep(data: seq<seq<string>>, delim: char)
    requires AllData(data, delim)
  {
    forall i, j :: 0 <= i < |data| && 0 <= j < |data[i]| ==> KeepsColumns(data[i][j], delim)
  }

  ghost predicate LinesRegular(lines: seq<Line>, delim: char, numDelims: nat, k: nat) {
    forall l :: 0 <= l < |lines| ==> Count(Render(lines[l], delim, numDelims), delim) == numDelims * k
  }

  lemma CellFits(data: seq<seq<string>>, delim: char, numDelims: nat, lines: seq<Line>, l: nat, i: nat)
    requires AllData(data, delim) && SameWidth(data, delim, numDelims) && Listed(Tables(data, delim), lines)
    requires l < |lines| && i < |data| && lines[l].cells[i].Some?
    ensures Count(lines[l].cells[i].value, delim) < numDelims
    ensures AllKeep(data, delim) ==> Count(lines[l].cells[i].value, delim) == numDelims - 1
  {
    var rest := lines[l].cells[i].value;
    CellsAreRows(Tables(data, delim), lines, i, rest);
    var j :| 0 <= j < |data[i]| && RowsOf(data[i], delim)[j].rest == rest;
    assert IsRow(data[i][j], delim);
    RestColsKeepsIff(data[i][j], delim);
  }

  lemma LineKey(data: seq<seq<string>>, delim: char, lines: seq<Line>, l: nat)
    requires AllData(data, delim) && Listed(Tables(data, delim), lines) && l < |lines|
    ensures Count(DecimalInt(lines[l].key), delim) == 0
  {
    var files := Tables(data, delim);
    assert KeyOfRow(files, lines[l].key);
    var i :| 0 <= i < |files| && HasKey(files[i], lines[l].key);
    var j :| 0 <= j < |files[i]| && files[i][j].key == lines[l].key;
    assert IsRow(data[i][j], delim) && files[i][j] == RowOf(data[i][j], delim);
    KeyHasNoDelimiter(data[i][j], delim);
  }

  lemma LineFullIff(data: seq<seq<string>>, delim: char, numDelims: nat, lines: seq<Line>, l: nat)
    requires AllData(data, delim) && SameWidth(data, delim, numDelims) && Listed(Tables(data, delim), lines)
    requires l < |lines|
    ensures Count(Render(lines[l], delim, numDelims), delim) == numDelims * |data|
            <==> CellsFull(lines[l].cells, delim, numDelims)
    ensures AllKeep(data, delim) ==> CellsFull(lines[l].cells, delim, numDelims)
  {
    LineKey(data, delim, lines, l);
    assert |lines[l].cells| == |data|;
    forall i | 0 <= i < |data| && lines[l].cells[i].Some?
      ensures Count(lines[l].cells[i].value, delim) < numDelims
      ensures AllKeep(data, delim) ==> Count(lines[l].cells[i].value, delim) == numDelims - 1
    {
      CellFits(data, delim, numDelims, lines, l, i);
    }
    LineDelimitersIff(lines[l], delim, numDelims);
  }

  lemma RowKept(data: seq<seq<string>>, delim: char, numDelims: nat, lines: seq<Line>, i: nat, j: nat)
    requires AllData(data, delim) && SameWidth(data, delim, numDelims) && Listed(Tables(data, delim), lines)
    requires i < |data| && j < |data[i]| && LinesRegular(lines, delim, numDelims, |data|)
    ensures IsRow(data[i][j], delim) && KeepsColumns(data[i][j], delim)
  {
    var rows := RowsOf(data[i], delim);
    assert IsRow(data[i][j], delim) && rows[j].rest == RestCols(data[i][j], delim);
    CellsAreRows(Tables(data, delim), lines, i, rows[j].rest);
    var l :| 0 <= l < |lines| && lines[l].cells[i] == Some(rows[j].rest);
    LineFullIff(data, delim, numDelims, lines, l);
    RestColsKeepsIff(data[i][j], delim);
  }

  /** Constant delimiter count: when every row has as many delimiters as the header, every printed line has that many
      for each file if and only if no row loses one to the strip in restcols. */
  lemma DelimitersConstantIff(data: seq<seq<string>>, delim: char, numDelims: nat, lines: seq<Line>)
    requires AllData(data, delim) && SameWidth(data, delim, numDelims) && Listed(Tables(data, delim), lines)
    ensures LinesRegular(lines, delim, numDelims, |data|) <==> AllKeep(data, delim)
  {
    if AllKeep(data, delim) {
      forall l | 0 <= l < |lines|
        ensures Count(Render(lines[l], delim, numDelims), delim) == numDelims * |data|
      {
        LineFullIff(data, delim, numDelims, lines, l);
      }
    }
    if LinesRegular(lines, delim, numDelims, |data|) {
      forall i, j | 0 <= i < |data| && 0 <= j < |data[i]|
        ensures KeepsColumns(data[i][j], delim)
      {
        RowKept(data, delim, numDelims, lines, i, j);
      }
    }
  }

  /** So, when the rows are as wide as the header and none loses a column, file i has columns 1 + i * numDelims and on
      of every printed line: those of its row with that key, or empty ones. */
  lemma FileColumns(data: seq<seq<string>>, delim: char, numDelims: nat, lines: seq<Line>, text: string, l: nat, i: nat)
    requires AllData(data, delim) && SameWidth(data, delim, numDelims) && Listed(Tables(data, delim), lines)
    requires AllKeep(data, delim) && l < |lines| && i < |data| && PrintsLine(text, lines[l], delim, numDelims)
    ensures Split(text, delim)[0] == DecimalInt(lines[l].key)
    ensures IsSlice(Split(text, delim), 1 + numDelims * i, CellColumns(lines[l].cells[i], delim, numDelims))
    ensures |CellColumns(lines[l].cells[i], delim, numDelims)| == numDelims
  {
    LineFullIff(data, delim, numDelims, lines, l);
    FullLineColumns(lines[l], delim, numDelims, text, i);
  }

  lemma FullLineColumns(line: Line, delim: char, numDelims: nat, text: string, i: nat)
    requires CellsFull(line.cells, delim, numDelims) && i < |line.cells| && PrintsLine(text, line, delim, numDelims)
    ensures Split(text, delim)[0] == DecimalInt(line.key)
    ensures IsSlice(Split(text, delim), 1 + numDelims * i, CellColumns(line.cells[i], delim, numDelims))
    ensures |CellColumns(line.cells[i], delim, numDelims)| == numDelims
  {
    CellWidth(line.cells[i], delim, numDelims);
    ColumnsOfFile(line.cells, delim, numDelims, i);
    SliceBehind(DecimalInt(line.key), Columns(line.cells, delim, numDelims), numDelims * i,
                CellColumns(line.cells[i], delim, numDelims));
  }

  // ----- the header

  /** The header of the first file, and its columns again for every other file. */
  function HeaderLine(header: string, delim: char, others: nat): string
    requires others > 0 ==> delim in header
  {
    if others == 0 then Strip(header) else HeaderLine(header, delim, others - 1) + ([delim] + RestCols(header, delim))
  }

  lemma {:induction false} HeaderDelimiters(header: string, delim: char, others: nat)
    requires delim in header
    ensures Count(HeaderLine(header, delim, others), delim)
         == Count(Strip(header), delim) + (1 + Count(RestCols(header, delim), delim)) * others
  {
    if others > 0 {
      HeaderDelimiters(header, delim, others - 1);
      CountConcat(HeaderLine(header, delim, others - 1), [delim] + RestCols(header, delim), delim);
      CellDelimiters(Some(RestCols(header, delim)), delim, 0);
      NextProduct(1 + Count(RestCols(header, delim), delim), others - 1);
    }
  }

  /** The header line read back: the columns of the first header, and all but the first again for every other file. */
  lemma {:induction false} HeaderColumns(header: string, delim: char, others: nat)
    requires delim in header
    ensures Split(HeaderLine(header, delim, others), delim)
         == Split(Strip(header), delim) + Copies(Split(RestCols(header, delim), delim), others)
  {
    if others == 0 {
      assert Split(Strip(header), delim) + [] == Split(Strip(header), delim);
    } else {
      HeaderColumns(header, delim, others - 1);
      SplitJoin(HeaderLine(header, delim, others - 1), RestCols(header, delim), delim);
      var rest := Split(RestCols(header, delim), delim);
      Associate(Split(Strip(header), delim), Copies(rest, others - 1), rest);
    }
  }

  function Copies(s: seq<string>, n: nat): seq<string> {
    if n == 0 then [] else Copies(s, n - 1) + s
  }

  /** The header line has its delimiters once per file exactly when neither strip loses one. */
  lemma HeaderRegularIff(header: string, delim: char, others: nat)
    requires delim in header
    ensures Count(HeaderLine(header, delim, others), delim) == Count(header, delim) * (others + 1)
            <==> (!IsSpace(delim) || Shielded(header, delim)) && (others > 0 ==> KeepsColumns(header, delim))
  {
    HeaderDelimiters(header, delim, others);
    StripKeepsIff(header, delim);
    RestColsKeepsIff(header, delim);
    var c, r := Count(header, delim), 1 + Count(RestCols(header, delim), delim);
    NextProduct(c, others);
    TimesAtMost(r, c, others);
  }

  lemma TimesAtMost(r: nat, c: nat, k: nat)
    requires r <= c
    ensures r * k <= c * k && (r * k == c * k <==> r == c || k == 0)
  {
    Numbers.MulMonotone(k, r, c);
    if r < c {
      Numbers.MulMonotone(k, r + 1, c);
      Numbers.MulDistributes(k, r, 1);
    }
  }

  // ----- the script

  /** The first i files have headers, with as many delimiters as the first. */
  predicate AgreeUpTo(files: seq<seq<string>>, delim: char, i: nat)
    requires i <= |files|
  {
    forall k :: 0 <= k < i ==> Agrees(files, delim, k)
  }

  predicate Agrees(files: seq<seq<string>>, delim: char, k: nat)
    requires k < |files|
  {
    files[k] != [] && files[0] != [] && Count(files[k][0], delim) == Count(files[0][0], delim)
  }

  predicate Differs(files: seq<seq<string>>, delim: char, k: nat)
    requires k < |files|
  {
    files[k] != [] && files[0] != [] && !Agrees(files, delim, k)
  }

  /** The first header can be repeated, or need not be. */
  predicate HeaderOk(files: seq<seq<string>>, delim: char) {
    |files| <= 1 || files[0] == [] || delim in files[0][0]
  }

  /** Every file has a header and data rows, and the headers agree. */
  predicate Readable(files: seq<seq<string>>, delim: char) {
    HeaderOk(files, delim) && AgreeUpTo(files, delim, |files|) && forall i :: 0 <= i < |files| ==> |files[i]| > 1
  }

  /** Reading the headers, comparing them on the way, and then the first data row of each file. */
  method ReadFirst(files: seq<seq<string>>, delim: char) returns (fault: Option<Outcome>)
    requires files != []
    ensures fault == None <==> Readable(files, delim)
    ensures fault == Some(ValueError) <==> !HeaderOk(files, delim)
    ensures fault == Some(DifferentColumns) <==>
              HeaderOk(files, delim)
              && exists i :: 0 <= i < |files| && AgreeUpTo(files, delim, i) && Differs(files, delim, i)
    ensures fault.Some? ==> !fault.value.Joined?
  {
    var i := 0;
    while i < |files|
      invariant 0 <= i <= |files| && AgreeUpTo(files, delim, i) && (i > 0 ==> HeaderOk(files, delim))
    {
      if files[i] == [] {
        assert !Agrees(files, delim, i);
        return Some(StopIteration);
      }
      assert i > 0 ==> Agrees(files, delim, 0);
      if i == 0 {
        if |files| > 1 && delim !in files[0][0] {
          return Some(ValueError);
        }
      } else if Count(files[i][0], delim) != Count(files[0][0], delim) {
        assert Differs(files, delim, i);
        return Some(DifferentColumns);
      }
      i := i + 1;
    }
    i := 0;
    while i < |files|
      invariant 0 <= i <= |files| && forall k :: 0 <= k < i ==> |files[k]| > 1
      invariant HeaderOk(files, delim) && AgreeUpTo(files, delim, |files|)
    {
      assert Agrees(files, delim, i);
      if |files[i]| == 1 {
        return Some(StopIteration);
      }
      i := i + 1;
    }
    fault := None;
  }

  /** What the merge prints for the data rows of the files: every row, in its columns; the outer join when keys
      increase; and, when the rows are as wide as the header, a constant number of delimiters if and only if no row
      loses one. */
  ghost predicate Correct(data: seq<seq<string>>, delim: char, numDelims: nat, lines: seq<Line>, texts: seq<string>)
    requires AllData(data, delim)
  {
    var tables := Tables(data, delim);
    && Listed(tables, lines)
    && ((forall i :: 0 <= i < |tables| ==> Increasing(tables[i])) ==> OuterJoin(tables, lines))
    && Rendered(texts, lines, delim, numDelims)
    && (forall l :: 0 <= l < |texts| ==> PrintsLine(texts[l], lines[l], delim, numDelims))
    && (SameWidth(data, delim, numDelims) ==> (Regular(texts, delim, numDelims * |data|) <==> AllKeep(data, delim)))
  }

  /** A printed text holds, column by column, the key and what each file has for it. */
  ghost predicate PrintsLine(text: string, line: Line, delim: char, numDelims: nat) {
    Split(text, delim) == [DecimalInt(line.key)] + Columns(line.cells, delim, numDelims)
  }

  ghost predicate Rendered(texts: seq<string>, lines: seq<Line>, delim: char, numDelims: nat) {
    |texts| == |lines| && forall l :: 0 <= l < |lines| ==> texts[l] == Render(lines[l], delim, numDelims)
  }

  ghost predicate Regular(texts: seq<string>, delim: char, n: int) {
    forall l :: 0 <= l < |texts| ==> Count(texts[l], delim) == n
  }

  method PrintLines(lines: seq<Line>, delim: char, numDelims: nat) returns (texts: seq<string>)
    ensures Rendered(texts, lines, delim, numDelims)
  {
    texts := [];
    for l := 0 to |lines|
      invariant |texts| == l && forall k :: 0 <= k < l ==> texts[k] == Render(lines[k], delim, numDelims)
    {
      texts := texts + [Render(lines[l], delim, numDelims)];
    }
  }

  lemma RegularIff(texts: seq<string>, lines: seq<Line>, delim: char, numDelims: nat, k: nat)
    requires Rendered(texts, lines, delim, numDelims)
    ensures Regular(texts, delim, numDelims * k) <==> LinesRegular(lines, delim, numDelims, k)
  {
    if Regular(texts, delim, numDelims * k) {
      forall l | 0 <= l < |lines|
        ensures Count(Render(lines[l], delim, numDelims), delim) == numDelims * k
      {
        assert Count(texts[l], delim) == numDelims * k;
      }
    }
  }

  method JoinData(data: seq<seq<string>>, delim: char, numDelims: nat)
    returns (texts: seq<string>, ghost lines: seq<Line>)
    requires AllData(data, delim)
    ensures Correct(data, delim, numDelims, lines, texts)
  {
    var table := Merge(Tables(data, delim));
    texts := PrintLines(table, delim, numDelims);
    lines := table;
    forall l | 0 <= l < |texts|
      ensures PrintsLine(texts[l], lines[l], delim, numDelims)
    {
      LineKey(data, delim, lines, l);
      CountZeroIff(DecimalInt(lines[l].key), delim);
      RenderedColumns(DecimalInt(lines[l].key), lines[l].cells, delim, numDelims);
    }
    if SameWidth(data, delim, numDelims) {
      DelimitersConstantIff(data, delim, numDelims, lines);
      RegularIff(texts, lines, delim, numDelims, |data|);
    }
  }

  function Data(files: seq<seq<string>>): (r: seq<seq<string>>)
    requires forall i :: 0 <= i < |files| ==> |files[i]| > 1
    ensures |r| == |files| && forall i :: 0 <= i < |files| ==> r[i] == files[i][1..]
  {
    seq(|files|, i requires 0 <= i < |files| => files[i][1..])
  }

  /** The whole script. A malformed row raises ValueError when it is next in line or printed, which every row is. */
  method Join(files: seq<seq<string>>, delim: char) returns (r: Outcome, ghost lines: seq<Line>)
    requires files != []
    ensures r.DifferentColumns? <==>
              HeaderOk(files, delim)
              && exists i :: 0 <= i < |files| && AgreeUpTo(files, delim, i) && Differs(files, delim, i)
    ensures r.Joined? <==> Readable(files, delim) && AllData(Data(files), delim)
    ensures r.ValueError? <==> !HeaderOk(files, delim) || (Readable(files, delim) && !AllData(Data(files), delim))
    ensures r.Joined? ==> r.header == HeaderLine(files[0][0], delim, |files| - 1)
    ensures r.Joined? ==> Correct(Data(files), delim, Count(files[0][0], delim), lines, r.lines)
  {
    lines := [];
    var fault := ReadFirst(files, delim);
    if fault.Some? {
      return fault.value, lines;
    }
    assert Agrees(files, delim, 0);
    var data := Data(files);
    if !AllData(data, delim) {
      return ValueError, lines;
    }
    var texts, table := JoinData(data, delim, Count(files[0][0], delim));
    lines := table;
    r := Joined(HeaderLine(files[0][0], delim, |files| - 1), texts);
  }
}
