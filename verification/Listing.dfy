/** The multi-column listing of completions in libtecla/cplmatch.c. */
module Listings {
  import opened Basics
  import opened Writers

  /** CPL_COL_SEP, the least number of spaces between columns. */
  const COL_SEP: int := 2

  datatype Match = Match(completion: string, typeSuffix: string) {
    function Text(): string {
      completion + typeSuffix
    }
  }

  datatype Format = Format(termWidth: int, columnWidth: int, nline: int, ncol: int)

  /** The width of the widest match. */
  function MaxLen(ms: seq<Match>, n: nat): (w: nat)
    requires n <= |ms|
    ensures forall i :: 0 <= i < n ==> |ms[i].Text()| <= w
    ensures w == 0 || exists i :: 0 <= i < n && |ms[i].Text()| == w
  {
    if n == 0 then 0
    else var w := MaxLen(ms, n - 1); if |ms[n - 1].Text()| > w then |ms[n - 1].Text()| else w
  }

  /** As many columns as fit, but at least one, and no more lines than they need. */
  ghost predicate Planned(ms: seq<Match>, termWidth: int, fmt: Format) {
    && fmt.termWidth == termWidth && fmt.columnWidth == MaxLen(ms, |ms|)
    && (if fmt.columnWidth == 0 then fmt.nline == fmt.ncol == 0
        else
          && fmt.ncol >= 1 && fmt.nline >= 1
          && (fmt.ncol == 1 || fmt.ncol * (fmt.columnWidth + COL_SEP) <= termWidth)
          && termWidth < (fmt.ncol + 1) * (fmt.columnWidth + COL_SEP)
          && (fmt.nline - 1) * fmt.ncol < |ms| <= fmt.nline * fmt.ncol)
  }

  lemma DivBounds(x: int, n: int)
    requires n >= 1
    ensures (x / n) * n <= x < (x / n + 1) * n
  {
    assert (x / n + 1) * n == (x / n) * n + n;
  }

  method PlanListing(ms: seq<Match>, termWidth0: int) returns (fmt: Format)
    ensures Planned(ms, if termWidth0 < 0 then 0 else termWidth0, fmt)
  {
    var termWidth := if termWidth0 < 0 then 0 else termWidth0;
    var maxlen := 0;
    var i := 0;
    while i < |ms|
      invariant 0 <= i <= |ms| && maxlen == MaxLen(ms, i)
    {
      var len := |ms[i].completion| + |ms[i].typeSuffix|;
      if len > maxlen {
        maxlen := len;
      }
      i := i + 1;
    }
    fmt := Format(termWidth, 0, 0, 0);
    if maxlen == 0 {
      return;
    }
    var ncol := termWidth / (maxlen + COL_SEP);
    ColumnsThatFit(termWidth, maxlen + COL_SEP);
    if ncol < 1 {
      ncol := 1;
    }
    var nline := (|ms| + ncol - 1) / ncol;
    LinesNeeded(|ms|, ncol);
    fmt := Format(termWidth, maxlen, nline, ncol);
  }

  lemma ColumnsThatFit(width: int, w: int)
    requires width >= 0 && w >= 1
    ensures var ncol := if width / w < 1 then 1 else width / w;
            (ncol == 1 || ncol * w <= width) && width < (ncol + 1) * w
  {
    DivBounds(width, w);
  }

  lemma LinesNeeded(n: int, ncol: int)
    requires n >= 1 && ncol >= 1
    ensures var nline := (n + ncol - 1) / ncol;
            nline >= 1 && (nline - 1) * ncol < n <= nline * ncol
  {
    var nline := (n + ncol - 1) / ncol;
    DivBounds(n + ncol - 1, ncol);
    assert (nline + 1) * ncol == nline * ncol + ncol;
    assert (nline - 1) * ncol == nline * ncol - ncol;
    assert nline <= 0 ==> nline * ncol <= 0;
  }

  function Spaces(n: nat): string {
    seq(n, _ => ' ')
  }

  /** What is written for one column of a line. */
  function Cell(ms: seq<Match>, fmt: Format, lnum: int, col: int): string
    requires 0 <= col && 0 <= lnum && 0 <= fmt.nline
  {
    var m := col * fmt.nline + lnum;
    if 0 <= m < |ms| then
      var pad := fmt.columnWidth + COL_SEP - |ms[m].Text()|;
      ms[m].Text() + (if col + 1 < fmt.ncol && pad > 0 then Spaces(pad) else "")
    else ""
  }

  /** The first `cols` columns of a line. */
  function Cells(ms: seq<Match>, fmt: Format, lnum: int, cols: nat): string
    requires 0 <= lnum && 0 <= fmt.nline
  {
    if cols == 0 then "" else Cells(ms, fmt, lnum, cols - 1) + Cell(ms, fmt, lnum, cols - 1)
  }

  function LineText(ms: seq<Match>, fmt: Format, lnum: int): string
    requires 0 <= lnum && 0 <= fmt.nline && 0 <= fmt.ncol
  {
    Cells(ms, fmt, lnum, fmt.ncol) + "\r\n"
  }

  function Lines(ms: seq<Match>, fmt: Format, n: nat): string
    requires 0 <= fmt.nline && 0 <= fmt.ncol
  {
    if n == 0 then "" else Lines(ms, fmt, n - 1) + LineText(ms, fmt, n - 1)
  }

  // ---------- Writing ----------

  /** After writing `text`, or a part of it if there was an error: there is one exactly if the last
      call accepted less than it was offered, and never if the writer accepts all it is offered. */
  twostate predicate Wrote(writer: Writer, text: string, err: bool)
    reads writer
  {
    && old(writer.calls) <= writer.calls
    && (writer.calls == old(writer.calls) ==> writer.last == old(writer.last) && writer.offered == old(writer.offered))
    && (if err then
          && old(writer.out) <= writer.out <= old(writer.out) + text
          && writer.calls > old(writer.calls) && writer.last < writer.offered
        else
          && writer.out == old(writer.out) + text
          && (writer.calls > old(writer.calls) ==> writer.last == writer.offered))
    && (writer.AcceptsAll() ==> !err)
  }

  /** Write a string, which is an error unless all of it is accepted. */
  method Emit(text: string, writer: Writer) returns (err: bool)
    modifies writer
    ensures Wrote(writer, text, err)
  {
    var n := writer.Write(text);
    err := n != |text|;
    assert n == |text| ==> text[..n] == text;
  }

  /** Write npad spaces, in as few pieces as possible. */
  method Pad(npad0: int, writer: Writer) returns (err: bool)
    modifies writer
    ensures Wrote(writer, if npad0 > 0 then Spaces(npad0) else "", err)
  {
    var spaces := Spaces(20);
    var nspace := |spaces|;
    var npad := npad0;
    err := false;
    while npad > 0
      invariant npad <= npad0 && (npad0 > 0 ==> npad >= 0)
      invariant npad0 > 0 ==> writer.out == old(writer.out) + Spaces(npad0 - npad)
      invariant npad0 <= 0 ==> writer.out == old(writer.out)
      invariant old(writer.calls) <= writer.calls
      invariant writer.calls > old(writer.calls) ==> writer.last == writer.offered
      invariant writer.calls == old(writer.calls) ==>
                writer.last == old(writer.last) && writer.offered == old(writer.offered)
    {
      var n := if npad > nspace then nspace else npad;
      assert spaces[nspace - n..] == Spaces(n);
      assert Spaces(npad0 - npad) + Spaces(n) == Spaces(npad0 - (npad - n));
      assert Spaces(npad0 - (npad - n)) <= Spaces(npad0);
      err := Emit(spaces[nspace - n..], writer);
      if err {
        return;
      }
      npad := npad - n;
    }
  }

  /** A part of a piece that continues what has been written is a part of the whole text. */
  lemma PartOfText(out0: string, done: string, piece: string, text: string, out: string)
    requires done + piece <= text && out0 + done <= out <= (out0 + done) + piece
    ensures out0 <= out <= out0 + text
  {
    assert (out0 + done) + piece == out0 + (done + piece);
    assert out0 + (done + piece) <= out0 + text;
  }

  lemma LineParts(ms: seq<Match>, fmt: Format, lnum: int, col: nat)
    requires 0 <= lnum && 0 <= fmt.nline && col < fmt.ncol
    ensures Cells(ms, fmt, lnum, col) + Cell(ms, fmt, lnum, col) == Cells(ms, fmt, lnum, col + 1)
            <= LineText(ms, fmt, lnum)
  {
    CellsGrow(ms, fmt, lnum, col + 1, fmt.ncol);
  }

  function CellPad(fmt: Format, col: int, len: int): string {
    if col + 1 < fmt.ncol && fmt.columnWidth + COL_SEP > len then Spaces(fmt.columnWidth + COL_SEP - len) else ""
  }

  lemma CellParts(ms: seq<Match>, fmt: Format, lnum: int, col: int)
    requires 0 <= lnum && 0 <= fmt.nline && 0 <= col
    ensures var m := col * fmt.nline + lnum;
            if 0 <= m < |ms| then
              Cell(ms, fmt, lnum, col) == ms[m].completion + ms[m].typeSuffix + CellPad(fmt, col, |ms[m].Text()|)
            else Cell(ms, fmt, lnum, col) == ""
  {
  }

  lemma JoinParts(out: string, a: string, b: string)
    ensures (out + a) + b == out + (a + b)
  {
  }

  /** Write a match, and the spaces that pad its column. */
  method FormatMatch(mt: Match, fmt: Format, col: int, writer: Writer) returns (err: bool)
    modifies writer
    ensures Wrote(writer, mt.completion + mt.typeSuffix + CellPad(fmt, col, |mt.Text()|), err)
  {
    hide Spaces;
    ghost var a, b, c := mt.completion, mt.typeSuffix, CellPad(fmt, col, |mt.Text()|);
    ghost var out0, text := writer.out, a + b + c;
    var clen := |mt.completion|;
    var tlen := |mt.typeSuffix|;
    err := Emit(mt.completion, writer);
    if err {
      assert a <= text;
      return;
    }
    JoinParts(out0, a, b);
    JoinParts(out0, a + b, c);
    if tlen > 0 {
      err := Emit(mt.typeSuffix, writer);
      if err {
        assert a + b <= text;
        PartOfText(out0, a, b, text, writer.out);
        return;
      }
    } else {
      assert a + b == a;
    }
    assert writer.out == out0 + (a + b);
    if col + 1 < fmt.ncol {
      err := Pad(fmt.columnWidth + COL_SEP - clen - tlen, writer);
      if err {
        PartOfText(out0, a + b, c, text, writer.out);
      }
    } else {
      assert a + b + c == a + b;
    }
  }

  /** Write one column of a line. */
  method FormatColumn(ms: seq<Match>, fmt: Format, lnum: int, col: int, writer: Writer) returns (err: bool)
    requires 0 <= lnum && 0 <= fmt.nline && 0 <= col
    modifies writer
    ensures Wrote(writer, Cell(ms, fmt, lnum, col), err)
  {
    hide Cell, CellPad;
    CellParts(ms, fmt, lnum, col);
    var m := col * fmt.nline + lnum;
    err := false;
    if 0 <= m < |ms| {
      err := FormatMatch(ms[m], fmt, col, writer);
    }
  }

  lemma CellsGrow(ms: seq<Match>, fmt: Format, lnum: int, cols: nat, n: nat)
    requires 0 <= lnum && 0 <= fmt.nline && cols <= n
    ensures Cells(ms, fmt, lnum, cols) <= Cells(ms, fmt, lnum, n)
    decreases n
  {
    if cols < n { CellsGrow(ms, fmt, lnum, cols, n - 1); }
  }

  /** Write line number lnum of the listing. */
  method FormatLine(ms: seq<Match>, fmt: Format, lnum: int, writer: Writer) returns (err: bool)
    requires 0 <= fmt.nline && 0 <= fmt.ncol
    modifies writer
    ensures !(0 <= lnum < fmt.nline) ==> err && writer.out == old(writer.out) && writer.calls == old(writer.calls)
    ensures 0 <= lnum < fmt.nline ==> Wrote(writer, LineText(ms, fmt, lnum), err)
  {
    hide Cell, LineText;
    if lnum < 0 || lnum >= fmt.nline {
      return true;
    }
    ghost var text := LineText(ms, fmt, lnum);
    var col := 0;
    while col < fmt.ncol
      invariant 0 <= col <= fmt.ncol && Wrote(writer, Cells(ms, fmt, lnum, col), false)
    {
      LineParts(ms, fmt, lnum, col);
      err := FormatColumn(ms, fmt, lnum, col, writer);
      if err {
        PartOfText(old(writer.out), Cells(ms, fmt, lnum, col), Cell(ms, fmt, lnum, col), text, writer.out);
        return;
      }
      assert writer.out == old(writer.out) + (Cells(ms, fmt, lnum, col) + Cell(ms, fmt, lnum, col));
      col := col + 1;
    }
    LineEnd(ms, fmt, lnum);
    err := Emit("\r\n", writer);
    if err {
      PartOfText(old(writer.out), Cells(ms, fmt, lnum, col), "\r\n", text, writer.out);
    } else {
      assert writer.out == old(writer.out) + (Cells(ms, fmt, lnum, col) + "\r\n");
    }
  }

  lemma LineEnd(ms: seq<Match>, fmt: Format, lnum: int)
    requires 0 <= lnum && 0 <= fmt.nline && 0 <= fmt.ncol
    ensures LineText(ms, fmt, lnum) == Cells(ms, fmt, lnum, fmt.ncol) + "\r\n"
  {
  }

  lemma LinesParts(ms: seq<Match>, fmt: Format, n: nat)
    requires 0 <= fmt.nline && 0 <= fmt.ncol && n < fmt.nline
    ensures Lines(ms, fmt, n) + LineText(ms, fmt, n) == Lines(ms, fmt, n + 1) <= Lines(ms, fmt, fmt.nline)
  {
    LinesGrow(ms, fmt, n + 1, fmt.nline);
  }

  lemma NoLines(ms: seq<Match>, fmt: Format)
    requires 0 <= fmt.nline && 0 <= fmt.ncol
    ensures Lines(ms, fmt, 0) == ""
  {
  }

  lemma LinesGrow(ms: seq<Match>, fmt: Format, n: nat, m: nat)
    requires 0 <= fmt.nline && 0 <= fmt.ncol && n <= m
    ensures Lines(ms, fmt, n) <= Lines(ms, fmt, m)
    decreases m
  {
    if n < m { LinesGrow(ms, fmt, n, m - 1); }
  }

  lemma PlannedSizes(ms: seq<Match>, termWidth: int, fmt: Format)
    requires Planned(ms, termWidth, fmt)
    ensures fmt.nline >= 0 && fmt.ncol >= 0
  {
  }

  lemma NothingPlanned(ms: seq<Match>, termWidth: int)
    requires ms == []
    ensures Planned(ms, termWidth, Format(termWidth, 0, 0, 0))
  {
  }

  /** Write the whole listing. */
  method OutputCompletions(ms: seq<Match>, writer: Writer, termWidth: int) returns (err: bool, ghost fmt: Format)
    modifies writer
    ensures termWidth >= 1 ==> Planned(ms, termWidth, fmt) && Wrote(writer, Lines(ms, fmt, fmt.nline), err)
    ensures termWidth < 1 ==> !err && writer.out == old(writer.out) && writer.calls == old(writer.calls)
    ensures termWidth >= 1 && writer.AcceptsAll() ==> !err && writer.out == old(writer.out) + Lines(ms, fmt, fmt.nline)
  {
    hide LineText, Lines, Planned, MaxLen;
    err := false;
    fmt := Format(0, 0, 0, 0);
    if termWidth < 1 {
      return;
    }
    if |ms| > 0 {
      var plan := PlanListing(ms, termWidth);
      fmt := plan;
      PlannedSizes(ms, termWidth, plan);
      NoLines(ms, plan);
      var lnum := 0;
      while lnum < plan.nline
        invariant 0 <= lnum <= plan.nline && Wrote(writer, Lines(ms, plan, lnum), false)
      {
        LinesParts(ms, plan, lnum);
        err := FormatLine(ms, plan, lnum, writer);
        if err {
          PartOfText(old(writer.out), Lines(ms, plan, lnum), LineText(ms, plan, lnum),
                     Lines(ms, plan, plan.nline), writer.out);
          return;
        }
        assert writer.out == old(writer.out) + (Lines(ms, plan, lnum) + LineText(ms, plan, lnum));
        lnum := lnum + 1;
      }
    } else {
      fmt := Format(termWidth, 0, 0, 0);
      NothingPlanned(ms, termWidth);
      NoLines(ms, fmt);
    }
  }

  // ---------- The layout ----------

  /** The cell of match number m. */
  lemma CellOf(n: int, nline: int, ncol: int, m: int)
    requires nline >= 1 && ncol >= 1 && (nline - 1) * ncol < n <= nline * ncol && 0 <= m < n
    ensures 0 <= m % nline < nline && 0 <= m / nline < ncol
    ensures (m / nline) * nline + m % nline == m
  {
    if m / nline >= ncol {
      MulMonotone(ncol, m / nline, nline);
    }
  }

  lemma MulMonotone(a: int, b: int, n: int)
    requires a <= b && n >= 0
    ensures a * n <= b * n
  {
    assert (b - a) * n >= 0;
  }

  /** No two cells are for the same match. */
  lemma CellsAreDistinct(nline: int, l: int, c: int, m: int)
    requires nline >= 1 && 0 <= l < nline && 0 <= c && c * nline + l == m
    ensures l == m % nline && c == m / nline
  {
    DivModUnique(m, c, l, nline);
  }

  lemma MaxLenBounds(ms: seq<Match>, m: int)
    requires 0 <= m < |ms|
    ensures |ms[m].Text()| <= MaxLen(ms, |ms|)
  {
  }

  lemma FullCell(ms: seq<Match>, fmt: Format, lnum: int, col: nat)
    requires 0 <= lnum && 0 <= fmt.nline && fmt.columnWidth == MaxLen(ms, |ms|) && col + 1 < fmt.ncol
    requires col * fmt.nline + lnum < |ms|
    ensures |Cell(ms, fmt, lnum, col)| == fmt.columnWidth + COL_SEP
  {
    hide MaxLen;
    var m := col * fmt.nline + lnum;
    assert 0 <= m;
    MaxLenBounds(ms, m);
  }

  /** A column that another one follows, in the same line, has the full width. */
  lemma {:induction false} FullCells(ms: seq<Match>, fmt: Format, lnum: int, cols: nat)
    requires 0 <= lnum < fmt.nline && fmt.columnWidth == MaxLen(ms, |ms|) && cols < fmt.ncol
    requires cols * fmt.nline + lnum < |ms|
    ensures |Cells(ms, fmt, lnum, cols)| == cols * (fmt.columnWidth + COL_SEP)
    decreases cols
  {
    hide Cell, MaxLen;
    if cols > 0 {
      var w, n := fmt.columnWidth + COL_SEP, fmt.nline;
      assert cols * n == (cols - 1) * n + n && cols * w == (cols - 1) * w + w;
      FullCells(ms, fmt, lnum, cols - 1);
      FullCell(ms, fmt, lnum, cols - 1);
    }
  }

  /** Match number m is written in line m % nline, from the start of column m / nline. */
  lemma MatchIsPlaced(ms: seq<Match>, fmt: Format, termWidth: int, m: int)
    requires Planned(ms, termWidth, fmt) && fmt.columnWidth > 0 && 0 <= m < |ms|
    ensures var l, c := m % fmt.nline, m / fmt.nline; var at := c * (fmt.columnWidth + 2);
            && 0 <= l < fmt.nline && 0 <= c < fmt.ncol && 0 <= at
            && at + |ms[m].Text()| <= |LineText(ms, fmt, l)| - 2
            && LineText(ms, fmt, l)[at..at + |ms[m].Text()|] == ms[m].Text()
  {
    hide Cell, Cells, MaxLen;
    CellOf(|ms|, fmt.nline, fmt.ncol, m);
    var l, c := m % fmt.nline, m / fmt.nline;
    FullCells(ms, fmt, l, c);
    LineParts(ms, fmt, l, c);
    TextInCell(ms, fmt, l, c, m);
    CellsGrow(ms, fmt, l, c + 1, fmt.ncol);
    TextAt(Cells(ms, fmt, l, c), Cell(ms, fmt, l, c), Cells(ms, fmt, l, fmt.ncol), ms[m].Text());
  }

  lemma TextInCell(ms: seq<Match>, fmt: Format, l: int, c: int, m: int)
    requires 0 <= l && 0 <= c && 0 <= fmt.nline && m == c * fmt.nline + l && 0 <= m < |ms|
    ensures ms[m].Text() <= Cell(ms, fmt, l, c)
  {
  }

  lemma TextAt(before: string, cell: string, line: string, text: string)
    requires before + cell <= line && text <= cell
    ensures |before| + |text| <= |line|
    ensures (line + "\r\n")[|before|..|before| + |text|] == text
  {
    assert line[..|before| + |cell|] == before + cell;
  }

  /** If the widest match fits in the terminal, so does every line. */
  lemma LinesFit(ms: seq<Match>, fmt: Format, termWidth: int, lnum: int)
    requires Planned(ms, termWidth, fmt) && 0 <= lnum < fmt.nline && fmt.columnWidth <= termWidth
    ensures |LineText(ms, fmt, lnum)| - 2 <= termWidth
  {
    CellsFit(ms, fmt, lnum, fmt.ncol);
    assert fmt.ncol == 1 ==> |Cells(ms, fmt, lnum, 1)| == |Cells(ms, fmt, lnum, 0)| + |Cell(ms, fmt, lnum, 0)|;
  }

  lemma CellFits(ms: seq<Match>, fmt: Format, lnum: int, col: nat)
    requires 0 <= lnum < fmt.nline && fmt.columnWidth == MaxLen(ms, |ms|) && col < fmt.ncol
    ensures |Cell(ms, fmt, lnum, col)| <= fmt.columnWidth + COL_SEP
    ensures fmt.ncol == 1 ==> |Cell(ms, fmt, lnum, col)| <= fmt.columnWidth
  {
    var m := col * fmt.nline + lnum;
    if 0 <= m < |ms| { MaxLenBounds(ms, m); }
  }

  lemma {:induction false} CellsFit(ms: seq<Match>, fmt: Format, lnum: int, cols: nat)
    requires 0 <= lnum < fmt.nline && fmt.columnWidth == MaxLen(ms, |ms|) && cols <= fmt.ncol
    ensures |Cells(ms, fmt, lnum, cols)| <= cols * (fmt.columnWidth + COL_SEP)
    ensures fmt.ncol == 1 ==> |Cells(ms, fmt, lnum, cols)| <= fmt.columnWidth
    decreases cols
  {
    hide Cell, MaxLen;
    if cols > 0 {
      CellsFit(ms, fmt, lnum, cols - 1);
      CellFits(ms, fmt, lnum, cols - 1);
      var w := fmt.columnWidth + COL_SEP;
      assert cols * w == (cols - 1) * w + w;
    }
  }

  /** Only matches are written, each in its own cell: a cell that is not that of a match is empty. */
  lemma OtherCellsAreEmpty(ms: seq<Match>, fmt: Format, termWidth: int, l: int, c: int)
    requires Planned(ms, termWidth, fmt) && 0 <= l < fmt.nline && 0 <= c < fmt.ncol
    requires Cell(ms, fmt, l, c) != ""
    ensures var m := c * fmt.nline + l;
            0 <= m < |ms| && m % fmt.nline == l && m / fmt.nline == c && ms[m].Text() <= Cell(ms, fmt, l, c)
  {
    CellsAreDistinct(fmt.nline, l, c, c * fmt.nline + l);
  }

  /** The plan in numbers: columns of the width of the widest match and two more characters, as many as
      the terminal has room for, but one at least, and just the lines that they need. */
  lemma PlanInNumbers(ms: seq<Match>, termWidth: int, fmt: Format)
    requires Planned(ms, termWidth, fmt) && termWidth >= 0 && exists i :: 0 <= i < |ms| && ms[i].Text() != ""
    ensures fmt.columnWidth > 0 && (forall i :: 0 <= i < |ms| ==> |ms[i].Text()| <= fmt.columnWidth)
    ensures exists i :: 0 <= i < |ms| && |ms[i].Text()| == fmt.columnWidth
    ensures var w := fmt.columnWidth + 2; var k := termWidth / w;
            && fmt.ncol == (if k < 1 then 1 else k)
            && fmt.nline == (if |ms| % fmt.ncol == 0 then |ms| / fmt.ncol else |ms| / fmt.ncol + 1)
  {
    var i :| 0 <= i < |ms| && ms[i].Text() != "";
    assert |ms[i].Text()| <= fmt.columnWidth;
    var w := fmt.columnWidth + 2;
    ColumnsInNumbers(termWidth, w, fmt.ncol);
    LinesInNumbers(|ms|, fmt.ncol, fmt.nline);
  }

  lemma ColumnsInNumbers(width: int, w: int, ncol: int)
    requires width >= 0 && w >= 1 && ncol >= 1 && (ncol == 1 || ncol * w <= width) && width < (ncol + 1) * w
    ensures ncol == if width / w < 1 then 1 else width / w
  {
    assert (ncol + 1) * w == ncol * w + w;
    if ncol * w <= width {
      DivModUnique(width, ncol, width - ncol * w, w);
    } else {
      DivModUnique(width, 0, width, w);
    }
  }

  lemma LinesInNumbers(n: int, ncol: int, nline: int)
    requires n >= 1 && ncol >= 1 && nline >= 1 && (nline - 1) * ncol < n <= nline * ncol
    ensures nline == if n % ncol == 0 then n / ncol else n / ncol + 1
  {
    assert (nline - 1) * ncol == nline * ncol - ncol;
    if n == nline * ncol {
      DivModUnique(n, nline, 0, ncol);
    } else {
      DivModUnique(n, nline - 1, n - (nline - 1) * ncol, ncol);
    }
  }

  /** What is at place q of the first columns of a line. */
  lemma {:induction false} CellsShow(ms: seq<Match>, fmt: Format, l: int, cols: nat, q: int)
    requires 0 <= l < fmt.nline && fmt.columnWidth == MaxLen(ms, |ms|) && cols <= fmt.ncol
    requires 0 <= q < |Cells(ms, fmt, l, cols)|
    ensures Shows(ms, fmt, l, q, Cells(ms, fmt, l, cols)[q])
    decreases cols
  {
    hide Cell, MaxLen, Shows;
    var before := Cells(ms, fmt, l, cols - 1);
    if q < |before| {
      CellsShow(ms, fmt, l, cols - 1, q);
    } else {
      CellShows(ms, fmt, l, cols - 1, q - |before|);
      assert Cells(ms, fmt, l, cols)[q] == Cell(ms, fmt, l, cols - 1)[q - |before|];
      FullCells(ms, fmt, l, cols - 1);
    }
  }

  /** The character c belongs at place q of line l: it is one of a match, or a space after it. */
  predicate Shows(ms: seq<Match>, fmt: Format, l: int, q: int, c: char)
    requires fmt.columnWidth >= 0
  {
    var w := fmt.columnWidth + 2; var m := (q / w) * fmt.nline + l;
    0 <= m < |ms| && c == if q % w < |ms[m].Text()| then ms[m].Text()[q % w] else ' '
  }

  lemma CellShows(ms: seq<Match>, fmt: Format, l: int, col: nat, off: int)
    requires 0 <= l < fmt.nline && fmt.columnWidth == MaxLen(ms, |ms|) && col < fmt.ncol
    requires 0 <= off < |Cell(ms, fmt, l, col)|
    ensures col * fmt.nline + l < |ms|
    ensures Shows(ms, fmt, l, col * (fmt.columnWidth + 2) + off, Cell(ms, fmt, l, col)[off])
  {
    hide MaxLen;
    var m := col * fmt.nline + l;
    MaxLenBounds(ms, m);
    var w := fmt.columnWidth + 2;
    DivModUnique(col * w + off, col, off, w);
  }

  /** Every character of a line: match number (q / w) * nline + l starts at each place q that is a
      multiple of the width w of a column, only spaces follow it, and the line ends in a line end. */
  lemma LineShows(ms: seq<Match>, fmt: Format, termWidth: int, l: int, q: int)
    requires Planned(ms, termWidth, fmt) && fmt.columnWidth > 0 && 0 <= l < fmt.nline
    requires 0 <= q < |LineText(ms, fmt, l)|
    ensures var t := LineText(ms, fmt, l); var n := |t| - 2;
            0 <= n && t[n..] == "\r\n" && (q < n ==> Shows(ms, fmt, l, q, t[q]))
  {
    hide Cells, MaxLen;
    var t := LineText(ms, fmt, l);
    if q < |t| - 2 {
      assert t[q] == Cells(ms, fmt, l, fmt.ncol)[q];
      CellsShow(ms, fmt, l, fmt.ncol, q);
    }
  }
}
