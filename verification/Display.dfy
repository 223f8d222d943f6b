/** The display of an input line by libtecla/getline.c: what is written for each character, and
    where the editor takes the terminal cursor to be. */
module Displays {
  import opened Basics
  import opened Terminals

  /** TAB_WIDTH. */
  const TAB_WIDTH: int := 8

  /** The character that, with the control key, gives a control character. */
  function CtrlToChar(c: char): char
    requires IsCtrl(c)
  {
    if c == DEL then DEL else (c as int + 64) as char
  }

  function Octal(n: nat): string {
    (if n < 8 then "" else Octal(n / 8)) + [('0' as int + n % 8) as char]
  }

  /** The number of octal digits of a number. */
  method OctalWidth(num0: nat) returns (n: int)
    ensures n == |Octal(num0)|
  {
    n := 1;
    var num := num0 / 8;
    while num != 0
      invariant num >= 0 && |Octal(num0)| == if num == 0 then n else n + |Octal(num)|
    {
      n := n + 1;
      num := num / 8;
    }
  }

  /** The width of a tab at position p, on a terminal of n columns. */
  function TabWidth(p: int, n: int): (w: int)
    requires n >= 1
    ensures 1 <= w <= TAB_WIDTH
  {
    TAB_WIDTH - ((p % n) % TAB_WIDTH)
  }

  /** What is written for a character at position p. */
  function Rendered(c: char, p: int, n: int, isPrint: char -> bool): (r: string)
    requires n >= 1
    ensures r != ""
  {
    if c == '\t' then seq(TabWidth(p, n), _ => ' ')
    else if IsCtrl(c) then ['^', CtrlToChar(c)]
    else if !isPrint(c) then ['\\'] + Octal(c as int)
    else [c]
  }

  /** What is written for a string from position p on. */
  function Picture(s: string, p: int, n: int, isPrint: char -> bool): string
    requires n >= 1
    decreases |s|
  {
    if s == [] then ""
    else
      var r := Rendered(s[0], p, n, isPrint);
      r + Picture(s[1..], p + |r|, n, isPrint)
  }

  lemma {:induction false} PictureSplit(a: string, b: string, p: int, n: int, isPrint: char -> bool)
    requires n >= 1
    ensures Picture(a + b, p, n, isPrint) ==
            Picture(a, p, n, isPrint) + Picture(b, p + |Picture(a, p, n, isPrint)|, n, isPrint)
    decreases |a|
  {
    hide Rendered;
    if a == [] {
      assert a + b == b;
    } else {
      assert (a + b)[0] == a[0] && (a + b)[1..] == a[1..] + b;
      PictureSplit(a[1..], b, p + |Rendered(a[0], p, n, isPrint)|, n, isPrint);
    }
  }

  lemma OctalDigits(n: nat)
    ensures forall i :: 0 <= i < |Octal(n)| ==> '0' <= Octal(n)[i] <= '7'
  {
  }

  /** Only DEL is written for DEL. */
  lemma RenderedShows(c: char, p: int, n: int, isPrint: char -> bool)
    requires n >= 1 && c != DEL
    ensures DEL !in Rendered(c, p, n, isPrint)
  {
    OctalDigits(c as int);
  }

  predicate Showable(s: string) {
    DEL !in s
  }

  /** How often the end of a row can still be met: a space at the start of a row never meets it. */
  function Rank(c: char, pad: char, p: int, n: int): nat
    requires n >= 2
  {
    if c == ' ' && p % n == 0 then 0 else if pad in {' ', NUL} then 1 else 2
  }

  function PadOr(pad: char): char {
    if pad == NUL then ' ' else pad
  }

  lemma SpaceAtRowStart(p: int, n: int)
    requires n >= 2 && p >= 0 && p % n == 0
    ensures (p + 1) % n != 0
  {
    NextPosition(p, n);
  }

  lemma RankFalls(c: char, pad: char, p: int, n: int, isPrint: char -> bool)
    requires n >= 2 && p >= 0 && isPrint(' ') && (p + |Rendered(c, p, n, isPrint)|) % n == 0
    ensures Rank(PadOr(pad), ' ', p + |Rendered(c, p, n, isPrint)|, n) < Rank(c, pad, p, n)
  {
    if c == ' ' && p % n == 0 { SpaceAtRowStart(p, n); }
  }

  /** Everything that appears on the terminal when c is shown at position p: if it ends a row,
      then the start of the next row is written too. */
  function Padded(c: char, pad: char, p: int, n: int, isPrint: char -> bool): (t: string)
    requires n >= 2 && p >= 0 && isPrint(' ')
    ensures Rendered(c, p, n, isPrint) <= t
    decreases Rank(c, pad, p, n)
  {
    var r := Rendered(c, p, n, isPrint);
    if (p + |r|) % n != 0 then r
    else
      if c == ' ' && p % n == 0 then
        SpaceAtRowStart(p, n);
        assert false;
        r
      else r + Padded(PadOr(pad), ' ', p + |r|, n, isPrint)
  }

  /** What appears after a text that ends at position p and fills its last row. */
  function Trail(pad: char, p: int, n: int, isPrint: char -> bool): string
    requires n >= 2 && p >= 0 && isPrint(' ')
  {
    if p % n != 0 then "" else Padded(PadOr(pad), ' ', p, n, isPrint)
  }

  /** What appears on the terminal when s is shown from position p on. */
  function Shown(s: string, pad: char, p: int, n: int, isPrint: char -> bool): string
    requires n >= 2 && p >= 0 && isPrint(' ')
  {
    var t := Picture(s, p, n, isPrint);
    if s == "" then "" else t + Trail(pad, p + |t|, n, isPrint)
  }

  /** After a space that starts a row, nothing more is written. */
  lemma PaddedSpace(p: int, n: int, isPrint: char -> bool)
    requires n >= 2 && p >= 0 && isPrint(' ') && p % n == 0
    ensures Padded(' ', ' ', p, n, isPrint) == " "
  {
    SpaceAtRowStart(p, n);
  }

  /** What follows a line on the terminal when nothing comes after it. */
  lemma BlankTrail(p: int, n: int, isPrint: char -> bool)
    requires n >= 2 && p >= 0 && isPrint(' ')
    ensures Trail(NUL, p, n, isPrint) == if p % n == 0 then " " else ""
  {
    if p % n == 0 { PaddedSpace(p, n, isPrint); }
  }

  lemma PaddedIs(c: char, pad: char, p: int, n: int, isPrint: char -> bool)
    requires n >= 2 && p >= 0 && isPrint(' ')
    ensures var r := Rendered(c, p, n, isPrint);
            Padded(c, pad, p, n, isPrint) == r + Trail(pad, p + |r|, n, isPrint)
  {
    var r := Rendered(c, p, n, isPrint);
    if (p + |r|) % n == 0 && c == ' ' && p % n == 0 {
      SpaceAtRowStart(p, n);
    }
  }

  /** What was written ahead for the next character is written again with that character. */
  lemma TrailIsCovered(c: char, next: char, p: int, n: int, isPrint: char -> bool)
    requires n >= 2 && p >= 0 && isPrint(' ') && c != NUL
    ensures |Trail(c, p, n, isPrint)| <= |Padded(c, next, p, n, isPrint)|
  {
    PaddedIs(c, ' ', p, n, isPrint);
    PaddedIs(c, next, p, n, isPrint);
    var e := p + |Rendered(c, p, n, isPrint)|;
    if e % n == 0 { PaddedSpace(e, n, isPrint); }
  }

  /** The text was written at position p, and nothing else. */
  ghost predicate Wrote(s: Screen, s': Screen, n: int, p: int, text: string)
    requires n >= 1
  {
    forall q :: Cell(s', n, q) == if p <= q < p + |text| then text[q - p] else Cell(s, n, q)
  }

  lemma WroteBoth(s: Screen, s1: Screen, s2: Screen, n: int, p: int, a: string, more: string, b: string)
    requires n >= 1 && Wrote(s, s1, n, p, a + more) && Wrote(s1, s2, n, p + |a|, b) && |more| <= |b|
    ensures Wrote(s, s2, n, p, a + b)
  {
  }

  lemma SameCells(s: Screen, s': Screen, n: int)
    requires n >= 1 && s'.cells == s.cells
    ensures forall q :: Cell(s', n, q) == Cell(s, n, q)
  {
  }

  lemma EmptyPicture(s: Screen, p: int, n: int, isPrint: char -> bool)
    requires n >= 1
    ensures Picture("", p, n, isPrint) == "" && Wrote(s, s, n, p, "" + "")
  {
  }

  /** The terminal after a character has been shown at position t: when it ends a row, the start of
      the next row is written too, and the cursor is sent back. */
  function ScreenAfter(s: Screen, t: int, c: char, pad: char, n: int, deferred: bool, isPrint: char -> bool): Screen
    requires n >= 2 && t >= 0 && isPrint(' ')
    decreases Rank(c, pad, t, n)
  {
    var r := Rendered(c, t, n, isPrint);
    var s1, t1 := PutAll(s, n, deferred, r), t + |r|;
    if t1 % n != 0 then s1
    else
      if c == ' ' && t % n == 0 then
        SpaceAtRowStart(t, n);
        assert false;
        s1
      else
        var s2 := ScreenAfter(s1, t1, PadOr(pad), ' ', n, deferred, isPrint);
        Moved(s2, n, t1 + |Rendered(PadOr(pad), t1, n, isPrint)|, t1)
  }

  lemma PutAllWrites(s: Screen, n: int, deferred: bool, t: int, text: string)
    requires n >= 1 && Near(s, n, t) && DEL !in text && text != ""
    ensures var s' := PutAll(s, n, deferred, text);
            && Near(s', n, t + |text|) && ((t + |text|) % n != 0 ==> At(s', n, t + |text|))
            && Wrote(s, s', n, t, text)
  {
    hide Cell;
    PutAllAdvances(s, n, deferred, t, text);
  }

  lemma {:induction false} ScreenAfterShows(s: Screen, t: int, c: char, pad: char, n: int, deferred: bool,
                                            isPrint: char -> bool)
    requires n >= 2 && isPrint(' ') && Near(s, n, t) && c != DEL && pad != DEL
    ensures var s' := ScreenAfter(s, t, c, pad, n, deferred, isPrint);
            && At(s', n, t + |Rendered(c, t, n, isPrint)|)
            && Wrote(s, s', n, t, Padded(c, pad, t, n, isPrint))
    decreases Rank(c, pad, t, n)
  {
    hide Rendered, PutAll, Moved, Wrote, Padded, Near, At;
    var r := Rendered(c, t, n, isPrint);
    var s1, t1 := PutAll(s, n, deferred, r), t + |r|;
    RenderedShows(c, t, n, isPrint);
    NearIsNotNegative(s, n, t);
    PutAllWrites(s, n, deferred, t, r);
    PaddedIs(c, pad, t, n, isPrint);
    assert r + "" == r;
    if t1 % n == 0 {
      RankFalls(c, pad, t, n, isPrint);
      var pad' := PadOr(pad);
      ScreenAfterShows(s1, t1, pad', ' ', n, deferred, isPrint);
      var s2 := ScreenAfter(s1, t1, pad', ' ', n, deferred, isPrint);
      WroteBoth(s, s1, s2, n, t, r, "", Trail(pad, t1, n, isPrint));
      var t2 := t1 + |Rendered(pad', t1, n, isPrint)|;
      MovedTo(s2, n, t2, t1);
      WroteSame(s, s2, Moved(s2, n, t2, t1), n, t, r + Trail(pad, t1, n, isPrint));
    }
  }

  lemma NearIsNotNegative(s: Screen, n: int, t: int)
    requires n >= 1 && Near(s, n, t)
    ensures t >= 0
  {
  }

  lemma WroteSame(s: Screen, s1: Screen, s2: Screen, n: int, t: int, text: string)
    requires n >= 1 && Wrote(s, s1, n, t, text) && s1.cells == s2.cells
    ensures Wrote(s, s2, n, t, text)
  {
    SameCells(s1, s2, n);
  }

  /** The terminal after a string has been shown from position t on. */
  function ScreenAfterAll(s: Screen, t: int, text: string, pad: char, n: int,
                          deferred: bool, isPrint: char -> bool): Screen
    requires n >= 2 && t >= 0 && isPrint(' ')
    decreases |text|
  {
    if text == "" then s
    else
      var next := if |text| > 1 then text[1] else pad;
      ScreenAfterAll(ScreenAfter(s, t, text[0], next, n, deferred, isPrint),
                     t + |Rendered(text[0], t, n, isPrint)|, text[1..], pad, n, deferred, isPrint)
  }

  /** What appears for a string: its first character, and then the rest. */
  lemma ShownFirst(text: string, pad: char, t: int, n: int, isPrint: char -> bool)
    requires n >= 2 && t >= 0 && isPrint(' ') && text != ""
    ensures var r := Rendered(text[0], t, n, isPrint); var t1 := t + |r|;
            Shown(text, pad, t, n, isPrint)
            == r + (if |text| == 1 then Trail(pad, t1, n, isPrint) else Shown(text[1..], pad, t1, n, isPrint))
  {
    hide Rendered, Trail;
    var r := Rendered(text[0], t, n, isPrint);
    var rest := text[1..];
    var p := Picture(rest, t + |r|, n, isPrint);
    assert Picture(text, t, n, isPrint) == r + p;
    assert r + p + Trail(pad, t + |r + p|, n, isPrint) == r + (p + Trail(pad, t + |r + p|, n, isPrint));
    assert rest == "" ==> p == "" && r + p == r;
  }

  /** What is written ahead for a string is no more than what appears for it. */
  lemma {:induction false} TrailWithinShown(text: string, pad: char, t: int, n: int, isPrint: char -> bool)
    requires n >= 2 && t >= 0 && isPrint(' ') && text != "" && NoNul(text)
    ensures |Trail(text[0], t, n, isPrint)| <= |Shown(text, pad, t, n, isPrint)|
    decreases |text|
  {
    hide Rendered, Trail, Shown, Padded;
    var next := if |text| > 1 then text[1] else pad;
    var t1 := t + |Rendered(text[0], t, n, isPrint)|;
    TrailIsCovered(text[0], next, t, n, isPrint);
    PaddedIs(text[0], next, t, n, isPrint);
    ShownFirst(text, pad, t, n, isPrint);
    if |text| > 1 { TrailWithinShown(text[1..], pad, t1, n, isPrint); }
  }

  /** One character of a string, and what was written ahead after it. */
  lemma PaddedWithinShown(text: string, pad: char, t: int, n: int, isPrint: char -> bool)
    requires n >= 2 && t >= 0 && isPrint(' ') && text != "" && NoNul(text)
    ensures var next := if |text| > 1 then text[1] else pad; var r := Rendered(text[0], t, n, isPrint);
            && Padded(text[0], next, t, n, isPrint) == r + Trail(next, t + |r|, n, isPrint)
            && |Padded(text[0], next, t, n, isPrint)| <= |Shown(text, pad, t, n, isPrint)|
            && (|text| > 1 ==> |Trail(next, t + |r|, n, isPrint)| <= |Shown(text[1..], pad, t + |r|, n, isPrint)|)
  {
    hide Rendered, Trail, Shown, Padded;
    var next := if |text| > 1 then text[1] else pad;
    PaddedIs(text[0], next, t, n, isPrint);
    ShownFirst(text, pad, t, n, isPrint);
    if |text| > 1 { TrailWithinShown(text[1..], pad, t + |Rendered(text[0], t, n, isPrint)|, n, isPrint); }
  }

  /** A string without DEL appears, with what is written ahead, and the cursor is at its end. */
  lemma {:induction false} ScreenAfterAllShows(s: Screen, t: int, text: string, pad: char, n: int, deferred: bool,
                                               isPrint: char -> bool)
    requires n >= 2 && isPrint(' ') && At(s, n, t) && NoNul(text) && Showable(text) && pad != DEL
    ensures var s' := ScreenAfterAll(s, t, text, pad, n, deferred, isPrint);
            && At(s', n, t + |Picture(text, t, n, isPrint)|)
            && Wrote(s, s', n, t, Shown(text, pad, t, n, isPrint))
    decreases |text|
  {
    hide Cell, Rendered, Trail, Shown, Padded, Wrote, ScreenAfter;
    if text == "" {
      EmptyPicture(s, t, n, isPrint);
      EmptyShown(pad, t, n, isPrint);
    } else {
      var next := if |text| > 1 then text[1] else pad;
      var r := Rendered(text[0], t, n, isPrint);
      var t1, rest := t + |r|, text[1..];
      var s1 := ScreenAfter(s, t, text[0], next, n, deferred, isPrint);
      ScreenAfterShows(s, t, text[0], next, n, deferred, isPrint);
      ScreenAfterAllShows(s1, t1, rest, pad, n, deferred, isPrint);
      PaddedWithinShown(text, pad, t, n, isPrint);
      ShownFirst(text, pad, t, n, isPrint);
      var s' := ScreenAfterAll(s1, t1, rest, pad, n, deferred, isPrint);
      if rest == "" {
        assert s' == s1;
      } else {
        WroteBoth(s, s1, s', n, t, r, Trail(next, t1, n, isPrint), Shown(rest, pad, t1, n, isPrint));
      }
    }
  }

  lemma EmptyShown(pad: char, t: int, n: int, isPrint: char -> bool)
    requires n >= 2 && t >= 0 && isPrint(' ')
    ensures Shown("", pad, t, n, isPrint) == "" == "" + ""
  {
  }

  /** The recorded length after a string has been shown from position t on. */
  function LenAfter(len: int, t: int, text: string, pad: char, n: int, isPrint: char -> bool): int
    requires n >= 2 && t >= 0 && isPrint(' ')
  {
    if text == "" then len else Max(len, t + |Shown(text, pad, t, n, isPrint)|)
  }

  /** Clearing the row from position p on. */
  lemma ClearedEol(s: Screen, n: int, p: int, len: int)
    requires n >= 1 && At(s, n, p)
    ensures var s' := ClearEol(s);
            && At(s', n, p)
            && (forall q :: q < p ==> Cell(s', n, q) == Cell(s, n, q))
            && (forall q :: q >= p ==> Cell(s', n, q) == Cell(s, n, q) || Cell(s', n, q) == ' ')
            && (len / n <= p / n && (forall q :: q >= len ==> Cell(s, n, q) == ' ')
                ==> forall q :: q >= p ==> Cell(s', n, q) == ' ')
  {
    var s' := ClearEol(s);
    forall q | q < p
      ensures Cell(s', n, q) == Cell(s, n, q)
    {
      RowOrder(q, p, n);
    }
    if len / n <= p / n && (forall q :: q >= len ==> Cell(s, n, q) == ' ') {
      forall q | q >= p
        ensures Cell(s', n, q) == ' '
      {
        RowOrder(p, q, n);
        RowOrder(len, q, n);
        assert q >= len ==> Cell(s, n, q) == ' ';
      }
    }
  }

  /** Clearing the row of position p from there on, and all rows below. */
  lemma ClearedBelow(s: Screen, n: int, p: int)
    requires n >= 1 && At(s, n, p)
    ensures var s' := ClearEod(LineStart(Down(ClearEol(s))));
            && At(s', n, n * (p / n + 1))
            && (forall q :: q < p ==> Cell(s', n, q) == Cell(s, n, q))
            && (forall q :: q >= p ==> Cell(s', n, q) == ' ')
  {
    var s' := ClearEod(LineStart(Down(ClearEol(s))));
    DivModUnique(n * (p / n + 1), p / n + 1, 0, n);
    MulAtLeast(p / n + 1, n);
    forall q
      ensures q < p ==> Cell(s', n, q) == Cell(s, n, q)
      ensures q >= p ==> Cell(s', n, q) == ' '
    {
      RowOrder(q, p, n);
      RowOrder(p, q, n);
    }
  }

  /** Nothing is shown from position len on. */
  ghost predicate BlankFrom(s: Screen, n: int, len: int)
    requires n >= 1
  {
    forall q :: q >= len ==> Cell(s, n, q) == ' '
  }

  class Display {
    const ncolumn: int
    const deferred: bool          // the behaviour of the terminal at the end of a row
    const isPrint: char -> bool
    var termCurpos: int           // where the editor takes the cursor to be
    var termLen: int
    var screen: Screen            // the terminal

    /** The cursor is where it is taken to be, and nothing is shown beyond the recorded length. */
    ghost predicate Valid()
      reads this
    {
      ncolumn >= 2 && isPrint(' ') && At(screen, ncolumn, termCurpos) && BlankFrom(screen, ncolumn, termLen)
    }

    /** As Valid, but the cursor may still be about to move to the next row. */
    ghost predicate Ready()
      reads this
    {
      ncolumn >= 2 && isPrint(' ') && Near(screen, ncolumn, termCurpos) && BlankFrom(screen, ncolumn, termLen)
    }

    method CharWidth(c: char, p: int) returns (w: int)
      requires ncolumn >= 1
      ensures w == |Rendered(c, p, ncolumn, isPrint)|
    {
      if c == '\t' {
        return TabWidth(p, ncolumn);
      }
      if IsCtrl(c) {
        return 2;
      }
      if !isPrint(c) {
        w := OctalWidth(c as int);
        w := w + 1;
        return;
      }
      return 1;
    }

    method StringWidth(s: string, p: int) returns (slen: int)
      requires ncolumn >= 1
      ensures slen == |Picture(s, p, ncolumn, isPrint)|
    {
      hide Rendered;
      slen := 0;
      var i := 0;
      while i < |s|
        invariant 0 <= i <= |s|
        invariant slen == |Picture(s[..i], p, ncolumn, isPrint)|
      {
        var w := CharWidth(s[i], p + slen);
        assert s[..i + 1] == s[..i] + [s[i]];
        PictureSplit(s[..i], [s[i]], p, ncolumn, isPrint);
        assert [s[i]][1..] == "";
        slen := slen + w;
        i := i + 1;
      }
      assert s[..i] == s;
    }

    /** Move the cursor of the terminal to another row. */
    method MoveRows(row: int, newRow: int)
      modifies `screen
      ensures screen == RowsMoved(old(screen), newRow - row)
    {
      var curRow := row;
      while curRow < newRow
        invariant row <= curRow && (curRow <= newRow || curRow == row)
        invariant screen == Downs(old(screen), curRow - row)
      {
        screen := Down(screen);
        curRow := curRow + 1;
      }
      while curRow > newRow
        invariant newRow <= curRow
        invariant if row < newRow then screen == Downs(old(screen), curRow - row)
                  else curRow <= row && screen == Ups(old(screen), row - curRow)
      {
        screen := Up(screen);
        curRow := curRow - 1;
      }
    }

    /** Move the cursor of the terminal to another column. */
    method MoveColumns(col: int, newCol: int)
      modifies `screen
      ensures screen == ColumnsMoved(old(screen), ncolumn, newCol - col)
    {
      var curCol := col;
      if curCol < newCol {
        while curCol < newCol
          invariant col <= curCol <= newCol && screen == Rights(old(screen), ncolumn, curCol - col)
        {
          screen := Right(screen, ncolumn);
          curCol := curCol + 1;
        }
      } else if curCol > newCol {
        while curCol > newCol
          invariant newCol <= curCol <= col && screen == Lefts(old(screen), col - curCol)
        {
          screen := Left(screen);
          curCol := curCol - 1;
        }
      }
    }

    /** Move the cursor n positions to the right, or to the left if n < 0; a move to before the
        start of the line doubles the position instead (libtecla/getline.c:3982-3983). */
    method MoveCursor(n0: int)
      requires ncolumn >= 1 && termCurpos >= 0
      modifies this
      ensures termCurpos == if old(termCurpos) + n0 < 0 then 2 * old(termCurpos) else old(termCurpos) + n0
      ensures screen == Moved(old(screen), ncolumn, old(termCurpos), termCurpos)
      ensures termLen == old(termLen) && screen.cells == old(screen.cells)
      ensures old(Valid()) ==> Valid()
    {
      hide Cell, RowsMoved, ColumnsMoved;
      var n := if termCurpos + n0 < 0 then termCurpos else n0;
      var target := termCurpos + n;
      MoveRows(termCurpos / ncolumn, target / ncolumn);
      MoveColumns(termCurpos % ncolumn, target % ncolumn);
      termCurpos := termCurpos + n;
      MovedTo(old(screen), ncolumn, old(termCurpos), termCurpos);
      SameCells(old(screen), screen, ncolumn);
    }

    method SetTermCurpos(p: int)
      requires ncolumn >= 1 && termCurpos >= 0 && 0 <= p
      modifies this
      ensures termCurpos == p && termLen == old(termLen)
      ensures screen == Moved(old(screen), ncolumn, old(termCurpos), p) && screen.cells == old(screen.cells)
      ensures old(Valid()) ==> Valid()
    {
      MoveCursor(p - termCurpos);
    }

    /** Show a character, and leave the cursor after it whatever the terminal does at the end of
        a row, unless DEL is written. */
    method PrintChar(c: char, pad: char)
      requires ncolumn >= 2 && isPrint(' ') && termCurpos >= 0
      modifies this
      ensures termCurpos == old(termCurpos) + |Rendered(c, old(termCurpos), ncolumn, isPrint)|
      ensures screen == ScreenAfter(old(screen), old(termCurpos), c, pad, ncolumn, deferred, isPrint)
      ensures termLen == Max(old(termLen), old(termCurpos) + |Padded(c, pad, old(termCurpos), ncolumn, isPrint)|)
      ensures old(Ready()) && c != DEL && pad != DEL ==>
                Valid() && Wrote(old(screen), screen, ncolumn, old(termCurpos),
                                 Padded(c, pad, old(termCurpos), ncolumn, isPrint))
      decreases Rank(c, pad, termCurpos, ncolumn)
    {
      hide Rendered, Moved, Wrote, Near, At, BlankFrom, PutAll;
      ghost var p := termCurpos;
      var text := Rendered(c, termCurpos, ncolumn, isPrint);
      PaddedIs(c, pad, p, ncolumn, isPrint);
      screen := PutAll(screen, ncolumn, deferred, text);
      termCurpos := termCurpos + |text|;
      if termCurpos > termLen {
        termLen := termCurpos;
      }
      if termCurpos % ncolumn == 0 {
        var cur := termCurpos;
        RankFalls(c, pad, p, ncolumn, isPrint);
        PrintChar(PadOr(pad), ' ');
        SetTermCurpos(cur);
      }
      if old(Ready()) && c != DEL && pad != DEL {
        CharIsShown(old(screen), p, old(termLen), c, pad);
      }
    }

    lemma CharIsShown(s: Screen, p: int, len: int, c: char, pad: char)
      requires ncolumn >= 2 && isPrint(' ') && Near(s, ncolumn, p) && c != DEL && pad != DEL
      requires BlankFrom(s, ncolumn, len)
      requires termCurpos == p + |Rendered(c, p, ncolumn, isPrint)|
      requires screen == ScreenAfter(s, p, c, pad, ncolumn, deferred, isPrint)
      requires termLen == Max(len, p + |Padded(c, pad, p, ncolumn, isPrint)|)
      ensures Valid() && Wrote(s, screen, ncolumn, p, Padded(c, pad, p, ncolumn, isPrint))
    {
      hide Cell, Rendered, ScreenAfter, Padded;
      ScreenAfterShows(s, p, c, pad, ncolumn, deferred, isPrint);
    }

    /** Show a string. */
    method PrintString(s: string, pad: char)
      requires ncolumn >= 2 && isPrint(' ') && termCurpos >= 0 && NoNul(s)
      modifies this
      ensures termCurpos == old(termCurpos) + |Picture(s, old(termCurpos), ncolumn, isPrint)|
      ensures screen == ScreenAfterAll(old(screen), old(termCurpos), s, pad, ncolumn, deferred, isPrint)
      ensures termLen == LenAfter(old(termLen), old(termCurpos), s, pad, ncolumn, isPrint)
      ensures old(Valid()) && Showable(s) && pad != DEL ==>
                Valid() && Wrote(old(screen), screen, ncolumn, old(termCurpos),
                                 Shown(s, pad, old(termCurpos), ncolumn, isPrint))
    {
      hide Rendered, Padded, Wrote, Trail, Shown, ScreenAfter, BlankFrom, Near, At;
      ghost var p, screen1 := termCurpos, ScreenAfterAll(screen, termCurpos, s, pad, ncolumn, deferred, isPrint);
      var i := 0;
      while i < |s|
        invariant 0 <= i <= |s| && ncolumn >= 2 && isPrint(' ') && termCurpos >= 0
        invariant p + |Picture(s, p, ncolumn, isPrint)| == termCurpos + |Picture(s[i..], termCurpos, ncolumn, isPrint)|
        invariant screen1 == ScreenAfterAll(screen, termCurpos, s[i..], pad, ncolumn, deferred, isPrint)
        invariant LenAfter(termLen, termCurpos, s[i..], pad, ncolumn, isPrint)
               == LenAfter(old(termLen), p, s, pad, ncolumn, isPrint)
      {
        var nextc := if i + 1 < |s| then s[i + 1] else pad;
        assert s[i..][0] == s[i] && s[i..][1..] == s[i + 1..] && (i + 1 < |s| ==> s[i..][1] == s[i + 1]);
        PaddedWithinShown(s[i..], pad, termCurpos, ncolumn, isPrint);
        ShownFirst(s[i..], pad, termCurpos, ncolumn, isPrint);
        PrintChar(s[i], nextc);
        i := i + 1;
      }
      if old(Valid()) && Showable(s) && pad != DEL {
        StringIsShown(old(screen), p, old(termLen), s, pad);
      }
    }

    lemma StringIsShown(s: Screen, p: int, len: int, text: string, pad: char)
      requires ncolumn >= 2 && isPrint(' ') && At(s, ncolumn, p) && NoNul(text) && Showable(text) && pad != DEL
      requires BlankFrom(s, ncolumn, len)
      requires termCurpos == p + |Picture(text, p, ncolumn, isPrint)|
      requires screen == ScreenAfterAll(s, p, text, pad, ncolumn, deferred, isPrint)
      requires termLen == LenAfter(len, p, text, pad, ncolumn, isPrint)
      ensures Valid() && Wrote(s, screen, ncolumn, p, Shown(text, pad, p, ncolumn, isPrint))
    {
      hide Cell, Picture, Shown, ScreenAfterAll;
      ScreenAfterAllShows(s, p, text, pad, ncolumn, deferred, isPrint);
      EmptyShown(pad, p, ncolumn, isPrint);
    }

    /** Clear everything from the cursor on. */
    method TruncateDisplay()
      requires Valid()
      modifies this
      ensures Valid() && termCurpos == old(termCurpos) && termLen == termCurpos
      ensures forall q :: Cell(screen, ncolumn, q) == if q < termCurpos then old(Cell(screen, ncolumn, q)) else ' '
    {
      var cur := termCurpos;
      ClearedEol(screen, ncolumn, cur, termLen);
      ClearedBelow(screen, ncolumn, cur);
      screen := ClearEol(screen);
      if termLen / ncolumn > termCurpos / ncolumn {
        screen := Down(screen);
        screen := LineStart(screen);
        screen := ClearEod(screen);
        termCurpos := ncolumn * (cur / ncolumn + 1);
        ghost var s1 := screen;
        SetTermCurpos(cur);
        SameCells(s1, screen, ncolumn);
      }
      termLen := termCurpos;
    }

    /** Clear the line from its first row on, and move the cursor there. */
    method EraseLine()
      requires Valid()
      modifies this
      ensures Valid() && termCurpos == 0 && termLen == 0
      ensures forall q :: q >= 0 ==> Cell(screen, ncolumn, q) == ' '
    {
      var cursorLine := termCurpos / ncolumn;
      while cursorLine > 0
        invariant cursorLine == screen.row >= 0 && !screen.pending
      {
        screen := Up(screen);
        cursorLine := cursorLine - 1;
      }
      screen := LineStart(screen);
      screen := ClearEod(screen);
      termCurpos := 0;
      termLen := 0;
    }
  }
}
