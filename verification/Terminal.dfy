/** A simulated terminal: rows of `n` columns, and a cursor. After a character has been written
    in the last column, the cursor either moves to the next row at once, or, on a terminal that
    defers this, when another character is written. */
module Terminals {
  import opened Basics

  datatype Screen = Screen(row: int, col: int, pending: bool, cells: map<(int, int), char>)

  /** The character at position q, counted along the rows. */
  function Cell(s: Screen, n: int, q: int): char
    requires n >= 1
  {
    if (q / n, q % n) in s.cells then s.cells[(q / n, q % n)] else ' '
  }

  /** The cursor is at position p. */
  predicate At(s: Screen, n: int, p: int)
    requires n >= 1
  {
    0 <= p && !s.pending && s.row == p / n && s.col == p % n
  }

  /** The cursor is at position p, or will be when another character is written. */
  predicate Near(s: Screen, n: int, p: int)
    requires n >= 1
  {
    At(s, n, p) || (s.pending && 0 < p && p % n == 0 && s.row == p / n - 1 && s.col == n - 1)
  }

  /** Write a character. Terminals take no notice of DEL. */
  function Put(s: Screen, n: int, deferred: bool, c: char): Screen {
    if c == DEL then s
    else
      var s1 := if s.pending then s.(row := s.row + 1, col := 0, pending := false) else s;
      var s2 := s1.(cells := s1.cells[(s1.row, s1.col) := c]);
      if s2.col + 1 < n then s2.(col := s2.col + 1)
      else if deferred then s2.(pending := true)
      else s2.(row := s2.row + 1, col := 0)
  }

  function PutAll(s: Screen, n: int, deferred: bool, text: string): Screen
    decreases |text|
  {
    if text == [] then s else PutAll(Put(s, n, deferred, text[0]), n, deferred, text[1..])
  }

  function Down(s: Screen): Screen {
    s.(row := s.row + 1, pending := false)
  }

  function Up(s: Screen): Screen {
    s.(row := if s.row > 0 then s.row - 1 else 0, pending := false)
  }

  function Left(s: Screen): Screen {
    s.(col := if s.col > 0 then s.col - 1 else 0, pending := false)
  }

  function Right(s: Screen, n: int): Screen {
    s.(col := if s.col + 1 < n then s.col + 1 else s.col, pending := false)
  }

  function LineStart(s: Screen): Screen {
    s.(col := 0, pending := false)
  }

  /** Clear from the cursor to the end of its row. */
  function ClearEol(s: Screen): Screen {
    s.(cells := map k | k in s.cells && !(k.0 == s.row && k.1 >= s.col) :: s.cells[k])
  }

  /** Clear from the cursor to the end of the display. */
  function ClearEod(s: Screen): Screen {
    s.(cells := map k | k in s.cells && !(k.0 > s.row || (k.0 == s.row && k.1 >= s.col)) :: s.cells[k])
  }

  lemma NextPosition(p: int, n: int)
    requires n >= 1 && 0 <= p
    ensures (p + 1) / n == (if p % n + 1 < n then p / n else p / n + 1)
    ensures (p + 1) % n == (if p % n + 1 < n then p % n + 1 else 0)
  {
    var q, r := p / n, p % n;
    assert (q + 1) * n == q * n + n;
    if r + 1 < n { DivModUnique(p + 1, q, r + 1, n); } else { DivModUnique(p + 1, q + 1, 0, n); }
  }

  lemma PositionsDiffer(q: int, r: int, n: int)
    requires n >= 1 && q != r
    ensures (q / n, q % n) != (r / n, r % n)
  {
  }

  lemma RowOrder(q: int, r: int, n: int)
    requires n >= 1
    ensures q < r ==> q / n < r / n || (q / n == r / n && q % n < r % n)
    ensures q / n < r / n ==> q < r
  {
    if q / n >= r / n && q < r {
      assert (q / n - r / n) * n == (q / n) * n - (r / n) * n;
      if q / n > r / n {
        MulAtLeast(q / n - r / n, n);
      }
    }
    if q / n < r / n {
      MulAtLeast(r / n - q / n, n);
      assert (r / n - q / n) * n == (r / n) * n - (q / n) * n;
    }
  }

  /** A cursor is near one position only. */
  lemma NearOnePosition(s: Screen, n: int, p: int, q: int)
    requires n >= 1 && Near(s, n, p) && Near(s, n, q)
    ensures p == q
  {
    if s.pending {
      assert p == (s.row + 1) * n && q == (s.row + 1) * n;
    } else {
      assert p == s.row * n + s.col && q == s.row * n + s.col;
    }
  }

  /** Writing a character at position p shows it there, and moves on by one position. */
  lemma PutAdvances(s: Screen, n: int, deferred: bool, p: int, c: char)
    requires n >= 1 && Near(s, n, p) && c != DEL
    ensures var s' := Put(s, n, deferred, c);
            && Near(s', n, p + 1) && ((p + 1) % n != 0 ==> At(s', n, p + 1))
            && (forall q :: Cell(s', n, q) == if q == p then c else Cell(s, n, q))
  {
    var s' := Put(s, n, deferred, c);
    NextPosition(p, n);
    assert s'.cells == s.cells[(p / n, p % n) := c];
    forall q
      ensures Cell(s', n, q) == if q == p then c else Cell(s, n, q)
    {
      if q != p { PositionsDiffer(q, p, n); }
    }
  }

  lemma PutDel(s: Screen, n: int, deferred: bool)
    ensures Put(s, n, deferred, DEL) == s
  {
  }

  /** What is seen of a text. */
  function Visible(text: string): (v: string)
    ensures |v| <= |text| && (|v| == |text| <==> DEL !in text)
    ensures DEL !in v && (DEL !in text ==> v == text)
    decreases |text|
  {
    if text == [] then [] else (if text[0] == DEL then [] else [text[0]]) + Visible(text[1..])
  }

  /** Writing a text from position p shows there what is seen of it, and moves on by the length of
      that. */
  lemma {:induction false} PutAllAdvances(s: Screen, n: int, deferred: bool, p: int, text: string)
    requires n >= 1 && Near(s, n, p)
    ensures var s' := PutAll(s, n, deferred, text); var v := Visible(text); var end := p + |v|;
            && Near(s', n, end) && (v != "" && end % n != 0 ==> At(s', n, end)) && (v == "" ==> s' == s)
            && (forall q :: Cell(s', n, q) == if p <= q < end then v[q - p] else Cell(s, n, q))
    decreases |text|
  {
    hide Put, Cell;
    if text != [] {
      var s1, rest := Put(s, n, deferred, text[0]), text[1..];
      if text[0] == DEL {
        PutDel(s, n, deferred);
        PutAllAdvances(s, n, deferred, p, rest);
      } else {
        PutAdvances(s, n, deferred, p, text[0]);
        PutAllAdvances(s1, n, deferred, p + 1, rest);
      }
    }
  }

  /** The cursor moves on by the length of what is written exactly if there is no DEL in it. */
  lemma CursorFollowsText(s: Screen, n: int, deferred: bool, p: int, text: string)
    requires n >= 1 && Near(s, n, p)
    ensures Near(PutAll(s, n, deferred, text), n, p + |text|) <==> DEL !in text
  {
    PutAllAdvances(s, n, deferred, p, text);
    if Near(PutAll(s, n, deferred, text), n, p + |text|) {
      NearOnePosition(PutAll(s, n, deferred, text), n, p + |text|, p + |Visible(text)|);
    }
  }

  // ---------- Sequences of cursor movements ----------

  function Downs(s: Screen, k: nat): Screen {
    if k == 0 then s else Down(Downs(s, k - 1))
  }

  function Ups(s: Screen, k: nat): Screen {
    if k == 0 then s else Up(Ups(s, k - 1))
  }

  function Lefts(s: Screen, k: nat): Screen {
    if k == 0 then s else Left(Lefts(s, k - 1))
  }

  function Rights(s: Screen, n: int, k: nat): Screen {
    if k == 0 then s else Right(Rights(s, n, k - 1), n)
  }

  /** The movements that take a cursor from position p to position q. */
  function Moved(s: Screen, n: int, p: int, q: int): Screen
    requires n >= 1
  {
    ColumnsMoved(RowsMoved(s, q / n - p / n), n, q % n - p % n)
  }

  lemma {:induction false} RowsMove(s: Screen, k: nat)
    ensures Downs(s, k) == if k == 0 then s else s.(row := s.row + k, pending := false)
    ensures 0 <= s.row - k ==> Ups(s, k) == if k == 0 then s else s.(row := s.row - k, pending := false)
    ensures Ups(s, k).cells == s.cells
    decreases k
  {
    if k > 0 { RowsMove(s, k - 1); }
  }

  lemma {:induction false} ColumnsMove(s: Screen, n: int, k: nat)
    ensures s.col + k < n ==> Rights(s, n, k) == if k == 0 then s else s.(col := s.col + k, pending := false)
    ensures 0 <= s.col - k ==> Lefts(s, k) == if k == 0 then s else s.(col := s.col - k, pending := false)
    ensures Rights(s, n, k).cells == s.cells && Lefts(s, k).cells == s.cells
    decreases k
  {
    if k > 0 { ColumnsMove(s, n, k - 1); }
  }

  function RowsMoved(s: Screen, rows: int): Screen {
    if rows >= 0 then Downs(s, rows) else Ups(s, -rows)
  }

  function ColumnsMoved(s: Screen, n: int, cols: int): Screen {
    if cols >= 0 then Rights(s, n, cols) else Lefts(s, -cols)
  }

  lemma MovedBy(s: Screen, n: int, rows: int, cols: int)
    ensures var s' := ColumnsMoved(RowsMoved(s, rows), n, cols);
            && s'.cells == s.cells
            && (!s.pending && s.row + rows >= 0 && 0 <= s.col + cols < n ==>
                s' == s.(row := s.row + rows, col := s.col + cols))
  {
    hide Downs, Ups, Lefts, Rights;
    RowsMove(s, if rows >= 0 then rows else -rows);
    DownsKeep(s, if rows >= 0 then rows else -rows);
    ColumnsMove(RowsMoved(s, rows), n, if cols >= 0 then cols else -cols);
  }

  lemma DownsKeep(s: Screen, k: nat)
    ensures Downs(s, k).cells == s.cells
  {
    RowsMove(s, k);
  }

  /** They take it there, and change nothing else. */
  lemma MovedTo(s: Screen, n: int, p: int, q: int)
    requires n >= 1 && 0 <= q
    ensures Moved(s, n, p, q).cells == s.cells
    ensures At(s, n, p) ==> At(Moved(s, n, p, q), n, q)
  {
    hide RowsMoved, ColumnsMoved;
    MovedBy(s, n, q / n - p / n, q % n - p % n);
    if At(s, n, p) {
      NotNegative(q, n);
    }
  }

  lemma NotNegative(q: int, n: int)
    requires n >= 1 && q >= 0
    ensures q / n >= 0 && 0 <= q % n < n
  {
  }

  /** A terminal that gets the two characters that stand for DEL advances by one position only. */
  lemma DelAdvancesByOne(s: Screen, n: int, deferred: bool, p: int)
    requires n >= 1 && Near(s, n, p)
    ensures var s' := PutAll(s, n, deferred, ['^', DEL]);
            Near(s', n, p + 1) && !Near(s', n, p + 2)
  {
    assert ['^', DEL][1..] == [DEL] && [DEL][1..] == [];
    assert Visible([DEL]) == [] && Visible(['^', DEL]) == ['^'];
    PutAllAdvances(s, n, deferred, p, ['^', DEL]);
    CursorFollowsText(s, n, deferred, p, ['^', DEL]);
  }
}
