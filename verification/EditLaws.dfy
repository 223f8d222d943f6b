/** What typing, deleting, killing and yanking do to a text, said on the text itself. */
module EditLaws {
  import opened Basics
  import opened EditSpec

  // ---------- Typing ----------

  /** The string s between the characters of t before place k and those after it. */
  function Between(t: string, k: int, s: string): (r: string)
    requires 0 <= k <= |t|
    ensures |r| == |t| + |s|
  {
    t[..k] + s + t[k..]
  }

  /** The string s in the place of as many characters of t from place k on, or of all there are. */
  function InPlaceOf(t: string, k: int, s: string): (r: string)
    requires 0 <= k <= |t|
    ensures |r| == Max(|t|, k + |s|)
  {
    t[..k] + s + t[Min(k + |s|, |t|)..]
  }

  /** The string t less its characters lo, ..., hi - 1. */
  function Less(t: string, lo: int, hi: int): (r: string)
    requires 0 <= lo <= hi <= |t|
    ensures |r| == |t| - (hi - lo)
  {
    t[..lo] + t[hi..]
  }

  /** The characters of a string are typed one at a time. */
  function Typed(e: Edit, s: string): (r: Edit)
    requires Ok(e)
    ensures Ok(r)
    decreases |s|
  {
    if s == "" then e else Typed(AddChar(e, s[0]), s[1..])
  }

  /** A character is refused exactly if the line is full and it would become longer. */
  lemma FullLineRefuses(e: Edit, c: char)
    requires Ok(e)
    ensures AddChar(e, c) == e <==> |e.text| == e.linelen && (e.insert || e.cursor == |e.text|)
  {
    if !(|e.text| == e.linelen && (e.insert || e.cursor == |e.text|)) {
      assert AddChar(e, c).cursor == e.cursor + 1;
    }
  }

  /** One character that is inserted, and then more of them. */
  lemma InsertedMore(t: string, k: int, s: string, m: int)
    requires 0 <= k <= |t| && 0 < m <= |s|
    ensures Between(Between(t, k, [s[0]]), k + 1, s[1..][..m - 1]) == Between(t, k, s[..m])
  {
    var t1 := Between(t, k, [s[0]]);
    assert t1[..k + 1] == t[..k] + [s[0]] && t1[k + 1..] == t[k..];
    assert s[..m] == [s[0]] + s[1..][..m - 1];
  }

  lemma OneInserted(e: Edit, c: char)
    requires Ok(e) && e.insert && |e.text| < e.linelen
    ensures AddChar(e, c) == e.(text := Between(e.text, e.cursor, [c]), cursor := e.cursor + 1)
  {
  }

  lemma NothingPut(t: string, k: int, s: string)
    requires 0 <= k <= |t|
    ensures Between(t, k, s[..0]) == t == InPlaceOf(t, k, s[..0])
  {
  }

  /** In insert mode, as much of what is typed as there is room for comes between the text before the
      cursor and the text after it; the cursor is then after it. */
  lemma {:induction false} TypingInserts(e: Edit, s: string)
    requires Ok(e) && e.insert
    ensures var m := Min(|s|, e.linelen - |e.text|);
            Typed(e, s) == e.(text := Between(e.text, e.cursor, s[..m]), cursor := e.cursor + m)
    decreases |s|
  {
    hide AddChar, Between;
    var m := Min(|s|, e.linelen - |e.text|);
    if m == 0 {
      NothingPut(e.text, e.cursor, s);
      if s != "" {
        FullLineRefuses(e, s[0]);
        TypingInserts(e, s[1..]);
        NothingPut(e.text, e.cursor, s[1..]);
      }
    } else {
      OneInserted(e, s[0]);
      TypingInserts(AddChar(e, s[0]), s[1..]);
      InsertedMore(e.text, e.cursor, s, m);
    }
  }

  /** A string that fits is inserted at once as it would be typed; one that does not is not inserted at
      all. */
  lemma InsertingIsTyping(e: Edit, s: string)
    requires Ok(e) && e.insert
    ensures AddString(e, s) == if |e.text| + |s| <= e.linelen then Typed(e, s) else e
  {
    TypingInserts(e, s);
    if |e.text| + |s| <= e.linelen { assert s[..|s|] == s; }
  }

  lemma OverwrittenMore(t: string, k: int, s: string, m: int)
    requires 0 <= k <= |t| && 0 < m <= |s|
    ensures InPlaceOf(InPlaceOf(t, k, [s[0]]), k + 1, s[1..][..m - 1]) == InPlaceOf(t, k, s[..m])
  {
    var t1 := InPlaceOf(t, k, [s[0]]);
    assert t1[..k + 1] == t[..k] + [s[0]];
    assert s[..m] == [s[0]] + s[1..][..m - 1];
    if k + m <= |t| {
      assert t1[k + m..] == t[k + m..];
    }
  }

  lemma OneOverwritten(e: Edit, c: char)
    requires Ok(e) && !e.insert && e.cursor < e.linelen
    ensures AddChar(e, c) == e.(text := InPlaceOf(e.text, e.cursor, [c]), cursor := e.cursor + 1)
  {
  }

  /** In overwrite mode, what is typed replaces as many characters from the cursor on, and goes on past
      the end of the text for as long as there is room. */
  lemma {:induction false} TypingOverwrites(e: Edit, s: string)
    requires Ok(e) && !e.insert
    ensures var m := Min(|s|, e.linelen - e.cursor);
            Typed(e, s) == e.(text := InPlaceOf(e.text, e.cursor, s[..m]), cursor := e.cursor + m)
    decreases |s|
  {
    hide AddChar, InPlaceOf;
    var m := Min(|s|, e.linelen - e.cursor);
    if m == 0 {
      NothingPut(e.text, e.cursor, s);
      if s != "" {
        FullLineRefuses(e, s[0]);
        TypingOverwrites(e, s[1..]);
        NothingPut(e.text, e.cursor, s[1..]);
      }
    } else {
      OneOverwritten(e, s[0]);
      TypingOverwrites(AddChar(e, s[0]), s[1..]);
      OverwrittenMore(e.text, e.cursor, s, m);
    }
  }

  // ---------- The cursor and the mark ----------

  /** The cursor goes to the nearest place there is: in vi command mode, that of a character. */
  lemma CursorGoesToNearest(e: Edit, k: int)
    ensures var last := if e.command && |e.text| > 0 then |e.text| - 1 else |e.text|;
            PlaceCursor(e, k) == e.(cursor := if k < 0 then 0 else if k > last then last else k)
  {
  }

  /** Exchanging cursor and mark twice gives both back, if they are places of the text. */
  lemma ExchangeIsAnInvolution(e: Edit)
    requires Ok(e) && e.mark <= |e.text|
    requires e.command ==> e.cursor < |e.text| && e.mark < |e.text|
    ensures var x := ExchangePointAndMark(e);
            x == e.(cursor := e.mark, mark := e.cursor) && ExchangePointAndMark(x) == e
  {
  }

  /** The line is saved once for each key, and in vi command mode only. */
  lemma SavedOnce(e: Edit)
    ensures Save(Save(e)) == Save(e) && (!e.command || e.saved ==> Save(e) == e)
    ensures e.command && !e.saved ==> Save(e).undo == e.text && Save(e).undoCursor == e.cursor && Save(e).saved
  {
  }

  /** The operations that save the line before they change it. */
  predicate Saves(e: Edit, op: Op) {
    || op.OpDeleteChars? || op.OpKillLine? || op.OpDeleteLine? || op.OpKillRegion? || op.OpForwardDeleteWord?
    || (op.OpYank? && e.cut != "")
  }

  lemma SavesFirst(e: Edit, op: Op, isWord: char -> bool)
    requires Ok(e) && e.command && !e.saved && Saves(e, op)
    ensures var r := Apply(e, op, isWord); r.undo == e.text && r.undoCursor == e.cursor && r.saved
  {
    hide Remove, RemoveToEnd, RemoveRegion, AddStringTimes, WordChars, Clamp;
    var s := Save(e);
    if op.OpYank? {
      AddStringTimesKeepsUndo(Save(SetMark(e)), e.cut, op.count);
    } else if op.OpKillRegion? {
      RemoveRegionKeepsUndo(s);
    } else if op.OpDeleteChars? {
      RemoveKeepsUndo(s, op.nc, op.cut);
    } else if op.OpForwardDeleteWord? {
      RemoveKeepsUndo(s, WordChars(e, op.count, isWord), true);
    } else {
      RemoveKeepsUndo(s, 0, true);
    }
  }

  /** In vi command mode, an undo gives back the text that any such operation changed, and the next undo
      the changed text. */
  lemma UndoUndoes(e: Edit, op: Op, isWord: char -> bool)
    requires Ok(e) && e.command && !e.saved && Saves(e, op)
    ensures var r := Apply(e, op, isWord); Undo(r).text == e.text && Undo(Undo(r)).text == r.text
  {
    hide Apply;
    SavesFirst(e, op, isWord);
  }

  /** Insert mode is turned on and off, and nothing else changes. */
  lemma InsertModeIsToggled(e: Edit, isWord: char -> bool)
    requires Ok(e)
    ensures var r := Apply(e, OpInsertMode, isWord);
            r.insert == !e.insert && Apply(r, OpInsertMode, isWord) == e && r.(insert := e.insert) == e
  {
  }

  // ---------- Deleting ----------

  /** The place of a cursor at k, when the text became t: in vi command mode it stays on a character. */
  function Within(e: Edit, t: string, k: int): int {
    if e.command && k >= |t| > 0 then |t| - 1 else k
  }

  lemma CutNothing(t: string, k: int)
    requires 0 <= k <= |t|
    ensures Less(t, k, k) == t && t[k..k] == ""
  {
  }

  lemma RemovesExactly(e: Edit, nc: int, cut: bool)
    requires Ok(e) && 0 <= nc && !(e.vi && !e.command && !e.insert)
    ensures var hi := Min(e.cursor + nc, |e.text|); var r := Remove(e, nc, cut);
            && r.text == Less(e.text, e.cursor, hi)
            && r.cut == (if cut then e.text[e.cursor..hi] else e.cut)
            && r.cursor == (if hi > e.cursor then Within(e, r.text, e.cursor) else e.cursor)
            && r.mark == e.mark && r.insert == e.insert
  {
    hide Restored, Less, Cut;
    CutNothing(e.text, e.cursor);
    CutIsLess(e.text, e.cursor, Min(e.cursor + nc, |e.text|));
  }

  lemma CutIsLess(t: string, lo: int, hi: int)
    requires 0 <= lo <= hi <= |t|
    ensures Cut(t, lo, hi) == Less(t, lo, hi)
  {
  }

  /** Deleting takes up to nc characters from the cursor on, and keeps them in the cut buffer only if
      that is asked for. */
  lemma DeletesExactly(e: Edit, nc: int, cut: bool)
    requires Ok(e) && 0 <= nc && !(e.vi && !e.command && !e.insert)
    ensures var hi := Min(e.cursor + nc, |e.text|); var r := DeleteChars(e, nc, cut);
            && r.text == Less(e.text, e.cursor, hi)
            && r.cut == (if cut then e.text[e.cursor..hi] else e.cut)
            && r.cursor == (if hi > e.cursor then Within(e, r.text, e.cursor) else e.cursor)
            && r.mark == e.mark && r.insert == e.insert
  {
    hide Remove, Less;
    RemovesExactly(Save(e), nc, cut);
  }

  /** Deleting what was typed gives back the text and the cursor. */
  lemma DeletingUndoesTyping(e: Edit, s: string, cut: bool)
    requires Ok(e) && e.insert && !e.command && |e.text| + |s| <= e.linelen
    ensures var r := DeleteChars(PlaceCursor(Typed(e, s), e.cursor), |s|, cut);
            r.text == e.text && r.cursor == e.cursor
  {
    hide AddChar, Typed, DeleteChars, Less, Between, EditSpec.PlaceCursor;
    TypedAndBack(e, s);
    DeletesExactly(PlaceCursor(Typed(e, s), e.cursor), |s|, cut);
    LessBetween(e.text, e.cursor, s);
  }

  lemma TypedAndBack(e: Edit, s: string)
    requires Ok(e) && e.insert && !e.command && |e.text| + |s| <= e.linelen
    ensures PlaceCursor(Typed(e, s), e.cursor) == e.(text := Between(e.text, e.cursor, s))
  {
    hide AddChar, Typed, Between;
    TypingInserts(e, s);
    assert s[..|s|] == s;
  }

  lemma LessBetween(t: string, k: int, s: string)
    requires 0 <= k <= |t|
    ensures Less(Between(t, k, s), k, k + |s|) == t
  {
  }

  /** Killing the line takes the rest of it from the cursor on, and deleting it takes all. */
  lemma KillsExactly(e: Edit)
    requires Ok(e)
    ensures var r := KillLine(e);
            && r.text == e.text[..e.cursor] && r.cut == e.text[e.cursor..]
            && r.cursor == Within(e, r.text, e.cursor) && r.mark == e.mark
    ensures var r := DeleteLine(e); r.text == "" && r.cut == e.text && r.cursor == 0 && r.mark == e.mark
  {
  }

  /** Killing the region takes what is between cursor and mark, in either order; an empty one only
      empties the cut buffer. */
  lemma RegionIsKilledExactly(e: Edit)
    requires Ok(e) && !(e.vi && !e.command && !e.insert)
    ensures var m := Min(e.mark, |e.text|); var lo, hi := Min(e.cursor, m), Max(e.cursor, m); var r := KillRegion(e);
            && r.text == Less(e.text, lo, hi) && r.cut == e.text[lo..hi]
            && r.cursor == (if lo < hi then Within(e, r.text, lo) else lo) && r.mark == r.cursor
  {
    hide Remove, ExchangePointAndMark, Less;
    var e1 := Save(e).(mark := Min(e.mark, |e.text|));
    if e1.mark == e1.cursor {
      CutNothing(e.text, e.cursor);
    } else {
      SwapKeepsOrder(e1);
      SwapKeepsText(e1);
      var e2 := if e1.mark < e1.cursor then ExchangePointAndMark(e1) else e1;
      RemovesExactly(e2, e2.mark - e2.cursor, true);
    }
  }

  lemma SwapKeepsText(e: Edit)
    ensures var x := ExchangePointAndMark(e);
            x == e.(cursor := x.cursor, mark := x.mark)
  {
  }

  // ---------- Words ----------

  /** A word ends before place i. */
  predicate EndsWord(t: string, i: int, isWord: char -> bool) {
    0 < i <= |t| && isWord(t[i - 1]) && (i == |t| || !isWord(t[i]))
  }

  /** A word starts at place i, after a character that is in none. */
  predicate StartsWord(t: string, i: int, isWord: char -> bool) {
    0 < i < |t| && isWord(t[i]) && !isWord(t[i - 1])
  }

  /** The number of places after lo, up to hi, at which a word ends. */
  function WordEnds(t: string, lo: int, hi: int, isWord: char -> bool): nat
    decreases hi - lo
  {
    if hi <= lo then 0 else WordEnds(t, lo, hi - 1, isWord) + (if EndsWord(t, hi, isWord) then 1 else 0)
  }

  /** The number of places after lo, up to hi, at which a word starts. */
  function WordStarts(t: string, lo: int, hi: int, isWord: char -> bool): nat
    decreases hi - lo
  {
    if hi <= lo then 0 else WordStarts(t, lo, hi - 1, isWord) + (if StartsWord(t, hi, isWord) then 1 else 0)
  }

  lemma {:induction false} WordsAdd(t: string, lo: int, mid: int, hi: int, isWord: char -> bool)
    requires lo <= mid <= hi
    ensures WordEnds(t, lo, hi, isWord) == WordEnds(t, lo, mid, isWord) + WordEnds(t, mid, hi, isWord)
    ensures WordStarts(t, lo, hi, isWord) == WordStarts(t, lo, mid, isWord) + WordStarts(t, mid, hi, isWord)
    decreases hi - mid
  {
    if mid < hi { WordsAdd(t, lo, mid, hi - 1, isWord); }
  }

  lemma {:induction false} NoWordEnds(t: string, lo: int, hi: int, isWord: char -> bool)
    requires forall i :: lo < i <= hi ==> !EndsWord(t, i, isWord)
    ensures WordEnds(t, lo, hi, isWord) == 0
    decreases hi - lo
  {
    if lo < hi { NoWordEnds(t, lo, hi - 1, isWord); }
  }

  lemma {:induction false} NoWordStarts(t: string, lo: int, hi: int, isWord: char -> bool)
    requires forall i :: lo < i <= hi ==> !StartsWord(t, i, isWord)
    ensures WordStarts(t, lo, hi, isWord) == 0
    decreases hi - lo
  {
    if lo < hi { NoWordStarts(t, lo, hi - 1, isWord); }
  }

  /** The next word end. */
  lemma OneWord(t: string, k: int, isWord: char -> bool) returns (m: int)
    requires 0 <= k < |t|
    ensures m == Skip(t, Skip(t, k, false, isWord), true, isWord) && k <= m <= |t|
    ensures m < |t| ==> EndsWord(t, m, isWord)
    ensures WordEnds(t, k, m, isWord) == if EndsWord(t, m, isWord) && k < m then 1 else 0
    ensures EndsWord(t, m, isWord) ==> k < m
  {
    hide Skip;
    var j := Skip(t, k, false, isWord);
    m := Skip(t, j, true, isWord);
    NoWordEnds(t, k, j, isWord);
    NoWordEnds(t, j, m - 1, isWord);
    if j < m {
      WordsAdd(t, k, j, m, isWord);
    }
  }

  /** The next word start. */
  lemma OneGap(t: string, k: int, isWord: char -> bool) returns (m: int)
    requires 0 <= k < |t|
    ensures m == Skip(t, Skip(t, k, true, isWord), false, isWord) && k < m <= |t|
    ensures m < |t| ==> StartsWord(t, m, isWord)
    ensures WordStarts(t, k, m, isWord) == if m < |t| then 1 else 0
  {
    hide Skip;
    var j := Skip(t, k, true, isWord);
    m := Skip(t, j, false, isWord);
    NoWordStarts(t, k, j, isWord);
    NoWordStarts(t, j, m - 1, isWord);
    if j < m {
      WordsAdd(t, k, j, m, isWord);
    }
  }

  /** Going past n words goes to the n-th word end after place k, or to the end of the text if there are
      fewer. */
  lemma {:induction false} PassesWords(t: string, k: int, n: int, isWord: char -> bool)
    requires 0 <= k <= |t|
    ensures var r := PastWords(t, k, n, isWord);
            if n <= 0 then r == k
            else if WordEnds(t, k, |t|, isWord) >= n then EndsWord(t, r, isWord) && WordEnds(t, k, r, isWord) == n
            else r == |t|
    decreases n
  {
    hide Skip, WordEnds, EndsWord;
    if n > 0 && k < |t| {
      var m := OneWord(t, k, isWord);
      var r := PastWords(t, m, n - 1, isWord);
      PassesWords(t, m, n - 1, isWord);
      WordsAdd(t, k, m, |t|, isWord);
      WordsAdd(t, k, m, r, isWord);
      NoneLeft(t, isWord);
    } else {
      NoneLeft(t, isWord);
    }
  }

  lemma NoneLeft(t: string, isWord: char -> bool)
    ensures WordEnds(t, |t|, |t|, isWord) == 0 && WordStarts(t, |t|, |t|, isWord) == 0
  {
  }

  /** Going past n gaps goes to the n-th word start after place k, or to the end of the text if there are
      fewer. */
  lemma {:induction false} PassesGaps(t: string, k: int, n: int, isWord: char -> bool)
    requires 0 <= k <= |t|
    ensures var r := PastGaps(t, k, n, isWord);
            if n <= 0 then r == k
            else if WordStarts(t, k, |t|, isWord) >= n
            then StartsWord(t, r, isWord) && WordStarts(t, k, r, isWord) == n
            else r == |t|
    decreases n
  {
    hide Skip, WordStarts, StartsWord;
    if n > 0 && k < |t| {
      var m := OneGap(t, k, isWord);
      var r := PastGaps(t, m, n - 1, isWord);
      PassesGaps(t, m, n - 1, isWord);
      WordsAdd(t, k, m, |t|, isWord);
      WordsAdd(t, k, m, r, isWord);
      NoneLeft(t, isWord);
    } else {
      NoneLeft(t, isWord);
    }
  }

  /** What deleting words takes away in emacs mode: up to the n-th word end after the character at the
      cursor, or the rest of the line if there are fewer. */
  lemma WordsAreKilled(e: Edit, n: int, isWord: char -> bool) returns (w: int)
    requires Ok(e) && !e.vi && n >= 1
    ensures e.cursor <= w <= |e.text|
    ensures var r := ForwardDeleteWord(e, n, isWord);
            r.text == Less(e.text, e.cursor, w) && r.cut == e.text[e.cursor..w] && r.cursor == e.cursor
    ensures var k := e.cursor + 1;
            if k < |e.text| && WordEnds(e.text, k, |e.text|, isWord) >= n
            then EndsWord(e.text, w, isWord) && WordEnds(e.text, k, w, isWord) == n
            else w == |e.text|
  {
    hide DeleteChars, PastWords, WordEnds, EndsWord;
    w := e.cursor + WordChars(e, n, isWord);
    DeletesExactly(e, w - e.cursor, true);
    if e.cursor + 1 < |e.text| {
      PassesWords(e.text, e.cursor + 1, n, isWord);
    }
  }

  /** What deleting words takes away in vi mode: up to the n-th word start after the cursor, or the rest
      of the line if there are fewer; in command mode the cut buffer keeps it. */
  lemma WordsAreDeleted(e: Edit, n: int, isWord: char -> bool) returns (w: int)
    requires Ok(e) && e.vi && (e.command || e.insert) && n >= 1
    ensures e.cursor <= w <= |e.text|
    ensures var r := ForwardDeleteWord(e, n, isWord);
            r.text == Less(e.text, e.cursor, w) && r.cut == if e.command then e.text[e.cursor..w] else e.cut
    ensures if WordStarts(e.text, e.cursor, |e.text|, isWord) >= n
            then StartsWord(e.text, w, isWord) && WordStarts(e.text, e.cursor, w, isWord) == n
            else w == |e.text|
  {
    hide DeleteChars, PastGaps, WordStarts, StartsWord;
    w := e.cursor + WordChars(e, n, isWord);
    DeletesExactly(e, w - e.cursor, e.command);
    PassesGaps(e.text, e.cursor, n, isWord);
  }

  // ---------- Yanking ----------

  /** Yanking an empty cut buffer only sets the mark. Otherwise as many copies as were asked for, or as
      fit, come between the text before the cursor and the text after it; the mark is before them and the
      cursor after them, or in vi mode on the last of their characters. */
  lemma YanksExactly(e: Edit, count: int)
    requires Ok(e)
    ensures var r := Yank(e, count);
            if e.cut == "" then r == e.(mark := e.cursor)
            else
              var n := if count <= 0 then 0 else Min(count, (e.linelen - |e.text|) / |e.cut|);
              var s := Copies(e.cut, n); var end := e.cursor + |s|;
              && r.text == Between(e.text, e.cursor, s) && r.mark == e.cursor && r.cut == e.cut
              && r.cursor == if e.vi then Max(end - 1, 0) else end
  {
    hide Copies, Between;
    if e.cut != "" {
      var e1 := Save(SetMark(e));
      assert Ok(e1) && e1.text == e.text && e1.cursor == e.cursor by { SavedText(e); }
      YankInsertsCopies(e1, e.cut, count);
      AddStringTimesKeeps(e1, e.cut, count);
      BetweenIs(e.text, e.cursor, Copies(e.cut, Fitting(count, e.cut, e.linelen - |e.text|)));
    }
  }

  lemma SavedText(e: Edit)
    requires Ok(e)
    ensures var r := Save(SetMark(e));
            Ok(r) && r == e.(mark := e.cursor, undo := r.undo, undoCursor := r.undoCursor, saved := r.saved)
  {
  }

  lemma BetweenIs(t: string, k: int, s: string)
    requires 0 <= k <= |t|
    ensures InsertAt(t, k, s) == Between(t, k, s)
  {
  }

  lemma {:induction false} AddStringTimesKeeps(e: Edit, s: string, count: int)
    requires Ok(e)
    ensures var r := AddStringTimes(e, s, count);
            r == e.(text := r.text, cursor := r.cursor) && Ok(r)
    decreases count
  {
    if count > 0 {
      AddStringTimesKeeps(AddString(e, s), s, count - 1);
    }
  }

  /** The copies, one after the other. */
  lemma {:induction false} CopiesRepeat(s: string, n: nat, i: nat)
    requires i < n * |s|
    ensures |Copies(s, n)| == n * |s| && Copies(s, n)[i] == s[i % |s|]
    decreases n
  {
    LengthOfCopies(s, n);
    LengthOfCopies(s, n - 1);
    if i < |s| {
      DivModUnique(i, 0, i, |s|);
    } else {
      CopiesRepeat(s, n - 1, i - |s|);
      NextCopy(i - |s|, |s|);
    }
  }

  lemma {:induction false} LengthOfCopies(s: string, n: nat)
    ensures |Copies(s, n)| == n * |s|
    decreases n
  {
    if n > 0 {
      LengthOfCopies(s, n - 1);
      assert n * |s| == (n - 1) * |s| + |s|;
    }
  }

  lemma NextCopy(j: nat, len: nat)
    requires len > 0
    ensures (j + len) % len == j % len
  {
    assert (j / len + 1) * len == (j / len) * len + len;
    DivModUnique(j + len, j / len + 1, j % len, len);
  }
}
