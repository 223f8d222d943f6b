/** What the editing operations of libtecla/getline.c do to the text being edited, its cursor and
    mark, the cut buffer, and the line that vi's undo keeps. */
module EditSpec {
  import opened Basics

  /** The state of an edit. The editor is in vi mode if vi, and then in its command mode if command,
      and else in emacs mode; saved says that the undo line was recorded since the last key was
      interpreted. At most linelen characters fit. */
  datatype Edit = Edit(text: string, cursor: int, mark: int, cut: string, insert: bool, vi: bool, command: bool,
                       undo: string, undoCursor: int, saved: bool, linelen: int)

  predicate Ok(e: Edit) {
    && 0 <= e.cursor <= |e.text| <= e.linelen
    && 0 <= e.mark
    && |e.cut| <= e.linelen
    && 0 <= e.undoCursor <= |e.undo| <= e.linelen
    && (e.command ==> e.vi)
  }

  function InsertAt(text: string, k: int, s: string): string
    requires 0 <= k <= |text|
  {
    text[..k] + s + text[k..]
  }

  /** The text less its characters lo, lo + 1, ..., hi - 1. */
  function Cut(text: string, lo: int, hi: int): string
    requires 0 <= lo <= hi <= |text|
  {
    text[..lo] + text[hi..]
  }

  /** The place that the cursor takes when it is sent to place k. */
  function Clamp(e: Edit, k: int): (r: int)
    ensures 0 <= r <= |e.text|
  {
    var r := if k >= |e.text| then (if e.command then |e.text| - 1 else |e.text|) else k;
    if r < 0 then 0 else r
  }

  function PlaceCursor(e: Edit, k: int): (r: Edit)
    ensures Ok(e) ==> Ok(r)
  {
    e.(cursor := Clamp(e, k))
  }

  function Save(e: Edit): (r: Edit)
    ensures Ok(e) ==> Ok(r)
  {
    if e.command && !e.saved then e.(undo := e.text, undoCursor := e.cursor, saved := true) else e
  }

  /** A character is overwritten, instead of inserted. */
  predicate Overwrites(e: Edit) {
    !e.insert && e.cursor < |e.text|
  }

  function AddChar(e: Edit, c: char): (r: Edit)
    requires Ok(e)
    ensures Ok(r)
  {
    if Overwrites(e) then e.(text := e.text[e.cursor := c], cursor := e.cursor + 1)
    else if |e.text| >= e.linelen then e
    else e.(text := InsertAt(e.text, e.cursor, [c]), cursor := e.cursor + 1)
  }

  function AddString(e: Edit, s: string): (r: Edit)
    requires Ok(e)
    ensures Ok(r)
  {
    if |e.text| + |s| > e.linelen then e
    else e.(text := InsertAt(e.text, e.cursor, s), cursor := e.cursor + |s|)
  }

  function AddStringTimes(e: Edit, s: string, count: int): (r: Edit)
    requires Ok(e)
    ensures Ok(r)
    decreases count
  {
    if count <= 0 then e else AddStringTimes(AddString(e, s), s, count - 1)
  }

  /** In vi's overwriting input mode, characters that are deleted come back from the undo line. */
  predicate Restores(e: Edit) {
    e.vi && !e.command && !e.insert
  }

  /** The text after the characters from the cursor to place hi have come back from the undo line, as
      far as that goes; if it ends before, the text ends there, or at the cursor. */
  function Restored(e: Edit, hi: int): (t: string)
    requires Ok(e) && e.cursor <= hi <= |e.text|
    ensures |t| <= e.linelen && e.cursor <= |t| && t[..e.cursor] == e.text[..e.cursor]
  {
    if hi <= |e.undo| then e.text[..e.cursor] + e.undo[e.cursor..hi] + e.text[hi..]
    else e.text[..e.cursor] + (if e.cursor < |e.undo| then e.undo[e.cursor..] else "")
  }

  /** The edit after the characters from the cursor to place hi were removed from the text, or came
      back from the undo line. */
  function RemovedOrRestored(e: Edit, hi: int): (r: Edit)
    requires Ok(e) && e.cursor <= hi <= |e.text|
    ensures Ok(r) && r.cursor == e.cursor && r.text[..e.cursor] == e.text[..e.cursor]
  {
    e.(text := if Restores(e) then Restored(e, hi) else Cut(e.text, e.cursor, hi))
  }

  /** Delete up to nc characters from the cursor on; cut tells whether to keep them in the cut buffer. */
  function Remove(e: Edit, nc: int, cut: bool): (r: Edit)
    requires Ok(e) && 0 <= nc
    ensures Ok(r)
  {
    var hi := Min(e.cursor + nc, |e.text|);
    var e1 := if cut then e.(cut := e.text[e.cursor..hi]) else e;
    if hi == e.cursor then e1
    else PlaceCursor(RemovedOrRestored(e1, hi), e.cursor)
  }

  function DeleteChars(e: Edit, nc: int, cut: bool): (r: Edit)
    requires Ok(e) && 0 <= nc
    ensures Ok(r)
  {
    Remove(Save(e), nc, cut)
  }

  function RemoveToEnd(e: Edit): (r: Edit)
    requires Ok(e)
    ensures Ok(r)
  {
    PlaceCursor(e.(cut := e.text[e.cursor..], text := e.text[..e.cursor]), e.cursor)
  }

  function KillLine(e: Edit): (r: Edit)
    requires Ok(e)
    ensures Ok(r)
  {
    RemoveToEnd(Save(e))
  }

  function DeleteLine(e: Edit): (r: Edit)
    requires Ok(e)
    ensures Ok(r)
  {
    Save(e).(cut := e.text, text := "", cursor := 0)
  }

  function SetMark(e: Edit): (r: Edit)
    ensures Ok(e) ==> Ok(r)
  {
    e.(mark := e.cursor)
  }

  function ExchangePointAndMark(e: Edit): (r: Edit)
    ensures Ok(e) ==> Ok(r)
  {
    PlaceCursor(e.(mark := e.cursor), Min(e.mark, |e.text|))
  }

  function RemoveRegion(e0: Edit): (r: Edit)
    requires Ok(e0)
    ensures Ok(r)
  {
    var e := e0.(mark := Min(e0.mark, |e0.text|));
    if e.mark == e.cursor then e.(cut := "")
    else
      var e' := if e.mark < e.cursor then ExchangePointAndMark(e) else e;
      SetMark(Remove(e', e'.mark - e'.cursor, true))
  }

  function KillRegion(e: Edit): (r: Edit)
    requires Ok(e)
    ensures Ok(r)
  {
    RemoveRegion(Save(e))
  }

  function Yank(e: Edit, count: int): (r: Edit)
    requires Ok(e)
    ensures Ok(r)
  {
    if e.cut == "" then SetMark(e)
    else
      var e2 := AddStringTimes(Save(SetMark(e)), e.cut, count);
      if e.vi then PlaceCursor(e2, e2.cursor - 1) else e2
  }

  /** The first place from k on that is not, or that is, in a word. */
  function Skip(text: string, k: int, word: bool, isWord: char -> bool): (r: int)
    requires 0 <= k <= |text|
    ensures k <= r <= |text|
    ensures r < |text| ==> isWord(text[r]) != word
    ensures forall i :: k <= i < r ==> isWord(text[i]) == word
    decreases |text| - k
  {
    if k < |text| && isWord(text[k]) == word then Skip(text, k + 1, word, isWord) else k
  }

  /** The place after the n-th word that ends after place k. */
  function PastWords(text: string, k: int, n: int, isWord: char -> bool): (r: int)
    requires 0 <= k <= |text|
    ensures k <= r <= |text|
    ensures n > 0 && r < |text| ==> k < r && isWord(text[r - 1]) && !isWord(text[r])
    decreases n
  {
    if n <= 0 || k == |text| then k
    else PastWords(text, Skip(text, Skip(text, k, false, isWord), true, isWord), n - 1, isWord)
  }

  /** The place of the end of the n-th word from the cursor. */
  function NthWordEnd(e: Edit, n: int, isWord: char -> bool): (r: int)
    requires 0 <= e.cursor <= |e.text|
    ensures e.cursor <= r + 1 <= |e.text|
    ensures e.cursor < |e.text| ==> e.cursor <= r
  {
    if e.cursor + 1 >= |e.text| then |e.text| - 1 else PastWords(e.text, e.cursor + 1, n, isWord) - 1
  }

  /** The place of the n-th word start after place k. */
  function PastGaps(text: string, k: int, n: int, isWord: char -> bool): (r: int)
    requires 0 <= k <= |text|
    ensures k <= r <= |text|
    ensures n > 0 && r < |text| ==> k < r && !isWord(text[r - 1]) && isWord(text[r])
    decreases n
  {
    if n <= 0 || k == |text| then k
    else PastGaps(text, Skip(text, Skip(text, k, true, isWord), false, isWord), n - 1, isWord)
  }

  /** The number of characters that are deleted as words: in emacs mode to the end of a word, in vi
      mode to the start of one. */
  function WordChars(e: Edit, count: int, isWord: char -> bool): (nc: nat)
    requires 0 <= e.cursor <= |e.text|
  {
    if e.vi then PastGaps(e.text, e.cursor, count, isWord) - e.cursor
    else NthWordEnd(e, count, isWord) - e.cursor + 1
  }

  function ForwardDeleteWord(e: Edit, count: int, isWord: char -> bool): (r: Edit)
    requires Ok(e)
    ensures Ok(r)
  {
    DeleteChars(e, WordChars(e, count, isWord), !e.vi || e.command)
  }

  function Undo(e: Edit): (r: Edit)
    ensures Ok(e) ==> Ok(r)
  {
    var m := Min(Min(e.cursor, |e.undo|), e.undoCursor);
    e.(text := e.undo, undo := e.text, cursor := m, undoCursor := m)
  }

  /** The operations. */
  datatype Op =
    | OpAddChar(c: char)
    | OpAddString(s: string)
    | OpDeleteChars(nc: nat, cut: bool)
    | OpKillLine
    | OpDeleteLine
    | OpKillRegion
    | OpForwardDeleteWord(count: int)
    | OpYank(count: int)
    | OpSetMark
    | OpExchangePointAndMark
    | OpPlaceCursor(k: int)
    | OpInsertMode

  function Apply(e: Edit, op: Op, isWord: char -> bool): (e': Edit)
    requires Ok(e)
    ensures Ok(e')
  {
    match op
    case OpAddChar(c) => AddChar(e, c)
    case OpAddString(s) => AddString(e, s)
    case OpDeleteChars(nc, cut) => DeleteChars(e, nc, cut)
    case OpKillLine => KillLine(e)
    case OpDeleteLine => DeleteLine(e)
    case OpKillRegion => KillRegion(e)
    case OpForwardDeleteWord(count) => ForwardDeleteWord(e, count, isWord)
    case OpYank(count) => Yank(e, count)
    case OpSetMark => SetMark(e)
    case OpExchangePointAndMark => ExchangePointAndMark(e)
    case OpPlaceCursor(k) => PlaceCursor(e, k)
    case OpInsertMode => e.(insert := !e.insert)
  }

  function Run(e: Edit, ops: seq<Op>, isWord: char -> bool): (e': Edit)
    requires Ok(e)
    ensures Ok(e')
    decreases |ops|
  {
    if ops == [] then e else Run(Apply(e, ops[0], isWord), ops[1..], isWord)
  }

  predicate SameUndo(a: Edit, b: Edit) {
    a.undo == b.undo && a.undoCursor == b.undoCursor && a.saved == b.saved
    && a.command == b.command && a.vi == b.vi
  }

  lemma RemoveKeepsUndo(e: Edit, nc: int, cut: bool)
    requires Ok(e) && 0 <= nc && (e.saved || !e.command)
    ensures SameUndo(e, Remove(e, nc, cut)) && SameUndo(e, RemoveToEnd(e)) && SameUndo(e, DeleteLine(e))
  {
    hide Cut, Clamp, Restored;
  }

  lemma RemoveRegionKeepsUndo(e: Edit)
    requires Ok(e) && (e.saved || !e.command)
    ensures SameUndo(e, RemoveRegion(e))
  {
    hide Remove, Clamp, RemoveToEnd, DeleteLine;
    var e1 := e.(mark := Min(e.mark, |e.text|));
    if e1.mark != e1.cursor {
      var e' := if e1.mark < e1.cursor then ExchangePointAndMark(e1) else e1;
      assert Ok(e1);
      SwapKeepsOrder(e1);
      RemoveKeepsUndo(e', e'.mark - e'.cursor, true);
    }
  }

  /** A mark before the cursor is after it when they are swapped. */
  lemma SwapKeepsOrder(e: Edit)
    requires Ok(e)
    ensures var e' := ExchangePointAndMark(e);
            SameUndo(e, e') && (e.mark < e.cursor ==> e'.cursor == e.mark && e'.mark == e.cursor)
  {
  }

  /** A killing operation took the text between the cursor that it left and the same place of the
      text after it, and put it in the cut buffer. */
  ghost predicate Killed(e: Edit, e': Edit) {
    && 0 <= e'.cursor <= |e'.text|
    && e.text == InsertAt(e'.text, e'.cursor, e'.cut)
    && e'.linelen == e.linelen
  }

  lemma CutThenInsert(text: string, lo: int, hi: int)
    requires 0 <= lo <= hi <= |text|
    ensures InsertAt(Cut(text, lo, hi), lo, text[lo..hi]) == text
  {
    assert Cut(text, lo, hi)[..lo] == text[..lo];
    assert Cut(text, lo, hi)[lo..] == text[hi..];
    assert text == text[..lo] + text[lo..hi] + text[hi..];
  }

  lemma RemoveKills(e: Edit, nc: int)
    requires Ok(e) && 0 <= nc && !e.vi
    ensures Killed(e, Remove(e, nc, true)) && Remove(e, nc, true).cursor == e.cursor
  {
    CutThenInsert(e.text, e.cursor, Min(e.cursor + nc, |e.text|));
  }

  lemma RemoveToEndKills(e: Edit)
    requires Ok(e) && !e.vi
    ensures Killed(e, RemoveToEnd(e))
  {
    assert e.text == e.text[..e.cursor] + e.text[e.cursor..];
    assert RemoveToEnd(e).text[RemoveToEnd(e).cursor..] == "";
  }

  lemma RemoveRegionKills(e0: Edit)
    requires Ok(e0) && !e0.vi
    ensures Killed(e0, RemoveRegion(e0))
  {
    hide Remove;
    var e := e0.(mark := Min(e0.mark, |e0.text|));
    if e.mark == e.cursor {
      assert InsertAt(e.text, e.cursor, "") == e.text;
    } else {
      var e' := if e.mark < e.cursor then ExchangePointAndMark(e) else e;
      RemoveKills(e', e'.mark - e'.cursor);
    }
  }

  /** The operations that kill text. */
  predicate Kills(op: Op) {
    op.OpKillLine? || op.OpDeleteLine? || op.OpKillRegion? || op.OpForwardDeleteWord?
  }

  lemma DeleteLineKills(e: Edit)
    requires Ok(e) && !e.vi
    ensures Killed(e, DeleteLine(e))
  {
  }

  lemma KillsKill(e: Edit, op: Op, isWord: char -> bool)
    requires Ok(e) && !e.vi && Kills(op)
    ensures Killed(e, Apply(e, op, isWord)) && !Apply(e, op, isWord).vi
  {
    hide Killed, Remove, RemoveToEnd, RemoveRegion, DeleteLine, WordChars;
    if op.OpKillLine? {
      RemoveToEndKills(e);
      RemoveKeepsUndo(e, 0, true);
    } else if op.OpDeleteLine? {
      DeleteLineKills(e);
      RemoveKeepsUndo(e, 0, true);
    } else if op.OpKillRegion? {
      RemoveRegionKills(e);
      RemoveRegionKeepsUndo(e);
    } else if op.OpForwardDeleteWord? {
      RemoveKills(e, WordChars(e, op.count, isWord));
      RemoveKeepsUndo(e, WordChars(e, op.count, isWord), true);
    }
  }

  /** Killing and then yanking gives back the text, with the cursor after what was yanked, the mark
      before it. */
  lemma KillThenYank(e: Edit, e': Edit)
    requires Ok(e) && Ok(e') && Killed(e, e') && !e'.vi
    ensures var y := Yank(e', 1);
            && y.text == e.text
            && y.cut == e'.cut
            && y.cursor == e'.cursor + |e'.cut|
            && y.mark == e'.cursor
            && y.text[y.mark..y.cursor] == e'.cut
  {
    assert |e.text| == |e'.text| + |e'.cut|;
    assert InsertAt(e'.text, e'.cursor, "") == e'.text;
    var e1 := SetMark(e');
    assert AddStringTimes(e1, e'.cut, 1) == AddStringTimes(AddString(e1, e'.cut), e'.cut, 0)
        == AddString(e1, e'.cut);
  }

  lemma KilledLength(e: Edit, e': Edit)
    requires Killed(e, e')
    ensures |e.text| == |e'.text| + |e'.cut|
  {
  }

  /** Killing in any of the four ways, and then yanking, in emacs mode. */
  lemma KillThenYankIsIdentity(e: Edit, op: Op, isWord: char -> bool)
    requires Ok(e) && !e.vi && Kills(op)
    ensures var k := Apply(e, op, isWord); var y := Apply(k, OpYank(1), isWord);
            && y.text == e.text
            && y.cursor == k.cursor + |e.text| - |k.text|
            && y.mark == k.cursor <= y.cursor
            && y.cut == y.text[y.mark..y.cursor]
  {
    hide Yank, DeleteLine, KillLine, KillRegion, ForwardDeleteWord;
    var k := Apply(e, op, isWord);
    KillsKill(e, op, isWord);
    KilledLength(e, k);
    KillThenYank(e, k);
  }

  /** In vi's overwriting input mode, deleting what was overwritten, or added at the end, gives back
      the line that was there. */
  lemma DeletingRestores(e: Edit, nc: int, cut: bool)
    requires Ok(e) && Restores(e) && 0 < nc <= |e.text| - e.cursor
    requires e.cursor <= |e.undo| && e.text[..e.cursor] == e.undo[..e.cursor]
    requires var hi := e.cursor + nc;
             if hi <= |e.undo| then e.text[hi..] == e.undo[hi..] else hi == |e.text|
    ensures var r := DeleteChars(e, nc, cut); r.text == e.undo && r.cursor == e.cursor
  {
    var hi := e.cursor + nc;
    if hi <= |e.undo| {
      assert e.undo == e.undo[..e.cursor] + e.undo[e.cursor..hi] + e.undo[hi..];
    } else {
      assert e.undo == e.undo[..e.cursor] + e.undo[e.cursor..];
    }
  }

  /** In that mode, the text after what is deleted is kept exactly if there is none, or if the undo
      line reaches up to there. */
  lemma RestoringKeepsTheRest(e: Edit, nc: int)
    requires Ok(e) && Restores(e) && 0 < nc <= |e.text| - e.cursor
    ensures var hi := e.cursor + nc;
            var back := if e.cursor < |e.undo| then e.undo[e.cursor..Min(hi, |e.undo|)] else "";
            DeleteChars(e, nc, false).text == e.text[..e.cursor] + back + e.text[hi..]
            <==> hi == |e.text| || hi <= |e.undo|
  {
    hide Ok, Restored;
    DeletesToRestored(e, nc);
    RestoredKeeps(e, e.cursor + nc);
  }

  /** A concrete failure: three characters were added to an empty line, and deleting the second one
      takes the third one with it. */
  lemma DeletingLosesTheRest()
    ensures var e := Edit("abc", 1, 0, "", false, true, false, "", 0, false, 10);
            Ok(e) && DeleteChars(e, 1, false).text == "a"
  {
    var e := Edit("abc", 1, 0, "", false, true, false, "", 0, false, 10);
    DeletesToRestored(e, 1);
    assert "abc"[..1] + "" == "a";
  }

  lemma DeletesToRestored(e: Edit, nc: int)
    requires Ok(e) && Restores(e) && 0 < nc <= |e.text| - e.cursor
    ensures DeleteChars(e, nc, false).text == Restored(e, e.cursor + nc)
  {
    hide Restored;
  }

  lemma RestoredKeeps(e: Edit, hi: int)
    requires Ok(e) && e.cursor < hi <= |e.text|
    ensures var back := if e.cursor < |e.undo| then e.undo[e.cursor..Min(hi, |e.undo|)] else "";
            Restored(e, hi) == e.text[..e.cursor] + back + e.text[hi..] <==> hi == |e.text| || hi <= |e.undo|
  {
    var back := if e.cursor < |e.undo| then e.undo[e.cursor..Min(hi, |e.undo|)] else "";
    if hi > |e.undo| {
      assert |Restored(e, hi)| == e.cursor + |back|;
      assert |e.text[..e.cursor] + back + e.text[hi..]| == e.cursor + |back| + (|e.text| - hi);
    }
  }

  function Copies(s: string, n: int): string {
    if n <= 0 then "" else s + Copies(s, n - 1)
  }

  /** How many copies of s fit after a text. */
  function Fitting(count: int, s: string, room: int): int
    requires s != "" && room >= 0
  {
    if count <= 0 then 0 else Min(count, room / |s|)
  }

  lemma OneMoreFits(room: int, len: int)
    requires len >= 1 && room >= 0
    ensures room < len ==> room / len == 0
    ensures room >= len ==> (room - len) / len == room / len - 1
  {
    var q := room / len;
    if room >= len {
      assert (q - 1) * len == q * len - len;
      assert q == 0 ==> q * len == 0;
      DivModUnique(room - len, q - 1, room % len, len);
    } else {
      DivModUnique(room, 0, room, len);
    }
  }

  /** One copy that fits, and the rest. */
  lemma OneCopy(text: string, k: int, s: string, more: string)
    requires 0 <= k <= |text|
    ensures InsertAt(InsertAt(text, k, s), k + |s|, more) == InsertAt(text, k, s + more)
  {
    var t1 := InsertAt(text, k, s);
    assert t1[..k + |s|] == text[..k] + s && t1[k + |s|..] == text[k..];
    assert text[..k] + (s + more) == (text[..k] + s) + more;
  }

  lemma {:induction false} NothingFits(e: Edit, s: string, count: int)
    requires Ok(e) && |e.text| + |s| > e.linelen
    ensures AddStringTimes(e, s, count) == e
    decreases count
  {
    if count > 0 { NothingFits(e, s, count - 1); }
  }

  /** Yanking repeatedly inserts as many copies of the cut buffer as were asked for, or as fit. */
  lemma {:induction false} YankInsertsCopies(e: Edit, s: string, count: int)
    requires Ok(e) && s != ""
    ensures var e' := AddStringTimes(e, s, count); var n := Fitting(count, s, e.linelen - |e.text|);
            && e'.text == InsertAt(e.text, e.cursor, Copies(s, n))
            && e'.cursor == e.cursor + |Copies(s, n)|
    decreases count
  {
    hide InsertAt;
    var room := e.linelen - |e.text|;
    OneMoreFits(room, |s|);
    InsertedLength(e.text, e.cursor, s);
    InsertedLength(e.text, e.cursor, "");
    if count > 0 && room >= |s| {
      var e1 := AddString(e, s);
      YankInsertsCopies(e1, s, count - 1);
      OneCopy(e.text, e.cursor, s, Copies(s, Fitting(count - 1, s, room - |s|)));
    } else if count > 0 {
      NothingFits(e, s, count);
    }
  }

  lemma InsertedLength(text: string, k: int, s: string)
    requires 0 <= k <= |text|
    ensures |InsertAt(text, k, s)| == |text| + |s|
    ensures s == "" ==> InsertAt(text, k, s) == text
  {
  }

  /** Undoing twice gives back both lines, and only moves the cursors to the leftmost of them that
      both lines have; from then on, two undos change nothing. */
  lemma UndoIsAnInvolution(e: Edit)
    requires Ok(e)
    ensures var m := Min(Min(e.cursor, |e.undo|), e.undoCursor); var u := Undo(Undo(e));
            && u == e.(cursor := m, undoCursor := m)
            && Undo(Undo(u)) == u
            && (e.cursor <= |e.undo| && e.cursor == e.undoCursor ==> u == e)
  {
  }

  lemma {:induction false} AddStringTimesKeepsUndo(e: Edit, s: string, count: int)
    requires Ok(e)
    ensures SameUndo(e, AddStringTimes(e, s, count))
    decreases count
  {
    if count > 0 {
      AddStringTimesKeepsUndo(AddString(e, s), s, count - 1);
    }
  }

  lemma YankKeepsUndo(e: Edit, count: int)
    requires Ok(e) && (e.saved || !e.command)
    ensures SameUndo(e, Yank(e, count))
  {
    hide InsertAt, Clamp, Ok;
    AddStringTimesKeepsUndo(SetMark(e), e.cut, count);
  }

  lemma ApplyKeepsUndo(e: Edit, op: Op, isWord: char -> bool)
    requires Ok(e) && (e.saved || !e.command)
    ensures SameUndo(e, Apply(e, op, isWord))
  {
    hide WordChars, InsertAt, Clamp, Yank, Remove, RemoveToEnd, RemoveRegion, DeleteLine;
    if op.OpYank? {
      YankKeepsUndo(e, op.count);
    } else if op.OpKillRegion? {
      RemoveRegionKeepsUndo(e);
    } else {
      var nc := if op.OpDeleteChars? then op.nc
                else if op.OpForwardDeleteWord? then WordChars(e, op.count, isWord) else 0;
      RemoveKeepsUndo(e, nc, if op.OpDeleteChars? then op.cut else !e.vi || e.command);
    }
  }

  lemma {:induction false} RunKeepsUndo(e: Edit, ops: seq<Op>, isWord: char -> bool)
    requires Ok(e) && (e.saved || !e.command)
    ensures SameUndo(e, Run(e, ops, isWord))
    decreases |ops|
  {
    if ops != [] {
      ApplyKeepsUndo(e, ops[0], isWord);
      RunKeepsUndo(Apply(e, ops[0], isWord), ops[1..], isWord);
    }
  }

  /** In vi command mode, whatever one key does after saving the line, undoing gives the line back,
      with both cursors at the leftmost of the old and the new one, and the changed line is what the
      next undo gives back. */
  lemma UndoRestoresTheLine(e: Edit, ops: seq<Op>, isWord: char -> bool)
    requires Ok(e) && e.command && !e.saved
    ensures var changed := Run(Save(e), ops, isWord);
            var u := Undo(changed);
            && u.text == e.text
            && u.cursor == u.undoCursor == Min(changed.cursor, e.cursor)
            && u.undo == changed.text
            && Undo(u).text == changed.text
  {
    RunKeepsUndo(Save(e), ops, isWord);
  }
}
