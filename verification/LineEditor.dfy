/** The line editor of libtecla/getline.c: the line, cut and undo buffers, and the terminal. */
module LineEditors {
  import opened Basics
  import opened Terminals
  import opened Displays
  import opened LineImages
  import opened EditSpec

  /** Text that can be edited: it has no NUL, and no DEL (see Terminals.DelAdvancesByOne). */
  predicate Clean(s: string) {
    NoNul(s) && Showable(s)
  }

  /** The buffer a, of which max characters may be used, holds a string of length n. */
  ghost predicate HoldsLine(a: seq<char>, n: int, max: int) {
    0 <= n <= max < |a| && a[n] == NUL && Clean(a[..n])
  }

  /** memmove within a buffer. */
  method MoveChars(a: array<char>, to: nat, from: nat, n: nat)
    requires to + n <= a.Length && from + n <= a.Length
    modifies a
    ensures a[..] == old(a[..to] + a[from..from + n] + a[to + n..])
  {
    forall i | 0 <= i < n {
      a[to + i] := a[from + i];
    }
  }

  /** The buffer a after s was written over it at place k. */
  ghost function Over(a: seq<char>, s: string, k: int): (r: seq<char>)
    requires 0 <= k && k + |s| <= |a|
    ensures |r| == |a|
  {
    a[..k] + s + a[k + |s|..]
  }

  lemma OverMore(a: seq<char>, s: string, i: int, k: int)
    requires 0 <= k && k + |s| <= |a| && 0 <= i < |s|
    ensures Over(a, s[..i + 1], k) == Over(a, s[..i], k)[k + i := s[i]]
  {
    assert s[..i + 1] == s[..i] + [s[i]];
  }

  lemma OverOne(a: seq<char>, c: char, k: int)
    requires 0 <= k < |a|
    ensures Over(a, [c], k) == a[k := c]
  {
  }

  lemma OverNothing(a: seq<char>, k: int)
    requires 0 <= k <= |a|
    ensures Over(a, "", k) == a
  {
  }

  /** strcpy between buffers, of a string t. */
  method CopyString(dst: array<char>, to: nat, src: array<char>, from: nat, ghost t: string)
    requires dst != src && from + |t| < src.Length && to + |t| < dst.Length
    requires src[from..from + |t|] == t && src[from + |t|] == NUL && NoNul(t)
    modifies dst
    ensures dst[..] == Over(old(dst[..]), t, to)[to + |t| := NUL]
  {
    hide Over;
    OverNothing(dst[..], to);
    assert t[..0] == "";
    var i := 0;
    assert src[from + |t|] == NUL;
    assert forall k :: 0 <= k < |t| ==> t[k] == src[from..from + |t|][k];
    while src[from + i] != NUL
      invariant 0 <= i <= |t|
      invariant i < |t| ==> t[i] == src[from + i]
      invariant dst[..] == Over(old(dst[..]), t[..i], to)
      decreases |t| - i
    {
      OverMore(old(dst[..]), t, i, to);
      dst[to + i] := src[from + i];
      i := i + 1;
    }
    assert t[..|t|] == t;
    dst[to + i] := NUL;
  }

  /** strlen. */
  method StringLength(a: array<char>) returns (len: int)
    requires |CString(a[..])| < a.Length
    ensures len == |CString(a[..])| && a[..len] == CString(a[..])
  {
    ghost var t := CString(a[..]);
    len := 0;
    while a[len] != NUL
      invariant 0 <= len <= |t|
      invariant len < |t| ==> a[len] == t[len]
      decreases |t| - len
    {
      len := len + 1;
    }
  }

  /** memcpy between buffers. */
  method CopyChars(dst: array<char>, src: array<char>, from: nat, n: nat)
    requires dst != src && from + n <= src.Length && n <= dst.Length
    modifies dst
    ensures dst[..] == src[from..from + n] + old(dst[n..])
  {
    forall i | 0 <= i < n {
      dst[i] := src[from + i];
    }
  }

  /** The buffer a, which holds n characters, after s was put at place k. */
  ghost function Written(a: seq<char>, n: int, s: string, k: int): (r: seq<char>)
    requires 0 <= k && k + |s| < |a|
    ensures |r| == |a|
  {
    if s != "" && k + |s| > n then Over(a, s, k)[k + |s| := NUL] else Over(a, s, k)
  }

  lemma WrittenMore(a: seq<char>, n: int, s: string, i: int, k: int)
    requires 0 <= k && 0 <= i < |s| && k + |s| < |a|
    ensures var w := Written(a, n, s[..i], k)[k + i := s[i]];
            Written(a, n, s[..i + 1], k) == if k + i >= n then w[k + i + 1 := NUL] else w
  {
    OverMore(a, s, i, k);
    assert s[..i + 1] != "";
    if k + i >= n {
      assert a[k + i + 1..] == a[k + i..][1..];
      assert forall j :: k + i < j < |a| ==> Over(a, s[..i], k)[j] == a[j];
    }
  }

  /** A string put into a gap made for it. */
  lemma GapIsFilled(a: seq<char>, a1: seq<char>, n: int, k: int, s: string, max: int)
    requires HoldsLine(a, n, max) && 0 <= k <= n && n + |s| <= max && Clean(s)
    requires a1 == a[..k + |s|] + a[k..n + 1] + a[n + 1 + |s|..]
    ensures var a2 := Over(a1, s, k);
            HoldsLine(a2, n + |s|, max) && a2[..n + |s|] == InsertAt(a[..n], k, s)
  {
    var a2 := Over(a1, s, k);
    assert a2 == a[..k] + s + (a[k..n + 1] + a[n + 1 + |s|..]);
    assert a2[..n + |s|] == a[..k] + s + a[k..n];
    assert a2[n + |s|] == a[n];
    assert a[..n][..k] == a[..k] && a[..n][k..] == a[k..n];
    CleanInsert(a[..n], k, s);
  }

  lemma CleanInsert(t: string, k: int, s: string)
    requires Clean(t) && Clean(s) && 0 <= k <= |t|
    ensures Clean(InsertAt(t, k, s))
  {
  }

  /** A string put after the end of a line. */
  lemma StringIsAppended(a: seq<char>, n: int, s: string, max: int)
    requires HoldsLine(a, n, max) && n + |s| <= max && Clean(s) && s != ""
    ensures var a' := Over(a, s, n)[n + |s| := NUL];
            HoldsLine(a', n + |s|, max) && a'[..n + |s|] == InsertAt(a[..n], n, s)
  {
    var a' := Over(a, s, n)[n + |s| := NUL];
    assert a'[..n + |s|] == a[..n] + s;
    assert a[..n][..n] == a[..n] && a[..n][n..] == "";
  }

  lemma AppendedLine(a: seq<char>, n: int, s: string, max: int)
    requires HoldsLine(a, n, max) && n + |s| <= max && Clean(s)
    ensures var a' := Written(a, n, s, n);
            HoldsLine(a', n + |s|, max) && a'[..n + |s|] == InsertAt(a[..n], n, s)
  {
    if s == "" {
      OverNothing(a, n);
      assert InsertAt(a[..n], n, s) == a[..n];
    } else {
      StringIsAppended(a, n, s, max);
    }
  }

  lemma CharIsOverwritten(a: seq<char>, n: int, k: int, c: char, max: int)
    requires HoldsLine(a, n, max) && 0 <= k < n && Clean([c])
    ensures HoldsLine(a[k := c], n, max) && a[k := c][..n] == a[..n][k := c]
  {
    assert [c][0] == c;
    assert a[k := c][..n] == a[..n][k := c];
  }

  lemma CharsAreRemoved(a: seq<char>, a': seq<char>, n: int, lo: int, hi: int, max: int)
    requires HoldsLine(a, n, max) && 0 <= lo <= hi <= n
    requires a' == a[..lo] + a[hi..n + 1] + a[n + 1 - (hi - lo)..]
    ensures HoldsLine(a', n - (hi - lo), max) && a'[..n - (hi - lo)] == Cut(a[..n], lo, hi)
  {
    assert a'[..n - (hi - lo)] == a[..lo] + a[hi..n];
    assert a[..n][..lo] == a[..lo] && a[..n][hi..] == a[hi..n];
  }

  lemma CharsAreRestored(a: seq<char>, n: int, u: string, k: int, max: int)
    requires HoldsLine(a, n, max) && Clean(u) && 0 <= k && k + |u| <= n
    ensures HoldsLine(Over(a, u, k), n, max)
    ensures Over(a, u, k)[..n] == a[..n][..k] + u + a[..n][k + |u|..]
  {
    var b := Over(a, u, k);
    assert b[..n] == a[..k] + u + a[k + |u|..n];
    assert a[..n][..k] == a[..k] && a[..n][k + |u|..] == a[k + |u|..n];
    assert b[n] == a[n];
  }

  /** The text with n characters from the undo line put back over those at the cursor. */
  ghost function PutBack(e: Edit, n: int): (t: string)
    requires Ok(e) && 0 <= n && e.cursor + n <= |e.text| && e.cursor + n <= |e.undo|
    ensures |t| == |e.text|
  {
    e.text[..e.cursor] + e.undo[e.cursor..e.cursor + n] + e.text[e.cursor + n..]
  }

  /** The line in which characters came back from the undo line. */
  lemma RestoredIs(e: Edit, hi: int)
    requires Ok(e) && e.cursor < hi <= |e.text|
    ensures hi <= |e.undo| ==> Restored(e, hi) == PutBack(e, hi - e.cursor)
    ensures e.cursor < |e.undo| < hi ==> Restored(e, hi) == PutBack(e, |e.undo| - e.cursor)[..|e.undo|]
    ensures |e.undo| <= e.cursor ==> Restored(e, hi) == e.text[..e.cursor]
  {
    if e.cursor < |e.undo| < hi {
      assert PutBack(e, |e.undo| - e.cursor)[..|e.undo|] == e.text[..e.cursor] + e.undo[e.cursor..];
    }
  }

  lemma LineIsTruncated(a: seq<char>, n: int, k: int, max: int)
    requires HoldsLine(a, n, max) && 0 <= k <= n
    ensures HoldsLine(a[k := NUL], k, max) && a[k := NUL][..k] == a[..n][..k]
  {
    assert a[k := NUL][..k] == a[..n][..k];
  }

  /** The characters lo, ..., hi - 1 of a line, and a NUL, in a buffer. */
  lemma PartIsCut(a: seq<char>, n: int, lo: int, hi: int, max: int, b: seq<char>)
    requires HoldsLine(a, n, max) && 0 <= lo <= hi <= n
    requires hi - lo < |b| && b[..hi - lo] == a[lo..hi] && b[hi - lo] == NUL
    ensures CString(b) == a[..n][lo..hi] && Clean(a[..n][lo..hi])
  {
    hide CString, Showable;
    assert a[..n][lo..hi] == a[lo..hi];
    assert b[..|a[lo..hi]|] == a[lo..hi];
    SliceIsClean(a[..n], lo, hi);
    CStringIs(b, a[lo..hi]);
  }

  lemma SliceIsClean(t: string, lo: int, hi: int)
    requires Clean(t) && 0 <= lo <= hi <= |t|
    ensures Clean(t[lo..hi])
  {
  }

  /** Showing a line again after s was put into it at place k, from there on. */
  lemma InsertShown(prompt: string, t: string, k: int, s: string, n: int, isPrint: char -> bool,
                    s0: Screen, s1: Screen)
    requires 0 <= k <= |t| && n >= 2 && isPrint(' ')
    requires var p := |Picture(prompt + t[..k], 0, n, isPrint)|;
             && Looks(s0, n, Picture(prompt + t, 0, n, isPrint))
             && Wrote(s0, s1, n, p, Shown(s + t[k..], NUL, p, n, isPrint))
    ensures var p := |Picture(prompt + t[..k], 0, n, isPrint)|; var t' := InsertAt(t, k, s);
            && Looks(s1, n, Picture(prompt + t', 0, n, isPrint))
            && |Picture(prompt + t'[..k + |s|], 0, n, isPrint)| == p + |Picture(s, p, n, isPrint)|
  {
    hide Picture, Looks, Wrote, Shown;
    var a, t' := prompt + t[..k], InsertAt(t, k, s);
    assert prompt + t == a + t[k..];
    assert prompt + t' == a + (s + t[k..]);
    assert prompt + t'[..k + |s|] == a + s;
    PictureOf(a, s, n, isPrint);
    InsertedIsLonger(a, s, t[k..], n, isPrint);
    Reprinted(s0, s1, n, a, t[k..], s + t[k..], isPrint);
  }

  /** Showing a line again after its part from place k on was changed, and clearing what comes after
      it. */
  lemma RestShown(prompt: string, t: string, t': string, k: int, n: int, isPrint: char -> bool,
                  s0: Screen, s1: Screen, s2: Screen)
    requires 0 <= k <= |t| && k <= |t'| && t[..k] == t'[..k] && n >= 2 && isPrint(' ')
    requires var p := |Picture(prompt + t[..k], 0, n, isPrint)|; var end := p + |Picture(t'[k..], p, n, isPrint)|;
             && Looks(s0, n, Picture(prompt + t, 0, n, isPrint))
             && Wrote(s0, s1, n, p, Shown(t'[k..], NUL, p, n, isPrint))
             && (forall q :: Cell(s2, n, q) == if q < end then Cell(s1, n, q) else ' ')
    ensures Looks(s2, n, Picture(prompt + t', 0, n, isPrint))
  {
    hide Picture, Looks, Wrote, Shown;
    var a := prompt + t[..k];
    assert prompt + t == a + t[k..];
    assert prompt + t' == a + t'[k..];
    PictureOf(a, t'[k..], n, isPrint);
    ReprintedCleared(s0, s1, s2, n, a, t[k..], t'[k..], isPrint);
  }

  lemma SameLooks(s: Screen, s': Screen, n: int, t: string)
    requires n >= 1 && s.cells == s'.cells
    ensures Looks(s, n, t) <==> Looks(s', n, t)
  {
    SameCells(s, s', n);
  }

  lemma OverwriteParts(prompt: string, t: string, k: int, c: char)
    requires 0 <= k < |t|
    ensures var a, b := prompt + t[..k], t[k + 1..];
            && prompt + t == a + ([t[k]] + b)
            && prompt + t[k := c] == a + ([c] + b)
            && prompt + t[k := c][..k + 1] == a + [c]
            && prompt + t[k := c][..k] == a
            && t[k := c][k..] == [c] + b
  {
  }

  /** Once the line was saved, saving it again changes nothing. */
  lemma SavedAlready(e: Edit, e': Edit)
    requires Ok(e') && SameUndo(Save(e), e')
    ensures Save(e') == e'
  {
  }

  lemma NextWord(t: string, k: int, n: int, isWord: char -> bool)
    requires 0 <= k < |t| && n > 0
    ensures PastWords(t, k, n, isWord)
         == PastWords(t, Skip(t, Skip(t, k, false, isWord), true, isWord), n - 1, isWord)
  {
  }

  lemma NextGap(t: string, k: int, n: int, isWord: char -> bool)
    requires 0 <= k <= |t|
    ensures PastGaps(t, k, n, isWord)
         == if n <= 0 || k == |t| then k
            else PastGaps(t, Skip(t, Skip(t, k, true, isWord), false, isWord), n - 1, isWord)
  {
  }

  lemma NoMoreWords(t: string, k: int, n: int, isWord: char -> bool)
    requires 0 <= k <= |t| && (n <= 0 || k == |t|)
    ensures PastWords(t, k, n, isWord) == k
  {
  }

  /** The buffer a after its first i characters were swapped for those of b. */
  ghost function Swapped(a: seq<char>, b: seq<char>, i: int): (r: seq<char>)
    requires 0 <= i <= |a| == |b|
    ensures |r| == |a|
  {
    b[..i] + a[i..]
  }

  lemma SwappedNothing(a: seq<char>, b: seq<char>)
    requires |a| == |b|
    ensures Swapped(a, b, 0) == a
  {
  }

  lemma SwappedAt(a: seq<char>, b: seq<char>, i: int)
    requires 0 <= i < |a| == |b|
    ensures Swapped(a, b, i)[i] == a[i]
  {
  }

  lemma SwappedMore(a: seq<char>, b: seq<char>, i: int)
    requires 0 <= i < |a| == |b|
    ensures Swapped(a, b, i + 1) == Swapped(a, b, i)[i := b[i]]
  {
  }

  lemma LineEnds(a: seq<char>, n: int, max: int)
    requires HoldsLine(a, n, max)
    ensures 0 <= n < |a| && a[n] == NUL && forall k :: 0 <= k < n ==> a[k] != NUL
  {
    assert forall k :: 0 <= k < n ==> a[..n][k] == a[k];
  }

  /** The rest of a line, of which the first i characters were swapped. */
  lemma RestOfLine(a: seq<char>, b: seq<char>, n: int, i: int, max: int)
    requires HoldsLine(a, n, max) && 0 <= i <= n && |a| == |b|
    ensures var s := Swapped(a, b, i);
            && s[i..n] == a[i..n] && s[n] == NUL && NoNul(a[i..n])
            && s[i..i + |a[i..n]|] == a[i..n] && s[i + |a[i..n]|] == NUL
  {
    assert forall k :: i <= k < n ==> a[..n][k] == a[k];
  }

  /** The shorter line a and the longer one b, swapped. */
  lemma SwappedLines(a: seq<char>, b: seq<char>, n: int, m: int, max: int)
    requires HoldsLine(a, n, max) && HoldsLine(b, m, max) && n <= m && |a| == |b|
    ensures var a' := Over(Swapped(a, b, n), b[n..m], n)[m := NUL];
            HoldsLine(a', m, max) && a'[..m] == b[..m]
    ensures var b' := Swapped(b, a, n)[n := NUL];
            HoldsLine(b', n, max) && b'[..n] == a[..n]
  {
    var a' := Over(Swapped(a, b, n), b[n..m], n)[m := NUL];
    assert a'[..m] == b[..m];
    var b' := Swapped(b, a, n)[n := NUL];
    assert b'[..n] == a[..n];
  }

  lemma WholeLine(a: seq<char>, n: int, max: int)
    requires HoldsLine(a, n, max) && |a| == max + 2
    ensures CString(a[..max + 1]) == a[..n] && a[n := NUL] == a
  {
    CStringIs(a[..max + 1], a[..n]);
  }

  lemma NothingShown(s: Screen, n: int, isPrint: char -> bool)
    requires n >= 1 && forall q :: q >= 0 ==> Cell(s, n, q) == ' '
    ensures Picture("", 0, n, isPrint) == "" && Looks(s, n, "")
  {
  }

  lemma NotShorter(a: string, b: string, n: int, isPrint: char -> bool)
    requires n >= 1
    ensures |Picture(a + "", 0, n, isPrint)| <= |Picture(a + b, 0, n, isPrint)|
  {
    PictureOf(a, b, n, isPrint);
    assert a + "" == a;
  }

  lemma InLine(a: seq<char>, n: int, max: int)
    requires HoldsLine(a, n, max)
    ensures 0 <= n <= max < |a| && Clean(a[..n])
  {
  }

  lemma PartIsClean(t: string, k: int)
    requires Clean(t) && 0 <= k <= |t|
    ensures Clean(t[..k]) && Clean(t[k..])
  {
  }

  class GetLine {
    const linelen: nat
    const line: array<char>
    const cutbuf: array<char>
    const undoLine: array<char>       // vi.undo.line
    const prompt: string
    const promptLen: nat
    const isWord: char -> bool
    const disp: Display
    var ntotal: int
    var buffCurpos: int
    var buffMark: int
    var insert: bool
    var vi: bool                      // editor
    var command: bool                 // vi.command
    var undoNtotal: int               // vi.undo.ntotal
    var undoCurpos: int               // vi.undo.buff_curpos
    var undoSaved: bool               // vi.undo.saved
    var redisplay: bool

    predicate Shape() {
      && line != cutbuf && line != undoLine && cutbuf != undoLine
      && line.Length == cutbuf.Length == undoLine.Length == linelen + 2
      && Clean(prompt)
      && disp.ncolumn >= 2 && disp.isPrint(' ')
      && promptLen == |Picture(prompt, 0, disp.ncolumn, disp.isPrint)|
    }

    ghost predicate CutOk()
      reads cutbuf
    {
      |CString(cutbuf[..])| <= linelen && Clean(CString(cutbuf[..]))
    }

    ghost predicate UndoOk()
      reads `undoNtotal, `undoCurpos, undoLine
    {
      HoldsLine(undoLine[..], undoNtotal, linelen) && 0 <= undoCurpos <= undoNtotal
    }

    ghost predicate LineOk()
      reads `ntotal, line
    {
      HoldsLine(line[..], ntotal, linelen)
    }

    ghost predicate BuffersOk()
      reads this, line, cutbuf, undoLine
    {
      && Shape() && CutOk() && UndoOk() && LineOk()
      && 0 <= buffCurpos <= ntotal && 0 <= buffMark && (command ==> vi)
    }

    ghost predicate Valid()
      reads this, line, cutbuf, undoLine, disp
    {
      BuffersOk() && disp.Valid()
    }

    ghost function Text(): string
      requires 0 <= ntotal <= line.Length
      reads `ntotal, line
    {
      line[..ntotal]
    }

    ghost function CutText(): string
      reads cutbuf
    {
      CString(cutbuf[..])
    }

    ghost function UndoText(): string
      requires 0 <= undoNtotal <= undoLine.Length
      reads `undoNtotal, undoLine
    {
      undoLine[..undoNtotal]
    }

    /** The state of the edit, as a value. */
    ghost function State(): (e: Edit)
      requires BuffersOk()
      reads this, line, cutbuf, undoLine
      ensures Ok(e)
    {
      Edit(Text(), buffCurpos, buffMark, CutText(), insert, vi, command,
           UndoText(), undoCurpos, undoSaved, linelen)
    }

    ghost function Image(s: string): string
      requires disp.ncolumn >= 1
    {
      Picture(prompt + s, 0, disp.ncolumn, disp.isPrint)
    }

    /** The cursor of the terminal is where the buffer cursor is. */
    ghost predicate CursorInPlace()
      requires 0 <= buffCurpos <= ntotal <= line.Length && disp.ncolumn >= 1
      reads `ntotal, `buffCurpos, line, disp
    {
      disp.termCurpos == |Image(Text()[..buffCurpos])|
    }

    /** The terminal shows the prompt and the line, and nothing else. */
    ghost predicate LineShown()
      requires 0 <= ntotal <= line.Length && disp.ncolumn >= 1
      reads `ntotal, line, disp
    {
      Looks(disp.screen, disp.ncolumn, Image(Text()))
    }

    ghost predicate Synced()
      reads this, line, cutbuf, undoLine, disp
    {
      Valid() && CursorInPlace() && LineShown()
    }

    constructor (linelen: nat, prompt: string, isWord: char -> bool, disp: Display)
      requires disp.Valid() && Clean(prompt)
      ensures Valid() && fresh(line) && fresh(cutbuf) && fresh(undoLine)
      ensures this.linelen == linelen && this.prompt == prompt && this.isWord == isWord && this.disp == disp
      ensures State() == Edit("", 0, 0, "", true, false, false, "", 0, false, linelen)
    {
      this.linelen := linelen;
      this.prompt := prompt;
      this.isWord := isWord;
      this.disp := disp;
      promptLen := |Picture(prompt, 0, disp.ncolumn, disp.isPrint)|;
      line := new char[linelen + 2](_ => NUL);
      cutbuf := new char[linelen + 2](_ => NUL);
      undoLine := new char[linelen + 2](_ => NUL);
      ntotal, buffCurpos, buffMark, undoNtotal, undoCurpos := 0, 0, 0, 0, 0;
      insert, vi, command, undoSaved, redisplay := true, false, false, false, true;
      new;
      CStringIs(cutbuf[..], "");
      assert line[..0] == "" && undoLine[..0] == "";
    }

    /** Put a character into the buffer; err if it does not fit. */
    method BufferChar(c: char, bufpos: nat) returns (err: bool)
      requires line.Length == linelen + 2
      modifies this`ntotal, line
      ensures err == (bufpos >= linelen)
      ensures ntotal == if !err && bufpos >= old(ntotal) then bufpos + 1 else old(ntotal)
      ensures line[..] == if err then old(line[..])
                          else if bufpos >= old(ntotal) then old(line[..])[bufpos := c][bufpos + 1 := NUL]
                          else old(line[..])[bufpos := c]
    {
      if bufpos >= linelen {
        return true;
      }
      line[bufpos] := c;
      if bufpos >= ntotal {
        ntotal := bufpos + 1;
        line[ntotal] := NUL;
      }
      return false;
    }

    /** Put as much of a string into the buffer as fits; err if not all of it does. */
    method BufferString(s: string, bufpos: nat) returns (err: bool)
      requires line.Length == linelen + 2
      modifies this`ntotal, line
      ensures err == (bufpos + |s| > linelen)
      ensures var nnew := if bufpos + |s| <= linelen then |s| else Max(linelen - bufpos, 0);
              && ntotal == (if nnew > 0 && bufpos + nnew > old(ntotal) then bufpos + nnew else old(ntotal))
              && line[..] == if nnew == 0 then old(line[..]) else Written(old(line[..]), old(ntotal), s[..nnew], bufpos)
    {
      hide Over;
      var nnew := if bufpos + |s| <= linelen then |s| else linelen - bufpos;
      if nnew > 0 { OverNothing(line[..], bufpos); }
      assert s[..0] == "";
      var i := 0;
      while i < nnew
        invariant 0 <= i <= Max(nnew, 0)
        invariant ntotal == if i > 0 && bufpos + i > old(ntotal) then bufpos + i else old(ntotal)
        invariant line[..] == if nnew <= 0 then old(line[..]) else Written(old(line[..]), old(ntotal), s[..i], bufpos)
      {
        WrittenMore(old(line[..]), old(ntotal), s[..nnew], i, bufpos);
        assert s[..nnew][..i] == s[..i] && s[..nnew][..i + 1] == s[..i + 1];
        var _ := BufferChar(s[i], bufpos + i);
        i := i + 1;
      }
      return nnew < |s|;
    }

    /** Make a gap for n characters, if there is room for it. An error is reported in any case: its
        callers take no notice. */
    method MakeGap(start: nat, n: nat) returns (err: bool)
      requires line.Length == linelen + 2 && start <= ntotal <= linelen
      modifies this`ntotal, line
      ensures err
      ensures ntotal == if old(ntotal) + n > linelen then old(ntotal) else old(ntotal) + n
      ensures line[..] == if old(ntotal) + n > linelen then old(line[..])
                          else old(line[..start + n] + line[start..ntotal + 1] + line[ntotal + 1 + n..])
    {
      if ntotal + n > linelen {
        return true;
      }
      MoveChars(line, start + n, start, ntotal - start + 1);
      ntotal := ntotal + n;
      return true;
    }

    method RemoveFromBuffer(start: nat, n: nat)
      requires line.Length == linelen + 2 && start + n <= ntotal <= linelen
      modifies this`ntotal, line
      ensures ntotal == old(ntotal) - n
      ensures line[..] == old(line[..start] + line[start + n..ntotal + 1] + line[ntotal + 1 - n..])
    {
      MoveChars(line, start, start + n, ntotal - start - n + 1);
      ntotal := ntotal - n;
    }

    method TruncateBuffer(n: nat) returns (err: bool)
      requires line.Length == linelen + 2
      modifies this`ntotal, line
      ensures err == (n > linelen)
      ensures ntotal == if err then old(ntotal) else n
      ensures line[..] == if err then old(line[..]) else old(line[..])[n := NUL]
    {
      if n > linelen {
        return true;
      }
      line[n] := NUL;
      ntotal := n;
      return false;
    }

    lemma StateFields()
      requires BuffersOk()
      ensures State().text == Text() && |Text()| == ntotal && State().cursor == buffCurpos
      ensures State().insert == insert && State().mark == buffMark && State().linelen == linelen
      ensures State().vi == vi && State().command == command && State().undo == UndoText()
      ensures 0 <= undoNtotal == |UndoText()| <= linelen && Clean(UndoText()) && undoLine.Length == linelen + 2
      ensures 0 <= buffCurpos <= ntotal <= linelen && line.Length == linelen + 2 && Clean(Text())
      ensures line[ntotal] == NUL
      ensures line != cutbuf && line != undoLine && cutbuf != undoLine && disp.ncolumn >= 2
    {
    }

    /** Move both cursors to place k of the line, or to its nearest end. */
    method PlaceCursor(k: int)
      requires Valid()
      modifies `buffCurpos, disp
      ensures Valid() && CursorInPlace()
      ensures State() == EditSpec.PlaceCursor(old(State()), k)
      ensures disp.screen.cells == old(disp.screen.cells)
      ensures old(LineShown()) ==> LineShown()
    {
      hide CutOk, UndoOk, CutText, UndoText, Picture, Looks, Moved, BlankFrom;
      StateFields();
      var pos := k;
      if pos >= ntotal {
        pos := if command then ntotal - 1 else ntotal;
      }
      if pos < 0 {
        pos := 0;
      }
      buffCurpos := pos;
      var width := disp.StringWidth(line[..pos], promptLen);
      PictureOf(prompt, line[..pos], disp.ncolumn, disp.isPrint);
      assert Text()[..pos] == line[..pos];
      disp.SetTermCurpos(promptLen + width);
      SameLooks(old(disp.screen), disp.screen, disp.ncolumn, Image(Text()));
    }

    /** In vi command mode, keep the line for an undo, once for each key. */
    method SaveForUndo()
      requires BuffersOk()
      modifies `undoCurpos, `undoNtotal, `undoSaved, undoLine
      ensures BuffersOk()
      ensures State() == Save(old(State()))
    {
      if command && !undoSaved {
        assert line[0..ntotal] == line[..ntotal];
        CopyString(undoLine, 0, line, 0, line[..ntotal]);
        undoCurpos := buffCurpos;
        undoNtotal := ntotal;
        undoSaved := true;
        assert undoLine[..undoNtotal] == line[..ntotal];
      }
    }

    /** Put a character for which there is room into the line, before the one at place k. */
    method CharIntoLine(c: char, k: nat)
      requires LineOk() && line.Length == linelen + 2 && Clean([c]) && k <= ntotal < linelen
      modifies `ntotal, line
      ensures LineOk() && ntotal == old(ntotal) + 1
      ensures Text() == InsertAt(old(Text()), k, [c])
    {
      hide HoldsLine, Over, InsertAt, Clean;
      ghost var n, a, b := ntotal, line[..], line[..];
      InLine(a, n, linelen);
      if k < ntotal {
        var _ := MakeGap(k, 1);
        b := Over(line[..], [c], k);
        GapIsFilled(a, line[..], n, k, [c], linelen);
        OverOne(line[..], c, k);
      } else {
        b := Over(a, [c], k)[k + 1 := NUL];
        StringIsAppended(a, k, [c], linelen);
        OverOne(a, c, k);
      }
      var _ := BufferChar(c, k);
      assert line[..] == b;
      assert line[..ntotal] == b[..ntotal] && a[..n] == old(Text());
    }

    /** Put a string for which there is room into the line, before the character at place k. */
    method StringIntoLine(s: string, k: nat)
      requires LineOk() && line.Length == linelen + 2 && Clean(s) && k <= ntotal && ntotal + |s| <= linelen
      modifies `ntotal, line
      ensures LineOk() && ntotal == old(ntotal) + |s|
      ensures Text() == InsertAt(old(Text()), k, s)
    {
      hide HoldsLine, Over, InsertAt, Clean;
      ghost var n, a, b := ntotal, line[..], line[..];
      InLine(a, n, linelen);
      if ntotal > k {
        var _ := MakeGap(k, |s|);
        b := Over(line[..], s, k);
        GapIsFilled(a, line[..], n, k, s, linelen);
      } else {
        b := Written(a, k, s, k);
        AppendedLine(a, k, s, linelen);
      }
      OverNothing(line[..], k);
      assert s[..|s|] == s;
      var _ := BufferString(s, k);
      assert line[..] == b;
      assert line[..ntotal] == b[..ntotal] && a[..n] == old(Text());
    }

    /** Put a character for which there is room into the buffer, at the cursor. */
    method BufferInsertChar(c: char)
      requires BuffersOk() && Clean([c]) && ntotal < linelen
      modifies `ntotal, `buffCurpos, line
      ensures BuffersOk()
      ensures State() == old(State()).(text := InsertAt(old(Text()), old(buffCurpos), [c]),
                                       cursor := old(buffCurpos) + 1)
    {
      hide HoldsLine, InsertAt, CutOk, UndoOk, CutText, UndoText, Text, Picture, Clean;
      CharIntoLine(c, buffCurpos);
      buffCurpos := buffCurpos + 1;
      assert CutOk() && UndoOk();
    }

    /** Put a string for which there is room into the buffer, at the cursor. */
    method BufferInsertString(s: string)
      requires BuffersOk() && Clean(s) && ntotal + |s| <= linelen
      modifies `ntotal, `buffCurpos, line
      ensures BuffersOk()
      ensures State() == old(State()).(text := InsertAt(old(Text()), old(buffCurpos), s),
                                       cursor := old(buffCurpos) + |s|)
    {
      hide HoldsLine, InsertAt, CutOk, UndoOk, CutText, UndoText, Text, Picture, Clean;
      StringIntoLine(s, buffCurpos);
      buffCurpos := buffCurpos + |s|;
      assert CutOk() && UndoOk();
    }

    /** Insert a character for which there is room. */
    method InsertChar(c: char)
      requires Synced() && Clean([c]) && !Overwrites(State()) && ntotal < linelen
      modifies `ntotal, `buffCurpos, line, disp
      ensures Synced()
      ensures State() == EditSpec.AddChar(old(State()), c)
    {
      hide BuffersOk, State, Picture, Looks, Wrote, Shown, ScreenAfterAll, LenAfter, Moved, BlankFrom;
      StateFields();
      var cur, tcur := buffCurpos, disp.termCurpos;
      ghost var t, s0 := Text(), disp.screen;
      var width := disp.CharWidth(c, tcur);
      BufferInsertChar(c);
      StateFields();
      PartIsClean(Text(), cur);
      assert line[cur..ntotal] == Text()[cur..];
      assert Text()[cur..] == [c] + t[cur..];
      disp.PrintString(line[cur..ntotal], NUL);
      InsertShown(prompt, t, cur, [c], disp.ncolumn, disp.isPrint, s0, disp.screen);
      PictureOfOne(c, tcur, disp.ncolumn, disp.isPrint);
      ghost var s1 := disp.screen;
      disp.SetTermCurpos(tcur + width);
      SameLooks(s1, disp.screen, disp.ncolumn, Image(Text()));
    }

    method StepRight()
      requires BuffersOk() && buffCurpos < ntotal
      modifies `buffCurpos
      ensures BuffersOk() && State() == old(State()).(cursor := old(buffCurpos) + 1)
    {
      buffCurpos := buffCurpos + 1;
    }

    /** Overwrite the character at the cursor, in the buffer. */
    method BufferOverwriteChar(c: char)
      requires BuffersOk() && Clean([c]) && buffCurpos < ntotal
      modifies `ntotal, line
      ensures BuffersOk()
      ensures State() == old(State()).(text := old(Text())[old(buffCurpos) := c])
    {
      hide HoldsLine, CutOk, UndoOk, CutText, UndoText, Picture, Clean;
      ghost var a := line[..];
      InLine(a, ntotal, linelen);
      CharIsOverwritten(a, ntotal, buffCurpos, c, linelen);
      var _ := BufferChar(c, buffCurpos);
      assert line[..] == a[buffCurpos := c];
      assert line[..ntotal] == line[..][..ntotal] && a[..ntotal] == old(Text());
      assert LineOk() && CutOk() && UndoOk();
    }

    /** Overwriting a character blanks one that comes after it: see LineImages.Smudges. */
    ghost predicate OverwritingSmudges(c: char)
      requires Valid() && Overwrites(State())
      reads this, line, cutbuf, undoLine, disp
    {
      var a, b := prompt + Text()[..buffCurpos], Text()[buffCurpos + 1..];
      var p := |Picture(a, 0, disp.ncolumn, disp.isPrint)|;
      && |Rendered(Text()[buffCurpos], p, disp.ncolumn, disp.isPrint)| == |Rendered(c, p, disp.ncolumn, disp.isPrint)|
      && Smudges(a, c, b, disp.ncolumn, disp.isPrint)
    }

    /** The number of positions that a character takes at the cursor. */
    ghost function WidthAtCursor(c: char): int
      requires disp.ncolumn >= 1
      reads disp
    {
      |Rendered(c, disp.termCurpos, disp.ncolumn, disp.isPrint)|
    }

    /** Overwrite a character by a narrower one: show the rest of the line, and clear what was after it. */
    method OverwriteByNarrower(c: char)
      requires Synced() && Clean([c]) && Overwrites(State())
      requires WidthAtCursor(c) < WidthAtCursor(line[buffCurpos])
      modifies `ntotal, `buffCurpos, line, disp
      ensures Synced()
      ensures State() == EditSpec.AddChar(old(State()), c)
    {
      hide BuffersOk, State, Picture, Rendered, Looks, Wrote, Shown, Smudges, Padded, ScreenAfterAll,
        ScreenAfter, LenAfter, Moved, BlankFrom;
      StateFields();
      var cur, tcur := buffCurpos, disp.termCurpos;
      ghost var t, s0 := Text(), disp.screen;
      ghost var n, isPrint := disp.ncolumn, disp.isPrint;
      ghost var a, b := prompt + t[..cur], t[cur + 1..];
      OverwriteParts(prompt, t, cur, c);
      OverwrittenText(a, t[cur], c, b, n, isPrint);
      var width := disp.CharWidth(c, tcur);
      BufferOverwriteChar(c);
      StateFields();
      PartIsClean(Text(), cur);
      assert line[cur..ntotal] == [c] + b;
      disp.PrintString(line[cur..ntotal], NUL);
      ghost var s1 := disp.screen;
      PictureOf(a, [c] + b, n, isPrint);
      disp.TruncateDisplay();
      ReprintedCleared(s0, s1, disp.screen, n, a, [t[cur]] + b, [c] + b, isPrint);
      ghost var s2 := disp.screen;
      disp.SetTermCurpos(tcur + width);
      StepRight();
      StateFields();
      SameLooks(s2, disp.screen, n, Image(Text()));
    }

    /** Overwrite a character by a wider one: show the rest of the line. */
    method OverwriteByWider(c: char)
      requires Synced() && Clean([c]) && Overwrites(State())
      requires WidthAtCursor(c) > WidthAtCursor(line[buffCurpos])
      modifies `ntotal, `buffCurpos, line, disp
      ensures Synced()
      ensures State() == EditSpec.AddChar(old(State()), c)
    {
      hide BuffersOk, State, Picture, Rendered, Looks, Wrote, Shown, Smudges, Padded, ScreenAfterAll,
        ScreenAfter, LenAfter, Moved, BlankFrom;
      StateFields();
      var cur, tcur := buffCurpos, disp.termCurpos;
      ghost var t, s0 := Text(), disp.screen;
      ghost var n, isPrint := disp.ncolumn, disp.isPrint;
      ghost var a, b := prompt + t[..cur], t[cur + 1..];
      OverwriteParts(prompt, t, cur, c);
      OverwrittenText(a, t[cur], c, b, n, isPrint);
      var width := disp.CharWidth(c, tcur);
      BufferOverwriteChar(c);
      StateFields();
      PartIsClean(Text(), cur);
      assert line[cur..ntotal] == [c] + b;
      disp.PrintString(line[cur..ntotal], NUL);
      WiderIsLonger(a, t[cur], c, b, n, isPrint);
      Reprinted(s0, disp.screen, n, a, [t[cur]] + b, [c] + b, isPrint);
      ghost var s1 := disp.screen;
      disp.SetTermCurpos(tcur + width);
      StepRight();
      StateFields();
      SameLooks(s1, disp.screen, n, Image(Text()));
    }

    /** Overwrite a character by one of the same width: show only that one. */
    method OverwriteBySameWidth(c: char)
      requires Synced() && Clean([c]) && Overwrites(State())
      requires WidthAtCursor(c) == WidthAtCursor(line[buffCurpos])
      modifies `ntotal, `buffCurpos, line, disp
      ensures Valid() && CursorInPlace() && (LineShown() <==> !old(OverwritingSmudges(c)))
      ensures State() == EditSpec.AddChar(old(State()), c)
    {
      hide BuffersOk, State, Picture, Rendered, Looks, Wrote, Shown, Smudges, Padded, ScreenAfterAll,
        ScreenAfter, LenAfter, Moved, BlankFrom;
      StateFields();
      var cur, tcur := buffCurpos, disp.termCurpos;
      ghost var t, s0 := Text(), disp.screen;
      ghost var n, isPrint := disp.ncolumn, disp.isPrint;
      ghost var a, b := prompt + t[..cur], t[cur + 1..];
      OverwriteParts(prompt, t, cur, c);
      OverwrittenText(a, t[cur], c, b, n, isPrint);
      BufferOverwriteChar(c);
      StateFields();
      PartIsClean(Text(), cur + 1);
      StepRight();
      StateFields();
      assert line[buffCurpos] == if b == "" then NUL else b[0];
      disp.PrintChar(c, line[buffCurpos]);
      Overwritten(s0, disp.screen, n, a, t[cur], c, b, isPrint);
    }

    method OverwriteChar(c: char)
      requires Synced() && Clean([c]) && Overwrites(State())
      modifies `ntotal, `buffCurpos, line, disp
      ensures Valid() && CursorInPlace()
      ensures State() == EditSpec.AddChar(old(State()), c)
      ensures LineShown() <==> !old(OverwritingSmudges(c))
    {
      hide Picture, Rendered, Looks, Smudges, CutOk, UndoOk, CutText, UndoText;
      var width := disp.CharWidth(c, disp.termCurpos);
      var oldWidth := disp.CharWidth(line[buffCurpos], disp.termCurpos);
      if oldWidth > width {
        OverwriteByNarrower(c);
      } else if width > oldWidth {
        OverwriteByWider(c);
      } else {
        OverwriteBySameWidth(c);
      }
    }

    /** Add a character at the cursor, if there is room for it. */
    method AddCharToLine(c: char)
      requires Synced() && Clean([c])
      modifies `ntotal, `buffCurpos, line, disp
      ensures Valid() && CursorInPlace()
      ensures State() == EditSpec.AddChar(old(State()), c)
      ensures LineShown() <==> !(old(Overwrites(State()) && OverwritingSmudges(c)))
    {
      if (insert || buffCurpos >= ntotal) && ntotal >= linelen {
        return;
      }
      if insert || buffCurpos >= ntotal {
        InsertChar(c);
      } else {
        OverwriteChar(c);
      }
    }

    /** Insert a string at the cursor, if there is room for it. */
    method AddStringToLine(s: string)
      requires Synced() && Clean(s)
      modifies `ntotal, `buffCurpos, line, disp
      ensures Synced()
      ensures State() == EditSpec.AddString(old(State()), s)
    {
      hide BuffersOk, State, Picture, Looks, Wrote, Shown, ScreenAfterAll, LenAfter, Moved, BlankFrom;
      StateFields();
      var cur, tcur := buffCurpos, disp.termCurpos;
      ghost var t, s0 := Text(), disp.screen;
      var termSlen := disp.StringWidth(s, tcur);
      if ntotal + |s| > linelen {
        return;
      }
      BufferInsertString(s);
      StateFields();
      PartIsClean(Text(), cur);
      assert line[cur..ntotal] == Text()[cur..];
      assert Text()[cur..] == s + t[cur..];
      disp.PrintString(line[cur..ntotal], NUL);
      InsertShown(prompt, t, cur, s, disp.ncolumn, disp.isPrint, s0, disp.screen);
      ghost var s1 := disp.screen;
      disp.SetTermCurpos(tcur + termSlen);
      SameLooks(s1, disp.screen, disp.ncolumn, Image(Text()));
    }

    /** Copy the n characters from place k on to the cut buffer. */
    method CutChars(k: nat, n: nat)
      requires BuffersOk() && k + n <= ntotal
      modifies cutbuf
      ensures BuffersOk()
      ensures State() == old(State()).(cut := Text()[k..k + n])
    {
      hide HoldsLine, CString, UndoOk, UndoText, Picture, Clean;
      InLine(line[..], ntotal, linelen);
      ghost var a := line[..];
      CopyChars(cutbuf, line, k, n);
      cutbuf[n] := NUL;
      assert UndoOk() && LineOk();
      assert cutbuf[..][..n] == a[k..k + n];
      PartIsCut(a, ntotal, k, k + n, linelen, cutbuf[..]);
      assert a[..ntotal] == Text();
    }

    /** Remove n characters from the cursor on from the buffer. */
    method BufferRemove(n: nat)
      requires BuffersOk() && buffCurpos + n <= ntotal
      modifies `ntotal, line
      ensures BuffersOk()
      ensures State() == old(State()).(text := Cut(old(Text()), buffCurpos, buffCurpos + n))
    {
      hide HoldsLine, Cut, CutOk, UndoOk, CutText, UndoText, Picture, Clean;
      ghost var a := line[..];
      InLine(a, ntotal, linelen);
      ghost var total := ntotal;
      RemoveFromBuffer(buffCurpos, n);
      CharsAreRemoved(a, line[..], total, buffCurpos, buffCurpos + n, linelen);
      assert line[..ntotal] == line[..][..ntotal] && a[..total] == old(Text());
      assert LineOk() && CutOk() && UndoOk();
    }

    /** Put up to n characters from the undo line back over those at the cursor, in the buffer; the
        line ends where they do, if there are fewer. */
    method BufferRestore(n: nat)
      requires BuffersOk() && 0 < n && buffCurpos + n <= ntotal
      modifies `ntotal, `buffCurpos, line
      ensures BuffersOk()
      ensures var e := old(State()); State() == e.(text := Restored(e, e.cursor + n))
    {
      hide BuffersOk, State, Restored, PutBack, Text, UndoText;
      StateFields();
      ghost var e := State();
      var nrestore := if buffCurpos + n <= undoNtotal then n else undoNtotal - buffCurpos;
      RestoredIs(e, e.cursor + n);
      if nrestore > 0 {
        BufferPutBack(nrestore);
      }
      StateFields();
      if n != nrestore {
        BufferTruncate(if undoNtotal > buffCurpos then undoNtotal else buffCurpos);
        StateFields();
      }
    }

    /** Put n characters from the undo line back over those at the cursor, in the buffer. */
    method BufferPutBack(n: nat)
      requires BuffersOk() && 0 < n && buffCurpos + n <= ntotal && buffCurpos + n <= undoNtotal
      modifies `ntotal, line
      ensures BuffersOk()
      ensures var e := old(State()); State() == e.(text := PutBack(e, n))
    {
      hide BuffersOk, State, Text, UndoText, Clean, Picture;
      StateFields();
      UndoPart(buffCurpos, n);
      BufferOver(undoLine[buffCurpos..buffCurpos + n]);
      StateFields();
    }

    lemma UndoPart(k: nat, n: nat)
      requires BuffersOk() && k + n <= undoNtotal
      ensures k + n <= undoLine.Length
      ensures undoLine[k..k + n] == UndoText()[k..k + n] && Clean(undoLine[k..k + n])
    {
      hide CutOk, LineOk, Picture;
      assert undoLine[k..k + n] == UndoText()[k..k + n];
    }

    /** Overwrite characters from the cursor on, in the buffer. */
    method BufferOver(u: string)
      requires BuffersOk() && Clean(u) && u != "" && buffCurpos + |u| <= ntotal
      modifies `ntotal, line
      ensures BuffersOk()
      ensures State() == old(State()).(text := old(Text())[..buffCurpos] + u + old(Text())[buffCurpos + |u|..])
    {
      hide HoldsLine, CutOk, UndoOk, CutText, UndoText, Picture, Clean, Over;
      ghost var a := line[..];
      InLine(a, ntotal, linelen);
      CharsAreRestored(a, ntotal, u, buffCurpos, linelen);
      assert u[..|u|] == u;
      var _ := BufferString(u, buffCurpos);
      assert line[..] == Over(a, u, buffCurpos);
      assert line[..ntotal] == line[..][..ntotal] && a[..ntotal] == old(Text());
      assert LineOk() && CutOk() && UndoOk();
    }

    /** Remove n characters from the cursor on from the buffer, or restore those that they overwrote. */
    method BufferRemoveOrRestore(n: nat)
      requires BuffersOk() && 0 < n && buffCurpos + n <= ntotal
      modifies `ntotal, `buffCurpos, line
      ensures BuffersOk()
      ensures State() == RemovedOrRestored(old(State()), old(buffCurpos) + n)
    {
      hide BuffersOk, State, Restored, Cut, Text, UndoText;
      StateFields();
      if vi && !command && !insert {
        BufferRestore(n);
      } else {
        BufferRemove(n);
      }
    }

    /** Remove n characters from the cursor on, or restore those that they overwrote, and show the
        rest of the line again. */
    method RemoveChars(n: nat)
      requires Synced() && 0 < n && buffCurpos + n <= ntotal
      modifies `ntotal, `buffCurpos, line, disp
      ensures Synced()
      ensures State() == EditSpec.PlaceCursor(RemovedOrRestored(old(State()), old(buffCurpos) + n), old(buffCurpos))
    {
      hide BuffersOk, State, Picture, Looks, Wrote, Shown, ScreenAfterAll, LenAfter, Moved, BlankFrom,
        RemovedOrRestored, EditSpec.PlaceCursor;
      StateFields();
      var cur := buffCurpos;
      ghost var t, s0 := Text(), disp.screen;
      BufferRemoveOrRestore(n);
      StateFields();
      PartIsClean(Text(), cur);
      assert Text()[..cur] == t[..cur];
      assert line[cur..ntotal] == Text()[cur..];
      disp.PrintString(line[cur..ntotal], NUL);
      ghost var s1 := disp.screen;
      PictureOf(prompt + t[..cur], Text()[cur..], disp.ncolumn, disp.isPrint);
      disp.TruncateDisplay();
      RestShown(prompt, t, Text(), cur, disp.ncolumn, disp.isPrint, s0, s1, disp.screen);
      PlaceCursor(cur);
    }

    /** Delete up to nc characters from the cursor on; cut tells whether to keep them. */
    method DeleteChars(nc: nat, cut: bool)
      requires Synced()
      modifies `ntotal, `buffCurpos, `undoNtotal, `undoCurpos, `undoSaved, line, cutbuf, undoLine, disp
      ensures Synced()
      ensures State() == EditSpec.DeleteChars(old(State()), nc, cut)
    {
      hide State, BuffersOk, Save, EditSpec.PlaceCursor, RemovedOrRestored, CursorInPlace, LineShown;
      StateFields();
      SaveForUndo();
      StateFields();
      assert Synced();
      ghost var e := State();
      var n := if buffCurpos + nc > ntotal then ntotal - buffCurpos else nc;
      assert n == Min(e.cursor + nc, |e.text|) - e.cursor;
      if cut {
        CutChars(buffCurpos, n);
        StateFields();
        assert Synced();
      }
      if n <= 0 {
        return;
      }
      RemoveChars(n);
    }

    /** End the line in the buffer at place k, and keep the cursor within it. */
    method BufferTruncate(k: nat)
      requires BuffersOk() && k <= ntotal
      modifies `ntotal, `buffCurpos, line
      ensures BuffersOk()
      ensures State() == old(State()).(text := old(Text())[..k], cursor := Min(k, old(buffCurpos)))
    {
      hide HoldsLine, CutOk, UndoOk, CutText, UndoText, Picture, Clean;
      ghost var a := line[..];
      InLine(a, ntotal, linelen);
      LineIsTruncated(a, ntotal, k, linelen);
      assert a[..ntotal] == Text();
      var _ := TruncateBuffer(k);
      if buffCurpos > k {
        buffCurpos := k;
      }
      assert line[..] == a[k := NUL];
      assert line[..ntotal] == line[..][..ntotal];
      assert LineOk() && CutOk() && UndoOk();
    }

    /** Delete the line from the cursor on. */
    method KillLine()
      requires Synced()
      modifies `ntotal, `buffCurpos, `undoNtotal, `undoCurpos, `undoSaved, line, cutbuf, undoLine, disp
      ensures Synced()
      ensures State() == EditSpec.KillLine(old(State()))
    {
      hide BuffersOk, State, Picture, Looks, Save;
      StateFields();
      SaveForUndo();
      StateFields();
      ghost var t, s0 := Text(), disp.screen;
      CutChars(buffCurpos, ntotal - buffCurpos);
      StateFields();
      BufferTruncate(buffCurpos);
      StateFields();
      assert Text()[..buffCurpos] == t[..buffCurpos] && Text()[..buffCurpos] == Text();
      disp.TruncateDisplay();
      assert prompt + t == prompt + t[..buffCurpos] + t[buffCurpos..];
      Cleared(s0, disp.screen, disp.ncolumn, prompt + t[..buffCurpos], t[buffCurpos..], disp.isPrint);
      PlaceCursor(buffCurpos);
    }

    /** Delete the whole line. */
    method DeleteLine()
      requires Synced()
      modifies `ntotal, `buffCurpos, `undoNtotal, `undoCurpos, `undoSaved, line, cutbuf, undoLine, disp
      ensures Synced()
      ensures State() == EditSpec.DeleteLine(old(State()))
    {
      hide BuffersOk, State, Picture, Looks, Save;
      StateFields();
      SaveForUndo();
      StateFields();
      ghost var t, s0 := Text(), disp.screen;
      CutChars(0, ntotal);
      StateFields();
      BufferTruncate(0);
      StateFields();
      PlaceCursor(0);
      StateFields();
      SameCells(s0, disp.screen, disp.ncolumn);
      disp.TruncateDisplay();
      assert Text()[..0] == Text() == "" && prompt + "" == prompt;
      Cleared(s0, disp.screen, disp.ncolumn, prompt, t, disp.isPrint);
    }

    method SetMark()
      requires BuffersOk()
      modifies `buffMark
      ensures BuffersOk() && State() == EditSpec.SetMark(old(State()))
    {
      buffMark := buffCurpos;
    }

    /** Move the mark into the line. */
    method LimitMark()
      requires BuffersOk()
      modifies `buffMark
      ensures BuffersOk() && State() == old(State()).(mark := Min(old(buffMark), ntotal))
    {
      if buffMark > ntotal {
        buffMark := ntotal;
      }
    }

    /** Swap the cursor and the mark. */
    method ExchangePointAndMark()
      requires Valid()
      modifies `buffCurpos, `buffMark, disp
      ensures Valid() && CursorInPlace()
      ensures State() == EditSpec.ExchangePointAndMark(old(State()))
      ensures old(LineShown()) ==> LineShown()
    {
      hide Looks, Picture, BuffersOk, State, Clamp;
      StateFields();
      var oldMark := if buffMark <= ntotal then buffMark else ntotal;
      SetMark();
      PlaceCursor(oldMark);
    }

    method ClearCutBuffer()
      requires BuffersOk()
      modifies cutbuf
      ensures BuffersOk() && State() == old(State()).(cut := "")
    {
      cutbuf[0] := NUL;
      assert UndoOk() && LineOk();
    }

    /** Delete the text between the cursor and the mark, which is after it. */
    method DeleteToMark()
      requires Synced() && buffCurpos <= buffMark
      modifies `ntotal, `buffCurpos, `buffMark, `undoNtotal, `undoCurpos, `undoSaved, line, cutbuf, undoLine, disp
      ensures Synced()
      ensures State() == EditSpec.SetMark(EditSpec.DeleteChars(old(State()), old(buffMark) - old(buffCurpos), true))
    {
      hide BuffersOk, State, CursorInPlace, LineShown, EditSpec.DeleteChars;
      StateFields();
      DeleteChars(buffMark - buffCurpos, true);
      StateFields();
      SetMark();
      StateFields();
    }

    /** Delete the text between the mark and the cursor. */
    method KillRegion()
      requires Synced()
      modifies `ntotal, `buffCurpos, `buffMark, `undoNtotal, `undoCurpos, `undoSaved, line, cutbuf, undoLine, disp
      ensures Synced()
      ensures State() == EditSpec.KillRegion(old(State()))
    {
      hide BuffersOk, State, Save, EditSpec.ExchangePointAndMark, Remove, CursorInPlace, LineShown;
      StateFields();
      SaveForUndo();
      StateFields();
      LimitMark();
      StateFields();
      if buffMark == buffCurpos {
        ClearCutBuffer();
        StateFields();
        return;
      }
      if buffMark < buffCurpos {
        SwapKeepsOrder(State());
        ExchangePointAndMark();
        StateFields();
      }
      SavedAlready(old(State()), State());
      DeleteToMark();
    }

    /** Insert the cut buffer count times; the bell rings if it is empty. */
    method Yank(count: int) returns (bell: bool)
      requires Synced()
      modifies `ntotal, `buffCurpos, `buffMark, `undoNtotal, `undoCurpos, `undoSaved, line, undoLine, disp
      ensures Synced()
      ensures State() == EditSpec.Yank(old(State()), count)
      ensures bell == (old(CutText()) == "")
    {
      hide BuffersOk, State, Save, EditSpec.PlaceCursor, AddString, Picture, Looks;
      StateFields();
      SetMark();
      StateFields();
      CutFields();
      var len := StringLength(cutbuf);
      if len == 0 {
        return true;
      }
      SaveForUndo();
      StateFields();
      var s := cutbuf[..len];
      ghost var e := State();
      var i := 0;
      while i < count
        invariant Synced() && i <= Max(count, 0)
        invariant AddStringTimes(e, s, count) == AddStringTimes(State(), s, count - i)
      {
        AddStringToLine(s);
        i := i + 1;
      }
      StateFields();
      if vi {
        PlaceCursor(buffCurpos - 1);
      }
      return false;
    }

    lemma CutFields()
      requires BuffersOk()
      ensures CutText() == CString(cutbuf[..]) && |CutText()| <= linelen < cutbuf.Length && Clean(CutText())
      ensures State().cut == CutText()
    {
    }

    /** The place of the end of the n-th word from the cursor on. */
    method NthWordEndForward(n: int) returns (pos: int)
      requires BuffersOk()
      ensures pos == NthWordEnd(State(), n, isWord)
    {
      hide Skip, PastWords, BuffersOk, State, Text;
      StateFields();
      var bufpos := buffCurpos + 1;
      if bufpos >= ntotal {
        return ntotal - 1;
      }
      ghost var t := Text();
      ghost var goal := PastWords(t, bufpos, n, isWord);
      assert NthWordEnd(State(), n, isWord) == goal - 1;
      var i := 0;
      while i < n && bufpos < ntotal
        invariant 1 <= bufpos <= ntotal
        invariant goal == PastWords(t, bufpos, n - i, isWord)
      {
        NextWord(t, bufpos, n - i, isWord);
        bufpos := SkipTo(bufpos, false);
        bufpos := SkipTo(bufpos, true);
        i := i + 1;
      }
      NoMoreWords(t, bufpos, n - i, isWord);
      assert bufpos == goal;
      return if bufpos > 0 then bufpos - 1 else bufpos;
    }

    /** The place of the n-th word start from the cursor on. */
    method NthWordStartForward(n: int) returns (pos: int)
      requires BuffersOk()
      ensures pos == PastGaps(Text(), buffCurpos, n, isWord)
    {
      hide Skip, PastGaps, BuffersOk, Text;
      StateFields();
      var bufpos := buffCurpos;
      ghost var t := Text();
      ghost var goal := PastGaps(t, bufpos, n, isWord);
      var i := 0;
      while i < n && bufpos < ntotal
        invariant 0 <= bufpos <= ntotal
        invariant goal == PastGaps(t, bufpos, n - i, isWord)
      {
        NextGap(t, bufpos, n - i, isWord);
        bufpos := SkipTo(bufpos, true);
        bufpos := SkipTo(bufpos, false);
        i := i + 1;
      }
      NextGap(t, bufpos, n - i, isWord);
      return bufpos;
    }

    /** The first place from k on that is not, or that is, in a word. */
    method SkipTo(k: nat, word: bool) returns (pos: nat)
      requires k <= ntotal <= line.Length
      ensures pos == Skip(Text(), k, word, isWord)
    {
      pos := k;
      while pos < ntotal && isWord(line[pos]) == word
        invariant k <= pos <= ntotal
        invariant Skip(Text(), k, word, isWord) == Skip(Text(), pos, word, isWord)
      {
        pos := pos + 1;
      }
    }

    /** Delete up to the end of a word in emacs mode, and to the start of one in vi mode. */
    method ForwardDeleteWord(count: int)
      requires Synced()
      modifies `ntotal, `buffCurpos, `undoNtotal, `undoCurpos, `undoSaved, line, cutbuf, undoLine, disp
      ensures Synced()
      ensures State() == EditSpec.ForwardDeleteWord(old(State()), count, isWord)
    {
      hide BuffersOk, State, Remove, PastWords, PastGaps, Picture, Looks;
      StateFields();
      SaveForUndo();
      StateFields();
      if !vi {
        var pos := NthWordEndForward(count);
        DeleteChars(pos - buffCurpos + 1, true);
      } else {
        var pos := NthWordStartForward(count);
        DeleteChars(pos - buffCurpos, command);
      }
    }

    /** Exchange the strings in the line buffer and the undo buffer. */
    method SwapLines()
      requires Shape() && HoldsLine(line[..], ntotal, linelen) && HoldsLine(undoLine[..], undoNtotal, linelen)
      modifies line, undoLine
      ensures HoldsLine(line[..], undoNtotal, linelen) && line[..][..undoNtotal] == old(undoLine[..][..undoNtotal])
      ensures HoldsLine(undoLine[..], ntotal, linelen) && undoLine[..][..ntotal] == old(line[..][..ntotal])
    {
      hide Clean, Swapped, Over, Picture;
      ghost var a, b, n, m := line[..], undoLine[..], ntotal, undoNtotal;
      SwappedNothing(a, b);
      SwappedNothing(b, a);
      LineEnds(a, n, linelen);
      LineEnds(b, m, linelen);
      var i := 0;
      while undoLine[i] != NUL && line[i] != NUL
        invariant 0 <= i <= n && i <= m
        invariant line[..] == Swapped(a, b, i) && undoLine[..] == Swapped(b, a, i)
        decreases n - i
      {
        SwappedAt(a, b, i);
        SwappedAt(b, a, i);
        SwappedMore(a, b, i);
        SwappedMore(b, a, i);
        undoLine[i], line[i] := line[i], undoLine[i];
        i := i + 1;
      }
      SwappedAt(a, b, i);
      SwappedAt(b, a, i);
      assert i == Min(n, m);
      if ntotal > undoNtotal {
        RestOfLine(a, b, n, i, linelen);
        CopyString(undoLine, i, line, i, a[i..n]);
        line[i] := NUL;
        SwappedLines(b, a, m, n, linelen);
      } else {
        RestOfLine(b, a, m, i, linelen);
        CopyString(line, i, undoLine, i, b[i..m]);
        undoLine[i] := NUL;
        SwappedLines(a, b, n, m, linelen);
      }
    }

    /** Take the string in the line buffer to be the line, and arrange for it to be shown. */
    method UpdateBuffer()
      requires line.Length == linelen + 2
      modifies `ntotal, `buffCurpos, `redisplay, line
      ensures ntotal == |CString(old(line[..linelen + 1]))|
      ensures line[..] == old(line[..])[ntotal := NUL]
      ensures buffCurpos == Min(old(buffCurpos), ntotal)
      ensures redisplay
    {
      ghost var t := CString(line[..linelen + 1]);
      var len := 0;
      while len <= linelen && line[len] != NUL
        invariant 0 <= len <= |t|
        invariant len < |t| ==> line[len] == t[len]
      {
        len := len + 1;
      }
      line[len] := NUL;
      ntotal := len;
      if buffCurpos > ntotal {
        buffCurpos := ntotal;
      }
      redisplay := true;
    }

    /** Exchange the line and the undo line, with their lengths. */
    method SwapTexts()
      requires Shape() && LineOk() && UndoOk()
      modifies `ntotal, `buffCurpos, `undoNtotal, `redisplay, line, undoLine
      ensures LineOk() && HoldsLine(undoLine[..], undoNtotal, linelen)
      ensures Text() == old(UndoText()) && UndoText() == old(Text())
      ensures buffCurpos == Min(old(buffCurpos), ntotal) && redisplay
    {
      hide HoldsLine, Clean, Picture;
      ghost var a, b, n, m := line[..], undoLine[..], ntotal, undoNtotal;
      InLine(a, n, linelen);
      InLine(b, m, linelen);
      assert a[..n] == Text() && b[..m] == UndoText();
      SwapLines();
      undoNtotal := ntotal;
      WholeLine(line[..], m, linelen);
      UpdateBuffer();
      assert line[..ntotal] == line[..][..ntotal] && undoLine[..undoNtotal] == undoLine[..][..undoNtotal];
    }

    /** Give back the line that was kept for an undo, and keep this one; the line is still to be
        shown. */
    method ViUndo()
      requires BuffersOk()
      modifies `ntotal, `buffCurpos, `undoNtotal, `undoCurpos, `redisplay, line, undoLine
      ensures BuffersOk() && redisplay
      ensures State() == Undo(old(State()))
    {
      hide HoldsLine, CutOk, CutText, Clean, Picture, Text, UndoText;
      InLine(undoLine[..], undoNtotal, linelen);
      InLine(line[..], ntotal, linelen);
      StateFields();
      SwapTexts();
      assert CutOk();
      LengthsOfTexts();
      if buffCurpos < undoCurpos {
        undoCurpos := buffCurpos;
      } else {
        buffCurpos := undoCurpos;
      }
      assert LineOk() && UndoOk() && CutOk();
    }

    lemma LengthsOfTexts()
      requires LineOk() && HoldsLine(undoLine[..], undoNtotal, linelen)
      ensures |Text()| == ntotal && |UndoText()| == undoNtotal
    {
    }

    /** Clear the terminal, and show the prompt and the line. */
    method Redisplay()
      requires Valid()
      modifies `buffCurpos, `redisplay, disp
      ensures Synced() && !redisplay
      ensures State() == EditSpec.PlaceCursor(old(State()), old(buffCurpos))
    {
      hide BuffersOk, State, Picture, Looks, Wrote, Shown, ScreenAfterAll, LenAfter, Moved, BlankFrom;
      StateFields();
      PromptFields();
      var cur := buffCurpos;
      disp.EraseLine();
      ghost var n, isPrint, s0 := disp.ncolumn, disp.isPrint, disp.screen;
      NothingShown(s0, n, isPrint);
      disp.PrintString(prompt, NUL);
      ghost var s1 := disp.screen;
      assert "" + prompt == prompt && "" + "" == "" && prompt + "" == prompt;
      NotShorter("", prompt, n, isPrint);
      Reprinted(s0, s1, n, "", "", prompt, isPrint);
      assert line[..ntotal] == Text();
      disp.PrintString(line[..ntotal], NUL);
      NotShorter(prompt, Text(), n, isPrint);
      Reprinted(s1, disp.screen, n, prompt, "", Text(), isPrint);
      PlaceCursor(cur);
      NoRedisplay();
    }

    /** The line does not need to be shown any more. */
    method NoRedisplay()
      requires BuffersOk()
      modifies `redisplay
      ensures BuffersOk() && State() == old(State()) && !redisplay
    {
      redisplay := false;
    }

    lemma PromptFields()
      requires BuffersOk()
      ensures Clean(prompt) && promptLen == |Picture(prompt, 0, disp.ncolumn, disp.isPrint)|
    {
    }
  }
}
