/** What a terminal shows when an input line is edited: lemmas about parts of a line being shown
    again. */
module LineImages {
  import opened Basics
  import opened Terminals
  import opened Displays
  import opened Tracking

  /** From the first position on, the terminal shows t, and nothing else. */
  ghost predicate Looks(s: Screen, n: int, t: string)
    requires n >= 1
  {
    forall q :: q >= 0 ==> Cell(s, n, q) == if q < |t| then t[q] else ' '
  }

  lemma NextTabStop(p: int, n: int)
    requires n >= 1 && 0 <= p
    ensures p + TabWidth(p, n) <= p + 1 + TabWidth(p + 1, n)
  {
    NextPosition(p, n);
    var r := p % n;
    if r + 1 < n {
      if r % TAB_WIDTH == TAB_WIDTH - 1 {
      } else {
        assert (r + 1) % TAB_WIDTH == r % TAB_WIDTH + 1;
      }
    }
  }

  /** A tab that starts further to the right also ends no further to the left. */
  lemma {:induction false} TabStopsAreMonotone(p: int, p': int, n: int)
    requires n >= 1 && 0 <= p <= p'
    ensures p + TabWidth(p, n) <= p' + TabWidth(p', n)
    decreases p' - p
  {
    if p < p' {
      NextTabStop(p, n);
      TabStopsAreMonotone(p + 1, p', n);
    }
  }

  /** Moving a text to the right does not move its end to the left. */
  lemma {:induction false} EndsAreMonotone(s: string, p: int, p': int, n: int, isPrint: char -> bool)
    requires n >= 1 && 0 <= p <= p'
    ensures p + |Picture(s, p, n, isPrint)| <= p' + |Picture(s, p', n, isPrint)|
    decreases |s|
  {
    hide TabWidth, Octal;
    if s != "" {
      TabStopsAreMonotone(p, p', n);
      EndsAreMonotone(s[1..], p + |Rendered(s[0], p, n, isPrint)|, p' + |Rendered(s[0], p', n, isPrint)|, n, isPrint);
    }
  }

  /** The picture of a text in two parts. */
  lemma PictureOf(a: string, b: string, n: int, isPrint: char -> bool)
    requires n >= 1
    ensures Picture(a + b, 0, n, isPrint)
         == Picture(a, 0, n, isPrint) + Picture(b, |Picture(a, 0, n, isPrint)|, n, isPrint)
  {
    PictureSplit(a, b, 0, n, isPrint);
  }

  lemma PictureOfOne(c: char, p: int, n: int, isPrint: char -> bool)
    requires n >= 1
    ensures Picture([c], p, n, isPrint) == Rendered(c, p, n, isPrint)
  {
    assert [c][1..] == "" && [c][0] == c;
  }

  /** Text inserted into a line does not make its picture shorter. */
  lemma InsertedIsLonger(a: string, s: string, b: string, n: int, isPrint: char -> bool)
    requires n >= 1
    ensures |Picture(a + b, 0, n, isPrint)| <= |Picture(a + (s + b), 0, n, isPrint)|
  {
    hide Picture;
    var p := |Picture(a, 0, n, isPrint)|;
    PictureOf(a, b, n, isPrint);
    PictureOf(a, s + b, n, isPrint);
    PictureSplit(s, b, p, n, isPrint);
    EndsAreMonotone(b, p, p + |Picture(s, p, n, isPrint)|, n, isPrint);
  }

  /** Nor does a character overwritten by one that is at least as wide. */
  lemma WiderIsLonger(a: string, d: char, c: char, b: string, n: int, isPrint: char -> bool)
    requires n >= 1
    requires var p := |Picture(a, 0, n, isPrint)|;
             |Rendered(d, p, n, isPrint)| <= |Rendered(c, p, n, isPrint)|
    ensures |Picture(a + ([d] + b), 0, n, isPrint)| <= |Picture(a + ([c] + b), 0, n, isPrint)|
  {
    hide Picture, Rendered;
    var p := |Picture(a, 0, n, isPrint)|;
    PictureOf(a, [d] + b, n, isPrint);
    PictureOf(a, [c] + b, n, isPrint);
    PictureSplit([d], b, p, n, isPrint);
    PictureSplit([c], b, p, n, isPrint);
    PictureOfOne(d, p, n, isPrint);
    PictureOfOne(c, p, n, isPrint);
    EndsAreMonotone(b, p + |Rendered(d, p, n, isPrint)|, p + |Rendered(c, p, n, isPrint)|, n, isPrint);
  }

  lemma WroteLooks(s: Screen, s': Screen, n: int, x: string, y: string, y': string, blank: string)
    requires n >= 1
    requires Looks(s, n, x + y) && Wrote(s, s', n, |x|, y' + blank) && blank in {"", " "} && |y| <= |y'|
    ensures Looks(s', n, x + y')
  {
    hide Cell;
  }

  lemma WroteClearedLooks(s: Screen, s1: Screen, s': Screen, n: int, x: string, y: string, y': string, blank: string)
    requires n >= 1
    requires Looks(s, n, x + y) && Wrote(s, s1, n, |x|, y' + blank)
    requires forall q :: Cell(s', n, q) == if q < |x + y'| then Cell(s1, n, q) else ' '
    ensures Looks(s', n, x + y')
  {
    hide Cell;
  }

  lemma ShownIs(s: string, p: int, n: int, isPrint: char -> bool)
    requires n >= 2 && p >= 0 && isPrint(' ')
    ensures exists blank :: blank in {"", " "} && Shown(s, NUL, p, n, isPrint) == Picture(s, p, n, isPrint) + blank
  {
    hide Rendered, Padded;
    var t := Picture(s, p, n, isPrint);
    BlankTrail(p + |t|, n, isPrint);
    if s == "" {
      assert Shown(s, NUL, p, n, isPrint) == t + "";
    } else {
      assert Shown(s, NUL, p, n, isPrint) == t + Trail(NUL, p + |t|, n, isPrint);
    }
  }

  /** Showing the rest of a line again, when it does not become shorter. */
  lemma Reprinted(s: Screen, s': Screen, n: int, a: string, was: string, now: string, isPrint: char -> bool)
    requires n >= 2 && isPrint(' ')
    requires Looks(s, n, Picture(a + was, 0, n, isPrint))
    requires var p := |Picture(a, 0, n, isPrint)|; Wrote(s, s', n, p, Shown(now, NUL, p, n, isPrint))
    requires |Picture(a + was, 0, n, isPrint)| <= |Picture(a + now, 0, n, isPrint)|
    ensures Looks(s', n, Picture(a + now, 0, n, isPrint))
  {
    hide Picture, Shown, Looks, Wrote;
    var x := Picture(a, 0, n, isPrint);
    PictureOf(a, was, n, isPrint);
    PictureOf(a, now, n, isPrint);
    ShownIs(now, |x|, n, isPrint);
    var y' := Picture(now, |x|, n, isPrint);
    var blank :| blank in {"", " "} && Shown(now, NUL, |x|, n, isPrint) == y' + blank;
    WroteLooks(s, s', n, x, Picture(was, |x|, n, isPrint), y', blank);
  }

  /** Showing the rest of a line again, and clearing what was after it. */
  lemma ReprintedCleared(s: Screen, s1: Screen, s': Screen, n: int, a: string, was: string, now: string,
                         isPrint: char -> bool)
    requires n >= 2 && isPrint(' ')
    requires Looks(s, n, Picture(a + was, 0, n, isPrint))
    requires var p := |Picture(a, 0, n, isPrint)|; Wrote(s, s1, n, p, Shown(now, NUL, p, n, isPrint))
    requires var end := |Picture(a + now, 0, n, isPrint)|;
             forall q :: Cell(s', n, q) == if q < end then Cell(s1, n, q) else ' '
    ensures Looks(s', n, Picture(a + now, 0, n, isPrint))
  {
    hide Picture, Shown, Looks, Wrote, Cell;
    var x := Picture(a, 0, n, isPrint);
    PictureOf(a, was, n, isPrint);
    PictureOf(a, now, n, isPrint);
    ShownIs(now, |x|, n, isPrint);
    var y' := Picture(now, |x|, n, isPrint);
    var blank :| blank in {"", " "} && Shown(now, NUL, |x|, n, isPrint) == y' + blank;
    WroteClearedLooks(s, s1, s', n, x, Picture(was, |x|, n, isPrint), y', blank);
  }

  /** Clearing the rest of a line. */
  lemma Cleared(s: Screen, s': Screen, n: int, a: string, was: string, isPrint: char -> bool)
    requires n >= 1
    requires Looks(s, n, Picture(a + was, 0, n, isPrint))
    requires var end := |Picture(a, 0, n, isPrint)|;
             forall q :: Cell(s', n, q) == if q < end then Cell(s, n, q) else ' '
    ensures Looks(s', n, Picture(a, 0, n, isPrint))
  {
    hide Picture;
    PictureOf(a, was, n, isPrint);
  }

  /** Overwriting the character d of the line a + [d] + b by c, of the same width, blanks the first
      position of the character after the next one: the next one is written ahead, and fills whole
      rows, so that a space is written ahead after it. */
  predicate Smudges(a: string, c: char, b: string, n: int, isPrint: char -> bool)
    requires n >= 2
  {
    var e := |Picture(a + [c], 0, n, isPrint)|;
    && e % n == 0
    && 2 <= |b|
    && |Rendered(b[0], e, n, isPrint)| % n == 0
    && Rendered(b[1], e + |Rendered(b[0], e, n, isPrint)|, n, isPrint)[0] != ' '
  }

  /** Printable characters take one position each. */
  lemma {:induction false} PlainPicture(s: string, p: int, n: int, isPrint: char -> bool)
    requires n >= 1 && forall k :: 0 <= k < |s| ==> !IsCtrl(s[k]) && isPrint(s[k])
    ensures Picture(s, p, n, isPrint) == s
    decreases |s|
  {
    if s != "" {
      PlainPicture(s[1..], p + 1, n, isPrint);
    }
  }

  /** On a terminal of eight columns, overwriting the eighth character of a line whose ninth one is
      a tab blanks what follows the tab. */
  lemma SmudgeExample(a: string, c: char, d: char, isPrint: char -> bool)
    requires |a| == 7 && d != ' ' && forall k :: 0 <= k < 7 ==> !IsCtrl(a[k]) && isPrint(a[k])
    requires !IsCtrl(c) && isPrint(c) && !IsCtrl(d) && isPrint(d)
    ensures Smudges(a, c, ['\t', d], 8, isPrint)
  {
    hide Picture, Octal;
    PlainPicture(a + [c], 0, 8, isPrint);
    assert ['\t', d][0] == '\t' && ['\t', d][1] == d;
    assert TabWidth(8, 8) == 8;
    assert |Rendered('\t', 8, 8, isPrint)| == 8;
    assert Rendered(d, 16, 8, isPrint) == [d];
  }

  /** On terminals with more columns than a tab has, that does not happen. */
  lemma WideTerminalsAreNotSmudged(a: string, c: char, b: string, n: int, isPrint: char -> bool)
    requires n > TAB_WIDTH
    ensures !Smudges(a, c, b, n, isPrint)
  {
    if 2 <= |b| {
      var e := |Picture(a + [c], 0, n, isPrint)|;
      RenderedWidth(b[0], e, n, isPrint);
    }
  }

  lemma RowsMeet(e: int, w: int, n: int)
    requires n >= 1 && e >= 0 && w >= 0 && e % n == 0
    ensures (e + w) % n == 0 <==> w % n == 0
  {
    DivModUnique(e + w, e / n + w / n, w % n, n);
  }

  lemma SmudgeLooks(s: Screen, s': Screen, n: int, x: string, r0: string, r: string, r1: string, y: string)
    requires n >= 1
    requires Looks(s, n, x + r0 + r1 + y) && |r0| == |r|
    requires Wrote(s, s', n, |x|, r + r1 + " ")
    ensures Looks(s', n, x + r + r1 + y) <==> y == "" || y[0] == ' '
  {
    hide Cell;
    var f := |x + r + r1|;
    assert (r + r1 + " ")[f - |x|] == ' ';
    assert Cell(s', n, f) == ' ';
    if y != "" {
      assert (x + r + r1 + y)[f] == y[0];
    }
  }

  /** A part of the line shown again, and perhaps a space after its end. */
  lemma AsIsLooks(s: Screen, s': Screen, n: int, x: string, r0: string, r: string, y: string, t: string)
    requires n >= 1
    requires Looks(s, n, x + r0 + y) && |r0| == |r|
    requires Wrote(s, s', n, |x|, t) && r <= t && (t <= r + y || (y == "" && t == r + " "))
    ensures Looks(s', n, x + r + y)
  {
    hide Cell;
  }

  /** What is on the terminal when the character was overwritten. */
  lemma OverwrittenText(a: string, d: char, c: char, b: string, n: int, isPrint: char -> bool)
    requires n >= 2 && isPrint(' ') && NoNul(b)
    ensures var x := Picture(a, 0, n, isPrint); var p := |x|;
            var r := Rendered(c, p, n, isPrint); var e := p + |r|;
            && |Picture(a + [c], 0, n, isPrint)| == e
            && Picture(a + ([c] + b), 0, n, isPrint) == x + r + Picture(b, e, n, isPrint)
            && (|Rendered(d, p, n, isPrint)| == |r| ==>
                Picture(a + ([d] + b), 0, n, isPrint) == x + Rendered(d, p, n, isPrint) + Picture(b, e, n, isPrint))
  {
    hide Picture, Rendered;
    var p := |Picture(a, 0, n, isPrint)|;
    PictureOf(a, [d] + b, n, isPrint);
    PictureOf(a, [c] + b, n, isPrint);
    PictureOf(a, [c], n, isPrint);
    PictureSplit([d], b, p, n, isPrint);
    PictureSplit([c], b, p, n, isPrint);
    PictureOfOne(d, p, n, isPrint);
    PictureOfOne(c, p, n, isPrint);
  }

  lemma PictureFirst(b: string, p: int, n: int, isPrint: char -> bool)
    requires n >= 1 && b != ""
    ensures var r := Rendered(b[0], p, n, isPrint);
            && Picture(b, p, n, isPrint) == r + Picture(b[1..], p + |r|, n, isPrint)
            && Picture(b, p, n, isPrint)[0] == r[0]
  {
  }

  /** The next character was written ahead. */
  lemma WrittenAhead(s: Screen, s': Screen, n: int, x: string, r0: string, r: string, b: string, isPrint: char -> bool)
    requires n >= 2 && isPrint(' ') && b != "" && |r0| == |r| && (|x| + |r|) % n == 0
    requires var e := |x| + |r|;
             && Looks(s, n, x + r0 + Picture(b, e, n, isPrint))
             && Wrote(s, s', n, |x|, r + Padded(b[0], ' ', e, n, isPrint))
    ensures var e := |x| + |r|;
            Looks(s', n, x + r + Picture(b, e, n, isPrint)) <==>
            !(2 <= |b|
              && |Rendered(b[0], e, n, isPrint)| % n == 0
              && Rendered(b[1], e + |Rendered(b[0], e, n, isPrint)|, n, isPrint)[0] != ' ')
  {
    hide Picture, Rendered, Padded, Looks, Wrote;
    var e := |x| + |r|;
    var r1 := Rendered(b[0], e, n, isPrint);
    var f := e + |r1|;
    PaddedIs(b[0], ' ', e, n, isPrint);
    RowsMeet(e, |r1|, n);
    PictureFirst(b, e, n, isPrint);
    var y := Picture(b[1..], f, n, isPrint);
    if f % n == 0 {
      PaddedSpace(f, n, isPrint);
      assert r + (r1 + " ") == r + r1 + " ";
      assert x + r0 + r1 + y == x + r0 + (r1 + y);
      assert x + r + r1 + y == x + r + (r1 + y);
      SmudgeLooks(s, s', n, x, r0, r, r1, y);
      if |b| >= 2 {
        PictureFirst(b[1..], f, n, isPrint);
      } else {
        EmptyPicture(s, f, n, isPrint);
      }
    } else {
      assert r + (r1 + "") == r + r1;
      AsIsLooks(s, s', n, x, r0, r, r1 + y, r + r1);
    }
  }

  lemma NoNulAt(b: string)
    requires NoNul(b)
    ensures b != "" ==> b[0] != NUL
  {
  }

  /** A character overwritten by one of the same width. */
  lemma Overwritten(s: Screen, s': Screen, n: int, a: string, d: char, c: char, b: string, isPrint: char -> bool)
    requires n >= 2 && isPrint(' ') && NoNul(b)
    requires Looks(s, n, Picture(a + ([d] + b), 0, n, isPrint))
    requires var p := |Picture(a, 0, n, isPrint)|;
             && |Rendered(d, p, n, isPrint)| == |Rendered(c, p, n, isPrint)|
             && Wrote(s, s', n, p, Padded(c, if b == "" then NUL else b[0], p, n, isPrint))
    ensures Looks(s', n, Picture(a + ([c] + b), 0, n, isPrint)) <==> !Smudges(a, c, b, n, isPrint)
  {
    hide Picture, Rendered, Padded, Looks, Wrote, NoNul;
    assert b != "" ==> b[0] != NUL by { NoNulAt(b); }
    var x := Picture(a, 0, n, isPrint);
    var p := |x|;
    var next := if b == "" then NUL else b[0];
    var r0, r := Rendered(d, p, n, isPrint), Rendered(c, p, n, isPrint);
    var e := p + |r|;
    var t := Padded(c, next, p, n, isPrint);
    PaddedIs(c, next, p, n, isPrint);
    OverwrittenText(a, d, c, b, n, isPrint);
    var tail := Picture(b, e, n, isPrint);
    assert x + r0 + tail == x + (r0 + tail) && x + r + tail == x + (r + tail);
    if b == "" {
      BlankTrail(e, n, isPrint);
      EmptyPicture(s, e, n, isPrint);
      assert r + "" == r;
      AsIsLooks(s, s', n, x, r0, r, tail, t);
    } else if e % n != 0 {
      assert r + "" == r;
      AsIsLooks(s, s', n, x, r0, r, tail, t);
    } else {
      WrittenAhead(s, s', n, x, r0, r, b, isPrint);
    }
  }
}
