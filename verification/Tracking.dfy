/** Exactly when the cursor of the terminal is where libtecla/getline.c takes it to be, and when a
    character can be shown at all. */
module Tracking {
  import opened Basics
  import opened Terminals
  import opened Displays

  // ---------- DEL ----------

  /** DEL is written for DEL, and for nothing else. */
  lemma DelIsWritten(c: char, p: int, n: int, isPrint: char -> bool)
    requires n >= 1
    ensures DEL in Rendered(c, p, n, isPrint) <==> c == DEL
  {
    if c == DEL {
      assert Rendered(c, p, n, isPrint)[1] == DEL;
    } else {
      RenderedShows(c, p, n, isPrint);
    }
  }

  lemma {:induction false} DelInPicture(t: string, p: int, n: int, isPrint: char -> bool)
    requires n >= 1
    ensures DEL in Picture(t, p, n, isPrint) <==> DEL in t
    decreases |t|
  {
    hide Rendered;
    if t != "" {
      DelIsWritten(t[0], p, n, isPrint);
      DelInPicture(t[1..], p + |Rendered(t[0], p, n, isPrint)|, n, isPrint);
      assert t == [t[0]] + t[1..];
    }
  }

  /** Writing what stands for a string moves the cursor by the width that is counted for it exactly
      if there is no DEL in the string. */
  lemma CursorFollowsPicture(s: Screen, n: int, deferred: bool, t: string, p: int, isPrint: char -> bool)
    requires n >= 1 && Near(s, n, p)
    ensures var r := Picture(t, p, n, isPrint); Near(PutAll(s, n, deferred, r), n, p + |r|) <==> DEL !in t
  {
    CursorFollowsText(s, n, deferred, p, Picture(t, p, n, isPrint));
    DelInPicture(t, p, n, isPrint);
  }

  lemma {:induction false} PutAllBoth(s: Screen, n: int, deferred: bool, a: string, b: string)
    ensures PutAll(s, n, deferred, a + b) == PutAll(PutAll(s, n, deferred, a), n, deferred, b)
    decreases |a|
  {
    if a == "" {
      assert a + b == b;
    } else {
      assert (a + b)[0] == a[0] && (a + b)[1..] == a[1..] + b;
      PutAllBoth(Put(s, n, deferred, a[0]), n, deferred, a[1..], b);
    }
  }

  /** A string that does not reach the end of the row of position p is just written. */
  lemma {:induction false} WithinRow(s: Screen, p: int, t: string, pad: char, n: int, deferred: bool,
                                     isPrint: char -> bool)
    requires n >= 2 && p >= 0 && isPrint(' ') && p % n + |Picture(t, p, n, isPrint)| < n
    ensures ScreenAfterAll(s, p, t, pad, n, deferred, isPrint) == PutAll(s, n, deferred, Picture(t, p, n, isPrint))
    ensures (p + |Picture(t, p, n, isPrint)|) % n == p % n + |Picture(t, p, n, isPrint)|
    decreases |t|
  {
    hide Rendered;
    DivModUnique(p + |Picture(t, p, n, isPrint)|, p / n, p % n + |Picture(t, p, n, isPrint)|, n);
    if t != "" {
      var r := Rendered(t[0], p, n, isPrint);
      var p1, rest := p + |r|, t[1..];
      DivModUnique(p1, p / n, p % n + |r|, n);
      var next := if |t| > 1 then t[1] else pad;
      var s1 := PutAll(s, n, deferred, r);
      assert ScreenAfter(s, p, t[0], next, n, deferred, isPrint) == s1;
      WithinRow(s1, p1, rest, pad, n, deferred, isPrint);
      PutAllBoth(s, n, deferred, r, Picture(rest, p1, n, isPrint));
    }
  }

  /** After a string within a row, the cursor is where it is taken to be exactly if there is no DEL in
      the string. */
  lemma TrackedWithinRow(s: Screen, p: int, t: string, pad: char, n: int, deferred: bool, isPrint: char -> bool)
    requires n >= 2 && isPrint(' ') && At(s, n, p) && p % n + |Picture(t, p, n, isPrint)| < n
    ensures At(ScreenAfterAll(s, p, t, pad, n, deferred, isPrint), n, p + |Picture(t, p, n, isPrint)|) <==> DEL !in t
  {
    hide ScreenAfterAll, Picture;
    var r := Picture(t, p, n, isPrint);
    WithinRow(s, p, t, pad, n, deferred, isPrint);
    CursorFollowsPicture(s, n, deferred, t, p, isPrint);
    PutAllAdvances(s, n, deferred, p, r);
    if t == "" {
      EmptyPicture(s, p, n, isPrint);
    }
    if Near(PutAll(s, n, deferred, r), n, p + |r|) {
      if r != "" { assert (p + |r|) % n != 0; }
    }
  }

  /** After showing t on a terminal, the cursor is where it is taken to be. */
  ghost predicate Tracked(s: Screen, p: int, t: string, pad: char, n: int, deferred: bool, isPrint: char -> bool)
    requires n >= 2 && p >= 0 && isPrint(' ')
  {
    At(s, n, p) ==> At(ScreenAfterAll(s, p, t, pad, n, deferred, isPrint), n, p + |Picture(t, p, n, isPrint)|)
  }

  lemma {:induction false} OctalLength(k: nat, digits: nat, bound: nat)
    requires k < bound && 1 <= digits <= 7 && bound <= [8, 64, 512, 4096, 32768, 262144, 2097152][digits - 1]
    ensures |Octal(k)| <= digits
    decreases digits
  {
    if k >= 8 {
      OctalLength(k / 8, digits - 1, (bound + 7) / 8);
    }
  }

  lemma RenderedWidth(c: char, p: int, n: int, isPrint: char -> bool)
    requires n >= 1
    ensures 1 <= |Rendered(c, p, n, isPrint)| <= TAB_WIDTH
  {
    OctalLength(c as int, 7, 0x110000);
  }

  lemma {:induction false} PictureWidth(t: string, p: int, n: int, isPrint: char -> bool)
    requires n >= 1
    ensures |Picture(t, p, n, isPrint)| <= TAB_WIDTH * |t|
    decreases |t|
  {
    hide Rendered;
    if t != "" {
      RenderedWidth(t[0], p, n, isPrint);
      PictureWidth(t[1..], p + |Rendered(t[0], p, n, isPrint)|, n, isPrint);
    }
  }

  /** The cursor is where it is taken to be on every terminal of two or more columns, from every
      position, exactly if there is no DEL in the string. */
  lemma TrackedOnEveryTerminal(t: string, pad: char, isPrint: char -> bool)
    requires NoNul(t) && pad != DEL && isPrint(' ')
    ensures (forall s, p, n, deferred :: n >= 2 && p >= 0 ==> Tracked(s, p, t, pad, n, deferred, isPrint))
            <==> DEL !in t
  {
    if DEL !in t {
      forall s: Screen, p: int, n: int, deferred: bool | n >= 2 && p >= 0
        ensures Tracked(s, p, t, pad, n, deferred, isPrint)
      {
        if At(s, n, p) { ScreenAfterAllShows(s, p, t, pad, n, deferred, isPrint); }
      }
    } else {
      var s, n := Screen(0, 0, false, map[]), TAB_WIDTH * |t| + 2;
      PictureWidth(t, 0, n, isPrint);
      TrackedWithinRow(s, 0, t, pad, n, false, isPrint);
      assert !Tracked(s, 0, t, pad, n, false, isPrint);
    }
  }

  /** On one terminal the end of a row can make up for a DEL: with four columns, wrapping at once, DEL
      and two more characters end the row, and when the cursor is sent back to the start of the next
      one, it stops there, where it is taken to be. */
  lemma RowEndHidesDel(isPrint: char -> bool)
    requires isPrint(' ') && isPrint('a')
    ensures var s := Screen(0, 0, false, map[]); var t := [DEL, 'a', 'a'];
            && |Picture(t, 0, 4, isPrint)| == 4
            && At(ScreenAfterAll(s, 0, t, NUL, 4, false, isPrint), 4, 4)
  {
    hide Octal;
    var s := Screen(0, 0, false, map[]);
    var t, u := [DEL, 'a', 'a'], ['a', 'a'];
    assert t[1..] == u && u[1..] == ['a'] && ['a'][1..] == "";
    assert Rendered(DEL, 0, 4, isPrint) == ['^', DEL] && Rendered('a', 2, 4, isPrint) == ['a']
        && Rendered('a', 3, 4, isPrint) == ['a'] && Rendered(' ', 4, 4, isPrint) == [' '];
    assert ['^', DEL][1..] == [DEL] && [DEL][1..] == "" && [' '][1..] == "";
    var s1 := Put(s, 4, false, '^');
    var s2 := Put(s1, 4, false, 'a');
    var s3 := Put(s2, 4, false, 'a');
    assert PutAll(s, 4, false, ['^', DEL]) == PutAll(s1, 4, false, [DEL]) == PutAll(s1, 4, false, "") == s1;
    assert PutAll(s1, 4, false, ['a']) == PutAll(s2, 4, false, "") == s2;
    assert PutAll(s2, 4, false, ['a']) == PutAll(s3, 4, false, "") == s3;
    var s4 := Put(s3, 4, false, ' ');
    assert PutAll(s3, 4, false, [' ']) == PutAll(s4, 4, false, "") == s4;
    assert ScreenAfter(s, 0, DEL, 'a', 4, false, isPrint) == s1;
    assert ScreenAfter(s1, 2, 'a', 'a', 4, false, isPrint) == s2;
    assert ScreenAfter(s3, 4, ' ', ' ', 4, false, isPrint) == s4;
    var s5 := Moved(s4, 4, 5, 4);
    assert ScreenAfter(s2, 3, 'a', NUL, 4, false, isPrint) == s5;
    assert s4.row == 1 && s4.col == 0 && !s4.pending;
    assert s5 == Lefts(s4, 1) == Left(Lefts(s4, 0));
    assert ScreenAfterAll(s, 0, t, NUL, 4, false, isPrint) == ScreenAfterAll(s1, 2, u, NUL, 4, false, isPrint)
        == ScreenAfterAll(s2, 3, ['a'], NUL, 4, false, isPrint) == ScreenAfterAll(s5, 4, "", NUL, 4, false, isPrint);
  }

  // ---------- One column ----------

  /** Showing a character at position p ends within so many further calls. */
  predicate Ends(c: char, pad: char, p: int, n: int, isPrint: char -> bool, depth: nat)
    requires n >= 1
    decreases depth
  {
    var e := p + |Rendered(c, p, n, isPrint)|;
    e % n != 0 || (depth > 0 && Ends(PadOr(pad), ' ', e, n, isPrint, depth - 1))
  }

  lemma {:induction false} NeverEndsOnOneColumn(c: char, pad: char, p: int, isPrint: char -> bool, depth: nat)
    ensures !Ends(c, pad, p, 1, isPrint, depth)
    decreases depth
  {
    if depth > 0 {
      NeverEndsOnOneColumn(PadOr(pad), ' ', p + |Rendered(c, p, 1, isPrint)|, isPrint, depth - 1);
    }
  }

  lemma EndsOnTwoColumns(c: char, pad: char, p: int, n: int, isPrint: char -> bool)
    requires n >= 2 && p >= 0 && isPrint(' ')
    ensures Ends(c, pad, p, n, isPrint, 2)
  {
    hide Rendered;
    var e := p + |Rendered(c, p, n, isPrint)|;
    if e % n == 0 {
      var e1 := e + |Rendered(PadOr(pad), e, n, isPrint)|;
      if e1 % n == 0 {
        SpaceAtRowStart(e1, n);
        SpaceIsOneWide(e1, n, isPrint);
        assert Ends(' ', ' ', e1, n, isPrint, 0);
      }
      assert Ends(PadOr(pad), ' ', e, n, isPrint, 1);
    }
  }

  lemma SpaceIsOneWide(p: int, n: int, isPrint: char -> bool)
    requires n >= 1 && isPrint(' ')
    ensures |Rendered(' ', p, n, isPrint)| == 1
  {
  }

  /** Showing a character ends exactly on terminals with two or more columns, whatever the character,
      what follows it, and where it is shown. */
  lemma EndsExactly(c: char, pad: char, p: int, n: int, isPrint: char -> bool)
    requires n >= 1 && p >= 0 && isPrint(' ')
    ensures (exists depth: nat :: Ends(c, pad, p, n, isPrint, depth)) <==> n >= 2
  {
    if n == 1 {
      forall depth: nat
        ensures !Ends(c, pad, p, n, isPrint, depth)
      {
        NeverEndsOnOneColumn(c, pad, p, isPrint, depth);
      }
    } else {
      EndsOnTwoColumns(c, pad, p, n, isPrint);
    }
  }
}
