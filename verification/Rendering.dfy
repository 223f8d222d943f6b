/** What libtecla/getline.c shows for a character, and which character it was. */
module Rendering {
  import opened Basics
  import opened Displays

  function ToUpper(c: char): char {
    if 'a' <= c <= 'z' then (c as int - 32) as char else c
  }

  /** The character that the control key makes of a key: that of the question mark is DEL, and others
      lose the bit that counts 64. */
  function MakeCtrl(c: char): char
    requires c as int < 256
  {
    if c == '?' then DEL
    else
      var u := ToUpper(c) as int;
      (if (u / 64) % 2 == 1 then u - 64 else u) as char
  }

  /** What is shown for a control character is the key that makes it, exactly if it is not DEL. */
  lemma ControlKeys(c: char)
    requires c as int < 32 || c as int == 127
    ensures IsCtrl(c) && '?' <= CtrlToChar(c) <= DEL && (MakeCtrl(CtrlToChar(c)) == c <==> c != DEL)
    ensures MakeCtrl('?') == DEL && MakeCtrl(CtrlToChar(DEL)) == '?'
  {
    var k := CtrlToChar(c);
    if c != DEL {
      assert k as int == c as int + 64;
    }
  }

  /** The number that some octal digits are, read from left to right. */
  function FromOctal(s: string): nat {
    if s == "" then 0
    else FromOctal(s[..|s| - 1]) * 8 + (if '0' <= s[|s| - 1] <= '7' then s[|s| - 1] as int - '0' as int else 0)
  }

  lemma {:induction false} OctalIsRead(n: nat)
    ensures FromOctal(Octal(n)) == n
  {
    if n >= 8 {
      OctalIsRead(n / 8);
      assert Octal(n)[..|Octal(n)| - 1] == Octal(n / 8);
    } else {
      assert Octal(n)[..0] == "";
    }
  }

  /** The character that something shown stands for. */
  function ReadBack(r: string): char
    requires r != ""
  {
    if |r| == 1 then r[0]
    else if r[0] == '^' && |r| == 2 && r[1] as int < 256 then MakeCtrl(r[1])
    else
      var n := FromOctal(r[1..]);
      if n < 256 then n as char else NUL
  }

  /** Except for tab and DEL, what is shown for a character says which one it is: that character itself
      if it can be printed, the control key that makes it, or its octal number. */
  lemma ShownIsReadBack(c: char, p: int, n: int, isPrint: char -> bool)
    requires n >= 1 && c as int < 256 && c != '\t' && c != DEL
    ensures ReadBack(Rendered(c, p, n, isPrint)) == c
    ensures isPrint(c) && 32 <= c as int ==> Rendered(c, p, n, isPrint) == [c]
  {
    hide Octal;
    if IsCtrl(c) {
      ControlKeys(c);
    } else if !isPrint(c) {
      OctalIsRead(c as int);
      OctalNotEmpty(c as int);
      assert (['\\'] + Octal(c as int))[1..] == Octal(c as int);
    }
  }

  lemma OctalNotEmpty(n: nat)
    ensures Octal(n) != ""
  {
  }

  /** A tab is shown as spaces, up to the next column of its row that is a multiple of eight. */
  lemma TabReachesStop(p: int, n: int, isPrint: char -> bool)
    requires n >= 1
    ensures var r := Rendered('\t', p, n, isPrint);
            1 <= |r| == 8 - (p % n) % 8 <= 8 && (p % n + |r|) % 8 == 0 && forall i :: 0 <= i < |r| ==> r[i] == ' '
  {
  }

  /** What is shown starts with the character itself, a circumflex or a backslash. */
  lemma FirstShown(c: char, p: int, n: int, isPrint: char -> bool)
    requires n >= 1 && c != '\t'
    ensures var r := Rendered(c, p, n, isPrint);
            if IsCtrl(c) then r == ['^', CtrlToChar(c)]
            else if isPrint(c) then r == [c]
            else r == ['\\'] + Octal(c as int) && |r| >= 2
  {
    OctalNotEmpty(c as int);
  }

  lemma {:induction false} OctalOfByte(n: nat)
    requires 32 <= n < 256
    ensures |Octal(n)| == if n < 64 then 2 else 3
    ensures FromOctal(Octal(n)[..2]) == if n < 64 then n else n / 8
  {
    OctalIsRead(n);
    OctalIsRead(n / 8);
    if n < 64 {
      assert Octal(n)[..2] == Octal(n);
    } else {
      assert Octal(n)[..2] == Octal(n / 8);
    }
  }

  lemma OctalsDiffer(m: nat, n: nat)
    requires 32 <= m < 256 && 32 <= n < 256 && Octal(m) <= Octal(n)
    ensures m == n
  {
    OctalOfByte(m);
    OctalOfByte(n);
    OctalIsRead(m);
    OctalIsRead(n);
    if |Octal(m)| == 2 { assert Octal(n)[..2] == Octal(m) == Octal(m)[..2]; }
  }

  lemma ControlsDiffer(c: char, d: char)
    requires IsCtrl(c) && IsCtrl(d) && CtrlToChar(c) == CtrlToChar(d)
    ensures c == d
  {
  }

  /** What is shown for one character starts what is shown for another exactly if the first is a
      printable circumflex and the other a control character, or the first is a printable backslash and
      the other shown by its number. So no two are shown in the same way. */
  lemma ShownStartsExactly(c: char, d: char, p: int, n: int, isPrint: char -> bool)
    requires n >= 1 && c as int < 256 && d as int < 256 && c != '\t' && d != '\t' && c != d
    ensures var r, s := Rendered(c, p, n, isPrint), Rendered(d, p, n, isPrint);
            && (r <= s <==> (c == '^' && isPrint('^') && IsCtrl(d))
                            || (c == '\\' && isPrint('\\') && !IsCtrl(d) && !isPrint(d)))
            && r != s
  {
    hide Rendered, Octal, CtrlToChar;
    FirstShown(c, p, n, isPrint);
    FirstShown(d, p, n, isPrint);
    var r, s := Rendered(c, p, n, isPrint), Rendered(d, p, n, isPrint);
    assert r <= s ==> r[0] == s[0];
    assert |r| == 1 && s[0] == r[0] ==> s[..1] == r;
    if IsCtrl(c) && IsCtrl(d) {
      if r <= s {
        assert r[1] == s[1];
        ControlsDiffer(c, d);
      }
    } else if !IsCtrl(c) && !IsCtrl(d) && !isPrint(c) && !isPrint(d) {
      if r <= s {
        assert Octal(c as int) == r[1..] && Octal(d as int) == s[1..];
        assert r[1..] <= s[1..];
        OctalsDiffer(c as int, d as int);
      }
    }
  }

  /** A tab and a space are shown in the same way exactly in the column before a tab stop, and a tab and
      any other character never. */
  lemma TabLooksLikeSpace(d: char, p: int, n: int, isPrint: char -> bool)
    requires n >= 1 && d != '\t'
    ensures Rendered(d, p, n, isPrint) == Rendered('\t', p, n, isPrint)
        <==> d == ' ' && isPrint(' ') && (p % n) % 8 == 7
  {
    hide Octal, Rendered;
    TabReachesStop(p, n, isPrint);
    FirstShown(d, p, n, isPrint);
    var r, s := Rendered(d, p, n, isPrint), Rendered('\t', p, n, isPrint);
    assert r == s ==> r[0] == s[0] == ' ';
    assert |s| == 1 ==> s == [' '];
  }
}
