/** The escaping of file names in libtecla/cplfile.c, and what undoes it: the wildcard scan and
    the matcher of libtecla/expand.c, and the unescaping of libtecla/pathutil.c. */
module Escapes {
  import opened Basics
  import opened Globs

  predicate Special(c: char) {
    c == ' ' || c == '\t' || c == '\\' || c == '*' || c == '?' || c == '['
  }

  function Escaped(s: string): string {
    if s == [] then [] else (if Special(s[0]) then ['\\', s[0]] else [s[0]]) + Escaped(s[1..])
  }

  /** The number of characters among the first n of a name that are escaped. */
  function Specials(s: string, n: nat): nat
    requires n <= |s|
  {
    if n == 0 then 0 else Specials(s, n - 1) + (if Special(s[n - 1]) then 1 else 0)
  }

  lemma {:induction false} EscapedAppend(s: string, c: char)
    ensures Escaped(s + [c]) == Escaped(s) + (if Special(c) then ['\\', c] else [c])
  {
    if s == [] {
      assert s + [c] == [c];
    } else {
      assert (s + [c])[1..] == s[1..] + [c];
      EscapedAppend(s[1..], c);
    }
  }

  /** The escaped name is longer by a backslash for each special character. */
  lemma {:induction false} EscapedLength(s: string, n: nat)
    requires n <= |s|
    ensures |Escaped(s[..n])| == n + Specials(s, n)
  {
    if n > 0 {
      EscapedLength(s, n - 1);
      assert s[..n] == s[..n - 1] + [s[n - 1]];
      EscapedAppend(s[..n - 1], s[n - 1]);
    }
  }

  lemma {:induction false} EscapedNoNul(s: string)
    requires NoNul(s)
    ensures NoNul(Escaped(s))
  {
    if s != [] { EscapedNoNul(s[1..]); }
  }

  lemma {:induction false} NoSpecials(s: string, n: nat)
    requires n <= |s| && Specials(s, n) == 0
    ensures Escaped(s[..n]) == s[..n]
  {
    if n > 0 {
      NoSpecials(s, n - 1);
      assert s[..n] == s[..n - 1] + [s[n - 1]];
      EscapedAppend(s[..n - 1], s[n - 1]);
    }
  }

  /** Copy a completion suffix to a buffer of just the size it needs, with the special
      characters escaped on request. */
  method PrepareSuffix(suffix: string, addEscapes: bool) returns (name: array<char>)
    requires NoNul(suffix)
    ensures fresh(name)
    ensures CString(name[..]) == if addEscapes then Escaped(suffix) else suffix
    ensures name.Length == |suffix| + (if addEscapes then Specials(suffix, |suffix|) else 0) + 1
  {
    var suffixLen := |suffix|;
    var nbsl := 0;
    if addEscapes {
      var sptr := 0;
      while sptr < suffixLen
        invariant 0 <= sptr <= suffixLen && nbsl == Specials(suffix, sptr)
      {
        if Special(suffix[sptr]) {
          nbsl := nbsl + 1;
        }
        sptr := sptr + 1;
      }
    }
    name := new char[suffixLen + nbsl + 1](_ => NUL);
    assert suffix[..suffixLen] == suffix;
    EscapedLength(suffix, suffixLen);
    EscapedNoNul(suffix);
    if nbsl == 0 {
      forall i | 0 <= i < suffixLen {
        name[i] := suffix[i];
      }
      if addEscapes { NoSpecials(suffix, suffixLen); }
      CStringIs(name[..], suffix);
    } else {
      CopyEscaped(suffix, name);
      CStringIs(name[..], Escaped(suffix));
    }
  }

  /** Copy a name, with its special characters escaped. */
  method CopyEscaped(suffix: string, name: array<char>)
    requires name.Length == |Escaped(suffix)| + 1
    modifies name
    ensures name[..|Escaped(suffix)|] == Escaped(suffix) && name[|Escaped(suffix)|] == NUL
  {
    var dst := 0;
    var i := 0;
    while i < |suffix|
      invariant 0 <= i <= |suffix| && dst == |Escaped(suffix[..i])| <= |Escaped(suffix)|
      invariant name[..dst] == Escaped(suffix[..i])
    {
      EscapedUpTo(suffix, i);
      if Special(suffix[i]) {
        name[dst] := '\\';
        dst := dst + 1;
      }
      name[dst] := suffix[i];
      dst := dst + 1;
      i := i + 1;
    }
    assert suffix[..i] == suffix;
    name[dst] := NUL;
  }

  lemma EscapedUpTo(s: string, i: nat)
    requires i < |s|
    ensures Escaped(s[..i + 1]) == Escaped(s[..i]) + (if Special(s[i]) then ['\\', s[i]] else [s[i]])
    ensures |Escaped(s[..i + 1])| <= |Escaped(s)|
  {
    assert s[..i + 1] == s[..i] + [s[i]];
    EscapedAppend(s[..i], s[i]);
    EscapedPrefix(s, i + 1);
  }

  lemma {:induction false} EscapedPrefix(s: string, n: nat)
    requires n <= |s|
    ensures |Escaped(s[..n])| <= |Escaped(s)|
  {
    if n > 0 {
      assert s[..n][1..] == s[1..][..n - 1];
      EscapedPrefix(s[1..], n - 1);
    }
  }

  // ---------- The wildcard scan ----------

  /** Does a path contain a wildcard, from index i on? */
  predicate Wild(p: string, i: nat)
    decreases |p| - i
  {
    if i >= |p| then false
    else if p[i] == '\\' then Wild(p, if i + 1 < |p| then i + 2 else i + 1)
    else p[i] == '*' || p[i] == '?' || p[i] == '[' || Wild(p, i + 1)
  }

  method HasWildcards(path: string) returns (wild: bool)
    ensures wild == Wild(path, 0)
  {
    wild := false;
    var pptr := 0;
    while !wild && pptr < |path|
      invariant 0 <= pptr <= |path| && Wild(path, 0) == (wild || Wild(path, pptr))
      decreases |path| - pptr
    {
      match path[pptr] {
        case '\\' =>
          if pptr + 1 < |path| {
            pptr := pptr + 1;
          }
        case '*' => wild := true;
        case '?' => wild := true;
        case '[' => wild := true;
        case _ =>
      }
      pptr := pptr + 1;
    }
  }

  // ---------- Removing escapes ----------

  /** The characters that are kept of a string; `escape` tells whether the one before it was a
      backslash that escapes. */
  function Unescaped(p: string, escape: bool): string {
    if p == [] then []
    else
      var isEscape := !escape && p[0] == '\\';
      (if isEscape then [] else [p[0]]) + Unescaped(p[1..], isEscape)
  }

  /** Append a string to a path, without the backslashes that escape. */
  method AppendUnescaped(path: string, text: string) returns (path': string)
    ensures path' == path + Unescaped(text, false)
  {
    path' := path;
    var isEscape := false;
    var i := 0;
    while i < |text|
      invariant 0 <= i <= |text|
      invariant path + Unescaped(text, false) == path' + Unescaped(text[i..], isEscape)
    {
      assert text[i..][1..] == text[i + 1..];
      isEscape := !isEscape && text[i] == '\\';
      if !isEscape {
        path' := path' + [text[i]];
      }
      i := i + 1;
    }
  }

  // ---------- Round trips ----------

  function Literals(s: string): seq<Token> {
    if s == [] then [] else [Lit(s[0])] + Literals(s[1..])
  }

  /** The rest of an escaped name after its first character. */
  lemma EscapedStep(s: string)
    requires s != []
    ensures var e := Escaped(s); var step := if Special(s[0]) then 2 else 1;
            |e| >= step && e[step - 1] == s[0] && e[step..] == Escaped(s[1..]) && (step == 2 ==> e[0] == '\\')
  {
  }

  lemma {:induction false} EscapedTokens(s: string)
    ensures Plain(Escaped(s)) && Tokens(Escaped(s)) == Literals(s)
  {
    if s != [] {
      EscapedStep(s);
      EscapedTokens(s[1..]);
    }
  }

  lemma {:induction false} EscapedHasNoWildcards(s: string, prefix: string)
    ensures !Wild(prefix + Escaped(s), |prefix|)
    decreases |s|
  {
    if s == [] {
      assert prefix + Escaped(s) == prefix;
    } else {
      EscapedStep(s);
      var step := if Special(s[0]) then 2 else 1;
      var prefix' := prefix + Escaped(s)[..step];
      assert prefix' + Escaped(s[1..]) == prefix + Escaped(s);
      assert (prefix + Escaped(s))[|prefix|] == Escaped(s)[0];
      EscapedHasNoWildcards(s[1..], prefix');
    }
  }

  lemma {:induction false} LiteralsAccept(s: string, f: string)
    ensures Accepts(Literals(s), f) <==> f == s
  {
    if s != [] && f != [] {
      LiteralsAccept(s[1..], f[1..]);
      assert s == [s[0]] + s[1..] && f == [f[0]] + f[1..];
    }
  }

  /** An escaped name is not taken for a pattern, and as a pattern matches that name only. */
  lemma EscapedMatchesItself(s: string, f: string, xplicit: bool)
    ensures !Wild(Escaped(s), 0) && Plain(Escaped(s))
    ensures Answer(Tokens(Escaped(s)), f, xplicit) <==> f == s
    ensures Denotes(Tokens(Escaped(s)), f) <==> f == s
  {
    EscapedTokens(s);
    EscapedHasNoWildcards(s, "");
    assert "" + Escaped(s) == Escaped(s);
    LiteralsAccept(s, f);
    LiteralsEnd(s);
    TakenAsIs(Literals(s));
    AcceptsIsTaken(Literals(s), f);
    MatchesIsDenotes(Literals(s), f);
  }

  lemma {:induction false} LiteralsEnd(s: string)
    ensures |Literals(s)| == |s| && forall i :: 0 <= i < |s| ==> Literals(s)[i] == Lit(s[i])
  {
    if s != [] { LiteralsEnd(s[1..]); }
  }

  lemma {:induction false} UnescapedEscaped(s: string)
    ensures Unescaped(Escaped(s), false) == s
  {
    if s != [] {
      EscapedStep(s);
      UnescapedEscaped(s[1..]);
      var e := Escaped(s);
      assert s == [s[0]] + s[1..];
      if Special(s[0]) {
        assert e[1..][1..] == e[2..];
        assert Unescaped(e[1..], true) == [e[1]] + Unescaped(e[1..][1..], false);
      }
    }
  }

  /** A name is escaped exactly if one of the six characters is in it. */
  lemma {:induction false} EscapedIfNeeded(s: string)
    ensures Escaped(s) == s <==> forall k :: 0 <= k < |s| ==> s[k] !in " \t\\*?["
    ensures |Escaped(s)| >= |s|
  {
    if s != "" {
      var rest := s[1..];
      EscapedIfNeeded(rest);
      assert s == [s[0]] + rest;
      assert forall k :: 0 <= k < |rest| ==> rest[k] == s[k + 1];
      if Special(s[0]) {
        assert |Escaped(s)| == 2 + |Escaped(rest)|;
      } else {
        assert Escaped(s) == [s[0]] + Escaped(rest);
        assert Escaped(s) == s ==> Escaped(s)[1..] == s[1..];
        assert s[0] !in " \t\\*?[" && (forall k :: 1 <= k < |s| ==> s[k] == rest[k - 1]);
      }
    }
  }

  // ---------- The end of a path ----------

  /** How many characters of a text there are before the first white space that is not escaped. */
  function PathLength(p: string, escaped: bool, isSpace: char -> bool): (n: nat)
    ensures n <= |p|
  {
    if p == "" then 0
    else if escaped then 1 + PathLength(p[1..], false, isSpace)
    else if isSpace(p[0]) then 0
    else 1 + PathLength(p[1..], p[0] == '\\', isSpace)
  }

  method EndOfPath(text: string, startFrom: nat, isSpace: char -> bool) returns (end: nat)
    requires NoNul(text) && startFrom <= |text|
    ensures end == startFrom + PathLength(text[startFrom..], false, isSpace)
  {
    var escaped := false;
    end := startFrom;
    while end < |text|
      invariant startFrom <= end <= |text|
      invariant startFrom + PathLength(text[startFrom..], false, isSpace)
                == end + PathLength(text[end..], escaped, isSpace)
    {
      assert text[end..][0] == text[end] && text[end..][1..] == text[end + 1..];
      if escaped {
        escaped := false;
      } else if isSpace(text[end]) {
        break;
      } else if text[end] == '\\' {
        escaped := true;
      }
      end := end + 1;
    }
  }

  /** An escaped name that the text ends with, or that white space follows, is taken for a path exactly up
      to its end, if and only if the name has no other white space than spaces and tabs. */
  lemma {:induction false} EscapedIsOnePath(s: string, rest: string, isSpace: char -> bool)
    requires isSpace(' ') && isSpace('\t') && !isSpace('\\') && !isSpace('*') && !isSpace('?') && !isSpace('[')
    requires rest != "" ==> isSpace(rest[0])
    ensures PathLength(Escaped(s) + rest, false, isSpace) <= |Escaped(s)|
    ensures PathLength(Escaped(s) + rest, false, isSpace) == |Escaped(s)|
        <==> forall k :: 0 <= k < |s| && isSpace(s[k]) ==> s[k] in " \t"
  {
    if s == "" {
      assert Escaped(s) + rest == rest;
    } else {
      EscapedIsOnePath(s[1..], rest, isSpace);
      PathOfFirst(s, rest, isSpace);
      assert forall k :: 0 <= k < |s| - 1 ==> s[1..][k] == s[k + 1];
      assert forall k :: 1 <= k < |s| ==> s[k] == s[1..][k - 1];
    }
  }

  lemma PathOfFirst(s: string, rest: string, isSpace: char -> bool)
    requires s != "" && !isSpace('\\')
    ensures var e := Escaped(s); var n := PathLength(Escaped(s[1..]) + rest, false, isSpace);
            && |e| == (if Special(s[0]) then 2 else 1) + |Escaped(s[1..])|
            && PathLength(e + rest, false, isSpace)
               == if Special(s[0]) then 2 + n else if isSpace(s[0]) then 0 else 1 + n
  {
    EscapedStep(s);
    var p, more := Escaped(s) + rest, Escaped(s[1..]) + rest;
    if Special(s[0]) {
      assert p == ['\\', s[0]] + more;
      assert p[1..][1..] == more && p[0] == '\\';
    } else {
      assert p == [s[0]] + more;
      assert p[1..] == more;
    }
  }

  /** A concrete failure: a newline is not escaped, and ends the path. */
  lemma NewlineEndsPath(isSpace: char -> bool)
    requires isSpace(' ') && isSpace('\t') && isSpace('\n')
    requires !isSpace('\\') && !isSpace('*') && !isSpace('?') && !isSpace('[')
    ensures Escaped("a\nb") == "a\nb" && PathLength(Escaped("a\nb"), false, isSpace) < 3
  {
    EscapedIfNeeded("a\nb");
    EscapedIsOnePath("a\nb", "", isSpace);
    assert "a\nb"[1] == '\n' && Escaped("a\nb") + "" == "a\nb";
  }
}
