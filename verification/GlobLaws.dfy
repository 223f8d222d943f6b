/** What the wildcards of libtecla/expand.c mean between plain characters. */
module GlobLaws {
  import opened Basics
  import opened Globs
  import opened Escapes

  /** No character of the text means anything but itself. */
  predicate PlainText(s: string) {
    forall k :: 0 <= k < |s| ==> s[k] !in "*?[\\"
  }

  lemma {:induction false} TokensOfText(s: string, p: string)
    requires PlainText(s)
    ensures Tokens(s + p) == Literals(s) + Tokens(p)
  {
    if s == "" {
      assert s + p == p;
    } else {
      assert (s + p)[0] == s[0] && (s + p)[1..] == s[1..] + p;
      assert s[0] !in "*?[\\" && PlainText(s[1..]);
      TokensOfText(s[1..], p);
    }
  }

  lemma {:induction false} MatchesText(s: string, ts: seq<Token>, f: string)
    ensures Matches(Literals(s) + ts, f) <==> s <= f && Matches(ts, f[|s|..])
    decreases |s|
  {
    if s == "" {
      assert Literals(s) + ts == ts && f[0..] == f;
    } else {
      assert (Literals(s) + ts)[0] == Lit(s[0]) && (Literals(s) + ts)[1..] == Literals(s[1..]) + ts;
      if f != "" {
        MatchesText(s[1..], ts, f[1..]);
        assert s <= f <==> s[0] == f[0] && s[1..] <= f[1..] by {
          assert s == [s[0]] + s[1..] && f == [f[0]] + f[1..];
        }
        if s <= f { assert f[1..][|s| - 1..] == f[|s|..]; }
      }
    }
  }

  lemma MatchesAllOf(s: string, f: string)
    ensures Matches(Literals(s), f) <==> f == s
  {
    MatchesText(s, [], f);
    assert Literals(s) + [] == Literals(s);
    if s <= f && f[|s|..] == [] { assert f == f[..|s|] + f[|s|..]; }
    if f == s { assert f[|s|..] == []; }
  }

  lemma NotTwoStars(a: string, t: Token, b: string)
    ensures !EndsInStars(Literals(a) + [t] + Literals(b))
  {
    LiteralsEnd(a);
    LiteralsEnd(b);
  }

  lemma MatcherOf(ts: seq<Token>, f: string)
    requires !EndsInStars(ts)
    ensures (Denotes(ts, f) <==> Matches(ts, f)) && (Answer(ts, f, false) <==> Matches(ts, f))
  {
    MatchesIsDenotes(ts, f);
    AcceptsIsTaken(ts, f);
    TakenAsIs(ts);
  }

  lemma TokensOfWild(w: char, b: string)
    requires w == '*' || w == '?'
    ensures Tokens([w] + b) == [if w == '*' then Star else Any] + Tokens(b)
  {
    assert ([w] + b)[1..] == b;
  }

  /** The tokens of a pattern with one wildcard. */
  lemma OneWildcard(a: string, w: char, b: string)
    requires PlainText(a) && PlainText(b) && (w == '*' || w == '?')
    ensures Tokens(a + [w] + b) == Literals(a) + ([if w == '*' then Star else Any] + Literals(b))
  {
    hide Tokens, Literals, PlainText;
    TokensOfText(a, [w] + b);
    TokensOfText(b, "");
    TokensOfWild(w, b);
    NoTokens();
    assert a + [w] + b == a + ([w] + b) && b + "" == b && Literals(b) + [] == Literals(b);
  }

  lemma NoTokens()
    ensures Tokens("") == []
  {
  }

  /** The meaning of a text, a wildcard and another text. */
  lemma OneWildcardMeans(a: string, t: Token, b: string, f: string)
    ensures var ts := Literals(a) + ([t] + Literals(b)); var m := a <= f && Matches([t] + Literals(b), f[|a|..]);
            (Denotes(ts, f) <==> m) && (Answer(ts, f, false) <==> m)
  {
    hide Literals, Matches, Denotes, Answer, EndsInStars;
    assert Literals(a) + ([t] + Literals(b)) == Literals(a) + [t] + Literals(b);
    NotTwoStars(a, t, b);
    MatcherOf(Literals(a) + ([t] + Literals(b)), f);
    MatchesText(a, [t] + Literals(b), f);
  }

  /** A star between plain texts stands for any characters, also none: in its meaning, and for the
      matcher. */
  lemma StarStandsForAny(a: string, b: string, f: string)
    requires PlainText(a) && PlainText(b)
    ensures var ts := Tokens(a + "*" + b); var ok := |f| >= |a| + |b| && f[..|a|] == a && f[|f| - |b|..] == b;
            (Denotes(ts, f) <==> ok) && (Answer(ts, f, false) <==> ok)
  {
    hide Tokens, Literals, PlainText, Matches, Denotes, Answer;
    OneWildcard(a, '*', b);
    OneWildcardMeans(a, Star, b, f);
    if a <= f {
      StarThenText(b, f[|a|..]);
      if |f| >= |a| + |b| { assert f[|a|..][|f| - |a| - |b|..] == f[|f| - |b|..]; }
    }
  }

  lemma StarThenText(b: string, f: string)
    ensures Matches([Star] + Literals(b), f) <==> |f| >= |b| && f[|f| - |b|..] == b
  {
    var ts := [Star] + Literals(b);
    assert ts[1..] == Literals(b);
    forall k | 0 <= k <= |f|
      ensures Matches(Literals(b), f[k..]) <==> f[k..] == b
    {
      MatchesAllOf(b, f[k..]);
    }
    if Matches(ts, f) {
      var k := StarPart(ts, f);
      assert k == |f| - |b|;
    }
  }

  lemma AnyThenText(b: string, f: string)
    ensures Matches([Any] + Literals(b), f) <==> |f| == 1 + |b| && f[1..] == b
  {
    var ts := [Any] + Literals(b);
    assert ts[1..] == Literals(b);
    if f != "" { MatchesAllOf(b, f[1..]); }
  }

  /** A question mark between plain texts stands for exactly one character. */
  lemma QuestionMarkStandsForOne(a: string, b: string, f: string)
    requires PlainText(a) && PlainText(b)
    ensures var ts := Tokens(a + "?" + b);
            var ok := |f| == |a| + 1 + |b| && f[..|a|] == a && f[|a| + 1..] == b;
            (Denotes(ts, f) <==> ok) && (Answer(ts, f, false) <==> ok)
  {
    hide Tokens, Literals, PlainText, Matches, Denotes, Answer;
    OneWildcard(a, '?', b);
    OneWildcardMeans(a, Any, b, f);
    if a <= f {
      AnyThenText(b, f[|a|..]);
      if |f| > |a| { assert f[|a|..][1..] == f[|a| + 1..]; }
    }
  }

  /** When the first character of a name must be matched by itself, a pattern that starts with a wildcard
      matches nothing, and to others that makes no difference. */
  lemma FirstMustBeLiteral(p: string, f: string)
    ensures Answer(Tokens(p), f, true) <==> Answer(Tokens(p), f, false) && (p != "" ==> p[0] !in "*?")
  {
    hide Accepts;
    if p != "" && p[0] in "*?" {
      assert !Tokens(p)[0].Lit?;
    }
  }

  // ---------- The wildcard scan ----------

  /** A wildcard after plain text is found, whatever follows it. */
  lemma {:induction false} WildcardIsFound(a: string, w: char, b: string, i: nat)
    requires PlainText(a) && w in "*?[" && i <= |a|
    ensures Wild(a + [w] + b, i)
    decreases |a| - i
  {
    var p := a + [w] + b;
    if i < |a| {
      assert p[i] == a[i] && a[i] !in "*?[\\";
      WildcardIsFound(a, w, b, i + 1);
    } else {
      assert p[i] == w;
    }
  }

  /** The scan of a pattern without ranges finds a wildcard exactly if one of its tokens is one. */
  lemma {:induction false} WildIsAToken(p: string, i: nat)
    requires i <= |p| && Plain(p[i..])
    ensures Wild(p, i) <==> exists j :: 0 <= j < |Tokens(p[i..])| && !Tokens(p[i..])[j].Lit?
    decreases |p| - i
  {
    hide Tokens, Plain;
    if i == |p| {
      assert p[i..] == "";
      NoTokens();
    } else {
      TokensStep(p, i);
      var ts := Tokens(p[i..]);
      var step := if p[i] == '\\' then 2 else 1;
      WildIsAToken(p, i + step);
      NotARange(p, i);
      assert forall j :: 0 <= j < |ts| - 1 ==> ts[j + 1] == ts[1..][j];
      assert forall j :: 1 <= j < |ts| ==> ts[j] == ts[1..][j - 1];
    }
  }

  lemma NotARange(p: string, i: nat)
    requires i < |p| && Plain(p[i..])
    ensures p[i] != '['
  {
    assert p[i..][0] == p[i];
  }

  /** A pattern in which the scan finds no wildcard stands for one name: itself, without the backslashes
      that escape. */
  lemma {:induction false} NotWildMeansItself(p: string, i: nat, f: string)
    requires i <= |p| && Plain(p[i..]) && !Wild(p, i)
    ensures Matches(Tokens(p[i..]), f) <==> f == Unescaped(p[i..], false)
    decreases |p| - i
  {
    hide Plain;
    if i == |p| {
      assert p[i..] == "";
    } else {
      TokensStep(p, i);
      NotARange(p, i);
      var step := if p[i] == '\\' then 2 else 1;
      UnescapedFirst(p, i, step);
      if f != "" {
        NotWildMeansItself(p, i + step, f[1..]);
        assert f == [f[0]] + f[1..];
      }
    }
  }

  lemma UnescapedFirst(p: string, i: nat, step: nat)
    requires i + step <= |p| && step == if i < |p| && p[i] == '\\' then 2 else 1
    ensures Unescaped(p[i..], false) == [p[i + step - 1]] + Unescaped(p[i + step..], false)
  {
    var q := p[i..];
    assert q[1..] == p[i + 1..];
    if step == 2 {
      assert q[1..][1..] == p[i + 2..] && q[1..][0] == p[i + 1];
      assert Unescaped(q, false) == [] + Unescaped(q[1..], true);
    }
  }
}
