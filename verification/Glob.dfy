/** The file-name pattern matcher of libtecla/expand.c. */
module Globs {
  import opened Basics

  /** What the characters of a pattern stand for. Character ranges are not part of this model. */
  datatype Token = Star | Any | Lit(c: char)

  function Tokens(p: string): seq<Token> {
    if p == [] then []
    else if p[0] == '*' then [Star] + Tokens(p[1..])
    else if p[0] == '?' then [Any] + Tokens(p[1..])
    else if p[0] == '\\' && |p| > 1 then [Lit(p[1])] + Tokens(p[2..])
    else [Lit(p[0])] + Tokens(p[1..])
  }

  /** A pattern with no character range, and with no backslash at its end that escapes nothing. */
  predicate Plain(p: string) {
    if p == [] then true
    else if p[0] == '\\' then |p| > 1 && Plain(p[2..])
    else p[0] != '[' && Plain(p[1..])
  }

  // ---------- The meaning of a pattern ----------

  predicate Fits(t: Token, part: string) {
    match t
    case Star => true
    case Any => |part| == 1
    case Lit(c) => part == [c]
  }

  function Flatten(parts: seq<string>): string {
    if parts == [] then [] else parts[0] + Flatten(parts[1..])
  }

  ghost predicate Split(ts: seq<Token>, f: string, parts: seq<string>) {
    && |parts| == |ts| && Flatten(parts) == f
    && forall i :: 0 <= i < |ts| ==> Fits(ts[i], parts[i])
  }

  /** A name matches a pattern if it can be split into a part for each token. */
  ghost predicate Denotes(ts: seq<Token>, f: string) {
    exists parts :: Split(ts, f, parts)
  }

  /** The same, token by token. */
  ghost predicate Matches(ts: seq<Token>, f: string)
    decreases |ts|
  {
    if ts == [] then f == []
    else if ts[0].Star? then exists k :: 0 <= k <= |f| && Matches(ts[1..], f[k..])
    else f != [] && Fits(ts[0], [f[0]]) && Matches(ts[1..], f[1..])
  }

  lemma EmptyDenotes(f: string)
    ensures Denotes([], f) <==> f == []
  {
    assert f == [] ==> Split([], f, []);
  }

  lemma DenotesMore(ts: seq<Token>, f: string, k: int)
    requires ts != [] && 0 <= k <= |f| && Fits(ts[0], f[..k]) && Denotes(ts[1..], f[k..])
    ensures Denotes(ts, f)
  {
    var parts :| Split(ts[1..], f[k..], parts);
    var all := [f[..k]] + parts;
    assert all[1..] == parts;
    assert Flatten(all) == f[..k] + f[k..] == f;
    assert forall i :: 1 <= i < |ts| ==> Fits(ts[i], all[i]) by {
      assert forall i :: 1 <= i < |ts| ==> ts[i] == ts[1..][i - 1] && all[i] == parts[i - 1];
    }
    assert Split(ts, f, all);
  }

  lemma DenotesLess(ts: seq<Token>, f: string) returns (k: int)
    requires ts != [] && Denotes(ts, f)
    ensures 0 <= k <= |f| && Fits(ts[0], f[..k]) && Denotes(ts[1..], f[k..])
  {
    var parts :| Split(ts, f, parts);
    assert Fits(ts[0], parts[0]);
    k := |parts[0]|;
    assert f[..k] == parts[0] && f[k..] == Flatten(parts[1..]);
    assert Split(ts[1..], f[k..], parts[1..]);
  }

  lemma {:induction false} MatchesIsDenotes(ts: seq<Token>, f: string)
    ensures Matches(ts, f) <==> Denotes(ts, f)
    decreases |ts|
  {
    hide Split, Denotes;
    if ts == [] {
      EmptyDenotes(f);
    } else {
      if Matches(ts, f) {
        var k := 1;
        assert f != [] ==> f[..1] == [f[0]];
        if ts[0].Star? { k := StarPart(ts, f); }
        MatchesIsDenotes(ts[1..], f[k..]);
        DenotesMore(ts, f, k);
      }
      if Denotes(ts, f) {
        var k := DenotesLess(ts, f);
        MatchesIsDenotes(ts[1..], f[k..]);
      }
    }
  }

  lemma StarPart(ts: seq<Token>, f: string) returns (k: nat)
    requires ts != [] && ts[0].Star? && Matches(ts, f)
    ensures k <= |f| && Matches(ts[1..], f[k..])
  {
    k :| 0 <= k <= |f| && Matches(ts[1..], f[k..]);
  }

  // ---------- What the matcher decides ----------

  /** The matcher tries to match what follows a star with non-empty ends of the name only. */
  ghost predicate Accepts(ts: seq<Token>, f: string)
    decreases |ts|
  {
    if ts == [] then f == []
    else if ts[0].Star? then |ts| == 1 || exists k :: 0 <= k < |f| && Accepts(ts[1..], f[k..])
    else f != [] && Fits(ts[0], [f[0]]) && Accepts(ts[1..], f[1..])
  }

  /** The first character of a name must be matched by a literal one. */
  predicate StartsLiterally(ts: seq<Token>) {
    ts == [] || ts[0].Lit?
  }

  ghost predicate Answer(ts: seq<Token>, f: string, xplicit: bool) {
    (xplicit ==> StartsLiterally(ts)) && Accepts(ts, f)
  }

  method StringMatchesPattern(file: string, f0: nat, pattern: string, p0: nat, xplicit0: bool) returns (matches: bool)
    requires f0 <= |file| && p0 <= |pattern| && NoNul(pattern) && Plain(pattern[p0..])
    ensures matches == Answer(Tokens(pattern[p0..]), file[f0..], xplicit0)
    decreases |pattern| - p0, 1
  {
    hide Tokens, Plain, Accepts;
    var pptr, fptr, xplicit := p0, f0, xplicit0;
    while pptr < |pattern|
      invariant p0 <= pptr <= |pattern| && f0 <= fptr <= |file| && Plain(pattern[pptr..])
      invariant Answer(Tokens(pattern[pptr..]), file[fptr..], xplicit)
                == Answer(Tokens(pattern[p0..]), file[f0..], xplicit0)
      decreases |pattern| - pptr
    {
      TokensStep(pattern, pptr);
      AcceptsStep(Tokens(pattern[pptr..]), file, fptr);
      if pattern[pptr] == '*' {
        pptr := pptr + 1;
        if xplicit {
          return false;
        }
        if pptr >= |pattern| {
          return true;
        }
        matches := MatchesSomeEnd(file, fptr, pattern, pptr);
        return;
      } else if pattern[pptr] == '?' {
        if xplicit || fptr >= |file| {
          return false;
        }
      } else {
        if pattern[pptr] == '\\' {
          pptr := pptr + 1;
        }
        if fptr >= |file| || file[fptr] != pattern[pptr] {
          return false;
        }
      }
      fptr := fptr + 1;
      pptr := pptr + 1;
      xplicit := false;
    }
    AcceptsNothing(pattern, pptr, file, fptr);
    return fptr == |file|;
  }

  /** Does the pattern from p0 on match some non-empty end of the name? */
  method MatchesSomeEnd(file: string, f0: nat, pattern: string, p0: nat) returns (matches: bool)
    requires f0 <= |file| && p0 <= |pattern| && NoNul(pattern) && Plain(pattern[p0..])
    ensures matches == exists k :: f0 <= k < |file| && Accepts(Tokens(pattern[p0..]), file[k..])
    decreases |pattern| - p0, 2
  {
    hide Tokens, Plain, Accepts;
    var fptr := f0;
    while fptr < |file|
      invariant f0 <= fptr <= |file|
      invariant forall k :: f0 <= k < fptr ==> !Accepts(Tokens(pattern[p0..]), file[k..])
    {
      var rest := StringMatchesPattern(file, fptr, pattern, p0, false);
      if rest {
        return true;
      }
      fptr := fptr + 1;
    }
    return false;
  }

  lemma AcceptsNothing(pattern: string, p: nat, file: string, f: nat)
    requires p == |pattern| && f <= |file|
    ensures Tokens(pattern[p..]) == [] && (Accepts([], file[f..]) <==> f == |file|)
  {
  }

  /** The first token, at index i of a name. */
  lemma AcceptsStep(ts: seq<Token>, file: string, i: nat)
    requires ts != [] && i <= |file|
    ensures ts[0].Star? ==>
              (Accepts(ts, file[i..]) <==> |ts| == 1 || exists k :: i <= k < |file| && Accepts(ts[1..], file[k..]))
    ensures !ts[0].Star? ==>
              (Accepts(ts, file[i..]) <==> i < |file| && Fits(ts[0], [file[i]]) && Accepts(ts[1..], file[i + 1..]))
  {
    if ts[0].Star? {
      forall k | i <= k < |file|
        ensures file[i..][k - i..] == file[k..]
      {
      }
      forall k | 0 <= k < |file[i..]|
        ensures file[i..][k..] == file[i + k..]
      {
      }
    }
  }

  /** The first token of what is left of a pattern. */
  lemma TokensStep(p: string, i: nat)
    requires i < |p| && Plain(p[i..])
    ensures var ts := Tokens(p[i..]); var step := if p[i] == '\\' then 2 else 1;
            && i + step <= |p| && ts != [] && ts[1..] == Tokens(p[i + step..]) && Plain(p[i + step..])
            && ts[0] == (if p[i] == '*' then Star else if p[i] == '?' then Any else Lit(p[i + step - 1]))
            && (|ts| == 1 <==> i + step == |p|)
  {
    var step := if p[i] == '\\' then 2 else 1;
    assert p[i..][0] == p[i] && p[i..][step..] == p[i + step..];
    if i + step < |p| { assert Tokens(p[i + step..]) != []; }
  }

  // ---------- The meaning and the matcher compared ----------

  predicate OnlyStars(ts: seq<Token>) {
    forall i :: 0 <= i < |ts| ==> ts[i].Star?
  }

  /** The pattern ends in two stars or more. */
  predicate EndsInStars(ts: seq<Token>) {
    |ts| >= 2 && ts[|ts| - 1].Star? && ts[|ts| - 2].Star?
  }

  /** What the matcher takes a pattern for: two stars or more at the end match no less than one
      character. */
  function Taken(ts: seq<Token>): seq<Token> {
    if ts == [] then []
    else if |ts| >= 2 && OnlyStars(ts) then [Any, Star]
    else [ts[0]] + Taken(ts[1..])
  }

  /** Every name that a pattern with a token other than a star matches has a character. */
  lemma {:induction false} MatchesNothing(ts: seq<Token>)
    requires !OnlyStars(ts)
    ensures !Matches(ts, "")
    decreases |ts|
  {
    if ts[0].Star? {
      assert !OnlyStars(ts[1..]) by {
        var i :| 0 <= i < |ts| && !ts[i].Star?;
        assert !ts[1..][i - 1].Star?;
      }
      MatchesNothing(ts[1..]);
      assert ""[0..] == "";
    }
  }

  lemma {:induction false} StarsMatchAll(ts: seq<Token>, f: string)
    requires OnlyStars(ts) && ts != []
    ensures Matches(ts, f)
    ensures |ts| >= 2 ==> (Accepts(ts, f) <==> f != [])
    ensures |ts| == 1 ==> Accepts(ts, f)
    decreases |ts|
  {
    assert f[|f|..] == [] && f[0..] == f;
    if |ts| > 1 {
      StarsMatchAll(ts[1..], []);
      if f != [] { StarsMatchAll(ts[1..], f[|f| - 1..]); }
      assert f != [] ==> 0 <= |f| - 1 < |f| && Accepts(ts[1..], f[|f| - 1..]);
    } else {
      assert Matches(ts[1..], f[|f|..]);
    }
  }

  lemma AnyStar(f: string)
    ensures Matches([Any, Star], f) <==> f != []
  {
    if f != [] {
      StarsMatchAll([Star], f[1..]);
      assert [Any, Star][1..] == [Star];
    }
  }

  lemma TakenOnlyStars(ts: seq<Token>)
    requires !OnlyStars(ts)
    ensures !OnlyStars(Taken(ts))
  {
    if ts[0].Star? {
      assert !OnlyStars(ts[1..]) by {
        var i :| 0 <= i < |ts| && !ts[i].Star?;
        assert !ts[1..][i - 1].Star?;
      }
      TakenOnlyStars(ts[1..]);
      var i :| 0 <= i < |Taken(ts[1..])| && !Taken(ts[1..])[i].Star?;
      assert !Taken(ts)[i + 1].Star?;
    } else {
      assert !Taken(ts)[0].Star?;
    }
  }

  /** Exactly what the matcher decides, for every pattern. */
  lemma {:induction false} AcceptsIsTaken(ts: seq<Token>, f: string)
    ensures Accepts(ts, f) <==> Matches(Taken(ts), f)
    decreases |ts|
  {
    if ts == [] {
    } else if |ts| >= 2 && OnlyStars(ts) {
      StarsMatchAll(ts, f);
      AnyStar(f);
    } else {
      var rest := ts[1..];
      assert Taken(ts)[1..] == Taken(rest);
      if !ts[0].Star? {
        if f != [] { AcceptsIsTaken(rest, f[1..]); }
      } else if |ts| == 1 {
        StarsMatchAll(ts, f);
        assert Taken(ts) == ts;
      } else {
        forall k | 0 <= k <= |f|
          ensures Accepts(rest, f[k..]) <==> Matches(Taken(rest), f[k..])
        {
          AcceptsIsTaken(rest, f[k..]);
        }
        assert !OnlyStars(rest);
        TakenOnlyStars(rest);
        MatchesNothing(Taken(rest));
        assert f[|f|..] == [];
      }
    }
  }

  lemma {:induction false} TakenAsIs(ts: seq<Token>)
    requires !EndsInStars(ts)
    ensures Taken(ts) == ts
  {
    if ts != [] {
      assert |ts| >= 2 ==> !OnlyStars(ts);
      assert !EndsInStars(ts[1..]);
      TakenAsIs(ts[1..]);
    }
  }

  /** The least number of characters of a name that a pattern matches. */
  function Least(ts: seq<Token>): nat {
    if ts == [] then 0 else (if ts[0].Star? then 0 else 1) + Least(ts[1..])
  }

  /** A shortest name that a pattern matches. */
  function Shortest(ts: seq<Token>): string {
    if ts == [] then []
    else
      match ts[0]
      case Star => Shortest(ts[1..])
      case Any => ['a'] + Shortest(ts[1..])
      case Lit(c) => [c] + Shortest(ts[1..])
  }

  lemma {:induction false} ShortestMatches(ts: seq<Token>)
    ensures Matches(ts, Shortest(ts)) && |Shortest(ts)| == Least(ts)
  {
    if ts != [] {
      ShortestMatches(ts[1..]);
      assert Shortest(ts)[0..] == Shortest(ts);
    }
  }

  lemma {:induction false} MatchesAtLeast(ts: seq<Token>, f: string)
    requires Matches(ts, f)
    ensures |f| >= Least(ts)
    decreases |ts|
  {
    if ts != [] {
      if ts[0].Star? {
        var k := StarPart(ts, f);
        MatchesAtLeast(ts[1..], f[k..]);
      } else {
        MatchesAtLeast(ts[1..], f[1..]);
      }
    }
  }

  lemma {:induction false} TakenNeedsMore(ts: seq<Token>)
    requires EndsInStars(ts)
    ensures Least(Taken(ts)) == Least(ts) + 1
  {
    if OnlyStars(ts) {
      LeastOfStars(ts);
      assert [Any, Star][1..] == [Star] && [Star][1..] == [];
    } else {
      assert |ts| > 2;
      assert EndsInStars(ts[1..]);
      TakenNeedsMore(ts[1..]);
      assert Taken(ts)[1..] == Taken(ts[1..]);
    }
  }

  lemma {:induction false} LeastOfStars(ts: seq<Token>)
    requires OnlyStars(ts)
    ensures Least(ts) == 0
  {
    if ts != [] { LeastOfStars(ts[1..]); }
  }

  /** Two stars at the end of a pattern should match nothing, but do not. */
  lemma TwoStarsMatchNothing()
    ensures Denotes(Tokens("**"), "") && !Answer(Tokens("**"), "", false)
  {
    assert Tokens("**") == [Star, Star] by {
      assert "**"[1..] == "*" && "*"[1..] == "";
    }
    StarsMatchAll([Star, Star], "");
    MatchesIsDenotes([Star, Star], "");
  }

  /** The matcher decides the meaning of a pattern for every name exactly when the pattern does
      not end in two stars or more, or starts with a wildcard that is not allowed to match. */
  lemma MatcherDecidesMeaning(ts: seq<Token>, xplicit: bool)
    ensures (forall f :: Answer(ts, f, xplicit) <==> (xplicit ==> StartsLiterally(ts)) && Denotes(ts, f))
            <==> !EndsInStars(ts) || (xplicit && !StartsLiterally(ts))
  {
    if !EndsInStars(ts) {
      TakenAsIs(ts);
      forall f: string
        ensures Accepts(ts, f) <==> Denotes(ts, f)
      {
        AcceptsIsTaken(ts, f);
        MatchesIsDenotes(ts, f);
      }
    } else if xplicit ==> StartsLiterally(ts) {
      var f := Shortest(ts);
      ShortestMatches(ts);
      MatchesIsDenotes(ts, f);
      AcceptsIsTaken(ts, f);
      TakenNeedsMore(ts);
      if Accepts(ts, f) { MatchesAtLeast(Taken(ts), f); }
      assert !(Answer(ts, f, xplicit) <==> Denotes(ts, f));
    }
  }
}
