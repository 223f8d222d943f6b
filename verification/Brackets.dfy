/** The bracket matcher of libtecla/getline.c. */
module Brackets {
  import opened Basics

  const O_PAREN: string := "([{"
  const C_PAREN: string := ")]}"

  /** The three kinds of brackets. */
  predicate Pair(c: char, d: char) {
    (c == '(' && d == ')') || (c == '[' && d == ']') || (c == '{' && d == '}')
  }

  predicate IsOpen(c: char)
    ensures IsOpen(c) <==> exists d :: Pair(c, d)
  {
    assert Pair('(', ')') && Pair('[', ']') && Pair('{', '}');
    c in O_PAREN
  }

  predicate IsClose(c: char)
    ensures IsClose(c) <==> exists d :: Pair(d, c)
  {
    assert Pair('(', ')') && Pair('[', ']') && Pair('{', '}');
    c in C_PAREN
  }

  /** The bracket of the same kind and of the other direction. */
  function Mirror(c: char): (m: char)
    requires IsOpen(c) || IsClose(c)
    ensures Pair(c, m) || Pair(m, c)
    ensures IsOpen(c) <==> IsClose(m)
    ensures IsClose(c) <==> IsOpen(m)
  {
    if c == '(' then ')' else if c == '[' then ']' else if c == '{' then '}'
    else if c == ')' then '(' else if c == ']' then '[' else '{'
  }

  /** How many more open brackets c than close brackets d there are from lo to hi. */
  function Net(t: string, c: char, d: char, lo: int, hi: int): int
    requires 0 <= lo <= hi <= |t|
    decreases hi - lo
  {
    if lo == hi then 0
    else Net(t, c, d, lo, hi - 1) + (if t[hi - 1] == c then 1 else if t[hi - 1] == d then -1 else 0)
  }

  lemma {:induction false} NetSplits(t: string, c: char, d: char, lo: int, k: int, hi: int)
    requires 0 <= lo <= k <= hi <= |t|
    ensures Net(t, c, d, lo, hi) == Net(t, c, d, lo, k) + Net(t, c, d, k, hi)
    decreases hi - k
  {
    if k < hi { NetSplits(t, c, d, lo, k, hi - 1); }
  }

  /** From lo to hi, no place has more d than c before it. */
  ghost predicate NeverNegative(t: string, c: char, d: char, lo: int, hi: int)
    requires 0 <= lo && hi <= |t|
  {
    forall m :: lo <= m <= hi ==> Net(t, c, d, lo, m) >= 0
  }

  /** The brackets at i and j enclose a text in which brackets of their kind are balanced. */
  ghost predicate Enclose(t: string, i: int, j: int) {
    && 0 <= i < j < |t|
    && Pair(t[i], t[j])
    && Net(t, t[i], t[j], i + 1, j) == 0
    && NeverNegative(t, t[i], t[j], i + 1, j)
  }

  /** The place of the d that ends a text with this many unmatched c before place k. */
  function NextMatch(t: string, c: char, d: char, k: int, needed: int): (r: int)
    requires 0 <= k && needed >= 1
    ensures -1 <= r < |t|
    decreases |t| - k
  {
    if k >= |t| then -1
    else if t[k] == c then NextMatch(t, c, d, k + 1, needed + 1)
    else if t[k] == d then (if needed == 1 then k else NextMatch(t, c, d, k + 1, needed - 1))
    else NextMatch(t, c, d, k + 1, needed)
  }

  /** The same, backwards. */
  function PreviousMatch(t: string, c: char, d: char, k: int, needed: int): (r: int)
    requires k < |t| && needed >= 1
    ensures -1 <= r < |t|
    decreases k + 1
  {
    if k < 0 then -1
    else if t[k] == c then PreviousMatch(t, c, d, k - 1, needed + 1)
    else if t[k] == d then (if needed == 1 then k else PreviousMatch(t, c, d, k - 1, needed - 1))
    else PreviousMatch(t, c, d, k - 1, needed)
  }

  function NextClose(t: string, k: int): (r: int)
    requires 0 <= k
    ensures -1 <= r < |t|
    ensures r >= 0 ==> k <= r && IsClose(t[r]) && forall i :: k <= i < r ==> !IsClose(t[i])
    ensures r < 0 ==> forall i :: k <= i < |t| ==> !IsClose(t[i])
    decreases |t| - k
  {
    if k >= |t| then -1 else if IsClose(t[k]) then k else NextClose(t, k + 1)
  }

  /** The place that matches place k of a line, or -1. */
  function MatchingParen(t: string, k: int): (r: int)
    requires 0 <= k <= |t|
    ensures -1 <= r < |t|
  {
    if k == |t| then -1
    else if IsOpen(t[k]) then NextMatch(t, t[k], Mirror(t[k]), k + 1, 1)
    else if IsClose(t[k]) then PreviousMatch(t, t[k], Mirror(t[k]), k - 1, 1)
    else NextClose(t, k + 1)
  }

  /** Find the place that matches the place of the cursor; the bell rings if there is none. */
  method IndexOfMatchingParen(line: array<char>, ntotal: nat, buffCurpos: nat) returns (index: int, bell: bool)
    requires buffCurpos <= ntotal < line.Length && NoNul(line[..ntotal]) && line[ntotal] == NUL
    ensures index == MatchingParen(line[..ntotal], buffCurpos)
    ensures bell == (index < 0)
  {
    hide Mirror;
    ghost var t := line[..ntotal];
    var c := line[buffCurpos];
    assert buffCurpos < ntotal ==> c == t[buffCurpos];
    // strchr() also finds the NUL that ends its first argument, so that the end of the line is
    // taken for an open bracket that nothing matches.
    if c == NUL || IsOpen(c) {
      var mate := if c == NUL then NUL else Mirror(c);
      var needed := 1;
      var i := buffCurpos + 1;
      while i < ntotal
        invariant buffCurpos < i && needed >= 1 && (i <= ntotal || buffCurpos == ntotal)
        invariant buffCurpos < ntotal ==> MatchingParen(t, buffCurpos) == NextMatch(t, c, mate, i, needed)
      {
        assert line[i] == t[i];
        if line[i] == c {
          needed := needed + 1;
        } else if line[i] == mate {
          needed := needed - 1;
          if needed == 0 {
            return i, false;
          }
        }
        i := i + 1;
      }
    } else if IsClose(c) {
      var mate := Mirror(c);
      var needed := 1;
      var i := buffCurpos - 1;
      while i >= 0
        invariant -1 <= i < buffCurpos && needed >= 1
        invariant MatchingParen(t, buffCurpos) == PreviousMatch(t, c, mate, i, needed)
      {
        assert line[i] == t[i];
        if line[i] == c {
          needed := needed + 1;
        } else if line[i] == mate {
          needed := needed - 1;
          if needed == 0 {
            return i, false;
          }
        }
        i := i - 1;
      }
    } else {
      var i := buffCurpos + 1;
      while i < ntotal
        invariant buffCurpos < i <= ntotal
        invariant MatchingParen(t, buffCurpos) == NextClose(t, i)
      {
        assert line[i] == t[i];
        if IsClose(line[i]) {
          return i, false;
        }
        i := i + 1;
      }
    }
    return -1, true;
  }

  /** Looking forward from the open bracket at i finds the place that ends its text. */
  lemma {:induction false} NextMatchEncloses(t: string, i: int, k: int, needed: int)
    requires 0 <= i < k <= |t| && IsOpen(t[i])
    requires needed == 1 + Net(t, t[i], Mirror(t[i]), i + 1, k)
    requires NeverNegative(t, t[i], Mirror(t[i]), i + 1, k)
    ensures var j := NextMatch(t, t[i], Mirror(t[i]), k, needed); j >= 0 ==> k <= j && Enclose(t, i, j)
    decreases |t| - k
  {
    var c, d := t[i], Mirror(t[i]);
    if k < |t| {
      var more := if t[k] == c then 1 else if t[k] == d then -1 else 0;
      assert Net(t, c, d, i + 1, k + 1) == Net(t, c, d, i + 1, k) + more;
      if needed + more >= 1 {
        NextMatchEncloses(t, i, k + 1, needed + more);
      }
    }
  }

  /** Whatever place ends the text of the open bracket at i, looking forward finds it. */
  lemma {:induction false} NextMatchFinds(t: string, i: int, j: int, k: int, needed: int)
    requires Enclose(t, i, j) && i < k <= j
    requires needed == 1 + Net(t, t[i], t[j], i + 1, k)
    ensures NextMatch(t, t[i], t[j], k, needed) == j
    decreases j - k
  {
    var c, d := t[i], t[j];
    if k < j {
      assert Net(t, c, d, i + 1, k + 1)
          == Net(t, c, d, i + 1, k) + (if t[k] == c then 1 else if t[k] == d then -1 else 0);
      NextMatchFinds(t, i, j, k + 1, 1 + Net(t, c, d, i + 1, k + 1));
    }
  }

  /** The text of the close bracket at j, from its end: what was counted backwards. */
  lemma EncloseBackwards(t: string, i: int, j: int, k: int)
    requires Enclose(t, i, j) && i < k <= j
    ensures Net(t, t[i], t[j], k, j) == -Net(t, t[i], t[j], i + 1, k) <= 0
  {
    NetSplits(t, t[i], t[j], i + 1, k, j);
  }

  lemma {:induction false} PreviousMatchFinds(t: string, i: int, j: int, k: int, needed: int)
    requires Enclose(t, i, j) && i <= k < j
    requires needed == 1 - Net(t, t[i], t[j], k + 1, j)
    ensures needed >= 1 && PreviousMatch(t, t[j], t[i], k, needed) == i
    decreases k - i
  {
    var c, d := t[i], t[j];
    EncloseBackwards(t, i, j, k + 1);
    if i < k {
      NetSplits(t, c, d, k, k + 1, j);
      assert Net(t, c, d, k, k + 1) == Net(t, c, d, k, k) + (if t[k] == c then 1 else if t[k] == d then -1 else 0);
      PreviousMatchFinds(t, i, j, k - 1, 1 - Net(t, c, d, k, j));
    }
  }

  /** Looking backwards from the close bracket at j finds the place that starts its text. */
  lemma {:induction false} PreviousMatchEncloses(t: string, j: int, k: int, needed: int)
    requires 0 <= j < |t| && -1 <= k < j && IsClose(t[j])
    requires needed == 1 - Net(t, Mirror(t[j]), t[j], k + 1, j)
    requires forall m :: k < m <= j ==> Net(t, Mirror(t[j]), t[j], m, j) <= 0
    ensures var i := PreviousMatch(t, t[j], Mirror(t[j]), k, needed); i >= 0 ==> i <= k && Enclose(t, i, j)
    decreases k + 1
  {
    var c, d := Mirror(t[j]), t[j];
    if k >= 0 {
      NetSplits(t, c, d, k, k + 1, j);
      var more := if t[k] == d then 1 else if t[k] == c then -1 else 0;
      assert Net(t, c, d, k, k + 1) == Net(t, c, d, k, k) - more;
      if needed + more >= 1 {
        PreviousMatchEncloses(t, j, k - 1, needed + more);
      } else {
        assert Net(t, c, d, k + 1, j) == 0;
        var lo := k + 1;
        forall m | lo <= m <= j
          ensures Net(t, c, d, lo, m) >= 0
        {
          NetSplits(t, c, d, lo, m, j);
        }
      }
    }
  }

  /** The matcher finds exactly the bracket that, with the one at the cursor, encloses a balanced
      text; there is at most one. */
  lemma MatchesEnclose(t: string, k: int, r: int)
    requires 0 <= k < |t| && 0 <= r
    ensures IsOpen(t[k]) ==> (MatchingParen(t, k) == r <==> Enclose(t, k, r))
    ensures IsClose(t[k]) ==> (MatchingParen(t, k) == r <==> Enclose(t, r, k))
  {
    if IsOpen(t[k]) {
      NextMatchEncloses(t, k, k + 1, 1);
      if Enclose(t, k, r) { NextMatchFinds(t, k, r, k + 1, 1); }
    } else if IsClose(t[k]) {
      PreviousMatchEncloses(t, k, k - 1, 1);
      if Enclose(t, r, k) { PreviousMatchFinds(t, r, k, k - 1, 1); }
    }
  }

  /** Matching twice from a bracket comes back to it, for any nesting and mixing of the brackets. */
  lemma MatchingIsAnInvolution(t: string, k: int)
    requires 0 <= k < |t| && (IsOpen(t[k]) || IsClose(t[k]))
    ensures var r := MatchingParen(t, k);
            r >= 0 ==>
              && (if IsOpen(t[k]) then Pair(t[k], t[r]) else Pair(t[r], t[k]))
              && (k < r <==> IsOpen(t[k])) && MatchingParen(t, r) == k
  {
    var r := MatchingParen(t, k);
    if r >= 0 {
      MatchesEnclose(t, k, r);
      MatchesEnclose(t, r, k);
    }
  }
}
