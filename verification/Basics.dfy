/** Notions that several of the modelled files share. */
module Basics {

  /** The null pointer, where pointers are modelled by indices. */
  const NULL: int := -1

  const NUL: char := '\0'

  const DEL: char := 127 as char

  predicate IsCtrl(c: char) {
    c < ' ' || c == DEL
  }

  function Min(a: int, b: int): int {
    if a < b then a else b
  }

  function Max(a: int, b: int): int {
    if a > b then a else b
  }

  datatype Option<+T> = None | Some(value: T)

  ghost predicate Distinct<T>(s: seq<T>) {
    forall j, k :: 0 <= j < k < |s| ==> s[j] != s[k]
  }

  /** The numbers lo, lo + 1, ..., hi - 1. */
  ghost function Range(lo: int, hi: int): (r: seq<int>)
    requires lo <= hi
    ensures |r| == hi - lo
    ensures forall k :: 0 <= k < |r| ==> r[k] == lo + k
    ensures forall a :: a in r <==> lo <= a < hi
  {
    var r := seq(hi - lo, k requires k >= 0 => lo + k);
    assert forall a {:trigger a in r} | lo <= a < hi :: r[a - lo] == a;
    r
  }

  /** A sequence less its element k. */
  function Without<T>(s: seq<T>, k: int): seq<T>
    requires 0 <= k < |s|
  {
    s[..k] + s[k + 1..]
  }

  predicate NoNul(t: string) {
    forall k :: 0 <= k < |t| ==> t[k] != NUL
  }

  /** What a C reader sees in an array of characters. */
  function CString(a: seq<char>): (t: string)
    ensures |t| <= |a| && t == a[..|t|] && NoNul(t)
    ensures |t| < |a| ==> a[|t|] == NUL
  {
    if a == [] || a[0] == NUL then [] else [a[0]] + CString(a[1..])
  }

  lemma CStringIs(a: seq<char>, t: string)
    requires NoNul(t) && |t| < |a| && t == a[..|t|] && a[|t|] == NUL
    ensures CString(a) == t
  {
    if t != [] {
      assert a[0] == t[0];
      CStringIs(a[1..], t[1..]);
    }
  }

  lemma SizeOfDistinct(s: seq<int>)
    requires Distinct(s)
    ensures |set x | x in s| == |s|
  {
    if s != [] {
      var t := s[..|s| - 1];
      SizeOfDistinct(t);
      assert (set x | x in s) == (set x | x in t) + {s[|s| - 1]};
    }
  }

  lemma SubsetSize(a: set<int>, b: set<int>)
    requires a <= b
    ensures |a| <= |b|
  {
    assert b == a + (b - a);
  }

  lemma MulAtLeast(a: int, n: int)
    requires a >= 1 && n >= 1
    ensures a * n >= n
  {
    assert (a - 1) * n >= 0;
  }

  /** Division and remainder by n >= 1 are determined by the one equation they satisfy. */
  lemma DivModUnique(x: int, q: int, r: int, n: int)
    requires n >= 1 && x == q * n + r && 0 <= r < n
    ensures x / n == q && x % n == r
  {
    var d := q - x / n;
    assert d * n == x % n - r;
    if d >= 1 {
      MulAtLeast(d, n);
    } else if d <= -1 {
      MulAtLeast(-d, n);
    }
  }
}
