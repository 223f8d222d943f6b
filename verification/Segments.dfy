/** The fixed buffer in which libtecla/history.c stores its lines: an array of small segments,
    linked into the list of unused segments and into one chain for each stored line. */
module Segments {
  import opened Basics

  /** GLH_SEG_SIZE. */
  const SEG_SIZE: int := 16

  datatype Seg = Seg(next: int, s: string)

  /** The number of segments that a line of `n` characters and its terminator need. */
  function Nseg(n: nat): (m: nat)
    ensures m >= 1 && (m - 1) * SEG_SIZE <= n < m * SEG_SIZE
  {
    ((n + 1) + SEG_SIZE - 1) / SEG_SIZE
  }

  lemma NsegIs(n: nat)
    ensures Nseg(n) == ((n + 1) + SEG_SIZE - 1) / SEG_SIZE
  {
  }

  /** `c` is the list of segments met when following `next` from `head`. */
  ghost predicate Linked(b: seq<Seg>, head: int, c: seq<int>) {
    && (forall k :: 0 <= k < |c| ==> 0 <= c[k] < |b|)
    && head == (if c == [] then NULL else c[0])
    && (forall j, k :: 0 <= j < |c| - 1 && k == j + 1 ==> b[c[j]].next == c[k])
    && (c != [] ==> b[c[|c| - 1]].next == NULL)
  }

  /** The segments of `c` hold the line `t` and its terminator, and none is superfluous. */
  ghost predicate Holds(b: seq<Seg>, c: seq<int>, t: string) {
    && |c| == Nseg(|t|)
    && (forall k :: 0 <= k < |c| ==> 0 <= c[k] < |b| && |b[c[k]].s| == SEG_SIZE)
    && (forall k :: 0 <= k < |t| ==> b[c[k / SEG_SIZE]].s[k % SEG_SIZE] == t[k])
    && b[c[|t| / SEG_SIZE]].s[|t| % SEG_SIZE] == NUL
    && NoNul(t)
  }

  /** Where every segment of the buffer is: `owner[i]` is NULL when segment i is unused and
      else the first segment of the chain that it lies in; `pos[i]` is its place there. */
  datatype Layout = Layout(free: seq<int>, chains: map<int, seq<int>>, owner: seq<int>, pos: seq<int>)

  ghost predicate FreePlace(l: Layout, i: int)
    requires 0 <= i < |l.pos|
  {
    0 <= l.pos[i] < |l.free| && l.free[l.pos[i]] == i
  }

  ghost predicate ChainPlace(l: Layout, i: int)
    requires 0 <= i < |l.pos| && i < |l.owner|
  {
    var h := l.owner[i];
    h in l.chains && 0 <= l.pos[i] < |l.chains[h]| && l.chains[h][l.pos[i]] == i
  }

  ghost predicate ChainOwned(l: Layout, h: int, c: seq<int>) {
    && c != [] && c[0] == h
    && (forall k :: 0 <= k < |c| ==>
          0 <= c[k] < |l.owner| && c[k] < |l.pos| && l.owner[c[k]] == h && l.pos[c[k]] == k)
  }

  ghost predicate FreeOwned(l: Layout) {
    forall k :: 0 <= k < |l.free| ==>
      0 <= l.free[k] < |l.owner| && l.free[k] < |l.pos| && l.owner[l.free[k]] == NULL && l.pos[l.free[k]] == k
  }

  /** Each of the n segments lies in exactly one place. */
  ghost predicate Partition(l: Layout, n: int) {
    && |l.owner| == n && |l.pos| == n && NULL !in l.chains
    && (forall i :: 0 <= i < n ==> if l.owner[i] == NULL then FreePlace(l, i) else ChainPlace(l, i))
    && FreeOwned(l)
    && (forall h :: h in l.chains ==> ChainOwned(l, h, l.chains[h]))
  }

  /** Move the first m unused segments to a chain of their own. */
  ghost function Take(l: Layout, m: int): Layout
    requires 0 < m <= |l.free| && |l.owner| == |l.pos|
  {
    var h := l.free[0];
    Layout(l.free[m..], l.chains[h := l.free[..m]],
           seq(|l.owner|, i requires 0 <= i < |l.owner| =>
             if l.owner[i] == NULL && l.pos[i] < m then h else l.owner[i]),
           seq(|l.pos|, i requires 0 <= i < |l.pos| =>
             if l.owner[i] == NULL && l.pos[i] >= m then l.pos[i] - m else l.pos[i]))
  }

  /** Return a chain to the front of the list of unused segments. */
  ghost function Give(l: Layout, h: int): Layout
    requires h in l.chains && |l.owner| == |l.pos|
  {
    var c := l.chains[h];
    Layout(c + l.free, l.chains - {h},
           seq(|l.owner|, i requires 0 <= i < |l.owner| =>
             if l.owner[i] == h then NULL else l.owner[i]),
           seq(|l.pos|, i requires 0 <= i < |l.pos| =>
             if l.owner[i] == NULL then l.pos[i] + |c| else l.pos[i]))
  }

  lemma PartitionTake(l: Layout, n: int, m: int)
    requires Partition(l, n) && 0 < m <= |l.free|
    ensures l.free[0] !in l.chains
    ensures Partition(Take(l, m), n)
  {
    var h := l.free[0];
    assert l.owner[h] == NULL;
    var l' := Take(l, m);
    forall i | 0 <= i < n
      ensures if l'.owner[i] == NULL then FreePlace(l', i) else ChainPlace(l', i)
    {
      assert if l.owner[i] == NULL then FreePlace(l, i) else ChainPlace(l, i);
    }
    forall g | g in l'.chains
      ensures ChainOwned(l', g, l'.chains[g])
    {
      if g != h { assert ChainOwned(l, g, l.chains[g]); }
    }
  }

  lemma PartitionGive(l: Layout, n: int, h: int)
    requires Partition(l, n) && h in l.chains
    ensures Partition(Give(l, h), n)
  {
    var c := l.chains[h];
    assert ChainOwned(l, h, c);
    var l' := Give(l, h);
    forall i | 0 <= i < n
      ensures if l'.owner[i] == NULL then FreePlace(l', i) else ChainPlace(l', i)
    {
      assert if l.owner[i] == NULL then FreePlace(l, i) else ChainPlace(l, i);
    }
    forall g | g in l'.chains
      ensures ChainOwned(l', g, l'.chains[g])
    {
      assert ChainOwned(l, g, l.chains[g]);
    }
  }

  lemma LinkedFrame(b: seq<Seg>, b': seq<Seg>, head: int, c: seq<int>)
    requires Linked(b, head, c) && |b'| == |b|
    requires forall k :: 0 <= k < |c| ==> b'[c[k]] == b[c[k]]
    ensures Linked(b', head, c)
  {
  }

  lemma HoldsFrame(b: seq<Seg>, b': seq<Seg>, c: seq<int>, t: string)
    requires Holds(b, c, t) && |b'| == |b|
    requires forall k :: 0 <= k < |c| ==> b'[c[k]].s == b[c[k]].s
    ensures Holds(b', c, t)
  {
  }

  /** The buffer `b` stores the lines `texts`, each under its first segment. */
  ghost predicate Stores(b: seq<Seg>, unused: int, l: Layout, texts: map<int, string>) {
    && Partition(l, |b|)
    && (forall i :: 0 <= i < |b| ==> |b[i].s| == SEG_SIZE)
    && Linked(b, unused, l.free)
    && texts.Keys == l.chains.Keys
    && (forall h :: h in l.chains ==> Linked(b, h, l.chains[h]) && Holds(b, l.chains[h], texts[h]))
  }

  /** `b` differs from `b0` at most in the text of the segments `c`. */
  ghost predicate Filled(b: seq<Seg>, b0: seq<Seg>, c: seq<int>) {
    && |b| == |b0|
    && (forall i :: 0 <= i < |b| ==> |b[i].s| == SEG_SIZE && b[i].next == b0[i].next)
    && (forall i :: 0 <= i < |b| && i !in c ==> b[i] == b0[i])
  }

  lemma FilledStep(b: seq<Seg>, b0: seq<Seg>, c: seq<int>, i: int, t: string)
    requires Filled(b, b0, c) && 0 <= i < |b| && |t| == SEG_SIZE
    ensures Filled(b[i := b[i].(s := t)], b0, c + [i])
  {
  }

  /** The part of a line that a segment other than its last one holds. */
  function Piece(t: string, k: nat): string
    requires (k + 1) * SEG_SIZE <= |t|
  {
    t[k * SEG_SIZE..(k + 1) * SEG_SIZE]
  }

  /** The first i segments hold the first i pieces of a line. */
  ghost predicate Pieces(b: seq<Seg>, c: seq<int>, t: string, i: int)
    requires i <= |c| && i * SEG_SIZE <= |t| && forall k :: 0 <= k < |c| ==> 0 <= c[k] < |b|
  {
    forall k :: 0 <= k < i ==> b[c[k]].s == Piece(t, k)
  }

  lemma PiecesStep(b: seq<Seg>, c: seq<int>, t: string, i: int)
    requires 0 <= i < |c| && (i + 1) * SEG_SIZE <= |t| && forall k :: 0 <= k < |c| ==> 0 <= c[k] < |b|
    requires Pieces(b, c, t, i) && Distinct(c)
    ensures Pieces(b[c[i] := b[c[i]].(s := Piece(t, i))], c, t, i + 1)
  {
  }

  lemma PiecesKept(b: seq<Seg>, c: seq<int>, t: string, i: int, seg: int, text: string)
    requires 0 <= i < |c| && i * SEG_SIZE <= |t| && forall k :: 0 <= k < |c| ==> 0 <= c[k] < |b|
    requires Pieces(b, c, t, i) && Distinct(c) && seg == c[i]
    ensures Pieces(b[seg := b[seg].(s := text)], c, t, i)
  {
  }

  lemma PieceIs(t: string, i: nat)
    requires (i + 1) * SEG_SIZE <= |t|
    ensures Piece(t, i) == t[i * SEG_SIZE..i * SEG_SIZE + SEG_SIZE]
  {
  }

  lemma FilledNothing(b: seq<Seg>)
    requires forall i :: 0 <= i < |b| ==> |b[i].s| == SEG_SIZE
    ensures Filled(b, b, [])
  {
  }

  lemma FilledAt(b: seq<Seg>, b0: seq<Seg>, c: seq<int>, i: int)
    requires Filled(b, b0, c) && 0 <= i < |b|
    ensures |b| == |b0| && |b[i].s| == SEG_SIZE && b[i].next == b0[i].next
  {
  }

  lemma FilledSizes(b: seq<Seg>, b0: seq<Seg>, c: seq<int>, d: seq<int>)
    requires Filled(b, b0, c) && forall k :: 0 <= k < |d| ==> 0 <= d[k] < |b|
    ensures forall k :: 0 <= k < |d| ==> |b[d[k]].s| == SEG_SIZE
  {
  }

  lemma FilledHolds(b: seq<Seg>, c: seq<int>, t: string)
    requires |c| == Nseg(|t|) && NoNul(t)
    requires forall k :: 0 <= k < |c| ==> 0 <= c[k] < |b| && |b[c[k]].s| == SEG_SIZE
    requires Pieces(b, c, t, |c| - 1)
    requires t[(|c| - 1) * SEG_SIZE..] + [NUL] <= b[c[|c| - 1]].s
    ensures Holds(b, c, t)
  {
    var m := |c| - 1;
    forall k | 0 <= k < |t|
      ensures b[c[k / SEG_SIZE]].s[k % SEG_SIZE] == t[k]
    {
      var j := k / SEG_SIZE;
      if j < m {
        assert b[c[j]].s == Piece(t, j);
      } else {
        assert j == m;
        assert (t[m * SEG_SIZE..] + [NUL])[k % SEG_SIZE] == t[k];
      }
    }
    assert (t[m * SEG_SIZE..] + [NUL])[|t| % SEG_SIZE] == NUL;
  }

  lemma LinkedDrop(b: seq<Seg>, head: int, c: seq<int>, m: int)
    requires Linked(b, head, c) && 0 < m <= |c|
    ensures Linked(b, b[c[m - 1]].next, c[m..])
  {
  }

  lemma LinkedNext(b: seq<Seg>, head: int, c: seq<int>, k: int)
    requires Linked(b, head, c) && 0 <= k < |c|
    ensures b[c[k]].next == if k + 1 < |c| then c[k + 1] else NULL
    ensures k + 1 < |c| ==> c[k + 1] != NULL
  {
  }

  lemma LinkedTake(b: seq<Seg>, head: int, c: seq<int>, m: int)
    requires Linked(b, head, c) && 0 < m <= |c| && Distinct(c)
    ensures Linked(b[c[m - 1] := b[c[m - 1]].(next := NULL)], head, c[..m])
  {
  }

  lemma LinkedJoin(b: seq<Seg>, h: int, c: seq<int>, u: int, d: seq<int>)
    requires Linked(b, h, c) && Linked(b, u, d) && Distinct(c + d) && c != []
    ensures Linked(b[c[|c| - 1] := b[c[|c| - 1]].(next := u)], h, c + d)
  {
    var e := c + d;
    assert forall k {:trigger d[k]} :: 0 <= k < |d| ==> e[|c| + k] == d[k];
    assert d != [] ==> e[|e| - 1] == d[|d| - 1] != e[|c| - 1];
  }

  /** Storing in unused segments, and relinking them, leaves every stored line alone. */
  lemma ChainKept(b0: seq<Seg>, b: seq<Seg>, l: Layout, h: int, t: string)
    requires h in l.chains && ChainOwned(l, h, l.chains[h]) && |l.owner| <= |b| == |b0|
    requires Linked(b0, h, l.chains[h]) && Holds(b0, l.chains[h], t)
    requires forall i :: 0 <= i < |l.owner| && l.owner[i] == h ==> b[i] == b0[i]
    ensures Linked(b, h, l.chains[h]) && Holds(b, l.chains[h], t)
  {
    LinkedFrame(b0, b, h, l.chains[h]);
    HoldsFrame(b0, b, l.chains[h], t);
  }

  lemma Owned(l: Layout, n: int, h: int)
    requires Partition(l, n) && h in l.chains
    ensures ChainOwned(l, h, l.chains[h]) && |l.owner| == n
  {
  }

  lemma FreeFacts(l: Layout, n: int)
    requires Partition(l, n)
    ensures Distinct(l.free) && |l.owner| == |l.pos| == n
    ensures forall k :: 0 <= k < |l.free| ==> 0 <= l.free[k] < n && l.owner[l.free[k]] == NULL
  {
  }

  /** The links after the first m segments of a list, when the m-th one is relinked. */
  lemma DropLinks(b: seq<Seg>, head: int, c: seq<int>, m: int)
    requires Linked(b, head, c) && 0 < m <= |c| && Distinct(c)
    ensures Linked(b[c[m - 1] := b[c[m - 1]].(next := NULL)], b[c[m - 1]].next, c[m..])
  {
    hide Linked;
    ValidLinks(b, head, c);
    LinkedDrop(b, head, c, m);
    LinkedFrame(b, b[c[m - 1] := b[c[m - 1]].(next := NULL)], b[c[m - 1]].next, c[m..]);
  }

  lemma ValidLinks(b: seq<Seg>, head: int, c: seq<int>)
    requires Linked(b, head, c)
    ensures forall k :: 0 <= k < |c| ==> 0 <= c[k] < |b|
  {
  }

  /** Filling segments does not relink them. */
  lemma FilledLinks(b: seq<Seg>, b0: seq<Seg>, c: seq<int>, head: int, d: seq<int>)
    requires Filled(b, b0, c) && Linked(b0, head, d)
    ensures Linked(b, head, d)
  {
  }

  /** Detaching the first m unused segments relinks unused segments only. */
  lemma TakeLinks(b0: seq<Seg>, b: seq<Seg>, unused: int, l: Layout, m: int, t: string)
    requires Linked(b0, unused, l.free) && 0 < m <= |l.free| && Partition(l, |b0|)
    requires Filled(b, b0, l.free[..m]) && Holds(b, l.free[..m], t)
    ensures 0 <= l.free[m - 1] < |b| && unused == l.free[0] && |b| == |b0|
    ensures var seg := l.free[m - 1]; var b' := b[seg := b[seg].(next := NULL)];
            && Linked(b', unused, l.free[..m]) && Linked(b', b[seg].next, l.free[m..])
            && Holds(b', l.free[..m], t)
  {
    hide Partition, Holds, Distinct, Linked;
    FreeFacts(l, |b|);
    FilledLinks(b, b0, l.free[..m], unused, l.free);
    ValidLinks(b, unused, l.free);
    LinkedHead(b, unused, l.free);
    var seg := l.free[m - 1];
    var b' := b[seg := b[seg].(next := NULL)];
    HoldsFrame(b, b', l.free[..m], t);
    LinkedTake(b, unused, l.free, m);
    DropLinks(b, unused, l.free, m);
  }

  lemma LinkedHead(b: seq<Seg>, head: int, c: seq<int>)
    requires Linked(b, head, c) && c != []
    ensures head == c[0]
  {
  }

  /** Nor does it change any used segment. */
  lemma TakeKeeps(b0: seq<Seg>, b: seq<Seg>, l: Layout, m: int)
    requires 0 < m <= |l.free| && Partition(l, |b0|) && Filled(b, b0, l.free[..m])
    ensures 0 <= l.free[m - 1] < |b| == |b0| == |l.owner|
    ensures var seg := l.free[m - 1]; var b' := b[seg := b[seg].(next := NULL)];
            && (forall i :: 0 <= i < |b0| && l.owner[i] != NULL ==> b'[i] == b0[i])
            && (forall i :: 0 <= i < |b0| ==> |b'[i].s| == SEG_SIZE)
  {
    hide Partition;
    FreeFacts(l, |b0|);
  }

  /** Detaching the first m unused segments, once they hold `t`, stores `t`. */
  lemma StoresTake(b0: seq<Seg>, b: seq<Seg>, unused: int, l: Layout, texts: map<int, string>, m: int, t: string)
    requires Stores(b0, unused, l, texts) && 0 < m <= |l.free|
    requires Filled(b, b0, l.free[..m]) && Holds(b, l.free[..m], t)
    ensures unused !in texts && |l.owner| == |l.pos|
    ensures 0 <= l.free[m - 1] < |b|
    ensures var seg := l.free[m - 1];
            Stores(b[seg := b[seg].(next := NULL)], b[seg].next, Take(l, m), texts[unused := t])
  {
    hide Linked, Holds, Filled, Distinct, Partition;
    PartitionTake(l, |b0|, m);
    TakeLinks(b0, b, unused, l, m, t);
    TakeKeeps(b0, b, l, m);
    FreeFacts(l, |b0|);
    var seg := l.free[m - 1];
    var b' := b[seg := b[seg].(next := NULL)];
    var l' := Take(l, m);
    forall h | h in l.chains
      ensures Linked(b', h, l'.chains[h]) && Holds(b', l'.chains[h], texts[h])
    {
      Owned(l, |b0|, h);
      ChainKept(b0, b', l, h, texts[h]);
    }
  }

  /** Joining a chain to the unused list relinks only the last segment of the chain. */
  lemma GiveLinks(b: seq<Seg>, unused: int, l: Layout, h: int, t: string)
    requires Partition(l, |b|) && h in l.chains && Linked(b, unused, l.free)
    requires Linked(b, h, l.chains[h]) && Holds(b, l.chains[h], t)
    requires forall i :: 0 <= i < |b| ==> |b[i].s| == SEG_SIZE
    ensures |l.chains[h]| == Nseg(|t|) && l.chains[h] != [] && |l.owner| == |l.pos| == |b|
    ensures 0 <= l.chains[h][|l.chains[h]| - 1] < |b|
    ensures var tail := l.chains[h][|l.chains[h]| - 1]; var b' := b[tail := b[tail].(next := unused)];
            && Linked(b', h, l.chains[h] + l.free)
            && (forall i :: 0 <= i < |b| && l.owner[i] != h ==> b'[i] == b[i])
            && (forall i :: 0 <= i < |b| ==> |b'[i].s| == SEG_SIZE)
  {
    var c := l.chains[h];
    Owned(l, |b|, h);
    PartitionGive(l, |b|, h);
    FreeFacts(Give(l, h), |b|);
    hide Partition;
    LinkedJoin(b, h, c, unused, l.free);
  }

  /** Returning a chain to the front of the unused list. */
  lemma StoresGive(b: seq<Seg>, unused: int, l: Layout, texts: map<int, string>, h: int)
    requires Stores(b, unused, l, texts) && h in texts
    ensures h in l.chains && |l.chains[h]| == Nseg(|texts[h]|) && |l.owner| == |l.pos|
    ensures l.chains[h] != [] && 0 <= l.chains[h][|l.chains[h]| - 1] < |b|
    ensures var tail := l.chains[h][|l.chains[h]| - 1];
            Stores(b[tail := b[tail].(next := unused)], h, Give(l, h), texts - {h})
  {
    hide Linked, Holds, Partition, Distinct, ChainOwned;
    PartitionGive(l, |b|, h);
    GiveLinks(b, unused, l, h, texts[h]);
    var tail := l.chains[h][|l.chains[h]| - 1];
    var b' := b[tail := b[tail].(next := unused)];
    forall g | g in l.chains && g != h
      ensures Linked(b', g, l.chains[g]) && Holds(b', l.chains[g], texts[g])
    {
      Owned(l, |b|, g);
      ChainKept(b, b', l, g, texts[g]);
    }
  }

  /** The part of a line that fits, with its terminator, in `dim` characters. */
  function Truncated(t: string, dim: int): string
    requires dim >= 1
  {
    if |t| < dim then t else t[..dim - 1]
  }

  /** The characters of some segments, one after the other. */
  ghost function Flat(b: seq<Seg>, c: seq<int>): (f: seq<char>)
    requires forall k :: 0 <= k < |c| ==> 0 <= c[k] < |b| && |b[c[k]].s| == SEG_SIZE
    ensures |f| == |c| * SEG_SIZE
  {
    if c == [] then [] else Flat(b, c[..|c| - 1]) + b[c[|c| - 1]].s
  }

  lemma {:induction false} FlatAt(b: seq<Seg>, c: seq<int>, j: int, i: int)
    requires forall k :: 0 <= k < |c| ==> 0 <= c[k] < |b| && |b[c[k]].s| == SEG_SIZE
    requires 0 <= j < |c| && 0 <= i < SEG_SIZE
    ensures Flat(b, c)[j * SEG_SIZE + i] == b[c[j]].s[i]
    decreases |c|
  {
    if j < |c| - 1 { FlatAt(b, c[..|c| - 1], j, i); }
  }

  /** They start with the line that the segments hold, and its terminator. */
  lemma FlatHolds(b: seq<Seg>, c: seq<int>, t: string)
    requires Holds(b, c, t)
    ensures |t| < |Flat(b, c)| == |c| * SEG_SIZE && Flat(b, c)[..|t|] == t && Flat(b, c)[|t|] == NUL && NoNul(t)
  {
    var f := Flat(b, c);
    FlatAt(b, c, |t| / SEG_SIZE, |t| % SEG_SIZE);
    forall k | 0 <= k < |t|
      ensures f[k] == t[k]
    {
      FlatAt(b, c, k / SEG_SIZE, k % SEG_SIZE);
    }
  }

  lemma HoldsSegments(b: seq<Seg>, c: seq<int>, t: string)
    requires Holds(b, c, t)
    ensures forall k :: 0 <= k < |c| ==> 0 <= c[k] < |b| && |b[c[k]].s| == SEG_SIZE
  {
  }

  /** What a reader of the first characters of a line sees, when the last of them is overwritten if
      the line does not end before. */
  lemma TruncatedRead(line: seq<char>, f: seq<char>, t: string, p: nat, dim: nat)
    requires 1 <= dim && p <= dim <= |line| && p <= |f| && |t| < |f| && f[..|t|] == t && f[|t|] == NUL && NoNul(t)
    requires p == dim ==> line[..p - 1] == f[..p - 1] && line[p - 1] == NUL
    requires p < dim ==> line[..p] == f[..p] && p == |f|
    ensures CString(line) == Truncated(t, dim)
  {
    hide NoNul, CString;
    var r, q := Truncated(t, dim), if p == dim then p - 1 else p;
    TruncatedPart(t, dim);
    assert line[..|r|] == line[..q][..|r|] == f[..q][..|r|] == f[..|t|][..|r|] == r;
    if |t| < q {
      assert line[|t|] == line[..q][|t|] == f[..q][|t|] == NUL;
    }
    CStringIs(line, r);
  }

  lemma TruncatedPart(t: string, dim: int)
    requires dim >= 1 && NoNul(t)
    ensures var r := Truncated(t, dim); |r| <= |t| && r == t[..|r|] && NoNul(r) && |r| < dim
    ensures |t| < dim ==> Truncated(t, dim) == t
    ensures |t| >= dim ==> |Truncated(t, dim)| == dim - 1
  {
  }

  lemma StoredLine(b: seq<Seg>, unused: int, l: Layout, texts: map<int, string>, h: int)
    requires Stores(b, unused, l, texts) && h in texts
    ensures h in l.chains && Linked(b, h, l.chains[h]) && Holds(b, l.chains[h], texts[h])
    ensures NoNul(texts[h])
  {
  }

  /** A position in a stored line, as kept by the iterator of the prefix search. */
  datatype LineStream = LineStream(seg: int, posn: int, c: char)

  /** The characters that the iterator presents: it reads the first one of a line twice. */
  function Delivered(t: string): string {
    if t == [] then [] else [t[0]] + t
  }

  /** Character k of the segments `c` is the next one that the iterator will read. */
  ghost predicate ReadsAt(str: LineStream, c: seq<int>, k: nat) {
    k / SEG_SIZE < |c| && str.seg == c[k / SEG_SIZE] && str.posn == k % SEG_SIZE
  }

  /** Character m of a string, or its terminator. */
  function CharOf(d: string, m: nat): char
    requires m <= |d|
  {
    if m < |d| then d[m] else NUL
  }

  /** The iterator presents character m of `t`, which is stored in the segments `c`. */
  ghost predicate InStream(str: LineStream, c: seq<int>, t: string, m: int) {
    && 0 <= m <= |Delivered(t)|
    && str.c == CharOf(Delivered(t), m)
    && ReadsAt(str, c, if m < |t| then m else |t|)
  }

  function Stepped(b: seq<Seg>, str: LineStream): LineStream
    requires 0 <= str.seg < |b| && 0 <= str.posn < |b[str.seg].s|
  {
    var c := b[str.seg].s[str.posn];
    if c == NUL then str.(c := c)
    else if str.posn + 1 >= SEG_SIZE then LineStream(b[str.seg].next, 0, c)
    else LineStream(str.seg, str.posn + 1, c)
  }

  lemma ReadStep(b: seq<Seg>, head: int, c: seq<int>, t: string, str: LineStream, k: nat)
    requires Linked(b, head, c) && Holds(b, c, t) && ReadsAt(str, c, k) && k <= |t|
    ensures 0 <= str.seg < |b| && 0 <= str.posn < |b[str.seg].s|
    ensures Stepped(b, str).c == if k < |t| then t[k] else NUL
    ensures ReadsAt(Stepped(b, str), c, if k < |t| then k + 1 else k)
  {
    LinkedNext(b, head, c, k / SEG_SIZE);
    hide Linked;
    if k < |t| {
      assert b[str.seg].s[str.posn] == t[k];
    }
  }

  lemma StreamStep(b: seq<Seg>, head: int, c: seq<int>, t: string, str: LineStream, m: int)
    requires Linked(b, head, c) && Holds(b, c, t) && InStream(str, c, t, m)
    ensures 0 <= str.seg < |b| && 0 <= str.posn < |b[str.seg].s|
    ensures InStream(Stepped(b, str), c, t, if m < |Delivered(t)| then m + 1 else m)
    ensures m <= |Delivered(t)|
    ensures Stepped(b, str).c == CharOf(Delivered(t), if m < |Delivered(t)| then m + 1 else m)
  {
    hide Linked, Holds, Stepped, ReadsAt;
    ReadStep(b, head, c, t, str, if m < |t| then m else |t|);
  }

  predicate IsWild(c: char) {
    c == '*' || c == '?' || c == '['
  }

  /** The scan for wildcards of a sequence of presented characters, from character m on. */
  predicate HasGlob(d: string, m: nat)
    decreases |d| - m
  {
    if m >= |d| then false
    else if d[m] == '\\' then HasGlob(d, m + 2)
    else IsWild(d[m]) || HasGlob(d, m + 1)
  }

  lemma GlobStep(d: string, m: nat, c: char)
    requires m <= |d| && NoNul(d) && c == CharOf(d, m)
    ensures c == NUL ==> !HasGlob(d, m)
    ensures IsWild(c) ==> HasGlob(d, m)
    ensures c != NUL ==> m < |d|
    ensures c != NUL && !IsWild(c) ==>
              HasGlob(d, m) == HasGlob(d, if c == '\\' && m + 1 < |d| then m + 2 else m + 1)
  {
  }

  lemma DeliveredNoNul(t: string)
    requires NoNul(t)
    ensures NoNul(Delivered(t))
  {
  }

  /** Presenting the first character twice does not matter to a comparison of prefixes. */
  lemma DeliveredPrefix(l: string, p: string)
    ensures |p| <= |l| ==> (Delivered(p) <= Delivered(l) <==> p <= l)
  {
    if p != [] && |p| <= |l| {
      assert Delivered(p)[1..] == p && Delivered(l)[1..] == l;
      if Delivered(p) <= Delivered(l) {
        forall k | 0 <= k < |p|
          ensures p[k] == l[k]
        {
          assert Delivered(p)[k + 1] == Delivered(l)[k + 1];
        }
      }
    }
  }

  lemma AgreeStep(l: string, p: string, m: nat)
    requires m <= |l| && m <= |p| && p[..m] == l[..m] && NoNul(p)
    requires CharOf(p, m) != NUL && CharOf(p, m) == CharOf(l, m)
    ensures m < |p| && m < |l| && p[..m + 1] == l[..m + 1]
  {
  }

  lemma AgreeDecides(l: string, p: string, m: nat)
    requires m <= |l| && m <= |p| && p[..m] == l[..m] && NoNul(p)
    requires CharOf(p, m) == NUL || CharOf(p, m) != CharOf(l, m)
    ensures CharOf(p, m) == NUL <==> p <= l
  {
    if m < |p| && p <= l {
      assert p[m] == l[m];
    }
  }

  ghost function AllFree(n: nat): (l: Layout)
    ensures Partition(l, n)
  {
    Layout(Range(0, n), map[], seq(n, _ => NULL), Range(0, n))
  }

  lemma StoredSizes(b: seq<Seg>, unused: int, l: Layout, texts: map<int, string>)
    requires Stores(b, unused, l, texts)
    ensures forall i :: 0 <= i < |b| ==> |b[i].s| == SEG_SIZE
  {
  }

  lemma StoresNone(b: seq<Seg>, unused: int)
    requires Linked(b, unused, Range(0, |b|))
    requires forall i :: 0 <= i < |b| ==> |b[i].s| == SEG_SIZE
    ensures Stores(b, unused, AllFree(|b|), map[])
  {
  }

  lemma ChainLength(b: seq<Seg>, c: seq<int>, t: string)
    requires Holds(b, c, t)
    ensures |c| == Nseg(|t|)
  {
  }

  lemma HoldsMoved(b: seq<Seg>, c: seq<int>, d: seq<Seg>, at: nat, t: string)
    requires Holds(b, c, t) && at + |c| <= |d|
    requires forall k :: 0 <= k < |c| ==> d[at + k] == b[c[k]].(next := if k + 1 < |c| then at + k + 1 else NULL)
    ensures Holds(d, Range(at, at + |c|), t)
    ensures Linked(d, at, Range(at, at + |c|))
  {
    var r := Range(at, at + |c|);
    assert forall k {:trigger r[k]} :: 0 <= k < |c| ==> d[r[k]].s == b[c[k]].s;
  }

  /** The first `at` segments of `b` hold the lines `texts`, with none of them to spare. */
  ghost predicate Packed(b: seq<Seg>, at: int, l: Layout, texts: map<int, string>) {
    && 0 <= at <= |b| && l.free == [] && Partition(l, at)
    && (forall i :: 0 <= i < |b| ==> |b[i].s| == SEG_SIZE)
    && texts.Keys == l.chains.Keys
    && (forall h :: h in l.chains ==> Linked(b, h, l.chains[h]) && Holds(b, l.chains[h], texts[h]))
  }

  /** One more chain, of the segments at, ..., end - 1. */
  ghost function Append(l: Layout, at: int, end: int): Layout
    requires at < end
  {
    Layout([], l.chains[at := Range(at, end)], l.owner + seq(end - at, _ => at), l.pos + Range(0, end - at))
  }

  lemma PackedAppend(b0: seq<Seg>, b: seq<Seg>, at: int, end: int, l: Layout, texts: map<int, string>, t: string)
    requires Packed(b0, at, l, texts) && at < end <= |b| == |b0|
    requires forall i :: 0 <= i < |b| && !(at <= i < end) ==> b[i] == b0[i]
    requires Linked(b, at, Range(at, end)) && Holds(b, Range(at, end), t)
    ensures at !in texts
    ensures Packed(b, end, Append(l, at, end), texts[at := t])
  {
    hide Linked, Holds, Partition, ChainOwned;
    PartitionAppend(l, at, end);
    MovedSizes(b, at, end, t);
    forall h | h in l.chains
      ensures Linked(b, h, l.chains[h]) && Holds(b, l.chains[h], texts[h])
    {
      Owned(l, at, h);
      ChainKept(b0, b, l, h, texts[h]);
    }
  }

  lemma MovedSizes(b: seq<Seg>, at: int, end: int, t: string)
    requires 0 <= at < end <= |b| && Holds(b, Range(at, end), t)
    ensures forall i :: at <= i < end ==> |b[i].s| == SEG_SIZE
  {
    assert forall i :: at <= i < end ==> Range(at, end)[i - at] == i && |b[i].s| == SEG_SIZE;
  }

  lemma PartitionAppend(l: Layout, at: int, end: int)
    requires Partition(l, at) && l.free == [] && 0 <= at < end
    ensures at !in l.chains && Partition(Append(l, at, end), end)
  {
    var l' := Append(l, at, end);
    forall i | 0 <= i < end
      ensures if l'.owner[i] == NULL then FreePlace(l', i) else ChainPlace(l', i)
    {
      if i < at {
        assert if l.owner[i] == NULL then FreePlace(l, i) else ChainPlace(l, i);
      }
    }
    forall g | g in l.chains
      ensures ChainOwned(l', g, l'.chains[g]) && g != at
    {
      assert ChainOwned(l, g, l.chains[g]);
    }
  }

  /** The segments that no line occupies become the unused ones. */
  ghost function Rest(l: Layout, at: int, n: int): Layout
    requires 0 <= at <= n
  {
    Layout(Range(at, n), l.chains, l.owner + seq(n - at, _ => NULL), l.pos + Range(0, n - at))
  }

  lemma PartitionRest(l: Layout, at: int, n: int)
    requires Partition(l, at) && l.free == [] && 0 <= at <= n
    ensures Partition(Rest(l, at, n), n)
  {
    var l' := Rest(l, at, n);
    forall i | 0 <= i < n
      ensures if l'.owner[i] == NULL then FreePlace(l', i) else ChainPlace(l', i)
    {
      if i < at {
        assert if l.owner[i] == NULL then FreePlace(l, i) else ChainPlace(l, i);
      }
    }
    forall g | g in l.chains
      ensures ChainOwned(l', g, l'.chains[g])
    {
      assert ChainOwned(l, g, l.chains[g]);
    }
  }

  lemma PackedDone(b0: seq<Seg>, b: seq<Seg>, at: int, unused: int, l: Layout, texts: map<int, string>)
    requires Packed(b0, at, l, texts) && |b| == |b0|
    requires forall i :: 0 <= i < at ==> b[i] == b0[i]
    requires forall i :: 0 <= i < |b| ==> |b[i].s| == SEG_SIZE
    requires Linked(b, unused, Range(at, |b|))
    ensures Stores(b, unused, Rest(l, at, |b|), texts)
  {
    hide Linked, Holds, Partition, ChainOwned;
    PartitionRest(l, at, |b|);
    forall h | h in l.chains
      ensures Linked(b, h, l.chains[h]) && Holds(b, l.chains[h], texts[h])
    {
      Owned(l, at, h);
      ChainKept(b0, b, l, h, texts[h]);
    }
  }

  /** The segments of the lines whose first segments are `heads`. */
  ghost function Occupied(l: Layout, heads: set<int>): set<int> {
    set i | 0 <= i < |l.owner| && l.owner[i] in heads
  }

  /** A further line needs as many segments as its chain has, and the buffer has them. */
  lemma OccupiedMore(l: Layout, n: nat, heads: set<int>, h: int)
    requires Partition(l, n) && h in l.chains && h !in heads && NULL !in heads
    ensures |Occupied(l, heads + {h})| == |Occupied(l, heads)| + |l.chains[h]|
    ensures |Occupied(l, heads + {h})| + |l.free| <= n
  {
    var c := l.chains[h];
    assert ChainOwned(l, h, c);
    var own := set x | x in c;
    SizeOfDistinct(c);
    assert Occupied(l, heads + {h}) == Occupied(l, heads) + own by {
      forall i | i in Occupied(l, heads + {h})
        ensures i in Occupied(l, heads) + own
      {
        if l.owner[i] == h { assert ChainPlace(l, i); }
      }
    }
    OccupiedFits(l, n, heads + {h});
  }

  lemma PlaceOf(l: Layout, n: nat, i: int)
    requires Partition(l, n) && 0 <= i < n
    ensures |l.owner| == n
    ensures if l.owner[i] == NULL then i in l.free else l.owner[i] in l.chains
    ensures i in l.free ==> l.owner[i] == NULL
    ensures NULL !in l.chains
  {
    assert if l.owner[i] == NULL then FreePlace(l, i) else ChainPlace(l, i);
  }

  /** Every segment that is not unused is occupied by some line. */
  lemma OccupiedAll(l: Layout, n: nat)
    requires Partition(l, n)
    ensures |Occupied(l, l.chains.Keys)| + |l.free| == n
  {
    var free := set x | x in l.free;
    var all := set x | x in Range(0, n);
    var occupied := Occupied(l, l.chains.Keys);
    FreeFacts(l, n);
    SizeOfDistinct(l.free);
    SizeOfDistinct(Range(0, n));
    hide Partition, Distinct;
    forall i | 0 <= i < n
      ensures i in occupied <==> i !in free
    {
      PlaceOf(l, n, i);
    }
    assert occupied !! free;
    assert occupied + free == all;
  }

  /** A buffer of which nothing is occupied. */
  ghost function NothingPacked(): Layout {
    Layout([], map[], [], [])
  }

  lemma PackedNothing(b: seq<Seg>)
    requires forall i :: 0 <= i < |b| ==> |b[i].s| == SEG_SIZE
    ensures Packed(b, 0, NothingPacked(), map[])
  {
  }

  lemma OccupiedRoom(b: seq<Seg>, unused: int, l: Layout, texts: map<int, string>, heads: set<int>, h: int)
    requires Stores(b, unused, l, texts) && h in texts && h !in heads && heads <= texts.Keys
    ensures |Occupied(l, heads + {h})| == |Occupied(l, heads)| + Nseg(|texts[h]|)
    ensures |Occupied(l, heads + {h})| + |l.free| <= |b|
  {
    OccupiedMore(l, |b|, heads, h);
  }

  lemma OccupiedFits(l: Layout, n: nat, heads: set<int>)
    requires Partition(l, n) && NULL !in heads
    ensures |Occupied(l, heads)| + |l.free| <= n
  {
    var free := set x | x in l.free;
    var all := set x | x in Range(0, n);
    SizeOfDistinct(l.free);
    SizeOfDistinct(Range(0, n));
    forall i | i in Occupied(l, heads) + free
      ensures i in all
    {
      assert Range(0, n)[i] == i;
    }
    SubsetSize(Occupied(l, heads) + free, all);
    assert Occupied(l, heads) !! free;
  }

  class SegmentPool {
    var buffer: array<Seg>   // a buffer of length 0 stands for the null pointer
    var unused: int
    var nbusy: int
    var nfree: int
    ghost var layout: Layout
    ghost var texts: map<int, string>

    ghost predicate Valid()
      reads this, buffer
    {
      && Stores(buffer[..], unused, layout, texts)
      && nfree == |layout.free|
      && nbusy + nfree == buffer.Length
    }

    lemma AllOccupied()
      requires Valid()
      ensures |Occupied(layout, texts.Keys)| == nbusy
    {
      OccupiedAll(layout, buffer.Length);
    }

    lemma PlaceOfSegment(i: int)
      requires Valid() && 0 <= i < buffer.Length
      ensures |layout.owner| == |layout.pos| == buffer.Length && texts.Keys == layout.chains.Keys
      ensures i !in layout.free ==> layout.owner[i] in texts && i in layout.chains[layout.owner[i]]
    {
      PlaceOf(layout, buffer.Length, i);
      assert layout.owner[i] != NULL ==> ChainPlace(layout, i);
      assert layout.owner[i] == NULL ==> FreePlace(layout, i);
    }

    lemma OwnerOfSegment(h: int, i: int)
      requires Valid() && h in layout.chains && i in layout.chains[h]
      ensures 0 <= i < |layout.owner| && layout.owner[i] == h && i !in layout.free
    {
      Owned(layout, buffer.Length, h);
      PlaceOf(layout, buffer.Length, i);
    }

    lemma HoldsText(h: int)
      requires Valid() && h in texts
      ensures h in layout.chains && Holds(buffer[..], layout.chains[h], texts[h])
      ensures |layout.chains[h]| == (|texts[h]| + 1 + SEG_SIZE - 1) / SEG_SIZE
    {
      NsegIs(|texts[h]|);
    }

    /** Copy a line into the leading unused segments, without taking them off their list. */
    method Fill(line: string, nseg: int) returns (seg: int)
      requires Valid() && NoNul(line) && nseg == Nseg(|line|) <= nfree
      modifies buffer
      ensures Filled(buffer[..], old(buffer[..]), layout.free[..nseg])
      ensures Holds(buffer[..], layout.free[..nseg], line)
      ensures seg == layout.free[nseg - 1] && 0 <= seg < buffer.Length
    {
      hide Stores, Linked, Filled, Piece, Distinct;
      FreeLinks(nseg);
      ghost var c := layout.free[..nseg];
      ghost var b0 := buffer[..];
      FilledNothing(b0);
      var offset := 0;
      var i := 0;
      seg := unused;
      while i < nseg - 1
        invariant 0 <= i <= nseg - 1 && offset == i * SEG_SIZE && seg == c[i]
        invariant Filled(buffer[..], b0, c[..i])
        invariant Pieces(buffer[..], c, line, i)
      {
        ghost var b := buffer[..];
        PieceIs(line, i);
        FilledStep(b, b0, c[..i], seg, Piece(line, i));
        PiecesStep(b, c, line, i);
        FilledAt(b, b0, c[..i], seg);
        buffer[seg] := buffer[seg].(s := line[offset..offset + SEG_SIZE]);
        assert buffer[..] == b[seg := b[seg].(s := Piece(line, i))];
        assert c[..i] + [seg] == c[..i + 1];
        seg := buffer[seg].next;
        offset := offset + SEG_SIZE;
        i := i + 1;
      }
      var rest := |line| - offset;
      ghost var b := buffer[..];
      FilledAt(b, b0, c[..i], seg);
      var last := line[offset..] + [NUL] + buffer[seg].s[rest + 1..];
      FilledStep(b, b0, c[..i], seg, last);
      PiecesKept(b, c, line, i, seg, last);
      buffer[seg] := buffer[seg].(s := last);
      assert c[..i] + [seg] == c;
      assert buffer[..] == b[seg := b[seg].(s := last)];
      FilledSizes(buffer[..], b0, c, c);
      FilledHolds(buffer[..], c, line);
    }

    lemma FreeLinks(m: int)
      requires Valid() && 0 < m <= nfree
      ensures m <= |layout.free| && Distinct(layout.free[..m])
      ensures forall k :: 0 <= k < m ==> 0 <= layout.free[k] < buffer.Length
      ensures forall k, n :: 0 <= k < m - 1 && n == k + 1 ==> buffer[layout.free[k]].next == layout.free[n]
      ensures unused == layout.free[0]
      ensures forall i :: 0 <= i < buffer.Length ==> |buffer[i].s| == SEG_SIZE
    {
      hide Holds, ChainOwned, ChainPlace, FreePlace;
    }

    /** Store a line, for which there is room, in a chain of its own. */
    method Store(line: string) returns (head: int)
      requires Valid() && NoNul(line) && Nseg(|line|) <= nfree
      modifies buffer, this`unused, this`nbusy, this`nfree, this`layout, this`texts
      ensures Valid() && head !in old(texts) && texts == old(texts)[head := line]
      ensures nbusy == old(nbusy) + Nseg(|line|)
    {
      hide Stores, Filled, Holds;
      var nseg := ((|line| + 1) + SEG_SIZE - 1) / SEG_SIZE;
      ghost var b0 := buffer[..];
      var seg := Fill(line, nseg);
      ghost var b := buffer[..];
      StoresTake(b0, b, unused, layout, texts, nseg, line);
      head := unused;
      unused := buffer[seg].next;
      buffer[seg] := buffer[seg].(next := NULL);
      assert buffer[..] == b[seg := b[seg].(next := NULL)];
      nbusy := nbusy + nseg;
      nfree := nfree - nseg;
      layout := Take(layout, nseg);
      texts := texts[head := line];
    }

    /** The last segment of a stored line, and the number of its segments. */
    method LastSegment(head: int) returns (tail: int, nseg: int)
      requires Valid() && head in texts
      ensures head in layout.chains && nseg == |layout.chains[head]| >= 1
      ensures tail == layout.chains[head][nseg - 1]
    {
      ghost var b := buffer[..];
      ghost var c := layout.chains[head];
      assert Linked(b, head, c) && Holds(b, c, texts[head]);
      nseg := 1;
      tail := head;
      while buffer[tail].next != NULL
        invariant 1 <= nseg <= |c| && tail == c[nseg - 1]
        decreases |c| - nseg
      {
        LinkedNext(b, head, c, nseg - 1);
        nseg := nseg + 1;
        tail := buffer[tail].next;
      }
      LinkedNext(b, head, c, nseg - 1);
    }

    /** Return the segments of a line to the list of unused segments. */
    method Release(head: int)
      requires Valid() && head in texts
      modifies buffer, this`unused, this`nbusy, this`nfree, this`layout, this`texts
      ensures Valid() && texts == old(texts) - {head}
      ensures nbusy == old(nbusy) - Nseg(|old(texts)[head]|)
    {
      hide Stores, Linked, Holds, Partition;
      ghost var b := buffer[..];
      StoresGive(b, unused, layout, texts, head);
      var tail, nseg := LastSegment(head);
      buffer[tail] := buffer[tail].(next := unused);
      assert buffer[..] == b[tail := b[tail].(next := unused)];
      unused := head;
      nbusy := nbusy - nseg;
      nfree := nfree + nseg;
      layout := Give(layout, head);
      texts := texts - {head};
    }

    /** Compare a stored line, of length `len`, with a string. */
    method IsLine(head: int, len: int, line: string) returns (same: bool)
      requires Valid() && head in texts && len == |texts[head]|
      ensures same <==> texts[head] == line
    {
      if |line| != len {
        return false;
      }
      ghost var b := buffer[..];
      ghost var c := layout.chains[head];
      ghost var t := texts[head];
      StoredLine(b, unused, layout, texts, head);
      hide Stores, Partition;
      var n, p, seg := |line|, 0, head;
      ghost var j := 0;
      while n > 0 && seg != NULL
        invariant 0 <= j <= |c| && seg == (if j < |c| then c[j] else NULL)
        invariant n + p == |line| && n >= 0 && (n > 0 ==> p == j * SEG_SIZE)
        invariant line[..p] == t[..p]
        decreases |c| - j
      {
        var i := 0;
        while n > 0 && i < SEG_SIZE
          invariant 0 <= i <= SEG_SIZE && n >= 0 && n + p == |line| && p == j * SEG_SIZE + i
          invariant line[..p] == t[..p]
          decreases n
        {
          assert t[p] == b[c[p / SEG_SIZE]].s[p % SEG_SIZE] == buffer[seg].s[i];
          if line[p] != buffer[seg].s[i] {
            return false;
          }
          p, i, n := p + 1, i + 1, n - 1;
        }
        LinkedNext(b, head, c, j);
        seg := buffer[seg].next;
        j := j + 1;
      }
      assert n == 0;
      return true;
    }

    /** Copy a stored line into a buffer of which at most `dim` characters may be written. */
    method ReturnLine(head: int, line: array<char>, dim: int)
      requires Valid() && head in texts && 1 <= dim <= line.Length
      modifies line
      ensures CString(line[..]) == Truncated(texts[head], dim)
    {
      hide Stores, Partition, Linked, Holds, Flat, Truncated;
      ghost var b := buffer[..];
      StoredLine(b, unused, layout, texts, head);
      ghost var c := layout.chains[head];
      ghost var t := texts[head];
      HoldsSegments(b, c, t);
      FlatHolds(b, c, t);
      LinkedHead(b, head, c);
      ghost var f := Flat(b, c);
      var left, p, seg := dim, 0, head;
      ghost var j := 0;
      while left > 0 && seg != NULL
        invariant 0 <= j <= |c| && seg == (if j < |c| then c[j] else NULL)
        invariant left + p == dim && left >= 0 && (left > 0 ==> p == j * SEG_SIZE) && p <= |f|
        invariant line[..p] == f[..p]
        decreases |c| - j
      {
        var i := 0;
        while left > 0 && i < SEG_SIZE
          invariant 0 <= i <= SEG_SIZE && left >= 0 && left + p == dim && p == j * SEG_SIZE + i
          invariant line[..p] == f[..p]
          decreases left
        {
          FlatAt(b, c, j, i);
          line[p] := buffer[seg].s[i];
          p, i, left := p + 1, i + 1, left - 1;
        }
        LinkedNext(b, head, c, j);
        seg := buffer[seg].next;
        j := j + 1;
      }
      if left == 0 {
        line[p - 1] := NUL;
      }
      TruncatedRead(line[..], f, t, p, dim);
    }

    /** Start a stream at the first character of a line. */
    method InitStream(head: int, ghost c: seq<int>, ghost t: string) returns (str: LineStream)
      requires Linked(buffer[..], head, c) && Holds(buffer[..], c, t)
      ensures InStream(str, c, t, 0) && str.c == CharOf(Delivered(t), 0)
    {
      str := LineStream(head, 0, buffer[head].s[0]);
    }

    /** Advance a stream, unless it has reached the end of its line. */
    method StepStream(str: LineStream, ghost head: int, ghost c: seq<int>, ghost t: string, ghost m: nat)
      returns (str': LineStream, ghost m': nat)
      requires Linked(buffer[..], head, c) && Holds(buffer[..], c, t) && InStream(str, c, t, m)
      ensures m' == (if m < |Delivered(t)| then m + 1 else m) <= |Delivered(t)|
      ensures InStream(str', c, t, m') && str'.c == CharOf(Delivered(t), m')
    {
      hide Holds, Linked, InStream, Delivered, CharOf;
      StreamStep(buffer[..], head, c, t, str, m);
      m' := if m < |Delivered(t)| then m + 1 else m;
      str' := str.(c := buffer[str.seg].s[str.posn]);
      if str'.c != NUL {
        str' := str'.(posn := str'.posn + 1);
        if str'.posn >= SEG_SIZE {
          str' := str'.(posn := 0, seg := buffer[str'.seg].next);
        }
      }
      assert str' == Stepped(buffer[..], str);
    }

    /** Does a line, taken as a search prefix, contain a wildcard? */
    method ContainsGlob(head: int) returns (glob: bool)
      requires Valid() && head in texts
      ensures glob == HasGlob(Delivered(texts[head]), 0)
    {
      ghost var c, t := layout.chains[head], texts[head];
      StoredLine(buffer[..], unused, layout, texts, head);
      hide Valid, InStream, Linked, Holds, Delivered, NoNul, CharOf, HasGlob, IsWild;
      ghost var d := Delivered(t);
      DeliveredNoNul(t);
      var str := InitStream(head, c, t);
      ghost var m := 0;
      while str.c != NUL
        invariant 0 <= m <= |d| && InStream(str, c, t, m) && str.c == CharOf(d, m)
        invariant HasGlob(d, 0) == HasGlob(d, m)
        decreases |d| - m
      {
        GlobStep(d, m, str.c);
        if IsWild(str.c) {
          return true;
        }
        ghost var next := if str.c == '\\' && m + 1 < |d| then m + 2 else m + 1;
        if str.c == '\\' {
          str, m := StepStream(str, head, c, t, m);
        }
        str, m := StepStream(str, head, c, t, m);
        assert m == next;
      }
      GlobStep(d, m, str.c);
      return false;
    }

    /** Does a line start with a wildcard-free prefix? */
    method MatchesPrefix(line: int, lineLen: int, prefix: int, prefixLen: int) returns (matches: bool)
      requires Valid() && line in texts && prefix in texts
      requires lineLen == |texts[line]| && prefixLen == |texts[prefix]|
      ensures matches <==> texts[prefix] <= texts[line]
    {
      ghost var lc, lt, pc, pt := layout.chains[line], texts[line], layout.chains[prefix], texts[prefix];
      StoredLine(buffer[..], unused, layout, texts, line);
      StoredLine(buffer[..], unused, layout, texts, prefix);
      hide Valid, InStream, Linked, Holds, Delivered, CharOf, NoNul;
      if prefixLen > lineLen {
        return false;
      }
      ghost var l, p := Delivered(lt), Delivered(pt);
      DeliveredNoNul(pt);
      DeliveredPrefix(lt, pt);
      var lstr := InitStream(line, lc, lt);
      var pstr := InitStream(prefix, pc, pt);
      ghost var m, m' := 0, 0;
      while pstr.c != NUL && pstr.c == lstr.c
        invariant 0 <= m == m' <= |p| && m <= |l| && p[..m] == l[..m]
        invariant InStream(lstr, lc, lt, m) && lstr.c == CharOf(l, m)
        invariant InStream(pstr, pc, pt, m) && pstr.c == CharOf(p, m)
        decreases |p| - m
      {
        AgreeStep(l, p, m);
        lstr, m' := StepStream(lstr, line, lc, lt, m);
        pstr, m := StepStream(pstr, prefix, pc, pt, m);
      }
      AgreeDecides(l, p, m);
      return pstr.c == NUL;
    }

    /** Allocate n segments, all unused. */
    constructor (n: nat)
      ensures Valid() && fresh(buffer) && buffer.Length == n && texts == map[] && nbusy == 0
    {
      buffer := new Seg[n](_ => Seg(NULL, seq(SEG_SIZE, _ => NUL)));
      new;
      ThreadUnused(0);
      nbusy := 0;
      nfree := n;
      layout := AllFree(n);
      texts := map[];
      StoresNone(buffer[..], unused);
    }

    /** Link the segments from index `from` up into a list in index order. */
    method ThreadUnused(from: int)
      requires 0 <= from <= buffer.Length
      requires forall i :: 0 <= i < buffer.Length ==> |buffer[i].s| == SEG_SIZE
      modifies buffer, this`unused
      ensures Linked(buffer[..], unused, Range(from, buffer.Length))
      ensures forall i :: 0 <= i < buffer.Length ==> |buffer[i].s| == SEG_SIZE
      ensures forall i :: 0 <= i < from ==> buffer[i] == old(buffer[i])
    {
      var n := buffer.Length;
      var i := from;
      while i < n - 1
        invariant from <= i && (i <= n - 1 || i == from)
        invariant forall j :: from <= j < i && j < n - 1 ==> buffer[j].next == j + 1
        invariant forall j :: 0 <= j < n ==> |buffer[j].s| == SEG_SIZE
        invariant forall j :: 0 <= j < from ==> buffer[j] == old(buffer[j])
      {
        buffer[i] := buffer[i].(next := i + 1);
        i := i + 1;
      }
      if i < n {
        buffer[i] := buffer[i].(next := NULL);
      }
      unused := if from < n then from else NULL;
    }

    /** Forget every line. */
    method Clear()
      requires Valid()
      modifies this, buffer
      ensures Valid() && buffer == old(buffer) && texts == map[] && nbusy == 0
    {
      hide Linked, Holds, Partition, Stores;
      assert forall i :: 0 <= i < buffer.Length ==> |buffer[i].s| == SEG_SIZE
        by { StoredSizes(buffer[..], unused, layout, texts); }
      ThreadUnused(0);
      StoresNone(buffer[..], unused);
      nfree := buffer.Length;
      nbusy := 0;
      layout := AllFree(buffer.Length);
      texts := map[];
    }

    /** Copy the segments of a line to consecutive segments of another buffer, from index `at` up. */
    method CopyLine(dst: array<Seg>, head: int, at: int) returns (end: int)
      requires Valid() && head in texts && dst != buffer
      requires 0 <= at && at + Nseg(|texts[head]|) <= dst.Length
      modifies dst
      ensures end == at + Nseg(|texts[head]|)
      ensures Linked(dst[..], at, Range(at, end)) && Holds(dst[..], Range(at, end), texts[head])
      ensures forall i :: 0 <= i < dst.Length && !(at <= i < end) ==> dst[i] == old(dst[i])
    {
      ghost var b := buffer[..];
      ghost var c := layout.chains[head];
      StoredLine(b, unused, layout, texts, head);
      ChainLength(b, c, texts[head]);
      hide Stores, Partition, Holds;
      end := at;
      var seg := head;
      while seg != NULL
        invariant at <= end <= at + |c| && seg == (if end < at + |c| then c[end - at] else NULL)
        invariant forall k :: 0 <= k < end - at ==> dst[at + k] == b[c[k]].(next :=
                if k + 1 < |c| then at + k + 1 else NULL)
        invariant forall i :: 0 <= i < dst.Length && !(at <= i < end) ==> dst[i] == old(dst[i])
        decreases at + |c| - end
      {
        LinkedNext(b, head, c, end - at);
        dst[end] := buffer[seg].(next := if buffer[seg].next != NULL then end + 1 else NULL);
        end := end + 1;
        seg := buffer[seg].next;
      }
      HoldsMoved(b, c, dst[..], at, texts[head]);
    }

    /** Take over a buffer whose first `at` segments hold lines. */
    method Install(dst: array<Seg>, at: int, ghost l: Layout, ghost tx: map<int, string>)
      requires Packed(dst[..], at, l, tx)
      modifies this, dst
      ensures Valid() && buffer == dst && texts == tx && nbusy == at
    {
      hide Linked, Holds, Partition;
      ghost var b := dst[..];
      buffer := dst;
      ThreadUnused(at);
      PackedDone(b, dst[..], at, unused, l, tx);
      nbusy := at;
      nfree := buffer.Length - at;
      layout := Rest(l, at, buffer.Length);
      texts := tx;
    }
  }
}
