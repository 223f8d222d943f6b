/** The hash table of libtecla/history.c, in which every distinct line is stored once, with a
    count of the references to it. */
module LineStores {
  import opened Basics
  import opened FreeLists
  import opened Segments

  /** GLH_HASH_SIZE. */
  const HASH_SIZE: int := 113

  /** GLH_HASH_INCR. */
  const HASH_INCR: int := 50

  /** One more than the largest unsigned long. */
  const ULONG_RANGE: int := 0x1_0000_0000_0000_0000

  datatype HashNode = HashNode(bucket: int, next: int, head: int, len: int, used: int)

  /** A stored line and the number of references to it. */
  datatype Line = Line(text: string, used: int)

  /** The hash of the first n characters of a line. */
  function Hash(line: string, n: nat): (h: nat)
    requires n <= |line|
    ensures h < ULONG_RANGE
  {
    if n == 0 then 0 else (65599 * Hash(line, n - 1) + line[n - 1] as int) % ULONG_RANGE
  }

  function BucketOf(line: string): (b: int)
    ensures 0 <= b < HASH_SIZE
  {
    Hash(line, |line|) % HASH_SIZE
  }

  /** `c` is the list of nodes met from `head` in bucket `b`. */
  ghost predicate Listed(node: map<int, HashNode>, b: int, head: int, c: seq<int>) {
    && Distinct(c)
    && (forall k :: 0 <= k < |c| ==> c[k] in node && node[c[k]].bucket == b)
    && head == (if c == [] then NULL else c[0])
    && (forall j, k :: 0 <= j < |c| - 1 && k == j + 1 ==> node[c[j]].next == c[k])
    && (c != [] ==> node[c[|c| - 1]].next == NULL)
  }

  /** Every node is on the list of its bucket. */
  ghost predicate Bucketed(node: map<int, HashNode>, bucket: seq<int>, chain: seq<seq<int>>) {
    && |bucket| == |chain| == HASH_SIZE
    && NULL !in node
    && (forall b :: 0 <= b < HASH_SIZE ==> Listed(node, b, bucket[b], chain[b]))
    && (forall a :: a in node ==> 0 <= node[a].bucket < HASH_SIZE && a in chain[node[a].bucket])
  }

  ghost predicate NodeOk(a: int, n: HashNode, texts: map<int, string>, index: map<string, int>, line: Line) {
    && n.head in texts
    && line == Line(texts[n.head], n.used)
    && n.len == |line.text|
    && n.used >= 1
    && n.bucket == BucketOf(line.text)
    && line.text in index && index[line.text] == a
  }

  ghost predicate ChainHeld(h: int, t: string, node: map<int, HashNode>, index: map<string, int>) {
    t in index && index[t] in node && node[index[t]].head == h
  }

  ghost predicate TextHeld(t: string, index: map<string, int>, lines: map<int, Line>) {
    t in index && index[t] in lines && lines[index[t]].text == t
  }

  /** Each stored line belongs to exactly one node, and no two nodes store the same line;
      `lines` is what the users of the store see of it. */
  ghost predicate Indexed(node: map<int, HashNode>, texts: map<int, string>, index: map<string, int>,
                          lines: map<int, Line>) {
    && lines.Keys == node.Keys
    && (forall a :: a in node ==> NodeOk(a, node[a], texts, index, lines[a]))
    && (forall h :: h in texts ==> ChainHeld(h, texts[h], node, index))
    && (forall t :: t in index ==> TextHeld(t, index, lines))
  }

  lemma BucketedInsert(node: map<int, HashNode>, bucket: seq<int>, chain: seq<seq<int>>, a: int, n: HashNode)
    requires Bucketed(node, bucket, chain) && a !in node && a != NULL
    requires 0 <= n.bucket < HASH_SIZE && n.next == bucket[n.bucket]
    ensures Bucketed(node[a := n], bucket[n.bucket := a], chain[n.bucket := [a] + chain[n.bucket]])
  {
    var node', bucket', chain' := node[a := n], bucket[n.bucket := a], chain[n.bucket := [a] + chain[n.bucket]];
    forall b | 0 <= b < HASH_SIZE
      ensures Listed(node', b, bucket'[b], chain'[b])
    {
      assert Listed(node, b, bucket[b], chain[b]);
    }
    forall x | x in node'
      ensures 0 <= node'[x].bucket < HASH_SIZE && x in chain'[node'[x].bucket]
    {
      if x == a { assert chain'[n.bucket][0] == a; }
    }
  }

  lemma ListedFrame(node: map<int, HashNode>, node': map<int, HashNode>, b: int, head: int, c: seq<int>)
    requires Listed(node, b, head, c)
    requires forall x :: x in node && node[x].bucket == b ==> x in node' && node'[x] == node[x]
    ensures Listed(node', b, head, c)
  {
    forall k | 0 <= k < |c|
      ensures c[k] in node' && node'[c[k]] == node[c[k]]
    {
      var x := c[k];
      assert x in node && node[x].bucket == b;
      assert x in node';
    }
  }

  lemma ListedEntry(node: map<int, HashNode>, b: int, head: int, c: seq<int>, k: int)
    requires Listed(node, b, head, c) && 0 <= k < |c|
    ensures c[k] in node && node[c[k]].bucket == b
    ensures node[c[k]].next == if k + 1 < |c| then c[k + 1] else NULL
    ensures k > 0 ==> c[k - 1] in node && node[c[k - 1]].bucket == b && c[k - 1] != c[k]
  {
  }

  lemma InWithout(c: seq<int>, k: int, x: int)
    requires 0 <= k < |c| && x in c && x != c[k]
    ensures x in Without(c, k)
  {
    var j :| 0 <= j < |c| && c[j] == x;
    assert Without(c, k)[if j < k then j else j - 1] == x;
  }

  /** Unlinking entry k of a bucket's list. */
  lemma BucketedRemove(node: map<int, HashNode>, bucket: seq<int>, chain: seq<seq<int>>, b: int, k: int,
                       node': map<int, HashNode>, bucket': seq<int>)
    requires Bucketed(node, bucket, chain) && 0 <= b < HASH_SIZE && 0 <= k < |chain[b]|
    requires chain[b][k] in node && (k > 0 ==> chain[b][k - 1] in node)
    requires var c := chain[b]; var n := node[c[k]];
             && node' == (if k == 0 then node else node[c[k - 1] := node[c[k - 1]].(next := n.next)]) - {c[k]}
             && bucket' == (if k == 0 then bucket[b := n.next] else bucket)
    ensures Bucketed(node', bucket', chain[b := Without(chain[b], k)])
  {
    hide Listed, Without, Distinct;
    var c := chain[b];
    ListedEntry(node, b, bucket[b], c, k);
    ListedRemove(node, b, bucket[b], c, k);
    forall i | 0 <= i < HASH_SIZE && i != b
      ensures Listed(node', i, bucket'[i], chain[i])
    {
      ListedFrame(node, node', i, bucket[i], chain[i]);
    }
    forall x | x in node'
      ensures 0 <= node'[x].bucket < HASH_SIZE && x in chain[b := Without(c, k)][node'[x].bucket]
    {
      if node[x].bucket == b { InWithout(c, k, x); }
    }
  }

  lemma ListedRemove(node: map<int, HashNode>, b: int, head: int, c: seq<int>, k: int)
    requires Listed(node, b, head, c) && 0 <= k < |c|
    ensures var n := node[c[k]];
            var node' := (if k == 0 then node else node[c[k - 1] := node[c[k - 1]].(next := n.next)]) - {c[k]};
            Listed(node', b, if k == 0 then n.next else head, Without(c, k))
  {
    var d := Without(c, k);
    var n := node[c[k]];
    var node' := (if k == 0 then node else node[c[k - 1] := node[c[k - 1]].(next := n.next)]) - {c[k]};
    assert n.next == if k + 1 < |c| then c[k + 1] else NULL;
    assert forall j :: 0 <= j < |d| ==> d[j] == c[if j < k then j else j + 1];
  }

  lemma IndexedKeys(node: map<int, HashNode>, texts: map<int, string>, index: map<string, int>, lines: map<int, Line>)
    requires Indexed(node, texts, index, lines)
    ensures lines.Keys == node.Keys
  {
  }

  lemma IndexedAt(node: map<int, HashNode>, texts: map<int, string>, index: map<string, int>,
                  lines: map<int, Line>, a: int)
    requires Indexed(node, texts, index, lines) && a in node
    ensures a in lines && NodeOk(a, node[a], texts, index, lines[a])
  {
  }

  lemma IndexedInsert(node: map<int, HashNode>, texts: map<int, string>, index: map<string, int>, lines: map<int, Line>,
                      a: int, n: HashNode, t: string)
    requires Indexed(node, texts, index, lines) && a !in node && n.head !in texts && t !in index
    requires n.len == |t| && n.used >= 1 && n.bucket == BucketOf(t)
    ensures Indexed(node[a := n], texts[n.head := t], index[t := a], lines[a := Line(t, n.used)])
  {
    var node', texts', index', lines' := node[a := n], texts[n.head := t], index[t := a], lines[a := Line(t, n.used)];
    forall x | x in node'
      ensures NodeOk(x, node'[x], texts', index', lines'[x])
    {
      assert x != a ==> NodeOk(x, node[x], texts, index, lines[x]);
    }
    forall h | h in texts'
      ensures ChainHeld(h, texts'[h], node', index')
    {
      assert h != n.head ==> ChainHeld(h, texts[h], node, index);
    }
    forall u | u in index'
      ensures TextHeld(u, index', lines')
    {
      assert u != t ==> TextHeld(u, index, lines);
    }
  }

  /** Changing the reference count of a line. */
  lemma IndexedUsed(node: map<int, HashNode>, texts: map<int, string>, index: map<string, int>, lines: map<int, Line>,
                    a: int, used: int)
    requires Indexed(node, texts, index, lines) && a in node && used >= 1
    ensures Indexed(node[a := node[a].(used := used)], texts, index, lines[a := lines[a].(used := used)])
  {
    var node', lines' := node[a := node[a].(used := used)], lines[a := lines[a].(used := used)];
    forall x | x in node'
      ensures NodeOk(x, node'[x], texts, index, lines'[x])
    {
      assert NodeOk(x, node[x], texts, index, lines[x]);
    }
    forall h | h in texts
      ensures ChainHeld(h, texts[h], node', index)
    {
      assert ChainHeld(h, texts[h], node, index);
    }
    forall u | u in index
      ensures TextHeld(u, index, lines')
    {
      assert TextHeld(u, index, lines);
    }
  }

  /** Deleting a node and its line, whatever happens to the links of the others. */
  lemma IndexedRemove(node: map<int, HashNode>, node': map<int, HashNode>, texts: map<int, string>,
                      index: map<string, int>, lines: map<int, Line>, a: int)
    requires Indexed(node, texts, index, lines) && a in node && node'.Keys == node.Keys - {a}
    requires forall x :: x in node' ==> node'[x].(next := node[x].next) == node[x]
    ensures node[a].head in texts && texts[node[a].head] == lines[a].text
    ensures Indexed(node', texts - {node[a].head}, index - {lines[a].text}, lines - {a})
  {
    var t, head := lines[a].text, node[a].head;
    assert NodeOk(a, node[a], texts, index, lines[a]);
    var texts', index', lines' := texts - {head}, index - {t}, lines - {a};
    forall x | x in node'
      ensures NodeOk(x, node'[x], texts', index', lines'[x])
    {
      assert NodeOk(x, node[x], texts, index, lines[x]);
    }
    forall h | h in texts'
      ensures ChainHeld(h, texts'[h], node', index')
    {
      assert ChainHeld(h, texts[h], node, index);
    }
    forall u | u in index'
      ensures TextHeld(u, index', lines')
    {
      assert TextHeld(u, index, lines);
    }
  }

  lemma BucketedEntry(node: map<int, HashNode>, bucket: seq<int>, chain: seq<seq<int>>, a: int) returns (k: int)
    requires Bucketed(node, bucket, chain) && a in node
    ensures |chain| == HASH_SIZE && 0 <= node[a].bucket < HASH_SIZE
    ensures 0 <= k < |chain[node[a].bucket]| && chain[node[a].bucket][k] == a
  {
    assert a in chain[node[a].bucket];
    k :| 0 <= k < |chain[node[a].bucket]| && chain[node[a].bucket][k] == a;
  }

  lemma BucketedList(node: map<int, HashNode>, bucket: seq<int>, chain: seq<seq<int>>, b: int)
    requires Bucketed(node, bucket, chain) && 0 <= b < HASH_SIZE
    ensures |bucket| == |chain| == HASH_SIZE && Listed(node, b, bucket[b], chain[b])
    ensures bucket[b] == if chain[b] == [] then NULL else chain[b][0]
    ensures NULL !in node && Distinct(chain[b])
  {
  }

  /** Changing the count of references only. */
  lemma BucketedUsed(node: map<int, HashNode>, bucket: seq<int>, chain: seq<seq<int>>, a: int, used: int)
    requires Bucketed(node, bucket, chain) && a in node
    ensures Bucketed(node[a := node[a].(used := used)], bucket, chain)
  {
    var node' := node[a := node[a].(used := used)];
    forall b | 0 <= b < HASH_SIZE
      ensures Listed(node', b, bucket[b], chain[b])
    {
      assert Listed(node, b, bucket[b], chain[b]);
    }
  }

  /** While the lines are copied to another buffer: `nd` are the nodes before, and `done` are
      the nodes whose lines have been copied, under the new first segments in `tx`. */
  ghost predicate Moved(nd: map<int, HashNode>, node: map<int, HashNode>, done: set<int>,
                        tx: map<int, string>, index: map<string, int>, lines: map<int, Line>) {
    && node.Keys == nd.Keys == lines.Keys && done <= nd.Keys
    && (forall x :: x in nd ==> MovedNode(nd[x], node[x], x in done, tx, lines[x]))
    && (forall h :: h in tx ==> MovedChain(h, tx[h], node, done, index))
  }

  ghost predicate MovedNode(n0: HashNode, n: HashNode, done: bool, tx: map<int, string>, line: Line) {
    && n.(head := n0.head) == n0
    && (if done then n.head in tx && tx[n.head] == line.text else n == n0)
  }

  ghost predicate MovedChain(h: int, t: string, node: map<int, HashNode>, done: set<int>, index: map<string, int>) {
    t in index && index[t] in done && index[t] in node && node[index[t]].head == h
  }

  lemma MovedStep(nd: map<int, HashNode>, node: map<int, HashNode>, done: set<int>, tx: map<int, string>,
                  index: map<string, int>, lines: map<int, Line>, a: int, at: int)
    requires Moved(nd, node, done, tx, index, lines) && a in nd && a !in done && at !in tx
    requires lines[a].text in index && index[lines[a].text] == a
    ensures Moved(nd, node[a := node[a].(head := at)], done + {a}, tx[at := lines[a].text], index, lines)
  {
    var node', done', tx' := node[a := node[a].(head := at)], done + {a}, tx[at := lines[a].text];
    forall x | x in nd
      ensures MovedNode(nd[x], node'[x], x in done', tx', lines[x])
    {
      assert MovedNode(nd[x], node[x], x in done, tx, lines[x]);
    }
    forall h | h in tx'
      ensures MovedChain(h, tx'[h], node', done', index)
    {
      assert h != at ==> MovedChain(h, tx[h], node, done, index);
    }
  }

  lemma MovedAll(nd: map<int, HashNode>, node: map<int, HashNode>, texts: map<int, string>, tx: map<int, string>,
                 index: map<string, int>, lines: map<int, Line>)
    requires Moved(nd, node, nd.Keys, tx, index, lines) && Indexed(nd, texts, index, lines)
    ensures Indexed(node, tx, index, lines)
  {
    forall x | x in node
      ensures NodeOk(x, node[x], tx, index, lines[x])
    {
      assert MovedNode(nd[x], node[x], true, tx, lines[x]);
      assert NodeOk(x, nd[x], texts, index, lines[x]);
    }
    forall h | h in tx
      ensures ChainHeld(h, tx[h], node, index)
    {
      assert MovedChain(h, tx[h], node, nd.Keys, index);
    }
  }

  lemma MovedBuckets(nd: map<int, HashNode>, node: map<int, HashNode>, done: set<int>, tx: map<int, string>,
                     index: map<string, int>, lines: map<int, Line>, bucket: seq<int>, chain: seq<seq<int>>)
    requires Moved(nd, node, done, tx, index, lines) && Bucketed(nd, bucket, chain)
    ensures Bucketed(node, bucket, chain)
  {
    forall x | x in nd
      ensures node[x].(head := nd[x].head) == nd[x]
    {
      assert MovedNode(nd[x], node[x], x in done, tx, lines[x]);
    }
    forall b | 0 <= b < HASH_SIZE
      ensures Listed(node, b, bucket[b], chain[b])
    {
      assert Listed(nd, b, bucket[b], chain[b]);
    }
  }

  lemma MovedNone(nd: map<int, HashNode>, index: map<string, int>, lines: map<int, Line>)
    requires lines.Keys == nd.Keys
    ensures Moved(nd, nd, {}, map[], index, lines) && Heads(nd, {}) == {}
  {
  }

  lemma OccupiedNone(l: Layout)
    ensures |Occupied(l, {})| == 0
  {
    assert Occupied(l, {}) == {};
  }

  lemma HeadsAll(nd: map<int, HashNode>, texts: map<int, string>, index: map<string, int>, lines: map<int, Line>)
    requires Indexed(nd, texts, index, lines)
    ensures Heads(nd, nd.Keys) == texts.Keys
  {
    forall x | x in nd
      ensures nd[x].head in texts
    {
      assert NodeOk(x, nd[x], texts, index, lines[x]);
    }
    forall h | h in texts
      ensures h in Heads(nd, nd.Keys)
    {
      assert ChainHeld(h, texts[h], nd, index);
      var x := index[texts[h]];
      assert x in nd.Keys && nd[x].head == h;
    }
  }

  /** The first segments, in the old buffer, of the lines of the nodes `done`. */
  ghost function Heads(nd: map<int, HashNode>, done: set<int>): set<int> {
    set x | x in done && x in nd :: nd[x].head
  }

  lemma HeadsStep(nd: map<int, HashNode>, texts: map<int, string>, index: map<string, int>, lines: map<int, Line>,
                  done: set<int>, a: int)
    requires Indexed(nd, texts, index, lines) && a in nd && a !in done && done <= nd.Keys
    ensures nd[a].head !in Heads(nd, done)
    ensures Heads(nd, done + {a}) == Heads(nd, done) + {nd[a].head}
  {
    forall x | x in done
      ensures nd[x].head != nd[a].head
    {
      assert NodeOk(x, nd[x], texts, index, lines[x]);
      assert NodeOk(a, nd[a], texts, index, lines[a]);
    }
  }

  /** The nodes of bucket number i, and the first k entries of the list of the next one. */
  ghost function Visited(chain: seq<seq<int>>, i: int, k: int): set<int>
    requires 0 <= i <= |chain| && 0 <= k && (if i < |chain| then k <= |chain[i]| else k == 0)
  {
    (set b, x | 0 <= b < i && x in chain[b] :: x) + (if i < |chain| then set x | x in chain[i][..k] else {})
  }

  lemma VisitedStep(node: map<int, HashNode>, bucket: seq<int>, chain: seq<seq<int>>, i: int, k: int)
    requires Bucketed(node, bucket, chain) && 0 <= i < HASH_SIZE && 0 <= k < |chain[i]|
    ensures chain[i][k] !in Visited(chain, i, k) && chain[i][k] in node
    ensures Visited(chain, i, k + 1) == Visited(chain, i, k) + {chain[i][k]}
  {
    var c := chain[i];
    assert Listed(node, i, bucket[i], c);
    assert c[..k + 1] == c[..k] + [c[k]];
    forall b | 0 <= b < i
      ensures c[k] !in chain[b]
    {
      assert Listed(node, b, bucket[b], chain[b]);
    }
  }

  lemma VisitedNext(chain: seq<seq<int>>, i: int)
    requires 0 <= i < |chain|
    ensures Visited(chain, i + 1, 0) == Visited(chain, i, |chain[i]|)
  {
    assert chain[i][..|chain[i]|] == chain[i];
    forall x | x in Visited(chain, i + 1, 0)
      ensures x in Visited(chain, i, |chain[i]|)
    {
      var b :| 0 <= b < i + 1 && x in chain[b];
    }
    forall x | x in Visited(chain, i, |chain[i]|)
      ensures x in Visited(chain, i + 1, 0)
    {
      assert exists b :: 0 <= b < i + 1 && x in chain[b];
    }
  }

  lemma VisitedAll(node: map<int, HashNode>, bucket: seq<int>, chain: seq<seq<int>>)
    requires Bucketed(node, bucket, chain)
    ensures Visited(chain, HASH_SIZE, 0) == node.Keys
    ensures Visited(chain, 0, 0) == {}
  {
    forall b, x | 0 <= b < HASH_SIZE && x in chain[b]
      ensures x in node
    {
      assert Listed(node, b, bucket[b], chain[b]);
    }
    forall x | x in node
      ensures x in Visited(chain, HASH_SIZE, 0)
    {
      assert x in chain[node[x].bucket];
    }
  }

  lemma NothingStored(node: map<int, HashNode>, texts: map<int, string>, index: map<string, int>, lines: map<int, Line>)
    requires Indexed(node, texts, index, lines) && lines == map[]
    ensures node == map[] && texts == map[] && index == map[]
  {
    assert forall h :: h in texts ==> ChainHeld(h, texts[h], node, index);
    assert forall t :: t in index ==> TextHeld(t, index, lines);
  }

  lemma ClearedBuckets(bucket: seq<int>, chain: seq<seq<int>>)
    requires |bucket| == |chain| == HASH_SIZE
    requires forall k :: 0 <= k < HASH_SIZE ==> bucket[k] == NULL && chain[k] == []
    ensures Bucketed(map[], bucket, chain)
  {
  }

  lemma ClearedIndex()
    ensures Indexed(map[], map[], map[], map[])
  {
  }

  class LineStore {
    const segs: SegmentPool
    const mem: FreeList
    const bucket: array<int>
    var node: map<int, HashNode>
    ghost var chain: seq<seq<int>>
    ghost var index: map<string, int>
    ghost var lines: map<int, Line>

    ghost predicate Valid()
      reads this, segs, segs.buffer, mem, bucket
    {
      && segs.Valid()
      && mem.Valid()
      && node.Keys == mem.busy
      && bucket.Length == |chain| == HASH_SIZE
      && Bucketed(node, bucket[..], chain)
      && Indexed(node, segs.texts, index, lines)
    }

    constructor (n: nat)
      ensures Valid() && lines == map[] && index == map[]
      ensures fresh(segs) && fresh(segs.buffer) && fresh(mem) && fresh(bucket)
      ensures segs.buffer.Length == n && segs.nbusy == 0
    {
      segs := new SegmentPool(n);
      mem := new FreeList(HASH_INCR);
      bucket := new int[HASH_SIZE](_ => NULL);
      node := map[];
      chain := seq(HASH_SIZE, _ => []);
      index := map[];
      lines := map[];
    }

    /** Distinct nodes store distinct texts. */
    lemma TextsAreUnique()
      requires Valid()
      ensures NULL !in lines
      ensures forall a :: a in lines ==> lines[a].text in index && index[lines[a].text] == a && lines[a].used >= 1
      ensures forall t :: t in index ==> TextHeld(t, index, lines)
    {
      forall a | a in lines
        ensures lines[a].text in index && index[lines[a].text] == a && lines[a].used >= 1
      {
        IndexedAt(node, segs.texts, index, lines, a);
      }
    }

    lemma SegmentsAddUp()
      requires Valid()
      ensures segs.nbusy + segs.nfree == segs.buffer.Length && segs.nfree >= 0
    {
    }

    /** The bucket of a line. */
    method FindBucket(line: string) returns (b: int)
      ensures b == BucketOf(line)
    {
      var h := 0;
      for i := 0 to |line|
        invariant h == Hash(line, i)
      {
        h := (65599 * h + line[i] as int) % ULONG_RANGE;
      }
      b := h % HASH_SIZE;
    }

    /** Is `line` the text of a node? */
    method IsLine(a: int, line: string) returns (same: bool)
      requires Valid() && a in lines
      ensures same <==> lines[a].text == line
    {
      hide SegmentPool.Valid, Bucketed, Indexed, FreeList.Valid;
      IndexedKeys(node, segs.texts, index, lines);
      IndexedAt(node, segs.texts, index, lines, a);
      same := segs.IsLine(node[a].head, node[a].len, line);
    }

    /** Copy the text of a node to a buffer of which `dim` characters may be written. */
    method ReturnLine(a: int, line: array<char>, dim: int)
      requires Valid() && a in lines && 1 <= dim <= line.Length
      modifies line
      ensures CString(line[..]) == Truncated(lines[a].text, dim)
    {
      hide SegmentPool.Valid, Bucketed, Indexed, FreeList.Valid;
      IndexedKeys(node, segs.texts, index, lines);
      IndexedAt(node, segs.texts, index, lines, a);
      segs.ReturnLine(node[a].head, line, dim);
    }

    /** Does the text of a node start with the wildcard-free text of another one? */
    method MatchesPrefix(a: int, prefix: int) returns (matches: bool)
      requires Valid() && a in lines && (prefix == NULL || prefix in lines)
      requires prefix != NULL ==> !HasGlob(Delivered(lines[prefix].text), 0)
      ensures matches <==> prefix == NULL || lines[prefix].text <= lines[a].text
    {
      hide SegmentPool.Valid, Bucketed, Indexed, FreeList.Valid;
      if prefix == NULL {
        return true;
      }
      IndexedKeys(node, segs.texts, index, lines);
      IndexedAt(node, segs.texts, index, lines, a);
      IndexedAt(node, segs.texts, index, lines, prefix);
      var glob := segs.ContainsGlob(node[prefix].head);
      assert !glob;
      matches := segs.MatchesPrefix(node[a].head, node[a].len, node[prefix].head, node[prefix].len);
    }

    /** The node that stores a line, if any. */
    method Find(line: string) returns (a: int)
      requires Valid()
      ensures a == if line in index then index[line] else NULL
      ensures line in index <==> a != NULL
      ensures a != NULL ==> a in lines && lines[a].text == line
    {
      hide Stores, FreeList.Valid;
      TextsAreUnique();
      var b := FindBucket(line);
      ghost var c := chain[b];
      ghost var k := 0;
      a := bucket[b];
      assert Listed(node, b, bucket[b], c);
      while a != NULL
        invariant 0 <= k <= |c| && a == (if k < |c| then c[k] else NULL)
        invariant line in index ==> index[line] !in c[..k]
        decreases |c| - k
      {
        ListedEntry(node, b, bucket[b], c, k);
        IndexedAt(node, segs.texts, index, lines, a);
        var same := segs.IsLine(node[a].head, node[a].len, line);
        if same {
          return;
        }
        assert c[..k + 1] == c[..k] + [a];
        a := node[a].next;
        k := k + 1;
      }
      assert c[..k] == c;
    }

    /** Store a line that is not stored yet, and for which there is room, with one reference. */
    method Insert(line: string) returns (a: int)
      requires Valid() && NoNul(line) && line !in index && Nseg(|line|) <= segs.nfree
      modifies this, segs, segs.buffer, mem, bucket
      ensures Valid() && segs.buffer == old(segs.buffer)
      ensures a !in old(lines) && a != NULL && lines == old(lines)[a := Line(line, 1)]
      ensures index == old(index)[line := a]
      ensures segs.nbusy == old(segs.nbusy) + Nseg(|line|)
    {
      hide Bucketed, Indexed, SegmentPool.Valid, FreeList.Valid, BucketOf, Nseg;
      IndexedKeys(node, segs.texts, index, lines);
      var b := FindBucket(line);
      ghost var tx := segs.texts;
      var head := segs.Store(line);
      a := mem.New();
      Link(a, b, head, line, tx);
    }

    /** Put a node for a line that was stored just now at the front of its bucket's list. */
    method Link(a: int, b: int, head: int, line: string, ghost tx: map<int, string>)
      requires segs.Valid() && mem.Valid() && node.Keys + {a} == mem.busy && a !in node && a != NULL
      requires bucket.Length == |chain| == HASH_SIZE && Bucketed(node, bucket[..], chain)
      requires line !in index && b == BucketOf(line) && head !in tx && segs.texts == tx[head := line]
      requires Indexed(node, tx, index, lines) && lines.Keys == node.Keys
      modifies this`node, this`chain, this`index, this`lines, bucket
      ensures Valid() && lines == old(lines)[a := Line(line, 1)] && index == old(index)[line := a]
    {
      hide Bucketed, Indexed, SegmentPool.Valid, FreeList.Valid, BucketOf;
      var n := HashNode(b, bucket[b], head, |line|, 1);
      BucketedInsert(node, bucket[..], chain, a, n);
      IndexedInsert(node, tx, index, lines, a, n, line);
      ghost var bk := bucket[..];
      node := node[a := n];
      bucket[b] := a;
      assert bucket[..] == bk[b := a];
      chain := chain[b := [a] + chain[b]];
      index := index[line := a];
      lines := lines[a := Line(line, 1)];
    }

    /** Count one more reference to a line. */
    method Ref(a: int)
      requires Valid() && a in lines
      modifies this`node, this`lines
      ensures Valid() && lines == old(lines)[a := old(lines)[a].(used := old(lines)[a].used + 1)]
    {
      hide Bucketed, Indexed, SegmentPool.Valid, FreeList.Valid;
      IndexedKeys(node, segs.texts, index, lines);
      IndexedAt(node, segs.texts, index, lines, a);
      var used := node[a].used + 1;
      IndexedUsed(node, segs.texts, index, lines, a, used);
      BucketedUsed(node, bucket[..], chain, a, used);
      node := node[a := node[a].(used := used)];
      lines := lines[a := lines[a].(used := used)];
    }

    /** Take the node `a` off the list of its bucket. */
    method Unlink(a: int, ghost k: int)
      requires Bucketed(node, bucket[..], chain) && bucket.Length == HASH_SIZE == |chain|
      requires a in node && 0 <= node[a].bucket < HASH_SIZE
      requires 0 <= k < |chain[node[a].bucket]| && chain[node[a].bucket][k] == a
      modifies this`node, this`chain, bucket
      ensures Bucketed(node, bucket[..], chain) && |chain| == HASH_SIZE
      ensures node.Keys == old(node).Keys - {a}
      ensures forall x :: x in node ==> node[x].(next := old(node)[x].next) == old(node)[x]
    {
      hide Bucketed, Listed, Distinct;
      var b := node[a].bucket;
      ghost var c, bk, nd := chain[b], bucket[..], node;
      BucketedList(node, bk, chain, b);
      ListedEntry(node, b, bk[b], c, 0);
      ListedEntry(node, b, bk[b], c, k);
      BucketedRemove(node, bk, chain, b, k,
        (if k == 0 then node else node[c[k - 1] := node[c[k - 1]].(next := node[a].next)]) - {a},
        if k == 0 then bk[b := node[a].next] else bk);
      if bucket[b] == a {
        bucket[b] := node[a].next;
      } else {
        var prev := FindPrev(a, b, k);
        node := node[prev := node[prev].(next := node[a].next)];
      }
      node := node - {a};
      chain := chain[b := Without(c, k)];
    }

    /** The node that precedes entry k > 0 of a bucket's list. */
    method FindPrev(a: int, b: int, ghost k: int) returns (prev: int)
      requires Bucketed(node, bucket[..], chain) && bucket.Length == HASH_SIZE == |chain|
      requires 0 <= b < HASH_SIZE && 0 < k < |chain[b]| && chain[b][k] == a
      ensures prev == chain[b][k - 1]
    {
      ghost var c := chain[b];
      BucketedList(node, bucket[..], chain, b);
      hide Bucketed;
      ListedEntry(node, b, bucket[b], c, 0);
      prev := bucket[b];
      ghost var j := 0;
      while prev != NULL && node[prev].next != a
        invariant 0 <= j < k && prev == c[j] && prev in node
        decreases k - j
      {
        ListedEntry(node, b, bucket[b], c, j);
        ListedEntry(node, b, bucket[b], c, j + 1);
        prev := node[prev].next;
        j := j + 1;
      }
      ListedEntry(node, b, bucket[b], c, j);
    }

    /** Drop a reference to a line, and the line itself with its last reference. */
    method Unref(a: int)
      requires Valid() && a in lines
      modifies this, segs, segs.buffer, mem, bucket
      ensures Valid() && segs.buffer == old(segs.buffer)
      ensures old(lines)[a].used > 1 ==>
                lines == old(lines)[a := old(lines)[a].(used := old(lines)[a].used - 1)] &&
                index == old(index) && segs.nbusy == old(segs.nbusy)
      ensures old(lines)[a].used == 1 ==>
                lines == old(lines) - {a} && index == old(index) - {old(lines)[a].text} &&
                segs.nbusy == old(segs.nbusy) - Nseg(|old(lines)[a].text|)
    {
      hide Bucketed, Indexed, SegmentPool.Valid, FreeList.Valid, Nseg, BucketOf;
      IndexedKeys(node, segs.texts, index, lines);
      IndexedAt(node, segs.texts, index, lines, a);
      if node[a].used - 1 >= 1 {
        var used := node[a].used - 1;
        IndexedUsed(node, segs.texts, index, lines, a, used);
        BucketedUsed(node, bucket[..], chain, a, used);
        node := node[a := node[a].(used := used)];
        lines := lines[a := lines[a].(used := used)];
        return;
      }
      Delete(a);
    }

    /** Delete a line. */
    method Delete(a: int)
      requires Valid() && a in lines
      modifies this, segs, segs.buffer, mem, bucket
      ensures Valid() && segs.buffer == old(segs.buffer)
      ensures lines == old(lines) - {a} && index == old(index) - {old(lines)[a].text}
      ensures segs.nbusy == old(segs.nbusy) - Nseg(|old(lines)[a].text|)
    {
      hide Bucketed, Indexed, SegmentPool.Valid, FreeList.Valid, Nseg, BucketOf, Listed;
      IndexedKeys(node, segs.texts, index, lines);
      IndexedAt(node, segs.texts, index, lines, a);
      var head := node[a].head;
      Forget(a);
      segs.Release(head);
      mem.Del(a);
    }

    /** Take a node off the list of its bucket, and off the index. */
    method Forget(a: int)
      requires a in node && bucket.Length == |chain| == HASH_SIZE
      requires Bucketed(node, bucket[..], chain) && Indexed(node, segs.texts, index, lines)
      requires a in lines
      modifies this, bucket
      ensures node.Keys == old(node).Keys - {a} && |chain| == HASH_SIZE && Bucketed(node, bucket[..], chain)
      ensures Indexed(node, segs.texts - {old(node)[a].head}, index, lines)
      ensures lines == old(lines) - {a} && index == old(index) - {old(lines)[a].text}
    {
      hide Bucketed, Indexed, SegmentPool.Valid, FreeList.Valid, BucketOf, Listed;
      IndexedAt(node, segs.texts, index, lines, a);
      ghost var k := BucketedEntry(node, bucket[..], chain, a);
      ghost var nd := node;
      Unlink(a, k);
      IndexedRemove(nd, node, segs.texts, index, lines, a);
      index := index - {lines[a].text};
      lines := lines - {a};
    }

    /** The state of copying the lines to the buffer `b`. */
    ghost predicate Moving(b: seq<Seg>, at: int, nd: map<int, HashNode>, done: set<int>, l: Layout,
                           tx: map<int, string>)
      reads this`node, this`index, this`lines, segs`layout
    {
      && Packed(b, at, l, tx)
      && Moved(nd, node, done, tx, index, lines)
      && at == |Occupied(segs.layout, Heads(nd, done))|
    }

    /** Copy the line of one node. */
    method MoveLine(dst: array<Seg>, a: int, at: int, ghost nd: map<int, HashNode>, ghost done: set<int>,
                    ghost l: Layout, ghost tx: map<int, string>)
      returns (end: int, ghost l': Layout, ghost tx': map<int, string>)
      requires segs.Valid() && Indexed(nd, segs.texts, index, lines) && segs.nbusy <= dst.Length && dst != segs.buffer
      requires Moving(dst[..], at, nd, done, l, tx) && a in nd && a !in done
      modifies this`node, dst
      ensures Moving(dst[..], end, nd, done + {a}, l', tx')
    {
      hide Stores, Partition, Packed, Holds, Linked, Occupied, Nseg, BucketOf;
      IndexedAt(nd, segs.texts, index, lines, a);
      assert MovedNode(nd[a], node[a], false, tx, lines[a]);
      HeadsStep(nd, segs.texts, index, lines, done, a);
      OccupiedRoom(segs.buffer[..], segs.unused, segs.layout, segs.texts, Heads(nd, done), nd[a].head);
      ghost var b0 := dst[..];
      hide Indexed, Moved;
      end := segs.CopyLine(dst, node[a].head, at);
      PackedAppend(b0, dst[..], at, end, l, tx, lines[a].text);
      MovedStep(nd, node, done, tx, index, lines, a, at);
      node := node[a := node[a].(head := at)];
      l', tx' := Append(l, at, end), tx[at := lines[a].text];
    }

    /** Copy the lines of one bucket. */
    method MoveBucket(dst: array<Seg>, i: int, at: int, ghost nd: map<int, HashNode>,
                      ghost l: Layout, ghost tx: map<int, string>)
      returns (end: int, ghost l': Layout, ghost tx': map<int, string>)
      requires segs.Valid() && Indexed(nd, segs.texts, index, lines) && segs.nbusy <= dst.Length && dst != segs.buffer
      requires Bucketed(nd, bucket[..], chain) && bucket.Length == HASH_SIZE && 0 <= i < HASH_SIZE == |chain|
      requires Moving(dst[..], at, nd, Visited(chain, i, 0), l, tx)
      modifies this`node, dst
      ensures Moving(dst[..], end, nd, Visited(chain, i + 1, 0), l', tx')
    {
      hide SegmentPool.Valid, Indexed, Bucketed, Packed, Occupied, Visited, Listed, Distinct;
      ghost var c, bk := chain[i], bucket[..];
      BucketedList(nd, bk, chain, i);
      end, l', tx' := at, l, tx;
      var a := bucket[i];
      ghost var k := 0;
      while a != NULL
        invariant 0 <= k <= |c| && a == (if k < |c| then c[k] else NULL)
        invariant Moving(dst[..], end, nd, Visited(chain, i, k), l', tx')
        decreases |c| - k
      {
        ListedEntry(nd, i, bk[i], c, k);
        VisitedStep(nd, bk, chain, i, k);
        if k + 1 < |c| { ListedEntry(nd, i, bk[i], c, k + 1); }
        end, l', tx' := MoveLine(dst, a, end, nd, Visited(chain, i, k), l', tx');
        assert MovedNode(nd[a], node[a], true, tx', lines[a]);
        a := node[a].next;
        k := k + 1;
      }
      VisitedNext(chain, i);
    }

    /** Move the lines to a buffer of another size that has room for them. */
    method Resize(nbuff: nat)
      requires Valid() && segs.nbusy <= nbuff
      modifies this, segs, segs.buffer
      ensures Valid() && fresh(segs.buffer) && segs.buffer.Length == nbuff
      ensures lines == old(lines) && index == old(index) && segs.nbusy == old(segs.nbusy)
    {
      hide SegmentPool.Valid, FreeList.Valid, Indexed, Bucketed, Packed, Visited, Listed, Distinct, Moved, Occupied;
      var dst := new Seg[nbuff](_ => Seg(NULL, seq(SEG_SIZE, _ => NUL)));
      ghost var nd, bk := node, bucket[..];
      ghost var l, tx := NothingPacked(), map[];
      PackedNothing(dst[..]);
      IndexedKeys(node, segs.texts, index, lines);
      MovedNone(nd, index, lines);
      VisitedAll(nd, bk, chain);
      OccupiedNone(segs.layout);
      var at := 0;
      for i := 0 to HASH_SIZE
        invariant Moving(dst[..], at, nd, Visited(chain, i, 0), l, tx)
        modifies this`node, dst
      {
        at, l, tx := MoveBucket(dst, i, at, nd, l, tx);
      }
      HeadsAll(nd, segs.texts, index, lines);
      segs.AllOccupied();
      MovedAll(nd, node, segs.texts, tx, index, lines);
      MovedBuckets(nd, node, nd.Keys, tx, index, lines, bk, chain);
      segs.Install(dst, at, l, tx);
    }

    /** Allocate a buffer, when nothing is stored. */
    method Allocate(nbuff: nat)
      requires Valid() && lines == map[]
      modifies segs
      ensures Valid() && fresh(segs.buffer) && segs.buffer.Length == nbuff && segs.nbusy == 0
    {
      hide SegmentPool.Valid, FreeList.Valid, Bucketed, Packed, Listed, Distinct;
      NothingStored(node, segs.texts, index, lines);
      var dst := new Seg[nbuff](_ => Seg(NULL, seq(SEG_SIZE, _ => NUL)));
      PackedNothing(dst[..]);
      segs.Install(dst, 0, NothingPacked(), map[]);
    }

    /** Forget every line. */
    method Clear()
      requires Valid()
      modifies this, segs, segs.buffer, mem, bucket
      ensures Valid() && lines == map[] && index == map[]
      ensures segs.buffer == old(segs.buffer) && segs.nbusy == 0
    {
      hide SegmentPool.Valid, FreeList.Valid, Bucketed, Indexed;
      var i := 0;
      while i < HASH_SIZE
        invariant 0 <= i <= HASH_SIZE && forall k :: 0 <= k < i ==> bucket[k] == NULL
        modifies bucket
      {
        bucket[i] := NULL;
        i := i + 1;
      }
      mem.Reset();
      segs.Clear();
      node, chain, index, lines := map[], seq(HASH_SIZE, _ => []), map[], map[];
      ClearedBuckets(bucket[..], chain);
      ClearedIndex();
    }

    /** Does segment i hold a part of the line of node a? */
    ghost predicate Holding(a: int, i: int)
      reads this`node, segs`layout
    {
      a in node && node[a].head in segs.layout.chains && i in segs.layout.chains[node[a].head]
    }

    /** Every segment is unused or holds a part of the line of exactly one node. */
    lemma SegmentsPartitioned(i: int)
      requires Valid() && 0 <= i < segs.buffer.Length
      ensures i in segs.layout.free <==> forall a :: a in node ==> !Holding(a, i)
      ensures forall a, b :: a in node && b in node && Holding(a, i) && Holding(b, i) ==> a == b
    {
      hide SegmentPool.Valid, FreeList.Valid, Bucketed, Partition;
      segs.PlaceOfSegment(i);
      forall a | a in node && Holding(a, i)
        ensures segs.layout.owner[i] == node[a].head && i !in segs.layout.free
        ensures segs.texts[node[a].head] in index && index[segs.texts[node[a].head]] == a
      {
        IndexedAt(node, segs.texts, index, lines, a);
        segs.OwnerOfSegment(node[a].head, i);
      }
      if i !in segs.layout.free {
        var h := segs.layout.owner[i];
        assert ChainHeld(h, segs.texts[h], node, index);
        assert Holding(index[segs.texts[h]], i);
      }
    }

    /** A stored line of n characters occupies just as many segments as n + 1 characters need,
        and they hold it. */
    lemma StoredLine(a: int)
      requires Valid() && a in lines
      ensures a in node && node[a].head in segs.layout.chains
      ensures var c := segs.layout.chains[node[a].head];
              |c| == (|lines[a].text| + 1 + SEG_SIZE - 1) / SEG_SIZE && Holds(segs.buffer[..], c, lines[a].text)
    {
      hide SegmentPool.Valid, FreeList.Valid, Bucketed;
      IndexedAt(node, segs.texts, index, lines, a);
      segs.HoldsText(node[a].head);
    }
  }
}
