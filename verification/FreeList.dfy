/** Free-lists of fixed-size nodes, as kept by libtecla/freelist.c.
    A node's address is its index among all the nodes the list has ever obtained from the
    system; each block of the list owns `blockingFactor` consecutive addresses. The null
    pointer is -1. */
module FreeLists {
  import opened Basics

  /** `c` is the sequence of nodes met when following `link` from `head`. */
  ghost predicate Threaded(link: seq<int>, head: int, c: seq<int>) {
    && (forall k :: 0 <= k < |c| ==> 0 <= c[k] < |link|)
    && head == (if c == [] then NULL else c[0])
    && (forall j, k :: 0 <= j < |c| - 1 && k == j + 1 ==> link[c[j]] == c[k])
    && (c != [] ==> link[c[|c| - 1]] == NULL)
  }

  /** Every address below `n` is either free or busy, and no address is listed twice. */
  ghost predicate Split(free: seq<int>, busy: set<int>, n: int) {
    && Distinct(free)
    && |busy| + |free| == n
    && (forall a :: a in free ==> 0 <= a < n && a !in busy)
    && (forall a :: a in busy ==> 0 <= a < n)
    && (forall a :: 0 <= a < n ==> a in busy || a in free)
  }

  lemma SplitTake(free: seq<int>, busy: set<int>, n: int)
    requires Split(free, busy, n) && free != []
    ensures Split(free[1..], busy + {free[0]}, n)
  {
    var rest, busy' := free[1..], busy + {free[0]};
    assert free[0] in free;
    forall a | a in rest
      ensures 0 <= a < n && a !in busy'
    {
      var k :| 0 <= k < |rest| && rest[k] == a;
      assert free[k + 1] == a;
      assert a in free;
    }
    forall a | 0 <= a < n
      ensures a in busy' || a in rest
    {
      if a !in busy {
        var k :| 0 <= k < |free| && free[k] == a;
        assert k > 0 ==> rest[k - 1] == a;
      }
    }
  }

  lemma SplitPut(free: seq<int>, busy: set<int>, n: int, a: int)
    requires Split(free, busy, n) && a in busy
    ensures Split([a] + free, busy - {a}, n)
  {
    var free' := [a] + free;
    assert forall k :: 1 <= k < |free'| ==> free'[k] in free;
  }

  lemma SplitGrow(busy: set<int>, n: int, m: int)
    requires Split([], busy, n) && n <= m
    ensures Split(Range(n, m), busy, m)
  {
  }

  lemma ThreadedRange(link: seq<int>, lo: int, hi: int)
    requires 0 <= lo < hi <= |link| && link[hi - 1] == NULL
    requires forall a :: lo <= a < hi - 1 ==> link[a] == a + 1
    ensures Threaded(link, lo, Range(lo, hi))
  {
  }

  /** The nodes of the block that starts at address `block` are chained in address order. */
  ghost predicate Chained(link: seq<int>, block: int, bf: int)
    requires 0 <= block && block + bf <= |link|
  {
    forall a :: block <= a < block + bf - 1 ==> link[a] == a + 1
  }

  /** The nodes from address `lo` up form one chain in address order. */
  ghost predicate Rethreaded(link: seq<int>, lo: int) {
    && 0 <= lo
    && (forall a :: lo <= a < |link| - 1 ==> link[a] == a + 1)
    && (lo < |link| ==> link[|link| - 1] == NULL)
  }

  lemma LinkStep(link: seq<int>, lo: int, bf: int)
    requires bf >= 1 && bf <= lo <= |link|
    requires Rethreaded(link, lo) && Chained(link, lo - bf, bf)
    ensures Rethreaded(link[lo - 1 := if lo == |link| then NULL else lo], lo - bf)
  {
  }

  /** The bases of blocks that descend to 0 in steps of a block, as the block list does. */
  ghost predicate Descending(blocks: seq<int>, bf: int) {
    && bf >= 1
    && blocks != []
    && blocks[|blocks| - 1] == 0
    && (forall j, k :: 0 <= j < |blocks| - 1 && k == j + 1 ==> blocks[j] == blocks[k] + bf)
  }

  /** Blocks do not overlap. */
  lemma Apart(blocks: seq<int>, bf: int, j: int, k: int)
    requires Descending(blocks, bf) && 0 <= j < k < |blocks|
    ensures blocks[k] + bf <= blocks[j]
    decreases k
  {
    if j < k - 1 { Apart(blocks, bf, j, k - 1); }
  }

  class FreeList {
    const blockingFactor: int
    var nbusy: int
    var ntotal: int
    var blocks: seq<int>    // the first address of each block, newest block first
    var link: seq<int>      // the link field of every node; meaningless while the node is in use
    var freeList: int       // the first unused node
    ghost var free: seq<int>
    ghost var busy: set<int>

    ghost predicate BlocksOk()
      reads this`blocks, this`ntotal, this`link
    {
      && Descending(blocks, blockingFactor)
      && ntotal == |link| == blocks[0] + blockingFactor
      && (forall k :: 0 <= k < |blocks| ==> 0 <= blocks[k] <= ntotal - blockingFactor)
    }

    /** Every node is in use or on the list of unused nodes, once. */
    ghost predicate Valid()
      reads this
    {
      && BlocksOk()
      && Threaded(link, freeList, free)
      && Split(free, busy, ntotal)
      && nbusy == |busy|
    }

    constructor (blockingFactor: int)
      ensures Valid() && busy == {}
      ensures this.blockingFactor == (if blockingFactor < 1 then 1 else blockingFactor)
      ensures ntotal == this.blockingFactor
    {
      this.blockingFactor := if blockingFactor < 1 then 1 else blockingFactor;
      nbusy := 0;
      ntotal := 0;
      blocks := [];
      link := [];
      freeList := NULL;
      busy := {};
      free := [];
      new;
      NewBlock();
      freeList := blocks[0];
      free := Range(0, ntotal);
      ThreadedRange(link, 0, ntotal);
    }

    /** Chain the nodes of one block together, in address order. */
    method ThreadBlock(block: int)
      requires blockingFactor >= 1 && 0 <= block && block + blockingFactor <= |link|
      modifies this`link
      ensures |link| == |old(link)|
      ensures forall a :: block <= a < block + blockingFactor - 1 ==> link[a] == a + 1
      ensures link[block + blockingFactor - 1] == NULL
      ensures forall a :: 0 <= a < |link| && !(block <= a < block + blockingFactor) ==> link[a] == old(link)[a]
    {
      var mem := block;
      var i := 0;
      while i < blockingFactor - 1
        invariant 0 <= i <= blockingFactor - 1 && mem == block + i && |link| == |old(link)|
        invariant forall a :: block <= a < mem ==> link[a] == a + 1
        invariant forall a :: 0 <= a < |link| && !(block <= a < mem) ==> link[a] == old(link)[a]
      {
        link := link[mem := mem + 1];
        i := i + 1;
        mem := mem + 1;
      }
      link := link[mem := NULL];
    }

    /** Obtain another block of nodes and chain them together. */
    method NewBlock()
      requires blockingFactor >= 1 && ntotal >= 0 && |link| == ntotal
      requires blocks == [] ==> ntotal == 0
      requires blocks != [] ==> BlocksOk()
      modifies this`link, this`ntotal, this`blocks
      ensures BlocksOk() && blocks == [old(ntotal)] + old(blocks)
      ensures ntotal == old(ntotal) + blockingFactor
      ensures forall a :: old(ntotal) <= a < ntotal - 1 ==> link[a] == a + 1
      ensures link[ntotal - 1] == NULL
    {
      var base := ntotal;
      link := link + seq(blockingFactor, _ => NULL);
      ThreadBlock(base);
      ntotal := ntotal + blockingFactor;
      blocks := [base] + blocks;
    }

    /** Take a node from the list, extending the list by a block only when it is exhausted. */
    method New() returns (node: int)
      requires Valid()
      modifies this
      ensures Valid()
      ensures node !in old(busy) && node >= 0 && busy == old(busy) + {node}
      ensures ntotal == old(ntotal) + (if old(Idle()) == 0 then blockingFactor else 0)
    {
      if freeList == NULL {
        assert free == [];
        ghost var base := ntotal;
        NewBlock();
        freeList := blocks[0];
        free := Range(base, ntotal);
        SplitGrow(busy, base, ntotal);
        ThreadedRange(link, base, ntotal);
      }
      SplitTake(free, busy, ntotal);
      node := freeList;
      freeList := link[node];
      nbusy := nbusy + 1;
      busy := busy + {node};
      free := free[1..];
    }

    /** Put a node back at the head of the list. */
    method Del(node: int)
      requires Valid() && (node == NULL || node in busy)
      modifies this`link, this`freeList, this`nbusy, this`busy, this`free
      ensures Valid() && busy == old(busy) - {node}
    {
      if node == NULL {
        return;
      }
      SplitPut(free, busy, ntotal, node);
      link := link[node := freeList];
      freeList := node;
      nbusy := nbusy - 1;
      busy := busy - {node};
      free := [node] + free;
    }

    /** The number of nodes that can be taken without asking the system for memory. */
    function Idle(): (n: int)
      requires Valid()
      reads this
      ensures n == |free| && n + |busy| == ntotal
    {
      ntotal - nbusy
    }

    /** Chain the nodes of every block, each block on its own. */
    method ThreadBlocks()
      requires BlocksOk()
      modifies this`link
      ensures BlocksOk() && forall j :: 0 <= j < |blocks| ==> Chained(link, blocks[j], blockingFactor)
    {
      var k := 0;
      while k < |blocks|
        invariant 0 <= k <= |blocks| && BlocksOk()
        invariant forall j :: 0 <= j < k ==> Chained(link, blocks[j], blockingFactor)
      {
        ghost var before := link;
        ThreadBlock(blocks[k]);
        forall j | 0 <= j < k
          ensures Chained(link, blocks[j], blockingFactor)
        {
          Apart(blocks, blockingFactor, j, k);
          assert Chained(before, blocks[j], blockingFactor);
        }
        k := k + 1;
      }
    }

    /** Reclaim every node, whether in use or not. */
    method Reset()
      requires Valid()
      modifies this`link, this`freeList, this`nbusy, this`busy, this`free
      ensures Valid() && busy == {}
    {
      ThreadBlocks();
      LinkBlocks();
      nbusy := 0;
      busy := {};
      free := Range(0, ntotal);
      ThreadedRange(link, 0, ntotal);
    }

    /** Join the separately chained blocks into one chain. */
    method LinkBlocks()
      requires BlocksOk() && forall j :: 0 <= j < |blocks| ==> Chained(link, blocks[j], blockingFactor)
      modifies this`link, this`freeList
      ensures BlocksOk() && freeList == 0
      ensures Rethreaded(link, 0)
    {
      freeList := NULL;
      var k := 0;
      ghost var lo := ntotal;
      while k < |blocks|
        invariant 0 <= k <= |blocks| && |link| == ntotal
        invariant lo == if k < |blocks| then blocks[k] + blockingFactor else 0
        invariant 0 <= lo <= ntotal && freeList == if lo == ntotal then NULL else lo
        invariant Rethreaded(link, lo)
        invariant forall j :: k <= j < |blocks| ==> Chained(link, blocks[j], blockingFactor)
      {
        var lastNode := blocks[k] + (blockingFactor - 1);
        LinkStep(link, lo, blockingFactor);
        forall j | k < j < |blocks|
          ensures Chained(link[lastNode := freeList], blocks[j], blockingFactor)
        {
          Apart(blocks, blockingFactor, k, j);
          assert Chained(link, blocks[j], blockingFactor);
        }
        link := link[lastNode := freeList];
        freeList := blocks[k];
        lo := blocks[k];
        k := k + 1;
      }
    }
  }
}
