/** The segmented output queue of libtecla/chrqueue.c. */
module CharQueues {
  import opened Basics
  import opened FreeLists
  import opened Writers

  datatype FlushState = Done | Again | Error

  datatype CqCharBuff = CqCharBuff(next: int, bytes: string)

  /** Node k of the list `nodes` is intact. */
  ghost predicate BuffOk(node: map<int, CqCharBuff>, nodes: seq<int>, k: int, size: int) {
    && 0 <= k < |nodes|
    && nodes[k] in node
    && |node[nodes[k]].bytes| == size
    && node[nodes[k]].next == (if k + 1 < |nodes| then nodes[k + 1] else NULL)
  }

  /** `nodes` is the list of all buffers, from `head` to `tail`. */
  ghost predicate Buffered(node: map<int, CqCharBuff>, head: int, tail: int, nodes: seq<int>, size: int) {
    && Distinct(nodes) && NULL !in node
    && (forall k :: 0 <= k < |nodes| ==> BuffOk(node, nodes, k, size))
    && (forall a :: a in node ==> a in nodes)
    && head == (if nodes == [] then NULL else nodes[0])
    && tail == (if nodes == [] then NULL else nodes[|nodes| - 1])
  }

  /** The bytes of all buffers, one after the other. */
  ghost function Bytes(node: map<int, CqCharBuff>, nodes: seq<int>): string {
    if nodes == [] then ""
    else (if nodes[0] in node then node[nodes[0]].bytes else "") + Bytes(node, nodes[1..])
  }

  /** The number of bytes at the end of the last buffer that have not been appended to. */
  function Slack(ntotal: int, size: int): int
    requires size >= 1
  {
    if ntotal % size == 0 then 0 else size - ntotal % size
  }

  /** The counters agree with the number of buffers. */
  ghost predicate Counts(all: string, nodes: seq<int>, nflush: int, ntotal: int, size: int)
    requires size >= 1
  {
    if nodes == [] then nflush == ntotal == 0
    else 0 <= nflush < ntotal && ntotal - nflush == |all| - nflush % size - Slack(ntotal, size)
  }

  /** The characters that have been appended and not flushed. */
  ghost function Queued(all: string, nodes: seq<int>, nflush: int, ntotal: int, size: int): (q: string)
    requires size >= 1 && Counts(all, nodes, nflush, ntotal, size)
    ensures |q| == ntotal - nflush && (nodes == [] <==> q == "")
  {
    if nodes == [] then "" else all[nflush % size..|all| - Slack(ntotal, size)]
  }

  lemma ModAdd(x: int, d: int, size: int)
    requires size >= 1 && 0 <= d && x % size + d <= size
    ensures (x + d) % size == if x % size + d == size then 0 else x % size + d
  {
    var q := x / size;
    if x % size + d == size {
      assert (q + 1) * size == q * size + size;
      DivModUnique(x + d, q + 1, 0, size);
    } else {
      DivModUnique(x + d, q, x % size + d, size);
    }
  }

  lemma BytesFrame(node: map<int, CqCharBuff>, node': map<int, CqCharBuff>, nodes: seq<int>)
    requires forall k :: 0 <= k < |nodes| ==> nodes[k] in node && nodes[k] in node'
    requires forall k :: 0 <= k < |nodes| ==> node'[nodes[k]].bytes == node[nodes[k]].bytes
    ensures Bytes(node', nodes) == Bytes(node, nodes)
  {
    if nodes != [] { BytesFrame(node, node', nodes[1..]); }
  }

  lemma {:induction false} BytesJoin(node: map<int, CqCharBuff>, a: seq<int>, b: seq<int>)
    ensures Bytes(node, a + b) == Bytes(node, a) + Bytes(node, b)
  {
    if a == [] {
      assert a + b == b;
    } else {
      assert (a + b)[0] == a[0] && (a + b)[1..] == a[1..] + b;
      BytesJoin(node, a[1..], b);
    }
  }

  lemma {:induction false} BytesSize(node: map<int, CqCharBuff>, nodes: seq<int>, size: int)
    requires size >= 1 && forall k :: 0 <= k < |nodes| ==> nodes[k] in node && |node[nodes[k]].bytes| == size
    ensures |nodes| == 1 ==> |Bytes(node, nodes)| == size
    ensures |nodes| >= 2 ==> |Bytes(node, nodes)| >= 2 * size
    ensures nodes != [] ==> Bytes(node, nodes)[..size] == node[nodes[0]].bytes
    ensures nodes != [] ==> Bytes(node, nodes)[size..] == Bytes(node, nodes[1..])
  {
    if nodes != [] {
      assert forall k :: 0 <= k < |nodes[1..]| ==> nodes[1..][k] == nodes[k + 1];
      BytesSize(node, nodes[1..], size);
    }
  }

  /** The number of bytes of the first buffer that have been appended to. */
  function HeadFill(tail: bool, ntotal: int, size: int): int
    requires size >= 1
  {
    if !tail || ntotal % size == 0 then size else ntotal % size
  }

  /** What the flush offers to the writer: the start of the queue. */
  lemma Offered(node: map<int, CqCharBuff>, nodes: seq<int>, nflush: int, ntotal: int, size: int)
    requires size >= 1 && nodes != []
    requires forall k :: 0 <= k < |nodes| ==> nodes[k] in node && |node[nodes[k]].bytes| == size
    requires Counts(Bytes(node, nodes), nodes, nflush, ntotal, size)
    ensures var q := Queued(Bytes(node, nodes), nodes, nflush, ntotal, size);
            var fill, fo := HeadFill(|nodes| == 1, ntotal, size), nflush % size;
            && 0 <= fo < fill <= size && fill - fo <= |q|
            && node[nodes[0]].bytes[fo..fill] == q[..fill - fo]
            && (|nodes| == 1 ==> fill - fo == |q|)
  {
    BytesSize(node, nodes, size);
    var all := Bytes(node, nodes);
    var fill, fo := HeadFill(|nodes| == 1, ntotal, size), nflush % size;
    assert all[fo..fill] == all[..size][fo..fill];
  }

  /** The writer accepts a part of the first buffer. */
  lemma FlushedPart(all: string, nodes: seq<int>, nflush: int, ntotal: int, size: int, n: int)
    requires size >= 1 && nodes != [] && Counts(all, nodes, nflush, ntotal, size)
    requires 0 < n < ntotal - nflush && nflush % size + n < size
    ensures Counts(all, nodes, nflush + n, ntotal, size)
    ensures Queued(all, nodes, nflush + n, ntotal, size) == Queued(all, nodes, nflush, ntotal, size)[n..]
  {
    ModAdd(nflush, n, size);
  }

  /** The writer accepts the rest of the first buffer, and there are more buffers. */
  lemma FlushedHead(all: string, nodes: seq<int>, nflush: int, ntotal: int, size: int, n: int)
    requires size >= 1 && |nodes| >= 2 && |all| >= 2 * size && Counts(all, nodes, nflush, ntotal, size)
    requires nflush % size + n == size
    ensures Counts(all[size..], nodes[1..], nflush + n, ntotal, size)
    ensures Queued(all[size..], nodes[1..], nflush + n, ntotal, size) == Queued(all, nodes, nflush, ntotal, size)[n..]
  {
    ModAdd(nflush, n, size);
    var end := |all| - Slack(ntotal, size);
    assert all[size..][0..end - size] == all[nflush % size..end][n..];
  }

  /** Characters are appended to the last buffer, which has room for them. */
  lemma AppendedPart(all: string, all': string, nodes: seq<int>, nflush: int, ntotal: int, size: int, s: string)
    requires size >= 1 && nodes != [] && Counts(all, nodes, nflush, ntotal, size)
    requires 0 < |s| <= Slack(ntotal, size) <= |all|
    requires var cut := |all| - Slack(ntotal, size); all' == all[..cut] + s + all[cut + |s|..]
    ensures Counts(all', nodes, nflush, ntotal + |s|, size)
    ensures Queued(all', nodes, nflush, ntotal + |s|, size) == Queued(all, nodes, nflush, ntotal, size) + s
  {
    ModAdd(ntotal, |s|, size);
  }

  /** Characters are appended to a new buffer. */
  lemma AppendedNew(all: string, all': string, nodes: seq<int>, nflush: int, ntotal: int, size: int, a: int, s: string)
    requires size >= 1 && Counts(all, nodes, nflush, ntotal, size) && ntotal % size == 0 && (nodes == [] ==> all == "")
    requires 0 < |s| <= size && |all'| == |all| + size && all' == all + s + all'[|all| + |s|..]
    ensures Counts(all', nodes + [a], nflush, ntotal + |s|, size)
    ensures Queued(all', nodes + [a], nflush, ntotal + |s|, size) == Queued(all, nodes, nflush, ntotal, size) + s
  {
    ModAdd(ntotal, |s|, size);
    if nodes == [] { DivModUnique(0, 0, 0, size); }
  }

  lemma BufferedEnds(node: map<int, CqCharBuff>, head: int, tail: int, nodes: seq<int>, size: int)
    requires Buffered(node, head, tail, nodes, size)
    ensures nodes == [] <==> head == NULL
    ensures nodes == [] <==> tail == NULL
    ensures nodes != [] ==> head == nodes[0] && tail == nodes[|nodes| - 1] && head in node && tail in node
    ensures |nodes| == 1 <==> (head == tail && nodes != [])
    ensures forall k :: 0 <= k < |nodes| ==> nodes[k] in node && |node[nodes[k]].bytes| == size
    ensures nodes != [] ==> node[head].next == if |nodes| > 1 then nodes[1] else NULL
  {
    forall k | 0 <= k < |nodes|
      ensures nodes[k] in node && |node[nodes[k]].bytes| == size
    {
      assert BuffOk(node, nodes, k, size);
    }
    assert nodes != [] ==> BuffOk(node, nodes, 0, size);
  }

  lemma BufferedDrop(node: map<int, CqCharBuff>, head: int, tail: int, nodes: seq<int>, size: int)
    requires Buffered(node, head, tail, nodes, size) && |nodes| >= 2 && head in node
    ensures Buffered(node - {head}, node[head].next, tail, nodes[1..], size)
    ensures Bytes(node - {head}, nodes[1..]) == Bytes(node, nodes[1..])
  {
    var node', nodes' := node - {head}, nodes[1..];
    forall k | 0 <= k < |nodes'|
      ensures BuffOk(node', nodes', k, size)
    {
      assert BuffOk(node, nodes, k + 1, size);
    }
    assert BuffOk(node, nodes, 0, size);
    forall a | a in node'
      ensures a in nodes'
    {
      var k :| 0 <= k < |nodes| && nodes[k] == a;
      assert nodes'[k - 1] == a;
    }
    forall k | 0 <= k < |nodes'|
      ensures nodes'[k] in node' && node'[nodes'[k]] == node[nodes'[k]]
    {
      assert BuffOk(node', nodes', k, size);
    }
    BytesFrame(node, node', nodes');
  }

  lemma BufferedAppend(node: map<int, CqCharBuff>, head: int, tail: int, nodes: seq<int>, size: int,
                       a: int, bytes: string)
    requires Buffered(node, head, tail, nodes, size) && a !in node && a != NULL && |bytes| == size
    requires tail != NULL ==> tail in node
    ensures var node1 := if tail != NULL then node[tail := node[tail].(next := a)] else node;
            var node' := node1[a := CqCharBuff(NULL, bytes)];
            && Buffered(node', if tail != NULL then head else a, a, nodes + [a], size)
            && Bytes(node', nodes + [a]) == Bytes(node, nodes) + bytes
  {
    BufferedEnds(node, head, tail, nodes, size);
    var node1 := if tail != NULL then node[tail := node[tail].(next := a)] else node;
    var node' := node1[a := CqCharBuff(NULL, bytes)];
    var nodes' := nodes + [a];
    forall k | 0 <= k < |nodes'|
      ensures BuffOk(node', nodes', k, size)
    {
      if k < |nodes| { assert BuffOk(node, nodes, k, size); }
    }
    forall x | x in node'
      ensures x in nodes'
    {
      if x == a { assert nodes'[|nodes|] == a; }
    }
    BytesJoin(node', nodes, [a]);
    BytesFrame(node, node', nodes);
    assert Bytes(node', [a]) == bytes + Bytes(node', [a][1..]);
  }

  lemma BufferedWrite(node: map<int, CqCharBuff>, head: int, tail: int, nodes: seq<int>, size: int, bytes: string)
    requires Buffered(node, head, tail, nodes, size) && nodes != [] && tail in node && |bytes| == size
    ensures var node' := node[tail := node[tail].(bytes := bytes)];
            var all := Bytes(node, nodes);
            && Buffered(node', head, tail, nodes, size)
            && |all| >= size && all[|all| - size..] == node[tail].bytes
            && Bytes(node', nodes) == all[..|all| - size] + bytes
  {
    BufferedEnds(node, head, tail, nodes, size);
    var node' := node[tail := node[tail].(bytes := bytes)];
    var m := |nodes| - 1;
    forall k | 0 <= k < |nodes|
      ensures BuffOk(node', nodes, k, size)
    {
      assert BuffOk(node, nodes, k, size);
    }
    assert nodes == nodes[..m] + [tail];
    BytesJoin(node, nodes[..m], [tail]);
    BytesJoin(node', nodes[..m], [tail]);
    BytesFrame(node, node', nodes[..m]);
    assert Bytes(node, [tail]) == node[tail].bytes + Bytes(node, [tail][1..]);
    assert Bytes(node', [tail]) == bytes + Bytes(node', [tail][1..]);
  }

  lemma Regroup(out: string, q: string, before: string, chars: string, n: nat, m: nat)
    requires n + m <= |chars| && out + q == before + chars[..n]
    ensures out + (q + chars[n..n + m]) == before + chars[..n + m]
  {
    assert chars[..n] + chars[n..n + m] == chars[..n + m];
    assert out + (q + chars[n..n + m]) == (out + q) + chars[n..n + m];
  }

  lemma NoBytes(node: map<int, CqCharBuff>)
    ensures Bytes(node, []) == ""
  {
  }

  lemma BytesCut(all: string, last: string, s: string, boff: int, size: int)
    requires 0 < boff && boff + |s| <= size == |last| <= |all| && all[|all| - size..] == last
    ensures var cut := |all| - (size - boff);
            all[..|all| - size] + (last[..boff] + s + last[boff + |s|..]) == all[..cut] + s + all[cut + |s|..]
  {
  }

  datatype Request = Append(chars: string) | FlushQueue

  /** All the characters that some requests append. */
  function Appended(requests: seq<Request>): string {
    if requests == [] then ""
    else
      var r := requests[|requests| - 1];
      Appended(requests[..|requests| - 1]) + (if r.Append? then r.chars else "")
  }

  lemma AppendedMore(requests: seq<Request>, i: int, before: string)
    requires 0 <= i < |requests|
    ensures before + Appended(requests[..i + 1]) == before + Appended(requests[..i])
              + (if requests[i].Append? then requests[i].chars else "")
  {
    assert requests[..i + 1][..i] == requests[..i];
  }

  /** The number of characters that fit after ntotal ones in buffers of a given size, of which some
      are idle. */
  ghost function RoomIn(ntotal: int, size: int, idle: int): nat
    requires size >= 1 && idle >= 0
  {
    assert idle * size >= 0;
    (if ntotal % size == 0 then 0 else size - ntotal % size) + idle * size
  }

  lemma NoRoom(ntotal: int, size: int, idle: int)
    requires size >= 1 && idle >= 0
    ensures RoomIn(ntotal, size, idle) == 0 <==> ntotal % size == 0 && idle == 0
  {
    if idle >= 1 { MulAtLeast(idle, size); }
  }

  /** A piece takes its own length of the room: in the last buffer, or else in an idle one. */
  lemma RoomLess(ntotal: int, size: int, idle: int, len: int)
    requires size >= 1 && idle >= 0 && 0 < len <= size - ntotal % size
    ensures RoomIn(ntotal, size, idle) > 0 <==> ntotal % size != 0 || idle > 0
    ensures var idle' := if ntotal % size == 0 then idle - 1 else idle;
            idle' >= 0 ==> RoomIn(ntotal + len, size, idle') == RoomIn(ntotal, size, idle) - len
  {
    NoRoom(ntotal, size, idle);
    ModAdd(ntotal, len, size);
    assert (idle - 1) * size == idle * size - size;
  }

  class CharQueue {
    const size: int      // GL_CQ_SIZE
    const bufmem: FreeList
    var node: map<int, CqCharBuff>
    var head: int
    var tail: int
    var nflush: int
    var ntotal: int
    ghost var nodes: seq<int>

    ghost predicate Valid()
      reads this, bufmem
    {
      && size >= 1
      && bufmem.Valid() && bufmem.blockingFactor == 1
      && node.Keys == bufmem.busy
      && Buffered(node, head, tail, nodes, size)
      && Counts(Bytes(node, nodes), nodes, nflush, ntotal, size)
    }

    /** The characters in the queue. */
    ghost function Contents(): (q: string)
      requires Valid()
      reads this, bufmem
      ensures |q| == ntotal - nflush && (nodes == [] <==> q == "")
    {
      Queued(Bytes(node, nodes), nodes, nflush, ntotal, size)
    }

    constructor (size: int)
      requires size >= 1
      ensures Valid() && Contents() == "" && this.size == size
      ensures fresh(bufmem) && bufmem.ntotal == 1 && Room() == size
    {
      this.size := size;
      bufmem := new FreeList(1);
      node := map[];
      head, tail, nflush, ntotal := NULL, NULL, 0, 0;
      nodes := [];
    }

    /** The number of characters in the queue. */
    method CharCount() returns (n: int)
      requires Valid()
      ensures n == |Contents()|
    {
      BufferedEnds(node, head, tail, nodes, size);
      n := if head != NULL then ntotal - nflush else 0;
    }

    /** Discard the contents of the queue. */
    method Empty()
      requires size >= 1 && bufmem.Valid() && bufmem.blockingFactor == 1
      modifies this, bufmem
      ensures Valid() && Contents() == "" && nodes == [] && bufmem.ntotal == old(bufmem.ntotal)
    {
      bufmem.Reset();
      node := map[];
      head, tail, nflush, ntotal := NULL, NULL, 0, 0;
      nodes := [];
    }

    /** Remove the first buffer, of which the last n characters have just been flushed. */
    method DropHead(ghost n: int, ghost nflush0: int)
      requires size >= 1 && bufmem.Valid() && bufmem.blockingFactor == 1 && node.Keys == bufmem.busy
      requires Buffered(node, head, tail, nodes, size) && |nodes| >= 2
      requires Counts(Bytes(node, nodes), nodes, nflush0, ntotal, size)
      requires nflush0 % size + n == size && nflush == nflush0 + n && 0 < n
      modifies this`node, this`head, this`nodes, bufmem
      ensures Valid() && bufmem.ntotal == old(bufmem.ntotal)
      ensures Contents() == old(Queued(Bytes(node, nodes), nodes, nflush0, ntotal, size))[n..]
    {
      hide Buffered, Counts, Queued, Distinct, FreeList.Valid, Bytes;
      BufferedEnds(node, head, tail, nodes, size);
      BufferedDrop(node, head, tail, nodes, size);
      BytesSize(node, nodes, size);
      FlushedHead(Bytes(node, nodes), nodes, nflush0, ntotal, size, n);
      var first := head;
      head := node[first].next;
      node := node - {first};
      nodes := nodes[1..];
      bufmem.Del(first);
    }

    /** Offer the first buffer to the writer, once. */
    method FlushHead(writer: Writer) returns (n: int)
      requires Valid() && head != NULL
      modifies this, bufmem, writer
      ensures Valid() && bufmem.ntotal == old(bufmem.ntotal)
      ensures writer.calls == old(writer.calls) + 1 && writer.last == n
      ensures writer.offered > 0
      ensures n > 0 ==> n <= |old(Contents())| && Contents() == old(Contents())[n..]
                        && writer.out == old(writer.out) + old(Contents())[..n]
      ensures n <= 0 ==> Contents() == old(Contents()) && writer.out == old(writer.out)
                         && n == writer.answer(old(writer.calls), writer.offered)
    {
      hide Buffered, Counts, Queued, Distinct, FreeList.Valid, Bytes;
      BufferedEnds(node, head, tail, nodes, size);
      Offered(node, nodes, nflush, ntotal, size);
      ghost var q := Contents();
      ghost var nflush0 := nflush;
      var isTail := head == tail;
      var nmodulo := ntotal % size;
      var nhead := if !isTail || nmodulo == 0 then size else nmodulo;
      var nbuff := nhead - nflush % size;
      var fo := nflush % size;
      n := writer.Write(node[head].bytes[fo..fo + nbuff]);
      if n > 0 {
        nflush := nflush + n;
        if n == nbuff {
          if isTail {
            Empty();
          } else {
            DropHead(n, nflush0);
          }
        } else {
          FlushedPart(Bytes(node, nodes), nodes, nflush0, ntotal, size, n);
        }
      }
    }

    /** Write as much of the queue as possible. */
    method Flush(writer: Writer) returns (status: FlushState)
      requires Valid()
      modifies this, bufmem, writer
      ensures Valid() && bufmem.ntotal == old(bufmem.ntotal)
      ensures writer.out + Contents() == old(writer.out) + old(Contents())
      ensures old(writer.out) <= writer.out && old(writer.calls) <= writer.calls
      ensures status == Done <==> Contents() == ""
      ensures writer.calls > old(writer.calls) <==> old(Contents()) != ""
      ensures status == Again ==> writer.calls > old(writer.calls)
                                  && writer.last == 0 == writer.answer(writer.calls - 1, writer.offered)
      ensures status == Error ==> writer.calls > old(writer.calls)
                                  && 0 > writer.last == writer.answer(writer.calls - 1, writer.offered)
      ensures writer.NeverBlocks() ==> status == Done
    {
      hide Buffered, Counts, Queued, Distinct, FreeList.Valid, Bytes;
      BufferedEnds(node, head, tail, nodes, size);
      while head != NULL
        invariant Valid() && bufmem.ntotal == old(bufmem.ntotal)
        invariant writer.out + Contents() == old(writer.out) + old(Contents())
        invariant old(writer.out) <= writer.out && old(writer.calls) <= writer.calls
        invariant head == NULL <==> Contents() == ""
        invariant writer.calls == old(writer.calls) ==> Contents() == old(Contents())
        invariant writer.calls > old(writer.calls) ==> old(Contents()) != ""
        decreases ntotal - nflush
      {
        ghost var q, out := Contents(), writer.out;
        var n := FlushHead(writer);
        BufferedEnds(node, head, tail, nodes, size);
        if n > 0 {
          assert writer.out + Contents() == out + q[..n] + q[n..];
          assert q[..n] + q[n..] == q;
        } else if n == 0 {
          return Again;
        } else {
          return Error;
        }
      }
      return Done;
    }

    /** Append a piece that fits in the last buffer, after `boff` bytes of it, or in a new buffer. */
    method AppendPiece(s: string, boff: int)
      requires Valid() && boff == ntotal % size && 0 < |s| <= size - boff
      modifies this, bufmem
      ensures Valid() && Contents() == old(Contents()) + s
      ensures bufmem.ntotal == old(bufmem.ntotal) + (if boff == 0 && old(bufmem.Idle()) == 0 then 1 else 0)
      ensures old(Room()) > 0 ==> Room() == old(Room()) - |s|
    {
      hide Buffered, Counts, Queued, Distinct, FreeList.Valid, Bytes, RoomIn;
      BufferedEnds(node, head, tail, nodes, size);
      RoomLess(ntotal, size, bufmem.Idle(), |s|);
      if boff == 0 {
        AddBuffer(s);
      } else {
        TailHasRoom();
        ghost var all := Bytes(node, nodes);
        var bytes := node[tail].bytes[..boff] + s + node[tail].bytes[boff + |s|..];
        BufferedWrite(node, head, tail, nodes, size, bytes);
        BytesCut(all, node[tail].bytes, s, boff, size);
        AppendedPart(all, all[..|all| - size] + bytes, nodes, nflush, ntotal, size, s);
        node := node[tail := node[tail].(bytes := bytes)];
        ntotal := ntotal + |s|;
      }
    }

    lemma TailHasRoom()
      requires Valid() && ntotal % size != 0
      ensures nodes != [] && tail in node && |node[tail].bytes| == size
    {
      BufferedEnds(node, head, tail, nodes, size);
      if nodes == [] { DivModUnique(0, 0, 0, size); }
    }

    /** Append a piece to a new buffer. */
    method AddBuffer(s: string)
      requires Valid() && ntotal % size == 0 && 0 < |s| <= size
      modifies this, bufmem
      ensures Valid() && Contents() == old(Contents()) + s
      ensures bufmem.ntotal == old(bufmem.ntotal) + (if old(bufmem.Idle()) == 0 then 1 else 0)
      ensures bufmem.Idle() == (if old(bufmem.Idle()) == 0 then 0 else old(bufmem.Idle()) - 1)
      ensures ntotal == old(ntotal) + |s|
    {
      hide Buffered, Counts, Queued, Distinct, FreeList.Valid, Bytes;
      BufferedEnds(node, head, tail, nodes, size);
      NoBytes(node);
      ghost var all := Bytes(node, nodes);
      var a := bufmem.New();
      var bytes := s + seq(size - |s|, _ => NUL);
      BufferedAppend(node, head, tail, nodes, size, a, bytes);
      AppendedNew(all, all + bytes, nodes, nflush, ntotal, size, a, s);
      if tail != NULL {
        node := node[tail := node[tail].(next := a)];
      } else {
        head := a;
      }
      tail := a;
      node := node[a := CqCharBuff(NULL, bytes)];
      nodes := nodes + [a];
      ntotal := ntotal + |s|;
    }

    /** Before the queue has to grow, try to flush it. */
    method FlushIfFull(writer: Writer) returns (boff: int, failed: bool)
      requires Valid()
      modifies this, bufmem, writer
      ensures Valid() && boff == ntotal % size && bufmem.ntotal == old(bufmem.ntotal)
      ensures writer.out + Contents() == old(writer.out) + old(Contents())
      ensures old(writer.out) <= writer.out && old(writer.calls) <= writer.calls
      ensures failed ==> writer.calls > old(writer.calls) && writer.last < 0
      ensures writer.NeverBlocks() ==> !failed && (boff == 0 ==> bufmem.Idle() > 0)
      ensures writer.calls > old(writer.calls) <==> old(Room()) == 0
      ensures writer.calls == old(writer.calls) ==> Room() == old(Room())
    {
      hide Buffered, Counts, Queued, Distinct, Bytes;
      NoRoom(ntotal, size, bufmem.Idle());
      if nodes == [] { EmptyIsIdle(); }
      failed := false;
      boff := ntotal % size;
      if boff == 0 && bufmem.Idle() == 0 {
        var status := Flush(writer);
        failed := status == Error;
        boff := ntotal % size;
        if status == Done { EmptyIsIdle(); }
      }
    }

    lemma EmptyIsIdle()
      requires Valid() && nodes == []
      ensures bufmem.Idle() > 0
    {
      assert forall a :: a in node ==> a in nodes;
      assert node.Keys == {};
    }

    /** The number of characters that fit in the last buffer and the idle ones. */
    ghost function Room(): nat
      requires Valid()
      reads this, bufmem
    {
      RoomIn(ntotal, size, bufmem.Idle())
    }

    /** Append characters, flushing the queue before it would have to grow: the writer is called
        exactly when they do not fit. */
    method AppendChars(chars: string, writer: Writer) returns (ndone: int)
      requires Valid()
      modifies this, bufmem, writer
      ensures Valid() && 0 <= ndone <= |chars|
      ensures writer.out + Contents() == old(writer.out) + old(Contents()) + chars[..ndone]
      ensures old(writer.out) <= writer.out
      ensures ndone < |chars| ==> writer.calls > old(writer.calls) && writer.last < 0
      ensures writer.NeverBlocks() ==> ndone == |chars| && bufmem.ntotal == old(bufmem.ntotal)
      ensures writer.calls > old(writer.calls) <==> |chars| > old(Room())
    {
      hide Buffered, Counts, Queued, Distinct, FreeList.Valid, Bytes, Room;
      ndone := 0;
      while ndone < |chars|
        invariant Valid() && 0 <= ndone <= |chars|
        invariant writer.out + Contents() == old(writer.out) + old(Contents()) + chars[..ndone]
        invariant old(writer.out) <= writer.out && old(writer.calls) <= writer.calls
        invariant writer.NeverBlocks() ==> bufmem.ntotal == old(bufmem.ntotal)
        invariant writer.calls == old(writer.calls) ==> Room() + ndone == old(Room())
        invariant writer.calls > old(writer.calls) ==> |chars| > old(Room())
      {
        var boff, failed := FlushIfFull(writer);
        if failed {
          return;
        }
        var nleft := size - boff;
        var ntodo := |chars| - ndone;
        var nnew := if nleft < ntodo then nleft else ntodo;
        Regroup(writer.out, Contents(), old(writer.out) + old(Contents()), chars, ndone, nnew);
        AppendPiece(chars[ndone..ndone + nnew], boff);
        ndone := ndone + nnew;
      }
    }

    /** While the writer never blocks, the queue owns a single buffer, and it never holds more
        characters than one buffer. */
    lemma OneBuffer()
      requires Valid() && bufmem.ntotal <= 1
      ensures |Contents()| <= size
    {
      BufferedEnds(node, head, tail, nodes, size);
      BytesSize(node, nodes, size);
      SizeOfDistinct(nodes);
      SubsetSize((set a | a in nodes), node.Keys);
    }

    /** Serve any requests, in turn. While the writer never blocks, the queue never owns more than one
        buffer, holds at most as many characters as that, and loses and invents none. */
    method Serve(requests: seq<Request>, writer: Writer)
      requires Valid() && bufmem.ntotal == 1 && writer.NeverBlocks()
      modifies this, bufmem, writer
      ensures Valid() && bufmem.ntotal == 1 && |Contents()| <= size
      ensures writer.out + Contents() == old(writer.out) + old(Contents()) + Appended(requests)
      ensures old(writer.out) <= writer.out
    {
      hide Buffered, Counts, Queued, Distinct, FreeList.Valid, Bytes;
      var i := 0;
      OneBuffer();
      assert requests[..0] == [];
      while i < |requests|
        invariant 0 <= i <= |requests|
        invariant Valid() && bufmem.ntotal == 1 && |Contents()| <= size
        invariant writer.out + Contents() == old(writer.out) + old(Contents()) + Appended(requests[..i])
        invariant old(writer.out) <= writer.out
      {
        AppendedMore(requests, i, old(writer.out) + old(Contents()));
        match requests[i] {
          case Append(chars) =>
            var _ := AppendChars(chars, writer);
            assert chars[..|chars|] == chars;
          case FlushQueue =>
            var _ := Flush(writer);
        }
        OneBuffer();
        i := i + 1;
      }
      assert requests[..i] == requests;
    }
  }
}
