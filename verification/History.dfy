/** The history list of libtecla/history.c. */
module Histories {
  import opened Basics
  import opened FreeLists
  import opened Segments
  import opened LineStores
  import opened LineLists
  import opened HistorySpec
  import opened HistoryRefs

  class History {
    const store: LineStore
    const list: LineList
    const isSpace: char -> bool
    var recall: int     // the node of the last line recalled, or NULL
    var idNode: int     // the node at which the last search for an id ended, or NULL
    var prefix: int     // the stored search prefix, or NULL
    var seqno: int      // the id of the next line
    var group: int
    var nline: int
    var maxLines: int
    var enable: bool
    ghost var h: Hist

    ghost predicate Cursor()
      reads this, list
    {
      && (if recall == NULL then h.recall == -1
          else 0 <= h.recall < |list.order| && list.order[h.recall] == recall)
      && (idNode == NULL || idNode in list.order)
    }

    ghost predicate Scalars()
      reads this, store, store.segs, list
    {
      && nline == |list.items|
      && h.seqno == seqno && h.group == group && h.maxLines == maxLines && h.enable == enable
      && h.nbuff == store.segs.buffer.Length
    }

    /** The linked structures represent `h`; `held` is a stored line that the caller refers to. */
    ghost predicate Inv(held: int)
      reads this, store, store.segs, store.segs.buffer, store.mem, store.bucket, list, list.mem
    {
      && store.Valid() && list.Valid() && store.mem != list.mem
      && Shown(h.entries, list.items, store.lines)
      && PrefixShown(h.prefix, prefix, store.lines)
      && Counted(store.lines, Refs(list.items, prefix, held))
      && store.segs.nbusy == Busy(h.entries, h.prefix) + HeldSegs(h.entries, h.prefix, store.lines, held)
      && Cursor()
      && Scalars()
    }

    ghost predicate Valid()
      reads this, store, store.segs, store.segs.buffer, store.mem, store.bucket, list, list.mem
    {
      Inv(NULL)
    }

    ghost function Parts(): set<object>
      reads this, store, store.segs
    {
      {this, store, store.segs, store.segs.buffer, store.mem, store.bucket, list, list.mem}
    }

    constructor (buflen: nat, isSpace: char -> bool)
      ensures Valid()
      ensures h == Hist([], -1, None, 0, 0, -1, (buflen + SEG_SIZE - 1) / SEG_SIZE, true)
    {
      hide LineStore.Valid, LineList.Valid, Nseg;
      this.isSpace := isSpace;
      store := new LineStore((buflen + SEG_SIZE - 1) / SEG_SIZE);
      list := new LineList();
      recall, idNode, prefix := NULL, NULL, NULL;
      seqno, group, nline, maxLines, enable := 0, 0, 0, -1, true;
      h := Hist([], -1, None, 0, 0, -1, (buflen + SEG_SIZE - 1) / SEG_SIZE, true);
      new;
      assert Cursor() && Scalars();
      assert Refs(list.items, prefix, NULL) == multiset{};
    }

    lemma UniqueTexts()
      requires store.Valid()
      ensures Unique(store.lines, store.index) && NULL !in store.lines
    {
      store.TextsAreUnique();
    }

    /** A stored line counts the entries of the list that refer to it, and the search prefix if it
        does; nothing is stored without being referred to. */
    lemma UsedIsReferences(a: int)
      requires Valid() && a in store.lines
      ensures a in store.node && store.node[a].used >= 1
      ensures store.node[a].used == Entries(list.items, a) + (if prefix == a then 1 else 0)
    {
      hide LineList.Valid, Busy, Shown, PrefixShown, SegmentPool.Valid, FreeList.Valid, Bucketed, Indexed;
      UniqueTexts();
      IndexedKeys(store.node, store.segs.texts, store.index, store.lines);
      IndexedAt(store.node, store.segs.texts, store.index, store.lines, a);
      EntriesAreLines(list.items, a);
      assert store.lines[a].used == Refs(list.items, prefix, NULL)[a];
    }

    /** Take entry k off the list, without dropping its reference to a line. */
    method RemoveNode(a: int, ghost k: int) returns (line: int)
      requires list.Valid() && 0 <= k < |list.order| && list.order[k] == a
      requires recall == NULL && h.recall == -1 && Cursor()
      modifies this`idNode, this`nline, list, list.mem
      ensures list.Valid() && Cursor() && nline == old(nline) - 1
      ensures |old(list.items)| == |old(list.order)| && list.items == Without(old(list.items), k)
      ensures list.order == Without(old(list.order), k)
      ensures line == old(list.items)[k].line
    {
      hide LineList.Valid, Without;
      list.At(k);
      line := list.node[a].line;
      if idNode != NULL && idNode != a { InWithout(list.order, k, idNode); }
      list.Remove(a, k);
      if a == idNode {
        idNode := NULL;
      }
      nline := nline - 1;
    }

    /** Discard entry k. No session is active. */
    method DiscardLine(a: int, ghost k: int)
      requires Valid() && recall == NULL && 0 <= k < |list.order| && list.order[k] == a
      modifies Parts()
      ensures Valid() && recall == NULL && store.segs.buffer == old(store.segs.buffer) && prefix == old(prefix)
      ensures 0 <= k < |old(h).entries| && h == old(h).(entries := Without(old(h).entries, k))
      ensures list.order == Without(old(list.order), k)
    {
      hide LineStore.Valid, LineList.Valid, Busy, Kept, Nseg, Without, Counted, Shown, Refs, PrefixShown, Unique;
      UniqueTexts();
      ShownSize(h.entries, list.items, store.lines);
      var line := RemoveNode(a, k);
      RefsWithout(old(list.items), prefix, NULL, k);
      CountedAt(store.lines, Refs(old(list.items), prefix, NULL), line);
      store.Unref(line);
      UniqueTexts();
      EntryDropped(h.entries, old(list.items), prefix, h.prefix, old(store.lines), old(store.index),
                   store.lines, store.index, k, line);
      WithoutSize(old(list.items), k);
      h := h.(entries := Without(h.entries, k));
    }

    /** End a recall session, if one is active, and discard the input line that it preserves. */
    method CancelSearch()
      requires Valid()
      modifies Parts()
      ensures Valid() && recall == NULL && store.segs.buffer == old(store.segs.buffer) && prefix == old(prefix)
      ensures h == Cancel(old(h))
    {
      hide LineStore.Valid, LineList.Valid, Busy, Kept, Nseg, Counted, Shown, Refs, PrefixShown;
      if recall == NULL {
        return;
      }
      ShownSize(h.entries, list.items, store.lines);
      list.Bounds();
      recall := NULL;
      h := h.(recall := -1);
      DiscardLine(list.tail, |list.order| - 1);
    }

    /** Discard the oldest lines until there are enough unused segments for a line that is not
        stored, or there are no lines left. */
    method DiscardForRoom(line: string, nseg: int)
      requires Valid() && recall == NULL && nseg == Nseg(|line|)
      requires !Kept(h.entries, h.prefix, line) && PrefixLeavesRoom(h.entries, h.prefix, h.nbuff, line)
      modifies Parts()
      ensures Valid() && recall == NULL && store.segs.buffer == old(store.segs.buffer) && prefix == old(prefix)
      ensures h == old(h).(entries := DropSegs(old(h).entries, h.prefix, h.nbuff, nseg))
      ensures !Kept(h.entries, h.prefix, line)
      ensures store.segs.nfree == h.nbuff - Busy(h.entries, h.prefix)
    {
      hide LineStore.Valid, LineList.Valid, Busy, Kept, Nseg, Without, Counted, Shown, Refs, PrefixShown,
        Unique, PrefixLeavesRoom;
      store.SegmentsAddUp();
      while store.segs.nfree < nseg && store.segs.nbusy > 0
        invariant Valid() && recall == NULL && store.segs.buffer == old(store.segs.buffer) && prefix == old(prefix)
        invariant h == old(h).(entries := h.entries)
        invariant DropSegs(h.entries, h.prefix, h.nbuff, nseg) == DropSegs(old(h).entries, h.prefix, h.nbuff, nseg)
        invariant !Kept(h.entries, h.prefix, line) && PrefixLeavesRoom(h.entries, h.prefix, h.nbuff, line)
        invariant store.segs.nbusy + store.segs.nfree == store.segs.buffer.Length
        decreases |h.entries|
      {
        DropSegsStep(h.entries, h.prefix, h.nbuff, line);
        ShownSize(h.entries, list.items, store.lines);
        list.Bounds();
        DiscardLine(list.head, 0);
        store.SegmentsAddUp();
      }
      DropSegsEnd(h.entries, h.prefix, h.nbuff, line);
    }

    /** Store a line for which there is room. */
    method StoreCopy(line: string) returns (a: int)
      requires Valid() && NoNul(line) && !Kept(h.entries, h.prefix, line) && Nseg(|line|) <= store.segs.nfree
      modifies store, store.segs, store.segs.buffer, store.mem, store.bucket
      ensures store.segs.buffer == old(store.segs.buffer)
      ensures a != NULL && Inv(a) && a in store.lines && store.lines[a].text == line
    {
      hide LineStore.Valid, LineList.Valid, Busy, Kept, Nseg, Counted, Shown, Refs, PrefixShown, Unique;
      UniqueTexts();
      KeptIndexed(h.entries, list.items, prefix, h.prefix, NULL, store.lines, store.index, line);
      a := store.Insert(line);
      HeldNew(h.entries, list.items, prefix, h.prefix, old(store.lines), a, line);
    }

    /** The stored copy of a line, with one more reference. To store it, as many of the oldest
        lines are discarded as it takes; NULL is returned if even that does not suffice. */
    method AcquireCopy(line: string) returns (a: int)
      requires Valid() && recall == NULL && NoNul(line)
      requires PrefixLeavesRoom(h.entries, h.prefix, h.nbuff, line)
      modifies Parts()
      ensures recall == NULL && store.segs.buffer == old(store.segs.buffer) && prefix == old(prefix)
      ensures h == old(h).(entries := MakeRoom(old(h).entries, h.prefix, h.nbuff, line))
      ensures a != NULL <==> Storable(h.entries, h.prefix, h.nbuff, line)
      ensures if a == NULL then Valid() else Inv(a) && a in store.lines && store.lines[a].text == line
    {
      hide LineStore.Valid, LineList.Valid, Busy, Kept, Nseg, Counted, Shown, Refs, PrefixShown, Unique;
      UniqueTexts();
      KeptIndexed(h.entries, list.items, prefix, h.prefix, NULL, store.lines, store.index, line);
      a := store.Find(line);
      if a == NULL {
        var nseg := ((|line| + 1) + SEG_SIZE - 1) / SEG_SIZE;
        assert nseg == Nseg(|line|) by { NsegIs(|line|); }
        DiscardForRoom(line, nseg);
        if store.segs.nfree < nseg {
          return;
        }
        a := StoreCopy(line);
      } else {
        HeldAgain(h.entries, list.items, prefix, h.prefix, store.lines, a);
        store.Ref(a);
      }
    }

    /** Discard the oldest lines until one more line is within the limit. */
    method DiscardExcess()
      requires Valid() && recall == NULL
      modifies Parts()
      ensures Valid() && recall == NULL && store.segs.buffer == old(store.segs.buffer) && prefix == old(prefix)
      ensures h == old(h).(entries := DropLines(old(h).entries, h.maxLines))
    {
      hide LineStore.Valid, LineList.Valid, Busy, Kept, Nseg, Without, Counted, Shown, Refs, PrefixShown, Unique;
      ShownSize(h.entries, list.items, store.lines);
      if maxLines >= 0 {
        while nline > 0 && nline >= maxLines
          invariant Valid() && recall == NULL && store.segs.buffer == old(store.segs.buffer) && prefix == old(prefix)
          invariant h == old(h).(entries := h.entries) && nline == |h.entries|
          invariant DropLines(h.entries, h.maxLines) == DropLines(old(h).entries, h.maxLines)
          decreases |h.entries|
        {
          WithoutFirst(h.entries);
          list.Bounds();
          DiscardLine(list.head, 0);
          ShownSize(h.entries, list.items, store.lines);
        }
      }
    }

    /** Append a line that the caller has acquired to the list. */
    method AppendHeld(line: int)
      requires Inv(line) && line in store.lines && line != NULL && recall == NULL
      modifies this, list, list.mem
      ensures Valid() && recall == NULL && store.segs.buffer == old(store.segs.buffer)
      ensures h == old(h).(entries := old(h).entries + [Entry(old(h).seqno, old(h).group, store.lines[line].text)],
                           seqno := old(h).seqno + 1)
    {
      hide LineStore.Valid, LineList.Valid, Busy, Kept, Nseg, Counted, Shown, Refs, PrefixShown;
      HeldAppended(h.entries, list.items, prefix, h.prefix, store.lines, Item(seqno, group, line));
      var a := list.Append(seqno, group, line);
      seqno := seqno + 1;
      nline := nline + 1;
      h := h.(entries := h.entries + [Entry(h.seqno, h.group, store.lines[line].text)], seqno := h.seqno + 1);
    }

    /** The length of the part of a line that precedes any newline. */
    method LineLength(line: string) returns (slen: int)
      ensures 0 <= slen <= |line| && line[..slen] == UpToNewline(line)
    {
      slen := 0;
      while slen < |line| && line[slen] != '\n'
        invariant 0 <= slen <= |line| && '\n' !in line[..slen]
      {
        slen := slen + 1;
      }
      UpToNewlineIs(line, slen);
    }

    method IsBlank(text: string) returns (empty: bool)
      ensures empty == Blank(text, isSpace)
    {
      empty := true;
      var i := 0;
      while i < |text| && empty
        invariant 0 <= i <= |text| && empty == Blank(text[..i], isSpace)
      {
        empty := isSpace(text[i]);
        i := i + 1;
      }
      assert !empty ==> text[..i][i - 1] == text[i - 1];
    }

    /** Append a line to the list, discarding old lines to make room if necessary. */
    method AddHistory(line: string, force: bool) returns (err: bool)
      requires Valid() && NoNul(line) && Addable(h, line)
      modifies Parts()
      ensures Valid() && store.segs.buffer == old(store.segs.buffer)
      ensures Added(h, err) == Add(old(h), line, force, isSpace)
    {
      hide LineStore.Valid, LineList.Valid, Busy, Kept, Nseg, Counted, Shown, Refs, PrefixShown,
           DropLines, MakeRoom, Storable, PrefixLeavesRoom, Blank;
      err := false;
      if !enable || store.segs.buffer.Length == 0 || maxLines == 0 {
        return;
      }
      CancelSearch();
      var slen := LineLength(line);
      var text := line[..slen];
      var empty := IsBlank(text);
      if empty && !force {
        return;
      }
      DiscardExcess();
      var hnode := AcquireCopy(text);
      if hnode == NULL {
        return true;
      }
      AppendHeld(hnode);
    }

    /** Entry j of the list, as its node records it. */
    lemma EntryOf(j: int)
      requires Valid() && 0 <= j < |list.order|
      ensures |h.entries| == |list.order| == |list.items| && list.order[j] in list.node && list.order[j] != NULL
      ensures var n := list.node[list.order[j]];
              && n.line in store.lines && h.entries[j] == Entry(n.id, n.group, store.lines[n.line].text)
              && n.next == NextOf(list.order, j) && n.prev == PrevOf(list.order, j)
    {
      list.At(j);
      assert EntryShown(h.entries[j], list.items[j], store.lines);
    }

    /** The sizes of the list; and in a valid state the cursor is in range, so that requiring it asks for
        no more. */
    lemma ListSize()
      requires Valid()
      ensures |h.entries| == |list.order| == |list.items| && Distinct(list.order) && NULL !in list.order
      ensures list.head == NextOf(list.order, -1) && list.tail == PrevOf(list.order, |list.order|)
      ensures InRange(h)
    {
      list.Bounds();
    }

    /** Two entries have the same text exactly when they refer to the same stored line. */
    lemma SameText(i: int, j: int)
      requires Valid() && 0 <= i < |list.order| && 0 <= j < |list.order|
      ensures |h.entries| == |list.order| && list.order[i] in list.node && list.order[j] in list.node
      ensures h.entries[i].text == h.entries[j].text <==> list.node[list.order[i]].line == list.node[list.order[j]].line
    {
      EntryOf(i);
      EntryOf(j);
      UniqueTexts();
    }

    /** Preserve the input line, unless a session in which it is preserved is active. */
    method PrepareForRecall(line: string) returns (err: bool)
      requires Valid() && NoNul(line) && Usable(h) && InRange(h) && Preservable(h, line)
      modifies Parts()
      ensures Valid() && store.segs.buffer == old(store.segs.buffer)
      ensures Added(h, err) == Prepare(old(h), line, isSpace)
    {
      hide LineStore.Valid, LineList.Valid, Busy, Kept, Nseg, Counted, Shown, Refs, PrefixShown, PrefixLeavesRoom;
      ListSize();
      if recall != NULL && recall == list.tail {
        EntryOf(h.recall);
        assert h.recall == |h.entries| - 1;
        var same := store.IsLine(list.node[recall].line, line);
        if !same {
          CancelSearch();
        }
      }
      err := false;
      if recall == NULL {
        err := AddHistory(line, true);
        if err {
          return;
        }
        ListSize();
        recall := list.tail;
        seqno := seqno - 1;
        h := h.(recall := |h.entries| - 1, seqno := h.seqno - 1);
      }
    }

    /** The node of entry j, or NULL for j == -1. */
    ghost predicate IsNode(node: int, j: int)
      reads list
    {
      if j == -1 then node == NULL else 0 <= j < |list.order| && node == list.order[j]
    }

    /** The search prefix has no wildcards. */
    ghost predicate LiteralPrefix()
      reads this
    {
      h.prefix.Some? ==> !HasGlob(Delivered(h.prefix.value), 0)
    }

    /** Is entry j, the node `node`, one that a search may stop at? `oldLine` is the stored line
        of entry `o`, the last line recalled. */
    method IsFound(node: int, oldLine: int, ghost j: int, ghost o: int) returns (found: bool)
      requires Valid() && 0 <= j && IsNode(node, j) && LiteralPrefix()
      requires 0 <= o < |list.order| == |h.entries| && list.order[o] in list.node
      requires list.node[list.order[o]].line == oldLine
      ensures j < |h.entries| && found == Found(h, h.entries[j], h.entries[o].text)
    {
      hide LineStore.Valid, LineList.Valid, Busy, Kept, Nseg, Counted, Shown, Refs, Delivered, HasGlob;
      EntryOf(j);
      SameText(j, o);
      var n := list.node[node];
      if n.group != group || n.line == oldLine {
        return false;
      }
      found := store.MatchesPrefix(n.line, prefix);
    }

    method SearchBackwards(start: int, oldLine: int, ghost j0: int, ghost o: int) returns (node: int, ghost j: int)
      requires Valid() && IsNode(start, j0) && LiteralPrefix()
      requires 0 <= o < |list.order| == |h.entries| && list.order[o] in list.node
      requires list.node[list.order[o]].line == oldLine
      ensures -1 <= j0 < |h.entries| && j == Backwards(h, j0, h.entries[o].text) && IsNode(node, j)
    {
      hide Valid, LiteralPrefix, Found;
      ListSize();
      node, j := start, j0;
      while node != NULL
        invariant -1 <= j < |h.entries| && IsNode(node, j)
        invariant Backwards(h, j, h.entries[o].text) == Backwards(h, j0, h.entries[o].text)
        decreases j
      {
        var found := IsFound(node, oldLine, j, o);
        if found {
          return;
        }
        EntryOf(j);
        node := list.node[node].prev;
        j := j - 1;
      }
    }

    method SearchForwards(start: int, oldLine: int, ghost j0: int, ghost o: int) returns (node: int, ghost j: int)
      requires Valid() && 0 <= j0 && LiteralPrefix()
      requires start == NextOf(list.order, j0 - 1)
      requires 0 <= o < |list.order| == |h.entries| && list.order[o] in list.node
      requires list.node[list.order[o]].line == oldLine
      ensures j == Forwards(h, j0, h.entries[o].text) && IsNode(node, j)
    {
      hide Valid, LiteralPrefix, Found;
      ListSize();
      node := start;
      ghost var i := j0;
      while node != NULL
        invariant j0 <= i && node == NextOf(list.order, i - 1)
        invariant Forwards(h, i, h.entries[o].text) == Forwards(h, j0, h.entries[o].text)
        decreases |h.entries| - i
      {
        var found := IsFound(node, oldLine, i, o);
        if found {
          return node, i;
        }
        EntryOf(i);
        node := list.node[node].next;
        i := i + 1;
      }
      j := -1;
    }

    /** The node with a given id, searched for from where the last such search ended. */
    method FindId(id: int) returns (node: int, ghost j: int)
      requires Valid() && IdsOk(h)
      modifies this`idNode
      ensures Valid()
      ensures j == (if h.enable then WithId(h.entries, 0, id) else -1) && IsNode(node, j)
    {
      hide LineStore.Valid, LineList.Valid, Busy, Kept, Nseg, Counted, Shown, Refs, PrefixShown, IdsOk;
      ListSize();
      if !enable || list.head == NULL {
        return NULL, -1;
      }
      node := if idNode == NULL then list.head else idNode;
      ghost var i := NodeIndex(node);
      EntryOf(i);
      if list.node[node].id < id {
        node, j := ScanForwards(node, id, i);
        idNode := if node != NULL then node else list.tail;
      } else {
        node, j := ScanBackwards(node, id, i);
        idNode := if node != NULL then node else list.head;
      }
    }

    lemma NodeIndex(node: int) returns (i: int)
      requires node in list.order
      ensures 0 <= i < |list.order| && list.order[i] == node
    {
      i :| 0 <= i < |list.order| && list.order[i] == node;
    }

    method ScanForwards(start: int, id: int, ghost i0: int) returns (node: int, ghost j: int)
      requires Valid() && IdsOk(h) && 0 <= i0 < |list.order| == |h.entries| && list.order[i0] == start
      requires h.entries[i0].id < id
      ensures j == WithId(h.entries, 0, id) && IsNode(node, j)
    {
      hide Valid, IdsOk;
      ListSize();
      IdsIncrease(h);
      node := start;
      j := i0;
      EntryOf(i0);
      while node != NULL && list.node[node].id != id
        invariant i0 <= j <= |h.entries| && node == NextOf(list.order, j - 1) && (node != NULL ==> node in list.node)
        invariant node != NULL ==> list.node[node].id == h.entries[j].id
        invariant forall k :: i0 <= k < j ==> h.entries[k].id != id
        decreases |h.entries| - j
      {
        EntryOf(j);
        if j + 1 < |h.entries| { EntryOf(j + 1); }
        node := list.node[node].next;
        j := j + 1;
      }
      if node == NULL {
        j := -1;
      }
      WithIdAbove(h.entries, id, i0, j, h.seqno + 1);
    }

    method ScanBackwards(start: int, id: int, ghost i0: int) returns (node: int, ghost j: int)
      requires Valid() && IdsOk(h) && 0 <= i0 < |list.order| == |h.entries| && list.order[i0] == start
      requires h.entries[i0].id >= id
      ensures j == WithId(h.entries, 0, id) && IsNode(node, j)
    {
      hide Valid, IdsOk;
      ListSize();
      IdsIncrease(h);
      node := start;
      j := i0;
      EntryOf(i0);
      while node != NULL && list.node[node].id != id
        invariant -1 <= j <= i0 && IsNode(node, j) && (node != NULL ==> node in list.node)
        invariant node != NULL ==> list.node[node].id == h.entries[j].id
        invariant forall k :: j < k <= i0 ==> h.entries[k].id != id
        decreases j
      {
        EntryOf(j);
        if j > 0 { EntryOf(j - 1); }
        node := list.node[node].prev;
        j := j - 1;
      }
      WithIdBelow(h.entries, id, i0, j, h.seqno + 1);
    }

    /** What every recall function requires of its line buffer: a terminated string. */
    ghost predicate LineBuffer(line: array<char>, dim: int)
      reads line
    {
      |CString(line[..])| < line.Length && dim <= line.Length
    }

    /** The outcome of a recall function: the new state and, if `found`, the recalled line. */
    twostate predicate Outcome(op: Op, found: bool, line: array<char>, dim: int)
      requires InRange(old(h)) && 1 <= dim
      reads this, line
    {
      var r := Apply(old(h), op, isSpace);
      && h == r.h
      && (found <==> r.text.Some?)
      && (if found then CString(line[..]) == Truncated(r.text.value, dim) else line[..] == old(line[..]))
    }

    /** Make entry j the last line recalled. */
    method SetRecall(node: int, ghost j: int)
      requires Valid() && 0 <= j && IsNode(node, j)
      modifies this`recall, this`h
      ensures Valid() && recall == node && InRange(old(h)) && j < |old(h).entries| && h == old(h).(recall := j)
    {
      hide LineStore.Valid, LineList.Valid, Busy, Kept, Nseg, Counted, Shown, Refs, PrefixShown;
      ListSize();
      recall := node;
      h := h.(recall := j);
    }

    /** Copy the text of entry j. */
    method ReturnEntry(node: int, line: array<char>, dim: int, ghost j: int)
      requires Valid() && 0 <= j && IsNode(node, j) && 1 <= dim <= line.Length
      modifies line
      ensures Valid() && j < |h.entries| && CString(line[..]) == Truncated(h.entries[j].text, dim)
    {
      hide Valid, LineStore.Valid, LineList.Valid, CString, Truncated;
      EntryOf(j);
      StoreValid();
      var a := list.node[node].line;
      ghost var t := store.lines[a].text;
      assert t == h.entries[j].text;
      store.ReturnLine(a, line, dim);
    }

    lemma StoreValid()
      requires Valid()
      ensures store.Valid()
    {
    }

    lemma PrefixKept(h0: Hist, line: string)
      requires InRange(h0) && Usable(h0)
      ensures var p := Prepare(h0, line, isSpace).h; p.prefix == h0.prefix && p.enable == h0.enable
    {
      PrepareKeeps(h0, line, isSpace);
    }

    /** Recall the next older line of the current group that has the search prefix. */
    method FindBackwards(line: array<char>, dim: int) returns (found: bool)
      requires Valid() && InRange(h) && LineBuffer(line, dim) && LiteralPrefix()
      requires Usable(h) && |CString(line[..])| < dim ==> Preservable(h, CString(line[..]))
      modifies Parts(), line
      ensures Valid()
      ensures |old(CString(line[..]))| < dim ==> Outcome(GoBack(old(CString(line[..]))), found, line, dim)
      ensures dim <= |old(CString(line[..]))| ==> !found && h == old(h) && line[..] == old(line[..])
    {
      hide LineStore.Valid, LineList.Valid, Busy, Kept, Nseg, Counted, Shown, Refs, PrefixShown, Preservable, Delivered,
        HasGlob,
           Prepare, Backwards, Found, CString, Truncated;
      found := false;
      var text := CString(line[..]);
      if !enable || store.segs.buffer.Length == 0 || maxLines == 0 || dim < |text| + 1 {
        return;
      }
      var err := PrepareForRecall(text);
      if err {
        return;
      }
      PrefixKept(old(h), text);
      ListSize();
      EntryOf(h.recall);
      var n := list.node[recall];
      var node; ghost var j;
      node, j := SearchBackwards(n.prev, n.line, h.recall - 1, h.recall);
      if node != NULL {
        SetRecall(node, j);
        ReturnEntry(node, line, dim, j);
        found := true;
      }
    }

    /** Recall the next newer line of the current group that has the search prefix; the session
        ends when that is the preserved input line. */
    method FindForwards(line: array<char>, dim: int) returns (found: bool)
      requires Valid() && InRange(h) && LineBuffer(line, dim) && LiteralPrefix()
      modifies Parts(), line
      ensures Valid()
      ensures |old(CString(line[..]))| < dim ==> Outcome(GoForward, found, line, dim)
      ensures dim <= |old(CString(line[..]))| ==> !found && h == old(h) && line[..] == old(line[..])
    {
      hide LineStore.Valid, LineList.Valid, Busy, Kept, Nseg, Counted, Shown, Refs, PrefixShown, Delivered, HasGlob,
           Prepare, Forwards, Found, CString, Truncated;
      found := false;
      var text := CString(line[..]);
      if !enable || store.segs.buffer.Length == 0 || maxLines == 0 || dim < |text| + 1 || recall == NULL {
        return;
      }
      ListSize();
      EntryOf(h.recall);
      var n := list.node[recall];
      var node; ghost var j;
      node, j := SearchForwards(n.next, n.line, h.recall + 1, h.recall);
      if node != NULL {
        ReturnEntry(node, line, dim, j);
        SetRecall(node, j);
        CancelAtTail(node, j);
        found := true;
      }
    }

    /** End the session if the last line recalled is the preserved input line. */
    method CancelAtTail(node: int, ghost j: int)
      requires Valid() && 0 <= j && IsNode(node, j)
      modifies Parts()
      ensures Valid() && |old(h).entries| > j
      ensures h == if j == |old(h).entries| - 1 then Cancel(old(h)) else old(h)
    {
      hide LineStore.Valid, LineList.Valid, Busy, Kept, Nseg, Counted, Shown, Refs, PrefixShown, Cancel;
      ListSize();
      if node == list.tail {
        CancelSearch();
      }
    }

    /** The node of the oldest line of the current group. */
    method SearchOldest() returns (node: int, ghost j: int)
      requires Valid()
      ensures j == Oldest(h, 0) && IsNode(node, j)
    {
      hide LineStore.Valid, LineList.Valid, Busy, Kept, Nseg, Counted, Shown, Refs, PrefixShown;
      ListSize();
      node := list.head;
      ghost var i := 0;
      while node != NULL
        invariant 0 <= i && node == NextOf(list.order, i - 1)
        invariant Oldest(h, i) == Oldest(h, 0)
        decreases |h.entries| - i
      {
        EntryOf(i);
        if list.node[node].group == group {
          return node, i;
        }
        node := list.node[node].next;
        i := i + 1;
      }
      j := -1;
    }

    /** Recall the oldest line of the current group. */
    method OldestLine(line: array<char>, dim: int) returns (found: bool)
      requires Valid() && InRange(h) && LineBuffer(line, dim)
      requires Usable(h) && |CString(line[..])| < dim ==> Preservable(h, CString(line[..]))
      modifies Parts(), line
      ensures Valid()
      ensures |old(CString(line[..]))| < dim ==> Outcome(GoOldest(old(CString(line[..]))), found, line, dim)
      ensures dim <= |old(CString(line[..]))| ==> !found && h == old(h) && line[..] == old(line[..])
    {
      hide LineStore.Valid, LineList.Valid, Busy, Kept, Nseg, Counted, Shown, Refs, PrefixShown, Preservable,
           Prepare, Oldest, CString, Truncated;
      found := false;
      var text := CString(line[..]);
      if !enable || store.segs.buffer.Length == 0 || maxLines == 0 || dim < |text| + 1 {
        return;
      }
      var err := PrepareForRecall(text);
      if err {
        return;
      }
      var node; ghost var j;
      node, j := SearchOldest();
      ListSize();
      if node != NULL {
        ReturnEntry(node, line, dim, j);
        SetRecall(node, j);
        CancelAtTail(node, j);
        found := true;
      }
    }

    /** Recall the line with a given id, if it belongs to the current group. */
    method RecallLine(id: int, line: array<char>, dim: int) returns (found: bool)
      requires Valid() && InRange(h) && IdsOk(h) && LineBuffer(line, dim) && 1 <= dim
      requires Usable(h) ==> Preservable(h, CString(line[..]))
      modifies Parts(), line
      ensures Valid()
      ensures Outcome(GoTo(id, old(CString(line[..]))), found, line, dim)
    {
      hide LineStore.Valid, LineList.Valid, Busy, Kept, Nseg, Counted, Shown, Refs, PrefixShown, Preservable,
           Prepare, WithId, CString, Truncated, IdsOk;
      found := false;
      var text := CString(line[..]);
      if !enable || store.segs.buffer.Length == 0 || maxLines == 0 {
        return;
      }
      var err := PrepareForRecall(text);
      if err {
        return;
      }
      PrepareIds(old(h), text, isSpace);
      PrefixKept(old(h), text);
      var node; ghost var j;
      node, j := FindId(id);
      ListSize();
      if node == NULL {
        return;
      }
      EntryOf(j);
      if list.node[node].group != group {
        return;
      }
      SetRecall(node, j);
      ReturnEntry(node, line, dim, j);
      found := true;
    }

    /** Recall the input line that the session preserves, and end the session. */
    method CurrentLine(line: array<char>, dim: int) returns (found: bool)
      requires Valid() && InRange(h) && LineBuffer(line, dim)
      modifies Parts(), line
      ensures Valid()
      ensures |old(CString(line[..]))| < dim ==> Outcome(GoCurrent, found, line, dim)
      ensures dim <= |old(CString(line[..]))| ==> !found && h == old(h) && line[..] == old(line[..])
    {
      hide LineStore.Valid, LineList.Valid, Busy, Kept, Nseg, Counted, Shown, Refs, PrefixShown, CString, Truncated;
      found := false;
      var text := CString(line[..]);
      if !enable || store.segs.buffer.Length == 0 || maxLines == 0 || recall == NULL || dim < |text| + 1 {
        return;
      }
      ListSize();
      ReturnEntry(list.tail, line, dim, |h.entries| - 1);
      CancelSearch();
      found := true;
    }

    /** Drop the reference of the search prefix. */
    method DropPrefix()
      requires Valid()
      modifies this`prefix, this`h, store, store.segs, store.segs.buffer, store.mem, store.bucket
      ensures Valid() && prefix == NULL && store.segs.buffer == old(store.segs.buffer)
      ensures h == old(h).(prefix := None)
    {
      hide LineStore.Valid, LineList.Valid, Busy, Kept, Nseg, Counted, Shown, Refs, Unique;
      if prefix == NULL {
        return;
      }
      UniqueTexts();
      PrefixCounted(store.lines, list.items, prefix);
      store.Unref(prefix);
      UniqueTexts();
      PrefixDropped(h.entries, list.items, prefix, h.prefix, old(store.lines),
                    old(store.index), store.lines, store.index);
      prefix := NULL;
      h := h.(prefix := None);
    }

    /** Set the prefix of later searches to the first `prefixLen` characters of a line. A longer
        one than 0 is not set during a recall session. */
    method SearchPrefix(line: string, prefixLen: int) returns (err: bool)
      requires Valid() && NoNul(line) && prefixLen <= |line|
      requires recall == NULL || prefixLen <= 0
      modifies Parts()
      ensures Valid()
      ensures Added(h, err) == SetPrefix(old(h), line[..if prefixLen > 0 then prefixLen else 0])
    {
      hide LineStore.Valid, LineList.Valid, Busy, Kept, Nseg, Counted, Shown, Refs, Unique, MakeRoom, Storable;
      err := false;
      if !enable || store.segs.buffer.Length == 0 || maxLines == 0 {
        return;
      }
      DropPrefix();
      if prefixLen > 0 {
        var a := AcquireCopy(line[..prefixLen]);
        if a == NULL {
          return true;
        }
        PrefixHeld(h.entries, list.items, store.lines, a);
        prefix := a;
        h := h.(prefix := Some(line[..prefixLen]));
      }
    }

    /** Select the group that later lines belong to. */
    method SetGroup(group: int)
      requires Valid()
      modifies Parts()
      ensures Valid() && h == Grouped(old(h), group)
    {
      hide LineStore.Valid, LineList.Valid, Busy, Kept, Nseg, Counted, Shown, Refs, PrefixShown;
      if this.group != group {
        CancelSearch();
        this.group := group;
        h := h.(group := group);
      }
    }

    /** Discard the lines of the current group. */
    method ClearGroup()
      requires Valid()
      modifies Parts()
      ensures Valid() && h == GroupCleared(old(h))
    {
      hide LineStore.Valid, LineList.Valid, Busy, Kept, Nseg, Counted, Shown, Refs, PrefixShown, OtherGroups;
      CancelSearch();
      ListSize();
      ghost var h1, k := h, 0;
      var node := list.head;
      while node != NULL
        invariant Valid() && recall == NULL && k <= |h.entries| == |list.order| && node == NextOf(list.order, k - 1)
        invariant h == h1.(entries := h.entries) && NULL !in list.order
        invariant store.segs.buffer == old(store.segs.buffer)
        invariant h.entries[..k] + OtherGroups(h.entries[k..], group) == OtherGroups(h1.entries, group)
        decreases |h.entries| - k
      {
        EntryOf(k);
        OtherGroupsStep(h.entries, k, group);
        var next := list.node[node].next;
        if list.node[node].group == group {
          DiscardLine(node, k);
        } else {
          k := k + 1;
        }
        ListSize();
        node := next;
      }
      OtherGroupsEnd(h.entries, k, group);
    }

    /** Allocate a buffer when there is none. */
    method NewBuffer(nbuff: nat)
      requires Valid() && recall == NULL && store.segs.buffer.Length == 0
      modifies this, store.segs
      ensures Valid() && recall == NULL && h == old(h).(nbuff := nbuff) && h.entries == []
    {
      hide LineStore.Valid, LineList.Valid, Busy, Kept, Nseg, Counted, Shown, Refs, PrefixShown;
      store.SegmentsAddUp();
      NothingKept(h.entries, list.items, prefix, h.prefix, store.lines);
      store.Allocate(nbuff);
      nline := 0;
      h := h.(nbuff := nbuff);
    }

    /** Forget every line and drop the buffer. No prefix is pinned. */
    method DeleteBuffer()
      requires Valid() && recall == NULL && prefix == NULL
      modifies Parts()
      ensures Valid() && recall == NULL && h == old(h).(entries := [], nbuff := 0)
    {
      hide LineStore.Valid, LineList.Valid, Kept, Nseg;
      list.Clear();
      nline := 0;
      idNode := NULL;
      store.Clear();
      store.Allocate(0);
      h := h.(entries := [], nbuff := 0);
    }

    /** Change the number of segments from one that is not 0 to another. */
    method ChangeBuffer(nbuff: nat)
      requires Valid() && recall == NULL && nbuff > 0
      requires h.prefix.Some? ==> Nseg(|h.prefix.value|) <= nbuff
      modifies Parts()
      ensures Valid() && recall == NULL && h == old(h).(entries := DropSegs(old(h).entries, h.prefix, nbuff, 0),
                                     nbuff := nbuff)
    {
      hide LineStore.Valid, LineList.Valid, Busy, Kept, Nseg, Counted, Shown, Refs, PrefixShown;
      ListSize();
      while list.head != NULL && store.segs.nbusy > nbuff
        invariant Valid() && recall == NULL && h == old(h).(entries := h.entries)
        invariant store.segs.buffer == old(store.segs.buffer)
        invariant DropSegs(h.entries, h.prefix, nbuff, 0) == DropSegs(old(h).entries, h.prefix, nbuff, 0)
        invariant list.head == NULL <==> h.entries == []
        decreases |h.entries|
      {
        ListSize();
        WithoutFirst(h.entries);
        DiscardLine(list.head, 0);
        ListSize();
      }
      BusyNothing(h.prefix);
      store.Resize(nbuff);
      h := h.(nbuff := nbuff);
    }

    /** Change the size of the buffer to a number of bytes. */
    method Resize(bufsize: nat)
      requires Valid() && InRange(h)
      requires var n := (bufsize + SEG_SIZE - 1) / SEG_SIZE;
               n != h.nbuff && h.prefix.Some? ==> Nseg(|h.prefix.value|) <= n
      modifies Parts()
      ensures Valid() && h == Resized(old(h), (bufsize + SEG_SIZE - 1) / SEG_SIZE)
    {
      hide LineStore.Valid, LineList.Valid, Busy, Kept, Counted, Shown, Refs;
      var nbuff := (bufsize + SEG_SIZE - 1) / SEG_SIZE;
      if store.segs.buffer.Length != nbuff {
        CancelFacts(h);
        CancelSearch();
        if store.segs.buffer.Length == 0 && nbuff > 0 {
          NewBuffer(nbuff);
        } else if nbuff == 0 {
          DeleteBuffer();
        } else {
          ChangeBuffer(nbuff);
        }
      }
    }
  }
}
