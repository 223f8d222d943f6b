/** How the linked structures of a history list represent the values of HistorySpec. */
module HistoryRefs {
  import opened Basics
  import opened Segments
  import opened LineStores
  import opened LineLists
  import opened HistorySpec

  ghost function LinesIn(items: seq<Item>): seq<int> {
    seq(|items|, i requires 0 <= i < |items| => items[i].line)
  }

  /** The references to stored lines: from the list, from the search prefix, and from a caller
      that has just acquired a line. */
  ghost function Refs(items: seq<Item>, prefix: int, held: int): multiset<int> {
    multiset(LinesIn(items)) + (if prefix == NULL then multiset{} else multiset{prefix})
    + (if held == NULL then multiset{} else multiset{held})
  }

  /** The reference counts are exact, and nothing is stored without being referred to. */
  ghost predicate Counted(lines: map<int, Line>, refs: multiset<int>) {
    && (forall a :: a in refs ==> a in lines)
    && (forall a :: a in lines ==> lines[a].used == refs[a] >= 1)
  }

  /** `index` finds the address of each stored text. */
  ghost predicate Unique(lines: map<int, Line>, index: map<string, int>) {
    && (forall a :: a in lines ==> lines[a].text in index && index[lines[a].text] == a)
    && (forall t :: t in index ==> TextHeld(t, index, lines))
  }

  ghost predicate EntryShown(e: Entry, it: Item, lines: map<int, Line>) {
    it.line in lines && e == Entry(it.id, it.group, lines[it.line].text)
  }

  ghost predicate PrefixShown(p: Option<string>, prefix: int, lines: map<int, Line>) {
    if prefix == NULL then p == None else prefix in lines && p == Some(lines[prefix].text)
  }

  ghost predicate Shown(es: seq<Entry>, items: seq<Item>, lines: map<int, Line>) {
    && |es| == |items|
    && (forall k :: 0 <= k < |items| ==> EntryShown(es[k], items[k], lines))
  }

  /** The lines `lines'` are `lines` after a reference to `a` has been dropped. */
  ghost predicate Dropped(lines: map<int, Line>, lines': map<int, Line>, a: int) {
    && a in lines
    && lines' == (if lines[a].used > 1 then lines[a := lines[a].(used := lines[a].used - 1)] else lines - {a})
  }

  lemma RefsWithout(items: seq<Item>, prefix: int, held: int, k: int)
    requires 0 <= k < |items|
    ensures items[k].line in Refs(items, prefix, held)
    ensures Refs(Without(items, k), prefix, held) == Refs(items, prefix, held) - multiset{items[k].line}
  {
    var s := LinesIn(items);
    assert LinesIn(Without(items, k)) == s[..k] + s[k + 1..];
    assert s == s[..k] + [s[k]] + s[k + 1..];
  }

  lemma RefsAppend(items: seq<Item>, prefix: int, it: Item)
    requires it.line != NULL
    ensures Refs(items + [it], prefix, NULL) == Refs(items, prefix, it.line)
  {
    assert LinesIn(items + [it]) == LinesIn(items) + [it.line];
  }

  lemma CountedDrop(lines: map<int, Line>, lines': map<int, Line>, refs: multiset<int>, a: int)
    requires Counted(lines, refs) && a in refs && Dropped(lines, lines', a)
    ensures Counted(lines', refs - multiset{a})
  {
  }

  lemma RefIn(items: seq<Item>, prefix: int, held: int, k: int)
    requires 0 <= k < |items|
    ensures items[k].line in Refs(items, prefix, held)
  {
    assert LinesIn(items)[k] == items[k].line;
  }

  /** What a reference that is left refers to is still stored. */
  lemma ShownDrop(es: seq<Entry>, items: seq<Item>, prefix: int, p: Option<string>, held: int,
                  lines: map<int, Line>, lines': map<int, Line>, a: int)
    requires Shown(es, items, lines) && PrefixShown(p, prefix, lines) && Dropped(lines, lines', a)
    requires Counted(lines', Refs(items, prefix, held))
    ensures Shown(es, items, lines') && PrefixShown(p, prefix, lines')
  {
    forall k | 0 <= k < |items|
      ensures EntryShown(es[k], items[k], lines')
    {
      RefIn(items, prefix, held, k);
      assert EntryShown(es[k], items[k], lines);
    }
    assert prefix != NULL ==> prefix in Refs(items, prefix, held);
  }

  lemma CountedAt(lines: map<int, Line>, refs: multiset<int>, a: int)
    requires Counted(lines, refs) && a in refs
    ensures a in lines && lines[a].used == refs[a] >= 1
  {
  }

  /** The number of entries that refer to the stored line a. */
  ghost function Entries(items: seq<Item>, a: int): nat {
    if items == [] then 0
    else Entries(items[..|items| - 1], a) + (if items[|items| - 1].line == a then 1 else 0)
  }

  lemma {:induction false} EntriesAreLines(items: seq<Item>, a: int)
    ensures multiset(LinesIn(items))[a] == Entries(items, a)
    decreases |items|
  {
    if items != [] {
      var k := |items| - 1;
      EntriesAreLines(items[..k], a);
      assert LinesIn(items) == LinesIn(items[..k]) + [items[k].line];
    }
  }

  lemma WithoutSize<T>(s: seq<T>, k: int)
    requires 0 <= k < |s|
    ensures |Without(s, k)| == |s| - 1
  {
  }

  lemma ShownSize(es: seq<Entry>, items: seq<Item>, lines: map<int, Line>)
    requires Shown(es, items, lines)
    ensures |es| == |items|
  {
  }

  lemma ShownWithout(es: seq<Entry>, items: seq<Item>, lines: map<int, Line>, k: int)
    requires Shown(es, items, lines) && 0 <= k < |items|
    ensures Shown(Without(es, k), Without(items, k), lines)
    ensures EntryShown(es[k], items[k], lines)
  {
    forall j | 0 <= j < |items| - 1
      ensures EntryShown(Without(es, k)[j], Without(items, k)[j], lines)
    {
      assert EntryShown(es[if j < k then j else j + 1], items[if j < k then j else j + 1], lines);
    }
  }

  /** A text is in the store exactly when the list, the prefix or the caller refers to it. */
  lemma KeptIndexed(es: seq<Entry>, items: seq<Item>, prefix: int, p: Option<string>, held: int,
                    lines: map<int, Line>, index: map<string, int>, t: string)
    requires Shown(es, items, lines) && PrefixShown(p, prefix, lines) && Unique(lines, index)
    requires Counted(lines, Refs(items, prefix, held))
    ensures t in index <==> Kept(es, p, t) || (held != NULL && held in lines && lines[held].text == t)
  {
    if t in index {
      assert TextHeld(t, index, lines);
      var a := index[t];
      assert a in lines && a in Refs(items, prefix, held);
      if a != prefix && a != held {
        assert a in LinesIn(items);
        var k :| 0 <= k < |items| && LinesIn(items)[k] == a;
        assert EntryShown(es[k], items[k], lines);
      }
    }
    if Kept(es, p, t) && p != Some(t) {
      var k :| 0 <= k < |es| && es[k].text == t;
      assert EntryShown(es[k], items[k], lines);
    }
  }

  /** The segments that a line which the caller holds needs beyond those of the list. */
  ghost function HeldSegs(es: seq<Entry>, p: Option<string>, lines: map<int, Line>, held: int): nat {
    if held == NULL || held !in lines || Kept(es, p, lines[held].text) then 0 else Nseg(|lines[held].text|)
  }

  /** Dropping entry k of the list, and its reference. */
  lemma EntryDropped(es: seq<Entry>, items: seq<Item>, prefix: int, p: Option<string>, lines: map<int, Line>,
                     index: map<string, int>, lines': map<int, Line>, index': map<string, int>, k: int, a: int)
    requires Shown(es, items, lines) && PrefixShown(p, prefix, lines) && Unique(lines, index)
    requires Counted(lines, Refs(items, prefix, NULL)) && 0 <= k < |items| && items[k].line == a
    requires Dropped(lines, lines', a) && Unique(lines', index')
    requires index' == if lines[a].used > 1 then index else index - {lines[a].text}
    ensures |es| == |items|
    ensures Shown(Without(es, k), Without(items, k), lines') && PrefixShown(p, prefix, lines')
    ensures Counted(lines', Refs(Without(items, k), prefix, NULL))
    ensures Busy(es, p) == Busy(Without(es, k), p) + (if lines[a].used > 1 then 0 else Nseg(|lines[a].text|))
  {
    hide Busy, Kept, Nseg, Refs, Without, Shown, TextHeld;
    ShownSize(es, items, lines);
    RefsWithout(items, prefix, NULL, k);
    CountedDrop(lines, lines', Refs(items, prefix, NULL), a);
    ShownWithout(es, items, lines, k);
    ShownDrop(Without(es, k), Without(items, k), prefix, p, NULL, lines, lines', a);
    BusyWithout(es, p, k);
    KeptIndexed(Without(es, k), Without(items, k), prefix, p, NULL, lines', index', lines[a].text);
  }

  /** A caller acquires another reference to a stored line. */
  lemma HeldAgain(es: seq<Entry>, items: seq<Item>, prefix: int, p: Option<string>, lines: map<int, Line>, a: int)
    requires Shown(es, items, lines) && PrefixShown(p, prefix, lines) && a in lines && a != NULL
    requires Counted(lines, Refs(items, prefix, NULL))
    ensures var lines' := lines[a := lines[a].(used := lines[a].used + 1)];
            Shown(es, items, lines') && PrefixShown(p, prefix, lines') && Counted(lines', Refs(items, prefix, a))
  {
    var lines' := lines[a := lines[a].(used := lines[a].used + 1)];
    forall k | 0 <= k < |items|
      ensures EntryShown(es[k], items[k], lines')
    {
      assert EntryShown(es[k], items[k], lines);
    }
    assert Refs(items, prefix, a) == Refs(items, prefix, NULL) + multiset{a};
  }

  /** A caller acquires a line that has just been stored. */
  lemma HeldNew(es: seq<Entry>, items: seq<Item>, prefix: int, p: Option<string>, lines: map<int, Line>,
                a: int, t: string)
    requires Shown(es, items, lines) && PrefixShown(p, prefix, lines) && a !in lines && a != NULL
    requires Counted(lines, Refs(items, prefix, NULL))
    ensures var lines' := lines[a := Line(t, 1)];
            Shown(es, items, lines') && PrefixShown(p, prefix, lines') && Counted(lines', Refs(items, prefix, a))
  {
    var lines' := lines[a := Line(t, 1)];
    forall k | 0 <= k < |items|
      ensures EntryShown(es[k], items[k], lines')
    {
      assert EntryShown(es[k], items[k], lines);
    }
    assert Refs(items, prefix, a) == Refs(items, prefix, NULL) + multiset{a};
  }

  /** The reference that a caller holds becomes an entry of the list. */
  lemma HeldAppended(es: seq<Entry>, items: seq<Item>, prefix: int, p: Option<string>, lines: map<int, Line>, it: Item)
    requires Shown(es, items, lines) && it.line in lines && it.line != NULL
    requires Counted(lines, Refs(items, prefix, it.line))
    ensures var e := Entry(it.id, it.group, lines[it.line].text);
            && Shown(es + [e], items + [it], lines)
            && Counted(lines, Refs(items + [it], prefix, NULL))
            && Busy(es + [e], p) == Busy(es, p) + HeldSegs(es, p, lines, it.line)
  {
    var e := Entry(it.id, it.group, lines[it.line].text);
    RefsAppend(items, prefix, it);
    BusyAppend(es, p, e);
    forall k | 0 <= k < |items| + 1
      ensures EntryShown((es + [e])[k], (items + [it])[k], lines)
    {
      assert k < |items| ==> EntryShown(es[k], items[k], lines);
    }
  }

  /** Dropping the reference of the search prefix. */
  lemma PrefixDropped(es: seq<Entry>, items: seq<Item>, prefix: int, p: Option<string>, lines: map<int, Line>,
                      index: map<string, int>, lines': map<int, Line>, index': map<string, int>)
    requires Shown(es, items, lines) && PrefixShown(p, prefix, lines) && Unique(lines, index)
    requires Counted(lines, Refs(items, prefix, NULL)) && prefix != NULL
    requires Dropped(lines, lines', prefix) && Unique(lines', index')
    requires index' == if lines[prefix].used > 1 then index else index - {lines[prefix].text}
    ensures Shown(es, items, lines') && Counted(lines', Refs(items, NULL, NULL))
    ensures Busy(es, p) == Busy(es, None) + (if lines[prefix].used > 1 then 0 else Nseg(|lines[prefix].text|))
  {
    hide Busy, Kept, Nseg, Shown, TextHeld;
    assert Refs(items, NULL, NULL) == Refs(items, prefix, NULL) - multiset{prefix};
    CountedDrop(lines, lines', Refs(items, prefix, NULL), prefix);
    ShownDrop(es, items, NULL, None, NULL, lines, lines', prefix);
    BusyPrefix(es, lines[prefix].text);
    KeptIndexed(es, items, NULL, None, NULL, lines', index', lines[prefix].text);
  }

  lemma PrefixCounted(lines: map<int, Line>, items: seq<Item>, prefix: int)
    requires Counted(lines, Refs(items, prefix, NULL)) && prefix != NULL
    ensures prefix in lines && lines[prefix].used >= 1
  {
    assert prefix in Refs(items, prefix, NULL);
  }

  /** The reference that a caller holds becomes that of the search prefix. */
  lemma PrefixHeld(es: seq<Entry>, items: seq<Item>, lines: map<int, Line>, a: int)
    requires Shown(es, items, lines) && a in lines && a != NULL && Counted(lines, Refs(items, NULL, a))
    ensures Counted(lines, Refs(items, a, NULL)) && PrefixShown(Some(lines[a].text), a, lines)
    ensures Busy(es, Some(lines[a].text)) == Busy(es, None) + HeldSegs(es, None, lines, a)
  {
    assert Refs(items, a, NULL) == Refs(items, NULL, a);
    BusyPrefix(es, lines[a].text);
  }

  /** A list that occupies no segments is empty, and nothing is stored. */
  lemma NothingKept(es: seq<Entry>, items: seq<Item>, prefix: int, p: Option<string>, lines: map<int, Line>)
    requires Shown(es, items, lines) && PrefixShown(p, prefix, lines) && Counted(lines, Refs(items, prefix, NULL))
    requires Busy(es, p) <= 0
    ensures es == [] && items == [] && p == None && prefix == NULL && lines == map[]
  {
    if es != [] { BusyPositive(es, p); }
    assert LinesIn(items) == [];
    assert forall a :: a in lines ==> a in Refs(items, prefix, NULL);
  }
}
