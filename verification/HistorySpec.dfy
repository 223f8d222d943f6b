/** What the history list of libtecla/history.c does, on plain values: lists of lines, instead
    of linked nodes and shared segments. */
module HistorySpec {
  import opened Basics
  import opened Segments

  datatype Entry = Entry(id: int, group: int, text: string)

  /** The state of a history list. `recall` is the index of the last line recalled, or -1 when
      no recall session is active; during a session the last entry is the preserved input line. */
  datatype Hist = Hist(entries: seq<Entry>, recall: int, prefix: Option<string>, seqno: int, group: int,
                       maxLines: int, nbuff: int, enable: bool)

  /** Is there a reference to the text `t`? */
  ghost predicate Kept(es: seq<Entry>, prefix: Option<string>, t: string) {
    prefix == Some(t) || exists k :: 0 <= k < |es| && es[k].text == t
  }

  /** The number of segments that hold the lines and the prefix, each distinct text once. */
  ghost function Busy(es: seq<Entry>, prefix: Option<string>): nat {
    if es == [] then match prefix { case None => 0 case Some(t) => Nseg(|t|) }
    else Busy(es[1..], prefix) + (if Kept(es[1..], prefix, es[0].text) then 0 else Nseg(|es[0].text|))
  }

  lemma {:induction false} BusyAppend(es: seq<Entry>, prefix: Option<string>, e: Entry)
    ensures Busy(es + [e], prefix) == Busy(es, prefix) + (if Kept(es, prefix, e.text) then 0 else Nseg(|e.text|))
  {
    if es == [] {
      assert Busy([e], prefix) == Busy([e][1..], prefix)
             + (if Kept([e][1..], prefix, e.text) then 0 else Nseg(|e.text|));
      assert [e][1..] == [] && [] + [e] == [e];
    } else {
      var es1 := es[1..];
      BusyAppend(es1, prefix, e);
      assert (es + [e])[1..] == es1 + [e];
      KeptAppend(es1, prefix, e, es[0].text);
      KeptCons(es[0], es1, prefix, e.text);
      assert [es[0]] + es1 == es;
    }
  }

  lemma KeptAppend(es: seq<Entry>, prefix: Option<string>, e: Entry, t: string)
    ensures Kept(es + [e], prefix, t) <==> Kept(es, prefix, t) || e.text == t
  {
    if Kept(es, prefix, t) && prefix != Some(t) {
      var k :| 0 <= k < |es| && es[k].text == t;
      assert (es + [e])[k].text == t;
    }
    assert (es + [e])[|es|] == e;
  }

  lemma KeptCons(e: Entry, es: seq<Entry>, prefix: Option<string>, t: string)
    ensures Kept([e] + es, prefix, t) <==> Kept(es, prefix, t) || e.text == t
  {
    if Kept(es, prefix, t) && prefix != Some(t) {
      var k :| 0 <= k < |es| && es[k].text == t;
      assert ([e] + es)[k + 1].text == t;
    }
    assert ([e] + es)[0] == e;
  }

  lemma KeptWithout(es: seq<Entry>, prefix: Option<string>, k: int, t: string)
    requires 0 <= k < |es|
    ensures Kept(es, prefix, t) <==> Kept(Without(es, k), prefix, t) || es[k].text == t
  {
    var d := Without(es, k);
    if Kept(es, prefix, t) && prefix != Some(t) && es[k].text != t {
      var j :| 0 <= j < |es| && es[j].text == t;
      assert d[if j < k then j else j - 1].text == t;
    }
    if Kept(d, prefix, t) && prefix != Some(t) {
      var j :| 0 <= j < |d| && d[j].text == t;
      assert es[if j < k then j else j + 1].text == t;
    }
  }

  /** Forgetting an entry frees its segments exactly when nothing else refers to its text. */
  lemma {:induction false} BusyWithout(es: seq<Entry>, prefix: Option<string>, k: int)
    requires 0 <= k < |es|
    ensures Busy(es, prefix) ==
            Busy(Without(es, k), prefix) + (if Kept(Without(es, k), prefix, es[k].text) then 0 else Nseg(|es[k].text|))
  {
    var d := Without(es, k);
    if k == 0 {
      assert d == es[1..];
    } else {
      var es1 := es[1..];
      var d1 := Without(es1, k - 1);
      assert d[1..] == d1 && d[0] == es[0] && d == [es[0]] + d1;
      BusyWithout(es1, prefix, k - 1);
      KeptCons(es[0], d1, prefix, es[k].text);
      KeptWithout(es1, prefix, k - 1, es[0].text);
    }
  }

  lemma BusyPositive(es: seq<Entry>, prefix: Option<string>)
    requires es != []
    ensures Busy(es, prefix) > 0
  {
    if Kept(es[1..], prefix, es[0].text) {
      BusyKept(es[1..], prefix, es[0].text);
    }
  }

  lemma {:induction false} BusyKept(es: seq<Entry>, prefix: Option<string>, t: string)
    requires Kept(es, prefix, t)
    ensures Busy(es, prefix) > 0
  {
    if es != [] && Kept(es[1..], prefix, es[0].text) {
      BusyKept(es[1..], prefix, es[0].text);
    }
  }

  lemma BusyNothing(prefix: Option<string>)
    ensures Busy([], prefix) == match prefix { case None => 0 case Some(t) => Nseg(|t|) }
  {
  }

  lemma {:induction false} BusyPrefix(es: seq<Entry>, t: string)
    ensures Busy(es, Some(t)) == Busy(es, None) + (if Kept(es, None, t) then 0 else Nseg(|t|))
  {
    if es != [] {
      BusyPrefix(es[1..], t);
      assert es == [es[0]] + es[1..];
      KeptCons(es[0], es[1..], None, t);
    }
  }

  // ---------- Adding a line ----------

  /** Are additions and searches acted upon at all? */
  predicate Usable(h: Hist) {
    h.enable && h.nbuff > 0 && h.maxLines != 0
  }

  /** The part of an input line that is archived. */
  function UpToNewline(line: string): (t: string)
    ensures |t| <= |line| && t == line[..|t|] && '\n' !in t
    ensures |t| < |line| ==> line[|t|] == '\n'
  {
    if line == [] || line[0] == '\n' then [] else [line[0]] + UpToNewline(line[1..])
  }

  predicate Blank(t: string, isSpace: char -> bool) {
    forall k :: 0 <= k < |t| ==> isSpace(t[k])
  }

  /** End a recall session. */
  function Cancel(h: Hist): Hist {
    if h.recall < 0 then h
    else h.(recall := -1, entries := if h.entries == [] then [] else h.entries[..|h.entries| - 1])
  }

  /** Discard the oldest lines until one more line is within the limit. */
  function DropLines(es: seq<Entry>, maxLines: int): seq<Entry> {
    if maxLines >= 0 && |es| > 0 && |es| >= maxLines then DropLines(es[1..], maxLines) else es
  }

  /** Discard the oldest lines until `need` segments are unused. */
  ghost function DropSegs(es: seq<Entry>, prefix: Option<string>, nbuff: int, need: int): seq<Entry> {
    if es == [] || nbuff - Busy(es, prefix) >= need then es else DropSegs(es[1..], prefix, nbuff, need)
  }

  /** The lines that are left when room for the text `t` has been made. */
  ghost function MakeRoom(es: seq<Entry>, prefix: Option<string>, nbuff: int, t: string): seq<Entry> {
    if Kept(es, prefix, t) then es else DropSegs(es, prefix, nbuff, Nseg(|t|))
  }

  ghost predicate Storable(es: seq<Entry>, prefix: Option<string>, nbuff: int, t: string) {
    Kept(es, prefix, t) || nbuff - Busy(es, prefix) >= Nseg(|t|)
  }

  /** A pinned search prefix leaves room for the text `t` once every line has been discarded.
      Without this the discarding loop goes on to an empty list. */
  ghost predicate PrefixLeavesRoom(es: seq<Entry>, prefix: Option<string>, nbuff: int, t: string) {
    Kept(es, prefix, t) || prefix == None || Nseg(|prefix.value|) + Nseg(|t|) <= nbuff
  }

  datatype Added = Added(h: Hist, failed: bool)

  /** Add a line to the list. */
  ghost function Add(h: Hist, line: string, force: bool, isSpace: char -> bool): Added {
    if !Usable(h) then Added(h, false)
    else
      var h1 := Cancel(h);
      var t := UpToNewline(line);
      if Blank(t, isSpace) && !force then Added(h1, false)
      else
        var es := MakeRoom(DropLines(h1.entries, h.maxLines), h.prefix, h.nbuff, t);
        if !Storable(es, h.prefix, h.nbuff, t) then Added(h1.(entries := es), true)
        else Added(h1.(entries := es + [Entry(h.seqno, h.group, t)], seqno := h.seqno + 1), false)
  }

  /** What the source assumes of a line that is to be added. */
  ghost predicate Addable(h: Hist, line: string) {
    Usable(h) ==> PrefixLeavesRoom(DropLines(Cancel(h).entries, h.maxLines), h.prefix, h.nbuff, UpToNewline(line))
  }

  /** The number of lines that the limit on their number costs. */
  function Excess(n: nat, maxLines: int): (k: nat)
    ensures k <= n
  {
    if maxLines >= 0 && n > 0 && n >= maxLines then (if maxLines == 0 then n else n - maxLines + 1) else 0
  }

  lemma {:induction false} DropLinesIs(es: seq<Entry>, maxLines: int)
    ensures DropLines(es, maxLines) == es[Excess(|es|, maxLines)..]
  {
    if maxLines >= 0 && |es| > 0 && |es| >= maxLines {
      DropLinesIs(es[1..], maxLines);
    }
  }

  /** Room is made by discarding the least number of lines, oldest first. */
  lemma {:induction false} DropSegsLeast(es: seq<Entry>, prefix: Option<string>, nbuff: int, need: int) returns (k: nat)
    ensures k <= |es| && DropSegs(es, prefix, nbuff, need) == es[k..]
    ensures forall j :: 0 <= j < k ==> nbuff - Busy(es[j..], prefix) < need
    ensures k < |es| ==> nbuff - Busy(es[k..], prefix) >= need
  {
    if es == [] || nbuff - Busy(es, prefix) >= need {
      k := 0;
      assert es[0..] == es;
    } else {
      var k1 := DropSegsLeast(es[1..], prefix, nbuff, need);
      k := k1 + 1;
      forall j | 0 <= j <= |es|
        ensures j > 0 ==> es[1..][j - 1..] == es[j..]
        ensures j == 0 ==> es[j..] == es
      {
      }
    }
  }

  /** The first index from which on the list may stay when the text `t` is added. */
  ghost predicate RoomFrom(es: seq<Entry>, prefix: Option<string>, k: nat, nbuff: int, t: string)
    requires k <= |es|
  {
    nbuff - Busy(es[k..], prefix) >= Nseg(|t|)
  }

  lemma WithoutFirst(es: seq<Entry>)
    requires es != []
    ensures Without(es, 0) == es[1..]
  {
  }

  lemma {:induction false} UpToNewlineIs(line: string, n: nat)
    requires n <= |line| && '\n' !in line[..n] && (n < |line| ==> line[n] == '\n')
    ensures UpToNewline(line) == line[..n]
  {
    if n > 0 {
      assert line[..n][0] == line[0] && line[1..][..n - 1] == line[..n][1..];
      UpToNewlineIs(line[1..], n - 1);
    }
  }

  /** One turn of the loop that discards the oldest line to make room for a text that is not
      stored: there is a line to discard, unless a pinned prefix leaves too little room. */
  lemma DropSegsStep(es: seq<Entry>, prefix: Option<string>, nbuff: int, t: string)
    requires !Kept(es, prefix, t) && PrefixLeavesRoom(es, prefix, nbuff, t)
    requires nbuff - Busy(es, prefix) < Nseg(|t|) && Busy(es, prefix) > 0
    ensures es != [] && Without(es, 0) == es[1..]
    ensures DropSegs(es, prefix, nbuff, Nseg(|t|)) == DropSegs(es[1..], prefix, nbuff, Nseg(|t|))
    ensures !Kept(es[1..], prefix, t) && PrefixLeavesRoom(es[1..], prefix, nbuff, t)
  {
  }

  lemma DropSegsEnd(es: seq<Entry>, prefix: Option<string>, nbuff: int, t: string)
    requires nbuff - Busy(es, prefix) >= Nseg(|t|) || Busy(es, prefix) <= 0
    ensures DropSegs(es, prefix, nbuff, Nseg(|t|)) == es
  {
    if es != [] { BusyPositive(es, prefix); }
  }

  /** A line is added after the least number k of the oldest lines has been discarded: first
      as many as the limit on the number of lines demands and then, only if the text is not
      stored already, as many more as it takes to free the segments it needs. The addition
      fails exactly if the text is not stored and needs more segments than there are besides
      those of the prefix, and then loses every line. */
  lemma AddEvictsLeast(h: Hist, line: string, force: bool, isSpace: char -> bool) returns (k: nat)
    requires Usable(h) && (force || !Blank(UpToNewline(line), isSpace))
    ensures var t := UpToNewline(line); var h1 := Cancel(h); var es := h1.entries;
            var r := Add(h, line, force, isSpace); var k1 := Excess(|es|, h.maxLines);
            && (r.failed <==> !Kept(es[k1..], h.prefix, t) && Nseg(|t|) + Busy([], h.prefix) > h.nbuff)
            && (r.failed ==> r.h == h1.(entries := []))
            && (!r.failed ==> k1 <= k <= |es|)
            && (!r.failed ==> r.h == h1.(entries := es[k..] + [Entry(h.seqno, h.group, t)], seqno := h.seqno + 1))
            && (!r.failed && Kept(es[k1..], h.prefix, t) ==> k == k1)
            && (!r.failed && !Kept(es[k1..], h.prefix, t) ==>
                  && RoomFrom(es, h.prefix, k, h.nbuff, t)
                  && forall j :: k1 <= j < k ==> !RoomFrom(es, h.prefix, j, h.nbuff, t))
  {
    hide Busy, Kept, Nseg, DropSegs, UpToNewline, Blank;
    var t, es := UpToNewline(line), Cancel(h).entries;
    var k1 := Excess(|es|, h.maxLines);
    DropLinesIs(es, h.maxLines);
    if Kept(es[k1..], h.prefix, t) {
      k := k1;
    } else {
      k := EvictsLeast(es, k1, h.prefix, h.nbuff, t);
    }
  }

  /** Making room from the k1-th line on, for a text that is not stored. */
  lemma EvictsLeast(es: seq<Entry>, k1: nat, prefix: Option<string>, nbuff: int, t: string) returns (k: nat)
    requires k1 <= |es| && !Kept(es[k1..], prefix, t)
    ensures k1 <= k <= |es| && MakeRoom(es[k1..], prefix, nbuff, t) == es[k..] && !Kept(es[k..], prefix, t)
    ensures forall j :: k1 <= j < k ==> !RoomFrom(es, prefix, j, nbuff, t)
    ensures RoomFrom(es, prefix, k, nbuff, t) <==> Nseg(|t|) + Busy([], prefix) <= nbuff
    ensures k < |es| ==> RoomFrom(es, prefix, k, nbuff, t)
  {
    hide Busy, Nseg, DropSegs;
    var es1 := es[k1..];
    var d := DropSegsLeast(es1, prefix, nbuff, Nseg(|t|));
    k := k1 + d;
    assert es1[d..] == es[k..];
    assert k == |es| ==> es[k..] == [];
    BusyAtLeast(es[k..], prefix);
    forall j | k1 <= j < k
      ensures !RoomFrom(es, prefix, j, nbuff, t)
    {
      assert es[j..] == es1[j - k1..];
    }
    assert Kept(es1[d..], prefix, t) ==> Kept(es1, prefix, t);
  }

  function As(n: nat): (t: string)
    ensures |t| == n && forall k :: 0 <= k < n ==> t[k] == 'a'
  {
    seq(n, _ => 'a')
  }

  /** A concrete failure: with one segment, a line that needs two is refused, and the line that was
      there is lost. */
  lemma TooLongLineLosesTheOthers(isSpace: char -> bool)
    ensures var h := Hist([Entry(0, 0, "ls")], -1, None, 1, 0, -1, 1, true);
            var r := Add(h, As(SEG_SIZE), true, isSpace);
            r.failed && h.entries != [] && r.h.entries == []
  {
    var h := Hist([Entry(0, 0, "ls")], -1, None, 1, 0, -1, 1, true);
    UpToNewlineAll(As(SEG_SIZE));
    var k := AddEvictsLeast(h, As(SEG_SIZE), true, isSpace);
    assert h.entries[0..] == h.entries;
    BusyNothing(None);
  }

  /** With a pinned prefix, the discarding loop runs out of lines, without having made room
      and with segments still in use, exactly when the prefix leaves too little room. */
  lemma {:induction false} StuckWithPrefix(es: seq<Entry>, prefix: Option<string>, nbuff: int, t: string)
    requires !Kept(es, prefix, t) && 0 < nbuff
    ensures !PrefixLeavesRoom(es, prefix, nbuff, t) <==>
            var d := MakeRoom(es, prefix, nbuff, t);
            d == [] && nbuff - Busy(d, prefix) < Nseg(|t|) && Busy(d, prefix) > 0
  {
    var k := DropSegsLeast(es, prefix, nbuff, Nseg(|t|));
    BusyAtLeast(es[k..], prefix);
  }

  /** A concrete failure: one segment, which the prefix occupies, and a line to be added. */
  lemma PrefixLeavesNoRoom()
    ensures var prefix := Some("p"); var d := MakeRoom([], prefix, 1, "q");
            !PrefixLeavesRoom([], prefix, 1, "q") && d == [] && 1 - Busy(d, prefix) < Nseg(|"q"|) && Busy(d, prefix) > 0
  {
    assert "p"[0] != "q"[0];
    StuckWithPrefix([], Some("p"), 1, "q");
  }

  lemma {:induction false} BusyAtLeast(es: seq<Entry>, prefix: Option<string>)
    ensures Busy(es, prefix) >= Busy([], prefix)
  {
    if es != [] { BusyAtLeast(es[1..], prefix); }
  }

  // ---------- Recall sessions ----------

  predicate InRange(h: Hist) {
    -1 <= h.recall < |h.entries|
  }

  /** Preserve the input line, unless a session in which it is preserved is active. */
  ghost function Prepare(h: Hist, line: string, isSpace: char -> bool): (r: Added)
    requires InRange(h) && Usable(h)
    ensures InRange(r.h) && (!r.failed ==> r.h.recall >= 0)
  {
    var h0 := if h.recall >= 0 && h.recall == |h.entries| - 1 && h.entries[h.recall].text != line then Cancel(h) else h;
    if h0.recall >= 0 then Added(h0, false)
    else
      var r := Add(h0, line, true, isSpace);
      if r.failed then r else Added(r.h.(recall := |r.h.entries| - 1, seqno := r.h.seqno - 1), false)
  }

  /** What the source assumes of the input line when a recall function is called. */
  ghost predicate Preservable(h: Hist, line: string)
    requires InRange(h)
  {
    h.recall < 0 || (h.recall == |h.entries| - 1 && h.entries[h.recall].text != line) ==> Addable(h, line)
  }

  /** Does an entry belong to the current group and start with the search prefix? Prefixes
      with wildcards are not considered. */
  predicate Found(h: Hist, e: Entry, last: string) {
    && e.group == h.group
    && e.text != last
    && (h.prefix == None || h.prefix.value <= e.text)
  }

  /** The nearest entry found at index j or below, or -1. */
  function Backwards(h: Hist, j: int, last: string): (r: int)
    requires j < |h.entries|
    ensures -1 <= r && (r == -1 || r <= j)
    ensures r >= 0 ==> Found(h, h.entries[r], last)
    ensures forall i :: r < i <= j && 0 <= i ==> !Found(h, h.entries[i], last)
    decreases j
  {
    if j < 0 then -1 else if Found(h, h.entries[j], last) then j else Backwards(h, j - 1, last)
  }

  /** The nearest entry found at index j or above, or -1. */
  function Forwards(h: Hist, j: int, last: string): (r: int)
    requires 0 <= j
    ensures r == -1 || j <= r < |h.entries|
    ensures r >= 0 ==> Found(h, h.entries[r], last)
    ensures forall i :: j <= i < |h.entries| && (r == -1 || i < r) ==> !Found(h, h.entries[i], last)
    decreases |h.entries| - j
  {
    if j >= |h.entries| then -1 else if Found(h, h.entries[j], last) then j else Forwards(h, j + 1, last)
  }

  /** The first entry of the current group from index j on, or -1. */
  function Oldest(h: Hist, j: int): (r: int)
    requires 0 <= j
    ensures r == -1 || j <= r < |h.entries|
    ensures r >= 0 ==> h.entries[r].group == h.group
    ensures forall i :: j <= i < |h.entries| && (r == -1 || i < r) ==> h.entries[i].group != h.group
    decreases |h.entries| - j
  {
    if j >= |h.entries| then -1 else if h.entries[j].group == h.group then j else Oldest(h, j + 1)
  }

  /** The first entry with a given id from index j on, or -1. */
  function WithId(es: seq<Entry>, j: int, id: int): (r: int)
    requires 0 <= j
    ensures r == -1 || j <= r < |es|
    ensures r >= 0 ==> es[r].id == id
    ensures forall i :: j <= i < |es| && (r == -1 || i < r) ==> es[i].id != id
    decreases |es| - j
  {
    if j >= |es| then -1 else if es[j].id == id then j else WithId(es, j + 1, id)
  }

  /** A call of one of the recall functions, with the line that is being edited; Cancelled is
      what happens to a session when another key is pressed. */
  datatype Op = GoBack(line: string) | GoForward | GoOldest(line: string)
              | GoTo(id: int, line: string) | GoCurrent | Cancelled

  /** The state after a call, and the line recalled, if any. */
  datatype Recalled = Recalled(h: Hist, text: Option<string>)

  ghost function Apply(h: Hist, op: Op, isSpace: char -> bool): (r: Recalled)
    requires InRange(h)
    ensures InRange(r.h)
  {
    if op.Cancelled? then Recalled(Cancel(h), None)
    else if !Usable(h) then Recalled(h, None)
    else match op {
      case GoBack(line) =>
        var p := Prepare(h, line, isSpace);
        if p.failed then Recalled(p.h, None)
        else
          var j := Backwards(p.h, p.h.recall - 1, p.h.entries[p.h.recall].text);
          if j < 0 then Recalled(p.h, None) else Recalled(p.h.(recall := j), Some(p.h.entries[j].text))
      case GoForward =>
        if h.recall < 0 then Recalled(h, None)
        else
          var j := Forwards(h, h.recall + 1, h.entries[h.recall].text);
          if j < 0 then Recalled(h, None)
          else
            var h1 := h.(recall := j);
            Recalled(if j == |h.entries| - 1 then Cancel(h1) else h1, Some(h.entries[j].text))
      case GoOldest(line) =>
        var p := Prepare(h, line, isSpace);
        if p.failed then Recalled(p.h, None)
        else
          var j := Oldest(p.h, 0);
          if j < 0 then Recalled(p.h, None)
          else
            var h1 := p.h.(recall := j);
            Recalled(if j == |p.h.entries| - 1 then Cancel(h1) else h1, Some(p.h.entries[j].text))
      case GoTo(id, line) =>
        var p := Prepare(h, line, isSpace);
        if p.failed then Recalled(p.h, None)
        else
          var j := WithId(p.h.entries, 0, id);
          if j < 0 || p.h.entries[j].group != p.h.group then Recalled(p.h, None)
          else Recalled(p.h.(recall := j), Some(p.h.entries[j].text))
      case GoCurrent =>
        if h.recall < 0 then Recalled(h, None)
        else Recalled(Cancel(h), Some(h.entries[|h.entries| - 1].text))
      case Cancelled => Recalled(h, None)
    }
  }

  /** The list without the input line that a session preserves. */
  function Base(h: Hist): seq<Entry> {
    Cancel(h).entries
  }

  ghost predicate Suffix(a: seq<Entry>, b: seq<Entry>) {
    |a| <= |b| && a == b[|b| - |a|..]
  }

  /** Can the line be preserved without evicting anything? */
  ghost predicate Fits(h: Hist, line: string) {
    Excess(|Base(h)|, h.maxLines) == 0 && Storable(Base(h), h.prefix, h.nbuff, UpToNewline(line))
  }

  lemma CancelFacts(h: Hist)
    requires InRange(h)
    ensures Base(Cancel(h)) == Base(h) == Cancel(h).entries && Cancel(h).recall < 0
    ensures Cancel(h) == h.(recall := -1, entries := Base(h)) || (h.recall < 0 && Cancel(h) == h)
  {
  }

  lemma SuffixDrop(es: seq<Entry>, x: nat, k: nat)
    requires x <= |es| && k <= |es| - x
    ensures Suffix(es[x..][k..], es)
  {
  }

  lemma MakeRoomSuffix(es: seq<Entry>, maxLines: int, prefix: Option<string>, nbuff: int, t: string)
    ensures Suffix(MakeRoom(DropLines(es, maxLines), prefix, nbuff, t), es)
  {
    hide Suffix, Busy, Kept, Nseg, Excess;
    DropLinesIs(es, maxLines);
    var k := DropSegsLeast(DropLines(es, maxLines), prefix, nbuff, Nseg(|t|));
    SuffixDrop(es, Excess(|es|, maxLines), 0);
    SuffixDrop(es, Excess(|es|, maxLines), k);
    assert es[Excess(|es|, maxLines)..][0..] == es[Excess(|es|, maxLines)..];
  }

  lemma MakeRoomNothing(es: seq<Entry>, maxLines: int, prefix: Option<string>, nbuff: int, t: string)
    requires Excess(|es|, maxLines) == 0 && Storable(es, prefix, nbuff, t)
    ensures MakeRoom(DropLines(es, maxLines), prefix, nbuff, t) == es
  {
    DropLinesIs(es, maxLines);
    assert es[0..] == es;
  }

  /** Preserving the input line discards at most the oldest lines, and changes nothing else. */
  lemma PrepareKeeps(h: Hist, line: string, isSpace: char -> bool)
    requires InRange(h) && Usable(h)
    ensures var p := Prepare(h, line, isSpace).h;
            && Suffix(Base(p), Base(h)) && (Fits(h, line) ==> Base(p) == Base(h))
            && p.(entries := h.entries, recall := h.recall) == h
  {
    CancelFacts(h);
    MakeRoomSuffix(Base(h), h.maxLines, h.prefix, h.nbuff, UpToNewline(line));
    if Fits(h, line) { MakeRoomNothing(Base(h), h.maxLines, h.prefix, h.nbuff, UpToNewline(line)); }
    var r := Add(Cancel(h), line, true, isSpace).h;
    if |r.entries| > 0 {
      assert MakeRoom(DropLines(Base(h), h.maxLines), h.prefix, h.nbuff, UpToNewline(line))
             == r.entries[..|r.entries| - 1] ||
             MakeRoom(DropLines(Base(h), h.maxLines), h.prefix, h.nbuff, UpToNewline(line)) == r.entries;
    }
  }

  predicate PassesLine(op: Op) {
    op.GoBack? || op.GoOldest? || op.GoTo?
  }

  /** Moving the cursor of a session, or ending the session, keeps the list. */
  lemma MoveKeeps(h: Hist, j: int)
    requires InRange(h) && h.recall >= 0 && 0 <= j < |h.entries|
    ensures var h1 := h.(recall := j); Base(h1) == Base(h) && Base(Cancel(h1)) == Base(h)
    ensures var h1 := h.(recall := j); h1.(entries := h.entries, recall := h.recall) == h &&
                                       Cancel(h1).(entries := h.entries, recall := h.recall) == h
  {
  }

  /** A call leaves the list that it prepares as it is, or moves the cursor of the session, or ends
      the session. */
  lemma ApplyMoves(h: Hist, op: Op, isSpace: char -> bool) returns (p: Hist, j: int)
    requires InRange(h)
    ensures InRange(p) && p == if PassesLine(op) && Usable(h) then Prepare(h, op.line, isSpace).h else h
    ensures var r := Apply(h, op, isSpace).h;
            || r == p || r == Cancel(p)
            || (p.recall >= 0 && 0 <= j < |p.entries| && (r == p.(recall := j) || r == Cancel(p.(recall := j))))
  {
    hide Prepare, Add, Cancel, Usable, Found;
    p, j := h, -1;
    if PassesLine(op) && Usable(h) {
      var r := Prepare(h, op.line, isSpace);
      p := r.h;
      if !r.failed {
        j := if op.GoBack? then Backwards(p, p.recall - 1, p.entries[p.recall].text)
             else if op.GoOldest? then Oldest(p, 0)
             else WithId(p.entries, 0, op.id);
      }
    } else if op.GoForward? && h.recall >= 0 {
      j := Forwards(h, h.recall + 1, h.entries[h.recall].text);
    }
  }

  /** One call keeps all but the oldest lines, and every line if the input line fits. */
  lemma ApplyKeeps(h: Hist, op: Op, isSpace: char -> bool)
    requires InRange(h)
    ensures var r := Apply(h, op, isSpace).h;
            && Suffix(Base(r), Base(h))
            && r.(entries := h.entries, recall := h.recall) == h
            && (!PassesLine(op) || Fits(h, op.line) ==> Base(r) == Base(h))
  {
    hide Prepare, Apply, Base, Cancel, Suffix, Fits, Usable;
    SuffixSelf(Base(h));
    var p, j := ApplyMoves(h, op, isSpace);
    if PassesLine(op) && Usable(h) {
      PrepareKeeps(h, op.line, isSpace);
    }
    CancelFacts(p);
    if p.recall >= 0 && 0 <= j < |p.entries| {
      MoveKeeps(p, j);
    }
  }

  lemma SuffixSelf(a: seq<Entry>)
    ensures Suffix(a, a)
  {
  }

  ghost function Run(h: Hist, ops: seq<Op>, isSpace: char -> bool): (r: Hist)
    requires InRange(h)
    ensures InRange(r)
    decreases |ops|
  {
    if ops == [] then h else Run(Apply(h, ops[0], isSpace).h, ops[1..], isSpace)
  }

  lemma SuffixTrans(a: seq<Entry>, b: seq<Entry>, c: seq<Entry>)
    requires Suffix(a, b) && Suffix(b, c)
    ensures Suffix(a, c)
  {
  }

  /** Recall sessions are transparent: after any calls of the recall functions, ending the
      session leaves a suffix of the original list, the next id, and everything else as they
      were; and the whole of the list if no preserved line had to evict anything. */
  lemma {:induction false} SessionsAreTransparent(h: Hist, ops: seq<Op>, isSpace: char -> bool)
    requires InRange(h) && h.recall < 0
    ensures var r := Cancel(Run(h, ops, isSpace));
            && Suffix(r.entries, h.entries)
            && r == h.(entries := r.entries, recall := r.recall) && r.recall < 0
            && ((forall op :: op in ops && PassesLine(op) ==> Fits(h, op.line)) ==> r.entries == h.entries)
  {
    RunKeeps(h, h, ops, isSpace);
    CancelFacts(Run(h, ops, isSpace));
    CancelFacts(h);
    SuffixSelf(h.entries);
  }

  lemma {:induction false} RunKeeps(h0: Hist, h: Hist, ops: seq<Op>, isSpace: char -> bool)
    requires InRange(h0) && InRange(h) && Suffix(Base(h), Base(h0))
    requires h.(entries := h0.entries, recall := h0.recall) == h0
    ensures var r := Run(h, ops, isSpace);
            && Suffix(Base(r), Base(h0))
            && r.(entries := h0.entries, recall := h0.recall) == h0
            && (Base(h) == Base(h0) && (forall op :: op in ops && PassesLine(op) ==> Fits(h0, op.line)) ==>
                  Base(r) == Base(h0))
    decreases |ops|
  {
    hide Apply, Base, Suffix, Excess, Storable, UpToNewline, Cancel;
    if ops != [] {
      var h1 := Apply(h, ops[0], isSpace).h;
      ApplyKeeps(h, ops[0], isSpace);
      SuffixTrans(Base(h1), Base(h), Base(h0));
      RunKeeps(h0, h1, ops[1..], isSpace);
      assert ops[0] in ops && forall op :: op in ops[1..] ==> op in ops;
    }
  }

  // ---------- The editor's use of a session ----------

  datatype Key = Up | Down | Beginning | ById(id: int) | End

  /** The call that a key makes, given the line that is being edited. */
  function OpOf(key: Key, buf: string): Op {
    match key
    case Up => GoBack(buf)
    case Down => GoForward
    case Beginning => GoOldest(buf)
    case ById(id) => GoTo(id, buf)
    case End => GoCurrent
  }

  datatype Editor = Editor(h: Hist, buf: string)

  /** A recalled line replaces the line that is being edited. */
  ghost function Press(e: Editor, key: Key, isSpace: char -> bool): (e': Editor)
    requires InRange(e.h)
    ensures InRange(e'.h)
  {
    var r := Apply(e.h, OpOf(key, e.buf), isSpace);
    Editor(r.h, match r.text { case None => e.buf case Some(t) => t })
  }

  ghost function PressAll(e: Editor, keys: seq<Key>, isSpace: char -> bool): (e': Editor)
    requires InRange(e.h)
    ensures InRange(e'.h)
    decreases |keys|
  {
    if keys == [] then e else PressAll(Press(e, keys[0], isSpace), keys[1..], isSpace)
  }

  /** The input line, or its part before a newline. */
  predicate OrCut(t: string, line: string) {
    t == line || t == UpToNewline(line)
  }

  /** The input line is preserved: by the session, as its last entry, up to any newline, or in the
      edit buffer. */
  ghost predicate Preserves(e: Editor, line: string) {
    && InRange(e.h)
    && (if e.h.recall < 0 then OrCut(e.buf, line)
        else e.h.entries[|e.h.entries| - 1].text == UpToNewline(line) &&
             (e.h.recall == |e.h.entries| - 1 ==> OrCut(e.buf, line)))
  }

  /** Preserving a line starts a session with that line, or fails, or leaves the session be. */
  lemma PreparePreserves(e: Editor, line: string, isSpace: char -> bool)
    requires Preserves(e, line) && Usable(e.h)
    ensures Preserves(Editor(Prepare(e.h, e.buf, isSpace).h, e.buf), line)
  {
    hide MakeRoom, Storable, DropLines;
    UpToNewlineAll(UpToNewline(line));
  }

  lemma UpToNewlineAll(line: string)
    requires '\n' !in line
    ensures UpToNewline(line) == line
  {
  }

  lemma RecallPreserves(h: Hist, j: int, buf: string, line: string)
    requires Preserves(Editor(h, buf), line) && h.recall >= 0 && 0 <= j < |h.entries|
    ensures Preserves(Editor(h.(recall := j), h.entries[j].text), line)
    ensures j == |h.entries| - 1 ==> Preserves(Editor(Cancel(h.(recall := j)), h.entries[j].text), line)
  {
  }

  lemma PressPreserves(e: Editor, key: Key, line: string, isSpace: char -> bool)
    requires InRange(e.h) && Preserves(e, line)
    ensures Preserves(Press(e, key, isSpace), line)
  {
    hide Prepare, Add, Cancel, Usable, Found, Preserves;
    var h := e.h;
    if !Usable(h) {
      return;
    }
    if key.Down? || key.End? {
      if h.recall >= 0 {
        EndPreserves(e, line);
        var j := Forwards(h, h.recall + 1, h.entries[h.recall].text);
        if j >= 0 { RecallPreserves(h, j, e.buf, line); }
      }
    } else {
      PreparePreserves(e, line, isSpace);
      var p := Prepare(h, e.buf, isSpace);
      if !p.failed {
        var j := if key.Up? then Backwards(p.h, p.h.recall - 1, p.h.entries[p.h.recall].text)
                 else if key.Beginning? then Oldest(p.h, 0)
                 else WithId(p.h.entries, 0, key.id);
        if j >= 0 { RecallPreserves(p.h, j, e.buf, line); }
      }
    }
  }

  lemma EndPreserves(e: Editor, line: string)
    requires Preserves(e, line) && e.h.recall >= 0
    ensures Preserves(Editor(Cancel(e.h), e.h.entries[|e.h.entries| - 1].text), line)
  {
  }

  lemma {:induction false} PressAllPreserves(e: Editor, keys: seq<Key>, line: string, isSpace: char -> bool)
    requires InRange(e.h) && Preserves(e, line)
    ensures Preserves(PressAll(e, keys, isSpace), line)
    decreases |keys|
  {
    hide Preserves, Press;
    if keys != [] {
      PressPreserves(e, keys[0], line, isSpace);
      PressAllPreserves(Press(e, keys[0], isSpace), keys[1..], line, isSpace);
    }
  }

  /** Whatever has been recalled, returning to the current line brings back the line that was
      being edited before the first recall: up to any newline if a session is active, and else as
      it then is in the edit buffer, which is one of both. */
  lemma {:induction false} CurrentLineIsTheInputLine(h: Hist, line: string, keys: seq<Key>, isSpace: char -> bool)
    requires InRange(h) && h.recall < 0
    ensures var e := PressAll(Editor(h, line), keys, isSpace); var t := Press(e, End, isSpace).buf;
            && (e.h.recall >= 0 ==> t == UpToNewline(line))
            && (e.h.recall < 0 ==> t == e.buf && OrCut(t, line))
            && ('\n' !in line ==> t == line)
  {
    hide Press;
    var e := PressAll(Editor(h, line), keys, isSpace);
    PressAllPreserves(Editor(h, line), keys, line, isSpace);
    if '\n' !in line { UpToNewlineAll(line); }
    if Usable(h) {
      PressAllUsable(Editor(h, line), keys, isSpace);
      EndRecalls(e, line, isSpace);
    } else {
      NothingHappens(Editor(h, line), keys, isSpace);
      NothingHappens(e, [End], isSpace);
      assert PressAll(e, [End], isSpace) == PressAll(Press(e, End, isSpace), [], isSpace);
    }
  }

  lemma EndRecalls(e: Editor, line: string, isSpace: char -> bool)
    requires InRange(e.h) && Preserves(e, line) && Usable(e.h)
    ensures Press(e, End, isSpace).buf
         == if e.h.recall >= 0 then e.h.entries[|e.h.entries| - 1].text else e.buf
  {
  }

  lemma {:induction false} NothingHappens(e: Editor, keys: seq<Key>, isSpace: char -> bool)
    requires InRange(e.h) && !Usable(e.h)
    ensures PressAll(e, keys, isSpace) == e
    decreases |keys|
  {
    if keys != [] { NothingHappens(e, keys[1..], isSpace); }
  }

  /** A line that could not be preserved once cannot be preserved later. */
  lemma FailsAgain(h: Hist, line: string, isSpace: char -> bool)
    requires InRange(h) && h.recall < 0 && Usable(h) && Prepare(h, line, isSpace).failed
    ensures var p := Prepare(h, line, isSpace).h;
            p.recall < 0 && Usable(p) && Prepare(p, line, isSpace).failed
  {
    var t, es := UpToNewline(line), DropLines(h.entries, h.maxLines);
    var k := DropSegsLeast(es, h.prefix, h.nbuff, Nseg(|t|));
    assert Prepare(h, line, isSpace).h.entries == [];
  }

  lemma {:induction false} PressAllFails(h: Hist, line: string, keys: seq<Key>, isSpace: char -> bool)
    requires InRange(h) && h.recall < 0 && Usable(h) && Prepare(h, line, isSpace).failed
    ensures var e := PressAll(Editor(h, line), keys, isSpace);
            e.h.recall < 0 && Usable(e.h) && e.buf == line
    decreases |keys|
  {
    hide Prepare, Usable, Found, Cancel;
    if keys != [] {
      FailsAgain(h, line, isSpace);
      var e := Press(Editor(h, line), keys[0], isSpace);
      assert e == Editor(h, line) || e == Editor(Prepare(h, line, isSpace).h, line);
      PressAllFails(e.h, line, keys[1..], isSpace);
    }
  }

  /** Exactly when the input line always comes back as it was: if it holds no newline, or if nothing
      is ever preserved. */
  lemma InputLineComesBack(h: Hist, line: string, isSpace: char -> bool)
    requires InRange(h) && h.recall < 0
    ensures (forall keys :: Press(PressAll(Editor(h, line), keys, isSpace), End, isSpace).buf == line)
            <==> '\n' !in line || !Usable(h) || Prepare(h, line, isSpace).failed
  {
    hide Press, Prepare, PressAll;
    if '\n' !in line || !Usable(h) || Prepare(h, line, isSpace).failed {
      forall keys
        ensures Press(PressAll(Editor(h, line), keys, isSpace), End, isSpace).buf == line
      {
        CurrentLineIsTheInputLine(h, line, keys, isSpace);
        if !Usable(h) {
          NothingHappens(Editor(h, line), keys, isSpace);
        } else if Prepare(h, line, isSpace).failed {
          PressAllFails(h, line, keys, isSpace);
        }
      }
    } else {
      UpStartsASession(h, line, isSpace);
      CurrentLineIsTheInputLine(h, line, [Up], isSpace);
      assert '\n' !in UpToNewline(line);
      assert Press(PressAll(Editor(h, line), [Up], isSpace), End, isSpace).buf != line;
    }
  }

  lemma UpStartsASession(h: Hist, line: string, isSpace: char -> bool)
    requires InRange(h) && h.recall < 0 && Usable(h) && !Prepare(h, line, isSpace).failed
    ensures PressAll(Editor(h, line), [Up], isSpace).h.recall >= 0
  {
    hide Prepare, Found;
    assert PressAll(Editor(h, line), [Up], isSpace) == PressAll(Press(Editor(h, line), Up, isSpace), [], isSpace);
  }

  /** A concrete failure: with an empty history, recalling and returning cuts a line that holds a
      newline. */
  lemma NewlineCutsTheInputLine(isSpace: char -> bool)
    ensures var h := Hist([], -1, None, 0, 0, -1, 1, true);
            Press(PressAll(Editor(h, "a\nb"), [Up], isSpace), End, isSpace).buf == "a"
  {
    hide Press, PressAll;
    var h := Hist([], -1, None, 0, 0, -1, 1, true);
    UpToNewlineIs("a\nb", 1);
    assert "a\nb"[..1] == "a";
    BusyNothing(None);
    assert !Prepare(h, "a\nb", isSpace).failed;
    UpStartsASession(h, "a\nb", isSpace);
    CurrentLineIsTheInputLine(h, "a\nb", [Up], isSpace);
  }

  lemma {:induction false} PressAllUsable(e: Editor, keys: seq<Key>, isSpace: char -> bool)
    requires InRange(e.h)
    ensures Usable(PressAll(e, keys, isSpace).h) == Usable(e.h)
    decreases |keys|
  {
    hide Apply, Suffix;
    if keys != [] {
      ApplyKeeps(e.h, OpOf(keys[0], e.buf), isSpace);
      PressAllUsable(Press(e, keys[0], isSpace), keys[1..], isSpace);
    }
  }

  // ---------- Line ids ----------

  /** The ids of `es` increase, and are all below `bound`. */
  ghost predicate Increasing(es: seq<Entry>, bound: int) {
    && (forall j, k :: 0 <= j < k < |es| ==> es[j].id < es[k].id)
    && (forall k :: 0 <= k < |es| ==> es[k].id < bound)
  }

  /** Ids increase along the list; only the line that a session preserves has the next id. */
  ghost predicate IdsOk(h: Hist) {
    && InRange(h)
    && Increasing(Base(h), h.seqno)
    && (h.recall >= 0 ==> h.entries[|h.entries| - 1].id == h.seqno)
  }

  lemma IdsIncrease(h: Hist)
    requires IdsOk(h)
    ensures Increasing(h.entries, h.seqno + 1)
  {
    assert h.recall >= 0 ==> h.entries == Base(h) + [h.entries[|h.entries| - 1]];
  }

  lemma SuffixIncreasing(a: seq<Entry>, b: seq<Entry>, bound: int)
    requires Suffix(a, b) && Increasing(b, bound)
    ensures Increasing(a, bound)
  {
  }

  lemma NewBase(h: Hist, es: seq<Entry>, t: string)
    requires h.recall == -1 && Increasing(es, h.seqno)
    ensures IdsOk(h.(entries := es))
    ensures IdsOk(h.(entries := es + [Entry(h.seqno, h.group, t)], seqno := h.seqno + 1))
    ensures IdsOk(h.(entries := es + [Entry(h.seqno, h.group, t)], recall := |es|))
  {
    var e := Entry(h.seqno, h.group, t);
    assert (es + [e])[..|es|] == es;
  }

  lemma AddIds(h: Hist, line: string, force: bool, isSpace: char -> bool)
    requires IdsOk(h)
    ensures IdsOk(Add(h, line, force, isSpace).h)
  {
    hide Increasing, Suffix, MakeRoom, Storable, Busy, Kept, UpToNewline;
    CancelFacts(h);
    var t := UpToNewline(line);
    var es := MakeRoom(DropLines(Base(h), h.maxLines), h.prefix, h.nbuff, t);
    MakeRoomSuffix(Base(h), h.maxLines, h.prefix, h.nbuff, t);
    SuffixIncreasing(es, Base(h), h.seqno);
    NewBase(Cancel(h), es, t);
  }

  lemma CancelIds(h: Hist)
    requires IdsOk(h)
    ensures IdsOk(Cancel(h))
  {
    CancelFacts(h);
  }

  lemma PrepareIds(h: Hist, line: string, isSpace: char -> bool)
    requires IdsOk(h) && Usable(h)
    ensures IdsOk(Prepare(h, line, isSpace).h)
  {
    hide Increasing, Suffix, MakeRoom, Storable, Busy, Kept, UpToNewline;
    CancelFacts(h);
    CancelIds(h);
    var t := UpToNewline(line);
    var es := MakeRoom(DropLines(Base(h), h.maxLines), h.prefix, h.nbuff, t);
    MakeRoomSuffix(Base(h), h.maxLines, h.prefix, h.nbuff, t);
    SuffixIncreasing(es, Base(h), h.seqno);
    NewBase(Cancel(h), es, t);
  }

  lemma MoveIds(h: Hist, j: int)
    requires IdsOk(h) && h.recall >= 0 && 0 <= j < |h.entries|
    ensures IdsOk(h.(recall := j)) && IdsOk(Cancel(h.(recall := j)))
  {
    CancelIds(h.(recall := j));
  }

  /** Every call keeps the ids in order. */
  lemma ApplyIds(h: Hist, op: Op, isSpace: char -> bool)
    requires IdsOk(h)
    ensures IdsOk(Apply(h, op, isSpace).h)
  {
    hide Prepare, Apply, Base, Cancel, Usable, Increasing;
    var p, j := ApplyMoves(h, op, isSpace);
    if PassesLine(op) && Usable(h) {
      PrepareIds(h, op.line, isSpace);
    }
    CancelIds(p);
    if p.recall >= 0 && 0 <= j < |p.entries| {
      MoveIds(p, j);
    }
  }

  /** A search towards newer lines from an entry with a smaller id sees every candidate. */
  lemma WithIdAbove(es: seq<Entry>, id: int, i0: int, j: int, bound: int)
    requires Increasing(es, bound) && 0 <= i0 < |es| && es[i0].id < id
    requires -1 <= j < |es| && (j >= 0 ==> es[j].id == id)
    requires j == -1 ==> forall k :: i0 <= k < |es| ==> es[k].id != id
    ensures WithId(es, 0, id) == j
  {
  }

  /** A search towards older lines from an entry with no smaller id sees every candidate. */
  lemma WithIdBelow(es: seq<Entry>, id: int, i0: int, j: int, bound: int)
    requires Increasing(es, bound) && 0 <= i0 < |es| && es[i0].id >= id
    requires -1 <= j < |es| && (j >= 0 ==> es[j].id == id)
    requires j == -1 ==> forall k :: 0 <= k <= i0 ==> es[k].id != id
    ensures WithId(es, 0, id) == j
  {
  }

  // ---------- The search prefix ----------

  /** Set the prefix of later searches, or none if the text is empty. */
  ghost function SetPrefix(h: Hist, t: string): Added {
    if !Usable(h) then Added(h, false)
    else if t == [] then Added(h.(prefix := None), false)
    else
      var es := MakeRoom(h.entries, None, h.nbuff, t);
      if Storable(es, None, h.nbuff, t) then Added(h.(entries := es, prefix := Some(t)), false)
      else Added(h.(entries := es, prefix := None), true)
  }

  // ---------- Changing the size of the buffer ----------

  /** Change the number of segments. */
  ghost function Resized(h: Hist, n: nat): Hist {
    if n == h.nbuff then h
    else if n == 0 then Cancel(h).(entries := [], nbuff := 0)
    else Cancel(h).(entries := DropSegs(Base(h), h.prefix, n, 0), nbuff := n)
  }

  /** Changing the size keeps the newest lines, as they were, and as many of them as fit: all of them
      if they do. What is kept fits unless there is a prefix that alone does not; then every line is
      lost, and the segments of the prefix do not fit in the new buffer. */
  lemma ResizeKeepsNewest(h: Hist, n: nat) returns (k: nat)
    requires n != h.nbuff && InRange(h)
    ensures var es, r := Base(h), Resized(h, n);
            && k <= |es| && r == h.(entries := es[k..], recall := -1, nbuff := n)
            && (forall j :: 0 <= j < k ==> Busy(es[j..], h.prefix) > n)
            && (Busy(es, h.prefix) <= n ==> r.entries == es)
            && (Busy(r.entries, h.prefix) > n <==> h.prefix.Some? && Nseg(|h.prefix.value|) > n)
            && (Busy(r.entries, h.prefix) > n ==> r.entries == [])
  {
    CancelFacts(h);
    var es := Base(h);
    k := DropSegsLeast(es, h.prefix, n, 0);
    assert es[0..] == es;
    if n == 0 {
      if k < |es| { BusyPositive(es[k..], h.prefix); }
      assert es[|es|..] == [];
    }
    BusyAtLeast(es[k..], h.prefix);
    BusyNothing(h.prefix);
  }

  /** A concrete failure: a prefix that occupies two segments is pinned when the buffer is reduced to
      one. */
  lemma PrefixDoesNotFit()
    ensures var h := Hist([Entry(0, 0, "ls")], -1, Some(As(SEG_SIZE)), 1, 0, -1, 4, true); var r := Resized(h, 1);
            Busy(h.entries, h.prefix) <= 4 && r.nbuff == 1 && r.entries == [] && Busy(r.entries, r.prefix) == 2
  {
    var h := Hist([Entry(0, 0, "ls")], -1, Some(As(SEG_SIZE)), 1, 0, -1, 4, true);
    var k := ResizeKeepsNewest(h, 1);
    BusyNothing(h.prefix);
    assert h.entries[1..] == [];
  }

  /** Select the group that later lines belong to. */
  function Grouped(h: Hist, group: int): Hist {
    if group == h.group then h else Cancel(h).(group := group)
  }

  /** The entries of other groups, in order. */
  function OtherGroups(es: seq<Entry>, group: int): (r: seq<Entry>)
    ensures |r| <= |es| && forall e :: e in r <==> e in es && e.group != group
  {
    if es == [] then [] else (if es[0].group == group then [] else [es[0]]) + OtherGroups(es[1..], group)
  }

  /** Discard the lines of the current group. */
  function GroupCleared(h: Hist): Hist {
    var h1 := Cancel(h);
    h1.(entries := OtherGroups(h1.entries, h.group))
  }

  /** The entries of a group, in order. */
  function InGroup(es: seq<Entry>, group: int): seq<Entry> {
    if es == [] then [] else (if es[0].group == group then [es[0]] else []) + InGroup(es[1..], group)
  }

  lemma FirstOfGroup(e: Entry, es: seq<Entry>, group: int)
    ensures InGroup([e] + es, group) == if e.group == group then [e] + InGroup(es, group) else InGroup(es, group)
    ensures OtherGroups([e] + es, group)
            == if e.group == group then OtherGroups(es, group) else [e] + OtherGroups(es, group)
  {
    assert ([e] + es)[1..] == es;
    assert [] + InGroup(es, group) == InGroup(es, group) && [] + OtherGroups(es, group) == OtherGroups(es, group);
  }

  /** Clearing a group discards all of its lines, and leaves those of every other group as they are. */
  lemma {:induction false} OtherGroupsStay(es: seq<Entry>, group: int, other: int)
    ensures InGroup(OtherGroups(es, group), other) == if other == group then [] else InGroup(es, other)
  {
    hide InGroup, OtherGroups;
    if es == [] {
      NoneInGroup(group, other);
    } else {
      var e, rest := es[0], es[1..];
      assert es == [e] + rest;
      OtherGroupsStay(rest, group, other);
      FirstOfGroup(e, rest, group);
      FirstOfGroup(e, rest, other);
      FirstOfGroup(e, OtherGroups(rest, group), other);
    }
  }

  lemma NoneInGroup(group: int, other: int)
    ensures OtherGroups([], group) == [] && InGroup([], other) == []
  {
  }

  /** One turn of the loop that discards the lines of a group. */
  lemma OtherGroupsStep(es: seq<Entry>, k: nat, group: int)
    requires k < |es|
    ensures if es[k].group == group
            then es[..k] + OtherGroups(es[k..], group)
                 == Without(es, k)[..k] + OtherGroups(Without(es, k)[k..], group)
            else es[..k] + OtherGroups(es[k..], group) == es[..k + 1] + OtherGroups(es[k + 1..], group)
  {
    hide OtherGroups, Without;
    FirstOfGroup(es[k], es[k + 1..], group);
    SplitAt(es, k);
    if es[k].group != group {
      Regrouped(es[..k], es[k], OtherGroups(es[k + 1..], group));
    }
  }

  lemma SplitAt(es: seq<Entry>, k: nat)
    requires k < |es|
    ensures es[k..] == [es[k]] + es[k + 1..] && es[..k + 1] == es[..k] + [es[k]]
    ensures Without(es, k)[..k] == es[..k] && Without(es, k)[k..] == es[k + 1..]
  {
  }

  lemma Regrouped(a: seq<Entry>, e: Entry, b: seq<Entry>)
    ensures a + ([e] + b) == (a + [e]) + b
  {
  }

  lemma OtherGroupsEnd(es: seq<Entry>, k: nat, group: int)
    requires k == |es|
    ensures es[..k] + OtherGroups(es[k..], group) == es
  {
  }

  lemma IncreasingFirst(e: Entry, es: seq<Entry>, bound: int)
    requires e.id < bound && Increasing(es, bound) && forall x :: x in es ==> e.id < x.id
    ensures Increasing([e] + es, bound)
  {
    var all := [e] + es;
    forall k | 0 <= k < |all|
      ensures all[k].id < bound && (k > 0 ==> all[0].id < all[k].id && all[k] == es[k - 1])
    {
      assert k > 0 ==> all[k] == es[k - 1];
    }
  }

  lemma IncreasingRest(es: seq<Entry>, bound: int)
    requires es != [] && Increasing(es, bound)
    ensures es[0].id < bound && Increasing(es[1..], bound) && forall x :: x in es[1..] ==> es[0].id < x.id
  {
    var rest := es[1..];
    forall k | 0 <= k < |rest|
      ensures rest[k] == es[k + 1] && es[0].id < rest[k].id
    {
      assert rest[k] == es[k + 1];
    }
  }

  lemma {:induction false} OtherGroupsIncrease(es: seq<Entry>, group: int, bound: int)
    requires Increasing(es, bound)
    ensures Increasing(OtherGroups(es, group), bound)
  {
    if es != [] {
      hide Increasing;
      var e, rest := es[0], es[1..];
      assert es == [e] + rest;
      IncreasingRest(es, bound);
      OtherGroupsIncrease(rest, group, bound);
      FirstOfGroup(e, rest, group);
      IncreasingFirst(e, OtherGroups(rest, group), bound);
    } else {
      NoneInGroup(group, group);
    }
  }

  // ---------- Whole lives ----------

  /** Everything that changes a history list. */
  datatype Step = Adding(line: string, force: bool) | Recalling(op: Op) | SettingPrefix(t: string)
                | SettingGroup(group: int) | ClearingGroup | Resizing(n: nat)

  /** A search prefix other than the empty one is not set during a session. */
  ghost function Do(h: Hist, s: Step, isSpace: char -> bool): (r: Hist)
    requires InRange(h)
    ensures InRange(r)
  {
    match s
    case Adding(line, force) => Add(h, line, force, isSpace).h
    case Recalling(op) => Apply(h, op, isSpace).h
    case SettingPrefix(t) => if h.recall >= 0 && t != [] then h else SetPrefix(h, t).h
    case SettingGroup(group) => Grouped(h, group)
    case ClearingGroup => GroupCleared(h)
    case Resizing(n) => Resized(h, n)
  }

  lemma MakeRoomIds(h: Hist, t: string)
    requires IdsOk(h) && h.recall < 0
    ensures IdsOk(h.(entries := MakeRoom(h.entries, None, h.nbuff, t)))
  {
    hide Increasing, MakeRoom, Suffix;
    var es := MakeRoom(DropLines(h.entries, -1), None, h.nbuff, t);
    MakeRoomSuffix(h.entries, -1, None, h.nbuff, t);
    SuffixIncreasing(es, h.entries, h.seqno);
    NewBase(h, es, t);
  }

  lemma ResizedIds(h: Hist, n: nat)
    requires IdsOk(h)
    ensures IdsOk(Resized(h, n))
  {
    CancelFacts(h);
    hide Busy, Kept;
    var k := DropSegsLeast(Base(h), h.prefix, n, 0);
    assert Suffix(DropSegs(Base(h), h.prefix, n, 0), Base(h)) by { SuffixDrop(Base(h), 0, k); }
    SuffixIncreasing(DropSegs(Base(h), h.prefix, n, 0), Base(h), h.seqno);
  }

  lemma DoIds(h: Hist, s: Step, isSpace: char -> bool)
    requires IdsOk(h)
    ensures IdsOk(Do(h, s, isSpace))
  {
    hide Increasing, MakeRoom, Storable, Add, Apply, Resized;
    CancelIds(h);
    if s.Adding? {
      AddIds(h, s.line, s.force, isSpace);
    } else if s.Recalling? {
      ApplyIds(h, s.op, isSpace);
    } else if s.SettingPrefix? {
      if h.recall < 0 && s.t != [] { MakeRoomIds(h, s.t); }
    } else if s.ClearingGroup? {
      OtherGroupsIncrease(Cancel(h).entries, h.group, h.seqno);
    } else if s.Resizing? {
      ResizedIds(h, s.n);
    }
  }

  /** The state of a list after some steps. */
  ghost function Life(h: Hist, steps: seq<Step>, isSpace: char -> bool): (r: Hist)
    requires InRange(h)
    ensures InRange(r)
    decreases |steps|
  {
    if steps == [] then h else Life(Do(h, steps[0], isSpace), steps[1..], isSpace)
  }

  lemma {:induction false} LifeIds(h: Hist, steps: seq<Step>, isSpace: char -> bool)
    requires IdsOk(h)
    ensures IdsOk(Life(h, steps, isSpace))
    decreases |steps|
  {
    hide Do;
    if steps != [] {
      DoIds(h, steps[0], isSpace);
      LifeIds(Do(h, steps[0], isSpace), steps[1..], isSpace);
    }
  }

  /** In every state that is reached from the empty list, whatever is added, recalled, discarded,
      cleared or resized, ids increase along the list, and are all below the next one; the id of the line that a
      session preserves is the next one. So at most one line has a given id. */
  lemma IdsAlwaysIncrease(nbuff: nat, maxLines: int, steps: seq<Step>, isSpace: char -> bool)
    ensures var empty := Hist([], -1, None, 0, 0, maxLines, nbuff, true);
            var h := Life(empty, steps, isSpace);
            && (forall j, k :: 0 <= j < k < |h.entries| ==> h.entries[j].id < h.entries[k].id)
            && (forall k :: 0 <= k < |h.entries| ==>
                  if h.recall >= 0 && k == |h.entries| - 1 then h.entries[k].id == h.seqno
                  else h.entries[k].id < h.seqno)
  {
    hide Life;
    var empty := Hist([], -1, None, 0, 0, maxLines, nbuff, true);
    var h := Life(empty, steps, isSpace);
    LifeIds(empty, steps, isSpace);
    IdsIncrease(h);
    assert forall k :: 0 <= k < |Base(h)| ==> h.entries[k] == Base(h)[k];
  }
}
