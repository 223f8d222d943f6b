/** What adding and recalling lines amounts to, said without the searches and loops that do it. */
module HistoryLaws {
  import opened Basics
  import opened Segments
  import opened HistorySpec

  /** The history is enabled, and there is room for lines at all. */
  predicate InUse(h: Hist) {
    h.enable && h.nbuff > 0 && h.maxLines != 0
  }

  /** The list once the session has ended: without the input line that it preserves. */
  function Ended(h: Hist): Hist
    requires InRange(h)
  {
    if h.recall < 0 then h else h.(recall := -1, entries := h.entries[..|h.entries| - 1])
  }

  /** While the history is not in use, nothing is added, recalled or searched for. */
  lemma UnusedDoesNothing(h: Hist, line: string, force: bool, op: Op, isSpace: char -> bool)
    requires InRange(h) && !InUse(h)
    ensures Add(h, line, force, isSpace) == Added(h, false) && SetPrefix(h, line) == Added(h, false)
    ensures !op.Cancelled? ==> Apply(h, op, isSpace) == Recalled(h, None)
  {
  }

  // ---------- Adding lines ----------

  predicate BeforeNewline(line: string, k: int) {
    0 <= k < |line| && '\n' !in line[..k + 1]
  }

  /** Every character before the first newline is white space. */
  predicate BlankLine(line: string, isSpace: char -> bool) {
    forall k :: 0 <= k < |line| && BeforeNewline(line, k) ==> isSpace(line[k])
  }

  lemma BlankIsBlankLine(line: string, isSpace: char -> bool)
    ensures Blank(UpToNewline(line), isSpace) <==> BlankLine(line, isSpace)
  {
    hide UpToNewline;
    var t := UpToNewline(line);
    forall k | 0 <= k < |line|
      ensures BeforeNewline(line, k) <==> k < |t|
    {
      if k < |t| {
        assert line[..k + 1] == t[..k + 1];
      } else {
        assert line[..k + 1][|t|] == '\n';
      }
    }
  }

  /** A blank line is not archived unless that is forced: it only ends the session. */
  lemma BlankLinesAreIgnored(h: Hist, line: string, isSpace: char -> bool)
    requires InRange(h) && InUse(h) && BlankLine(line, isSpace)
    ensures Add(h, line, false, isSpace) == Added(Ended(h), false)
  {
    BlankIsBlankLine(line, isSpace);
  }

  /** An addition uses up an id exactly if it did not fail, and was forced or of a line that is not
      blank; and then the newest line is the part of it before any newline. */
  lemma AddsExactly(h: Hist, line: string, force: bool, isSpace: char -> bool)
    requires InRange(h) && InUse(h)
    ensures var r := Add(h, line, force, isSpace); var es := r.h.entries;
            && (r.h.seqno == h.seqno + 1 <==> !r.failed && (force || !BlankLine(line, isSpace)))
            && (r.h.seqno != h.seqno + 1 ==> r.h.seqno == h.seqno)
            && (r.h.seqno == h.seqno + 1 ==>
                  |es| > 0 && es[|es| - 1] == Entry(h.seqno, h.group, UpToNewline(line)))
            && r.h.recall < 0
  {
    hide UpToNewline, Excess, Storable;
    BlankIsBlankLine(line, isSpace);
    if force || !BlankLine(line, isSpace) {
      var k := AddEvictsLeast(h, line, force, isSpace);
    }
  }

  /** The line was added by one of the steps: it was not blank, or that was forced. */
  ghost predicate WasAdded(e: Entry, steps: seq<Step>, isSpace: char -> bool) {
    exists s :: s in steps && s.Adding? && e.text == UpToNewline(s.line) && (s.force || !BlankLine(s.line, isSpace))
  }

  ghost predicate AllAdded(es: seq<Entry>, steps: seq<Step>, isSpace: char -> bool) {
    forall k :: 0 <= k < |es| ==> WasAdded(es[k], steps, isSpace)
  }

  lemma SuffixAdded(a: seq<Entry>, b: seq<Entry>, steps: seq<Step>, isSpace: char -> bool)
    requires Suffix(a, b) && AllAdded(b, steps, isSpace)
    ensures AllAdded(a, steps, isSpace)
  {
    assert forall k :: 0 <= k < |a| ==> a[k] == b[k + (|b| - |a|)];
  }

  lemma AddSuffix(h: Hist, line: string, force: bool, isSpace: char -> bool)
    requires InRange(h)
    ensures var r := Add(h, line, force, isSpace).h; var es := Base(r);
            || Suffix(es, Base(h))
            || (|es| > 0 && Suffix(es[..|es| - 1], Base(h)) && es[|es| - 1].text == UpToNewline(line)
                && (force || !BlankLine(line, isSpace)))
  {
    hide UpToNewline, Storable, MakeRoom, DropLines;
    SuffixSelf(Base(h));
    CancelFacts(h);
    BlankIsBlankLine(line, isSpace);
    MakeRoomSuffix(Base(h), h.maxLines, h.prefix, h.nbuff, UpToNewline(line));
    var es := MakeRoom(DropLines(Base(h), h.maxLines), h.prefix, h.nbuff, UpToNewline(line));
    assert (es + [Entry(h.seqno, h.group, UpToNewline(line))])[..|es|] == es;
  }

  /** Every step other than an addition only takes lines away. */
  lemma OthersTakeAway(h: Hist, s: Step, isSpace: char -> bool)
    requires InRange(h) && !s.Adding? && !s.ClearingGroup?
    ensures Suffix(Base(Do(h, s, isSpace)), Base(h))
  {
    hide Suffix, MakeRoom, Storable, Busy, Kept, Apply, DropSegs;
    SuffixSelf(Base(h));
    CancelFacts(h);
    if s.Recalling? {
      ApplyKeeps(h, s.op, isSpace);
    } else if s.SettingPrefix? {
      MakeRoomSuffix(h.entries, -1, None, h.nbuff, s.t);
      assert DropLines(h.entries, -1) == h.entries;
    } else if s.Resizing? {
      if s.n != h.nbuff {
        var k := ResizeKeepsNewest(h, s.n);
        assert Suffix(Base(h)[k..], Base(h)) by { SuffixDrop(Base(h), 0, k); }
      }
    }
  }

  lemma DoAdded(h: Hist, s: Step, steps: seq<Step>, isSpace: char -> bool)
    requires InRange(h) && s in steps && AllAdded(Base(h), steps, isSpace)
    ensures AllAdded(Base(Do(h, s, isSpace)), steps, isSpace)
  {
    hide Add, Apply, Suffix, SetPrefix, Resized, UpToNewline, BlankLine;
    if s.Adding? {
      AddSuffix(h, s.line, s.force, isSpace);
      var es := Base(Do(h, s, isSpace));
      if Suffix(es, Base(h)) {
        SuffixAdded(es, Base(h), steps, isSpace);
      } else {
        SuffixAdded(es[..|es| - 1], Base(h), steps, isSpace);
        assert WasAdded(es[|es| - 1], steps, isSpace);
        assert forall k :: 0 <= k < |es| - 1 ==> es[k] == es[..|es| - 1][k];
      }
    } else if s.ClearingGroup? {
      CancelFacts(h);
      var es := OtherGroups(Base(h), h.group);
      forall k | 0 <= k < |es|
        ensures WasAdded(es[k], steps, isSpace)
      {
        assert es[k] in es && es[k] in Base(h);
      }
    } else {
      OthersTakeAway(h, s, isSpace);
      SuffixAdded(Base(Do(h, s, isSpace)), Base(h), steps, isSpace);
    }
  }

  lemma {:induction false} LifeAdded(h: Hist, steps: seq<Step>, all: seq<Step>, isSpace: char -> bool)
    requires InRange(h) && AllAdded(Base(h), all, isSpace) && forall s :: s in steps ==> s in all
    ensures AllAdded(Base(Life(h, steps, isSpace)), all, isSpace)
    decreases |steps|
  {
    hide Do, AllAdded, Base;
    if steps != [] {
      assert steps[0] in steps && forall s :: s in steps[1..] ==> s in steps;
      DoAdded(h, steps[0], all, isSpace);
      LifeAdded(Do(h, steps[0], isSpace), steps[1..], all, isSpace);
    }
  }

  /** Every line that is ever in the list, but for the one that a session preserves, is the part before
      any newline of a line that was added, which was not blank unless that was forced. */
  lemma EveryLineWasAdded(nbuff: nat, maxLines: int, steps: seq<Step>, isSpace: char -> bool)
    ensures var es := Base(Life(Hist([], -1, None, 0, 0, maxLines, nbuff, true), steps, isSpace));
            forall k :: 0 <= k < |es| ==> WasAdded(es[k], steps, isSpace)
  {
    hide Life;
    LifeAdded(Hist([], -1, None, 0, 0, maxLines, nbuff, true), steps, steps, isSpace);
  }

  // ---------- The limit on the number of lines ----------

  ghost predicate WithinLimit(h: Hist) {
    InRange(h) && (h.maxLines >= 0 ==> |h.entries| <= h.maxLines)
  }

  lemma AddWithinLimit(h: Hist, line: string, force: bool, isSpace: char -> bool)
    requires WithinLimit(h)
    ensures WithinLimit(Add(h, line, force, isSpace).h)
  {
    hide UpToNewline, Storable, Kept, Busy, DropSegs;
    CancelFacts(h);
    if Usable(h) && (force || !Blank(UpToNewline(line), isSpace)) {
      var k := AddEvictsLeast(h, line, force, isSpace);
    }
  }

  lemma DoWithinLimit(h: Hist, s: Step, isSpace: char -> bool)
    requires WithinLimit(h)
    ensures WithinLimit(Do(h, s, isSpace)) && Do(h, s, isSpace).maxLines == h.maxLines
  {
    hide Add, Apply, MakeRoom, Storable, Busy, Kept, DropSegs;
    CancelFacts(h);
    if s.Adding? {
      AddWithinLimit(h, s.line, s.force, isSpace);
      AddKeepsLimit(h, s.line, s.force, isSpace);
    } else if s.Recalling? {
      ApplyWithinLimit(h, s.op, isSpace);
    } else if s.SettingPrefix? {
      OthersTakeAway(h, s, isSpace);
    } else if s.Resizing? && s.n != h.nbuff {
      var k := ResizeKeepsNewest(h, s.n);
    }
  }

  lemma AddKeepsLimit(h: Hist, line: string, force: bool, isSpace: char -> bool)
    ensures Add(h, line, force, isSpace).h.maxLines == h.maxLines
  {
  }

  lemma ApplyWithinLimit(h: Hist, op: Op, isSpace: char -> bool)
    requires WithinLimit(h)
    ensures WithinLimit(Apply(h, op, isSpace).h) && Apply(h, op, isSpace).h.maxLines == h.maxLines
  {
    hide Add, Apply, Suffix;
    var p, j := ApplyMoves(h, op, isSpace);
    ApplyKeeps(h, op, isSpace);
    CancelFacts(h);
    CancelFacts(p);
    if PassesLine(op) && Usable(h) {
      AddWithinLimit(h, op.line, true, isSpace);
      AddWithinLimit(Cancel(h), op.line, true, isSpace);
    }
  }

  lemma {:induction false} LifeWithinLimit(h: Hist, steps: seq<Step>, isSpace: char -> bool)
    requires WithinLimit(h)
    ensures WithinLimit(Life(h, steps, isSpace)) && Life(h, steps, isSpace).maxLines == h.maxLines
    decreases |steps|
  {
    hide Do;
    if steps != [] {
      DoWithinLimit(h, steps[0], isSpace);
      LifeWithinLimit(Do(h, steps[0], isSpace), steps[1..], isSpace);
    }
  }

  /** There are never more lines than the limit allows, the one that a session preserves included. */
  lemma LinesAreLimited(nbuff: nat, maxLines: nat, steps: seq<Step>, isSpace: char -> bool)
    ensures |Life(Hist([], -1, None, 0, 0, maxLines, nbuff, true), steps, isSpace).entries| <= maxLines
  {
    hide Life;
    LifeWithinLimit(Hist([], -1, None, 0, 0, maxLines, nbuff, true), steps, isSpace);
  }

  // ---------- Recalling lines ----------

  /** Entry j is in the current group, differs from the last line recalled, and starts with the search
      prefix. */
  predicate Candidate(h: Hist, j: int)
    requires InRange(h) && h.recall >= 0
  {
    && 0 <= j < |h.entries|
    && h.entries[j].group == h.group
    && h.entries[j].text != h.entries[h.recall].text
    && (h.prefix.Some? ==>
          var n := |h.prefix.value|; n <= |h.entries[j].text| && h.entries[j].text[..n] == h.prefix.value)
  }

  /** Preserving the input line starts a session at the end of the list, unless one is active in which
      another line was recalled, or the same one is preserved. */
  lemma PrepareStarts(h: Hist, line: string, isSpace: char -> bool)
    requires InRange(h) && InUse(h)
    ensures var r := Prepare(h, line, isSpace); var p := r.h; var n := |p.entries|;
            if h.recall >= 0 && (h.recall < |h.entries| - 1 || h.entries[h.recall].text == line)
            then r == Added(h, false)
            else if r.failed then p == Ended(h).(entries := [])
            else
              && n > 0 && p.recall == n - 1 && p.entries[n - 1] == Entry(h.seqno, h.group, UpToNewline(line))
              && p == h.(entries := p.entries, recall := n - 1)
              && Suffix(p.entries[..n - 1], Ended(h).entries)
              && p.entries == Add(Ended(h), line, true, isSpace).h.entries
  {
    hide UpToNewline, Storable, Kept, Busy, DropSegs, Excess, Suffix, MakeRoom;
    if h.recall >= 0 && (h.recall < |h.entries| - 1 || h.entries[h.recall].text == line) {
    } else {
      PrepareKeeps(h, line, isSpace);
      AddsExactly(Ended(h), line, true, isSpace);
      var k := AddEvictsLeast(Ended(h), line, true, isSpace);
      assert Cancel(h) == Ended(h) == Cancel(Ended(h));
    }
  }

  /** The call with which a search goes back recalls the nearest older candidate, and none exactly if
      there is none. */
  lemma GoBackRecalls(h: Hist, line: string, isSpace: char -> bool) returns (j: int)
    requires InRange(h) && InUse(h)
    ensures var p := Prepare(h, line, isSpace); var r := Apply(h, GoBack(line), isSpace);
            if p.failed then r == Recalled(p.h, None)
            else if j < 0 then r == Recalled(p.h, None) && forall i :: 0 <= i < p.h.recall ==> !Candidate(p.h, i)
            else
              && 0 <= j < p.h.recall && Candidate(p.h, j) && (forall i :: j < i < p.h.recall ==> !Candidate(p.h, i))
              && r == Recalled(p.h.(recall := j), Some(p.h.entries[j].text))
  {
    hide Prepare;
    var p := Prepare(h, line, isSpace);
    j := -1;
    if !p.failed {
      j := Backwards(p.h, p.h.recall - 1, p.h.entries[p.h.recall].text);
      FoundIsCandidate(p.h);
    }
  }

  lemma FoundIsCandidate(h: Hist)
    requires InRange(h) && h.recall >= 0
    ensures forall j :: 0 <= j < |h.entries| ==> (Found(h, h.entries[j], h.entries[h.recall].text) <==> Candidate(h, j))
  {
  }

  /** The call with which a search goes forward recalls the nearest newer candidate, and ends the session
      if that is the input line it preserves. */
  lemma GoForwardRecalls(h: Hist, isSpace: char -> bool) returns (j: int)
    requires InRange(h) && InUse(h)
    ensures var r := Apply(h, GoForward, isSpace);
            if h.recall < 0 then r == Recalled(h, None)
            else if j < 0 then r == Recalled(h, None) && forall i :: h.recall < i ==> !Candidate(h, i)
            else
              && h.recall < j && Candidate(h, j) && (forall i :: h.recall < i < j ==> !Candidate(h, i))
              && r == Recalled(if j == |h.entries| - 1 then Ended(h) else h.(recall := j), Some(h.entries[j].text))
  {
    j := -1;
    if h.recall >= 0 {
      j := Forwards(h, h.recall + 1, h.entries[h.recall].text);
      FoundIsCandidate(h);
    }
  }

  /** The oldest line is the first one of the group; it is the preserved one if there is no other. */
  lemma GoOldestRecalls(h: Hist, line: string, isSpace: char -> bool) returns (j: int)
    requires InRange(h) && InUse(h)
    ensures var p := Prepare(h, line, isSpace); var es := p.h.entries; var r := Apply(h, GoOldest(line), isSpace);
            if p.failed then r == Recalled(p.h, None)
            else if j < 0 then r == Recalled(p.h, None) && forall i :: 0 <= i < |es| ==> es[i].group != h.group
            else
              && 0 <= j < |es| && es[j].group == h.group && (forall i :: 0 <= i < j ==> es[i].group != h.group)
              && r == Recalled(if j == |es| - 1 then Ended(p.h) else p.h.(recall := j), Some(es[j].text))
  {
    hide Prepare;
    PrepareKeeps(h, line, isSpace);
    var p := Prepare(h, line, isSpace);
    j := -1;
    if !p.failed {
      j := Oldest(p.h, 0);
    }
  }

  /** A line is recalled by its id if it is in the group. */
  lemma GoToRecalls(h: Hist, id: int, line: string, isSpace: char -> bool) returns (j: int)
    requires InRange(h) && InUse(h)
    ensures var p := Prepare(h, line, isSpace); var es := p.h.entries; var r := Apply(h, GoTo(id, line), isSpace);
            if p.failed then r == Recalled(p.h, None)
            else if j < 0 then r == Recalled(p.h, None) && forall i :: 0 <= i < |es| ==> es[i].id != id
            else
              && 0 <= j < |es| && es[j].id == id && (forall i :: 0 <= i < j ==> es[i].id != id)
              && r == if es[j].group == h.group then Recalled(p.h.(recall := j), Some(es[j].text))
                      else Recalled(p.h, None)
  {
    hide Prepare;
    PrepareKeeps(h, line, isSpace);
    var p := Prepare(h, line, isSpace);
    j := -1;
    if !p.failed {
      j := WithId(p.h.entries, 0, id);
    }
  }

  /** Returning to the current line recalls the preserved one, and ends the session. */
  lemma GoCurrentRecalls(h: Hist, isSpace: char -> bool)
    requires InRange(h) && InUse(h)
    ensures Apply(h, GoCurrent, isSpace)
         == if h.recall < 0 then Recalled(h, None) else Recalled(Ended(h), Some(h.entries[|h.entries| - 1].text))
    ensures Apply(h, Cancelled, isSpace) == Recalled(Ended(h), None)
  {
  }

  // ---------- Walking through the list ----------

  function Repeated(key: Key, k: nat): seq<Key> {
    seq(k, _ => key)
  }

  lemma PressOnce(e: Editor, key: Key, k: nat, isSpace: char -> bool)
    requires InRange(e.h) && k > 0
    ensures PressAll(e, Repeated(key, k), isSpace) == PressAll(Press(e, key, isSpace), Repeated(key, k - 1), isSpace)
  {
    assert Repeated(key, k)[1..] == Repeated(key, k - 1);
  }

  lemma {:induction false} PressBoth(e: Editor, a: seq<Key>, b: seq<Key>, isSpace: char -> bool)
    requires InRange(e.h)
    ensures PressAll(e, a + b, isSpace) == PressAll(PressAll(e, a, isSpace), b, isSpace)
    decreases |a|
  {
    hide Press;
    if a == [] {
      assert a + b == b;
    } else {
      assert (a + b)[0] == a[0] && (a + b)[1..] == a[1..] + b;
      PressBoth(Press(e, a[0], isSpace), a[1..], b, isSpace);
    }
  }

  /** A session in which every line is a candidate when the one beside it was recalled: all are in the
      group, there is no prefix, and no two adjacent ones are the same. */
  predicate Walkable(h: Hist) {
    && InUse(h) && InRange(h) && h.recall >= 0 && h.prefix == None
    && (forall i :: 0 <= i < |h.entries| ==> h.entries[i].group == h.group)
    && (forall i :: 0 <= i < |h.entries| - 1 ==> h.entries[i].text != h.entries[i + 1].text)
  }

  /** The editor when entry i of such a session was the last one recalled. */
  function Seen(h: Hist, i: int): Editor
    requires 0 <= i < |h.entries|
  {
    Editor(h.(recall := i), h.entries[i].text)
  }

  lemma UpOnce(h: Hist, i: int, isSpace: char -> bool)
    requires Walkable(h) && 0 <= i < |h.entries|
    ensures Press(Seen(h, i), Up, isSpace) == Seen(h, if i > 0 then i - 1 else 0)
  {
    hide Apply, Prepare;
    var h1 := h.(recall := i);
    PrepareStarts(h1, h.entries[i].text, isSpace);
    var j := GoBackRecalls(h1, h.entries[i].text, isSpace);
    if i > 0 {
      assert Candidate(h1, i - 1);
    }
  }

  lemma {:induction false} UpRepeatedly(h: Hist, i: int, k: nat, isSpace: char -> bool)
    requires Walkable(h) && 0 <= i < |h.entries|
    ensures PressAll(Seen(h, i), Repeated(Up, k), isSpace) == Seen(h, if i > k then i - k else 0)
    decreases k
  {
    hide Press, Walkable;
    if k > 0 {
      UpOnce(h, i, isSpace);
      PressOnce(Seen(h, i), Up, k, isSpace);
      UpRepeatedly(h, if i > 0 then i - 1 else 0, k - 1, isSpace);
    }
  }

  lemma DownOnce(h: Hist, i: int, isSpace: char -> bool)
    requires Walkable(h) && 0 <= i < |h.entries| - 1
    ensures Press(Seen(h, i), Down, isSpace)
         == if i + 1 < |h.entries| - 1 then Seen(h, i + 1) else Editor(Ended(h), h.entries[i + 1].text)
  {
    hide Apply;
    var h1 := h.(recall := i);
    var j := GoForwardRecalls(h1, isSpace);
    assert Candidate(h1, i + 1);
  }

  lemma {:induction false} DownRepeatedly(h: Hist, i: int, k: nat, isSpace: char -> bool)
    requires Walkable(h) && 0 <= i < |h.entries| - 1 && i + k <= |h.entries| - 1
    ensures PressAll(Seen(h, i), Repeated(Down, k), isSpace)
         == if k == 0 || i + k < |h.entries| - 1 then Seen(h, i + k) else Editor(Ended(h), h.entries[i + k].text)
    decreases k
  {
    hide Press, Walkable;
    if k > 0 {
      DownOnce(h, i, isSpace);
      PressOnce(Seen(h, i), Down, k, isSpace);
      if k > 1 {
        DownRepeatedly(h, i + 1, k - 1, isSpace);
      }
    }
  }

  /** Every line that is recalled one by one differs from the next: the lines of the list, all in the
      group, and the one being edited, up to any newline. */
  predicate Different(h: Hist, line: string) {
    && (forall i :: 0 <= i < |h.entries| ==> h.entries[i].group == h.group)
    && (forall i :: 0 <= i < |h.entries| - 1 ==> h.entries[i].text != h.entries[i + 1].text)
    && (|h.entries| > 0 ==> h.entries[|h.entries| - 1].text != UpToNewline(line))
  }

  lemma SessionIsWalkable(h: Hist, line: string, isSpace: char -> bool)
    requires InUse(h) && h.recall == -1 && h.prefix == None && Different(h, line)
    requires !Prepare(h, line, isSpace).failed
    ensures var p := Prepare(h, line, isSpace).h;
            && Walkable(p) && p.recall == |p.entries| - 1
            && Suffix(p.entries[..p.recall], h.entries) && p.entries[p.recall].text == UpToNewline(line)
            && Ended(p) == h.(entries := p.entries[..p.recall])
  {
    hide Prepare, UpToNewline, Suffix, Walkable, Different, Add;
    PrepareStarts(h, line, isSpace);
    AppendedIsWalkable(h, Prepare(h, line, isSpace).h, line);
  }

  lemma AppendedIsWalkable(h: Hist, p: Hist, line: string)
    requires InUse(h) && h.prefix == None && Different(h, line)
    requires |p.entries| > 0 && p == h.(entries := p.entries, recall := |p.entries| - 1)
    requires Suffix(p.entries[..p.recall], h.entries)
    requires p.entries[p.recall].text == UpToNewline(line) && p.entries[p.recall].group == h.group
    ensures Walkable(p)
  {
    hide UpToNewline;
    var es := p.entries[..p.recall];
    var d := |h.entries| - |es|;
    forall i | 0 <= i < |p.entries|
      ensures i < |es| ==> p.entries[i] == h.entries[d + i]
      ensures p.entries[i].group == h.group
    {
      if i < |es| { assert p.entries[i] == es[i] == h.entries[d + i]; }
    }
  }

  /** The first recall of a session. */
  lemma UpFirst(h: Hist, line: string, isSpace: char -> bool)
    requires InUse(h) && h.recall == -1 && h.prefix == None && Different(h, line)
    requires !Prepare(h, line, isSpace).failed && |Prepare(h, line, isSpace).h.entries| > 1
    ensures var p := Prepare(h, line, isSpace).h;
            Press(Editor(h, line), Up, isSpace) == Seen(p, |p.entries| - 2)
  {
    hide Apply, Prepare, UpToNewline, Different;
    SessionIsWalkable(h, line, isSpace);
    var p := Prepare(h, line, isSpace).h;
    var j := GoBackRecalls(h, line, isSpace);
    assert Candidate(p, |p.entries| - 2);
  }

  /** Recalling back k times gives the k-th line from the end, of the m lines that preserving the input
      line left, or the oldest of them. */
  lemma UpsWalkBack(h: Hist, line: string, k: nat, isSpace: char -> bool) returns (m: nat)
    requires InUse(h) && h.recall == -1 && h.prefix == None && Different(h, line)
    requires !Prepare(h, line, isSpace).failed && k >= 1
    ensures m <= |h.entries| && (Fits(h, line) ==> m == |h.entries|)
    ensures m > 0 ==>
              PressAll(Editor(h, line), Repeated(Up, k), isSpace).buf == h.entries[|h.entries| - Min(k, m)].text
  {
    hide Press, Prepare, UpToNewline, Walkable, Different, Fits;
    SessionIsWalkable(h, line, isSpace);
    var p := Prepare(h, line, isSpace).h;
    m := |p.entries| - 1;
    BasesOf(h, p, line, isSpace);
    if m > 0 {
      UpFirst(h, line, isSpace);
      PressOnce(Editor(h, line), Up, k, isSpace);
      UpRepeatedly(p, m - 1, k - 1, isSpace);
      var i := m - Min(k, m);
      assert p.entries[i] == p.entries[..m][i] == h.entries[|h.entries| - m..][i];
    }
  }

  lemma BasesOf(h: Hist, p: Hist, line: string, isSpace: char -> bool)
    requires InRange(h) && InUse(h) && h.recall == -1 && p == Prepare(h, line, isSpace).h && InRange(p) && p.recall >= 0
    ensures Fits(h, line) ==> |p.entries| - 1 == |h.entries|
  {
    hide Prepare, Fits;
    PrepareKeeps(h, line, isSpace);
  }

  /** Going back k times and forward as often returns to the line that was being edited, up to any
      newline, and ends the session. */
  lemma DownsUndoUps(h: Hist, line: string, k: nat, isSpace: char -> bool)
    requires InUse(h) && h.recall == -1 && h.prefix == None && Different(h, line)
    requires !Prepare(h, line, isSpace).failed && 1 <= k < |Prepare(h, line, isSpace).h.entries|
    ensures var e := PressAll(Editor(h, line), Repeated(Up, k) + Repeated(Down, k), isSpace);
            && e.buf == UpToNewline(line) && e.h == h.(entries := e.h.entries) && Suffix(e.h.entries, h.entries)
  {
    hide Press, PressAll, Prepare, UpToNewline, Walkable, Different;
    SessionIsWalkable(h, line, isSpace);
    var p := Prepare(h, line, isSpace).h;
    var m := |p.entries| - 1;
    UpFirst(h, line, isSpace);
    PressOnce(Editor(h, line), Up, k, isSpace);
    UpRepeatedly(p, m - 1, k - 1, isSpace);
    PressBoth(Editor(h, line), Repeated(Up, k), Repeated(Down, k), isSpace);
    assert PressAll(Editor(h, line), Repeated(Up, k), isSpace) == Seen(p, m - k);
    DownRepeatedly(p, m - k, k, isSpace);
  }

  // ---------- Prefixes and groups ----------

  /** A prefix is set if it is stored already, or fits in the buffer; then the least number k of the
      oldest lines is discarded for it. If it does not fit, no prefix is set, and all lines are lost. */
  lemma PrefixIsSet(h: Hist, t: string) returns (k: nat)
    requires InUse(h)
    ensures var r := SetPrefix(h, t); var es := h.entries;
            if t == "" then r == Added(h.(prefix := None), false)
            else if Kept(es, None, t) then r == Added(h.(prefix := Some(t)), false)
            else if Nseg(|t|) > h.nbuff then r == Added(h.(entries := [], prefix := None), true)
            else
              && k <= |es| && r == Added(h.(entries := es[k..], prefix := Some(t)), false)
              && RoomFrom(es, None, k, h.nbuff, t) && forall j :: 0 <= j < k ==> !RoomFrom(es, None, j, h.nbuff, t)
  {
    hide Kept, Busy, Nseg, DropSegs;
    k := 0;
    assert h.entries[0..] == h.entries;
    if t != "" && !Kept(h.entries, None, t) {
      k := EvictsLeast(h.entries, 0, None, h.nbuff, t);
      BusyNothing(None);
    }
  }

  /** What is recalled by searching starts with the prefix, and is in the current group. */
  lemma SearchesAreRestricted(h: Hist, op: Op, isSpace: char -> bool)
    requires InRange(h) && InUse(h) && (op.GoBack? || op.GoForward?)
    ensures var r := Apply(h, op, isSpace);
            r.text.Some? ==>
              && (h.prefix.Some? ==> h.prefix.value <= r.text.value)
              && (r.h.recall >= 0 ==> var e := r.h.entries[r.h.recall]; e.group == h.group && e.text == r.text.value)
  {
    hide Prepare, Apply;
    if op.GoBack? {
      PrepareKeeps(h, op.line, isSpace);
      var j := GoBackRecalls(h, op.line, isSpace);
    } else {
      var j := GoForwardRecalls(h, isSpace);
    }
  }

  /** Selecting a group ends the session if it is another one, and changes nothing else; selecting the
      former one again leaves the list as it is. */
  lemma GroupIsSelected(h: Hist, group: int)
    requires InRange(h)
    ensures var r := Grouped(h, group);
            && (group == h.group ==> r == h)
            && (group != h.group ==> r == Ended(h).(group := group) && Grouped(r, h.group) == Ended(h))
  {
  }

  /** Clearing the group ends the session, and leaves exactly the lines of the other groups. */
  lemma GroupIsCleared(h: Hist, group: int)
    requires InRange(h)
    ensures var r := GroupCleared(h);
            && InGroup(r.entries, group) == (if group == h.group then [] else InGroup(Ended(h).entries, group))
            && r == Ended(h).(entries := r.entries)
  {
    hide OtherGroups, InGroup;
    OtherGroupsStay(Ended(h).entries, h.group, group);
  }
}
