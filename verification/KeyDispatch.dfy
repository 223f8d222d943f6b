/** The reading and interpretation of key presses by libtecla/getline.c, from a terminal on which
    reads may block at any place. */
module KeyDispatch {
  import opened Basics
  import opened KeySpec

  /** What a read from the terminal gives. */
  datatype Read = Char(c: char) | Block

  /** The characters that a terminal gives. */
  function Chars(script: seq<Read>): string {
    if script == [] then ""
    else (if script[0].Char? then [script[0].c] else "") + Chars(script[1..])
  }

  /** The verdict takes more than n characters. */
  predicate Beyond(v: Verdict, n: int) {
    v.NeedMore? || n < v.read
  }

  /** While a decision takes more characters than were read ahead, it does not matter how many those
      are. */
  lemma AheadDoesNotMatter(t: Table, number: int, a: nat, b: nat, input: string)
    requires a <= |input| && b <= |input| && input != ""
    requires var o := Interpret(t, number, input); a == b || o.Waiting? || (a <= o.read && b <= o.read)
    ensures Run(t, number, a, input) == Run(t, number, b, input)
  {
    hide Interpret;
  }

  lemma WaitingFor(t: Table, number: int, input: string)
    requires input != "" && !(number >= 0 && IsDigit(input[0]))
    ensures var v := Scan(t, Prefix(t, input[0]), input[0], input, 1); var o := Interpret(t, number, input);
            (o.Waiting? <==> v.NeedMore?) && (o.Outcome? ==> o.read == v.read)
  {
  }

  /** One round of the loop that reads a key sequence. */
  lemma ScanOne(t: Table, keyseq: string, c: char, input: string, k: nat)
    requires k <= |input|
    ensures var v := Scan(t, keyseq, c, input, k);
            && (v.NeedMore? || k <= v.read)
            && (|keyseq| >= KEY_MAX ==> v == TooLong(k))
            && (|keyseq| < KEY_MAX && IsMeta(c, t) ==> v == Scan(t, keyseq + [ESC], MetaToChar(c), input, k))
            && (|keyseq| < KEY_MAX && !IsMeta(c, t) ==>
                var keys := keyseq + [c]; var l := t.lookup(keys);
                && (l.Exact? ==> v == Matched(l.action, c, k))
                && (l.NoMatch? ==> v == Unmatched(keys[0], k))
                && (l.Ambig? ==> v == if k < |input| then Scan(t, keys, input[k], input, k + 1) else NeedMore)
                && (l.Ambig? && !v.NeedMore? ==> k < v.read))
  {
  }

  lemma StuckRun(t: Table, number: int, ahead: nat, input: string)
    requires ahead <= |input|
    ensures Stuck(t, number, input) ==> Run(t, number, ahead, input) == Log([], number, input)
  {
  }

  /** What a step leaves. */
  lemma RunStep(t: Table, number: int, ahead: nat, input: string, number': int, nbuf': nat, ends: bool,
                read: string, later: string)
    requires ahead <= |input| && !Stuck(t, number, input)
    requires var o := Interpret(t, number, input);
             && number' == o.number && ends == o.ends && nbuf' == Max(ahead, o.read) - o.used
             && input[o.used..] == read + later && |read| == nbuf'
    ensures var o := Interpret(t, number, input);
            var l := if ends then Run(t, -1, 0, later) else Run(t, number', nbuf', read + later);
            Run(t, number, ahead, input)
            == l.(steps := [Step(input[..o.used], o.events, if ends then read else "")] + l.steps)
  {
    hide Interpret;
    var o := Interpret(t, number, input);
    var n := o.used + nbuf';
    assert input[n..] == input[o.used..][nbuf'..] == later;
    assert input[o.used..n] == input[o.used..][..nbuf'] == read;
    assert input[o.used..o.used] == "";
  }

  datatype Status = Ok | Blocked | Overflow

  class KeyReader {
    const table: Table
    const script: seq<Read>          // what reads from the terminal give; when it ends, they block
    const keybuf: array<char>
    var pos: nat                     // the next read
    var nbuf: nat
    var nread: nat
    var number: int
    var endline: bool
    var keyseqCount: int
    var lastSearch: int
    ghost var log: seq<Step>         // what was done

    ghost predicate Valid()
      reads this
    {
      && Bounded(table)
      && keybuf.Length == KEY_MAX + 1
      && nread <= nbuf <= KEY_MAX
      && pos <= |script|
      && lastSearch <= keyseqCount
    }

    /** The characters that are not used up yet. */
    ghost function Unread(): string
      requires nbuf <= keybuf.Length && pos <= |script|
      reads `nbuf, `pos, keybuf
    {
      keybuf[..nbuf] + Chars(script[pos..])
    }

    /** What will be done with them. */
    ghost function Future(): Log
      requires nbuf <= keybuf.Length && pos <= |script|
      reads `nbuf, `pos, `number, `endline, keybuf
    {
      if endline then Run(table, -1, 0, Chars(script[pos..])) else Run(table, number, nbuf, Unread())
    }

    constructor (table: Table, script: seq<Read>)
      requires Bounded(table)
      ensures Valid() && fresh(keybuf) && this.table == table && this.script == script
      ensures endline && nread == 0 && nbuf == 0 && pos == 0 && log == []
    {
      this.table := table;
      this.script := script;
      keybuf := new char[KEY_MAX + 1];
      pos, nbuf, nread, number, keyseqCount, lastSearch := 0, 0, 0, -1, 0, -1;
      endline := true;
      log := [];
    }

    /** Read a character: first those that were read ahead, then the terminal. */
    method ReadTerminal() returns (status: Status, c: char)
      requires Valid()
      modifies `pos, `nbuf, `nread, keybuf
      ensures Valid()
      ensures Unread() == old(Unread())
      ensures status == Ok ==> nread == old(nread) + 1 && c == Unread()[old(nread)] && nbuf == Max(old(nbuf), nread)
      ensures status != Ok ==> nread == old(nread) == nbuf == old(nbuf)
      ensures status == Overflow <==> old(nread == nbuf == KEY_MAX)
      ensures status == Blocked ==> (pos == old(pos) + 1 || pos == |script|)
      ensures |script| - pos + nbuf <= old(|script| - pos + nbuf)
      ensures status == Blocked && pos < |script| ==> |script| - pos + nbuf < old(|script| - pos + nbuf)
      ensures old(pos) <= pos
    {
      hide Bounded;
      if nread < nbuf {
        c := keybuf[nread];
        nread := nread + 1;
        return Ok, c;
      }
      if nbuf + 1 > KEY_MAX {
        return Overflow, NUL;
      }
      if pos == |script| {
        return Blocked, NUL;
      }
      assert script[pos..][0] == script[pos] && script[pos..][1..] == script[pos + 1..];
      var read := script[pos];
      pos := pos + 1;
      if read.Block? {
        return Blocked, NUL;
      }
      c := read.c;
      keybuf[nbuf] := c;
      nbuf := nbuf + 1;
      nread := nbuf;
      assert keybuf[..nbuf] == old(keybuf[..nbuf]) + [c];
      return Ok, c;
    }

    /** Remove up to nused characters from the start of the read-ahead buffer, and go back to its start. */
    method DiscardChars(nused: nat)
      requires Valid()
      modifies `nbuf, `nread, keybuf
      ensures Valid() && nread == 0 && nbuf == Max(old(nbuf) - nused, 0)
      ensures Unread() == old(Unread()[Min(nused, nbuf)..])
    {
      ghost var later := Chars(script[pos..]);
      var nkeep := nbuf - nused;
      if nkeep > 0 {
        forall i | 0 <= i < nkeep {
          keybuf[i] := keybuf[nused + i];
        }
        nbuf := nkeep;
        nread := 0;
        assert keybuf[..nbuf] == old(keybuf[..nbuf])[nused..];
      } else {
        nbuf, nread := 0, 0;
      }
      var n := Min(nused, old(nbuf));
      assert old(keybuf[..nbuf] + later)[n..] == old(keybuf[..nbuf])[n..] + later;
    }

    /** Read a key sequence that starts with a character that was read: what it is, or NeedMore if a
        read blocked before that is known. */
    method ReadKeySequence(first: char) returns (v: Verdict)
      requires Valid() && nread == 1 <= nbuf && keybuf[0] == first
      modifies `pos, `nbuf, `nread, keybuf
      ensures Valid() && Unread() == old(Unread()) && old(nbuf) <= nbuf && old(pos) <= pos
      ensures !v.NeedMore? ==> v == Scan(table, Prefix(table, first), first, Unread(), 1)
                               && nread == v.read && nbuf == Max(old(nbuf), v.read)
                               && |script| - pos + nbuf <= old(|script| - pos + nbuf)
      ensures v.NeedMore? ==>
                && Beyond(Scan(table, Prefix(table, first), first, Unread(), 1), nbuf)
                && nread == nbuf
                && (pos < |script| ==> |script| - pos + nbuf < old(|script| - pos + nbuf))
    {
      hide Scan;
      ghost var u := Unread();
      ghost var goal := Scan(table, Prefix(table, first), first, u, 1);
      var c := first;
      var keyseq := Prefix(table, c);
      while |keyseq| < KEY_MAX
        invariant Valid() && Unread() == u
        invariant 1 <= nread <= |keyseq| + 1 && nbuf == Max(old(nbuf), nread)
        invariant goal == Scan(table, keyseq, c, u, nread)
        invariant |script| - pos + nbuf <= old(|script| - pos + nbuf) && old(pos) <= pos
        decreases KEY_MAX - |keyseq|
      {
        ScanOne(table, keyseq, c, u, nread);
        if IsMeta(c, table) {
          keyseq := keyseq + [ESC];
          c := MetaToChar(c);
          continue;
        }
        keyseq := keyseq + [c];
        match table.lookup(keyseq)
        case Exact(action) =>
          return Matched(action, c, nread);
        case Ambig =>
          var status, next := ReadTerminal();
          if status != Ok {
            return NeedMore;
          }
          c := next;
        case NoMatch =>
          return Unmatched(keyseq[0], nread);
      }
      ScanOne(table, keyseq, c, u, nread);
      return TooLong(nread);
    }

    /** Add a digit to the repeat count; anything else starts a new one. */
    method DigitArgument(c: char)
      modifies `number
      ensures number == AddDigit(old(number), c)
    {
      var isDigit := IsDigit(c);
      if number < 0 || !isDigit {
        number := 0;
      }
      if isDigit {
        var n := c as int - '0' as int;
        number := number * 10 + n;
      }
    }

    /** Execute the action of a key sequence. */
    method Execute(action: nat, last: char) returns (events: seq<Event>)
      requires Valid() && lastSearch < keyseqCount && !endline
      modifies `number, `endline, `lastSearch, `nbuf, `nread, keybuf
      ensures Valid() && nread == 0 && nbuf == old(nbuf) - old(nread) && Unread() == old(Unread())[old(nread)..]
      ensures var o := Decide(table, old(number), last, Matched(action, last, old(nread)));
              events == o.events && number == o.number && endline == o.ends
    {
      var isDigitArgument := action == table.digitArgument;
      var count := if isDigitArgument then last as int else Count(number);
      events := [Acted(action, count)];
      if isDigitArgument {
        DigitArgument(last);
      } else if table.ends(action) {
        endline := true;
      }
      if table.searches(action) {
        lastSearch := keyseqCount;
      }
      DiscardChars(nread);
      if lastSearch != keyseqCount {
        events := events + [SearchCancelled];
      }
      if !isDigitArgument {
        number := -1;
      }
    }

    /** Insert a character that does not start a key sequence, or ring the bell for a key sequence that
        is not bound. */
    method Reject(first: char, keyseq0: char) returns (events: seq<Event>)
      requires Valid() && nbuf >= 1
      modifies `number, `nbuf, `nread, keybuf
      ensures Valid() && nread == 0 && nbuf == old(nbuf) - 1 && Unread() == old(Unread())[1..]
      ensures var o := Decide(table, old(number), first, Unmatched(keyseq0, 1));
              events == o.events && number == o.number
    {
      if keyseq0 != '\\' && keyseq0 != '\t' {
        events := [Rang];
      } else {
        events := [Inserted(first, Count(number))];
        number := -1;
      }
      DiscardChars(1);
      events := events + [SearchCancelled];
    }

    /** Act on a key sequence; used is the number of characters that it used up. */
    method Act(first: char, v: Verdict) returns (events: seq<Event>, ghost used: nat)
      requires Valid() && lastSearch < keyseqCount && !endline
      requires !v.NeedMore? && 1 <= v.read == nread
      modifies `number, `endline, `lastSearch, `nbuf, `nread, keybuf
      ensures Valid() && nread == 0 && used <= old(nbuf) && nbuf == old(nbuf) - used
      ensures Unread() == old(Unread())[used..]
      ensures Decide(table, old(number), first, v) == Outcome(v.read, used, events, number, endline)
    {
      match v {
        case Matched(action, last, read) =>
          used := read;
          events := Execute(action, last);
        case Unmatched(c, read) =>
          used := 1;
          events := Reject(first, c);
        case TooLong(read) =>
          used := 1;
          events := [Rang];
          DiscardChars(1);
      }
    }

    /** Interpret the character that was read, with as many more as are needed; stop if a read
        blocked. */
    method InterpretChar(first: char) returns (stop: bool)
      requires Valid() && nread == 1 <= nbuf && keybuf[0] == first && lastSearch < keyseqCount && !endline
      modifies this, keybuf
      ensures Valid() && keyseqCount == old(keyseqCount)
      ensures stop ==> var o := Interpret(table, old(number), old(Unread()));
                       && nread == nbuf >= old(nbuf) && (o.Waiting? || nbuf < o.read)
                       && Unread() == old(Unread()) && log == old(log) && number == old(number) && !endline
                       && (pos < |script| ==> |script| - pos + nbuf < old(|script| - pos + nbuf))
      ensures !stop ==> var o := Interpret(table, old(number), old(Unread()));
                        && o.Outcome? && nread == 0 && nbuf == Max(old(nbuf), o.read) - o.used
                        && Unread() == old(Unread())[o.used..]
                        && number == o.number && endline == o.ends
                        && |script| - pos + nbuf < old(|script| - pos + nbuf)
                        && log == old(log) + [Step(old(Unread())[..o.used], o.events,
                                                   if endline then Unread()[..nbuf] else "")]
    {
      hide Scan, Decide, Bounded;
      ghost var u := Unread();
      ghost var used := 1;
      var events := [];
      if number >= 0 && IsDigit(first) {
        DiscardChars(1);
        DigitArgument(first);
      } else {
        var v := ReadKeySequence(first);
        if v.NeedMore? {
          WaitingFor(table, number, u);
          return true;
        }
        events, used := Act(first, v);
      }
      log := log + [Step(u[..used], events, if endline then Unread()[..nbuf] else "")];
      return false;
    }

    /** What was and will be done. */
    ghost function Whole(): Log
      requires Valid()
      reads this, keybuf
    {
      Future().(steps := log + Future().steps)
    }

    /** Prepare for a new line: characters that were read ahead are dropped. */
    method ResetEditor()
      requires Valid()
      modifies `number, `endline, `nbuf, `nread
      ensures Valid() && !endline && number == -1 && nbuf == nread == 0
      ensures Chars(script[pos..]) == Unread()
    {
      number := -1;
      endline := false;
      nbuf, nread := 0, 0;
    }

    /** Interpret a character that was read, which leaves what was done and will be done as it was. */
    method Follow(c: char) returns (stop: bool)
      requires Valid() && nread == 1 <= nbuf && keybuf[0] == c && lastSearch < keyseqCount && !endline
      modifies this, keybuf
      ensures Valid() && nread == if stop then nbuf else 0
      ensures Whole() == old(Whole())
      ensures stop ==> !endline && (pos == |script| ==> Future().steps == [])
      ensures !stop || pos < |script| ==> |script| - pos + nbuf < old(|script| - pos + nbuf)
    {
      hide Interpret, Run, Take, Unread, Bounded;
      ghost var u, f, ahead, number0, log0 := Unread(), Future(), nbuf, number, log;
      UnreadParts();
      stop := InterpretChar(c);
      UnreadParts();
      if stop {
        AheadDoesNotMatter(table, number, ahead, nbuf, u);
        StuckRun(table, number, nbuf, u);
      } else {
        RunStep(table, number0, ahead, u, number, nbuf, endline, keybuf[..nbuf], Chars(script[pos..]));
        ghost var s, l := log[|log0|], Future();
        assert f == l.(steps := [s] + l.steps);
        assert log + l.steps == log0 + ([s] + l.steps);
      }
    }

    /** Read and interpret one key sequence; stop if a read blocked. */
    method ReadOne() returns (stop: bool)
      requires Valid() && nread == 0 && !endline
      modifies this, keybuf
      ensures Valid() && nread == 0
      ensures Whole() == old(Whole())
      ensures stop ==> !endline && (pos == |script| ==> Future().steps == [])
      ensures !stop || pos < |script| ==> |script| - pos + nbuf < old(|script| - pos + nbuf)
    {
      hide Interpret, Run, Take, Unread, Bounded;
      ghost var u := Unread();
      UnreadParts();
      var status, c := ReadTerminal();
      UnreadParts();
      if status != Ok {
        nread := 0;
        StuckRun(table, number, nbuf, u);
        return true;
      }
      keyseqCount := keyseqCount + 1;
      AheadDoesNotMatter(table, number, old(nbuf), nbuf, u);
      stop := Follow(c);
      if stop {
        nread := 0;
      }
    }

    lemma UnreadParts()
      requires nbuf <= keybuf.Length && pos <= |script|
      ensures Unread() == keybuf[..nbuf] + Chars(script[pos..]) && nbuf <= |Unread()|
      ensures Unread()[..nbuf] == keybuf[..nbuf]
      ensures pos == |script| ==> |Unread()| == nbuf
      ensures nbuf > 0 ==> Unread()[0] == keybuf[0]
    {
    }

    /** Read and interpret key presses until a line ends or a read blocks. */
    method GetInputLine() returns (ended: bool)
      requires Valid() && nread == 0
      modifies this, keybuf
      ensures Valid() && nread == 0
      ensures Whole() == old(Whole())
      ensures ended == endline
      ensures !ended && pos == |script| ==> Future().steps == []
      ensures ended || pos < |script| ==> |script| - pos + nbuf < old(|script| - pos + nbuf)
    {
      if endline {
        ResetEditor();
      }
      while true
        invariant Valid() && nread == 0 && !endline && Whole() == old(Whole())
        invariant |script| - pos + nbuf <= old(|script| - pos + nbuf)
        decreases |script| - pos + nbuf
      {
        var stop := ReadOne();
        if stop {
          return false;
        }
        if endline {
          return true;
        }
      }
    }

    /** Ask for lines for as long as the terminal gives anything. Whatever the reads are that block,
        what is done is what is done with the characters alone. */
    method Serve()
      requires Valid() && nread == 0
      modifies this, keybuf
      ensures Valid() && log == old(Whole()).steps
    {
      while true
        invariant Valid() && nread == 0 && Whole() == old(Whole())
        decreases |script| - pos + nbuf
      {
        var ended := GetInputLine();
        if !ended && pos == |script| {
          assert log == log + Future().steps;
          return;
        }
      }
    }
  }

  /** Two terminals that give the same characters, and block in different places: the same is done. */
  method ServeTwice(table: Table, script: seq<Read>, script': seq<Read>) returns (a: KeyReader, b: KeyReader)
    requires Bounded(table) && Chars(script) == Chars(script')
    ensures a.log == b.log == Run(table, -1, 0, Chars(script)).steps
  {
    a := new KeyReader(table, script);
    b := new KeyReader(table, script');
    assert script[0..] == script && script'[0..] == script';
    assert a.Whole().steps == [] + Run(table, -1, 0, Chars(script)).steps;
    assert b.Whole().steps == [] + Run(table, -1, 0, Chars(script')).steps;
    a.Serve();
    b.Serve();
  }
}
