/** What libtecla/getline.c makes of a stream of characters in emacs mode: how it is divided into key
    sequences, repeat counts and characters to be inserted. */
module KeySpec {
  import opened Basics

  /** GL_KEY_MAX. */
  const KEY_MAX: int := 64
  const ESC: char := 27 as char

  datatype Lookup = Exact(action: nat) | Ambig | NoMatch

  /** The table of key bindings, the locale's printable characters, the actions that end a line, and
      those that search the history. */
  datatype Table = Table(lookup: string -> Lookup, isPrint: char -> bool, digitArgument: nat,
                         ends: nat -> bool, searches: nat -> bool)

  /** No key sequence that is bound is longer than KEY_MAX. */
  ghost predicate Bounded(t: Table) {
    forall s: string :: t.lookup(s).Ambig? ==> |s| < KEY_MAX
  }

  predicate IsDigit(c: char) {
    '0' <= c <= '9'
  }

  predicate IsMeta(c: char, t: Table) {
    c as int >= 128 && !t.isPrint(c)
  }

  function MetaToChar(c: char): (r: char)
    ensures r as int < 128
  {
    (c as int % 128) as char
  }

  /** What comes of trying to take a key sequence from the start of the input: the number of
      characters read for it, and the binding that was found; or that more input is needed. */
  datatype Verdict =
    | NeedMore
    | Matched(action: nat, last: char, read: nat)
    | Unmatched(first: char, read: nat)
    | TooLong(read: nat)

  /** Try to complete a key sequence, of which k characters of the input were read; c is the last of
      them, and is not part of keyseq yet. */
  function Scan(t: Table, keyseq: string, c: char, input: string, k: nat): (v: Verdict)
    requires k <= |input|
    ensures !v.NeedMore? ==> k <= v.read <= |input|
    decreases KEY_MAX - |keyseq|
  {
    if |keyseq| >= KEY_MAX then TooLong(k)
    else if IsMeta(c, t) then Scan(t, keyseq + [ESC], MetaToChar(c), input, k)
    else
      var keyseq' := keyseq + [c];
      match t.lookup(keyseq')
      case Exact(action) => Matched(action, c, k)
      case NoMatch => Unmatched(keyseq'[0], k)
      case Ambig => if k < |input| then Scan(t, keyseq', input[k], input, k + 1) else NeedMore
  }

  function Prefix(t: Table, c: char): string {
    if !IsMeta(c, t) && !IsCtrl(c) then "\\" else ""
  }

  /** What was done. */
  datatype Event = Acted(action: nat, count: int) | Inserted(c: char, count: int) | Rang | SearchCancelled

  function Count(number: int): int {
    if number >= 0 then number else 1
  }

  function AddDigit(number: int, c: char): (r: int)
    ensures r >= 0
  {
    var n := if number < 0 || !IsDigit(c) then 0 else number;
    if IsDigit(c) then n * 10 + (c as int - '0' as int) else n
  }

  /** What comes of interpreting the start of the input: the number of characters read, and of those
      the number that are used up, the events, and the repeat count being entered, or -1. */
  datatype Outcome = Waiting | Outcome(read: nat, used: nat, events: seq<Event>, number: int, ends: bool)

  function Decide(t: Table, number: int, first: char, v: Verdict): Outcome {
    match v
    case NeedMore => Waiting
    case Matched(action, last, read) =>
      var after := if t.searches(action) then [] else [SearchCancelled];
      if action == t.digitArgument then
        Outcome(read, read, [Acted(action, last as int)] + after, AddDigit(number, last), false)
      else Outcome(read, read, [Acted(action, Count(number))] + after, -1, t.ends(action))
    case Unmatched(c, read) =>
      if c != '\\' && c != '\t' then Outcome(read, 1, [Rang, SearchCancelled], number, false)
      else Outcome(read, 1, [Inserted(first, Count(number)), SearchCancelled], -1, false)
    case TooLong(read) => Outcome(read, 1, [Rang], number, false)
  }

  function Interpret(t: Table, number: int, input: string): (o: Outcome)
    requires input != ""
    ensures o.Outcome? ==> 1 <= o.used <= o.read <= |input|
  {
    if number >= 0 && IsDigit(input[0]) then Outcome(1, 1, [], AddDigit(number, input[0]), false)
    else Decide(t, number, input[0], Scan(t, Prefix(t, input[0]), input[0], input, 1))
  }

  /** One step: the characters that were used up, the events, and, at the end of a line, the
      characters that were read ahead and are dropped. */
  datatype Step = Step(used: string, events: seq<Event>, dropped: string)

  /** What a step leaves: the repeat count, how many of the characters left were read ahead, and
      those. */
  datatype Turn = Turn(step: Step, number: int, ahead: nat, rest: string)

  /** Take a step. */
  function Take(o: Outcome, ahead: nat, input: string): (u: Turn)
    requires o.Outcome? && 1 <= o.used <= o.read <= |input| && ahead <= |input|
    ensures u.ahead <= |u.rest| < |input|
    ensures u.step.used + u.step.dropped + u.rest == input
    ensures u.step.used != "" && (u.step.dropped != "" ==> o.ends) && u.step.events == o.events
  {
    var ahead' := Max(ahead, o.read) - o.used;
    var n := if o.ends then o.used + ahead' else o.used;
    assert input == input[..n] + input[n..] && input[..n] == input[..o.used] + input[o.used..n];
    Turn(Step(input[..o.used], o.events, input[o.used..n]),
         if o.ends then -1 else o.number, if o.ends then 0 else ahead', input[n..])
  }

  datatype Log = Log(steps: seq<Step>, number: int, rest: string)

  /** There is nothing to interpret, or not enough. */
  predicate Stuck(t: Table, number: int, input: string) {
    input == "" || Interpret(t, number, input).Waiting?
  }

  /** Interpret as much of the input as is possible; of the input, the first few characters were read
      ahead already. */
  function Run(t: Table, number: int, ahead: nat, input: string): Log
    requires ahead <= |input|
    decreases |input|
  {
    if Stuck(t, number, input) then Log([], number, input)
    else
      var u := Take(Interpret(t, number, input), ahead, input);
      var l := Run(t, u.number, u.ahead, u.rest);
      l.(steps := [u.step] + l.steps)
  }

  function Consumed(steps: seq<Step>): string {
    if steps == [] then "" else steps[0].used + steps[0].dropped + Consumed(steps[1..])
  }

  /** Only the end of a line drops characters. */
  ghost predicate WellMade(s: Step, t: Table) {
    s.used != ""
    && (s.dropped != "" ==> s.events != [] && s.events[0].Acted? && t.ends(s.events[0].action))
  }

  lemma TakeIsWellMade(t: Table, number: int, ahead: nat, input: string)
    requires !Stuck(t, number, input) && ahead <= |input|
    ensures WellMade(Take(Interpret(t, number, input), ahead, input).step, t)
  {
    hide Scan;
  }

  lemma ConsumedFirst(s: Step, steps: seq<Step>, rest: string)
    ensures Consumed([s] + steps) + rest == s.used + s.dropped + (Consumed(steps) + rest)
  {
    assert ([s] + steps)[1..] == steps;
  }

  /** Every character of the input is used or dropped exactly once, in order, or is left; only a line
      end drops any; and every step uses at least one. */
  lemma {:induction false} RunConserves(t: Table, number: int, ahead: nat, input: string)
    requires ahead <= |input|
    ensures var l := Run(t, number, ahead, input);
            Consumed(l.steps) + l.rest == input && forall s :: s in l.steps ==> WellMade(s, t)
    decreases |input|
  {
    hide Interpret, Take, WellMade;
    if Stuck(t, number, input) {
      assert "" + input == input;
    } else {
      var u := Take(Interpret(t, number, input), ahead, input);
      var l := Run(t, u.number, u.ahead, u.rest);
      RunConserves(t, u.number, u.ahead, u.rest);
      TakeIsWellMade(t, number, ahead, input);
      ConsumedFirst(u.step, l.steps, l.rest);
    }
  }

  /** Where a run is: the repeat count, how many of the characters left were read ahead, and those. */
  datatype Point = Point(number: int, ahead: nat, input: string)

  predicate PointOk(p: Point) {
    p.ahead <= |p.input|
  }

  /** Where a run is after its first i steps. */
  function After(t: Table, p: Point, i: nat): (r: Point)
    requires PointOk(p)
    ensures PointOk(r)
    decreases i
  {
    if i == 0 || Stuck(t, p.number, p.input) then p
    else
      var u := Take(Interpret(t, p.number, p.input), p.ahead, p.input);
      After(t, Point(u.number, u.ahead, u.rest), i - 1)
  }

  /** The next step ends a line while there are characters that were read ahead and are not used. */
  predicate EndsWithReadAhead(t: Table, p: Point)
    requires PointOk(p)
  {
    && !Stuck(t, p.number, p.input)
    && var o := Interpret(t, p.number, p.input);
       o.ends && Max(p.ahead, o.read) > o.used
  }

  lemma TakeDrops(o: Outcome, ahead: nat, input: string)
    requires o.Outcome? && 1 <= o.used <= o.read <= |input| && ahead <= |input|
    ensures Take(o, ahead, input).step.dropped != "" <==> o.ends && Max(ahead, o.read) > o.used
  {
  }

  /** A step drops characters exactly if it ends a line while characters are read ahead. */
  lemma {:induction false} StepDrops(t: Table, p: Point, i: nat)
    requires PointOk(p) && i < |Run(t, p.number, p.ahead, p.input).steps|
    ensures var q := After(t, p, i);
            && !Stuck(t, q.number, q.input)
            && var s := Run(t, p.number, p.ahead, p.input).steps[i];
               && s == Take(Interpret(t, q.number, q.input), q.ahead, q.input).step
               && (s.dropped != "" <==> EndsWithReadAhead(t, q))
    decreases i
  {
    hide Interpret, Take;
    var o := Interpret(t, p.number, p.input);
    TakeDrops(o, p.ahead, p.input);
    if i > 0 {
      var u := Take(o, p.ahead, p.input);
      StepDrops(t, Point(u.number, u.ahead, u.rest), i - 1);
    }
  }

  function Used(steps: seq<Step>): string {
    if steps == [] then "" else steps[0].used + Used(steps[1..])
  }

  lemma {:induction false} UsedOrDropped(steps: seq<Step>)
    ensures |Used(steps)| <= |Consumed(steps)|
    ensures |Used(steps)| == |Consumed(steps)| <==> forall i :: 0 <= i < |steps| ==> steps[i].dropped == ""
    ensures |Used(steps)| == |Consumed(steps)| ==> Used(steps) == Consumed(steps)
  {
    if steps != [] {
      UsedOrDropped(steps[1..]);
      assert forall i :: 0 <= i < |steps| - 1 ==> steps[1..][i] == steps[i + 1];
      if forall i :: 0 <= i < |steps[1..]| ==> steps[1..][i].dropped == "" {
        assert forall i :: 1 <= i < |steps| ==> steps[i] == steps[1..][i - 1];
      }
    }
  }

  /** Every character of the input is used once, or is left, exactly if no line ends while characters
      are read ahead. */
  lemma NothingIsLost(t: Table, p: Point)
    requires PointOk(p)
    ensures var l := Run(t, p.number, p.ahead, p.input);
            Used(l.steps) + l.rest == p.input
            <==> forall i :: 0 <= i < |l.steps| ==> !EndsWithReadAhead(t, After(t, p, i))
  {
    hide Run, Interpret, Take, After, EndsWithReadAhead, WellMade;
    var l := Run(t, p.number, p.ahead, p.input);
    RunConserves(t, p.number, p.ahead, p.input);
    UsedOrDropped(l.steps);
    assert |Consumed(l.steps) + l.rest| == |Consumed(l.steps)| + |l.rest|;
    assert |Used(l.steps) + l.rest| == |Used(l.steps)| + |l.rest|;
    if i :| 0 <= i < |l.steps| && EndsWithReadAhead(t, After(t, p, i)) {
      StepDrops(t, p, i);
      assert l.steps[i].dropped != "";
    } else {
      forall i | 0 <= i < |l.steps| ensures l.steps[i].dropped == "" {
        StepDrops(t, p, i);
      }
    }
  }

  /** A table in which ESC and ESC newline start longer key sequences, and newline ends the line. */
  function EscapingTable(): Table {
    Table(s => if s == [ESC] || s == [ESC, '\n'] then Ambig else if s == "\n" then Exact(1) else NoMatch,
          c => ' ' <= c <= '~', 0, action => action == 1, action => false)
  }

  /** The steps of interpreting ESC newline x y with it. */
  lemma EscapingSteps()
    ensures Bounded(EscapingTable())
    ensures var t := EscapingTable();
            && Interpret(t, -1, [ESC, '\n', 'x', 'y']) == Outcome(3, 1, [Rang, SearchCancelled], -1, false)
            && Interpret(t, -1, ['\n', 'x', 'y']) == Outcome(1, 1, [Acted(1, 1), SearchCancelled], -1, true)
            && Interpret(t, -1, ['y']) == Outcome(1, 1, [Inserted('y', 1), SearchCancelled], -1, false)
  {
    hide Bounded;
    var t := EscapingTable();
    var input := [ESC, '\n', 'x', 'y'];
    EscapingScan(input);
    assert Scan(t, "", '\n', ['\n', 'x', 'y'], 1) == Matched(1, '\n', 1) by { assert "" + ['\n'] == "\n"; }
    assert Scan(t, "\\", 'y', ['y'], 1) == Unmatched('\\', 1) by { assert |"\\" + ['y']| == 2; }
  }

  lemma EscapingScan(input: string)
    requires input == [ESC, '\n', 'x', 'y']
    ensures Bounded(EscapingTable()) && Scan(EscapingTable(), "", ESC, input, 1) == Unmatched(ESC, 3)
  {
    var t := EscapingTable();
    assert "" + [ESC] == [ESC] && [ESC] + ['\n'] == [ESC, '\n'];
    assert Scan(t, [ESC, '\n'], 'x', input, 3) == Unmatched(ESC, 3) by { assert |[ESC, '\n'] + ['x']| == 3; }
    assert Scan(t, [ESC], '\n', input, 2) == Unmatched(ESC, 3);
  }

  /** With it, ESC newline x is read ahead to find that it is not bound; when newline then ends the
      line, the x is lost. */
  lemma ReadAheadIsLost()
    ensures Bounded(EscapingTable())
    ensures var l := Run(EscapingTable(), -1, 0, [ESC, '\n', 'x', 'y']);
            && l.rest == ""
            && l.steps == [Step([ESC], [Rang, SearchCancelled], ""),
                           Step("\n", [Acted(1, 1), SearchCancelled], "x"),
                           Step("y", [Inserted('y', 1), SearchCancelled], "")]
  {
    hide Interpret, Bounded;
    var t := EscapingTable();
    EscapingSteps();
    assert Run(t, -1, 0, "") == Log([], -1, "");
    assert Run(t, -1, 0, ['y']) == Log([Step("y", [Inserted('y', 1), SearchCancelled], "")], -1, "");
    assert Take(Interpret(t, -1, [ESC, '\n', 'x', 'y']), 0, [ESC, '\n', 'x', 'y'])
        == Turn(Step([ESC], [Rang, SearchCancelled], ""), -1, 2, ['\n', 'x', 'y']);
    assert [ESC, '\n', 'x', 'y'][1..] == ['\n', 'x', 'y'] && ['\n', 'x', 'y'][2..] == ['y'];
    assert Take(Interpret(t, -1, ['\n', 'x', 'y']), 2, ['\n', 'x', 'y'])
        == Turn(Step("\n", [Acted(1, 1), SearchCancelled], "x"), -1, 0, ['y']);
  }

  /** The repeat count after digits were entered. */
  function Entered(number: int, digits: string): int {
    if digits == "" then number
    else AddDigit(Entered(number, digits[..|digits| - 1]), digits[|digits| - 1])
  }

  function Decimal(n: nat): (s: string)
    ensures s != "" && forall c :: c in s ==> IsDigit(c)
  {
    var d := [('0' as int + n % 10) as char];
    if n < 10 then d else Decimal(n / 10) + d
  }

  /** Entering the digits of a number leaves that number as the repeat count. */
  lemma {:induction false} NumberIsEntered(n: nat)
    ensures Entered(-1, Decimal(n)) == n
  {
    var s := Decimal(n);
    if n < 10 {
      assert s[..0] == "";
    } else {
      NumberIsEntered(n / 10);
      assert s[..|s| - 1] == Decimal(n / 10);
    }
  }

  /** Once a repeat count was started, each digit of the input is entered, and nothing else is done. */
  lemma {:induction false} DigitsAreEntered(t: Table, number: nat, ahead: nat, digits: string)
    requires ahead <= |digits| && forall c :: c in digits ==> IsDigit(c)
    ensures var l := Run(t, number, ahead, digits);
            && l.number == Entered(number, digits) && l.rest == ""
            && forall s :: s in l.steps ==> s.events == []
    decreases |digits|
  {
    if digits != "" {
      var u := Take(Interpret(t, number, digits), ahead, digits);
      DigitsAreEntered(t, u.number, u.ahead, digits[1..]);
      EnteredFirst(number, digits);
    }
  }

  lemma {:induction false} EnteredFirst(number: int, digits: string)
    requires digits != ""
    ensures Entered(number, digits) == Entered(AddDigit(number, digits[0]), digits[1..])
    decreases |digits|
  {
    var n := |digits| - 1;
    if n == 0 {
      assert digits[..0] == "" && digits[1..] == "";
    } else {
      EnteredFirst(number, digits[..n]);
      assert digits[1..][..n - 1] == digits[..n][1..];
    }
  }

  /** The key sequence that some characters stand for. */
  function Keys(t: Table, s: string): string {
    if s == "" then ""
    else if |s| == 1 then Prefix(t, s[0]) + Split(t, s[0])
    else Keys(t, s[..|s| - 1]) + Split(t, s[|s| - 1])
  }

  function Split(t: Table, c: char): string {
    if IsMeta(c, t) then [ESC, MetaToChar(c)] else [c]
  }

  /** The first k characters stand for something that may still become a longer key sequence. */
  predicate Undecided(t: Table, input: string, k: nat)
    requires k <= |input|
  {
    |Keys(t, input[..k])| <= KEY_MAX && t.lookup(Keys(t, input[..k])).Ambig?
  }

  /** The verdict on the first k characters, given that they are decided. */
  predicate Verdicts(t: Table, input: string, k: nat, v: Verdict)
    requires 1 <= k <= |input|
  {
    var keys := Keys(t, input[..k]);
    if |keys| > KEY_MAX then v == TooLong(k)
    else
      match t.lookup(keys)
      case Exact(action) => v == Matched(action, Split(t, input[k - 1])[|Split(t, input[k - 1])| - 1], k)
      case NoMatch => keys != "" && v == Unmatched(keys[0], k)
      case Ambig => false
  }

  /** The characters read so far are part of a key sequence that is not decided before them. */
  ghost predicate Reading(t: Table, keyseq: string, c: char, input: string, k: nat)
    requires 1 <= k <= |input|
  {
    && |keyseq| < KEY_MAX
    && (k > 1 ==> keyseq == Keys(t, input[..k - 1]))
    && (k == 1 ==> keyseq == Prefix(t, c))
    && c == input[k - 1]
    && UndecidedBefore(t, input, k)
  }

  lemma ReadingKeys(t: Table, keyseq: string, c: char, input: string, k: nat)
    requires 1 <= k <= |input| && Reading(t, keyseq, c, input, k)
    ensures Keys(t, input[..k]) == keyseq + Split(t, c)
  {
    assert input[..k][..k - 1] == input[..k - 1];
  }

  /** What the scanner does with one character. */
  lemma ScanStep(t: Table, keyseq: string, c: char, input: string, k: nat)
    requires Bounded(t) && k <= |input| && |keyseq| < KEY_MAX
    ensures keyseq + Split(t, c) != ""
    ensures var keys := keyseq + Split(t, c); var v := Scan(t, keyseq, c, input, k);
            if |keys| > KEY_MAX then v == TooLong(k)
            else
              match t.lookup(keys)
              case Exact(action) => v == Matched(action, Split(t, c)[|Split(t, c)| - 1], k)
              case NoMatch => v == Unmatched(keys[0], k)
              case Ambig => |keys| < KEY_MAX
                            && v == (if k < |input| then Scan(t, keys, input[k], input, k + 1) else NeedMore)
  {
    if IsMeta(c, t) {
      assert keyseq + [ESC] + [MetaToChar(c)] == keyseq + Split(t, c);
    }
  }

  /** Everything before place k is undecided. */
  ghost predicate UndecidedBefore(t: Table, input: string, k: nat)
    requires k <= |input| + 1
  {
    forall j :: 1 <= j < k ==> Undecided(t, input, j)
  }

  /** The scanner decides on the shortest part of the input that stands for a complete key sequence,
      or for none, or for one that is too long. */
  lemma {:induction false} ScanDecides(t: Table, keyseq: string, c: char, input: string, k: nat)
    requires Bounded(t) && 1 <= k <= |input| && Reading(t, keyseq, c, input, k)
    ensures var v := Scan(t, keyseq, c, input, k);
            if v.NeedMore? then UndecidedBefore(t, input, |input| + 1)
            else v.read >= 1 && Verdicts(t, input, v.read, v) && UndecidedBefore(t, input, v.read)
    decreases |input| - k
  {
    hide Scan, Keys, Split, Bounded;
    ReadingKeys(t, keyseq, c, input, k);
    ScanStep(t, keyseq, c, input, k);
    var keys := keyseq + Split(t, c);
    if |keys| <= KEY_MAX && t.lookup(keys).Ambig? {
      assert Undecided(t, input, k);
      if k < |input| {
        ScanDecides(t, keys, input[k], input, k + 1);
      }
    }
  }

  /** How the start of the input is interpreted, when it is not part of a repeat count: by the
      verdict on its shortest part that is decided. */
  lemma InterpretDecides(t: Table, number: int, input: string, v: Verdict)
    requires Bounded(t) && input != "" && (number < 0 || !IsDigit(input[0]))
    requires !v.NeedMore? && 1 <= v.read <= |input|
    requires Verdicts(t, input, v.read, v) && UndecidedBefore(t, input, v.read)
    ensures Interpret(t, number, input) == Decide(t, number, input[0], v)
  {
    hide Scan, Keys, Split, Bounded;
    var w := Scan(t, Prefix(t, input[0]), input[0], input, 1);
    ScanDecides(t, Prefix(t, input[0]), input[0], input, 1);
    VerdictsDecide(t, input, v.read, v);
    assert !w.NeedMore?;
    VerdictsDecide(t, input, w.read, w);
    DecidedOnce(t, input, v.read, w.read);
  }

  lemma VerdictsDecide(t: Table, input: string, k: nat, v: Verdict)
    requires 1 <= k <= |input| && Verdicts(t, input, k, v)
    ensures !Undecided(t, input, k)
  {
  }

  lemma DecidedOnce(t: Table, input: string, j: nat, k: nat)
    requires 1 <= j <= |input| && 1 <= k <= |input| && !Undecided(t, input, j) && !Undecided(t, input, k)
    requires UndecidedBefore(t, input, j) && UndecidedBefore(t, input, k)
    ensures j == k
  {
  }

  /** More input does not change a decision, and is needed for one that was not reached. */
  lemma {:induction false} ScanIsStable(t: Table, keyseq: string, c: char, input: string, more: string, k: nat)
    requires k <= |input|
    ensures var v := Scan(t, keyseq, c, input, k); var w := Scan(t, keyseq, c, input + more, k);
            if v.NeedMore? then w.NeedMore? || w.read > |input| else w == v
    decreases KEY_MAX - |keyseq|
  {
    if |keyseq| < KEY_MAX {
      if IsMeta(c, t) {
        ScanIsStable(t, keyseq + [ESC], MetaToChar(c), input, more, k);
      } else if t.lookup(keyseq + [c]).Ambig? {
        if k < |input| {
          assert (input + more)[k] == input[k];
          ScanIsStable(t, keyseq + [c], input[k], input, more, k + 1);
        }
      }
    }
  }

  lemma InterpretIsStable(t: Table, number: int, input: string, more: string)
    requires input != ""
    ensures var o := Interpret(t, number, input); var o' := Interpret(t, number, input + more);
            if o.Waiting? then o'.Waiting? || o'.read > |input| else o' == o
  {
    hide Scan;
    assert (input + more)[0] == input[0];
    ScanIsStable(t, Prefix(t, input[0]), input[0], input, more, 1);
  }

  lemma TakeMore(o: Outcome, ahead: nat, input: string, more: string)
    requires o.Outcome? && 1 <= o.used <= o.read <= |input| && ahead <= |input|
    ensures var u := Take(o, ahead, input); Take(o, ahead, input + more) == u.(rest := u.rest + more)
  {
    var n := if o.ends then Max(ahead, o.read) else o.used;
    assert (input + more)[n..] == input[n..] + more;
    assert (input + more)[..o.used] == input[..o.used];
    assert (input + more)[o.used..n] == input[o.used..n];
  }

  lemma RunIsWaiting(t: Table, number: int, ahead: nat, input: string, more: string)
    requires ahead <= |input| && Stuck(t, number, input)
    ensures Run(t, number, ahead, input + more) == Run(t, number, |input|, input + more)
  {
    hide Interpret;
    if input == "" {
      assert input + more == more;
    } else {
      InterpretIsStable(t, number, input, more);
    }
  }

  /** Input that comes in pieces is interpreted as if it had come at once: what is left of the first
      piece was all read ahead, and is read again. */
  lemma {:induction false} RunInPieces(t: Table, number: int, ahead: nat, input: string, more: string)
    requires ahead <= |input|
    ensures var l := Run(t, number, ahead, input); var l' := Run(t, l.number, |l.rest|, l.rest + more);
            Run(t, number, ahead, input + more) == l'.(steps := l.steps + l'.steps)
    decreases |input|
  {
    hide Interpret, Take;
    if Stuck(t, number, input) {
      RunIsWaiting(t, number, ahead, input, more);
      var l' := Run(t, number, |input|, input + more);
      assert [] + l'.steps == l'.steps;
    } else {
      InterpretIsStable(t, number, input, more);
      var o := Interpret(t, number, input);
      TakeMore(o, ahead, input, more);
      var u := Take(o, ahead, input);
      RunInPieces(t, u.number, u.ahead, u.rest, more);
      var l := Run(t, u.number, u.ahead, u.rest);
      var l' := Run(t, l.number, |l.rest|, l.rest + more);
      assert [u.step] + (l.steps + l'.steps) == ([u.step] + l.steps) + l'.steps;
    }
  }
}
