/** What key presses come to, said on the keys themselves: bound sequences, repeat counts, and characters
    that are inserted. */
module KeyLaws {
  import opened Basics
  import opened KeySpec

  predicate Meta(t: Table, c: char) {
    c as int >= 128 && !t.isPrint(c)
  }

  predicate Control(c: char) {
    c as int < 32 || c as int == 127
  }

  /** What the bindings of a key sequence that starts with c start with: a backslash, if c is neither a
      control character nor a meta character. */
  function Lead(t: Table, c: char): string {
    if Meta(t, c) || Control(c) then "" else "\\"
  }

  /** The repeat count that an action gets. */
  function Times(number: int): int {
    if number < 0 then 1 else number
  }

  /** Something may be bound to the sequence s, and nothing to a part of it before its end. */
  ghost predicate Decides(t: Table, s: string) {
    && 0 < |s| && |Lead(t, s[0])| + |s| <= KEY_MAX
    && (forall i :: 0 <= i < |s| ==> !Meta(t, s[i]))
    && (forall i :: 0 < i < |s| ==> t.lookup(Lead(t, s[0]) + s[..i]).Ambig?)
  }

  /** The sequence s is bound to an action, and no part of it before its end is. */
  ghost predicate Binds(t: Table, s: string, action: nat) {
    Decides(t, s) && t.lookup(Lead(t, s[0]) + s) == Exact(action)
  }

  /** The search of the history ends, unless the action is part of one. */
  function After(t: Table, action: nat): seq<Event> {
    if t.searches(action) then [] else [SearchCancelled]
  }

  lemma {:induction false} ScanReaches(t: Table, s: string, input: string, k: nat)
    requires Decides(t, s) && s <= input && 1 <= k <= |s|
    ensures var v := Scan(t, Lead(t, s[0]) + s[..k - 1], s[k - 1], input, k);
            && (t.lookup(Lead(t, s[0]) + s).Exact? ==>
                  v == Matched(t.lookup(Lead(t, s[0]) + s).action, s[|s| - 1], |s|))
            && (t.lookup(Lead(t, s[0]) + s).NoMatch? ==> v == Unmatched((Lead(t, s[0]) + s)[0], |s|))
    decreases |s| - k
  {
    var keyseq := Lead(t, s[0]) + s[..k - 1];
    assert s[..k - 1] + [s[k - 1]] == s[..k];
    assert keyseq + [s[k - 1]] == Lead(t, s[0]) + s[..k];
    assert !Meta(t, s[k - 1]);
    if k < |s| {
      assert t.lookup(Lead(t, s[0]) + s[..k]).Ambig?;
      assert input[k] == s[k];
      ScanReaches(t, s, input, k + 1);
    } else {
      assert s[..k] == s;
    }
  }

  /** A bound sequence is taken whole, and its action gets the repeat count, or 1 if none was entered;
      the count is then used up. The line ends if the action ends it. */
  lemma BoundSequenceActs(t: Table, number: int, s: string, action: nat, rest: string)
    requires Binds(t, s, action) && action != t.digitArgument && (number >= 0 ==> !('0' <= s[0] <= '9'))
    ensures Interpret(t, number, s + rest)
         == Outcome(|s|, |s|, [Acted(action, Times(number))] + After(t, action), -1, t.ends(action))
  {
    hide Scan;
    assert Lead(t, s[0]) + s[..0] == Lead(t, s[0]) == Prefix(t, s[0]) by { assert !Meta(t, s[0]); }
    ScanReaches(t, s, s + rest, 1);
  }

  /** A sequence that is bound to digit-argument adds its last character to the count, if that is a
      digit, and else starts a new count. */
  lemma DigitArgumentCounts(t: Table, number: int, s: string, rest: string)
    requires Binds(t, s, t.digitArgument) && (number >= 0 ==> !('0' <= s[0] <= '9'))
    ensures var o := Interpret(t, number, s + rest); var last := s[|s| - 1];
            && o.Outcome? && o.read == o.used == |s| && !o.ends
            && o.events == [Acted(t.digitArgument, last as int)] + After(t, t.digitArgument)
            && o.number == if '0' <= last <= '9' then Max(number, 0) * 10 + (last as int - '0' as int) else 0
  {
    hide Scan;
    assert Lead(t, s[0]) + s[..0] == Lead(t, s[0]) == Prefix(t, s[0]) by { assert !Meta(t, s[0]); }
    ScanReaches(t, s, s + rest, 1);
  }

  /** A sequence that turns out not to be bound uses up its first character only: that is inserted as
      often as the count says if it is a tab or not a control character, and else the bell rings. */
  lemma UnboundSequence(t: Table, number: int, s: string, rest: string)
    requires Decides(t, s) && t.lookup(Lead(t, s[0]) + s).NoMatch? && (number >= 0 ==> !('0' <= s[0] <= '9'))
    ensures Interpret(t, number, s + rest)
         == if s[0] == '\t' || !Control(s[0])
            then Outcome(|s|, 1, [Inserted(s[0], Times(number)), SearchCancelled], -1, false)
            else Outcome(|s|, 1, [Rang, SearchCancelled], number, false)
  {
    hide Scan;
    assert Lead(t, s[0]) + s[..0] == Lead(t, s[0]) == Prefix(t, s[0]) by { assert !Meta(t, s[0]); }
    ScanReaches(t, s, s + rest, 1);
  }

  lemma {:induction false} ScanGoesOn(t: Table, s: string, input: string, k: nat)
    requires Decides(t, s) && t.lookup(Lead(t, s[0]) + s).Ambig? && |Lead(t, s[0])| + |s| == 64
    requires s <= input && |s| < |input| && 1 <= k <= |s|
    ensures Scan(t, Lead(t, s[0]) + s[..k - 1], s[k - 1], input, k) == TooLong(|s| + 1)
    decreases |s| - k
  {
    var keyseq := Lead(t, s[0]) + s[..k - 1];
    assert s[..k - 1] + [s[k - 1]] == s[..k];
    assert keyseq + [s[k - 1]] == Lead(t, s[0]) + s[..k];
    assert !Meta(t, s[k - 1]);
    if k < |s| {
      assert t.lookup(Lead(t, s[0]) + s[..k]).Ambig?;
      assert input[k] == s[k];
      ScanGoesOn(t, s, input, k + 1);
    } else {
      assert s[..k] == s;
    }
  }

  /** When the buffer is full of a sequence that is not decided yet, the next character makes the bell
      ring, and the first one is used up. */
  lemma LongSequenceRings(t: Table, number: int, s: string, rest: string)
    requires Decides(t, s) && t.lookup(Lead(t, s[0]) + s).Ambig? && |Lead(t, s[0])| + |s| == 64 && rest != ""
    requires number >= 0 ==> !('0' <= s[0] <= '9')
    ensures Interpret(t, number, s + rest) == Outcome(|s| + 1, 1, [Rang], number, false)
  {
    hide Scan;
    assert Lead(t, s[0]) + s[..0] == Lead(t, s[0]) == Prefix(t, s[0]) by { assert !Meta(t, s[0]); }
    ScanGoesOn(t, s, s + rest, 1);
  }

  /** The key sequence that a single character stands for: a meta character for that of ESC and the
      character without the meta bit. */
  function KeysOf(t: Table, c: char): string
    requires c as int < 256
  {
    if Meta(t, c) then [ESC, (c as int - 128) as char] else Lead(t, c) + [c]
  }

  /** A character for which nothing is bound is inserted as often as the count says, or once, if it is
      a tab or neither a control nor a meta character; any other rings the bell, and the count stays. */
  lemma UnboundCharacter(t: Table, number: int, c: char, rest: string)
    requires c as int < 256 && t.lookup(KeysOf(t, c)).NoMatch? && (number >= 0 ==> !('0' <= c <= '9'))
    ensures Interpret(t, number, [c] + rest)
         == if c == '\t' || !(Control(c) || Meta(t, c))
            then Outcome(1, 1, [Inserted(c, Times(number)), SearchCancelled], -1, false)
            else Outcome(1, 1, [Rang, SearchCancelled], number, false)
  {
    var input := [c] + rest;
    assert input[0] == c;
    if Meta(t, c) {
      assert "" + [ESC] == [ESC] && [ESC] + [MetaToChar(c)] == KeysOf(t, c);
      assert Scan(t, [ESC], MetaToChar(c), input, 1) == Unmatched(ESC, 1);
    } else {
      assert Lead(t, c) + [c] == KeysOf(t, c);
    }
  }

  /** A meta character acts as what is bound to ESC and the character without the meta bit. */
  lemma BoundMetaActs(t: Table, number: int, c: char, action: nat, rest: string)
    requires 128 <= c as int < 256 && !t.isPrint(c) && t.lookup([ESC, (c as int - 128) as char]) == Exact(action)
    requires action != t.digitArgument
    ensures Interpret(t, number, [c] + rest)
         == Outcome(1, 1, [Acted(action, Times(number))] + After(t, action), -1, t.ends(action))
  {
    var input := [c] + rest;
    assert input[0] == c;
    assert "" + [ESC] == [ESC] && [ESC] + [MetaToChar(c)] == [ESC, (c as int - 128) as char];
    assert Scan(t, [ESC], MetaToChar(c), input, 1) == Matched(action, MetaToChar(c), 1);
  }

  // ---------- Counts ----------

  /** The run over a single step that leaves nothing. */
  lemma RunOne(t: Table, number: int, s: string)
    requires s != "" && Interpret(t, number, s).Outcome? && Interpret(t, number, s).used == |s|
    ensures var o := Interpret(t, number, s);
            Run(t, number, 0, s) == Log([Step(s, o.events, "")], if o.ends then -1 else o.number, "")
  {
    hide Interpret;
    var o := Interpret(t, number, s);
    var u := Take(o, 0, s);
    assert s[..|s|] == s && s[|s|..] == "";
    assert Run(t, u.number, u.ahead, u.rest) == Log([], u.number, "");
  }

  /** Pieces of input that are used up completely are interpreted one after the other. */
  lemma RunBoth(t: Table, number: int, a: string, b: string)
    requires Run(t, number, 0, a).rest == ""
    ensures var l := Run(t, number, 0, a); var l' := Run(t, l.number, 0, b);
            Run(t, number, 0, a + b) == l'.(steps := l.steps + l'.steps)
  {
    hide Run;
    RunInPieces(t, number, 0, a, b);
    assert "" + b == b;
  }

  /** Once a count was started, the digits that follow and then a bound sequence make its action act as
      often as the whole number says; the count is then used up. */
  lemma CountReachesAction(t: Table, number: nat, digits: string, s: string, action: nat)
    requires forall c :: c in digits ==> IsDigit(c)
    requires Binds(t, s, action) && action != t.digitArgument && !('0' <= s[0] <= '9')
    ensures var l := Run(t, number, 0, digits + s);
            && l.steps != [] && l.rest == "" && l.number == -1
            && l.steps[|l.steps| - 1] == Step(s, [Acted(action, Entered(number, digits))] + After(t, action), "")
  {
    hide Run, Interpret, Binds;
    DigitsAreEntered(t, number, 0, digits);
    EnteredIsNat(number, digits);
    var m := Entered(number, digits);
    BoundSequenceActs(t, m, s, action, "");
    assert s + "" == s;
    NotEmpty(t, s, action);
    RunOne(t, m, s);
    RunBoth(t, number, digits, s);
  }

  lemma NotEmpty(t: Table, s: string, action: nat)
    requires Binds(t, s, action)
    ensures s != ""
  {
  }

  lemma {:induction false} EnteredIsNat(number: nat, digits: string)
    ensures Entered(number, digits) >= 0
  {
  }

  /** The same, for a character that is inserted as often. */
  lemma CountReachesInsertion(t: Table, number: nat, digits: string, c: char)
    requires forall d :: d in digits ==> IsDigit(d)
    requires c as int < 256 && !Control(c) && !Meta(t, c) && !('0' <= c <= '9') && t.lookup(['\\', c]).NoMatch?
    ensures var l := Run(t, number, 0, digits + [c]);
            && l.steps != [] && l.rest == "" && l.number == -1
            && l.steps[|l.steps| - 1] == Step([c], [Inserted(c, Entered(number, digits)), SearchCancelled], "")
  {
    hide Run, Interpret;
    DigitsAreEntered(t, number, 0, digits);
    EnteredIsNat(number, digits);
    var m := Entered(number, digits);
    assert KeysOf(t, c) == "\\" + [c] == ['\\', c];
    UnboundCharacter(t, m, c, "");
    assert [c] + "" == [c];
    RunOne(t, m, [c]);
    RunBoth(t, number, digits, [c]);
  }

  /** The keys that enter a number: ESC and its first digit, which start a count, and its other digits. */
  function NumberKeys(n: nat): string {
    [ESC, Decimal(n)[0]] + Decimal(n)[1..]
  }

  /** ESC and a digit start a count. */
  predicate StartsCounts(t: Table) {
    t.lookup([ESC]).Ambig?
    && forall d :: '0' <= d <= '9' ==> t.lookup([ESC, d]) == Exact(t.digitArgument)
  }

  /** Entering a number starts a count with its first digit. */
  lemma FirstDigit(t: Table, d: char)
    requires StartsCounts(t) && '0' <= d <= '9'
    ensures var l := Run(t, -1, 0, [ESC, d]); l.number == AddDigit(-1, d) && l.rest == ""
  {
    hide Run, Interpret;
    var s := [ESC, d];
    assert Lead(t, ESC) == "" && "" + s[..1] == [ESC] && "" + s == s && s + "" == s;
    DigitArgumentCounts(t, -1, s, "");
    RunOne(t, -1, s);
  }

  lemma NumberInPieces(t: Table, n: nat, more: string)
    requires StartsCounts(t)
    ensures var d := Decimal(n); var l := Run(t, -1, 0, [ESC, d[0]]);
            && l.number >= 0 && l.rest == "" && Entered(l.number, d[1..]) == n
            && (forall c :: c in d[1..] ==> IsDigit(c))
            && Run(t, -1, 0, NumberKeys(n) + more)
               == var l' := Run(t, l.number, 0, d[1..] + more); l'.(steps := l.steps + l'.steps)
  {
    hide Run, Interpret, Decimal, Entered;
    var d := Decimal(n);
    assert d[0] in d && forall c :: c in d[1..] ==> c in d;
    FirstDigit(t, d[0]);
    NumberIsEntered(n);
    EnteredFirst(-1, d);
    RunBoth(t, -1, [ESC, d[0]], d[1..] + more);
    assert NumberKeys(n) + more == [ESC, d[0]] + (d[1..] + more);
  }

  /** Entering any number n, and then a sequence that is bound to an action, makes it act n times. */
  lemma NumberReachesAction(t: Table, n: nat, s: string, action: nat)
    requires StartsCounts(t) && Binds(t, s, action) && action != t.digitArgument && !('0' <= s[0] <= '9')
    ensures var l := Run(t, -1, 0, NumberKeys(n) + s);
            && l.steps != [] && l.rest == "" && l.number == -1
            && l.steps[|l.steps| - 1] == Step(s, [Acted(action, n)] + After(t, action), "")
  {
    hide Run, Binds, Decimal, Entered;
    NumberInPieces(t, n, s);
    var d := Decimal(n);
    CountReachesAction(t, Run(t, -1, 0, [ESC, d[0]]).number, d[1..], s, action);
  }

  /** Entering any number n, and then a character that is not bound, inserts it n times. */
  lemma NumberReachesInsertion(t: Table, n: nat, c: char)
    requires StartsCounts(t)
    requires c as int < 256 && !Control(c) && !Meta(t, c) && !('0' <= c <= '9') && t.lookup(['\\', c]).NoMatch?
    ensures var l := Run(t, -1, 0, NumberKeys(n) + [c]);
            && l.steps != [] && l.rest == "" && l.number == -1
            && l.steps[|l.steps| - 1] == Step([c], [Inserted(c, n), SearchCancelled], "")
  {
    hide Run, Decimal, Entered;
    NumberInPieces(t, n, [c]);
    var d := Decimal(n);
    CountReachesInsertion(t, Run(t, -1, 0, [ESC, d[0]]).number, d[1..], c);
  }
}
