/** The callback through which libtecla/chrqueue.c and libtecla/cplmatch.c write their output. */
module Writers {

  /** The output callback: it accepts, blocks or fails as `answer` dictates for each call and the
      number of characters that are offered in it. */
  class Writer {
    const answer: (nat, nat) -> int
    var calls: nat
    var out: string
    var last: int         // the outcome of the last call
    var offered: nat      // the number of characters that were offered in it

    constructor (answer: (nat, nat) -> int)
      ensures this.answer == answer && calls == 0 && out == ""
    {
      this.answer := answer;
      calls, out, last, offered := 0, "", 0, 0;
    }

    /** Accept a prefix of `s`; 0 means that the write blocked, and less that it failed. */
    method Write(s: string) returns (n: int)
      modifies this
      ensures calls == old(calls) + 1 && last == n <= |s| == offered
      ensures n == (if answer(old(calls), |s|) > |s| then |s| else answer(old(calls), |s|))
      ensures out == old(out) + (if n > 0 then s[..n] else "")
    {
      n := answer(calls, |s|);
      if n > |s| { n := |s|; }
      if n > 0 { out := out + s[..n]; }
      last := n;
      offered := |s|;
      calls := calls + 1;
    }

    /** Every call that offers something makes progress: none blocks or fails. */
    ghost predicate NeverBlocks() {
      forall c: nat, k: nat :: k > 0 ==> answer(c, k) > 0
    }

    /** Every call accepts all that it is offered. */
    ghost predicate AcceptsAll() {
      forall c: nat, k: nat :: answer(c, k) >= k
    }
  }
}
