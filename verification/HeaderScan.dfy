/** Finding the end of an HTTP header block, the empty line of section 2.1 of RFC 9112:
  * `find_header_end` in crates/dictyon/src/wire/support.rs.
  */
module HeaderScan {
  import opened Prelude

  const TERMINATOR: seq<byte> := [13, 10, 13, 10]

  predicate TermAt(s: seq<byte>, p: nat) { OccursAt(s, TERMINATOR, p) }

  /** The first terminator at or after `from`. */
  function FirstTerm(s: seq<byte>, from: nat): (r: Option<nat>)
    ensures r.None? ==> forall q: nat | from <= q :: !TermAt(s, q)
    ensures r.Some? ==> from <= r.value && TermAt(s, r.value) && forall q: nat | from <= q < r.value :: !TermAt(s, q)
    decreases |s| - from
  {
    if from + 4 > |s| then None
    else if TermAt(s, from) then Some(from)
    else FirstTerm(s, from + 1)
  }

  /** The plain search of a whole buffer. */
  function HeaderEnd(s: seq<byte>): Option<nat> { FirstTerm(s, 0) }

  /** Carriage return, line feed, carriage return, line feed. */
  predicate BlankLineAt(s: seq<byte>, q: nat) {
    q + 4 <= |s| && s[q] == 13 && s[q + 1] == 10 && s[q + 2] == 13 && s[q + 3] == 10
  }

  lemma TermIsBlankLine(s: seq<byte>, q: nat)
    ensures TermAt(s, q) <==> BlankLineAt(s, q)
  {
    if q + 4 <= |s| {
      var w := s[q..q + 4];
      assert w[0] == s[q] && w[1] == s[q + 1] && w[2] == s[q + 2] && w[3] == s[q + 3];
      assert BlankLineAt(s, q) ==> w == TERMINATOR;
    }
  }

  /** It finds the first one. */
  lemma HeaderEndIsFirstBlankLine(s: seq<byte>, p: nat)
    ensures HeaderEnd(s) == Some(p) <==> BlankLineAt(s, p) && forall q: nat | q < p :: !BlankLineAt(s, q)
  {
    hide TermAt, BlankLineAt;
    forall q: nat ensures TermAt(s, q) <==> BlankLineAt(s, q) {
      TermIsBlankLine(s, q);
    }
  }

  /** The resumed search, as the reader does it: three bytes before `scanned`. */
  function FindHeaderEnd(buf: seq<byte>, scanned: nat): Option<nat> {
    var from := if scanned < 3 then 0 else scanned - 3;
    if from > |buf| then None
    else
      match FirstTerm(buf[from..], 0)
      case None => None
      case Some(p) => Some(p + from)
  }

  lemma TermInWindow(s: seq<byte>, from: nat, p: nat)
    requires from <= |s|
    ensures TermAt(s[from..], p) <==> TermAt(s, from + p)
  {
  }

  lemma TermInPrefix(s: seq<byte>, n: nat, p: nat)
    requires n <= |s|
    ensures TermAt(s[..n], p) <==> TermAt(s, p) && p + 4 <= n
  {
  }

  /** The first terminator of a prefix is that of the whole, if it ends within the prefix. */
  lemma HeaderEndOfPrefix(s: seq<byte>, n: nat)
    requires n <= |s|
    ensures HeaderEnd(s[..n]) == if HeaderEnd(s).Some? && HeaderEnd(s).value + 4 <= n then HeaderEnd(s) else None
  {
    forall p: nat ensures TermAt(s[..n], p) <==> TermAt(s, p) && p + 4 <= n {
      TermInPrefix(s, n, p);
    }
  }

  /** If nothing ends within the bytes already scanned, resuming finds what a search of the
    * whole buffer finds.
    */
  lemma ResumedScanIsFullScan(buf: seq<byte>, scanned: nat)
    requires scanned <= |buf| && HeaderEnd(buf[..scanned]).None?
    ensures FindHeaderEnd(buf, scanned) == HeaderEnd(buf)
  {
    hide TermAt, FirstTerm;
    var from := if scanned < 3 then 0 else scanned - 3;
    forall p: nat ensures TermAt(buf[from..], p) <==> TermAt(buf, from + p) {
      TermInWindow(buf, from, p);
    }
    forall q: nat | q < from ensures !TermAt(buf, q) {
      TermInPrefix(buf, scanned, q);
      assert !TermAt(buf[..scanned], q);
    }
    var whole, window := HeaderEnd(buf), FirstTerm(buf[from..], 0);
    if whole.Some? {
      assert from <= whole.value;
      assert TermAt(buf[from..], whole.value - from);
    }
    if window.Some? {
      assert TermAt(buf, from + window.value);
      assert whole.Some?;
    }
  }

  /** Does the first terminator of `s` end within its first `n` bytes? */
  predicate EndsWithin(s: seq<byte>, n: nat) {
    HeaderEnd(s).Some? && HeaderEnd(s).value + 4 <= n
  }

  lemma EndsWithinWhole(s: seq<byte>)
    ensures EndsWithin(s, |s|) <==> HeaderEnd(s).Some?
  {
  }

  /** One turn of the reader: with `buf` the bytes of `all` read so far and nothing ended by
    * `scanned`, the resumed search answers for the whole stream.
    */
  lemma ScanAnswersForStream(all: seq<byte>, n: nat, scanned: nat)
    requires scanned <= n <= |all| && !EndsWithin(all, scanned)
    ensures FindHeaderEnd(all[..n], scanned) == if EndsWithin(all, n) then HeaderEnd(all) else None
    ensures HeaderEnd(all[..n]) == if EndsWithin(all, n) then HeaderEnd(all) else None
  {
    var buf := all[..n];
    HeaderEndOfPrefix(all, scanned);
    HeaderEndOfPrefix(all, n);
    assert buf[..scanned] == all[..scanned];
    ResumedScanIsFullScan(buf, scanned);
  }

  /** The headers of a well-formed response are recovered whatever follows the terminator. */
  lemma HeaderEndOfResponse(headers: seq<byte>, rest: seq<byte>)
    requires HeaderEnd(headers + TERMINATOR[..3]).None?
    ensures HeaderEnd(headers + TERMINATOR + rest) == Some(|headers|)
  {
    var s := headers + TERMINATOR + rest;
    var n := |headers|;
    assert s[n..n + 4] == TERMINATOR;
    assert TermAt(s, n);
    assert s[..n + 3] == headers + TERMINATOR[..3];
    HeaderEndOfPrefix(s, n + 3);
  }

  // ----- the size limit

  datatype Verdict = Accepted(held: nat) | TooLarge | Waiting(held: nat)

  /** One turn of the reading loop: `n` bytes are buffered, `scanned` were there before. */
  function Decide(all: seq<byte>, cap: nat, n: nat, scanned: nat): Verdict
    requires n <= |all|
  {
    match FindHeaderEnd(all[..n], scanned)
    case Some(p) => if p > cap then TooLarge else Accepted(n)
    case None => if n > cap then TooLarge else Waiting(n)
  }

  /** The reading loop, when its reads deliver these numbers of bytes, or what is left. */
  function HeaderLoop(all: seq<byte>, cap: nat, sizes: seq<nat>): (v: Verdict)
    ensures v.Waiting? ==> v.held <= |all|
  {
    if sizes == [] then Decide(all, cap, 0, 0) else
    var v := HeaderLoop(all, cap, sizes[..|sizes| - 1]);
    if v.Waiting? then Decide(all, cap, Min(v.held + sizes[|sizes| - 1], |all|), v.held) else v
  }

  /** Reads into a buffer of `chunk` bytes. */
  predicate AreReads(sizes: seq<nat>, chunk: nat) {
    forall i | 0 <= i < |sizes| :: 1 <= sizes[i] <= chunk
  }

  /** A turn's decision, without the search. */
  lemma DecisionIsPlain(all: seq<byte>, cap: nat, n: nat, scanned: nat)
    requires scanned <= n <= |all| && !EndsWithin(all, scanned)
    ensures Decide(all, cap, n, scanned) ==
            if EndsWithin(all, n) then if HeaderEnd(all).value > cap then TooLarge else Accepted(n)
            else if n > cap then TooLarge else Waiting(n)
  {
    ScanAnswersForStream(all, n, scanned);
  }

  lemma {:induction false} LoopNext(all: seq<byte>, cap: nat, sizes: seq<nat>, k: nat)
    ensures var v := HeaderLoop(all, cap, sizes);
            HeaderLoop(all, cap, sizes + [k]) ==
            if v.Waiting? then Decide(all, cap, Min(v.held + k, |all|), v.held) else v
  {
    hide Decide;
    assert (sizes + [k])[..|sizes|] == sizes;
  }

  /** What a verdict says about the stream: an accepted block ends within the cap and within
    * what is held, which is at most the cap and one chunk; a block is too large only if no
    * terminator ends by the byte after the cap; while the loop waits nothing has ended.
    */
  ghost predicate VerdictHolds(all: seq<byte>, cap: nat, chunk: nat, v: Verdict) {
    match v
    case Accepted(n) => n <= |all| && n <= cap + chunk && EndsWithin(all, n) && HeaderEnd(all).value <= cap
    case TooLarge => |all| > cap && !EndsWithin(all, cap + 1)
    case Waiting(n) => n <= |all| && n <= cap && !EndsWithin(all, n)
  }

  lemma {:induction false} VerdictMeans(all: seq<byte>, cap: nat, chunk: nat, sizes: seq<nat>)
    requires AreReads(sizes, chunk)
    ensures VerdictHolds(all, cap, chunk, HeaderLoop(all, cap, sizes))
    ensures HeaderLoop(all, cap, sizes).Waiting? ==> HeaderLoop(all, cap, sizes).held >= Min(|sizes|, |all|)
  {
    hide Decide, HeaderEnd;
    if sizes == [] {
      DecisionIsPlain(all, cap, 0, 0);
    } else {
      var init, k := sizes[..|sizes| - 1], sizes[|sizes| - 1];
      VerdictMeans(all, cap, chunk, init);
      var v := HeaderLoop(all, cap, init);
      if v.Waiting? {
        DecisionIsPlain(all, cap, Min(v.held + k, |all|), v.held);
      }
    }
  }

  /** How much the reads deliver in all. */
  function Filled(sizes: seq<nat>): nat {
    if sizes == [] then 0 else Filled(sizes[..|sizes| - 1]) + sizes[|sizes| - 1]
  }

  /** No read stops beyond the cap and short of the end of a terminator at `p`. */
  predicate NoneStopsBetween(sizes: seq<nat>, cap: nat, p: nat) {
    forall j | 0 <= j <= |sizes| :: !(cap < Filled(sizes[..j]) < p + 4)
  }

  lemma NoneStopsSnoc(sizes: seq<nat>, cap: nat, p: nat)
    requires sizes != []
    ensures NoneStopsBetween(sizes, cap, p) <==>
            NoneStopsBetween(sizes[..|sizes| - 1], cap, p) && !(cap < Filled(sizes) < p + 4)
  {
    var init := sizes[..|sizes| - 1];
    assert forall j | 0 <= j < |sizes| :: init[..j] == sizes[..j];
    assert sizes[..|sizes|] == sizes;
    if NoneStopsBetween(sizes, cap, p) {
      assert forall j | 0 <= j <= |init| :: !(cap < Filled(sizes[..j]) < p + 4);
    }
  }

  lemma {:induction false} NoneStopsEarly(sizes: seq<nat>, cap: nat, p: nat)
    requires Filled(sizes) <= cap
    ensures NoneStopsBetween(sizes, cap, p)
  {
    if sizes != [] {
      NoneStopsEarly(sizes[..|sizes| - 1], cap, p);
      NoneStopsSnoc(sizes, cap, p);
    }
  }

  /** The verdict on a terminator at `p`, by where the reads stop: still open while they stop
    * within the cap and short of its end, accepted once they reach its end if it starts within
    * the cap and none stopped in between, and too large otherwise.
    */
  lemma {:induction false} VerdictBySplit(all: seq<byte>, cap: nat, sizes: seq<nat>, p: nat)
    requires HeaderEnd(all) == Some(p)
    ensures var v, filled := HeaderLoop(all, cap, sizes), Filled(sizes);
            && (v.Waiting? <==> filled <= cap && filled < p + 4) && (v.Waiting? ==> v.held == filled)
            && (v.Accepted? <==> p <= cap && filled >= p + 4 && NoneStopsBetween(sizes, cap, p))
  {
    hide Decide, NoneStopsBetween, HeaderEnd;
    EndsWithinWhole(all);
    if sizes == [] {
      DecisionIsPlain(all, cap, 0, 0);
    } else {
      var init, k := sizes[..|sizes| - 1], sizes[|sizes| - 1];
      VerdictBySplit(all, cap, init, p);
      NoneStopsSnoc(sizes, cap, p);
      var v := HeaderLoop(all, cap, init);
      if v.Waiting? {
        NoneStopsEarly(init, cap, p);
        DecisionIsPlain(all, cap, Min(v.held + k, |all|), v.held);
      } else if Filled(init) < p + 4 {
        NotBetween(init, cap, p);
      }
    }
  }

  lemma NotBetween(sizes: seq<nat>, cap: nat, p: nat)
    requires cap < Filled(sizes) < p + 4
    ensures !NoneStopsBetween(sizes, cap, p)
  {
    assert sizes[..|sizes|] == sizes;
  }

  /** One byte at a time. */
  function Ones(n: nat): (sizes: seq<nat>)
    ensures |sizes| == n && AreReads(sizes, 1)
  {
    seq(n, _ => 1)
  }

  lemma {:induction false} WaitingByteByByte(all: seq<byte>, cap: nat, n: nat)
    requires n <= |all| && n <= cap && !EndsWithin(all, n)
    ensures HeaderLoop(all, cap, Ones(n)) == Waiting(n)
  {
    if n == 0 {
      DecisionIsPlain(all, cap, 0, 0);
    } else {
      WaitingByteByByte(all, cap, n - 1);
      assert Ones(n) == Ones(n - 1) + [1];
      LoopNext(all, cap, Ones(n - 1), 1);
      DecisionIsPlain(all, cap, n, n - 1);
    }
  }

  /** Byte by byte to `n`, then `k` at once. */
  lemma ThenOneRead(all: seq<byte>, cap: nat, n: nat, k: nat)
    requires n <= cap && n + k <= |all| && !EndsWithin(all, n)
    ensures HeaderLoop(all, cap, Ones(n) + [k]) == Decide(all, cap, n + k, n)
  {
    hide HeaderLoop, Decide, EndsWithin;
    WaitingByteByByte(all, cap, n);
    LoopNext(all, cap, Ones(n), k);
  }

  ghost predicate SomeReadsAccept(all: seq<byte>, cap: nat, chunk: nat) {
    exists sizes :: AreReads(sizes, chunk) && HeaderLoop(all, cap, sizes).Accepted?
  }

  ghost predicate SomeReadsReject(all: seq<byte>, cap: nat, chunk: nat) {
    exists sizes :: AreReads(sizes, chunk) && HeaderLoop(all, cap, sizes).TooLarge?
  }

  /** A stream can be accepted exactly when its terminator starts within the cap and ends
    * within the cap and one chunk.
    */
  lemma AcceptableIff(all: seq<byte>, cap: nat, chunk: nat)
    requires chunk >= 1
    ensures SomeReadsAccept(all, cap, chunk) <==>
            HeaderEnd(all).Some? && HeaderEnd(all).value <= cap && HeaderEnd(all).value + 4 <= cap + chunk
  {
    if sizes :| AreReads(sizes, chunk) && HeaderLoop(all, cap, sizes).Accepted? {
      VerdictMeans(all, cap, chunk, sizes);
    }
    var end := HeaderEnd(all);
    if end.Some? && end.value <= cap && end.value + 4 <= cap + chunk {
      var n := Min(cap, end.value + 3);
      var k := end.value + 4 - n;
      ThenOneRead(all, cap, n, k);
      DecisionIsPlain(all, cap, n + k, n);
      assert AreReads(Ones(n) + [k], chunk);
    }
  }

  /** A stream can be rejected exactly when it is longer than the cap and no terminator ends
    * by the byte after it.
    */
  lemma RejectableIff(all: seq<byte>, cap: nat, chunk: nat)
    requires chunk >= 1
    ensures SomeReadsReject(all, cap, chunk) <==> |all| > cap && !EndsWithin(all, cap + 1)
  {
    if sizes :| AreReads(sizes, chunk) && HeaderLoop(all, cap, sizes).TooLarge? {
      VerdictMeans(all, cap, chunk, sizes);
    }
    if |all| > cap && !EndsWithin(all, cap + 1) {
      ThenOneRead(all, cap, cap, 1);
      DecisionIsPlain(all, cap, cap + 1, cap);
      assert AreReads(Ones(cap) + [1], chunk);
    }
  }

  /** With a terminator at `p` and reads of at least four bytes allowed, as every validated
    * configuration does: up to three bytes below the cap all reads lead to acceptance, above
    * the cap all lead to rejection, and in between, and only there, the reads decide. Byte by
    * byte all of that band is rejected. No reads leave the verdict open for ever.
    */
  lemma ReadsDecideOnlyInBand(all: seq<byte>, cap: nat, chunk: nat, p: nat)
    requires HeaderEnd(all) == Some(p)
    ensures chunk >= 4 ==> (SomeReadsAccept(all, cap, chunk) <==> p <= cap)
    ensures chunk >= 1 ==> (SomeReadsReject(all, cap, chunk) <==> p + 3 > cap)
    ensures SomeReadsAccept(all, cap, 1) <==> p + 3 <= cap
    ensures forall sizes | AreReads(sizes, chunk) && |sizes| >= p + 4 :: !HeaderLoop(all, cap, sizes).Waiting?
  {
    if chunk >= 1 {
      AcceptableIff(all, cap, chunk);
      RejectableIff(all, cap, chunk);
    }
    AcceptableIff(all, cap, 1);
    forall sizes | AreReads(sizes, chunk) && |sizes| >= p + 4 ensures !HeaderLoop(all, cap, sizes).Waiting? {
      VerdictMeans(all, cap, chunk, sizes);
    }
  }

  // ----- the status line

  /** Bytes up to the first line feed, without a carriage return before it. */
  function FirstLine(s: seq<byte>): (line: seq<byte>)
    ensures line <= s && 10 !in line
    ensures |line| < |s| && s[|line|] == 10 ==> line == [] || line[|line| - 1] != 13
    ensures |line| == |s| || s[|line|] == 10 || (s[|line|] == 13 && |line| + 1 < |s| && s[|line| + 1] == 10)
  {
    if s == [] then []
    else if s[0] == 10 then []
    else if |s| > 1 && s[0] == 13 && s[1] == 10 then []
    else [s[0]] + FirstLine(s[1..])
  }
}
