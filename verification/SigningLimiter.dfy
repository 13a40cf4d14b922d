/** The auto-sign guardrails: a value cap and a sliding 60-second limit kept as a queue of
    timestamps that is purged lazily. The queue is proved to refine the plain limiter that remembers
    every acceptance. */
module SigningLimiter {
  import opened Wrappers
  import opened Counting

  const DEFAULT_MAX_LAMPORTS: int := 1_000_000
  const DEFAULT_VELOCITY_LIMIT: int := 10
  const WINDOW_MILLIS: int := 60_000

  datatype Options = Options(maxAutoSignLamports: Option<int>, velocityLimit: Option<int>)

  datatype Verdict = Accepted | OverCap | TooFast

  function OrElse(o: Option<int>, default: int): int {
    if o.Some? then o.value else default
  }

  function MaxLamports(opts: Option<Options>): int {
    if opts.Some? then OrElse(opts.value.maxAutoSignLamports, DEFAULT_MAX_LAMPORTS) else DEFAULT_MAX_LAMPORTS
  }

  function VelocityLimit(opts: Option<Options>): int {
    if opts.Some? then OrElse(opts.value.velocityLimit, DEFAULT_VELOCITY_LIMIT) else DEFAULT_VELOCITY_LIMIT
  }

  // ----- the queue

  /** What shifting out of the front leaves. */
  function DropOld(stamps: seq<int>, windowStart: int): seq<int> {
    if |stamps| == 0 || stamps[0] >= windowStart then stamps else DropOld(stamps[1..], windowStart)
  }

  /** One call as it happens: the clock is read once for the check and once for the record. */
  datatype Call = Enforce(opts: Option<Options>, value: Option<int>, checkedAt: int, recordedAt: int) | Reset

  predicate OverTheCap(c: Call)
    requires c.Enforce?
  {
    c.value.Some? && c.value.value > MaxLamports(c.opts)
  }

  function QueueVerdict(stamps: seq<int>, c: Call): Verdict
    requires c.Enforce?
  {
    if OverTheCap(c) then OverCap
    else if |DropOld(stamps, c.checkedAt - WINDOW_MILLIS)| < VelocityLimit(c.opts) then Accepted
    else TooFast
  }

  function QueueAfter(stamps: seq<int>, c: Call): seq<int> {
    if c.Reset? then []
    else
      match QueueVerdict(stamps, c)
      case OverCap => stamps
      case TooFast => DropOld(stamps, c.checkedAt - WINDOW_MILLIS)
      case Accepted => DropOld(stamps, c.checkedAt - WINDOW_MILLIS) + [c.recordedAt]
  }

  /** The module's state and its functions. */
  class Guardrails {
    var autoSignTimestamps: seq<int>

    constructor ()
      ensures autoSignTimestamps == []
    {
      autoSignTimestamps := [];
    }

    method CheckVelocity(limit: int, now: int) returns (ok: bool)
      modifies this
      ensures autoSignTimestamps == DropOld(old(autoSignTimestamps), now - WINDOW_MILLIS)
      ensures ok <==> |autoSignTimestamps| < limit
    {
      var windowStart := now - WINDOW_MILLIS;
      while |autoSignTimestamps| > 0 && autoSignTimestamps[0] < windowStart
        invariant DropOld(autoSignTimestamps, windowStart) == DropOld(old(autoSignTimestamps), windowStart)
        decreases |autoSignTimestamps|
      {
        autoSignTimestamps := autoSignTimestamps[1..];
      }
      return |autoSignTimestamps| < limit;
    }

    method RecordAutoSign(now: int)
      modifies this
      ensures autoSignTimestamps == old(autoSignTimestamps) + [now]
    {
      autoSignTimestamps := autoSignTimestamps + [now];
    }

    method EnforceGuardrails(opts: Option<Options>, value: Option<int>, checkedAt: int, recordedAt: int)
      returns (r: Verdict)
      modifies this
      ensures r == QueueVerdict(old(autoSignTimestamps), Enforce(opts, value, checkedAt, recordedAt))
      ensures autoSignTimestamps == QueueAfter(old(autoSignTimestamps), Enforce(opts, value, checkedAt, recordedAt))
    {
      var maxLamports := MaxLamports(opts);
      var velocityLimit := VelocityLimit(opts);
      if value.Some? && value.value > maxLamports {
        return OverCap;
      }
      var ok := CheckVelocity(velocityLimit, checkedAt);
      if !ok {
        return TooFast;
      }
      RecordAutoSign(recordedAt);
      return Accepted;
    }

    method ResetVelocityWindow()
      modifies this
      ensures autoSignTimestamps == QueueAfter(old(autoSignTimestamps), Reset)
    {
      autoSignTimestamps := [];
    }
  }

  // ----- the plain limiter

  /** The entries at or after a time. */
  function Since(history: seq<int>, start: int): seq<int> {
    if |history| == 0 then []
    else
      var front, last := Since(history[..|history| - 1], start), history[|history| - 1];
      if last >= start then front + [last] else front
  }

  /** Judged by the whole history of acceptances since the last reset. */
  function PlainVerdict(history: seq<int>, c: Call): Verdict
    requires c.Enforce?
  {
    if OverTheCap(c) then OverCap
    else if |Since(history, c.checkedAt - WINDOW_MILLIS)| < VelocityLimit(c.opts) then Accepted
    else TooFast
  }

  function HistoryAfter(history: seq<int>, c: Call): seq<int> {
    if c.Reset? then [] else if PlainVerdict(history, c).Accepted? then history + [c.recordedAt] else history
  }

  function Queue(cs: seq<Call>): seq<int> {
    if |cs| == 0 then [] else QueueAfter(Queue(cs[..|cs| - 1]), cs[|cs| - 1])
  }

  function History(cs: seq<Call>): seq<int> {
    if |cs| == 0 then [] else HistoryAfter(History(cs[..|cs| - 1]), cs[|cs| - 1])
  }

  /** The start of the window at the latest velocity check, if there was one since the last reset. */
  function LastWindow(cs: seq<Call>): Option<int> {
    if |cs| == 0 then None
    else
      var last := cs[|cs| - 1];
      if last.Reset? then None
      else if OverTheCap(last) then LastWindow(cs[..|cs| - 1])
      else Some(last.checkedAt - WINDOW_MILLIS)
  }

  /** Clock readings never go backwards, within a call or between calls. */
  ghost predicate ClockMonotone(cs: seq<Call>) {
    && (forall i :: 0 <= i < |cs| && cs[i].Enforce? ==> cs[i].checkedAt <= cs[i].recordedAt)
    && (forall i, j :: 0 <= i < j < |cs| && cs[i].Enforce? && cs[j].Enforce? ==> cs[i].recordedAt <= cs[j].checkedAt)
  }

  ghost predicate Ascending(s: seq<int>) {
    forall i, j :: 0 <= i < j < |s| ==> s[i] <= s[j]
  }

  // ----- facts about windows

  lemma {:induction false} NothingSince(s: seq<int>, start: int)
    requires forall i :: 0 <= i < |s| ==> s[i] < start
    ensures Since(s, start) == []
  {
    if |s| > 0 {
      NothingSince(s[..|s| - 1], start);
    }
  }

  /** In an ascending list the entries since a time are a suffix. */
  lemma {:induction false} SinceIsSuffix(s: seq<int>, start: int) returns (k: nat)
    requires Ascending(s)
    ensures k <= |s| && Since(s, start) == s[k..]
    ensures forall i :: 0 <= i < |s| ==> (s[i] >= start <==> i >= k)
  {
    var n := |s| - 1;
    if |s| > 0 && s[n] >= start {
      k := SinceIsSuffix(s[..n], start);
      assert s[..n][k..] + [s[n]] == s[k..];
      assert forall i :: 0 <= i < n ==> s[..n][i] == s[i];
    } else {
      k := |s|;
      NothingSince(s, start);
    }
  }

  lemma {:induction false} DropOldIsSuffix(s: seq<int>, start: int, k: nat)
    requires k <= |s|
    requires forall i :: 0 <= i < |s| ==> (s[i] >= start <==> i >= k)
    ensures DropOld(s, start) == s[k..]
  {
    if k > 0 {
      DropOldIsSuffix(s[1..], start, k - 1);
      assert s[1..][k - 1..] == s[k..];
    }
  }

  /** Purging what an earlier purge left is the same as purging everything. */
  lemma PurgeAfterPurge(s: seq<int>, early: int, late: int)
    requires Ascending(s) && early <= late
    ensures DropOld(Since(s, early), late) == Since(s, late) == DropOld(s, late)
  {
    var j := SinceIsSuffix(s, early);
    var k := SinceIsSuffix(s, late);
    if k < |s| {
      assert s[k] >= early;
    }
    DropOldIsSuffix(s[j..], late, k - j);
    assert s[j..][k - j..] == s[k..];
    DropOldIsSuffix(s, late, k);
  }

  lemma AppendInside(s: seq<int>, start: int, x: int)
    requires x >= start
    ensures Since(s + [x], start) == Since(s, start) + [x]
  {
    assert (s + [x])[..|s|] == s;
  }

  // ----- the refinement

  ghost predicate Upto(history: seq<int>, now: int) {
    Ascending(history) && forall i :: 0 <= i < |history| ==> history[i] <= now
  }

  lemma {:induction false} HistoryAscends(cs: seq<Call>, now: int)
    requires ClockMonotone(cs)
    requires forall i :: 0 <= i < |cs| && cs[i].Enforce? ==> cs[i].recordedAt <= now
    ensures Upto(History(cs), now)
  {
    if |cs| > 0 {
      var before, last := cs[..|cs| - 1], cs[|cs| - 1];
      if last.Enforce? {
        HistoryAscends(before, last.checkedAt);
      }
    }
  }

  /** The purged queue is, at every moment of every run, the history since the last reset restricted
      to the window of the latest velocity check; and both limiters give the same verdicts. */
  lemma {:induction false} QueueRefinesHistory(cs: seq<Call>)
    requires ClockMonotone(cs)
    ensures Queue(cs) == Purged(History(cs), LastWindow(cs))
    ensures LastWindow(cs).None? ==> History(cs) == []
    ensures |cs| > 0 && cs[|cs| - 1].Enforce? ==>
      QueueVerdict(Queue(cs[..|cs| - 1]), cs[|cs| - 1]) == PlainVerdict(History(cs[..|cs| - 1]), cs[|cs| - 1])
  {
    if |cs| > 0 {
      var before, last := cs[..|cs| - 1], cs[|cs| - 1];
      QueueRefinesHistory(before);
      if last.Enforce? {
        HistoryAscends(before, last.checkedAt);
        WindowAdvances(cs, |cs| - 1);
        CheckAgrees(History(before), LastWindow(before), last);
      }
    }
  }

  function Purged(history: seq<int>, window: Option<int>): seq<int> {
    if window.None? then [] else Since(history, window.value)
  }

  /** One call on a purged queue and on the history it came from. */
  lemma CheckAgrees(history: seq<int>, window: Option<int>, c: Call)
    requires c.Enforce? && c.checkedAt <= c.recordedAt && Upto(history, c.checkedAt)
    requires window.None? ==> history == []
    requires window.Some? ==> window.value <= c.checkedAt - WINDOW_MILLIS
    ensures QueueVerdict(Purged(history, window), c) == PlainVerdict(history, c)
    ensures !OverTheCap(c) ==>
      QueueAfter(Purged(history, window), c) == Since(HistoryAfter(history, c), c.checkedAt - WINDOW_MILLIS)
  {
    var start := c.checkedAt - WINDOW_MILLIS;
    if window.Some? {
      PurgeAfterPurge(history, window.value, start);
    }
    AppendInside(history, start, c.recordedAt);
  }

  lemma {:induction false} WindowAdvances(cs: seq<Call>, n: nat)
    requires ClockMonotone(cs) && n < |cs| && cs[n].Enforce?
    ensures LastWindow(cs[..n]).Some? ==> LastWindow(cs[..n]).value <= cs[n].checkedAt - WINDOW_MILLIS
  {
    var i := n;
    while i > 0 && cs[i - 1].Enforce? && OverTheCap(cs[i - 1])
      invariant 0 <= i <= n && LastWindow(cs[..n]) == LastWindow(cs[..i])
    {
      assert cs[..i][..i - 1] == cs[..i - 1];
      i := i - 1;
    }
    if i > 0 {
      assert cs[..i][..i - 1] == cs[..i - 1];
    }
  }

  /** A call within the cap is rejected exactly when the window already holds `limit` acceptances. */
  lemma RejectedIffWindowFull(cs: seq<Call>, c: Call)
    requires c.Enforce? && ClockMonotone(cs + [c])
    ensures QueueVerdict(Queue(cs), c) == TooFast <==>
      !OverTheCap(c) && |Since(History(cs), c.checkedAt - WINDOW_MILLIS)| >= VelocityLimit(c.opts)
  {
    QueueRefinesHistory(cs + [c]);
    assert (cs + [c])[..|cs|] == cs;
  }

  /** With the default options: a value over a million lamports is refused, and otherwise the call is
      accepted exactly when fewer than ten acceptances lie in the last sixty seconds. */
  lemma DefaultVerdict(cs: seq<Call>, c: Call)
    requires c.Enforce? && c.opts.None? && ClockMonotone(cs + [c])
    ensures QueueVerdict(Queue(cs), c) ==
      if c.value.Some? && c.value.value > 1_000_000 then OverCap
      else if |Since(History(cs), c.checkedAt - 60_000)| < 10 then Accepted
      else TooFast
  {
    RejectedIffWindowFull(cs, c);
  }

  /** Options replace the defaults one by one. */
  lemma GivenLimits(cs: seq<Call>, c: Call)
    requires c.Enforce? && c.opts.Some? && ClockMonotone(cs + [c])
    ensures
      var cap := OrElse(c.opts.value.maxAutoSignLamports, 1_000_000);
      var limit := OrElse(c.opts.value.velocityLimit, 10);
      QueueVerdict(Queue(cs), c) ==
        if c.value.Some? && c.value.value > cap then OverCap
        else if |Since(History(cs), c.checkedAt - 60_000)| < limit then Accepted
        else TooFast
  {
    RejectedIffWindowFull(cs, c);
  }

  // ----- the rate

  ghost predicate LimitIs(cs: seq<Call>, limit: int) {
    forall i :: 0 <= i < |cs| && cs[i].Enforce? ==> VelocityLimit(cs[i].opts) == limit
  }

  /** limit + 1 acceptances in a row always span more than the window. */
  ghost predicate Spaced(history: seq<int>, limit: nat) {
    forall i :: 0 <= i && i + limit < |history| ==> history[i] + WINDOW_MILLIS < history[i + limit]
  }

  lemma {:induction false} HistorySpaced(cs: seq<Call>, limit: int)
    requires ClockMonotone(cs) && LimitIs(cs, limit)
    ensures if limit <= 0 then History(cs) == [] else Spaced(History(cs), limit)
  {
    if |cs| > 0 {
      var before, last := cs[..|cs| - 1], cs[|cs| - 1];
      HistorySpaced(before, limit);
      if last.Enforce? && PlainVerdict(History(before), last).Accepted? {
        var h := History(before);
        HistoryAscends(before, last.checkedAt);
        var k := SinceIsSuffix(h, last.checkedAt - WINDOW_MILLIS);
        var n := |h|;
        assert n - k < limit;
        if n >= limit {
          assert h[n - limit] < last.checkedAt - WINDOW_MILLIS;
        }
      }
    }
  }

  /** Which acceptances fall into the closed window that starts at `start`. */
  function InWindow(history: seq<int>, start: int): set<int> {
    set i | 0 <= i < |history| && start <= history[i] <= start + WINDOW_MILLIS
  }

  lemma SpacedApart(history: seq<int>, limit: nat, i: nat, j: nat)
    requires Ascending(history) && Spaced(history, limit) && i <= j < |history|
    ensures j - i >= limit ==> history[i] + WINDOW_MILLIS < history[j] || limit == 0
  {
    if j - i >= limit {
      assert history[i + limit] <= history[j];
    }
  }

  lemma WindowIndices(history: seq<int>, limit: nat, start: int) returns (k: nat)
    requires Ascending(history) && Spaced(history, limit) && limit > 0
    ensures forall i :: i in InWindow(history, start) ==> k <= i < k + limit
  {
    k := SinceIsSuffix(history, start);
    forall i | i in InWindow(history, start)
      ensures k <= i < k + limit
    {
      SpacedApart(history, limit, k, i);
    }
  }

  lemma SpacedWindow(history: seq<int>, limit: nat, start: int)
    requires Ascending(history) && Spaced(history, limit) && limit > 0
    ensures |InWindow(history, start)| <= limit
  {
    var k := WindowIndices(history, limit, start);
    IndicesFit(InWindow(history, start), k, limit);
  }

  lemma IndicesFit(s: set<int>, k: int, limit: nat)
    requires forall i :: i in s ==> k <= i < k + limit
    ensures |s| <= limit
  {
    assert s <= Range(k, k + limit);
    RangeSize(k, k + limit);
    SubsetSize(s, Range(k, k + limit));
  }

  /** Under a fixed limit, no closed 60-second window, wherever it starts, ever contains more than
      `limit` signatures accepted since the last reset. */
  lemma RateNeverExceeded(cs: seq<Call>, limit: nat, start: int, now: int)
    requires ClockMonotone(cs) && LimitIs(cs, limit)
    requires forall i :: 0 <= i < |cs| && cs[i].Enforce? ==> cs[i].recordedAt <= now
    ensures |InWindow(History(cs), start)| <= limit
  {
    HistorySpaced(cs, limit);
    HistoryAscends(cs, now);
    if limit == 0 {
      assert InWindow(History(cs), start) == {};
    } else {
      SpacedWindow(History(cs), limit, start);
    }
  }
}
