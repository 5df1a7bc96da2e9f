/**
 The allocation counters as interleaved atomic steps: charges that add and then note the peak, and
 releases that retry a compare-exchange, which may fail for no reason.
 */
module AllocationGate {
  import opened Octets

  /** One atomic cell operation of the counter's subtraction: never below zero. */
  function Released(current: nat, bytes: nat): nat {
    if current < bytes then 0 else current - bytes
  }

  /** What a thread is in the middle of. */
  datatype Activity =
    | Idle
    | Charging(bytes: nat)
    | Noting(candidate: nat)
    | Releasing(bytes: nat)
    | Retrying(bytes: nat, seen: nat)

  /** The three counters, the threads, and, for the record, what was released and the highest value held. */
  datatype Gate = Gate(
    current: nat,
    peak: nat,
    total: nat,
    threads: seq<Activity>,
    released: nat,
    highest: nat)
  {
    function Set(t: nat, a: Activity): Gate
      requires t < |threads|
    {
      this.(threads := threads[t := a])
    }
  }

  /** The atomic steps: which thread, and whether a compare-exchange that could succeed fails anyway. */
  datatype Action =
    | BeginCharge(bytes: nat)
    | AddCurrent
    | NotePeak
    | BeginRelease(bytes: nat)
    | Load
    | CompareExchange(spurious: bool)

  /** Whether thread t can take the step, no counter wrapping. */
  predicate Enabled(g: Gate, t: nat, action: Action) {
    && t < |g.threads|
    && match action
       case BeginCharge(bytes) => g.threads[t].Idle? && g.total + bytes <= U64_MAX
       case AddCurrent => g.threads[t].Charging? && g.current + g.threads[t].bytes <= U64_MAX
       case NotePeak => g.threads[t].Noting?
       case BeginRelease(_) => g.threads[t].Idle?
       case Load => g.threads[t].Releasing?
       case CompareExchange(_) => g.threads[t].Retrying?
  }

  function Step(g: Gate, t: nat, action: Action): Gate
    requires Enabled(g, t, action)
  {
    match action
    case BeginCharge(bytes) => g.(total := g.total + bytes).Set(t, Charging(bytes))
    case AddCurrent =>
      var now := g.current + g.threads[t].bytes;
      g.(current := now, highest := Max(g.highest, now)).Set(t, Noting(now))
    case NotePeak => g.(peak := Max(g.peak, g.threads[t].candidate)).Set(t, Idle)
    case BeginRelease(bytes) => g.Set(t, Releasing(bytes))
    case Load => g.Set(t, Retrying(g.threads[t].bytes, g.current))
    case CompareExchange(spurious) =>
      var bytes, seen := g.threads[t].bytes, g.threads[t].seen;
      if seen == g.current && !spurious then
        g.(current := Released(seen, bytes), released := g.released + bytes).Set(t, Idle)
      else g.Set(t, Retrying(bytes, g.current))
  }

  /** A run: which thread took which step, in order. */
  ghost predicate IsRun(states: seq<Gate>, steps: seq<(nat, Action)>) {
    && |states| == |steps| + 1
    && forall k | 0 <= k < |steps| ::
         Enabled(states[k], steps[k].0, steps[k].1) && states[k + 1] == Step(states[k], steps[k].0, steps[k].1)
  }

  // -------------------------------------------------------------------------
  // The peak
  // -------------------------------------------------------------------------

  /** Someone between its add and its max who will raise the peak to the highest value held. */
  predicate OwesPeak(g: Gate) {
    exists t | 0 <= t < |g.threads| :: g.threads[t].Noting? && g.threads[t].candidate == g.highest
  }

  /** The peak never overstates, and what it misses is owed by a thread that is about to note it. */
  predicate Accounts(g: Gate) {
    && g.peak <= g.highest && g.current <= g.highest <= U64_MAX
    && (forall t | 0 <= t < |g.threads| && g.threads[t].Noting? :: g.threads[t].candidate <= g.highest)
    && (g.peak == g.highest || OwesPeak(g))
  }

  lemma {:induction false} StepAccounts(g: Gate, t: nat, action: Action)
    requires Accounts(g) && Enabled(g, t, action)
    ensures Accounts(Step(g, t, action)) && Step(g, t, action).highest >= g.highest
  {
    var r := Step(g, t, action);
    if OwesPeak(g) {
      var u :| 0 <= u < |g.threads| && g.threads[u].Noting? && g.threads[u].candidate == g.highest;
      if u != t { assert r.threads[u] == g.threads[u]; }
    }
    if action.AddCurrent? && r.highest > g.highest { assert r.threads[t].candidate == r.highest; }
  }

  predicate Fresh(g: Gate) {
    && g.current == g.peak == g.total == g.released == g.highest == 0
    && forall t | 0 <= t < |g.threads| :: g.threads[t].Idle?
  }

  lemma {:induction false} RunAccounts(states: seq<Gate>, steps: seq<(nat, Action)>, k: nat)
    requires IsRun(states, steps) && Fresh(states[0]) && k < |states|
    ensures Accounts(states[k])
    ensures forall j | 0 <= j <= k :: states[j].current <= states[k].highest
    decreases k
  {
    hide Step, Enabled, Accounts;
    if k == 0 {
      FreshAccounts(states[0]);
    } else {
      RunAccounts(states, steps, k - 1);
      StepAccounts(states[k - 1], steps[k - 1].0, steps[k - 1].1);
      CurrentBelow(states[k]);
    }
  }

  lemma {:induction false} FreshAccounts(g: Gate)
    requires Fresh(g)
    ensures Accounts(g) && g.current <= g.highest
  {
  }

  lemma {:induction false} CurrentBelow(g: Gate)
    requires Accounts(g)
    ensures g.current <= g.highest
  {
  }

  lemma {:induction false} HighestWasHeld(states: seq<Gate>, steps: seq<(nat, Action)>, k: nat)
    requires IsRun(states, steps) && Fresh(states[0]) && k < |states|
    ensures exists j | 0 <= j <= k :: states[j].current == states[k].highest
    decreases k
  {
    hide Fresh, Enabled;
    if k == 0 {
      assert states[0].current == states[0].highest by { FreshAccounts(states[0]); FreshIsZero(states[0]); }
    } else {
      HighestWasHeld(states, steps, k - 1);
      var j :| 0 <= j <= k - 1 && states[j].current == states[k - 1].highest;
      assert states[k] == Step(states[k - 1], steps[k - 1].0, steps[k - 1].1);
      if states[k].highest != states[k - 1].highest { assert states[k].current == states[k].highest; }
    }
  }

  lemma {:induction false} FreshIsZero(g: Gate)
    requires Fresh(g)
    ensures g.current == g.highest == 0
  {
  }

  predicate NobodyNoting(g: Gate) {
    forall t | 0 <= t < |g.threads| :: !g.threads[t].Noting?
  }

  /** What the first n steps charged. */
  function ChargedBy(steps: seq<(nat, Action)>, n: nat): nat
    requires n <= |steps|
  {
    if n == 0 then 0
    else ChargedBy(steps, n - 1) + match steps[n - 1].1 case BeginCharge(bytes) => bytes case _ => 0
  }

  lemma {:induction false} TotalIsCharged(states: seq<Gate>, steps: seq<(nat, Action)>, k: nat)
    requires IsRun(states, steps) && Fresh(states[0]) && k < |states|
    ensures states[k].total == ChargedBy(steps, k)
    decreases k
  {
    if k > 0 {
      TotalIsCharged(states, steps, k - 1);
      assert states[k] == Step(states[k - 1], steps[k - 1].0, steps[k - 1].1);
    }
  }

  /**
   Whatever the interleaving, whenever no thread is between its add and its max, PEAK is exactly
   the highest value CURRENT has held; at every moment it is no more than that; and TOTAL is the
   sum of what the steps charged.
   */
  lemma {:induction false} PeakIsHighest(states: seq<Gate>, steps: seq<(nat, Action)>, k: nat)
    requires IsRun(states, steps) && Fresh(states[0]) && k < |states|
    ensures forall j | 0 <= j <= k :: states[j].current <= states[k].highest
    ensures exists j | 0 <= j <= k :: states[j].current == states[k].highest
    ensures states[k].peak <= states[k].highest
    ensures NobodyNoting(states[k]) ==> states[k].peak == states[k].highest
    ensures states[k].total == ChargedBy(steps, k)
  {
    RunAccounts(states, steps, k);
    HighestWasHeld(states, steps, k);
    TotalIsCharged(states, steps, k);
  }

  /** While a thread is between its add and its max the peak can be behind. */
  lemma {:induction false} PeakCanLag(bytes: nat)
    requires 0 < bytes <= U64_MAX
    ensures var g0 := Gate(0, 0, 0, [Idle], 0, 0);
      && Fresh(g0) && Enabled(g0, 0, BeginCharge(bytes))
      && var g1 := Step(g0, 0, BeginCharge(bytes));
      && Enabled(g1, 0, AddCurrent) && Step(g1, 0, AddCurrent).peak < Step(g1, 0, AddCurrent).current
  {
  }

  // -------------------------------------------------------------------------
  // Concurrent releases
  // -------------------------------------------------------------------------

  function OnlyReleases(action: Action): bool {
    !action.BeginCharge? && !action.AddCurrent? && !action.NotePeak?
  }

  lemma {:induction false} ReleasedTwice(n: nat, a: nat, b: nat)
    ensures Released(Released(n, a), b) == Released(n, a + b)
  {
  }

  /** Releases subtract the sum of what has been released, in whatever order, down to zero. */
  lemma {:induction false} ReleasesSubtract(states: seq<Gate>, steps: seq<(nat, Action)>, k: nat)
    requires IsRun(states, steps) && states[0].released == 0 && k < |states|
    requires forall j | 0 <= j < |steps| :: OnlyReleases(steps[j].1)
    ensures states[k].current == Released(states[0].current, states[k].released)
    decreases k
  {
    if k > 0 {
      ReleasesSubtract(states, steps, k - 1);
      var before, step := states[k - 1], steps[k - 1];
      assert OnlyReleases(step.1) && states[k] == Step(before, step.0, step.1);
      if step.1.CompareExchange? {
        ReleasedTwice(states[0].current, before.released, before.threads[step.0].bytes);
      }
    }
  }

  /** What a thread still means to release. */
  function Intends(a: Activity): nat {
    match a
    case Releasing(bytes) => bytes
    case Retrying(bytes, _) => bytes
    case _ => 0
  }

  /** What all of them do. */
  function Intended(threads: seq<Activity>): nat {
    if threads == [] then 0 else Intends(threads[|threads| - 1]) + Intended(threads[..|threads| - 1])
  }

  lemma {:induction false} IntendedSet(threads: seq<Activity>, t: nat, a: Activity)
    requires t < |threads|
    ensures Intended(threads[t := a]) + Intends(threads[t]) == Intended(threads) + Intends(a)
    decreases |threads|
  {
    var n := |threads| - 1;
    if t < n {
      assert threads[t := a][..n] == threads[..n][t := a];
      IntendedSet(threads[..n], t, a);
    } else {
      assert threads[t := a][..n] == threads[..n];
    }
  }

  /** What a step means to release that nobody meant to before. */
  function Begins(action: Action): nat {
    if action.BeginRelease? then action.bytes else 0
  }

  /** What the first n steps begin to release. */
  function Begun(steps: seq<(nat, Action)>, n: nat): nat
    requires n <= |steps|
  {
    if n == 0 then 0 else Begun(steps, n - 1) + Begins(steps[n - 1].1)
  }

  lemma {:induction false} StepKeepsIntended(g: Gate, t: nat, action: Action)
    requires Enabled(g, t, action) && OnlyReleases(action)
    ensures var r := Step(g, t, action);
      r.released + Intended(r.threads) == g.released + Intended(g.threads) + Begins(action)
  {
    var r := Step(g, t, action);
    IntendedSet(g.threads, t, r.threads[t]);
    assert r.threads == g.threads[t := r.threads[t]];
  }

  lemma {:induction false} RunKeepsIntended(states: seq<Gate>, steps: seq<(nat, Action)>, k: nat)
    requires IsRun(states, steps) && k < |states|
    requires forall j | 0 <= j < |steps| :: OnlyReleases(steps[j].1)
    ensures states[k].released + Intended(states[k].threads)
      == states[0].released + Intended(states[0].threads) + Begun(steps, k)
    decreases k
  {
    hide Step, Enabled, Intended, OnlyReleases, Begins;
    if k > 0 {
      RunKeepsIntended(states, steps, k - 1);
      StepKeepsIntended(states[k - 1], steps[k - 1].0, steps[k - 1].1);
    }
  }

  lemma {:induction false} AllIdleIntendNothing(threads: seq<Activity>)
    requires forall t | 0 <= t < |threads| :: threads[t].Idle?
    ensures Intended(threads) == 0
    decreases |threads|
  {
    if threads != [] { AllIdleIntendNothing(threads[..|threads| - 1]); }
  }

  /**
   However concurrent releases are interleaved, whenever each was begun, and however often a
   compare-exchange fails, once they have all finished the counter is what it was less their sum,
   or zero.
   */
  lemma {:induction false} ConcurrentReleasesEnd(states: seq<Gate>, steps: seq<(nat, Action)>)
    requires IsRun(states, steps) && states[0].released == 0
    requires forall j | 0 <= j < |steps| :: OnlyReleases(steps[j].1)
    requires forall t | 0 <= t < |states[|steps|].threads| :: states[|steps|].threads[t].Idle?
    ensures states[|steps|].current == Released(states[0].current, Intended(states[0].threads) + Begun(steps, |steps|))
  {
    hide Step, Enabled, Intended, Begun;
    ReleasesSubtract(states, steps, |steps|);
    RunKeepsIntended(states, steps, |steps|);
    AllIdleIntendNothing(states[|steps|].threads);
  }
}
