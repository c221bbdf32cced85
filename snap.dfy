/** The process-selection script: starting from a fixed seed, a linear
    congruential generator picks entries of the process-id list until half of
    the list's length has been chosen, skipping pids 0 and 1 and pids already
    chosen. The chosen pids are the ones the script then kills, in order; the
    process list is the input and the kill list the output. */
module Snap {

  /** The multiplier, increment and modulus of the generator. */
  const Multiplier: int := 1103515245
  const Increment: int := 12345
  const Modulus: int := 999999999

  /** The seed the script starts from. */
  const InitialSeed: int := 12345

  /** The bound of the script's `for` loop, `range(0, 999999999)`. */
  const MaxIterations: nat := 999999999

  /** One step of the generator. The script's `%` floors, and with a positive
      modulus that agrees with Dafny's `%`: the result is never negative. */
  function Random(seed: int): (r: int)
    ensures 0 <= r < Modulus
  {
    (Multiplier * seed + Increment) % Modulus
  }

  /** The list entry a generator value selects: `procs[r % len(procs)]`. */
  function Pick(procs: seq<int>, r: int): (pid: int)
    requires |procs| > 0
    ensures pid in procs
  {
    procs[r % |procs|]
  }

  /** How many pids the script chooses at most: `len(procs) // 2`. */
  function Half(procs: seq<int>): nat {
    |procs| / 2
  }

  /** What the script promises of a kill list: only pids from the list, never
      pid 0 or 1, no pid twice, and at most half as many as the list holds. */
  ghost predicate SafeSelection(procs: seq<int>, snapped: seq<int>) {
    (forall k :: 0 <= k < |snapped| ==> snapped[k] in procs && snapped[k] > 1)
    && (forall k, m :: 0 <= k < m < |snapped| ==> snapped[k] != snapped[m])
    && |snapped| <= Half(procs)
  }

  /** The kill list the loop produces from iteration `i` on, with the
      generator at `seed` and `snapped` chosen so far. */
  function Selection(procs: seq<int>, i: nat, seed: int, snapped: seq<int>): seq<int>
    decreases MaxIterations - i
  {
    if i >= MaxIterations || |snapped| >= Half(procs) then snapped
    else
      var next := Random(seed);
      var pid := Pick(procs, next);
      Selection(procs, i + 1, next, if pid > 1 && pid !in snapped then snapped + [pid] else snapped)
  }

  lemma SelectionStep(procs: seq<int>, i: nat, seed: int, snapped: seq<int>)
    requires i < MaxIterations && |snapped| < Half(procs)
    ensures var next := Random(seed); var pid := Pick(procs, next);
      Selection(procs, i, seed, snapped) == Selection(procs, i + 1, next, if pid > 1 && pid !in snapped then snapped + [pid] else snapped)
  {
  }

  /** One pick keeps the kill list safe: a pid is added only when it is above 1
      and not chosen yet, and only while fewer than half are chosen. */
  lemma SafeStep(procs: seq<int>, snapped: seq<int>, pid: int)
    requires SafeSelection(procs, snapped) && pid in procs && |snapped| < Half(procs)
    ensures SafeSelection(procs, if pid > 1 && pid !in snapped then snapped + [pid] else snapped)
  {
    if pid > 1 && pid !in snapped {
      var chosen := snapped + [pid];
      forall k, m | 0 <= k < m < |chosen|
        ensures chosen[k] != chosen[m]
      {
        if m == |snapped| {
          assert chosen[k] == snapped[k];
        }
      }
    }
  }

  /** Every step of the loop keeps the kill list safe, so the final list is safe. */
  lemma {:induction false} SelectionStaysSafe(procs: seq<int>, i: nat, seed: int, snapped: seq<int>)
    requires SafeSelection(procs, snapped)
    ensures SafeSelection(procs, Selection(procs, i, seed, snapped))
    decreases MaxIterations - i
  {
    if i < MaxIterations && |snapped| < Half(procs) {
      var next := Random(seed);
      var pid := Pick(procs, next);
      var chosen := if pid > 1 && pid !in snapped then snapped + [pid] else snapped;
      SafeStep(procs, snapped, pid);
      SelectionStaysSafe(procs, i + 1, next, chosen);
    }
  }

  /** The loop only appends to the kill list: what is chosen stays chosen, in order. */
  lemma {:induction false} SelectionExtends(procs: seq<int>, i: nat, seed: int, snapped: seq<int>)
    ensures snapped <= Selection(procs, i, seed, snapped)
    decreases MaxIterations - i
  {
    if i < MaxIterations && |snapped| < Half(procs) {
      var next := Random(seed);
      var pid := Pick(procs, next);
      var chosen := if pid > 1 && pid !in snapped then snapped + [pid] else snapped;
      SelectionExtends(procs, i + 1, next, chosen);
    }
  }

  /** What the script kills is safe: only pids from the list, never pid 0 or
      1, no pid twice, and at most half as many as the list holds. */
  lemma SelectionIsSafe(procs: seq<int>, seed: int)
    ensures var snapped := Selection(procs, 0, seed, []);
      (forall k :: 0 <= k < |snapped| ==> snapped[k] in procs && snapped[k] > 1)
      && (forall k, m :: 0 <= k < m < |snapped| ==> snapped[k] != snapped[m])
      && |snapped| <= Half(procs)
  {
    SelectionStaysSafe(procs, 0, seed, []);
  }

  /** One iteration of the loop: advance the generator, pick the pid it
      selects and append it when it is above 1 and not chosen yet. */
  method Draw(procs: seq<int>, i: nat, seed: int, snapped: seq<int>) returns (next: int, chosen: seq<int>)
    requires i < MaxIterations && |snapped| < Half(procs)
    ensures next == Random(seed)
    ensures snapped <= chosen && |chosen| <= |snapped| + 1
    ensures |chosen| > |snapped| ==>
      chosen[|snapped|] in procs && chosen[|snapped|] > 1 && chosen[|snapped|] !in snapped
    ensures Selection(procs, i, seed, snapped) == Selection(procs, i + 1, next, chosen)
  {
    SelectionStep(procs, i, seed, snapped);
    next := Random(seed);
    var newProc := Pick(procs, next);
    chosen := snapped;
    if newProc > 1 && newProc !in snapped {
      chosen := snapped + [newProc];
    }
  }

  /** The selection loop of the script, from the generator state `start`.
      The process list replaces the call that reads it; `iterations` counts
      the picks made: the loop stops early only once half the list is chosen. */
  method SelectVictims(procs: seq<int>, start: int) returns (snapped: seq<int>, iterations: nat)
    ensures snapped == Selection(procs, 0, start, [])
    ensures |snapped| <= iterations <= MaxIterations
    ensures iterations < MaxIterations ==> |snapped| == Half(procs)
  {
    snapped := [];
    var seed := start;
    var i := 0;
    ghost var result := Selection(procs, i, seed, snapped);
    while i < MaxIterations
      invariant 0 <= i <= MaxIterations
      invariant Selection(procs, i, seed, snapped) == result
      invariant |snapped| <= Half(procs)
      invariant |snapped| <= i
    {
      if |snapped| >= Half(procs) {
        break;
      }
      seed, snapped := Draw(procs, i, seed, snapped);
      i := i + 1;
    }
    iterations := i;
  }

  /** The whole script: select from the fixed seed, then kill every selected
      pid in the order chosen. The kill calls are the returned list. */
  method SnapProcesses(procs: seq<int>) returns (killed: seq<int>)
    ensures killed == Selection(procs, 0, InitialSeed, [])
    ensures SafeSelection(procs, killed)
  {
    var snapped, _ := SelectVictims(procs, InitialSeed);
    killed := [];
    for k := 0 to |snapped|
      invariant killed == snapped[..k]
    {
      killed := killed + [snapped[k]];
    }
    assert snapped[..|snapped|] == snapped;
    SelectionStaysSafe(procs, 0, InitialSeed, []);
  }

  /** With fewer than two processes the loop stops at once: nothing is
      chosen and no index is taken modulo an empty list's length. */
  lemma NothingChosenFromShortList(procs: seq<int>, seed: int)
    requires |procs| < 2
    ensures Selection(procs, 0, seed, []) == []
  {
  }
}
