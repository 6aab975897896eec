/**
 * One probe task of export_ip_pool: sample the egress address through one
 * proxy, feed every observation to a private pool, and stop once the window
 * is full and the repeat rate reaches the threshold.
 *
 * The network is replaced by a finite sequence of observations; the rate
 * limiter is left out. Running out of observations (outcome Exhausted) stands
 * for a source that would go on sampling.
 */
module Task {
  import opened Pool

  /** One request result: the egress value read from the target, or a request error. */
  datatype Observation = Ok(value: string) | Err

  datatype Outcome =
    | NotCreated  // the requester could not be created: no pool, no values
    | Failed      // a request failed: the values collected so far are kept
    | Converged   // the stopping rule held after a sample
    | Exhausted   // the observation sequence ended first

  /** What a task contributes: how it ended, the distinct values it saw, and how many observations it consumed. */
  datatype TaskResult = TaskResult(outcome: Outcome, values: set<string>, used: nat)

  /** The stopping rule, checked after each successful sample. */
  predicate ShouldStop(windowLen: nat, rate: real, cases: nat, repeatRate: real)
  {
    windowLen == cases && 1.0 - rate >= repeatRate
  }

  /**
   * The task loop from observation `i` on, with `seen` the values put so far
   * and `window` the pool's current window.
   */
  function RunFrom(cases: nat, repeatRate: real, seen: set<string>, window: seq<int>,
                   obs: seq<Observation>, i: nat): TaskResult
    requires i <= |obs|
    decreases |obs| - i
  {
    if i == |obs| then TaskResult(Exhausted, seen, i)
    else match obs[i]
      case Err => TaskResult(Failed, seen, i + 1)
      case Ok(v) =>
        var w := Slide(window, cases, FreshBit(seen, v));
        if ShouldStop(|w|, Rate(w), cases, repeatRate) then TaskResult(Converged, seen + {v}, i + 1)
        else RunFrom(cases, repeatRate, seen + {v}, w, obs, i + 1)
  }

  /** A whole task: nothing if the requester cannot be created, else the loop from an empty pool. */
  function TaskSpec(created: bool, cases: nat, repeatRate: real, obs: seq<Observation>): TaskResult
  {
    if !created then TaskResult(NotCreated, {}, 0)
    else RunFrom(cases, repeatRate, {}, [], obs, 0)
  }

  /** The values of the successful observations in `obs[lo..hi]`. */
  function OkValues(obs: seq<Observation>, lo: nat, hi: nat): set<string>
    requires lo <= hi <= |obs|
  {
    set k | lo <= k < hi && obs[k].Ok? :: obs[k].value
  }

  /** The first observation of a range contributes its value when it is a success. */
  lemma OkValuesStep(obs: seq<Observation>, lo: nat, hi: nat)
    requires lo < hi <= |obs|
    ensures OkValues(obs, lo, hi) == (if obs[lo].Ok? then {obs[lo].value} else {}) + OkValues(obs, lo + 1, hi)
  {
  }

  /**
   * task: runs the sampling loop over `obs` with a fresh pool of capacity
   * `cases`; `created` says whether the requester could be built. Returns the
   * pool's GetAll (each value once), how the task ended, and the observations used.
   */
  method RunTask(created: bool, cases: nat, repeatRate: real, obs: seq<Observation>)
    returns (m: seq<string>, outcome: Outcome, used: nat)
    ensures outcome == TaskSpec(created, cases, repeatRate, obs).outcome
    ensures used == TaskSpec(created, cases, repeatRate, obs).used
    ensures (set x | x in m) == TaskSpec(created, cases, repeatRate, obs).values
    ensures forall i, j :: 0 <= i < j < |m| ==> m[i] != m[j]
  {
    if !created {
      return [], NotCreated, 0;
    }
    var p := new Pool(cases);
    var i := 0;
    outcome := Exhausted;
    used := |obs|;
    while i < |obs|
      invariant 0 <= i <= |obs|
      invariant p.Valid() && p.capacity == cases
      invariant RunFrom(cases, repeatRate, {}, [], obs, 0) == RunFrom(cases, repeatRate, p.data, p.ch, obs, i)
      decreases |obs| - i
    {
      match obs[i]
      case Err =>
        outcome, used := Failed, i + 1;
        m := p.GetAll();
        return;
      case Ok(result) =>
        var _ := p.Put(result);
        var r, c := p.FreshRate();
        i := i + 1;
        if c == cases && 1.0 - r >= repeatRate {
          outcome, used := Converged, i;
          m := p.GetAll();
          return;
        }
    }
    m := p.GetAll();
  }

  /**
   * `r` ends a run that started at observation `i` having seen `seen`: it
   * consumed observations `i..r.used`, every one of them a success except the
   * last one of a failed run (the request error), and it contributes the
   * values already seen plus every value successfully sampled, on a failure too.
   */
  ghost predicate EndsRun(r: TaskResult, seen: set<string>, obs: seq<Observation>, i: nat)
  {
    && i <= r.used <= |obs|
    && r.outcome != NotCreated
    && (r.used == i ==> r.outcome == Exhausted)
    && (r.outcome == Exhausted ==> r.used == |obs|)
    && (r.outcome == Failed ==> r.used > i && obs[r.used - 1] == Err)
    && (forall k :: i <= k < r.used - (if r.outcome == Failed then 1 else 0) ==> obs[k].Ok?)
    && r.values == seen + OkValues(obs, i, r.used)
  }

  /** A run that ends after a successful sample `v` at `i` ends the run from `i` as well. */
  lemma EndsRunAfterSample(r: TaskResult, seen: set<string>, obs: seq<Observation>, i: nat, v: string)
    requires i < |obs| && obs[i] == Ok(v)
    requires EndsRun(r, seen + {v}, obs, i + 1)
    ensures EndsRun(r, seen, obs, i)
  {
    OkValuesStep(obs, i, r.used);
  }

  /** A run that stops at observation `i`, on a request error or on the stopping rule, ends the run from `i`. */
  lemma EndsRunAtStop(r: TaskResult, seen: set<string>, obs: seq<Observation>, i: nat)
    requires i < |obs|
    requires obs[i] == Err ==> r == TaskResult(Failed, seen, i + 1)
    requires obs[i].Ok? ==> r == TaskResult(Converged, seen + {obs[i].value}, i + 1)
    ensures EndsRun(r, seen, obs, i)
  {
    OkValuesStep(obs, i, i + 1);
    assert OkValues(obs, i + 1, i + 1) == {};
  }

  lemma {:induction false} RunCollects(cases: nat, repeatRate: real, seen: set<string>, window: seq<int>,
                                       obs: seq<Observation>, i: nat)
    requires i <= |obs|
    ensures EndsRun(RunFrom(cases, repeatRate, seen, window, obs, i), seen, obs, i)
    decreases |obs| - i
  {
    var r := RunFrom(cases, repeatRate, seen, window, obs, i);
    if i == |obs| {
      assert OkValues(obs, i, i) == {};
    } else if obs[i] == Err {
      EndsRunAtStop(r, seen, obs, i);
    } else {
      var v := obs[i].value;
      var w := Slide(window, cases, FreshBit(seen, v));
      if ShouldStop(|w|, Rate(w), cases, repeatRate) {
        EndsRunAtStop(r, seen, obs, i);
      } else {
        RunCollects(cases, repeatRate, seen + {v}, w, obs, i + 1);
        EndsRunAfterSample(r, seen, obs, i, v);
      }
    }
  }

  /**
   * The stopping rule, as the loop applies it: a run that reaches a
   * successful sample at `i` stops right there exactly when the rule holds on
   * the window after that sample.
   */
  lemma StopsRightAfterSampleIff(cases: nat, repeatRate: real, seen: set<string>, window: seq<int>,
                                 obs: seq<Observation>, i: nat)
    requires i < |obs| && obs[i].Ok?
    ensures var w := Slide(window, cases, FreshBit(seen, obs[i].value));
      var r := RunFrom(cases, repeatRate, seen, window, obs, i);
      (r.outcome == Converged && r.used == i + 1) <==> ShouldStop(|w|, Rate(w), cases, repeatRate)
  {
    var v := obs[i].value;
    var w := Slide(window, cases, FreshBit(seen, v));
    if !ShouldStop(|w|, Rate(w), cases, repeatRate) {
      RunCollects(cases, repeatRate, seen + {v}, w, obs, i + 1);
    }
  }

  /**
   * With a positive window size and a threshold of at most 0, a run whose
   * window holds fewer than `cases` bits stops at exactly the sample that
   * fills it, whatever the values are; the rate never exceeds 1.
   */
  lemma {:induction false} NonPositiveThresholdFillsWindow(cases: nat, repeatRate: real, seen: set<string>,
                                                           window: seq<int>, obs: seq<Observation>, i: nat)
    requires cases > 0 && repeatRate <= 0.0
    requires IsBits(window) && |window| < cases
    requires i + (cases - |window|) <= |obs|
    requires forall k :: i <= k < i + (cases - |window|) ==> obs[k].Ok?
    ensures RunFrom(cases, repeatRate, seen, window, obs, i).outcome == Converged
    ensures RunFrom(cases, repeatRate, seen, window, obs, i).used == i + (cases - |window|)
    decreases cases - |window|
  {
    var v := obs[i].value;
    var c := FreshBit(seen, v);
    var w := Slide(window, cases, c);
    SlideKeepsWindow(window, cases, c);
    RateInUnit(w);
    if |w| < cases {
      NonPositiveThresholdFillsWindow(cases, repeatRate, seen + {v}, w, obs, i + 1);
    }
  }

  /**
   * A task with window size N > 0 and threshold at most 0 stops at exactly the
   * N-th sample when the first N requests succeed.
   */
  lemma NonPositiveThresholdStopsAtN(cases: nat, repeatRate: real, obs: seq<Observation>)
    requires cases > 0 && repeatRate <= 0.0
    requires cases <= |obs| && forall k :: 0 <= k < cases ==> obs[k].Ok?
    ensures TaskSpec(true, cases, repeatRate, obs).outcome == Converged
    ensures TaskSpec(true, cases, repeatRate, obs).used == cases
  {
    NonPositiveThresholdFillsWindow(cases, repeatRate, {}, [], obs, 0);
  }

  /** With window size 0 and a positive threshold the stopping rule never holds. */
  lemma {:induction false} ZeroCasesPositiveThresholdNeverConverges(repeatRate: real, seen: set<string>,
                                                                    obs: seq<Observation>, i: nat)
    requires repeatRate > 0.0 && i <= |obs|
    ensures RunFrom(0, repeatRate, seen, [], obs, i).outcome != Converged
    decreases |obs| - i
  {
    if i < |obs| && obs[i].Ok? {
      ZeroCasesPositiveThresholdNeverConverges(repeatRate, seen + {obs[i].value}, obs, i + 1);
    }
  }

  /**
   * With window size 0 the window stays empty, its length always equals the
   * window size and its rate is 1: the task converges, on its first sample,
   * exactly when the threshold is at most 0.
   */
  lemma ZeroCasesRule(repeatRate: real, obs: seq<Observation>)
    ensures TaskSpec(true, 0, repeatRate, obs).outcome == Converged
      <==> (|obs| > 0 && obs[0].Ok? && repeatRate <= 0.0)
    ensures TaskSpec(true, 0, repeatRate, obs).outcome == Converged ==> TaskSpec(true, 0, repeatRate, obs).used == 1
  {
    if repeatRate > 0.0 {
      ZeroCasesPositiveThresholdNeverConverges(repeatRate, {}, obs, 0);
    }
  }

  /** A task whose first request fails contributes no value. */
  lemma FailingRequesterContributesNothing(cases: nat, repeatRate: real, obs: seq<Observation>)
    requires |obs| > 0 && obs[0] == Err
    ensures TaskSpec(true, cases, repeatRate, obs) == TaskResult(Failed, {}, 1)
  {
  }
}
