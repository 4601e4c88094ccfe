/**
 * The greedy assigner `greedy(customers, facilities)`: customers are taken in
 * order and a single facility pointer, starting at facility 0, moves forward
 * by one facility whenever the current facility has too little capacity
 * left; the next facility must then hold the customer, or the run fails.
 * Afterwards every facility that received a customer is marked used and the
 * setup costs of the used facilities are summed.
 */
module Greedy {
  import opened Problem

  /** Total demand that the partial assignment `run` (of customers 0..|run|-1) puts on facility `f`. */
  function Load(customers: seq<Customer>, run: seq<int>, f: int): (load: int)
    requires |run| <= |customers|
    ensures f !in run ==> load == 0
    ensures (forall k :: 0 <= k < |run| ==> customers[k].demand >= 0) ==> load >= 0
  {
    if |run| == 0 then 0
    else
      var k := |run| - 1;
      Load(customers, run[..k], f) + (if run[k] == f then customers[k].demand else 0)
  }

  /** Where the facility pointer stands once `run` is built: facility 0 at the start, then the facility of the last customer. */
  function Pointer(run: seq<int>): (p: int)
    ensures p in run || (run == [] && p == 0)
  {
    if |run| == 0 then 0 else run[|run| - 1]
  }

  /** Why a run stops: a facility index past the end of the list (IndexError), or the failed assert on the next facility. */
  datatype Fault = IndexOutOfRange | AssertionFailed

  datatype Step = Assign(facility: int) | Stop(fault: Fault)

  /**
   * What the loop does with customer |run|, the customers before it having
   * been assigned as `run` says: keep the current facility if its remaining capacity covers the
   * demand, otherwise move to the next facility, whose remaining capacity must
   * cover it.
   */
  function Next(customers: seq<Customer>, facilities: seq<Facility>, run: seq<int>): (step: Step)
    requires |run| < |customers|
    ensures step.Assign? ==> 0 <= step.facility < |facilities|
    ensures step.Assign? ==> step.facility == Pointer(run) || step.facility == Pointer(run) + 1
    ensures step.Assign? ==> facilities[step.facility].capacity - Load(customers, run, step.facility) >= customers[|run|].demand
    ensures step.Assign? && step.facility == Pointer(run) + 1 ==>
              0 <= Pointer(run) < |facilities| &&
              facilities[Pointer(run)].capacity - Load(customers, run, Pointer(run)) < customers[|run|].demand
  {
    var p := Pointer(run);
    var demand := customers[|run|].demand;
    if !(0 <= p < |facilities|) then Stop(IndexOutOfRange)
    else if facilities[p].capacity - Load(customers, run, p) >= demand then Assign(p)
    else if p + 1 >= |facilities| then Stop(IndexOutOfRange)
    else if facilities[p + 1].capacity - Load(customers, run, p + 1) >= demand then Assign(p + 1)
    else Stop(AssertionFailed)
  }

  /** `run` is what the loop has written for the first |run| customers. */
  ghost predicate IsGreedyRun(customers: seq<Customer>, facilities: seq<Facility>, run: seq<int>) {
    |run| <= |customers|
    && forall k {:trigger Next(customers, facilities, run[..k])} :: 0 <= k < |run| ==> Next(customers, facilities, run[..k]) == Assign(run[k])
  }

  /** `sum([f.setup_cost * used[f.index] for f in facilities])`. */
  function SetupSum(facilities: seq<Facility>, used: seq<int>): (total: real)
    requires forall k :: 0 <= k < |facilities| ==> 0 <= facilities[k].index < |used|
    ensures (forall k :: 0 <= k < |facilities| ==> used[facilities[k].index] == 0) ==> total == 0.0
    ensures (forall k :: 0 <= k < |facilities| ==> facilities[k].setupCost >= 0.0 && used[facilities[k].index] >= 0) ==> total >= 0.0
  {
    if |facilities| == 0 then 0.0
    else
      var n := |facilities| - 1;
      SetupSum(facilities[..n], used) + facilities[n].setupCost * used[facilities[n].index] as real
  }

  /** The sum of the setup costs of exactly the facilities that received a customer. */
  function OpenedSetupCost(facilities: seq<Facility>, assignment: seq<int>): real
  {
    if |facilities| == 0 then 0.0
    else
      var n := |facilities| - 1;
      OpenedSetupCost(facilities[..n], assignment) + (if n in assignment then facilities[n].setupCost else 0.0)
  }

  datatype Outcome =
    | Assigned(solution: seq<int>, used: seq<int>, setupCost: real)
    | Failed(customer: nat, fault: Fault)

  /**
   * `greedy` up to the distance part of the objective.  On success: one
   * facility per customer, all in range, in the order the greedy rule picks
   * them; no used facility is over capacity; `used[f]` is 1 exactly for the
   * facilities that received a customer; the setup part of the objective is
   * the setup cost of exactly those.  On failure: the customer at which the
   * run stopped, after the customers before it were assigned by the same rule.
   */
  method Greedy(customers: seq<Customer>, facilities: seq<Facility>) returns (r: Outcome)
    requires forall k :: 0 <= k < |customers| ==> customers[k].index == k
    requires forall k :: 0 <= k < |facilities| ==> facilities[k].index == k
    ensures r.Assigned? ==> |r.solution| == |customers| && IsGreedyRun(customers, facilities, r.solution)
    ensures r.Assigned? ==> forall k :: 0 <= k < |r.solution| ==> 0 <= r.solution[k] < |facilities|
    ensures r.Assigned? ==> forall f :: 0 <= f < |facilities| && f in r.solution ==> Load(customers, r.solution, f) <= facilities[f].capacity
    ensures r.Assigned? ==> |r.used| == |facilities| && forall f :: 0 <= f < |facilities| ==> r.used[f] == if f in r.solution then 1 else 0
    ensures r.Assigned? ==> r.setupCost == OpenedSetupCost(facilities, r.solution)
    ensures r.Failed? ==> r.customer < |customers|
    ensures r.Failed? ==> exists run :: |run| == r.customer && IsGreedyRun(customers, facilities, run)
                                         && Next(customers, facilities, run) == Stop(r.fault)
  {
    var solution := new int[|customers|](_ => -1);
    var remaining := new int[|facilities|](f requires 0 <= f < |facilities| => facilities[f].capacity);
    var pointer := 0;
    var k := 0;
    while k < |customers|
      invariant 0 <= k <= |customers|
      invariant IsGreedyRun(customers, facilities, solution[..k])
      invariant pointer == Pointer(solution[..k])
      invariant forall f :: 0 <= f < |facilities| ==> remaining[f] == facilities[f].capacity - Load(customers, solution[..k], f)
    {
      ghost var before := solution[..k];
      var demand := customers[k].demand;
      if !(0 <= pointer < remaining.Length) {
        return Failed(k, IndexOutOfRange);
      }
      if remaining[pointer] >= demand {
        solution[customers[k].index] := pointer;
        remaining[pointer] := remaining[pointer] - demand;
      } else {
        pointer := pointer + 1;
        if pointer >= remaining.Length {
          return Failed(k, IndexOutOfRange);
        }
        if !(remaining[pointer] >= demand) {
          return Failed(k, AssertionFailed);
        }
        solution[customers[k].index] := pointer;
        remaining[pointer] := remaining[pointer] - demand;
      }
      assert Next(customers, facilities, before) == Assign(pointer);
      RunExtend(customers, facilities, before, pointer);
      assert solution[..k + 1] == before + [pointer];
      k := k + 1;
    }
    var assignment := solution[..];
    assert assignment == solution[..k];
    GreedyRunInRange(customers, facilities, assignment);
    GreedyRunCapacity(customers, facilities, assignment);

    var used := new int[|facilities|](_ => 0);
    var j := 0;
    while j < |assignment|
      invariant 0 <= j <= |assignment|
      invariant forall f :: 0 <= f < |facilities| ==> used[f] == if f in assignment[..j] then 1 else 0
    {
      used[assignment[j]] := 1;
      assert assignment[..j + 1] == assignment[..j] + [assignment[j]];
      j := j + 1;
    }
    assert assignment[..j] == assignment;
    SetupSumOpened(facilities, used[..], assignment);
    return Assigned(assignment, used[..], SetupSum(facilities, used[..]));
  }

  /** Taking one more step of the rule extends a run, adding the customer's demand to the chosen facility's load. */
  lemma RunExtend(customers: seq<Customer>, facilities: seq<Facility>, run: seq<int>, f: int)
    requires IsGreedyRun(customers, facilities, run)
    requires |run| < |customers| && Next(customers, facilities, run) == Assign(f)
    ensures IsGreedyRun(customers, facilities, run + [f])
    ensures Pointer(run + [f]) == f
    ensures forall g :: Load(customers, run + [f], g) == Load(customers, run, g) + (if g == f then customers[|run|].demand else 0)
  {
    var next := run + [f];
    assert next[..|run|] == run;
    forall k | 0 <= k < |next|
      ensures Next(customers, facilities, next[..k]) == Assign(next[k])
    {
      if k < |run| {
        assert next[..k] == run[..k];
      }
    }
  }

  /** Every facility the run picks is a real facility. */
  lemma GreedyRunInRange(customers: seq<Customer>, facilities: seq<Facility>, run: seq<int>)
    requires IsGreedyRun(customers, facilities, run)
    ensures forall k :: 0 <= k < |run| ==> 0 <= run[k] < |facilities|
  {
    forall k | 0 <= k < |run|
      ensures 0 <= run[k] < |facilities|
    {
      assert Next(customers, facilities, run[..k]) == Assign(run[k]);
    }
  }

  /**
   * The pointer starts at facility 0 and moves forward by at most one
   * facility per customer, so the assignment never decreases in customer
   * order.
   */
  lemma {:induction false} GreedyRunMonotone(customers: seq<Customer>, facilities: seq<Facility>, run: seq<int>)
    requires IsGreedyRun(customers, facilities, run)
    ensures |run| > 0 ==> 0 <= run[0] <= 1
    ensures forall k :: 0 < k < |run| ==> run[k - 1] <= run[k] <= run[k - 1] + 1
    ensures forall i, j :: 0 <= i <= j < |run| ==> run[i] <= run[j]
    decreases |run|
  {
    if |run| > 0 {
      var n := |run| - 1;
      var prefix := run[..n];
      assert IsGreedyRun(customers, facilities, prefix) by {
        forall k | 0 <= k < n
          ensures Next(customers, facilities, prefix[..k]) == Assign(prefix[k])
        {
          assert prefix[..k] == run[..k];
        }
      }
      GreedyRunMonotone(customers, facilities, prefix);
      assert Next(customers, facilities, prefix) == Assign(run[n]);
      forall k | 0 < k < |run|
        ensures run[k - 1] <= run[k] <= run[k - 1] + 1
      {
        assert Next(customers, facilities, run[..k]) == Assign(run[k]);
        assert Pointer(run[..k]) == run[k - 1];
      }
      forall i, j | 0 <= i <= j < |run|
        ensures run[i] <= run[j]
      {
        if j == n && i < n {
          assert prefix[i] <= prefix[n - 1];
        } else if j < n {
          assert prefix[i] <= prefix[j];
        }
      }
    }
  }

  /** A prefix of a run is a run. */
  lemma GreedyRunPrefix(customers: seq<Customer>, facilities: seq<Facility>, run: seq<int>, n: nat)
    requires IsGreedyRun(customers, facilities, run)
    requires n <= |run|
    ensures IsGreedyRun(customers, facilities, run[..n])
  {
    forall k | 0 <= k < n
      ensures Next(customers, facilities, run[..n][..k]) == Assign(run[..n][k])
    {
      assert run[..n][..k] == run[..k];
    }
  }

  /** A facility past the pointer has received no customer yet, so its remaining capacity is its full capacity. */
  lemma {:induction false} LoadBeyondPointer(customers: seq<Customer>, facilities: seq<Facility>, run: seq<int>, f: int)
    requires IsGreedyRun(customers, facilities, run)
    requires f > Pointer(run)
    ensures Load(customers, run, f) == 0
    decreases |run|
  {
    if |run| > 0 {
      var n := |run| - 1;
      GreedyRunPrefix(customers, facilities, run, n);
      GreedyRunMonotone(customers, facilities, run);
      if n > 0 {
        assert Pointer(run[..n]) == run[n - 1] <= run[n];
      }
      LoadBeyondPointer(customers, facilities, run[..n], f);
    }
  }

  /** No facility that receives a customer ends up over capacity: its remaining capacity never goes negative. */
  lemma {:induction false} GreedyRunCapacity(customers: seq<Customer>, facilities: seq<Facility>, run: seq<int>)
    requires IsGreedyRun(customers, facilities, run)
    ensures forall f :: 0 <= f < |facilities| && f in run ==> Load(customers, run, f) <= facilities[f].capacity
    decreases |run|
  {
    if |run| > 0 {
      var n := |run| - 1;
      var prefix := run[..n];
      GreedyRunPrefix(customers, facilities, run, n);
      GreedyRunCapacity(customers, facilities, prefix);
      assert Next(customers, facilities, prefix) == Assign(run[n]);
      forall f | 0 <= f < |facilities| && f in run
        ensures Load(customers, run, f) <= facilities[f].capacity
      {
        if f != run[n] {
          assert run == prefix + [run[n]];
          assert f in prefix;
        }
      }
    }
  }

  /**
   * When the run stops at a customer: it is the failed assert exactly when
   * the current facility has too little capacity left and the next facility's
   * whole capacity is also below the demand; it is an index error exactly
   * when there is no facility at all, or the current facility is too small
   * and is the last one.
   */
  lemma StopConditions(customers: seq<Customer>, facilities: seq<Facility>, run: seq<int>)
    requires IsGreedyRun(customers, facilities, run)
    requires |run| < |customers|
    ensures var p, d := Pointer(run), customers[|run|].demand;
            Next(customers, facilities, run) == Stop(AssertionFailed) <==>
              0 <= p < |facilities| - 1
              && facilities[p].capacity - Load(customers, run, p) < d
              && facilities[p + 1].capacity < d
    ensures var p, d := Pointer(run), customers[|run|].demand;
            Next(customers, facilities, run) == Stop(IndexOutOfRange) <==>
              |facilities| == 0
              || (p == |facilities| - 1 && facilities[p].capacity - Load(customers, run, p) < d)
  {
    var p := Pointer(run);
    GreedyRunInRange(customers, facilities, run);
    LoadBeyondPointer(customers, facilities, run, p + 1);
  }

  /** The greedy rule leaves no choice: two runs over the same customers and facilities agree. */
  lemma {:induction false} GreedyRunDeterministic(customers: seq<Customer>, facilities: seq<Facility>, a: seq<int>, b: seq<int>)
    requires IsGreedyRun(customers, facilities, a) && IsGreedyRun(customers, facilities, b)
    requires |a| == |b|
    ensures a == b
    decreases |a|
  {
    if |a| > 0 {
      var n := |a| - 1;
      GreedyRunPrefix(customers, facilities, a, n);
      GreedyRunPrefix(customers, facilities, b, n);
      GreedyRunDeterministic(customers, facilities, a[..n], b[..n]);
      assert Next(customers, facilities, a[..n]) == Assign(a[n]);
      assert Next(customers, facilities, b[..n]) == Assign(b[n]);
      assert a == a[..n] + [a[n]] && b == b[..n] + [b[n]];
    }
  }

  /** The flag-weighted sum the code computes is the setup cost of exactly the facilities that received a customer. */
  lemma {:induction false} SetupSumOpened(facilities: seq<Facility>, used: seq<int>, assignment: seq<int>)
    requires forall k :: 0 <= k < |facilities| ==> facilities[k].index == k
    requires |used| >= |facilities|
    requires forall f :: 0 <= f < |facilities| ==> used[f] == if f in assignment then 1 else 0
    ensures SetupSum(facilities, used) == OpenedSetupCost(facilities, assignment)
    decreases |facilities|
  {
    if |facilities| > 0 {
      var n := |facilities| - 1;
      SetupSumOpened(facilities[..n], used, assignment);
    }
  }

  /**
   * A run that stops at some customer rules out a complete run over the same
   * input, so `Greedy` never both succeeds and fails on one input.
   */
  lemma {:induction false} StopExcludesCompleteRun(customers: seq<Customer>, facilities: seq<Facility>, full: seq<int>, run: seq<int>, fault: Fault)
    requires IsGreedyRun(customers, facilities, full) && |full| == |customers|
    requires IsGreedyRun(customers, facilities, run) && |run| < |customers|
    ensures Next(customers, facilities, run) != Stop(fault)
  {
    GreedyRunPrefix(customers, facilities, full, |run|);
    GreedyRunDeterministic(customers, facilities, full[..|run|], run);
    assert Next(customers, facilities, full[..|run|]) == Assign(full[|run|]);
  }

  /**
   * One facility (capacity 10, setup cost 5) and customers of demand 3 and 4:
   * a run putting both customers on facility 0 exists and is the only one of
   * length 2, and the setup part of the objective is 5.
   */
  lemma SingleFacilityScenario()
    ensures IsGreedyRun(
              [Customer(0, 3, Point(1.0, 0.0)), Customer(1, 4, Point(0.0, 1.0))],
              [Facility(0, 5.0, 10, Point(0.0, 0.0))], [0, 0])
    ensures forall run {:trigger IsGreedyRun([Customer(0, 3, Point(1.0, 0.0)), Customer(1, 4, Point(0.0, 1.0))], [Facility(0, 5.0, 10, Point(0.0, 0.0))], run)} ::
              IsGreedyRun(
                [Customer(0, 3, Point(1.0, 0.0)), Customer(1, 4, Point(0.0, 1.0))],
                [Facility(0, 5.0, 10, Point(0.0, 0.0))], run) && |run| == 2
              ==> run == [0, 0]
    ensures OpenedSetupCost([Facility(0, 5.0, 10, Point(0.0, 0.0))], [0, 0]) == 5.0
  {
    var customers := [Customer(0, 3, Point(1.0, 0.0)), Customer(1, 4, Point(0.0, 1.0))];
    var facilities := [Facility(0, 5.0, 10, Point(0.0, 0.0))];
    assert Next(customers, facilities, []) == Assign(0);
    RunExtend(customers, facilities, [], 0);
    assert Load(customers, [0], 0) == 3;
    assert Next(customers, facilities, [0]) == Assign(0);
    RunExtend(customers, facilities, [0], 0);
    assert [0] + [0] == [0, 0];
    forall run | IsGreedyRun(customers, facilities, run) && |run| == 2
      ensures run == [0, 0]
    {
      GreedyRunDeterministic(customers, facilities, run, [0, 0]);
    }
    assert 0 in [0, 0];
  }

  /**
   * Two facilities of capacity 5 and one customer of demand 10: the run stops
   * at that customer on the failed assert instead of over-filling a facility.
   */
  lemma OversizedDemandScenario()
    ensures Next([Customer(0, 10, Point(0.0, 0.0))],
                 [Facility(0, 1.0, 5, Point(0.0, 0.0)), Facility(1, 1.0, 5, Point(1.0, 1.0))], [])
            == Stop(AssertionFailed)
  {
  }
}
