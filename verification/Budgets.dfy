/** The delta budget of memory checkpoints: what comparing a rounded quotient with it
    promises for one advance and for a run. */
module Budgets {
  import opened Append
  import opened Doubles
  import opened Checkpoints
  import opened MemoryDelta

  // ----- one quotient

  /** The part of a size that a quotient stands for, at most. */
  function Share(quotient: real, slack: real, size: real): real {
    slack * quotient * size
  }

  /** The quotient of a and b falls short of the exact one by no more than the slack makes up for. */
  predicate Covers(divide: Division, slack: real, a: int, b: int) {
    divide(a, b) >= 0.0 && a as real <= Share(divide(a, b), slack, b as real)
  }

  /** Division of log sizes rounds to the nearest double, as IEEE 754 and Python demand. */
  ghost predicate CorrectlyRounded(divide: Division) {
    forall a, b :: 0 <= a && 0 < b && a + b <= MAX_MERKLE_LEAVES ==> Nearest(a as real / b as real, divide(a, b))
  }

  /** The slack is at least 1 / (1 - 2^-53). */
  predicate MakesUp(slack: real) {
    slack * (MANTISSAS - 1) as real >= MANTISSAS as real
  }

  lemma MakesUpIsMore(slack: real)
    requires MakesUp(slack)
    ensures slack >= 1.0
  {
  }

  lemma Divided(a: real, b: real, x: real)
    requires b > 0.0 && x == a / b
    ensures x * b == a && (a > 0.0 ==> x > 0.0)
  {
  }

  lemma QuotientAbove(a: real, b: real, x: real)
    requires 1.0 <= a && b <= 1_000_000.0 && x > 0.0 && x * b == a
    ensures 1.0 <= x * 1_000_000.0
  {
    TimesUnit(b, 1_000_000.0, x);
  }

  lemma QuotientBelow(a: real, b: real, x: real)
    requires a <= 1_000_000.0 && 1.0 <= b && x > 0.0 && x * b == a
    ensures x <= 1_000_000.0
  {
    TimesUnit(1.0, b, x);
  }

  lemma QuotientRange(a: int, b: int, x: real) returns (k: int)
    requires 0 < a && 0 < b && a + b <= MAX_MERKLE_LEAVES && x == a as real / b as real
    ensures -20 <= k < 20 && Power(k) <= x < Power(k + 1) && x * b as real == a as real
  {
    Divided(a as real, b as real, x);
    QuotientAbove(a as real, b as real, x);
    QuotientBelow(a as real, b as real, x);
    PowerTwenty();
    k := Octave(x, -20, 20);
  }

  lemma PowerTwenty()
    ensures Power(20) == 1_048_576.0 && Power(-20) == 1.0 / 1_048_576.0
  {
    assert WholePower(10) == 1024;
    WholePowerSum(10, 10, 1024);
    SmallerUnits(1, 0, 20, 1_048_576);
    SmallerUnits(1, -20, 20, 1_048_576);
  }

  lemma LossMadeUp(slack: real, a: real, b: real, x: real, q: real)
    requires MakesUp(slack) && b > 0.0 && x > 0.0 && x * b == a
    requires q * MANTISSAS as real >= x * (MANTISSAS - 1) as real
    ensures q >= 0.0 && a <= Share(q, slack, b)
  {
    TimesUnit(MANTISSAS as real, slack * (MANTISSAS - 1) as real, q);
    Quotiented(slack, x, q);
    TimesUnit(x, slack * q, b);
  }

  lemma Quotiented(slack: real, x: real, q: real)
    requires MANTISSAS as real * q <= slack * (MANTISSAS - 1) as real * q
    requires q * MANTISSAS as real >= x * (MANTISSAS - 1) as real
    ensures x <= slack * q
  {
  }

  lemma NearestCovers(slack: real, a: int, b: int, x: real, q: real)
    requires MakesUp(slack) && 0 < a && 0 < b && a + b <= MAX_MERKLE_LEAVES
    requires x == a as real / b as real && Nearest(x, q)
    ensures q >= 0.0 && a as real <= Share(q, slack, b as real)
  {
    var k := QuotientRange(a, b, x);
    NearestLoss(x, q, k);
    LossMadeUp(slack, a as real, b as real, x, q);
  }

  /** A double quotient of sizes loses no more than one part in 2^53. */
  lemma DoublesCover(divide: Division, slack: real, a: int, b: int)
    requires CorrectlyRounded(divide) && MakesUp(slack) && 0 <= a && 0 < b && a + b <= MAX_MERKLE_LEAVES
    ensures Covers(divide, slack, a, b)
  {
    if a == 0 {
      NearestZero(divide(a, b));
    } else {
      NearestCovers(slack, a, b, a as real / b as real, divide(a, b));
    }
  }

  lemma SomeQuotient(a: int, b: int) returns (q: real)
    requires 0 <= a && 0 < b && a + b <= MAX_MERKLE_LEAVES
    ensures Nearest(a as real / b as real, q)
  {
    if a == 0 {
      q := 0.0;
      assert Scaled(0, 0) == 0.0;
    } else {
      var k := QuotientRange(a, b, a as real / b as real);
      q := SomeNearest(a as real / b as real, k);
    }
  }

  /** There is a division that rounds this way. */
  lemma SomeDivision() returns (divide: Division)
    ensures CorrectlyRounded(divide)
  {
    divide := (a: int, b: int) => if b == 0 then 0.0 else NearestTo(a as real / b as real);
    forall a, b | 0 <= a && 0 < b && a + b <= MAX_MERKLE_LEAVES
      ensures Nearest(a as real / b as real, divide(a, b))
    {
      var q := SomeQuotient(a, b);
    }
  }

  // ----- one advance

  /** A size after growing by the whole budget of a checkpoint. */
  function Grow(size: real, c: MemoryCheckpoint, slack: real): real {
    var budget := BudgetOf(c.maxDelta);
    if budget.Some? then size + Share(budget.value, slack, size) else size
  }

  /** Accepted budgets are kept. */
  ghost predicate KeepsBudgets(divide: Division, size: int, grown: int)
    requires size > 0
  {
    forall prev: MemoryCheckpoint, next: MemoryCheckpoint ::
      prev.treeSize == size && next.treeSize == grown && WithinBudget(divide, prev, next) ==>
        grown as real <= Grow(size as real, next, 1.0)
  }

  lemma BudgetKept(divide: Division, prev: MemoryCheckpoint, next: MemoryCheckpoint, slack: real, size: real,
                   grown: real)
    requires 0 < prev.treeSize && WithinBudget(divide, prev, next) && slack >= 1.0
    requires Covers(divide, slack, next.treeSize - prev.treeSize, prev.treeSize)
    requires size == prev.treeSize as real && grown == next.treeSize as real
    ensures grown <= Grow(size, next, slack) && BudgetOf(next.maxDelta).value >= 0.0
  {
    ShareMonotone(divide(next.treeSize - prev.treeSize, prev.treeSize), BudgetOf(next.maxDelta).value, slack, size,
                  size);
  }

  lemma Product(a: real, b: real, c: real, d: real)
    requires 0.0 <= a <= c && 0.0 <= b <= d
    ensures 0.0 <= a * b <= c * d
  {
    assert c * d - a * b == c * (d - b) + (c - a) * b;
  }

  lemma ShareMonotone(q: real, r: real, slack: real, x: real, y: real)
    requires 0.0 <= q <= r && slack >= 1.0 && 0.0 <= x <= y
    ensures 0.0 <= Share(q, slack, x) <= Share(r, slack, y)
  {
    Product(slack, q, slack, r);
    Product(slack * q, x, slack * r, y);
  }

  /** A checkpoint that allows exactly the quotient as growth. */
  function Allowing(size: int, quotient: real): MemoryCheckpoint {
    MemoryCheckpoint(Garbled, size, 0, Timestamp(0, 0), 0, Float(quotient))
  }

  /** Between two sizes every accepted budget is kept exactly when the quotient of added and
      old size is not rounded down. */
  lemma BudgetsKeptExactly(divide: Division, size: int, grown: int)
    requires 0 < size <= grown
    ensures KeepsBudgets(divide, size, grown) <==>
            (grown - size) as real <= divide(grown - size, size) * size as real
  {
    var q, p := divide(grown - size, size), size as real;
    assert WithinBudget(divide, Allowing(size, q), Allowing(grown, q));
    forall prev: MemoryCheckpoint, next: MemoryCheckpoint |
      (grown - size) as real <= q * p && prev.treeSize == size && next.treeSize == grown &&
        WithinBudget(divide, prev, next)
      ensures grown as real <= Grow(p, next, 1.0)
    {
      TimesUnit(q, BudgetOf(next.maxDelta).value, p);
    }
  }

  /** Doubles round 1/3 down, so from three leaves to four a budget is exceeded: that of the
      double nearest to one third. */
  lemma RoundingOvershoots(divide: Division, prev: MemoryCheckpoint, next: MemoryCheckpoint)
    requires CorrectlyRounded(divide) && prev.treeSize == 3 && next.treeSize == 4 && next.maxDelta == Float(THIRD)
    ensures WithinBudget(divide, prev, next) && next.treeSize as real > Grow(prev.treeSize as real, next, 1.0)
    ensures !KeepsBudgets(divide, 3, 4)
  {
    assert 1 as real / 3 as real == 1.0 / 3.0;
    OneThird(divide(1, 3));
  }

  // ----- a run

  /** A size multiplied by (1 + slack * fraction) for every budget of the run. */
  function SizeLimit<Op>(size: real, run: seq<Advance<Op>>, slack: real): real
    decreases |run|
  {
    if run == [] then size else SizeLimit(Grow(size, run[0].next, slack), run[1..], slack)
  }

  /** The slack makes up for every quotient of the run. */
  ghost predicate CoversRun<Op>(divide: Division, slack: real, first: MemoryCheckpoint, run: seq<Advance<Op>>)
    decreases |run|
  {
    run != [] ==>
      && Covers(divide, slack, run[0].next.treeSize - first.treeSize, first.treeSize)
      && CoversRun(divide, slack, run[0].next, run[1..])
  }

  /** Every step of the run starts from a non-empty log, grows it and is within budget. */
  ghost predicate StepsInBudget<Op>(divide: Division, first: MemoryCheckpoint, run: seq<Advance<Op>>)
    decreases |run|
  {
    run != [] ==>
      && 0 < first.treeSize <= run[0].next.treeSize <= MAX_MERKLE_LEAVES
      && WithinBudget(divide, first, run[0].next)
      && StepsInBudget(divide, run[0].next, run[1..])
  }

  lemma {:induction false} AcceptedStepsInBudget<Op>(divide: Division, encode: Encoder<Op>, first: MemoryCheckpoint,
                                                     run: seq<Advance<Op>>)
    requires AcceptedRun(divide, encode, first, run)
    ensures StepsInBudget(divide, first, run)
    decreases |run|
  {
    if run != [] {
      AcceptedStepsInBudget(divide, encode, run[0].next, run[1..]);
    }
  }

  lemma GrowMonotone(x: real, y: real, c: MemoryCheckpoint, slack: real)
    requires 0.0 <= x <= y && slack >= 1.0 && (BudgetOf(c.maxDelta).Some? ==> BudgetOf(c.maxDelta).value >= 0.0)
    ensures 0.0 <= Grow(x, c, slack) <= Grow(y, c, slack)
  {
    var budget := BudgetOf(c.maxDelta);
    if budget.Some? {
      ShareMonotone(budget.value, budget.value, slack, x, y);
    }
  }

  lemma {:induction false} LimitMonotone<Op>(divide: Division, slack: real, first: MemoryCheckpoint,
                                             run: seq<Advance<Op>>, x: real, y: real)
    requires slack >= 1.0 && StepsInBudget(divide, first, run) && CoversRun(divide, slack, first, run) && 0.0 <= x <= y
    ensures SizeLimit(x, run, slack) <= SizeLimit(y, run, slack)
    decreases |run|
  {
    if run != [] {
      var next := run[0].next;
      BudgetKept(divide, first, next, slack, first.treeSize as real, next.treeSize as real);
      GrowMonotone(x, y, next, slack);
      LimitMonotone(divide, slack, next, run[1..], Grow(x, next, slack), Grow(y, next, slack));
    }
  }

  lemma {:induction false} LimitHolds<Op>(divide: Division, slack: real, first: MemoryCheckpoint,
                                          run: seq<Advance<Op>>, last: MemoryCheckpoint, size: real)
    requires slack >= 1.0 && StepsInBudget(divide, first, run) && CoversRun(divide, slack, first, run)
    requires last == Last(first, run) && size == first.treeSize as real
    ensures last.treeSize as real <= SizeLimit(size, run, slack)
    decreases |run|
  {
    if run != [] {
      var next := run[0].next;
      var grown := next.treeSize as real;
      BudgetKept(divide, first, next, slack, size, grown);
      LastOfRest(first, run);
      LimitHolds(divide, slack, next, run[1..], last, grown);
      LimitMonotone(divide, slack, next, run[1..], grown, Grow(size, next, slack));
    }
  }

  /** The budgets bound the growth of the whole run, up to what makes up for its quotients. */
  lemma {:induction false} RunStaysInBudget<Op>(divide: Division, slack: real, encode: Encoder<Op>,
                                                first: MemoryCheckpoint, run: seq<Advance<Op>>)
    requires AcceptedRun(divide, encode, first, run) && slack >= 1.0 && CoversRun(divide, slack, first, run)
    ensures Last(first, run).treeSize as real <= SizeLimit(first.treeSize as real, run, slack)
  {
    AcceptedStepsInBudget(divide, encode, first, run);
    LimitHolds(divide, slack, first, run, Last(first, run), first.treeSize as real);
  }

  /** The slack makes up for every quotient of log sizes. */
  ghost predicate CoversSizes(divide: Division, slack: real) {
    forall a, b :: 0 <= a && 0 < b && a + b <= MAX_MERKLE_LEAVES ==> Covers(divide, slack, a, b)
  }

  lemma {:induction false} SizesCoverRun<Op>(divide: Division, slack: real, first: MemoryCheckpoint,
                                             run: seq<Advance<Op>>)
    requires CoversSizes(divide, slack) && StepsInBudget(divide, first, run)
    ensures CoversRun(divide, slack, first, run)
    decreases |run|
  {
    if run != [] {
      assert Covers(divide, slack, run[0].next.treeSize - first.treeSize, first.treeSize);
      SizesCoverRun(divide, slack, run[0].next, run[1..]);
    }
  }

  /** With double quotients every accepted run stays within its budgets, each enlarged by one
      part in 2^53 - 1. */
  lemma {:induction false} DoublesStayInBudget<Op>(divide: Division, slack: real, encode: Encoder<Op>,
                                                   first: MemoryCheckpoint, run: seq<Advance<Op>>)
    requires CorrectlyRounded(divide) && MakesUp(slack) && AcceptedRun(divide, encode, first, run)
    ensures Last(first, run).treeSize as real <= SizeLimit(first.treeSize as real, run, slack)
  {
    AcceptedStepsInBudget(divide, encode, first, run);
    MakesUpIsMore(slack);
    forall a, b | 0 <= a && 0 < b && a + b <= MAX_MERKLE_LEAVES
      ensures Covers(divide, slack, a, b)
    {
      DoublesCover(divide, slack, a, b);
    }
    SizesCoverRun(divide, slack, first, run);
    RunStaysInBudget(divide, slack, encode, first, run);
  }
}
