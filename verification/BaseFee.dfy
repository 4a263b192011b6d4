/** The base fee update on 64-bit numbers. */
module BaseFee {
  import opened Types
  import BitGroups

  datatype Params = Params(
    currentBaseFee: Uint64, gasUsed: Uint64, targetGas: Uint64, changeDenominator: Uint64, minBaseFee: Uint64, maxBaseFee: Uint64)

  /** How much the fee moves; the largest quotient when the product does not fit 64 bits. */
  function Delta(current: Uint64, gasDelta: Uint64, targetGas: Uint64, denominator: Uint64): Uint64 {
    if current == 0 || gasDelta == 0 || targetGas == 0 || denominator == 0 then 0
    else if current > MAX_UINT64 / gasDelta then QuotientFits(MAX_UINT64, denominator); MAX_UINT64 / denominator
    else
      ProductFits(current, gasDelta);
      QuotientFits(current * gasDelta, targetGas);
      QuotientFits(current * gasDelta / targetGas, denominator);
      (current * gasDelta / targetGas) / denominator
  }

  function Clamp(value: Uint64, minBaseFee: Uint64, maxBaseFee: Uint64): Uint64 {
    var raised := if value < minBaseFee then minBaseFee else value;
    if maxBaseFee > 0 && raised > maxBaseFee then maxBaseFee else raised
  }

  /** The fee before it is clamped. */
  function Moved(p: Params): Uint64 {
    var current := p.currentBaseFee;
    if p.gasUsed == p.targetGas then current
    else if p.gasUsed > p.targetGas then
      var delta := Delta(current, p.gasUsed - p.targetGas, p.targetGas, p.changeDenominator);
      var step := if delta == 0 then 1 else delta;
      if current > MAX_UINT64 - step then MAX_UINT64 else current + step
    else
      var delta := Delta(current, p.targetGas - p.gasUsed, p.targetGas, p.changeDenominator);
      if delta >= current then 0 else current - delta
  }

  function NextBaseFee(p: Params): Uint64 {
    if p.currentBaseFee == 0 || p.targetGas == 0 || p.changeDenominator == 0 then p.currentBaseFee
    else Clamp(Moved(p), p.minBaseFee, p.maxBaseFee)
  }

  // ------------------------------------------------------------------------------ arithmetic

  lemma QuotientFits(n: nat, d: nat)
    requires n <= MAX_UINT64 && d > 0
    ensures 0 <= n / d <= n
  {
    BitGroups.Multiple(n - n / d, d);
    assert (n - n / d) * d == n * d - n / d * d;
    TimesMonotone(1, d, n);
  }

  /** The guard of the product is exact. */
  lemma ProductFits(a: nat, b: nat)
    requires b > 0
    ensures a <= MAX_UINT64 / b <==> a * b <= MAX_UINT64
  {
    var q, r := MAX_UINT64 / b, MAX_UINT64 % b;
    assert MAX_UINT64 == q * b + r;
    if a <= q {
      TimesMonotone(a, q, b);
    } else {
      TimesMonotone(q + 1, a, b);
      assert (q + 1) * b == q * b + b;
    }
  }

  lemma TimesMonotone(a: nat, b: nat, c: nat)
    requires a <= b
    ensures a * c <= b * c
  {
    assert (b - a) * c >= 0;
  }

  lemma DivideMonotone(a: nat, b: nat, d: nat)
    requires a <= b && d > 0
    ensures a / d <= b / d
  {
    BitGroups.Multiple(b / d - a / d, d);
    assert (b / d - a / d) * d == b / d * d - a / d * d;
  }

  // ------------------------------------------------------------------------------ properties

  /** The quotient that the delta is, from the product it is taken of. */
  function Quotient(product: nat, targetGas: nat, denominator: nat): nat
    requires targetGas > 0 && denominator > 0
  {
    if product > MAX_UINT64 then MAX_UINT64 / denominator else (product / targetGas) / denominator
  }

  lemma DeltaIsQuotient(current: Uint64, gasDelta: Uint64, targetGas: Uint64, denominator: Uint64)
    requires current > 0 && gasDelta > 0 && targetGas > 0 && denominator > 0
    ensures Delta(current, gasDelta, targetGas, denominator) == Quotient(current * gasDelta, targetGas, denominator)
  {
    ProductFits(current, gasDelta);
  }

  lemma QuotientMonotone(a: nat, b: nat, targetGas: nat, denominator: nat)
    requires a <= b && targetGas > 0 && denominator > 0
    ensures Quotient(a, targetGas, denominator) <= Quotient(b, targetGas, denominator)
  {
    if b <= MAX_UINT64 {
      DivideMonotone(a, b, targetGas);
      DivideMonotone(a / targetGas, b / targetGas, denominator);
    } else if a <= MAX_UINT64 {
      QuotientFits(a, targetGas);
      DivideMonotone(a / targetGas, MAX_UINT64, denominator);
    }
  }

  /** More gas never moves the fee less, also across the overflow guard. */
  lemma DeltaMonotone(current: Uint64, a: Uint64, b: Uint64, targetGas: Uint64, denominator: Uint64)
    requires a <= b
    ensures Delta(current, a, targetGas, denominator) <= Delta(current, b, targetGas, denominator)
  {
    if current > 0 && a > 0 && targetGas > 0 && denominator > 0 {
      hide Delta, Quotient;
      DeltaIsQuotient(current, a, targetGas, denominator);
      DeltaIsQuotient(current, b, targetGas, denominator);
      TimesMonotone(a, b, current);
      QuotientMonotone(current * a, current * b, targetGas, denominator);
    }
  }

  lemma ClampMonotone(a: Uint64, b: Uint64, minBaseFee: Uint64, maxBaseFee: Uint64)
    requires a <= b
    ensures Clamp(a, minBaseFee, maxBaseFee) <= Clamp(b, minBaseFee, maxBaseFee)
  {}

  lemma MovedMonotone(p: Params, more: Uint64)
    requires p.gasUsed <= more
    ensures Moved(p) <= Moved(p.(gasUsed := more))
  {
    hide Delta;
    if p.gasUsed > p.targetGas {
      DeltaMonotone(p.currentBaseFee, p.gasUsed - p.targetGas, more - p.targetGas, p.targetGas, p.changeDenominator);
    } else if more < p.targetGas {
      DeltaMonotone(p.currentBaseFee, p.targetGas - more, p.targetGas - p.gasUsed, p.targetGas, p.changeDenominator);
    }
  }

  /** A fuller block never gives a lower fee, over all 64-bit inputs. */
  lemma NextBaseFeeMonotone(p: Params, more: Uint64)
    requires p.gasUsed <= more
    ensures NextBaseFee(p) <= NextBaseFee(p.(gasUsed := more))
  {
    hide Moved, Clamp;
    MovedMonotone(p, more);
    ClampMonotone(Moved(p), Moved(p.(gasUsed := more)), p.minBaseFee, p.maxBaseFee);
  }

  /** With consistent limits the fee stays within them, and within them it moves towards fuller or
      emptier blocks: strictly up above the target, not up below it, not at all on it. */
  lemma NextBaseFeeBounds(p: Params)
    requires p.currentBaseFee > 0 && p.targetGas > 0 && p.changeDenominator > 0
    requires p.maxBaseFee == 0 || p.minBaseFee <= p.maxBaseFee
    ensures p.minBaseFee <= NextBaseFee(p) && (p.maxBaseFee > 0 ==> NextBaseFee(p) <= p.maxBaseFee)
    ensures p.minBaseFee <= p.currentBaseFee && (p.maxBaseFee > 0 ==> p.currentBaseFee <= p.maxBaseFee) ==>
      (p.gasUsed == p.targetGas ==> NextBaseFee(p) == p.currentBaseFee) &&
      (p.gasUsed < p.targetGas ==> NextBaseFee(p) <= p.currentBaseFee) &&
      (p.gasUsed > p.targetGas ==> NextBaseFee(p) >= p.currentBaseFee) &&
      (p.gasUsed > p.targetGas && NextBaseFee(p) == p.currentBaseFee ==>
        p.currentBaseFee == p.maxBaseFee || p.currentBaseFee == MAX_UINT64)
  {
    hide Delta;
  }

  /** A quotient of a quotient, as bounds on products. */
  lemma TwiceDivided(product: nat, targetGas: nat, denominator: nat, step: nat)
    requires targetGas > 0 && denominator > 0
    requires step * denominator * targetGas <= product < (step + 1) * denominator * targetGas
    ensures (product / targetGas) / denominator == step
  {
    var q := product / targetGas;
    assert q * targetGas <= product < q * targetGas + targetGas by { assert product == q * targetGas + product % targetGas; }
    Between(step * denominator, q, (step + 1) * denominator, targetGas, product);
    assert (step + 1) * denominator == step * denominator + denominator;
    Between(step, q / denominator, step + 1, denominator, q);
  }

  lemma Between(low: nat, q: nat, high: nat, d: nat, n: nat)
    requires d > 0 && q == n / d && low * d <= n < high * d
    ensures low <= q < high
  {
    assert n == q * d + n % d;
    assert (q + 1) * d == q * d + d;
    if q < low { TimesMonotone(q + 1, low, d); }
    if q >= high { TimesMonotone(high, q, d); }
  }

  ghost function Distance(p: Params): nat {
    if p.gasUsed > p.targetGas then p.gasUsed - p.targetGas else p.targetGas - p.gasUsed
  }

  /** Where the product of the fee and the distance from the target fits 64 bits, the step is what the denominator and the
      target divide it to, rounded down; otherwise it is the denominator's part of the largest number. */
  ghost predicate IsStep(p: Params, step: nat) {
    var product := p.currentBaseFee * Distance(p);
    if product <= MAX_UINT64
    then step * p.changeDenominator * p.targetGas <= product < (step + 1) * p.changeDenominator * p.targetGas
    else step * p.changeDenominator <= MAX_UINT64 < (step + 1) * p.changeDenominator
  }

  /** Up, the step is at least one and stops at the largest number; down, it stops at zero. The limits come last. Without
      a fee, a target or a denominator the fee stays, whatever the limits. */
  lemma StepSize(p: Params, step: nat)
    requires p.currentBaseFee > 0 && p.targetGas > 0 && p.changeDenominator > 0 ==> IsStep(p, step)
    ensures p.currentBaseFee == 0 || p.targetGas == 0 || p.changeDenominator == 0 ==> NextBaseFee(p) == p.currentBaseFee
    ensures p.currentBaseFee > 0 && p.targetGas > 0 && p.changeDenominator > 0 ==>
      var moved :=
        if p.gasUsed == p.targetGas then p.currentBaseFee
        else if p.gasUsed < p.targetGas then (if step >= p.currentBaseFee then 0 else p.currentBaseFee - step)
        else (var up := if step == 0 then 1 else step;
              if p.currentBaseFee + up > MAX_UINT64 then MAX_UINT64 else p.currentBaseFee + up);
      var raised := if moved < p.minBaseFee then p.minBaseFee else moved;
      NextBaseFee(p) == if p.maxBaseFee > 0 && raised > p.maxBaseFee then p.maxBaseFee else raised
  {
    hide Delta, IsStep;
    if p.currentBaseFee > 0 && p.targetGas > 0 && p.changeDenominator > 0 && p.gasUsed != p.targetGas { StepIsDelta(p, step); }
  }

  lemma StepIsDelta(p: Params, step: nat)
    requires p.currentBaseFee > 0 && p.targetGas > 0 && p.changeDenominator > 0 && IsStep(p, step) && p.gasUsed != p.targetGas
    ensures Distance(p) <= MAX_UINT64 && Delta(p.currentBaseFee, Distance(p), p.targetGas, p.changeDenominator) == step
  {
    hide Delta, Quotient;
    DeltaIsQuotient(p.currentBaseFee, Distance(p), p.targetGas, p.changeDenominator);
    QuotientIsStep(p.currentBaseFee * Distance(p), p.targetGas, p.changeDenominator, step);
  }

  lemma QuotientIsStep(product: nat, targetGas: nat, denominator: nat, step: nat)
    requires targetGas > 0 && denominator > 0
    requires if product <= MAX_UINT64 then step * denominator * targetGas <= product < (step + 1) * denominator * targetGas
             else step * denominator <= MAX_UINT64 < (step + 1) * denominator
    ensures Quotient(product, targetGas, denominator) == step
  {
    if product <= MAX_UINT64 {
      TwiceDivided(product, targetGas, denominator, step);
    } else {
      Between(step, MAX_UINT64 / denominator, step + 1, denominator, MAX_UINT64);
    }
  }

  /** The limits are inconsistent when the minimum is above a set maximum: the maximum wins. */
  lemma MaximumWins(p: Params)
    requires p.currentBaseFee > 0 && p.targetGas > 0 && p.changeDenominator > 0
    requires 0 < p.maxBaseFee < p.minBaseFee
    ensures NextBaseFee(p) == p.maxBaseFee < p.minBaseFee
  {
    hide Moved;
  }
}
