// The tick: the greatest common divisor of the macro step and of every declared period.
module SchedulerQuantum {
  import opened Common
  import opened Divisibility
  import opened SchedulerModel

  lemma DividesCombination(g: nat, a: nat, b: nat)
    requires g > 0 && b > 0 && b % g == 0 && (a % b) % g == 0
    ensures a % g == 0
  {
    var k, r := a / b, a % b;
    assert a == b * k + r;
    ScaledMultiple(g, b, k);
    SumOfMultiples(g, b * k, r);
  }

  lemma DividesRemainder(d: nat, a: nat, b: nat)
    requires d > 0 && b > 0 && a % d == 0 && b % d == 0
    ensures (a % b) % d == 0
  {
    var k := a / b;
    assert a % b == a - b * k;
    ScaledMultiple(d, b, k);
    SumOfMultiples(d, a, b * k);
  }

  lemma {:induction false} GcdDivides(a: nat, b: nat)
    requires a > 0 || b > 0
    ensures a % Gcd(a, b) == 0 && b % Gcd(a, b) == 0
    decreases b
  {
    var g := Gcd(a, b);
    if b == 0 {
      MultipleMod(g, 1);
    } else {
      GcdDivides(b, a % b);
      DividesCombination(g, a, b);
    }
  }

  lemma {:induction false} GcdGreatest(a: nat, b: nat, d: nat)
    requires d > 0 && a % d == 0 && b % d == 0
    ensures Gcd(a, b) % d == 0
    decreases b
  {
    if b == 0 {
    } else {
      DividesRemainder(d, a, b);
      GcdGreatest(b, a % b, d);
    }
  }

  /** A tick that loses nothing: it divides the macro step and every declared period. */
  ghost predicate TickFits(d: nat, macroStepUs: nat, components: seq<Component>)
  {
    && d > 0 && macroStepUs % d == 0
    && forall c <- components :: c.stepUs.Some? ==> c.stepUs.value % d == 0
  }

  lemma {:induction false} QuantumUpToCommon(macroStepUs: nat, components: seq<Component>, n: nat)
    requires n <= |components| && macroStepUs > 0
    ensures TickFits(QuantumUpTo(macroStepUs, components, n), macroStepUs, components[..n])
    ensures forall d: nat :: TickFits(d, macroStepUs, components[..n]) ==> QuantumUpTo(macroStepUs, components, n) % d == 0
  {
    if n == 0 {
      MultipleMod(macroStepUs, 1);
    } else {
      var before := QuantumUpTo(macroStepUs, components, n - 1);
      var q := QuantumUpTo(macroStepUs, components, n);
      QuantumUpToCommon(macroStepUs, components, n - 1);
      assert components[..n] == components[..n - 1] + [components[n - 1]];
      if components[n - 1].stepUs.Some? {
        var s := components[n - 1].stepUs.value;
        GcdDivides(before, s);
        DividesTransitive(q, before, macroStepUs);
        forall c | c in components[..n - 1] && c.stepUs.Some?
          ensures c.stepUs.value % q == 0
        {
          DividesTransitive(q, before, c.stepUs.value);
        }
        forall d: nat | TickFits(d, macroStepUs, components[..n])
          ensures q % d == 0
        {
          assert components[n - 1] in components[..n];
          assert TickFits(d, macroStepUs, components[..n - 1]);
          GcdGreatest(before, s, d);
        }
      } else {
        forall d: nat | TickFits(d, macroStepUs, components[..n])
          ensures q % d == 0
        {
          assert TickFits(d, macroStepUs, components[..n - 1]);
        }
      }
    }
  }

  /** The quantum fits, and every tick that fits divides it: it is the longest one. */
  lemma QuantumIsLongestFit(system: System, e: Experiment)
    requires e.macroStepUs > 0
    ensures TickFits(Quantum(system, e), e.macroStepUs, system.components)
    ensures forall d: nat :: TickFits(d, e.macroStepUs, system.components) ==> d <= Quantum(system, e)
  {
    var q := Quantum(system, e);
    assert system.components[..|system.components|] == system.components;
    QuantumUpToCommon(e.macroStepUs, system.components, |system.components|);
    forall d: nat | TickFits(d, e.macroStepUs, system.components)
      ensures d <= q
    {
      assert q % d == 0;
      NextMultiple(d, 0, q);
    }
  }

  /** The communication step of the co-simulation schedule, which leaves out periods that are not declared or zero. */
  function CommunicationStep(macroStepUs: nat, components: seq<Component>, n: nat): nat
    requires n <= |components|
  {
    if n == 0 then macroStepUs
    else
      var step := CommunicationStep(macroStepUs, components, n - 1);
      var c := components[n - 1];
      if c.stepUs.Some? && c.stepUs.value != 0 then Gcd(step, c.stepUs.value) else step
  }

  /** Co-simulation exchanges data on the same grid as the scheduler ticks. */
  lemma {:induction false} CommunicationStepIsQuantum(macroStepUs: nat, components: seq<Component>, n: nat)
    requires n <= |components| && macroStepUs > 0
    ensures CommunicationStep(macroStepUs, components, n) == QuantumUpTo(macroStepUs, components, n)
  {
    if n == 0 {
    } else {
      CommunicationStepIsQuantum(macroStepUs, components, n - 1);
    }
  }

  lemma AtLeastTimes(a: nat, b: nat, q: nat)
    requires a <= b
    ensures a * q <= b * q
  {
  }

  /** For any duration, aligned or not, the loop ticks at exactly the multiples of the tick below it. */
  lemma TicksAreBelowEnd(duration: nat, q: nat, n: nat)
    requires q > 0
    ensures n < TickCount(duration, q) <==> n * q < duration
  {
    var k := TickCount(duration, q);
    var r := (duration + q - 1) % q;
    assert duration + q - 1 == k * q + r;
    if n < k {
      AtLeastTimes(n, k - 1, q);
      assert (k - 1) * q == k * q - q;
    } else {
      AtLeastTimes(k, n, q);
    }
  }
}
