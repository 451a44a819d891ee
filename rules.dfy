/** Pure rules of the combat core that do not depend on a particular
    creature's tables: penalties, clamps, C-style truncation, weighted
    random choice over a supplied roll, and the standing calculus that
    decides hostility between two creatures. */
module CombatRules {

  datatype Option<T> = None | Some(value: T)

  /** Penalty to strength and dexterity per extra attacker in one turn. */
  function SimulAttackPen(attackers: int): (r: int)
    ensures r >= 0
    ensures attackers <= 1 ==> r == 0
  {
    if (attackers - 1) * 2 > 0 then (attackers - 1) * 2 else 0
  }

  /** Every attacker after the first costs exactly two more points. */
  lemma SimulAttackPenStep(attackers: int)
    requires attackers >= 1
    ensures SimulAttackPen(attackers + 1) == SimulAttackPen(attackers) + 2
  {
  }

  /** Conversion of a double to an int in C++: truncation toward zero. */
  function TruncToZero(x: real): (r: int)
    ensures x >= 0.0 ==> 0 <= r && r as real <= x < r as real + 1.0
    ensures x < 0.0 ==> r <= 0 && r as real - 1.0 < x <= r as real
  {
    if x >= 0.0 then x.Floor else -((-x).Floor)
  }

  /** C++ integer division of an int by a positive int (truncation toward zero). */
  function DivToZero(a: int, b: int): (r: int)
    requires b > 0
    ensures a >= 0 ==> r * b <= a < r * b + b
    ensures a < 0 ==> r * b - b < a <= r * b
  {
    if a >= 0 then a / b else -((-a) / b)
  }

  /** Morale accumulator clamp: min(1, max(-1, x)). */
  function ClampMorale(x: real): (r: real)
    ensures -1.0 <= r <= 1.0
    ensures -1.0 <= x <= 1.0 ==> r == x
    ensures x > 1.0 ==> r == 1.0
    ensures x < -1.0 ==> r == -1.0
  {
    if 1.0 < (if -1.0 > x then -1.0 else x) then 1.0 else if -1.0 > x then -1.0 else x
  }

  function SumWeights(weights: seq<nat>): nat {
    if weights == [] then 0 else weights[0] + SumWeights(weights[1..])
  }

  /** A weighted random choice: the supplied roll, uniform over
      [0, total weight), selects the option whose cumulative weight band
      contains it. */
  function ChooseWeighted<T>(options: seq<T>, weights: seq<nat>, roll: nat): (r: T)
    requires |options| == |weights|
    requires roll < SumWeights(weights)
    ensures r in options
    decreases |options|
  {
    if roll < weights[0] then options[0]
    else ChooseWeighted(options[1..], weights[1..], roll - weights[0])
  }

  /** The choice is never an option of weight zero, and the first band
      picks the first option. */
  lemma {:induction false} ChooseWeightedPositive<T>(options: seq<T>, weights: seq<nat>, roll: nat)
    requires |options| == |weights|
    requires roll < SumWeights(weights)
    ensures exists i :: 0 <= i < |options| && options[i] == ChooseWeighted(options, weights, roll) && weights[i] > 0
    ensures roll < weights[0] ==> ChooseWeighted(options, weights, roll) == options[0]
    decreases |options|
  {
    var r := ChooseWeighted(options, weights, roll);
    if roll < weights[0] {
      assert options[0] == r && weights[0] > 0;
    } else {
      ChooseWeightedPositive(options[1..], weights[1..], roll - weights[0]);
      var i :| 0 <= i < |options| - 1 && options[1..][i] == r && weights[1..][i] > 0;
      assert options[i + 1] == r && weights[i + 1] > 0;
    }
  }

  /** A (standing, weight) pair as returned by a creature's standing query. */
  datatype Standing = Standing(value: real, weight: real)

  /** A registered enemy-check policy: a weight, and for the creatures it has
      an opinion about, the standing it assigns. */
  datatype EnemyCheck<T> = EnemyCheck(weight: real, verdicts: map<T, real>)

  /** Start of the standing query: the tribe's standing at weight 0, or -1 at
      weight 1 for a private enemy. */
  function InitialStanding(tribeStanding: real, isPrivateEnemy: bool): Standing {
    if isPrivateEnemy then Standing(-1.0, 1.0) else Standing(tribeStanding, 0.0)
  }

  /** One enemy check replaces the running standing only when it has a verdict
      and a strictly greater weight. */
  function CheckStep<T>(acc: Standing, check: EnemyCheck<T>, target: T): Standing {
    if target in check.verdicts && check.weight > acc.weight
    then Standing(check.verdicts[target], check.weight)
    else acc
  }

  /** The enemy checks applied in registration order to a starting standing:
      the earliest of the heaviest checks with a verdict wins, provided it
      weighs more than the start. */
  function ScanChecks<T>(checks: seq<EnemyCheck<T>>, target: T, init: Standing): (r: Standing)
    ensures r.weight >= init.weight
    ensures forall k :: 0 <= k < |checks| && target in checks[k].verdicts ==>
              checks[k].weight <= r.weight
    ensures r == init ||
            exists k :: 0 <= k < |checks| && target in checks[k].verdicts &&
              checks[k].weight > init.weight &&
              r == Standing(checks[k].verdicts[target], checks[k].weight)
    ensures r != init ==>
              exists k :: 0 <= k < |checks| && target in checks[k].verdicts &&
                r == Standing(checks[k].verdicts[target], checks[k].weight) &&
                forall j :: 0 <= j < k && target in checks[j].verdicts ==> checks[j].weight < checks[k].weight
    decreases |checks|
  {
    if checks == [] then init
    else
      var front := checks[..|checks| - 1];
      var last := |checks| - 1;
      var prev := ScanChecks(front, target, init);
      assert forall k :: 0 <= k < |front| ==> front[k] == checks[k];
      var r := CheckStep(prev, checks[last], target);
      assert r != init ==>
               exists k :: 0 <= k < |checks| && target in checks[k].verdicts &&
                 r == Standing(checks[k].verdicts[target], checks[k].weight) &&
                 forall j :: 0 <= j < k && target in checks[j].verdicts ==> checks[j].weight < checks[k].weight
      by {
        if r != prev {
          assert forall j :: 0 <= j < last && target in checks[j].verdicts ==> checks[j].weight < checks[last].weight;
        }
      }
      r
  }

  /** A private enemy keeps standing -1 at weight 1 unless some check with a
      verdict about the target weighs strictly more than 1. */
  lemma PrivateEnemyWins<T>(checks: seq<EnemyCheck<T>>, target: T, tribeStanding: real)
    requires forall k :: 0 <= k < |checks| && target in checks[k].verdicts ==> checks[k].weight <= 1.0
    ensures ScanChecks(checks, target, InitialStanding(tribeStanding, true)) == Standing(-1.0, 1.0)
  {
  }

  /** How two opposite standings are combined: the heavier side wins, and on
      equal weight the more hostile (smaller) value. */
  function Resolve(mine: Standing, his: Standing): (r: real)
    ensures r == mine.value || r == his.value
    ensures mine.weight > his.weight ==> r == mine.value
    ensures mine.weight < his.weight ==> r == his.value
    ensures mine.weight == his.weight ==> r <= mine.value && r <= his.value
  {
    if mine.weight > his.weight then mine.value
    else if mine.weight < his.weight then his.value
    else if mine.value < his.value then mine.value
    else his.value
  }

  /** The combination does not depend on which side asks. */
  lemma ResolveSymmetric(a: Standing, b: Standing)
    ensures Resolve(a, b) == Resolve(b, a)
  {
  }

  /** The first override that supplies a value, otherwise the fallback. */
  function FirstOverride(overrides: seq<Option<real>>, fallback: real): (r: real)
    ensures (forall k :: 0 <= k < |overrides| ==> overrides[k].None?) ==> r == fallback
    ensures forall k :: (0 <= k < |overrides| && overrides[k].Some? &&
              (forall j :: 0 <= j < k ==> overrides[j].None?)) ==> r == overrides[k].value
  {
    if overrides == [] then fallback
    else if overrides[0].Some? then overrides[0].value
    else
      var r := FirstOverride(overrides[1..], fallback);
      assert forall k :: 1 <= k < |overrides| ==> overrides[1..][k - 1] == overrides[k];
      r
  }
}
