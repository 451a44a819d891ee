/** A creature's status bookkeeping: the lasting-effect tracker, the body
    model and its healing, death and morale.  Fields the game updates in
    place are class fields. */
module Creatures {
  import opened CreatureEnums
  import opened CombatRules
  import opened Bodies
  import opened EffectTables

  datatype Weapon = Weapon(minStrength: int)

  /** One resolved melee blow as it reaches the defender. */
  datatype Attack = Attack(attacker: Creature, level: AttackLevel, kind: AttackType,
                           accuracy: int, strength: int, backstab: bool, hasEffect: bool)

  /** What wounding a present part `p` does beyond the counts, from the
      fields before (`0`) to the fields after (`1`): a leg fells a creature
      that did not fly (`flew`), an arm drops the weapon, and a wing takes
      one permanent grant of flight and fells a creature left without two
      good legs. */
  predicate WoundOutcome(p: BodyPart, flew: bool, collapsed0: bool, weapon0: Option<Weapon>, perm0: seq<nat>,
                         collapsed1: bool, weapon1: Option<Weapon>, perm1: seq<nat>, body1: Tables)
    requires |perm0| == NumEffects && body1.Valid()
  {
    var f := EffectIndex(Flying);
    && collapsed1 == (if p == Leg then collapsed0 || !flew
                      else if p == Wing then collapsed0 || body1.Present(Leg) < 2 || body1.Injured(Leg) > 0
                      else collapsed0)
    && weapon1 == (if p == Arm then None else weapon0)
    && perm1 == (if p == Wing && perm0[f] > 0 then perm0[f := perm0[f] - 1] else perm0)
  }

  /** Health lost to the fall when a wound to `p` ends flight: a wing
      wound that took a permanent grant of flight from a creature that
      then no longer flies (`flies`). */
  function WoundFall(p: BodyPart, perm0: seq<nat>, flies: bool): real
    requires |perm0| == NumEffects
  {
    if p == Wing && perm0[EffectIndex(Flying)] > 0 && !flies then 0.1 else 0.0
  }

  class Creature {
    // Fixed traits of the creature (its attributes record).
    const undead: bool
    const notLiving: bool
    const uncorporal: bool
    const humanoid: bool
    const size: CreatureSize
    const tribe: nat
    const damageMultiplier: real
    const carryAnything: bool
    const barehandedDamage: int
    const hasPassiveAttack: bool
    const harmlessApply: bool

    var time: real
    /** Real time of the previous tick. */
    var lastTick: real
    /** Absolute expiry of each timed effect (0 = none), by table position. */
    var lastingEffects: seq<real>
    /** Reference count of permanent grants of each effect, by table position. */
    var permanentEffects: seq<nat>
    /** Present, injured and lost instances of each body part. */
    var body: Tables
    var collapsed: bool
    var health: real
    var morale: real
    var numAttacksThisTurn: nat
    var privateEnemies: seq<Creature>
    var unknownAttacker: seq<Creature>
    var kills: seq<Creature>
    var lastAttacker: Creature?
    var dead: bool
    var difficultyPoints: int
    var weapon: Option<Weapon>
    var enemyChecks: seq<EnemyCheck<Creature>>

    /** Both effect tables are total. */
    ghost predicate EffectsValid()
      reads this`lastingEffects, this`permanentEffects
    {
      Total(lastingEffects, permanentEffects)
    }

    /** The class invariant: total tables, a consistent body and morale in
        [-1, 1]. */
    ghost predicate Valid()
      reads this`lastingEffects, this`permanentEffects, this`body, this`morale
    {
      EffectsValid() && body.Valid() && -1.0 <= morale <= 1.0
    }

    constructor (undead: bool, notLiving: bool, uncorporal: bool, humanoid: bool,
                 size: CreatureSize, tribe: nat, damageMultiplier: real, carryAnything: bool,
                 barehandedDamage: int, hasPassiveAttack: bool, harmlessApply: bool,
                 parts: seq<int>, now: real)
      requires |parts| == NumParts && forall i :: 0 <= i < NumParts ==> parts[i] >= 0
      ensures Valid()
      ensures body.present == parts && time == now && lastTick == 0.0 && health == 1.0 && morale == 0.0
      ensures forall e :: lastingEffects[EffectIndex(e)] == 0.0 && permanentEffects[EffectIndex(e)] == 0
      ensures forall p :: body.Injured(p) == 0 && body.Lost(p) == 0
      ensures !collapsed && !dead && kills == [] && privateEnemies == [] && numAttacksThisTurn == 0
    {
      this.undead, this.notLiving, this.uncorporal, this.humanoid := undead, notLiving, uncorporal, humanoid;
      this.size, this.tribe, this.damageMultiplier := size, tribe, damageMultiplier;
      this.carryAnything, this.barehandedDamage := carryAnything, barehandedDamage;
      this.hasPassiveAttack, this.harmlessApply := hasPassiveAttack, harmlessApply;
      time, lastTick := now, 0.0;
      lastingEffects := seq(NumEffects, _ => 0.0);
      permanentEffects := seq(NumEffects, _ => 0);
      body := Tables(parts, seq(NumParts, _ => 0), seq(NumParts, _ => 0));
      collapsed, health, morale := false, 1.0, 0.0;
      numAttacksThisTurn := 0;
      privateEnemies, unknownAttacker, kills := [], [], [];
      lastAttacker, dead, difficultyPoints, weapon := null, false, 0, None;
      enemyChecks := [];
      new;
    }

    // ----- Lasting-effect tracker -----

    /** Active: the timed expiry has not passed, or a permanent grant holds. */
    predicate IsAffected(e: LastingEffect)
      reads this`lastingEffects, this`permanentEffects, this`time
      requires EffectsValid()
      ensures permanentEffects[EffectIndex(e)] > 0 ==> IsAffected(e)
      ensures lastingEffects[EffectIndex(e)] >= time ==> IsAffected(e)
      ensures lastingEffects[EffectIndex(e)] == 0.0 && time > 0.0 ==>
                (IsAffected(e) <==> permanentEffects[EffectIndex(e)] > 0)
    {
      Active(lastingEffects, permanentEffects, time, e)
    }

    predicate IsNotLiving()
      ensures undead || uncorporal ==> IsNotLiving()
      ensures !undead && !notLiving && !uncorporal ==> !IsNotLiving()
    {
      undead || notLiving || uncorporal
    }

    /** Whether the effect can take hold on this creature at all. */
    predicate Affects(e: LastingEffect)
      reads this`lastingEffects, this`permanentEffects, this`time
      requires EffectsValid()
      ensures (e == Rage || e == Panic) ==> (Affects(e) <==> !IsAffected(Sleep))
      ensures e == Poison ==> (Affects(e) <==> !IsAffected(PoisonResistant) && !IsNotLiving())
      ensures e == Entangled ==> (Affects(e) <==> !uncorporal)
      ensures e != Rage && e != Panic && e != Poison && e != Entangled ==> Affects(e)
    {
      match e
      case Rage => !IsAffected(Sleep)
      case Panic => !IsAffected(Sleep)
      case Poison => !IsAffected(PoisonResistant) && !IsNotLiving()
      case Entangled => !uncorporal
      case _ => true
    }

    /** The end of an effect's time: the only lasting consequence is the fall
        when flight ends. */
    method OnTimedOut(e: LastingEffect)
      modifies this`health
      ensures health == old(health) - FallDamage(e)
    {
      if e == Flying {
        health := health - 0.1;
      }
    }

    /** An explicit removal: as a timeout, except that a cure of poison has
        no consequence. */
    method OnRemoved(e: LastingEffect)
      modifies this`health
      ensures health == old(health) - FallDamage(e)
    {
      if e != Poison {
        OnTimedOut(e);
      }
    }

    /** Cancels the timed part of an active effect; the effect ends (with its
        consequence) unless a permanent grant keeps it. */
    method RemoveEffect(e: LastingEffect)
      requires EffectsValid()
      modifies this`lastingEffects, this`health
      ensures EffectsValid()
      ensures lastingEffects == Cancel(old(lastingEffects), permanentEffects, time, e)
      ensures health == old(health) - (if old(IsAffected(e)) && !IsAffected(e) then FallDamage(e) else 0.0)
    {
      if !IsAffected(e) {
        return;
      }
      lastingEffects := lastingEffects[EffectIndex(e) := 0.0];
      if !IsAffected(e) {
        OnRemoved(e);
      }
    }

    /** The onset of an effect cancels its opposite. */
    method OnAffected(e: LastingEffect)
      requires EffectsValid()
      modifies this`lastingEffects, this`health
      ensures EffectsValid() && health == old(health)
      ensures lastingEffects == Onset(old(lastingEffects), permanentEffects, time, e)
    {
      match Opposite(e)
      case None =>
      case Some(o) =>
        OppositeSymmetric(e, o);
        RemoveEffect(o);
    }

    /** Extends a timed effect the creature can take to `duration` from now,
        as `Extend` says; a fresh onset first cancels the opposite. */
    method AddEffect(e: LastingEffect, duration: real)
      requires EffectsValid()
      modifies this`lastingEffects, this`health
      ensures EffectsValid() && health == old(health)
      ensures lastingEffects == Extend(old(lastingEffects), permanentEffects, time, e, duration, old(Affects(e)))
    {
      if lastingEffects[EffectIndex(e)] < time + duration && Affects(e) {
        if !IsAffected(e) {
          OnAffected(e);
        }
        lastingEffects := lastingEffects[EffectIndex(e) := time + duration];
      }
    }


    /** Adds one permanent grant, after the onset if the effect was not
        active. */
    method AddPermanentEffect(e: LastingEffect)
      requires EffectsValid()
      modifies this`lastingEffects, this`permanentEffects, this`health
      ensures EffectsValid() && health == old(health) && IsAffected(e)
      ensures permanentEffects == old(permanentEffects)[EffectIndex(e) := old(permanentEffects[EffectIndex(e)]) + 1]
      ensures lastingEffects ==
                if old(IsAffected(e)) then old(lastingEffects) else Onset(old(lastingEffects), old(permanentEffects), time, e)
    {
      if !IsAffected(e) {
        OnAffected(e);
      }
      permanentEffects := permanentEffects[EffectIndex(e) := permanentEffects[EffectIndex(e)] + 1];
      assert permanentEffects[EffectIndex(e)] > 0;
    }

    /** Takes away one permanent grant; taking away a grant that was never
        given is a fatal check in the game, hence the precondition. */
    method RemovePermanentEffect(e: LastingEffect)
      requires EffectsValid() && permanentEffects[EffectIndex(e)] >= 1
      modifies this`permanentEffects, this`health
      ensures EffectsValid()
      ensures permanentEffects == old(permanentEffects)[EffectIndex(e) := old(permanentEffects[EffectIndex(e)]) - 1]
      ensures health == old(health) - (if !IsAffected(e) then FallDamage(e) else 0.0)
    {
      permanentEffects := permanentEffects[EffectIndex(e) := permanentEffects[EffectIndex(e)] - 1];
      if !IsAffected(e) {
        OnRemoved(e);
      }
    }

    /** One step of the tick's sweep, at table position `i`: an expired
        timed effect is reset, and times out if nothing else keeps it. */
    method SweepEffect(i: nat, realTime: real)
      requires EffectsValid() && i < NumEffects
      modifies this`lastingEffects, this`health
      ensures EffectsValid()
      ensures lastingEffects ==
                old(lastingEffects)[i := if 0.0 < old(lastingEffects[i]) < realTime then 0.0 else old(lastingEffects[i])]
      ensures health == old(health) -
                (if 0.0 < old(lastingEffects[i]) < realTime && !IsAffected(EffectAt(i)) then FallDamage(EffectAt(i)) else 0.0)
    {
      if lastingEffects[i] > 0.0 && lastingEffects[i] < realTime {
        lastingEffects := lastingEffects[i := 0.0];
        if !IsAffected(EffectAt(i)) {
          OnTimedOut(EffectAt(i));
        }
      }
    }

    /** The expiry sweep of a game tick, over every effect in declaration
        order: the expiry table becomes `Expire` of the old one, and an
        effect that thereby ends is timed out; only flight's end costs
        health. */
    method TickEffects(realTime: real)
      requires EffectsValid()
      modifies this`lastingEffects, this`health
      ensures EffectsValid()
      ensures lastingEffects == Expire(old(lastingEffects), realTime)
      ensures health == old(health) -
                (if 0.0 < old(lastingEffects[EffectIndex(Flying)]) < realTime && !IsAffected(Flying) then 0.1 else 0.0)
    {
      for i := 0 to NumEffects
        invariant EffectsValid()
        invariant forall j :: 0 <= j < NumEffects ==>
                    lastingEffects[j] == if j < i && 0.0 < old(lastingEffects[j]) < realTime then 0.0 else old(lastingEffects[j])
        invariant health == old(health) -
                    (if EffectIndex(Flying) < i && 0.0 < old(lastingEffects[EffectIndex(Flying)]) < realTime
                        && !IsAffected(Flying) then 0.1 else 0.0)
      {
        SweepEffect(i, realTime);
      }
      assert lastingEffects == Expire(old(lastingEffects), realTime);
    }

    // ----- Body model -----

    /** Total number of injured plus lost instances over all parts. */
    method LostOrInjuredBodyParts() returns (r: int)
      requires Valid()
      ensures r == PartSum(body.injured, NumParts) + PartSum(body.lost, NumParts)
      ensures r >= 0
      ensures r == 0 <==> forall p :: body.Injured(p) == 0 && body.Lost(p) == 0
    {
      r := 0;
      for i := 0 to NumParts
        invariant r == PartSum(body.injured, i)
      {
        r := r + body.injured[i];
      }
      ghost var injured := r;
      for i := 0 to NumParts
        invariant r == injured + PartSum(body.lost, i)
      {
        r := r + body.lost[i];
      }
      PartSumZero(body.injured, NumParts);
      PartSumZero(body.lost, NumParts);
      UnwoundedSumsZero(body);
    }

    /** The part-specific half of a wound: a leg wound fells a creature that
        does not fly, an arm wound drops the weapon, a wing wound takes one
        permanent grant of flight and fells a creature short of sound legs. */
    method WoundConsequences(p: BodyPart)
      requires Valid()
      modifies this`collapsed, this`weapon, this`permanentEffects, this`health
      ensures Valid()
      ensures p == Leg ==> collapsed == (old(collapsed) || !old(IsAffected(Flying)))
      ensures p == Arm ==> weapon.None?
      ensures p == Wing ==>
                && permanentEffects == old(permanentEffects)[EffectIndex(Flying) :=
                     if old(permanentEffects[EffectIndex(Flying)]) > 0 then old(permanentEffects[EffectIndex(Flying)]) - 1
                     else old(permanentEffects[EffectIndex(Flying)])]
                && collapsed == (old(collapsed) || body.Present(Leg) < 2 || body.Injured(Leg) > 0)
                && health == old(health) -
                     (if old(permanentEffects[EffectIndex(Flying)]) > 0 && !IsAffected(Flying) then 0.1 else 0.0)
      ensures p != Wing ==> permanentEffects == old(permanentEffects) && health == old(health)
      ensures p != Arm ==> weapon == old(weapon)
      ensures p != Leg && p != Wing ==> collapsed == old(collapsed)
    {
      if p == Leg {
        if !collapsed && !IsAffected(Flying) {
          collapsed := true;
        }
      } else if p == Arm {
        if weapon.Some? {
          weapon := None;
        }
      } else if p == Wing {
        if permanentEffects[EffectIndex(Flying)] > 0 {
          RemovePermanentEffect(Flying);
        }
        if (body.Present(Leg) < 2 || body.Injured(Leg) > 0) && !collapsed {
          collapsed := true;
        }
      }
    }

    /** A wound to one instance of a part (severed when `drop`): the counts
        change as `Wound` says, and the part's consequences follow; nothing
        happens to a part the creature no longer has. */
    method InjureBodyPart(p: BodyPart, drop: bool)
      requires Valid()
      modifies this`body, this`collapsed, this`weapon, this`permanentEffects, this`health
      ensures Valid()
      ensures body == Wound(old(body), p, drop)
      ensures old(body.Present(p)) == 0 ==>
                collapsed == old(collapsed) && weapon == old(weapon) &&
                permanentEffects == old(permanentEffects) && health == old(health)
      ensures old(body.Present(p)) > 0 && p == Leg ==> collapsed == (old(collapsed) || !old(IsAffected(Flying)))
      ensures old(body.Present(p)) > 0 && p == Arm ==> weapon.None?
      ensures old(body.Present(p)) > 0 && p == Wing ==>
                && permanentEffects == old(permanentEffects)[EffectIndex(Flying) :=
                     if old(permanentEffects[EffectIndex(Flying)]) > 0 then old(permanentEffects[EffectIndex(Flying)]) - 1
                     else old(permanentEffects[EffectIndex(Flying)])]
                && collapsed == (old(collapsed) || body.Present(Leg) < 2 || body.Injured(Leg) > 0)
                && health == old(health) -
                     (if old(permanentEffects[EffectIndex(Flying)]) > 0 && !IsAffected(Flying) then 0.1 else 0.0)
      ensures p != Wing ==> permanentEffects == old(permanentEffects) && health == old(health)
      ensures p != Arm ==> weapon == old(weapon)
      ensures p != Leg && p != Wing ==> collapsed == old(collapsed)
      ensures old(body.Present(p)) > 0 ==>
                WoundOutcome(p, old(IsAffected(Flying)), old(collapsed), old(weapon), old(permanentEffects),
                             collapsed, weapon, permanentEffects, body)
      ensures health == old(health) - if old(body.Present(p)) > 0 then WoundFall(p, old(permanentEffects), IsAffected(Flying)) else 0.0
    {
      if body.Present(p) == 0 {
        return;
      }
      body := Wound(body, p, drop);
      WoundConsequences(p);
    }

    /** Heal step for one part: its injuries are cured, and a felled
        creature stands up when a leg heals and no leg is lost. */
    method ClearInjury(p: BodyPart)
      requires Valid()
      modifies this`body, this`collapsed
      ensures Valid()
      ensures body == old(body).(injured := old(body.injured)[PartIndex(p) := 0])
      ensures collapsed == (old(collapsed) && !(p == Leg && old(body.Injured(Leg)) != 0 && body.Lost(Leg) == 0))
    {
      if body.Injured(p) != 0 {
        if p == Leg && body.Lost(Leg) == 0 && collapsed {
          collapsed := false;
        }
        body := body.(injured := body.injured[PartIndex(p) := 0]);
      }
    }

    /** The injury-clearing sweep of a heal, over every part in order. */
    method ClearInjuries()
      requires Valid()
      modifies this`body, this`collapsed
      ensures Valid()
      ensures body.present == old(body.present) && body.lost == old(body.lost)
      ensures forall p :: body.Injured(p) == 0
      ensures collapsed == (old(collapsed) && !(old(body.Injured(Leg)) != 0 && body.Lost(Leg) == 0))
    {
      for i := 0 to NumParts
        invariant Valid()
        invariant body.present == old(body.present) && body.lost == old(body.lost)
        invariant forall j :: 0 <= j < NumParts ==> body.injured[j] == if j < i then 0 else old(body.injured[j])
        invariant collapsed ==
                    (old(collapsed) && !(PartIndex(Leg) < i && old(body.Injured(Leg)) != 0 && body.Lost(Leg) == 0))
      {
        ClearInjury(PartAt(i));
      }
    }

    /** Heal step for one part: a lost instance grows back, a lost leg lets a
        felled creature stand, a lost wing restores one grant of flight. */
    method RegrowLimb(p: BodyPart)
      requires Valid()
      modifies this`body, this`collapsed, this`permanentEffects
      ensures Valid()
      ensures body == old(body).(lost := old(body.lost)[PartIndex(p) := 0])
      ensures collapsed == (old(collapsed) && !(p == Leg && old(body.Lost(Leg)) != 0))
      ensures permanentEffects == old(permanentEffects)[EffectIndex(Flying) :=
                old(permanentEffects[EffectIndex(Flying)]) + (if p == Wing && old(body.Lost(Wing)) != 0 then 1 else 0)]
    {
      if body.Lost(p) != 0 {
        if p == Leg && collapsed {
          collapsed := false;
        }
        if p == Wing {
          // One more grant of flight; the onset of flight cancels nothing.
          permanentEffects := permanentEffects[EffectIndex(Flying) := permanentEffects[EffectIndex(Flying)] + 1];
        }
        body := body.(lost := body.lost[PartIndex(p) := 0]);
      }
    }

    /** The limb-regrowing sweep of a heal, over every part in order. */
    method RegrowLimbs()
      requires Valid()
      modifies this`body, this`collapsed, this`permanentEffects
      ensures Valid()
      ensures body.present == old(body.present) && body.injured == old(body.injured)
      ensures forall p :: body.Lost(p) == 0
      ensures collapsed == (old(collapsed) && old(body.Lost(Leg)) == 0)
      ensures permanentEffects == old(permanentEffects)[EffectIndex(Flying) :=
                old(permanentEffects[EffectIndex(Flying)]) + (if old(body.Lost(Wing)) != 0 then 1 else 0)]
    {
      for i := 0 to NumParts
        invariant Valid()
        invariant body.present == old(body.present) && body.injured == old(body.injured)
        invariant forall j :: 0 <= j < NumParts ==> body.lost[j] == if j < i then 0 else old(body.lost[j])
        invariant collapsed == (old(collapsed) && !(PartIndex(Leg) < i && old(body.Lost(Leg)) != 0))
        invariant permanentEffects == old(permanentEffects)[EffectIndex(Flying) :=
                    old(permanentEffects[EffectIndex(Flying)]) + (if PartIndex(Wing) < i && old(body.Lost(Wing)) != 0 then 1 else 0)]
      {
        RegrowLimb(PartAt(i));
      }
    }

    /** The part of a heal that applies from half health on: the body
        becomes `Healed`, a felled creature stands up when its legs are
        healed or regrown, and a regrown wing restores one grant of flight. */
    method HealParts(replaceLimbs: bool)
      requires Valid()
      modifies this`body, this`collapsed, this`permanentEffects
      ensures Valid()
      ensures body == Healed(old(body), replaceLimbs)
      ensures collapsed == (old(collapsed) &&
                !((old(body.Injured(Leg)) != 0 && old(body.Lost(Leg)) == 0) ||
                  (replaceLimbs && old(body.Lost(Leg)) != 0)))
      ensures permanentEffects == old(permanentEffects)[EffectIndex(Flying) := old(permanentEffects[EffectIndex(Flying)]) +
                (if replaceLimbs && old(body.Lost(Wing)) != 0 then 1 else 0)]
    {
      ClearInjuries();
      ghost var cleared := body;
      if replaceLimbs {
        RegrowLimbs();
      }
      assert forall p :: body.Injured(p) == cleared.Injured(p);
      HealedUnique(old(body), body, replaceLimbs);
    }

    /** Healing: health rises by `amount` up to 1; from half health on the
        body heals as `HealParts` says; at full health the last attacker is
        forgotten.  A creature already at full health is left alone. */
    method Heal(amount: real, replaceLimbs: bool)
      requires Valid()
      modifies this`health, this`body, this`collapsed, this`lastAttacker, this`permanentEffects
      ensures Valid()
      ensures health == if old(health) >= 1.0 then old(health)
                        else if old(health) + amount < 1.0 then old(health) + amount else 1.0
      ensures var healed := old(health) < 1.0 && health >= 0.5;
              && body == (if healed then Healed(old(body), replaceLimbs) else old(body))
              && collapsed == (old(collapsed) && !(healed &&
                   ((old(body.Injured(Leg)) != 0 && old(body.Lost(Leg)) == 0) ||
                    (replaceLimbs && old(body.Lost(Leg)) != 0))))
              && permanentEffects == old(permanentEffects)[EffectIndex(Flying) := old(permanentEffects[EffectIndex(Flying)]) +
                   (if healed && replaceLimbs && old(body.Lost(Wing)) != 0 then 1 else 0)]
      ensures lastAttacker == if old(health) < 1.0 && health == 1.0 then null else old(lastAttacker)
    {
      if health < 1.0 {
        health := if health + amount < 1.0 then health + amount else 1.0;
        if health >= 0.5 {
          HealParts(replaceLimbs);
        }
        if health == 1.0 {
          lastAttacker := null;
        }
      }
    }

    /** Eating another creature with part counts `parts` (by table
        position), over every part in order: the body becomes `Grown`. */
    method ConsumeBodyParts(parts: seq<int>)
      requires Valid() && |parts| == NumParts
      modifies this`body
      ensures Valid()
      ensures body == Grown(old(body), parts)
    {
      for i := 0 to NumParts
        invariant Valid()
        invariant body.injured == old(body.injured) && body.lost == old(body.lost)
        invariant forall j :: 0 <= j < NumParts ==>
                    body.present[j] == if j < i && parts[j] > old(body.present[j]) then parts[j] else old(body.present[j])
      {
        if parts[i] > body.present[i] {
          body := body.(present := body.present[i := parts[i]]);
        }
      }
      GrownUnique(old(body), parts, body);
    }

    // ----- Dying and morale -----

    /** An attacker of another tribe becomes a private enemy, once. */
    method NoteEnemy(a: Creature)
      modifies this`privateEnemies
      ensures privateEnemies == old(privateEnemies) + (if a !in old(privateEnemies) && a.tribe != tribe then [a] else [])
      ensures a.tribe != tribe ==> a in privateEnemies
    {
      if a !in privateEnemies && a.tribe != tribe {
        privateEnemies := privateEnemies + [a];
      }
    }

    /** Death, credited to `attacker` when there is one.  There is no guard
        against dying twice. */
    method Die(attacker: Creature?)
      modifies this`lastAttacker, this`dead, {attacker}`kills
      ensures dead && lastAttacker == attacker
      ensures attacker != null ==> attacker.kills == old(attacker.kills) + [this]
    {
      lastAttacker := attacker;
      if attacker != null {
        attacker.kills := attacker.kills + [this];
      }
      dead := true;
    }

    /** The first override that has an opinion, else the accumulated morale. */
    method GetMorale(overrides: seq<Option<real>>) returns (r: real)
      ensures r == FirstOverride(overrides, morale)
    {
      for i := 0 to |overrides|
        invariant forall j :: 0 <= j < i ==> overrides[j].None?
      {
        if overrides[i].Some? {
          return overrides[i].value;
        }
      }
      return morale;
    }

    /** Morale moves by `val` and is clamped to [-1, 1]. */
    method AddMorale(val: real)
      requires Valid()
      modifies this`morale
      ensures Valid()
      ensures morale == ClampMorale(old(morale) + val)
    {
      morale := ClampMorale(morale + val);
    }
  }
}
