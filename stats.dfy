/** A creature's combat statistics (attributes and modifiers) as functions
    of its state, and the combat operations that consult them: dodging and
    the difficulty high-water mark. */
module CreatureStats {
  import opened CreatureEnums
  import opened CombatRules
  import opened Creatures
  import opened CreatureQueries

  /** Flat bonus of the strength and dexterity boosts and of rage and panic. */
  const AttrBonus: int := 3

  /** Per-part strength penalty for each injured or lost instance. */
  function StrPenalty(p: BodyPart): int {
    match p
    case Arm => 2
    case Leg => 5
    case Wing => 2
    case Head => 3
    case _ => 0
  }

  /** Per-part dexterity penalty for each injured or lost instance. */
  function DexPenalty(p: BodyPart): int {
    match p
    case Arm => 2
    case Leg => 10
    case Wing => 3
    case Head => 3
    case _ => 0
  }

  /** Per-part penalty to strength or dexterity. */
  function Penalty(dex: bool, p: BodyPart): int {
    if dex then DexPenalty(p) else StrPenalty(p)
  }

  /** The timed effect that boosts an attribute. */
  function BonusEffect(t: AttrType): LastingEffect {
    if t == Dexterity then DexBonus else StrBonus
  }

  /** max(0, x). */
  function NonNeg(x: int): (r: int)
    ensures r >= 0 && r >= x && (r == x || r == 0)
  {
    if x > 0 then x else 0
  }

  /** Penalty of all injured and lost parts to strength or dexterity. */
  function InjuryPenalty(c: Creature, dex: bool): (r: int)
    reads c`body
    requires c.body.Valid()
    ensures r >= 0
    ensures r == 0 <==> Damaged(c, Arm) == 0 && Damaged(c, Leg) == 0 && Damaged(c, Wing) == 0 && Damaged(c, Head) == 0
  {
    Penalty(dex, Arm) * Damaged(c, Arm) + Penalty(dex, Leg) * Damaged(c, Leg) +
    Penalty(dex, Wing) * Damaged(c, Wing) + Penalty(dex, Head) * Damaged(c, Head)
  }

  /** Scaling applied to strength and dexterity while wounded never raises
      a non-negative value. */
  lemma WoundScalingLowers(base: int, health: real)
    ensures base >= 0 && 0.0 <= health < 1.0 ==> 0 <= TruncToZero(base as real * (0.666 + health / 3.0)) <= base
  {
    if base >= 0 && 0.0 <= health < 1.0 {
      var f := 0.666 + health / 3.0;
      assert 0.0 < f <= 1.0;
      assert base as real * f <= base as real * 1.0 by {
        assert base as real * (1.0 - f) >= 0.0;
      }
    }
  }

  /** An attribute from its base value (raw value plus equipment): scaled
      down when wounded, boosted by its bonus effect, lowered by every
      damaged part and by every extra attacker this turn.  Speed is given by
      its base. */
  function GetAttr(c: Creature, t: AttrType, base: int): (r: int)
    reads c`lastingEffects, c`permanentEffects, c`time, c`body,
          c`health, c`numAttacksThisTurn
    requires c.EffectsValid() && c.body.Valid()
    ensures t != SpeedAttr && 0.0 <= c.health && base >= 0 ==>
              r <= base + (if c.IsAffected(BonusEffect(t)) then AttrBonus else 0)
                     - InjuryPenalty(c, t == Dexterity) - SimulAttackPen(c.numAttacksThisTurn)
    ensures t != SpeedAttr && c.health >= 1.0 && c.numAttacksThisTurn <= 1 && InjuryPenalty(c, t == Dexterity) == 0 ==>
              r == base + (if c.IsAffected(BonusEffect(t)) then AttrBonus else 0)
  {
    if t == SpeedAttr then base
    else
      var scaled := if c.health < 1.0 then TruncToZero(base as real * (0.666 + c.health / 3.0)) else base;
      WoundScalingLowers(base, c.health);
      scaled + (if c.IsAffected(BonusEffect(t)) then AttrBonus else 0)
      - InjuryPenalty(c, t == Dexterity) - SimulAttackPen(c.numAttacksThisTurn)
  }

  /** Accuracy lost to a weapon too heavy for the wielder's strength. */
  function AccuracyBonus(c: Creature, strBase: int): (r: int)
    reads c`lastingEffects, c`permanentEffects, c`time, c`body,
          c`health, c`numAttacksThisTurn, c`weapon
    requires c.EffectsValid() && c.body.Valid()
    ensures r <= 0
    ensures c.weapon.None? ==> r == 0
    ensures c.weapon.Some? && GetAttr(c, Strength, strBase) >= c.weapon.value.minStrength ==> r == 0
    ensures c.weapon.Some? && GetAttr(c, Strength, strBase) < c.weapon.value.minStrength ==>
              r == GetAttr(c, Strength, strBase) - c.weapon.value.minStrength
  {
    match c.weapon
    case None => 0
    case Some(w) =>
      var short := w.minStrength - GetAttr(c, Strength, strBase);
      -(if short > 0 then short else 0)
  }

  /** Rage's and panic's shift of the damage a creature deals: rage adds
      the attribute bonus and panic takes it off, so that the two cancel;
      defense moves the other way. */
  function MoodShift(c: Creature): (r: int)
    reads c`lastingEffects, c`permanentEffects, c`time
    requires c.EffectsValid()
    ensures r == 0 || r == AttrBonus || r == -AttrBonus
    ensures r > 0 <==> c.IsAffected(Rage) && !c.IsAffected(Panic)
    ensures r < 0 <==> c.IsAffected(Panic) && !c.IsAffected(Rage)
  {
    (if c.IsAffected(Rage) then AttrBonus else 0) - (if c.IsAffected(Panic) then AttrBonus else 0)
  }

  /** The defense modifier: strength and equipment less the mood shift,
      cut to two thirds (toward zero) in sleep, plus twenty under an active
      magic shield, and never below zero. */
  function DefenseModifier(c: Creature, equip: int, strBase: int): (r: int)
    reads c`lastingEffects, c`permanentEffects, c`time, c`body,
          c`health, c`numAttacksThisTurn
    requires c.EffectsValid() && c.body.Valid()
    ensures r >= 0
    ensures var d := equip + GetAttr(c, Strength, strBase) - MoodShift(c);
            var shield := if c.IsAffected(MagicShield) then 20 else 0;
            && (!c.IsAffected(Sleep) ==> r == NonNeg(d + shield))
            && (c.IsAffected(Sleep) && d >= 0 ==>
                  r >= shield && (r - shield) as real <= d as real * 0.66 < (r - shield) as real + 1.0)
            && (c.IsAffected(Sleep) && d < 0 ==> r <= shield)
  {
    var d := equip + GetAttr(c, Strength, strBase) - MoodShift(c);
    var slept := if c.IsAffected(Sleep) then TruncToZero(d as real * 0.66) else d;
    NonNeg(slept + (if c.IsAffected(MagicShield) then 20 else 0))
  }

  /** A combat modifier from `equip` (the equipment and skill contributions
      for that modifier) and the strength and dexterity bases. */
  function GetModifier(c: Creature, m: ModifierType, equip: int, strBase: int, dexBase: int): (r: int)
    reads c`lastingEffects, c`permanentEffects, c`time, c`body,
          c`health, c`numAttacksThisTurn, c`weapon
    requires c.EffectsValid() && c.body.Valid()
    ensures m != InvLimit ==> r >= 0
    ensures m == Accuracy && c.IsAffected(Sleep) ==> r == 0
    ensures m == InvLimit ==> r == if c.carryAnything then 1000000 else 2 * GetAttr(c, Strength, strBase)
    ensures m == Defense && c.IsAffected(MagicShield) && !c.IsAffected(Sleep) ==>
              r >= equip + GetAttr(c, Strength, strBase) + 20 - AttrBonus
    ensures m == Defense ==> r == DefenseModifier(c, equip, strBase)
    ensures m == Damage ==>
              r == NonNeg(equip + GetAttr(c, Strength, strBase) + (if c.weapon.None? then c.barehandedDamage else 0) + MoodShift(c))
    ensures m == FiredDamage || m == ThrownDamage ==> r == NonNeg(equip + GetAttr(c, Dexterity, dexBase) + MoodShift(c))
    ensures m == FiredAccuracy || m == ThrownAccuracy ==> r == NonNeg(equip + GetAttr(c, Dexterity, dexBase))
    ensures m == Accuracy && !c.IsAffected(Sleep) ==> r == NonNeg(equip + AccuracyBonus(c, strBase) + GetAttr(c, Dexterity, dexBase))
  {
    match m
    case FiredDamage => NonNeg(equip + GetAttr(c, Dexterity, dexBase) + MoodShift(c))
    case ThrownDamage => NonNeg(equip + GetAttr(c, Dexterity, dexBase) + MoodShift(c))
    case Damage =>
      NonNeg(equip + GetAttr(c, Strength, strBase) + (if c.weapon.None? then c.barehandedDamage else 0) + MoodShift(c))
    case Defense => DefenseModifier(c, equip, strBase)
    case FiredAccuracy => NonNeg(equip + GetAttr(c, Dexterity, dexBase))
    case ThrownAccuracy => NonNeg(equip + GetAttr(c, Dexterity, dexBase))
    case Accuracy =>
      if c.IsAffected(Sleep) then 0 else NonNeg(equip + AccuracyBonus(c, strBase) + GetAttr(c, Dexterity, dexBase))
    case InvLimit => if c.carryAnything then 1000000 else 2 * GetAttr(c, Strength, strBase)
  }

  /** Defense + accuracy + damage + speed / 10 in the current state. */
  function DifficultyNow(c: Creature, defEquip: int, accEquip: int, damEquip: int,
                         strBase: int, dexBase: int, speedBase: int): (r: int)
    reads c`lastingEffects, c`permanentEffects, c`time, c`body,
          c`health, c`numAttacksThisTurn, c`weapon
    requires c.EffectsValid() && c.body.Valid()
    ensures r >= DivToZero(speedBase, 10)
  {
    GetModifier(c, Defense, defEquip, strBase, dexBase) + GetModifier(c, Accuracy, accEquip, strBase, dexBase)
    + GetModifier(c, Damage, damEquip, strBase, dexBase) + DivToZero(GetAttr(c, SpeedAttr, speedBase), 10)
  }

  /** The difficulty high-water mark: never decreases, and is at least the
      current difficulty. */
  method GetDifficultyPoints(c: Creature, defEquip: int, accEquip: int, damEquip: int,
                             strBase: int, dexBase: int, speedBase: int) returns (r: int)
    requires c.Valid()
    modifies c`difficultyPoints
    ensures r == c.difficultyPoints
    ensures r >= old(c.difficultyPoints)
    ensures r >= DifficultyNow(c, defEquip, accEquip, damEquip, strBase, dexBase, speedBase)
    ensures r == old(c.difficultyPoints) || r == DifficultyNow(c, defEquip, accEquip, damEquip, strBase, dexBase, speedBase)
  {
    var current := DifficultyNow(c, defEquip, accEquip, damEquip, strBase, dexBase, speedBase);
    if current > c.difficultyPoints {
      c.difficultyPoints := current;
    }
    r := c.difficultyPoints;
  }

  /** Registers the blow, remembers an unseen attacker and an attacker of
      another tribe, and dodges only a seen attacker whose accuracy does not
      exceed the defender's accuracy. */
  method DodgeAttack(c: Creature, attack: Attack, canSeeAttacker: bool, accEquip: int, strBase: int, dexBase: int)
    returns (dodged: bool)
    requires c.Valid()
    modifies c`numAttacksThisTurn, c`unknownAttacker, c`privateEnemies
    ensures c.Valid()
    ensures c.numAttacksThisTurn == old(c.numAttacksThisTurn) + 1
    ensures c.unknownAttacker == old(c.unknownAttacker) + (if canSeeAttacker then [] else [attack.attacker])
    ensures c.privateEnemies == old(c.privateEnemies) +
              (if attack.attacker !in old(c.privateEnemies) && attack.attacker.tribe != c.tribe
               then [attack.attacker] else [])
    ensures attack.attacker.tribe != c.tribe ==> attack.attacker in c.privateEnemies
    ensures !canSeeAttacker ==> !dodged
    ensures dodged <==> canSeeAttacker && attack.accuracy <= GetModifier(c, Accuracy, accEquip, strBase, dexBase)
  {
    c.numAttacksThisTurn := c.numAttacksThisTurn + 1;
    var a := attack.attacker;
    if !canSeeAttacker {
      c.unknownAttacker := c.unknownAttacker + [a];
    }
    if a !in c.privateEnemies && a.tribe != c.tribe {
      c.privateEnemies := c.privateEnemies + [a];
    }
    dodged := canSeeAttacker && attack.accuracy <= GetModifier(c, Accuracy, accEquip, strBase, dexBase);
  }
}
