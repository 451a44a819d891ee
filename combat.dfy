/** Taking a blow and the passage of a game tick: the two operations that
    turn a creature's statistics, effects and body into damage and death.
    Random draws are parameters. */
module Combat {
  import opened CreatureEnums
  import opened CombatRules
  import opened EffectTables
  import opened Bodies
  import opened Creatures
  import opened CreatureQueries
  import opened CreatureStats

  /** What a blow does to its defender, decided before any state changes. */
  datatype Blow =
    | Possession            // the attacker dies and the defender goes insane
    | Absorbed              // the strength did not exceed the defense
    | Devoured              // eaten whole by a larger creature
    | Dissipated            // an uncorporeal defender dies on any damage
    | Maimed(part: BodyPart, drop: bool)  // a body part is injured, severed when `drop`
    | Bled                  // only health is lost

  /** The damage of a blow that beat the defense: the excess strength
      relative to the defense (a full point against no defense at all),
      scaled by the defender's damage multiplier. */
  function BlowDamage(strength: int, defense: int, multiplier: real): (r: real)
    requires 0 <= defense < strength
    ensures multiplier > 0.0 ==> r > 0.0
    ensures multiplier == 0.0 ==> r == 0.0
  {
    (if defense == 0 then 1.0 else (strength - defense) as real / defense as real) * multiplier
  }

  /** Against the same positive defense a stronger blow does no less
      damage; against no defense all blows do the same. */
  lemma BlowDamageMonotone(s1: int, s2: int, defense: int, multiplier: real)
    requires 0 <= defense < s1 <= s2 && multiplier >= 0.0
    ensures BlowDamage(s1, defense, multiplier) <= BlowDamage(s2, defense, multiplier)
    ensures defense == 0 ==> BlowDamage(s1, defense, multiplier) == BlowDamage(s2, defense, multiplier)
  {
    if defense > 0 {
      var d := defense as real;
      assert (s1 - defense) as real / d <= (s2 - defense) as real / d;
    }
  }

  /** Health lost to bleeding from a blow: none for a creature that is not
      alive. */
  function Bleeding(c: Creature, dam: real): real {
    if c.IsNotLiving() then 0.0 else dam
  }

  /** The kinds of blow that sever the part they injure; an eating attack
      that fails to devour bites. */
  predicate Severs(kind: AttackType) {
    kind == Cut || kind == Bite || kind == Eat
  }

  /** The outcome of a blow from its kind, its strength against the
      defense, whether the attacker may devour (larger, and the roll
      succeeded), the defender's corporeality, the targeted part, the
      damage against the part's threshold and the part's good instances. */
  function ClassifyBlow(kind: AttackType, strength: int, defense: int, devours: bool, uncorporal: bool,
                        part: BodyPart, dam: real, minDamage: real, good: int): (r: Blow)
    ensures r == Possession <==> kind == Possess
    ensures r.Maimed? ==> r.part == part && good > 0 && dam >= minDamage && kind != Spell && strength > defense
  {
    if kind == Possess then Possession
    else if strength <= defense then Absorbed
    else if kind == Eat && devours then Devoured
    else if uncorporal then Dissipated
    else if kind != Spell && dam >= minDamage && good > 0 then Maimed(part, Severs(kind))
    else Bled
  }

  /** A blow can kill only once it beats the defense, a spell never maims,
      and a maiming blow severs exactly for cuts and bites. */
  lemma ClassifyBlowCases(kind: AttackType, strength: int, defense: int, devours: bool, uncorporal: bool,
                          part: BodyPart, dam: real, minDamage: real, good: int)
    ensures var b := ClassifyBlow(kind, strength, defense, devours, uncorporal, part, dam, minDamage, good);
            && (b == Possession <==> kind == Possess)
            && (b == Absorbed <==> kind != Possess && strength <= defense)
            && (b == Devoured ==> kind == Eat && devours && strength > defense)
            && (kind == Spell ==> !b.Maimed?)
            && (uncorporal && kind != Possess && strength > defense ==> b == Devoured || b == Dissipated)
            && (b.Maimed? ==> b.part == part && good > 0 && dam >= minDamage && (b.drop <==> kind != Spell && Severs(kind)))
  {
  }

  /** The part a blow is aimed at: the back for a backstab whose roll
      succeeds, else the part `GetBodyPart` picks. */
  function TargetPart(c: Creature, attack: Attack, backRoll: bool, roll: nat, armRoll: nat): (r: BodyPart)
    reads c`lastingEffects, c`permanentEffects, c`time, c`body, c`collapsed
    requires c.EffectsValid() && c.body.Valid()
    ensures r == Back <==> attack.backstab && backRoll
  {
    if attack.backstab && backRoll then Back else GetBodyPart(c, attack.level, roll, armRoll)
  }

  /** The blow `attack` deals this defender in its current state, given
      the defense it meets. */
  function BlowOf(c: Creature, attack: Attack, defense: int, devourRoll: bool,
                  backRoll: bool, roll: nat, armRoll: nat): (r: Blow)
    reads c`lastingEffects, c`permanentEffects, c`time, c`body, c`collapsed
    requires c.EffectsValid() && c.body.Valid() && defense >= 0
    ensures r == Possession <==> attack.kind == Possess
    ensures r == Absorbed <==> attack.kind != Possess && attack.strength <= defense
    ensures r == Devoured ==> attack.kind == Eat && IsLarger(attack.attacker.size, c.size) && devourRoll
    ensures r.Maimed? ==>
              && r.part == TargetPart(c, attack, backRoll, roll, armRoll)
              && NumGood(c, r.part) > 0 && attack.kind != Spell
              && r.drop == Severs(attack.kind)
    ensures c.uncorporal && attack.kind != Possess && attack.strength > defense ==> r == Devoured || r == Dissipated
  {
    var part := TargetPart(c, attack, backRoll, roll, armRoll);
    ClassifyBlow(attack.kind, attack.strength, defense, IsLarger(attack.attacker.size, c.size) && devourRoll,
                 c.uncorporal, part,
                 if attack.strength > defense then BlowDamage(attack.strength, defense, c.damageMultiplier) else 0.0,
                 GetMinDamage(c, part), NumGood(c, part))
  }

  /** A maiming hit to `part`, which has a good instance: the part is
      wounded (severed when `drop`) with its consequences; a critical part
      kills, otherwise health is kept above zero. */
  method Maim(c: Creature, a: Creature, part: BodyPart, drop: bool) returns (died: bool)
    requires c.Valid() && NumGood(c, part) > 0
    modifies c`body, c`collapsed, c`weapon, c`permanentEffects, c`health, c`lastAttacker, c`dead, a`kills
    ensures c.Valid()
    ensures c.body == Wound(old(c.body), part, drop)
    ensures died <==> IsCritical(c, part)
    ensures died ==> c.dead && c.lastAttacker == a && a.kills == old(a.kills) + [c]
    ensures !died ==> c.dead == old(c.dead) && c.lastAttacker == old(c.lastAttacker) && a.kills == old(a.kills)
    ensures !died ==> c.health > 0.0
    ensures WoundOutcome(part, old(Active(c.lastingEffects, c.permanentEffects, c.time, Flying)), old(c.collapsed), old(c.weapon), old(c.permanentEffects),
                         c.collapsed, c.weapon, c.permanentEffects, c.body)
    ensures var h := old(c.health) - WoundFall(part, old(c.permanentEffects), Active(c.lastingEffects, c.permanentEffects, c.time, Flying));
            c.health == if !died && h <= 0.0 then 0.01 else h
  {
    c.InjureBodyPart(part, drop);
    if IsCritical(c, part) {
      c.Die(a);
      return true;
    }
    if c.health <= 0.0 {
      c.health := 0.01;
    }
    return false;
  }

  /** The part of a blow that beat the defense once devouring is ruled
      out: the last attacker is noted, a living defender bleeds `dam`, and
      the blow, whose outcome is `blow`, dissolves an uncorporeal defender,
      maims, or kills a defender bled to death.  Returns whether the
      defender died. */
  method Strike(c: Creature, a: Creature, part: BodyPart, dam: real, blow: Blow) returns (died: bool)
    requires c.Valid() && (blow == Dissipated || blow.Maimed? || blow == Bled)
    requires blow.Maimed? ==> blow.part == part && NumGood(c, part) > 0
    modifies c`health, c`lastAttacker, c`dead, c`body, c`collapsed, c`weapon, c`permanentEffects, a`kills
    ensures c.Valid() && c.lastAttacker == a
    ensures blow == Dissipated ==> died && c.body == old(c.body) && c.health == old(c.health) - Bleeding(c, dam)
    ensures blow.Maimed? ==>
              && c.body == Wound(old(c.body), part, blow.drop)
              && (died <==> IsCritical(c, part))
              && (!died ==> c.health > 0.0)
    ensures blow.Maimed? ==>
              WoundOutcome(part, old(Active(c.lastingEffects, c.permanentEffects, c.time, Flying)), old(c.collapsed), old(c.weapon), old(c.permanentEffects),
                           c.collapsed, c.weapon, c.permanentEffects, c.body)
    ensures blow.Maimed? ==>
              var h := old(c.health) - Bleeding(c, dam) - WoundFall(part, old(c.permanentEffects), Active(c.lastingEffects, c.permanentEffects, c.time, Flying));
              c.health == if !died && h <= 0.0 then 0.01 else h
    ensures blow == Bled ==> c.body == old(c.body) && c.health == old(c.health) - Bleeding(c, dam) && (died <==> c.health <= 0.0)
    ensures !blow.Maimed? ==>
              c.permanentEffects == old(c.permanentEffects) && c.collapsed == old(c.collapsed) && c.weapon == old(c.weapon)
    ensures died ==> c.dead && a.kills == old(a.kills) + [c]
    ensures !died ==> c.dead == old(c.dead) && a.kills == old(a.kills)
  {
    ghost var flew := c.IsAffected(Flying);
    c.lastAttacker := a;
    c.health := c.health - Bleeding(c, dam);
    match blow
    case Dissipated =>
      c.Die(a);
      died := true;
    case Maimed(_, drop) =>
      assert c.IsAffected(Flying) == flew;
      died := Maim(c, a, part, drop);
    case Bled =>
      if c.health <= 0.0 {
        c.Die(a);
        died := true;
      } else {
        died := false;
      }
  }

  /** Possession: the possessing attacker, noted as an enemy, dies
      uncredited, and the defender goes insane for ten turns. */
  method Possessed(c: Creature, a: Creature)
    requires c.EffectsValid()
    modifies c`privateEnemies, a`lastAttacker, a`dead, c`lastingEffects, c`health
    ensures c.privateEnemies == old(c.privateEnemies) + (if a !in old(c.privateEnemies) && a.tribe != c.tribe then [a] else [])
    ensures c.EffectsValid() && a.dead && a.lastAttacker == null && c.health == old(c.health)
    ensures c.lastingEffects == Extend(old(c.lastingEffects), c.permanentEffects, c.time, Insanity, 10.0, true)
  {
    c.NoteEnemy(a);
    a.Die(null);
    c.AddEffect(Insanity, 10.0);
  }

  /** Before the blow lands: the attacker is noted as an enemy, a passive
      attack marks an adjacent attacker, and an active magic shield absorbs
      five turns' worth. */
  method Brace(c: Creature, a: Creature, adjacent: bool)
    requires c.EffectsValid()
    modifies c`privateEnemies, a`lastAttacker, c`lastingEffects
    ensures c.privateEnemies == old(c.privateEnemies) + (if a !in old(c.privateEnemies) && a.tribe != c.tribe then [a] else [])
    ensures c.EffectsValid()
    ensures c.lastingEffects == Absorb(old(c.lastingEffects), c.permanentEffects, c.time)
    ensures a.lastAttacker == if c.hasPassiveAttack && adjacent then c else old(a.lastAttacker)
  {
    c.NoteEnemy(a);
    if c.hasPassiveAttack && adjacent {
      a.lastAttacker := c;
    }
    if c.IsAffected(MagicShield) {
      c.lastingEffects := c.lastingEffects[EffectIndex(MagicShield) := c.lastingEffects[EffectIndex(MagicShield)] - 5.0];
    }
  }

  /** A blow other than a possession meeting a defender that has braced
      for it: a devouring kills, an absorbed blow only wakes a sleeper, and
      any other blow strikes; a sleeper that survives a blow that did not
      maim wakes up.  Returns whether the defender died. */
  method Impact(c: Creature, a: Creature, part: BodyPart, dam: real, blow: Blow) returns (died: bool)
    requires c.Valid() && blow != Possession
    requires blow.Maimed? ==> blow.part == part && NumGood(c, part) > 0
    modifies c`lastingEffects, c`health, c`lastAttacker, c`dead, c`body,
             c`collapsed, c`weapon, c`permanentEffects, a`kills
    ensures c.Valid()
    ensures blow == Absorbed ==>
              && !died && c.body == old(c.body) && c.health == old(c.health)
              && c.lastingEffects == Cancel(old(c.lastingEffects), c.permanentEffects, c.time, Sleep)
    ensures blow == Devoured ==> died && c.body == old(c.body) && c.health == old(c.health)
    ensures blow == Devoured || blow == Dissipated ==> c.lastingEffects == old(c.lastingEffects)
    ensures blow == Dissipated ==> died && c.body == old(c.body) && c.health == old(c.health) - Bleeding(c, dam)
    ensures blow.Maimed? ==>
              && c.body == Wound(old(c.body), part, blow.drop)
              && (died <==> IsCritical(c, part))
              && (!died ==> c.health > 0.0)
              && c.lastingEffects == old(c.lastingEffects)
              && WoundOutcome(part, old(Active(c.lastingEffects, c.permanentEffects, c.time, Flying)), old(c.collapsed), old(c.weapon), old(c.permanentEffects),
                              c.collapsed, c.weapon, c.permanentEffects, c.body)
    ensures blow.Maimed? ==>
              var h := old(c.health) - Bleeding(c, dam) - WoundFall(part, old(c.permanentEffects), Active(c.lastingEffects, c.permanentEffects, c.time, Flying));
              c.health == if !died && h <= 0.0 then 0.01 else h
    ensures !blow.Maimed? ==>
              c.permanentEffects == old(c.permanentEffects) && c.collapsed == old(c.collapsed) && c.weapon == old(c.weapon)
    ensures blow == Bled ==>
              && c.body == old(c.body)
              && c.health == old(c.health) - Bleeding(c, dam)
              && (died <==> c.health <= 0.0)
              && c.lastingEffects == if died then old(c.lastingEffects) else Cancel(old(c.lastingEffects), c.permanentEffects, c.time, Sleep)
    ensures died ==> c.dead && a.kills == old(a.kills) + [c]
    ensures !died ==> c.dead == old(c.dead) && a.kills == old(a.kills)
    ensures c.lastAttacker == if blow == Absorbed then old(c.lastAttacker) else a
  {
    if blow == Devoured {
      c.Die(a);
      return true;
    }
    died := false;
    if blow != Absorbed {
      died := Strike(c, a, part, dam, blow);
      if died || blow.Maimed? {
        return;
      }
    }
    c.RemoveEffect(Sleep);
  }

  /** A blow other than a possession: the defender braces, then takes
      the `Impact`.  Returns whether the defender died. */
  method Hit(c: Creature, a: Creature, adjacent: bool, part: BodyPart, dam: real, blow: Blow) returns (died: bool)
    requires c.Valid() && blow != Possession
    requires blow.Maimed? ==> blow.part == part && NumGood(c, part) > 0
    modifies c`privateEnemies, c`lastingEffects, c`health, c`lastAttacker, c`dead, c`body,
             c`collapsed, c`weapon, c`permanentEffects, a`kills, a`lastAttacker
    ensures c.Valid()
    ensures c.privateEnemies == old(c.privateEnemies) + (if a !in old(c.privateEnemies) && a.tribe != c.tribe then [a] else [])
    ensures blow == Absorbed ==>
              && !died && c.body == old(c.body) && c.health == old(c.health)
              && c.lastingEffects == Cancel(old(Absorb(c.lastingEffects, c.permanentEffects, c.time)), c.permanentEffects, c.time, Sleep)
    ensures blow == Devoured ==> died && c.body == old(c.body) && c.health == old(c.health)
    ensures blow == Devoured || blow == Dissipated ==> c.lastingEffects == old(Absorb(c.lastingEffects, c.permanentEffects, c.time))
    ensures blow == Dissipated ==> died && c.body == old(c.body) && c.health == old(c.health) - Bleeding(c, dam)
    ensures blow.Maimed? ==>
              && c.body == Wound(old(c.body), part, blow.drop)
              && (died <==> IsCritical(c, part))
              && (!died ==> c.health > 0.0)
              && c.lastingEffects == old(Absorb(c.lastingEffects, c.permanentEffects, c.time))
              && WoundOutcome(part, old(Active(c.lastingEffects, c.permanentEffects, c.time, Flying)), old(c.collapsed), old(c.weapon), old(c.permanentEffects),
                              c.collapsed, c.weapon, c.permanentEffects, c.body)
    ensures blow.Maimed? ==>
              var h := old(c.health) - Bleeding(c, dam) - WoundFall(part, old(c.permanentEffects), Active(c.lastingEffects, c.permanentEffects, c.time, Flying));
              c.health == if !died && h <= 0.0 then 0.01 else h
    ensures !blow.Maimed? ==>
              c.permanentEffects == old(c.permanentEffects) && c.collapsed == old(c.collapsed) && c.weapon == old(c.weapon)
    ensures blow == Bled ==>
              && c.body == old(c.body)
              && c.health == old(c.health) - Bleeding(c, dam)
              && (died <==> c.health <= 0.0)
              && c.lastingEffects == if died then old(Absorb(c.lastingEffects, c.permanentEffects, c.time))
                                     else Cancel(old(Absorb(c.lastingEffects, c.permanentEffects, c.time)), c.permanentEffects, c.time, Sleep)
    ensures died ==> c.dead && c.lastAttacker == a && a.kills == old(a.kills) + [c]
    ensures !died ==> c.dead == old(c.dead)
    ensures !died ==> a.kills == old(a.kills)
    ensures a != c ==>
              a.lastAttacker == if c.hasPassiveAttack && adjacent then c else old(a.lastAttacker)
    ensures blow != Absorbed ==> c.lastAttacker == a
    ensures blow == Absorbed ==>
              c.lastAttacker == if a == c && c.hasPassiveAttack && adjacent then c else old(c.lastAttacker)
  {
    Brace(c, a, adjacent);
    died := Impact(c, a, part, dam, blow);
  }

  /** Landing a blow of `a` whose outcome `blow` is already decided:
      `part` is the part it is aimed at and `dam` its damage.  An attacker
      of another tribe first becomes a private enemy.  Returns whether the
      defender died. */
  method Land(c: Creature, a: Creature, adjacent: bool, part: BodyPart, dam: real, blow: Blow)
    returns (died: bool)
    requires c.Valid()
    requires blow.Maimed? ==> blow.part == part && NumGood(c, part) > 0
    modifies c`privateEnemies, c`lastingEffects, c`health, c`lastAttacker, c`dead, c`body,
             c`collapsed, c`weapon, c`permanentEffects, a`kills, a`dead, a`lastAttacker
    ensures c.Valid()
    ensures c.privateEnemies == old(c.privateEnemies) + (if a !in old(c.privateEnemies) && a.tribe != c.tribe then [a] else [])
    ensures blow == Possession ==>
              && !died && a.dead && a.lastAttacker == null
              && c.body == old(c.body) && c.health == old(c.health)
              && c.lastingEffects == Extend(old(c.lastingEffects), c.permanentEffects, c.time, Insanity, 10.0, true)
    ensures blow == Absorbed ==>
              && !died && c.body == old(c.body) && c.health == old(c.health)
              && c.lastingEffects == Cancel(old(Absorb(c.lastingEffects, c.permanentEffects, c.time)), c.permanentEffects, c.time, Sleep)
    ensures blow == Devoured ==> died && c.body == old(c.body) && c.health == old(c.health)
    ensures blow == Devoured || blow == Dissipated ==> c.lastingEffects == old(Absorb(c.lastingEffects, c.permanentEffects, c.time))
    ensures blow == Dissipated ==> died && c.body == old(c.body) && c.health == old(c.health) - Bleeding(c, dam)
    ensures blow.Maimed? ==>
              && c.body == Wound(old(c.body), part, blow.drop)
              && (died <==> IsCritical(c, part))
              && (!died ==> c.health > 0.0)
              && c.lastingEffects == old(Absorb(c.lastingEffects, c.permanentEffects, c.time))
              && WoundOutcome(part, old(Active(c.lastingEffects, c.permanentEffects, c.time, Flying)), old(c.collapsed), old(c.weapon), old(c.permanentEffects),
                              c.collapsed, c.weapon, c.permanentEffects, c.body)
    ensures blow.Maimed? ==>
              var h := old(c.health) - Bleeding(c, dam) - WoundFall(part, old(c.permanentEffects), Active(c.lastingEffects, c.permanentEffects, c.time, Flying));
              c.health == if !died && h <= 0.0 then 0.01 else h
    ensures !blow.Maimed? ==>
              c.permanentEffects == old(c.permanentEffects) && c.collapsed == old(c.collapsed) && c.weapon == old(c.weapon)
    ensures blow == Bled ==>
              && c.body == old(c.body)
              && c.health == old(c.health) - Bleeding(c, dam)
              && (died <==> c.health <= 0.0)
              && c.lastingEffects == if died then old(Absorb(c.lastingEffects, c.permanentEffects, c.time))
                                     else Cancel(old(Absorb(c.lastingEffects, c.permanentEffects, c.time)), c.permanentEffects, c.time, Sleep)
    ensures died ==> c.dead && c.lastAttacker == a && a.kills == old(a.kills) + [c]
    ensures !died && (blow != Possession || a != c) ==> c.dead == old(c.dead)
    ensures !died ==> a.kills == old(a.kills)
    ensures blow != Possession && a != c ==> a.dead == old(a.dead)
    ensures blow != Possession && a != c ==>
              a.lastAttacker == if c.hasPassiveAttack && adjacent then c else old(a.lastAttacker)
    ensures blow != Possession && blow != Absorbed ==> c.lastAttacker == a
    ensures blow == Absorbed ==>
              c.lastAttacker == if a == c && c.hasPassiveAttack && adjacent then c else old(c.lastAttacker)
    ensures blow == Possession ==> c.lastAttacker == if a == c then null else old(c.lastAttacker)
  {
    if blow == Possession {
      Possessed(c, a);
      return false;
    }
    died := Hit(c, a, adjacent, part, dam, blow);
  }

  /** The damage an attack does against `defense`: `BlowDamage` when the
      strength beats it, none otherwise; it is positive exactly when the
      strength beats the defense and the defender takes damage at all. */
  function DamageOf(c: Creature, attack: Attack, defense: int): (r: real)
    requires defense >= 0
    ensures attack.strength <= defense ==> r == 0.0
    ensures c.damageMultiplier >= 0.0 ==> r >= 0.0
    ensures r > 0.0 <==> attack.strength > defense && c.damageMultiplier > 0.0
  {
    if attack.strength > defense then BlowDamage(attack.strength, defense, c.damageMultiplier) else 0.0
  }

  /** Receiving a blow, with the defender's defense modifier computed from
      its state, `defEquip` and `strBase` (`GetModifier`'s defense case).
      `adjacent` says whether the attacker stands next to the defender (for
      a passive attack), `devourRoll` and `backRoll` are the one-in-three
      rolls of devouring and of a backstab hitting the back, `roll` and
      `armRoll` the draws of the hit part.  The blow's outcome is decided
      on the state before it lands, and `Land` carries it out.  Returns
      whether the defender died and the outcome. */
  method TakeDamage(c: Creature, attack: Attack, defEquip: int, strBase: int,
                    adjacent: bool, devourRoll: bool, backRoll: bool, roll: nat, armRoll: nat)
    returns (died: bool, blow: Blow)
    requires c.Valid()
    modifies c`privateEnemies, c`lastingEffects, c`health, c`lastAttacker, c`dead, c`body,
             c`collapsed, c`weapon, c`permanentEffects,
             attack.attacker`kills, attack.attacker`dead, attack.attacker`lastAttacker
    ensures c.Valid()
    ensures c.privateEnemies == old(c.privateEnemies) +
              (if attack.attacker !in old(c.privateEnemies) && attack.attacker.tribe != c.tribe
               then [attack.attacker] else [])
    ensures blow == old(BlowOf(c, attack, DefenseModifier(c, defEquip, strBase), devourRoll, backRoll, roll, armRoll))
    ensures blow == Possession ==> !died && attack.attacker.dead && c.body == old(c.body)
    ensures blow == Absorbed ==> !died && c.body == old(c.body) && c.health == old(c.health)
    ensures blow == Devoured || blow == Dissipated ==> died && c.body == old(c.body)
    ensures blow.Maimed? ==>
              && c.body == Wound(old(c.body), blow.part, blow.drop)
              && (died <==> IsCritical(c, blow.part))
              && (!died ==> c.health > 0.0)
              && WoundOutcome(blow.part, old(Active(c.lastingEffects, c.permanentEffects, c.time, Flying)),
                              old(c.collapsed), old(c.weapon), old(c.permanentEffects),
                              c.collapsed, c.weapon, c.permanentEffects, c.body)
    ensures !blow.Maimed? ==>
              c.permanentEffects == old(c.permanentEffects) && c.collapsed == old(c.collapsed) && c.weapon == old(c.weapon)
    ensures blow == Bled ==> c.body == old(c.body) && (died <==> c.health <= 0.0)
    ensures var dam := old(DamageOf(c, attack, DefenseModifier(c, defEquip, strBase)));
            blow == Bled || blow == Dissipated ==> c.health == old(c.health) - Bleeding(c, dam)
    ensures blow == Devoured || blow == Possession ==> c.health == old(c.health)
    ensures blow == Possession ==>
              c.lastingEffects == Extend(old(c.lastingEffects), c.permanentEffects, c.time, Insanity, 10.0, true)
    ensures blow != Possession ==>
              var braced := old(Absorb(c.lastingEffects, c.permanentEffects, c.time));
              c.lastingEffects == if blow == Absorbed || (blow == Bled && !died) then Cancel(braced, c.permanentEffects, c.time, Sleep) else braced
    ensures blow.Maimed? ==>
              var h := old(c.health) - Bleeding(c, old(DamageOf(c, attack, DefenseModifier(c, defEquip, strBase))))
                       - WoundFall(blow.part, old(c.permanentEffects), Active(c.lastingEffects, c.permanentEffects, c.time, Flying));
              c.health == if !died && h <= 0.0 then 0.01 else h
    ensures died ==> c.dead && c.lastAttacker == attack.attacker && attack.attacker.kills == old(attack.attacker.kills) + [c]
    ensures !died && (blow != Possession || attack.attacker != c) ==> c.dead == old(c.dead)
    ensures !died ==> attack.attacker.kills == old(attack.attacker.kills)
    ensures blow == Possession ==> attack.attacker.lastAttacker == null
    ensures blow != Possession && attack.attacker != c ==>
              && attack.attacker.dead == old(attack.attacker.dead)
              && attack.attacker.lastAttacker == if c.hasPassiveAttack && adjacent then c else old(attack.attacker.lastAttacker)
    ensures blow != Possession && blow != Absorbed ==> c.lastAttacker == attack.attacker
    ensures blow == Absorbed ==>
              c.lastAttacker == if attack.attacker == c && c.hasPassiveAttack && adjacent then c else old(c.lastAttacker)
    ensures blow == Possession ==> c.lastAttacker == if attack.attacker == c then null else old(c.lastAttacker)
  {
    var defense := DefenseModifier(c, defEquip, strBase);
    var part := TargetPart(c, attack, backRoll, roll, armRoll);
    blow := BlowOf(c, attack, defense, devourRoll, backRoll, roll, armRoll);
    var dam := DamageOf(c, attack, defense);
    died := Land(c, attack.attacker, adjacent, part, dam, blow);
  }

  /** Health lost over `delta` turns by a creature below half health. */
  function BleedOut(health: real, delta: real): (r: real)
    ensures health >= 0.5 ==> r == health
    ensures health < 0.5 && delta > 0.0 ==> r < health
  {
    if health < 0.5 then health - delta / 40.0 else health
  }

  /** Whether a creature that is not alive has four or more injured or
      lost parts and so falls apart. */
  predicate FallsApart(c: Creature)
    reads c`body
    requires c.body.Valid()
    ensures FallsApart(c) ==> c.IsNotLiving()
    ensures (forall p :: c.body.Injured(p) == 0 && c.body.Lost(p) == 0) ==> !FallsApart(c)
  {
    UnwoundedSumsZero(c.body);
    c.IsNotLiving() && PartSum(c.body.injured, NumParts) + PartSum(c.body.lost, NumParts) >= 4
  }

  /** The end of a tick, `delta` turns after the previous one: a creature
      that falls apart dies; otherwise it bleeds while below half health and
      dies once health is gone.  Death is credited to the last attacker,
      even for a creature already dead. */
  method Decay(c: Creature, delta: real) returns (died: bool)
    requires c.Valid()
    modifies c`health, c`dead, c`lastAttacker, (if c.lastAttacker != null then {c.lastAttacker} else {})`kills
    ensures c.Valid()
    ensures c.health == if FallsApart(c) then old(c.health) else BleedOut(old(c.health), delta)
    ensures died <==> FallsApart(c) || c.health <= 0.0
    ensures c.dead == (old(c.dead) || died)
    ensures c.lastAttacker == old(c.lastAttacker)
    ensures c.lastAttacker != null ==> c.lastAttacker.kills == old(c.lastAttacker.kills) + (if died then [c] else [])
  {
    var lost := c.LostOrInjuredBodyParts();
    if c.IsNotLiving() && lost >= 4 {
      c.Die(c.lastAttacker);
      return true;
    }
    c.health := BleedOut(c.health, delta);
    died := c.health <= 0.0;
    if died {
      c.Die(c.lastAttacker);
    }
  }

  /** Health lost by the poisoned in one tick. */
  const PoisonBleed: real := 1.0 / 60.0

  /** A game tick at `realTime` after the difficulty update: expired
      effects are swept (flight's end costs its fall), a poisoned creature
      bleeds, the time since the previous tick is taken, and `Decay` ends
      the tick.  Returns whether the creature died. */
  method Advance(c: Creature, realTime: real) returns (died: bool)
    requires c.Valid()
    modifies c`lastingEffects, c`health, c`lastTick, c`dead, c`lastAttacker,
             (if c.lastAttacker != null then {c.lastAttacker} else {})`kills
    ensures c.Valid()
    ensures c.lastingEffects == Expire(old(c.lastingEffects), realTime)
    ensures c.lastTick == realTime
    ensures var swept := old(c.health)
              - (if 0.0 < old(c.lastingEffects[EffectIndex(Flying)]) < realTime && !c.IsAffected(Flying) then 0.1 else 0.0)
              - (if c.IsAffected(Poison) then PoisonBleed else 0.0);
            c.health == if FallsApart(c) then swept else BleedOut(swept, realTime - old(c.lastTick))
    ensures died <==> FallsApart(c) || c.health <= 0.0
    ensures c.dead == (old(c.dead) || died)
    ensures c.lastAttacker == old(c.lastAttacker)
    ensures c.lastAttacker != null ==> c.lastAttacker.kills == old(c.lastAttacker.kills) + (if died then [c] else [])
  {
    c.TickEffects(realTime);
    if c.IsAffected(Poison) {
      c.health := c.health - PoisonBleed;
    }
    var delta := realTime - c.lastTick;
    c.lastTick := realTime;
    died := Decay(c, delta);
  }

  /** The difficulty update that opens a tick, seen from the tick: the
      high-water mark does not go down (`GetDifficultyPoints` says to what
      it rises). */
  method ScoreDifficulty(c: Creature, defEquip: int, accEquip: int, damEquip: int,
                         strBase: int, dexBase: int, speedBase: int)
    requires c.Valid()
    modifies c`difficultyPoints
    ensures c.difficultyPoints >= old(c.difficultyPoints)
  {
    var _ := GetDifficultyPoints(c, defEquip, accEquip, damEquip, strBase, dexBase, speedBase);
  }

  /** A game tick at `realTime`: the difficulty high-water mark is
      updated, then the tick `Advance`s.  The equipment's own ticks are not
      part of this model.  Returns whether the creature died. */
  method Tick(c: Creature, realTime: real, defEquip: int, accEquip: int, damEquip: int,
              strBase: int, dexBase: int, speedBase: int) returns (died: bool)
    requires c.Valid()
    modifies c`difficultyPoints, c`lastingEffects, c`health, c`lastTick, c`dead, c`lastAttacker,
             (if c.lastAttacker != null then {c.lastAttacker} else {})`kills
    ensures c.Valid()
    ensures c.difficultyPoints >= old(c.difficultyPoints)
    ensures c.lastingEffects == Expire(old(c.lastingEffects), realTime) && c.lastTick == realTime
    ensures var swept := old(c.health)
              - (if 0.0 < old(c.lastingEffects[EffectIndex(Flying)]) < realTime && !c.IsAffected(Flying) then 0.1 else 0.0)
              - (if c.IsAffected(Poison) then PoisonBleed else 0.0);
            c.health == if FallsApart(c) then swept else BleedOut(swept, realTime - old(c.lastTick))
    ensures died <==> FallsApart(c) || c.health <= 0.0
    ensures c.dead == (old(c.dead) || died)
    ensures c.lastAttacker == old(c.lastAttacker)
    ensures c.lastAttacker != null ==> c.lastAttacker.kills == old(c.lastAttacker.kills) + (if died then [c] else [])
  {
    ScoreDifficulty(c, defEquip, accEquip, damEquip, strBase, dexBase, speedBase);
    died := Advance(c, realTime);
  }
}
