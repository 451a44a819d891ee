/** Questions asked of a creature's body in combat: healthy instances,
    critical parts, the damage threshold of a part, the attack levels open
    to it and the part a blow lands on. */
module CreatureQueries {
  import opened CreatureEnums
  import opened CombatRules
  import opened Creatures

  /** Damage a part needs before it is visibly injured (living creatures). */
  function MinDamageTable(p: BodyPart): real {
    match p
    case Wing => 0.3
    case Arm => 0.6
    case Leg => 0.8
    case Head => 0.8
    case Torso => 1.5
    case Back => 1.5
  }

  /** Present instances of a part that are not injured. */
  function NumGood(c: Creature, p: BodyPart): (r: int)
    reads c`body
    requires c.body.Valid()
    ensures 0 <= r <= c.body.Present(p)
    ensures r == 0 <==> c.body.Injured(p) == c.body.Present(p)
  {
    c.body.Present(p) - c.body.Injured(p)
  }

  /** Injured or lost instances of a part. */
  function Damaged(c: Creature, p: BodyPart): (r: int)
    reads c`body
    requires c.body.Valid()
    ensures r >= 0
    ensures r == 0 <==> c.body.Injured(p) == 0 && c.body.Lost(p) == 0
  {
    c.body.Injured(p) + c.body.Lost(p)
  }

  /** Blind from the effect, or from losing every head. */
  predicate IsBlind(c: Creature)
    reads c`lastingEffects, c`permanentEffects, c`time, c`body
    requires c.EffectsValid() && c.body.Valid()
    ensures c.IsAffected(Blind) ==> IsBlind(c)
    ensures c.body.Lost(Head) > 0 && c.body.Present(Head) == 0 ==> IsBlind(c)
    ensures c.body.Present(Head) > 0 || c.body.Lost(Head) == 0 ==> (IsBlind(c) <==> c.IsAffected(Blind))
  {
    c.IsAffected(Blind) || (c.body.Lost(Head) > 0 && c.body.Present(Head) == 0)
  }

  /** A hit to the part kills: torso and back always, the head once no good
      head is left, unless the creature is undead. */
  predicate IsCritical(c: Creature, p: BodyPart)
    reads c`body
    requires c.body.Valid()
    ensures (p == Torso || p == Back) ==> IsCritical(c, p)
    ensures (p == Arm || p == Leg || p == Wing) ==> !IsCritical(c, p)
    ensures p == Head ==> (IsCritical(c, p) <==> !c.undead && NumGood(c, Head) == 0)
  {
    p == Torso || p == Back || (p == Head && NumGood(c, p) == 0 && !c.undead)
  }

  /** Damage a blow must do before it injures the part: the table value,
      halved for the undead. */
  function GetMinDamage(c: Creature, p: BodyPart): (r: real)
    ensures 0.0 < r <= 1.5
    ensures c.undead ==> r * 2.0 == MinDamageTable(p)
    ensures !c.undead ==> r == MinDamageTable(p)
  {
    if c.undead then MinDamageTable(p) / 2.0 else MinDamageTable(p)
  }

  /** The attack levels open to a creature: by size, and only low attacks
      for a humanoid with no good arm. */
  function GetAttackLevels(c: Creature): (r: seq<AttackLevel>)
    reads c`body
    requires c.body.Valid()
    ensures |r| >= 1 && Distinct(r)
    ensures c.humanoid && NumGood(c, Arm) == 0 ==> r == [Low]
    ensures !(c.humanoid && NumGood(c, Arm) == 0) ==>
              && (Low in r <==> c.size != Huge)
              && (Middle in r <==> c.size != Small)
              && (High in r <==> (c.size == Large || c.size == Huge))
  {
    if c.humanoid && NumGood(c, Arm) == 0 then [Low]
    else
      match c.size
      case Small => [Low]
      case Medium => [Low, Middle]
      case Large => [Low, Middle, High]
      case Huge => [Middle, High]
  }

  /** An arm or a wing, never an arm if no good arm is left. */
  function ArmOrWing(c: Creature, roll: nat): (r: BodyPart)
    reads c`body
    requires c.body.Valid()
    ensures r == Arm || r == Wing
    ensures r == Arm ==> NumGood(c, Arm) > 0
    ensures NumGood(c, Arm) > 0 && NumGood(c, Wing) == 0 ==> r == Arm
  {
    if NumGood(c, Arm) == 0 then Wing
    else if NumGood(c, Wing) == 0 then Arm
    else ChooseWeighted([Wing, Arm], [1, 1], roll % 2)
  }

  /** The part hit on a flying creature: any but the back, wings doubly
      likely. */
  function FlyingTarget(roll: nat): (r: BodyPart)
    ensures r != Back
  {
    ChooseWeighted([Torso, Head, Leg, Wing, Arm], [1, 1, 1, 2, 1], roll % 6)
  }

  /** The part a middle blow hits on a creature on the ground: the head of
      a small, medium or felled creature, else the torso, an arm or a wing. */
  function MiddleTarget(c: Creature, roll: nat, armRoll: nat): (r: BodyPart)
    reads c`body, c`collapsed
    requires c.body.Valid()
    ensures r == Arm ==> NumGood(c, Arm) > 0
    ensures if c.size == Small || c.size == Medium || c.collapsed then r == Head else r in {Torso, Arm, Wing}
  {
    if c.size == Small || c.size == Medium || c.collapsed then Head
    else ChooseWeighted([Torso, ArmOrWing(c, armRoll)], [1, 1], roll % 2)
  }

  /** The part a low blow hits on a creature on the ground: any but the
      back for a small or felled creature, the torso, an arm or a wing or
      (thrice as likely) a leg for a medium one, else a leg. */
  function LowTarget(c: Creature, roll: nat, armRoll: nat): (r: BodyPart)
    reads c`body, c`collapsed
    requires c.body.Valid()
    ensures r != Back
    ensures r == Arm ==> NumGood(c, Arm) > 0
    ensures c.size != Small && c.size != Medium && !c.collapsed ==> r == Leg
  {
    if c.size == Small || c.collapsed then ChooseWeighted([Torso, ArmOrWing(c, armRoll), Head, Leg], [1, 1, 1, 1], roll % 4)
    else if c.size == Medium then ChooseWeighted([Torso, ArmOrWing(c, armRoll), Leg], [1, 1, 3], roll % 5)
    else Leg
  }

  /** The part a blow at the given level hits; `roll` and `armRoll` stand
      for the random draws. */
  function GetBodyPart(c: Creature, level: AttackLevel, roll: nat, armRoll: nat): (r: BodyPart)
    reads c`lastingEffects, c`permanentEffects, c`time, c`body, c`collapsed
    requires c.EffectsValid() && c.body.Valid()
    ensures r != Back
    ensures !c.IsAffected(Flying) && r == Arm ==> NumGood(c, Arm) > 0
    ensures !c.IsAffected(Flying) && level == High ==> r == Head
    ensures !c.IsAffected(Flying) && level == Middle ==>
              (if c.size == Small || c.size == Medium || c.collapsed then r == Head else r in {Torso, Arm, Wing})
    ensures !c.IsAffected(Flying) && level == Low && c.size != Small && c.size != Medium && !c.collapsed ==> r == Leg
  {
    if c.IsAffected(Flying) then FlyingTarget(roll)
    else
      match level
      case High => Head
      case Middle => MiddleTarget(c, roll, armRoll)
      case Low => LowTarget(c, roll, armRoll)
  }
}
