/** The small enumerations that index a creature's tables, and the orders
    in which the game iterates over them. */
module CreatureEnums {

  datatype LastingEffect =
    | Sleep | Panic | Rage | Slowed | Speed | StrBonus | DexBonus | Hallu
    | Blind | Invisible | Entangled | Stunned | Poison | PoisonResistant
    | FireResistant | Flying | Insanity | MagicShield

  datatype BodyPart = Back | Wing | Arm | Head | Torso | Leg

  datatype AttackLevel = Low | Middle | High

  datatype AttackType = Cut | Stab | Crush | Punch | Bite | Hit | Shoot | Spell | Possess | Eat

  datatype CreatureSize = Small | Medium | Large | Huge

  datatype AttrType = Strength | Dexterity | SpeedAttr

  datatype ModifierType =
    | Damage | Defense | Accuracy | ThrownDamage | ThrownAccuracy
    | FiredDamage | FiredAccuracy | InvLimit

  /** Every lasting effect once, in declaration order (the order of a sweep). */
  const AllEffects: seq<LastingEffect> :=
    [Sleep, Panic, Rage, Slowed, Speed, StrBonus, DexBonus, Hallu, Blind, Invisible,
     Entangled, Stunned, Poison, PoisonResistant, FireResistant, Flying, Insanity, MagicShield]

  /** Number of lasting effects; the effect tables hold one entry each. */
  const NumEffects: nat := 18

  /** The effect at a table position. */
  function EffectAt(i: nat): LastingEffect
    requires i < NumEffects
  {
    AllEffects[i]
  }

  /** The table position of an effect: its place in declaration order. */
  function EffectIndex(e: LastingEffect): (i: nat)
    ensures i < NumEffects && EffectAt(i) == e
  {
    match e
    case Sleep => 0
    case Panic => 1
    case Rage => 2
    case Slowed => 3
    case Speed => 4
    case StrBonus => 5
    case DexBonus => 6
    case Hallu => 7
    case Blind => 8
    case Invisible => 9
    case Entangled => 10
    case Stunned => 11
    case Poison => 12
    case PoisonResistant => 13
    case FireResistant => 14
    case Flying => 15
    case Insanity => 16
    case MagicShield => 17
  }

  /** Every body part once, in declaration order. */
  const AllParts: seq<BodyPart> := [Back, Wing, Arm, Head, Torso, Leg]

  /** Number of body-part kinds; the body tables hold one entry each. */
  const NumParts: nat := 6

  /** The body part at a table position. */
  function PartAt(i: nat): BodyPart
    requires i < NumParts
  {
    AllParts[i]
  }

  /** The table position of a body part: its place in declaration order. */
  function PartIndex(p: BodyPart): (i: nat)
    ensures i < NumParts && PartAt(i) == p
  {
    match p
    case Back => 0
    case Wing => 1
    case Arm => 2
    case Head => 3
    case Torso => 4
    case Leg => 5
  }

  /** Table positions and effects correspond one to one. */
  lemma EffectIndexOnto(i: nat)
    requires i < NumEffects
    ensures EffectIndex(EffectAt(i)) == i
  {
  }

  /** Table positions and body parts correspond one to one. */
  lemma PartIndexOnto(i: nat)
    requires i < NumParts
    ensures PartIndex(PartAt(i)) == i
  {
  }

  /** No element occurs twice. */
  predicate Distinct<T(==)>(s: seq<T>) {
    forall i, j :: 0 <= i < j < |s| ==> s[i] != s[j]
  }

  lemma AllPartsComplete(p: BodyPart)
    ensures p in AllParts && Distinct(AllParts)
  {
  }

  /** The ordering of creature sizes used by "is larger than". */
  function SizeRank(s: CreatureSize): nat {
    match s
    case Small => 0
    case Medium => 1
    case Large => 2
    case Huge => 3
  }

  predicate IsLarger(a: CreatureSize, b: CreatureSize) {
    SizeRank(a) > SizeRank(b)
  }
}
