# KeeperRL creature status, combat and technology model

This project models two parts of KeeperRL, a dungeon-keeper roguelike.

The first is the status and combat bookkeeping of a creature (`creature.cpp`):

- **Lasting effects.** The tracker keeps, per effect, a timed expiry and a count of permanent grants. It covers onset, removal, timeout, mutually exclusive pairs, and the expiry sweep of a game tick.
- **Body model.** Each kind of body part has a present, injured and lost count. The model covers wounding, severing, critical parts, healing and growing parts by eating.
- **Combat statistics.** Attributes and modifiers, penalties for simultaneous attackers, dodging, the part a blow lands on, and the whole branch structure of taking a blow.
- **Relations.** The standing a creature has toward another, and the symmetric hostility test built from two standings.
- **Progression.** Morale with its overrides, the difficulty high-water mark, death and kill credit.
- **The game tick.** Effects expire, poison bleeds, a low-health creature bleeds out, and a non-living creature can fall apart.

The second is the technology prerequisite graph (`technology.cpp`): learnability from a collection of known technologies, the next learnable layer, the reverse edges, and the layered research order. The game's own registry of fourteen technologies is included as data.

The model has these modules:

- `CreatureEnums` (`enums.dfy`): the enumerations and their table positions.
- `CombatRules` (`rules.dfy`): pure rules — penalties, C-style truncation, the morale clamp, weighted choice over a supplied roll, and the standing calculus.
- `EffectTables` (`effects.dfy`): the effect tables as values and what each tracker operation does to them.
- `Bodies` (`body.dfy`): the body tables as values.
- `Creatures` (`creature.dfy`): the `Creature` class, whose fields are updated in place by its methods.
- `CreatureQueries` (`queries.dfy`): body queries asked in combat.
- `Relations` (`relations.dfy`): standing and hostility.
- `CreatureStats` (`stats.dfy`): attributes, modifiers, dodging and difficulty.
- `Combat` (`combat.dfy`): taking a blow and the game tick.
- `Technologies` (`technology.dfy`): the technology graph.

Conventions:

- **Random draws are parameters.** This covers the one-in-three rolls of devouring and backstabbing and the weighted choices of a hit part.
- **Outside inputs are parameters.** These are whether the defender can see its attacker, whether the attacker is adjacent, the tribes' standings, and the equipment and skill contributions to a modifier.
- **A technology is named by its registry position.** That position is also the registry's listing order.

Behaviours of the code worth noting:

- **Dying.** Nothing guards against dying twice. Each call to `die` appends to the attacker's kills again, and a tick that bleeds an already dead creature credits its last attacker once more (`Creatures.Creature.Die`, `Combat.Decay`).
- **Sleep after a blow.** A blow clears sleep only on the bleeding and absorbed paths. A blow that maims, kills or dissolves returns before clearing it (`Combat.Impact`).
- **The body invariant.** The invariant that holds is injured ≤ present for each part (`Bodies.Tables.Valid`), not injured + lost ≤ present.
- **Body parts are picked for corporeal defenders.** Only a corporeal defender gets a hit part; an uncorporeal one dissolves instead (`Combat.ClassifyBlow`).
- **The shield is counted before it wears.** The defense a blow meets includes the magic shield's twenty, and the shield wears five turns only after the defense is taken (`Combat.TakeDamage`).
- **Regrown limbs.** A heal that regrows limbs clears the lost counts but does not put the limbs back among the present ones (`Bodies.HealForgetsLostLimbs`).

## Model

| member | source | states |
|---|---|---|
| Creatures.Creature.Affects | creature.cpp:651-659 | rage and panic take hold exactly when not asleep; poison exactly when neither poison resistant nor non-living; entanglement exactly when corporeal; every other effect always |
| Creatures.Creature.OnAffected | creature.cpp:661-714 | the onset leaves health unchanged and the expiry table becomes `Onset` of the old one: the opposite of the new effect is removed |
| Creatures.Creature.IsAffected | creature.cpp:799-801 | a permanent grant makes the effect active, so does an expiry not yet passed; with no timed entry, at a positive time, the effect is active exactly when granted |
| EffectTables.Active | creature.cpp:799-801 | the same three facts on the tables as values |
| EffectTables.Onset | creature.cpp:661-714 | an effect with no opposite changes nothing; no entry but the opposite's changes, the new effect's own included; at a positive time the opposite then stays active exactly when it has a permanent grant |
| EffectTables.OppositeSymmetric | creature.cpp:669-709 | rage/panic and speed/slowness cancel each other both ways; poison resistance cancels poison but not conversely; no effect cancels itself or flight |
| Creatures.Creature.OnRemoved | creature.cpp:716-725 | an explicit removal costs what a timeout costs (the fall from flight); a cure of poison goes through the removal path and costs nothing |
| Creatures.Creature.OnTimedOut | creature.cpp:727-763 | the only health consequence of an effect ending is the 0.1 fall when flight ends |
| Creatures.Creature.AddEffect | creature.cpp:765-771 | health unchanged; the expiry table becomes `Extend` of the old one, with the effect's permission taken before the onset |
| EffectTables.Extend | creature.cpp:765-771 | the effect's expiry becomes now + duration exactly when that extends it and the creature can take it; a forbidden or non-extending call changes nothing |
| EffectTables.ExtendActivates | creature.cpp:765-771 | an extension never shortens the expiry, and a permitted non-negative extension leaves the effect active |
| EffectTables.ExtendCancelsOpposite | creature.cpp:661-714 | only the effect and its opposite change; the opposite changes only on a fresh onset, after which it stays active only through a permanent grant |
| Creatures.Creature.RemoveEffect | creature.cpp:773-779 | the expiry table becomes `Cancel` of the old one; health falls by the effect's consequence exactly when the removal ended it |
| EffectTables.Cancel | creature.cpp:773-801 | a no-op on an inactive effect; otherwise only the effect's entry changes and is reset to none, so a later sweep does not time it out again; at a positive time the effect stays active exactly when it has a permanent grant |
| Creatures.Creature.AddPermanentEffect | creature.cpp:781-785 | the grant count rises by one, the effect is active afterwards, and an onset (cancelling the opposite) happens only if it was inactive |
| Creatures.Creature.RemovePermanentEffect | creature.cpp:787-792 | the count falls by one and never below zero (the fatal check is the precondition); the effect's consequence follows when it thereby ends |
| CreatureQueries.IsBlind | creature.cpp:807-809 | the blindness effect blinds, and so does having lost every head with none left; while a head remains or none was lost, blindness is exactly the effect |
| EffectTables.Expire | creature.cpp:1039-1044 | every timed entry whose expiry has passed is reset to none and every other entry is kept |
| EffectTables.ExpireEnds | creature.cpp:1039-1044 | after the sweep an expired effect is active exactly when a permanent grant holds; unexpired entries are kept; sweeping twice is sweeping once |
| Creatures.Creature.SweepEffect | creature.cpp:1039-1044 | one table position is reset if expired, and its effect times out if nothing else keeps it |
| Creatures.Creature.TickEffects | creature.cpp:1039-1044 | the sweep loop leaves the table as `Expire` of the old one; health falls by 0.1 exactly when flight expired with no grant left |
| EffectTables.Absorb | creature.cpp:1331-1334 | only the magic shield's entry changes, and an inactive shield changes nothing |
| EffectTables.ShieldWears | creature.cpp:1331-1334 | a shield with under five turns left and no grant is used up by one blow; one with five or more survives it |
| CombatRules.SimulAttackPen | creature.cpp:829-832 | the penalty is never negative and is zero for at most one attacker |
| CombatRules.SimulAttackPenStep | creature.cpp:829-832 | each attacker after the first costs exactly two more points |
| CombatRules.TruncToZero | creature.cpp:841-842 | conversion of a double to an int truncates toward zero |
| CreatureStats.InjuryPenalty | creature.cpp:815-827 | the penalty is never negative, and zero exactly when no arm, leg, wing or head is injured or lost |
| CreatureStats.WoundScalingLowers | creature.cpp:841-842 | scaling an attribute by 0.666 + health/3 while wounded never raises a non-negative value |
| CreatureStats.GetAttr | creature.cpp:834-869 | strength and dexterity are bounded by base + bonus − part penalties − attacker penalty, and equal base + bonus for an unhurt creature facing one attacker |
| CreatureStats.AccuracyBonus | creature.cpp:871-876 | never positive; zero without a weapon or with enough strength, else the strength shortfall |
| CreatureStats.GetModifier | creature.cpp:878-930 | every modifier but the inventory limit is floored at zero; defense is `DefenseModifier`; damage adds strength, the bare-handed damage without a weapon and the mood shift; fired and thrown damage add dexterity and the mood shift; fired and thrown accuracy add dexterity; accuracy adds the weapon's strength shortfall and dexterity and is zero while asleep; the inventory limit is 1000000 for a carry-anything creature and otherwise twice the strength |
| CreatureStats.MoodShift | creature.cpp:886-901 | the shift is 0 or ±3: positive exactly under rage without panic, negative exactly under panic without rage |
| CreatureStats.DefenseModifier | creature.cpp:903-913 | never negative; awake, strength and equipment less the mood shift (panic raises, rage lowers) plus twenty under an active shield, floored at zero; asleep, the non-negative part is cut to 0.66 of itself truncated toward zero before the shield's twenty, and a negative one adds nothing beyond the shield |
| CreatureStats.GetDifficultyPoints | creature.cpp:2126-2131 | the mark never decreases, is at least the current difficulty, and is either its old value or the current difficulty |
| CreatureStats.DifficultyNow | creature.cpp:2127-2129 | the current difficulty is at least a tenth of the speed, truncated, since the three modifiers are never negative |
| CreatureStats.DodgeAttack | creature.cpp:1280-1291 | the attack count always rises by one; an unseen attacker is remembered and never dodged; a cross-tribe attacker is added to the private enemies at most once; a dodge happens exactly when the attacker is seen and its accuracy is at most the defender's accuracy |
| CombatRules.ScanChecks | creature.cpp:975-979 | the scan result is the start or the standing of a check with a verdict that weighs strictly more than the start and than every earlier check with a verdict, so the first of equally heavy checks wins; it weighs at least as much as every check with a verdict |
| CombatRules.PrivateEnemyWins | creature.cpp:968-981 | a private enemy keeps standing −1 at weight 1 unless a check with a verdict weighs strictly more |
| Relations.GetStanding | creature.cpp:968-981 | the loop computes the scan of the enemy checks from the tribe's or the private-enemy standing, with non-negative weight |
| CombatRules.Resolve | creature.cpp:996-1002 | the heavier standing wins, and on a tie the more hostile one |
| CombatRules.ResolveSymmetric | creature.cpp:996-1002 | combining two standings does not depend on which side asks |
| Relations.IsEnemy | creature.cpp:991-1004 | no creature is its own enemy; an insane creature is hostile to everyone else |
| Relations.IsEnemySymmetric | creature.cpp:991-1004 | between two sane creatures hostility is mutual |
| Bodies.Wound | creature.cpp:1172-1186 | a missing part is not wounded; only the part's entries change; severing moves one instance from present to lost, and present + lost is conserved; without severing an instance becomes injured exactly when an uninjured one is left; injured ≤ present is kept |
| Bodies.WoundsSaturate | creature.cpp:1185-1186 | repeated non-severing wounds injure one more instance each time until every present instance is injured |
| Creatures.Creature.WoundConsequences | creature.cpp:1187-1209 | a leg wound fells a creature that does not fly; an arm wound drops the weapon; a wing wound takes one grant of flight and fells a creature short of sound legs; nothing else changes |
| Creatures.Creature.InjureBodyPart | creature.cpp:1172-1214 | the body becomes `Wound` of the old one, with the part's consequences; nothing at all happens to a part the creature no longer has |
| CreatureQueries.NumGood | creature.cpp:2081-2083 | the good instances are between zero and the present count, and none is good exactly when every present instance is injured |
| CreatureQueries.IsCritical | creature.cpp:1307-1310 | torso and back are always critical; arms, legs and wings never; a head exactly when the creature is not undead and has no good head |
| CreatureQueries.GetMinDamage | creature.cpp:1293-1305 | the part's threshold from the table, halved for the undead, and always in (0, 1.5] |
| CreatureQueries.GetAttackLevels | creature.cpp:1868-1879 | at least one level and no repeats; only low for a humanoid with no good arm; otherwise low unless huge, middle unless small, high only for large and huge |
| CreatureQueries.ArmOrWing | creature.cpp:1068-1074 | an arm or a wing, never an arm without a good arm, and an arm when no good wing is left |
| CreatureQueries.FlyingTarget | creature.cpp:1077-1078 | a flying creature is never hit in the back |
| CreatureQueries.MiddleTarget | creature.cpp:1082-1086 | a middle blow hits the head of a small, medium or felled creature, else the torso, an arm or a wing |
| CreatureQueries.LowTarget | creature.cpp:1087-1093 | a low blow never hits the back, and hits the leg of a large or huge standing creature |
| CreatureQueries.GetBodyPart | creature.cpp:1076-1096 | never the back; for a creature on the ground, a high blow hits the head, middle and low blows hit as their targets say, and never an arm without a good arm (a flyer can be hit in any arm) |
| CombatRules.ChooseWeighted | creature.cpp:1073-1091 | the weighted choice returns one of the options |
| CombatRules.ChooseWeightedPositive | creature.cpp:1073-1091 | the choice is never an option of weight zero, and the first band picks the first option |
| Creatures.Creature.LostOrInjuredBodyParts | creature.cpp:2068-2075 | the two loops sum the injured and the lost tables; the result is non-negative and zero exactly when nothing is injured or lost |
| Bodies.PartSumZero | creature.cpp:2068-2075 | a sum of a non-negative table is non-negative and zero exactly when every entry is |
| Bodies.UnwoundedSumsZero | creature.cpp:2068-2075 | a body with no injured and no lost instance of any part sums to zero in both tables |
| Creatures.Creature.ClearInjury | creature.cpp:1517-1524 | the part's injuries are cured, and a felled creature stands when a leg heals and no leg is lost |
| Creatures.Creature.ClearInjuries | creature.cpp:1516-1524 | the loop cures every injury and leaves present and lost counts unchanged |
| Creatures.Creature.RegrowLimb | creature.cpp:1527-1536 | the part's lost count is cleared; a lost leg lets a felled creature stand; a lost wing restores one grant of flight |
| Creatures.Creature.RegrowLimbs | creature.cpp:1525-1536 | the loop clears every lost count and restores flight exactly when a wing was lost |
| Creatures.Creature.HealParts | creature.cpp:1515-1537 | the body becomes `Healed` of the old one, with the standing-up and flight consequences |
| Bodies.Healed | creature.cpp:1515-1537 | a heal leaves no injury, clears the lost counts exactly when limbs are replaced, and leaves present counts alone |
| Bodies.HealedUnique | creature.cpp:1515-1537 | any body meeting those three conditions is the healed body |
| Bodies.HealIdempotent | creature.cpp:1515-1537 | healing twice is healing once |
| Bodies.HealForgetsLostLimbs | creature.cpp:1525-1536 | a heal that replaces limbs forgets a lost limb instead of restoring it: present + lost drops |
| Creatures.Creature.Heal | creature.cpp:1511-1545 | health rises by the amount up to 1; from half health on the body heals; at full health the last attacker is forgotten; a creature at full health is left alone |
| Creatures.Creature.ConsumeBodyParts | creature.cpp:1822-1831 | the loop leaves the body as `Grown` of the old one |
| Bodies.Grown | creature.cpp:1822-1831 | each present count rises to the eaten creature's when that is larger and is never lowered; injured and lost are kept |
| Bodies.GrownUnique | creature.cpp:1822-1831 | the pointwise maximum is the only such body |
| Bodies.GrownIdempotent | creature.cpp:1822-1831 | eating the same creature again changes nothing more |
| Creatures.Creature.Die | creature.cpp:1613-1632 | the creature is dead, its last attacker is the killer, and a killer's kills gain this creature at the end |
| Creatures.Creature.GetMorale | creature.cpp:1414-1419 | the loop returns the first override with a value, else the stored morale |
| CombatRules.FirstOverride | creature.cpp:1414-1419 | with no override having a value the stored morale is returned; otherwise the value of the first override that has one |
| Creatures.Creature.AddMorale | creature.cpp:1421-1423 | morale moves by the amount, clamped, and stays in [−1, 1] |
| CombatRules.ClampMorale | creature.cpp:1421-1423 | the clamp lands in [−1, 1], keeps values inside it and sends values outside to the nearer bound |
| Creatures.Creature.IsNotLiving | creature.cpp:2021-2023 | the undead and the uncorporeal are not living, and a creature with none of the three flags is |
| Combat.BlowDamage | creature.cpp:1345-1346 | damage is positive for a positive multiplier and zero for a zero one |
| Combat.BlowDamageMonotone | creature.cpp:1345-1346 | against the same positive defense a stronger blow does no less damage; against no defense all blows do the same |
| Combat.DamageOf | creature.cpp:1335-1346 | no damage unless the strength beats the defense; never negative for a non-negative multiplier; positive exactly when the strength beats the defense and the multiplier is positive |
| Combat.ClassifyBlow | creature.cpp:1318-1369 | possession exactly for possessing attacks; a maiming blow beat the defense, is not a spell, and hits the targeted part with a good instance at or over its threshold |
| Combat.ClassifyBlowCases | creature.cpp:1318-1369 | possession exactly for possessing attacks; absorbed exactly when strength does not beat defense; devouring only by an eating attack; spells never maim; an uncorporeal defender is devoured or dissolves; a maiming blow meets the threshold on a good part and severs exactly for cuts, bites and failed eating |
| Combat.TargetPart | creature.cpp:1351 | the back is the target exactly for a backstab whose roll succeeds |
| Combat.BlowOf | creature.cpp:1324-1352 | on the defender's state: possession exactly for possessing attacks, absorbed exactly when strength does not beat the defense, devouring only by a larger eater whose roll succeeds, a maimed part is the targeted one and has a good instance, severing exactly for cuts, bites and failed eating, and an uncorporeal defender is devoured or dissolves |
| Combat.Possessed | creature.cpp:1314-1323 | a cross-tribe attacker becomes a private enemy once; the attacker dies uncredited; the defender's expiry table gains ten turns of insanity as `Extend` says and its health is kept |
| Creatures.Creature.NoteEnemy | creature.cpp:1314-1317 | the private enemies gain the attacker at the end exactly when it is of another tribe and not yet listed; afterwards a cross-tribe attacker is listed |
| Combat.Brace | creature.cpp:1314-1334 | a cross-tribe attacker becomes a private enemy once; a passive attack marks an adjacent attacker; the expiry table becomes `Absorb` of the old one |
| Combat.Maim | creature.cpp:1352-1362 | the body becomes `Wound` of the old one with the wound's consequences (`WoundOutcome`: a leg fells a non-flyer, an arm drops the weapon, a wing takes a grant of flight and fells a creature short of sound legs); health loses the fall when the wing wound ends flight; the defender dies exactly when the part is critical, killed by the attacker; otherwise health stays positive, raised to 0.01 when it was gone |
| Combat.Strike | creature.cpp:1344-1375 | the attacker becomes the last attacker; a living defender bleeds; dissolving kills; maiming as `Maim` says, after the bleed; a blow that only bleeds kills exactly when health is gone; without a maim the flight grants, the felled flag and the weapon are kept |
| Combat.Impact | creature.cpp:1335-1393 | after bracing, per outcome: the new body, health, expiry table, death and last attacker; an absorbed blow and a surviving bleed clear sleep as `Cancel` says; maiming, devouring, dissolving and a bleed to death leave the table as it was; an absorbed blow keeps the last attacker, any other makes it the attacker |
| Combat.Hit | creature.cpp:1314-1393 | a blow other than a possession: the private enemies and the passive-attack mark as `Brace` says, then the outcome as `Impact` says, starting from the shield's wear (`Absorb`), which every outcome but a sleep clear leaves as the final expiry table; a blow the defender survives credits no kill |
| Combat.Land | creature.cpp:1314-1393 | per outcome, the private enemies, body, health, expiry table, wound consequences, death and last attackers: possession makes the defender insane and kills the attacker; an absorbed blow and a surviving bleed clear sleep after the shield's wear; maiming, devouring, dissolving and a bleed to death keep the shield's wear and skip the sleep clear; the attacker becomes the last attacker on every blow that beats the defense; a blow the defender survives leaves it alive and credits no kill; only a possession kills the attacker |
| Combat.TakeDamage | creature.cpp:1312-1394 | the private enemies gain a cross-tribe attacker once; the outcome is `BlowOf` the pre-blow state against its `DefenseModifier`; per outcome, the body, health (the bleed of `DamageOf` that defense, the wing's fall and the 0.01 floor), expiry table (insanity on possession, the shield's wear, then the sleep clear on an absorbed blow or a surviving bleed), wound consequences, death and last attacker follow it; without a maim the flight grants, the felled flag and the weapon are kept; every death is credited to the attacker; a surviving defender keeps its dead flag and the attacker its kills; a possessing attacker dies with no last attacker; any other attacker stays alive and is marked by a passive attack when adjacent |
| Combat.BleedOut | creature.cpp:1057-1060 | a creature at half health or more does not bleed; one below it loses health over a positive time |
| Combat.Decay | creature.cpp:1052-1064 | a non-living creature with four or more injured or lost parts falls apart; otherwise it bleeds, and it dies exactly when health is gone; death is credited to the last attacker |
| Combat.FallsApart | creature.cpp:1052 | only a creature that is not alive falls apart, and never one with no injured or lost part |
| Combat.Advance | creature.cpp:1039-1064 | the expiry table becomes `Expire` of the old one, the last tick becomes now, and health falls by the fall from flight and the poison's 1/60 before decaying over the time since the previous tick |
| Combat.ScoreDifficulty | creature.cpp:1033 | the difficulty mark never decreases |
| Combat.Tick | creature.cpp:1032-1066 | the difficulty mark does not go down; the effects, time, health, death and kill credit are as `Advance` says |
| Technologies.NewTechnology | technology.cpp:68-72 | the prerequisites are stored in the order given, and name, cost and researchability are the arguments |
| Technologies.RemoveFirst | technology.cpp:77 | removing an element takes exactly one occurrence out of the multiset, and nothing if it is absent |
| Technologies.CanLearnFrom | technology.cpp:74-79 | the loop answers whether the prerequisites, with multiplicity, are covered by the collection |
| Technologies.LearnableIff | technology.cpp:74-79 | learnable implies every prerequisite occurs in the collection, and conversely without repeated prerequisites; no prerequisites means always learnable |
| Technologies.FromNothing | technology.cpp:74-79 | only a technology without prerequisites is learnable from nothing |
| Technologies.NextTechs | technology.cpp:60-66 | exactly the registered technologies not yet known and learnable from the current ones, in registry order, without repeats |
| Technologies.NextFromNothing | technology.cpp:60-66 | the first layer is exactly the technologies without prerequisites |
| Technologies.Allowed | technology.cpp:97-103 | exactly the registered technologies that list this one as a prerequisite, in registry order |
| Technologies.NewlyLearnable | technology.cpp:60-103 | learning one more technology makes newly learnable only technologies it allows |
| Technologies.NextNonEmpty | technology.cpp:85-91 | on a well-formed registry, while some technology is unlisted some technology is next, so each round of the loop makes progress |
| Technologies.AppendLayer | technology.cpp:85-91 | appending the next layer keeps the list free of repeats and every technology after its prerequisites |
| Technologies.GetSorted | technology.cpp:85-91 | on an acyclic registry without repeated prerequisites the loop ends and lists every technology exactly once, each after all of its prerequisites |
| Technologies.Init | technology.cpp:35-50 | the game registers fourteen technologies |
| Technologies.InitWellFormed | technology.cpp:35-50 | the game's registry is acyclic and repeats no prerequisite, so the research order exists |
| Technologies.InitCraftingAllows | technology.cpp:40-45 | crafting opens exactly iron working, traps and archery |

## Left out

- Messages, debug output, statistics, view objects and the controller are not modelled. They have no effect on the modelled state.
- Items, equipment and skills are not modelled. Their contributions to attributes and modifiers are integer parameters, and a weapon is reduced to its minimum strength.
- Dropping a weapon, a severed limb or a corpse onto the square is not modelled; the level and square are not part of this model.
- Applying a passive attack or an attack-borne effect (`Effect::applyToCreature`), at creature.cpp:1328, 1384-1389, is not modelled. It is foreign code; only the marking of the attacker is kept.
- Equipment ticks at the start of a tick (creature.cpp:1034-1038) are not modelled; items are not part of this model.
- Each random draw (`Random.roll`, `chooseRandom`) is a parameter. The weighted choice picks the option whose band contains the supplied roll.
- The attacker of a blow is never null. The source reads the attacker's name unconditionally, so a blow without an attacker is not handled there either.
- The creature's header is not part of this model. Messages default to on and the first real time of the previous tick is 0. `isNotLiving` is modelled from creature.cpp:2021-2023.
- technology.h is not part of this model. Its constructor's research flag is taken to default to false, so only the two registrations that pass `true` (technology.cpp:43, 45) are researchable.
- `removeElementMaybe` (util.h, not part of this model) is taken to remove the first occurrence of the element.
- The technology registry is a value passed to each query, not a global singleton. `getName`, `getCost`, `canResearch` and `getPrerequisites` (technology.cpp:52-58, 81-83, 93-95) are the datatype's fields.
- GetSorted: requires an acyclic registry without repeated prerequisites, because on any other registry the source's loop never ends.
- GetAttr: speed is its base value. The speed adjustments for inventory weight, slowness and haste (creature.cpp:858-866) are floating-point and rest on the inventory.
- Tick: states the difficulty update only as never lowering the mark; `GetDifficultyPoints` states the value it rises to.
