/** The lasting-effect tables as values: for every effect, at its table
    position, an absolute expiry time (0 = none) and a count of permanent
    grants, and what the tracker's operations do to the expiry table. */
module EffectTables {
  import opened CreatureEnums
  import opened CombatRules

  /** Both tables have an entry for every effect. */
  predicate Total(expiry: seq<real>, permanent: seq<nat>) {
    |expiry| == NumEffects && |permanent| == NumEffects
  }

  /** An effect is active while its timed expiry has not passed or while a
      permanent grant holds. */
  predicate Active(expiry: seq<real>, permanent: seq<nat>, now: real, e: LastingEffect)
    requires Total(expiry, permanent)
    ensures permanent[EffectIndex(e)] > 0 ==> Active(expiry, permanent, now, e)
    ensures expiry[EffectIndex(e)] >= now ==> Active(expiry, permanent, now, e)
    ensures expiry[EffectIndex(e)] == 0.0 && now > 0.0 ==>
              (Active(expiry, permanent, now, e) <==> permanent[EffectIndex(e)] > 0)
  {
    expiry[EffectIndex(e)] >= now || permanent[EffectIndex(e)] > 0
  }

  /** The lasting effect whose onset cancels the given one's opposite. */
  function Opposite(e: LastingEffect): Option<LastingEffect> {
    match e
    case Panic => Some(Rage)
    case Rage => Some(Panic)
    case Speed => Some(Slowed)
    case Slowed => Some(Speed)
    case PoisonResistant => Some(Poison)
    case _ => None
  }

  /** Opposites cancel each other both ways, except that poison does not
      cancel poison resistance; no effect cancels itself or flight. */
  lemma OppositeSymmetric(e: LastingEffect, o: LastingEffect)
    requires Opposite(e) == Some(o)
    ensures o != e && o != Flying
    ensures e != PoisonResistant ==> Opposite(o) == Some(e)
  {
  }

  /** Health lost when an effect ends: falling when flight ends. */
  function FallDamage(e: LastingEffect): real {
    if e == Flying then 0.1 else 0.0
  }

  /** The expiry table after an explicit removal: an active effect loses its
      timed part; afterwards (at a positive time) it is active exactly when
      a permanent grant holds, and no other entry changes. */
  function Cancel(expiry: seq<real>, permanent: seq<nat>, now: real,
                  e: LastingEffect): (r: seq<real>)
    requires Total(expiry, permanent)
    ensures Total(r, permanent)
    ensures r == expiry[EffectIndex(e) := r[EffectIndex(e)]]
    ensures now > 0.0 ==> (Active(r, permanent, now, e) <==> permanent[EffectIndex(e)] > 0)
    ensures !Active(expiry, permanent, now, e) ==> r == expiry
    ensures Active(expiry, permanent, now, e) ==> r[EffectIndex(e)] == 0.0
  {
    if Active(expiry, permanent, now, e) then expiry[EffectIndex(e) := 0.0] else expiry
  }

  /** The expiry table after the onset of `e`: its opposite is cancelled,
      so that (at a positive time) it stays active only through a permanent
      grant, and no other entry changes. */
  function Onset(expiry: seq<real>, permanent: seq<nat>, now: real,
                 e: LastingEffect): (r: seq<real>)
    requires Total(expiry, permanent)
    ensures Total(r, permanent)
    ensures Opposite(e).None? ==> r == expiry
    ensures r[EffectIndex(e)] == expiry[EffectIndex(e)]
    ensures forall f :: Opposite(e) != Some(f) ==> r[EffectIndex(f)] == expiry[EffectIndex(f)]
    ensures forall o :: Opposite(e) == Some(o) && now > 0.0 ==>
              (Active(r, permanent, now, o) <==> permanent[EffectIndex(o)] > 0)
  {
    match Opposite(e)
    case None => expiry
    case Some(o) => OppositeSymmetric(e, o); Cancel(expiry, permanent, now, o)
  }

  /** The expiry table after extending `e` to `duration` from now, when the
      creature can take it (`affects`) and the extension is later than the
      current expiry; a fresh onset first cancels the opposite. */
  function Extend(expiry: seq<real>, permanent: seq<nat>, now: real,
                  e: LastingEffect, duration: real, affects: bool): (r: seq<real>)
    requires Total(expiry, permanent)
    ensures Total(r, permanent)
    ensures r[EffectIndex(e)] == if expiry[EffectIndex(e)] < now + duration && affects then now + duration else expiry[EffectIndex(e)]
    ensures !affects || expiry[EffectIndex(e)] >= now + duration ==> r == expiry
  {
    if expiry[EffectIndex(e)] < now + duration && affects then
      (if Active(expiry, permanent, now, e) then expiry else Onset(expiry, permanent, now, e))[EffectIndex(e) := now + duration]
    else expiry
  }

  /** An extension never shortens the effect, and an effect the creature can
      take is active afterwards. */
  lemma ExtendActivates(expiry: seq<real>, permanent: seq<nat>, now: real,
                        e: LastingEffect, duration: real, affects: bool)
    requires Total(expiry, permanent)
    ensures Extend(expiry, permanent, now, e, duration, affects)[EffectIndex(e)] >= expiry[EffectIndex(e)]
    ensures affects && duration >= 0.0 ==> Active(Extend(expiry, permanent, now, e, duration, affects), permanent, now, e)
  {
  }

  /** Only the effect itself and its opposite can change, the opposite only
      on a fresh onset, and then the opposite stays active only through a
      permanent grant: rage and panic, speed and slowness do not overlap in
      their timed parts. */
  lemma {:induction false} ExtendCancelsOpposite(expiry: seq<real>, permanent: seq<nat>,
                                                 now: real, e: LastingEffect, duration: real, affects: bool)
    requires Total(expiry, permanent)
    ensures var r := Extend(expiry, permanent, now, e, duration, affects);
            forall f :: f != e && Opposite(e) != Some(f) ==> r[EffectIndex(f)] == expiry[EffectIndex(f)]
    ensures var r := Extend(expiry, permanent, now, e, duration, affects);
            Opposite(e).Some? && (Active(expiry, permanent, now, e) || !affects || expiry[EffectIndex(e)] >= now + duration) ==>
              r[EffectIndex(Opposite(e).value)] == expiry[EffectIndex(Opposite(e).value)]
    ensures var r := Extend(expiry, permanent, now, e, duration, affects);
            Opposite(e).Some? && affects && expiry[EffectIndex(e)] < now + duration && !Active(expiry, permanent, now, e) && now > 0.0 ==>
              (Active(r, permanent, now, Opposite(e).value) <==> permanent[EffectIndex(Opposite(e).value)] > 0)
  {
    if Opposite(e).Some? {
      OppositeSymmetric(e, Opposite(e).value);
    }
  }

  /** The expiry table after an active magic shield absorbs a blow: the
      shield's expiry moves five turns earlier. */
  function Absorb(expiry: seq<real>, permanent: seq<nat>, now: real): (r: seq<real>)
    requires Total(expiry, permanent)
    ensures Total(r, permanent)
    ensures r == expiry[EffectIndex(MagicShield) := r[EffectIndex(MagicShield)]]
    ensures !Active(expiry, permanent, now, MagicShield) ==> r == expiry
  {
    if Active(expiry, permanent, now, MagicShield)
    then expiry[EffectIndex(MagicShield) := expiry[EffectIndex(MagicShield)] - 5.0]
    else expiry
  }

  /** A timed shield with fewer than five turns left is used up by one blow
      unless a permanent grant holds, and one with more left survives it. */
  lemma ShieldWears(expiry: seq<real>, permanent: seq<nat>, now: real)
    requires Total(expiry, permanent)
    ensures expiry[EffectIndex(MagicShield)] < now + 5.0 && permanent[EffectIndex(MagicShield)] == 0 ==>
              !Active(Absorb(expiry, permanent, now), permanent, now, MagicShield)
    ensures expiry[EffectIndex(MagicShield)] >= now + 5.0 ==>
              Active(Absorb(expiry, permanent, now), permanent, now, MagicShield)
  {
  }

  /** The expiry table after a tick's sweep at `realTime`: every timed
      effect whose expiry has passed is reset to none. */
  function Expire(expiry: seq<real>, realTime: real): (r: seq<real>)
    ensures |r| == |expiry|
    ensures forall i :: 0 <= i < |r| ==> r[i] == if 0.0 < expiry[i] < realTime then 0.0 else expiry[i]
  {
    seq(|expiry|, i requires 0 <= i < |expiry| => if 0.0 < expiry[i] < realTime then 0.0 else expiry[i])
  }

  /** After the sweep, at a time in the past of `realTime`, an effect that
      expired is active only through a permanent grant, one that did not
      expire keeps its entry; sweeping twice is sweeping once. */
  lemma ExpireEnds(expiry: seq<real>, permanent: seq<nat>, now: real, realTime: real)
    requires Total(expiry, permanent) && now > 0.0
    ensures Total(Expire(expiry, realTime), permanent)
    ensures forall e :: 0.0 < expiry[EffectIndex(e)] < realTime ==>
              (Active(Expire(expiry, realTime), permanent, now, e) <==> permanent[EffectIndex(e)] > 0)
    ensures forall e :: !(0.0 < expiry[EffectIndex(e)] < realTime) ==>
              Expire(expiry, realTime)[EffectIndex(e)] == expiry[EffectIndex(e)]
    ensures Expire(Expire(expiry, realTime), realTime) == Expire(expiry, realTime)
  {
    var r := Expire(expiry, realTime);
    assert Expire(r, realTime) == r;
  }
}
