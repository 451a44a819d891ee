/** The body model on values: for every kind of body part, at its table
    position, how many instances a creature has, how many of those are
    injured, and how many it has lost. */
module Bodies {
  import opened CreatureEnums

  datatype Tables = Tables(present: seq<int>, injured: seq<int>, lost: seq<int>)
  {
    /** Every table has an entry per part, counts are non-negative, and an
        injured instance is one of the present ones. */
    predicate Valid() {
      && |present| == NumParts && |injured| == NumParts && |lost| == NumParts
      && (forall i :: 0 <= i < NumParts ==> 0 <= injured[i] <= present[i] && lost[i] >= 0)
    }

    function Present(p: BodyPart): int
      requires Valid()
    {
      present[PartIndex(p)]
    }

    function Injured(p: BodyPart): int
      requires Valid()
    {
      injured[PartIndex(p)]
    }

    function Lost(p: BodyPart): int
      requires Valid()
    {
      lost[PartIndex(p)]
    }
  }

  /** One wound to part `p`.  Severing (`drop`) moves an instance from
      present to lost, taking an injury with it when only injured instances
      would remain; otherwise one more instance is injured while an
      uninjured one is left.  A part the creature no longer has is not
      wounded at all. */
  function Wound(b: Tables, p: BodyPart, drop: bool): (r: Tables)
    requires b.Valid()
    ensures r.Valid()
    ensures b.Present(p) == 0 ==> r == b
    ensures r.Present(p) + r.Lost(p) == b.Present(p) + b.Lost(p)
    ensures var i := PartIndex(p);
            && r.present == b.present[i := r.present[i]]
            && r.injured == b.injured[i := r.injured[i]]
            && r.lost == b.lost[i := r.lost[i]]
    ensures b.Present(p) > 0 && drop ==>
              && r.Present(p) == b.Present(p) - 1 && r.Lost(p) == b.Lost(p) + 1
              && b.Injured(p) - 1 <= r.Injured(p) <= b.Injured(p)
    ensures !drop ==> r.present == b.present && r.lost == b.lost && b.Injured(p) <= r.Injured(p) <= b.Injured(p) + 1
    ensures b.Present(p) > 0 && !drop && b.Injured(p) < b.Present(p) ==> r.Injured(p) == b.Injured(p) + 1
  {
    var i := PartIndex(p);
    if b.present[i] == 0 then b
    else if drop then
      var present := b.present[i := b.present[i] - 1];
      var injured := if b.injured[i] > present[i] then b.injured[i := b.injured[i] - 1] else b.injured;
      Tables(present, injured, b.lost[i := b.lost[i] + 1])
    else if b.injured[i] < b.present[i] then Tables(b.present, b.injured[i := b.injured[i] + 1], b.lost)
    else b
  }

  /** `n` successive wounds of the same kind to the same part. */
  function Wounds(b: Tables, p: BodyPart, drop: bool, n: nat): (r: Tables)
    requires b.Valid()
    ensures r.Valid()
  {
    if n == 0 then b else Wound(Wounds(b, p, drop, n - 1), p, drop)
  }

  /** Non-severing wounds never change what is present or lost, and once
      there have been as many as there were uninjured instances, every
      present instance is injured. */
  lemma {:induction false} WoundsSaturate(b: Tables, p: BodyPart, n: nat)
    requires b.Valid()
    ensures Wounds(b, p, false, n).present == b.present
    ensures Wounds(b, p, false, n).lost == b.lost
    ensures Wounds(b, p, false, n).Injured(p) ==
              if b.Injured(p) + n < b.Present(p) then b.Injured(p) + n else b.Present(p)
  {
    if n > 0 {
      WoundsSaturate(b, p, n - 1);
    }
  }

  /** The body after a heal from half health on: every injury is cured and,
      with `replaceLimbs`, every lost count is cleared.  The present counts
      are left as they were. */
  function Healed(b: Tables, replaceLimbs: bool): (r: Tables)
    requires b.Valid()
    ensures r.Valid()
    ensures r.present == b.present
    ensures forall p :: r.Injured(p) == 0
    ensures forall p :: r.Lost(p) == if replaceLimbs then 0 else b.Lost(p)
  {
    Tables(b.present, seq(NumParts, _ => 0), if replaceLimbs then seq(NumParts, _ => 0) else b.lost)
  }

  /** Any body with the same present counts, no injuries and the lost
      counts a heal leaves is the healed body. */
  lemma HealedUnique(b: Tables, r: Tables, replaceLimbs: bool)
    requires b.Valid() && r.Valid() && r.present == b.present
    requires forall p :: r.Injured(p) == 0
    requires forall p :: r.Lost(p) == if replaceLimbs then 0 else b.Lost(p)
    ensures r == Healed(b, replaceLimbs)
  {
    var h := Healed(b, replaceLimbs);
    forall i | 0 <= i < NumParts
      ensures r.injured[i] == h.injured[i] && r.lost[i] == h.lost[i]
    {
      assert r.Injured(PartAt(i)) == 0;
      assert r.Lost(PartAt(i)) == h.Lost(PartAt(i));
    }
    assert r.injured == h.injured;
    assert r.lost == h.lost;
  }

  /** Unlike a wound, a heal that replaces limbs does not conserve the
      present-plus-lost count: a regrown limb is neither lost nor present
      again. */
  lemma HealForgetsLostLimbs(b: Tables, p: BodyPart)
    requires b.Valid() && b.Lost(p) > 0
    ensures Healed(b, true).Present(p) + Healed(b, true).Lost(p) == b.Present(p)
    ensures Healed(b, true).Present(p) + Healed(b, true).Lost(p) < b.Present(p) + b.Lost(p)
  {
  }

  /** Healing twice is healing once. */
  lemma HealIdempotent(b: Tables, replaceLimbs: bool)
    requires b.Valid()
    ensures Healed(Healed(b, replaceLimbs), replaceLimbs) == Healed(b, replaceLimbs)
  {
    var h := Healed(b, replaceLimbs);
    assert Healed(h, replaceLimbs).injured == h.injured;
    assert Healed(h, replaceLimbs).lost == h.lost;
  }

  /** The body after eating a creature with part counts `other` (by table
      position): each present count rises to the other's when that is
      larger. */
  function Grown(b: Tables, other: seq<int>): (r: Tables)
    requires b.Valid() && |other| == NumParts
    ensures r.Valid()
    ensures r.injured == b.injured && r.lost == b.lost
    ensures forall p :: r.Present(p) >= b.Present(p) && r.Present(p) >= other[PartIndex(p)]
    ensures forall p :: r.Present(p) == b.Present(p) || r.Present(p) == other[PartIndex(p)]
  {
    Tables(seq(NumParts, i requires 0 <= i < NumParts => if other[i] > b.present[i] then other[i] else b.present[i]),
           b.injured, b.lost)
  }

  /** Any body with unchanged injured and lost tables whose present counts
      are the pointwise maxima is the grown body. */
  lemma GrownUnique(b: Tables, other: seq<int>, r: Tables)
    requires b.Valid() && r.Valid() && |other| == NumParts
    requires r.injured == b.injured && r.lost == b.lost
    requires forall p :: r.Present(p) == if other[PartIndex(p)] > b.Present(p) then other[PartIndex(p)] else b.Present(p)
    ensures r == Grown(b, other)
  {
    var g := Grown(b, other);
    forall i | 0 <= i < NumParts
      ensures r.present[i] == g.present[i]
    {
      assert r.Present(PartAt(i)) == g.present[i];
    }
    assert r.present == g.present;
  }

  /** Eating the same creature again changes nothing more. */
  lemma GrownIdempotent(b: Tables, other: seq<int>)
    requires b.Valid() && |other| == NumParts
    ensures Grown(Grown(b, other), other) == Grown(b, other)
  {
    var g := Grown(b, other);
    assert Grown(g, other).present == g.present;
  }

  /** Sum of one part table over the first `n` table positions. */
  function PartSum(t: seq<int>, n: nat): int
    requires n <= |t|
  {
    if n == 0 then 0 else PartSum(t, n - 1) + t[n - 1]
  }

  /** A sum over a non-negative table is non-negative, and zero exactly
      when every summed entry is. */
  lemma {:induction false} PartSumZero(t: seq<int>, n: nat)
    requires n <= |t| && forall i :: 0 <= i < |t| ==> t[i] >= 0
    ensures PartSum(t, n) >= 0
    ensures PartSum(t, n) == 0 <==> forall i :: 0 <= i < n ==> t[i] == 0
  {
    if n > 0 {
      PartSumZero(t, n - 1);
    }
  }

  /** A body no part of which is injured or lost sums to no wounds. */
  lemma UnwoundedSumsZero(b: Tables)
    requires b.Valid()
    ensures (forall p :: b.Injured(p) == 0 && b.Lost(p) == 0) ==>
              PartSum(b.injured, NumParts) == 0 && PartSum(b.lost, NumParts) == 0
  {
    PartSumZero(b.injured, NumParts);
    PartSumZero(b.lost, NumParts);
    if forall p :: b.Injured(p) == 0 && b.Lost(p) == 0 {
      forall i | 0 <= i < NumParts
        ensures b.injured[i] == 0 && b.lost[i] == 0
      {
        PartIndexOnto(i);
        assert b.Injured(PartAt(i)) == 0 && b.Lost(PartAt(i)) == 0;
      }
    }
  }
}
