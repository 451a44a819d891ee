/** How one creature stands toward another: the overridable standing of its
    tribe, private grudges and the combined hostility test. */
module Relations {
  import opened CreatureEnums
  import opened CombatRules
  import opened Creatures

  /** The standing of `self` toward `c`, given the standing of its tribe. */
  function StandingToward(self: Creature, c: Creature, tribeStanding: real): Standing
    reads self`enemyChecks, self`privateEnemies
  {
    ScanChecks(self.enemyChecks, c, InitialStanding(tribeStanding, c in self.privateEnemies))
  }

  /** The scan of the enemy checks: the heaviest check with an opinion about
      `c` wins over the tribe's standing; a private enemy starts at -1 with
      weight 1. */
  method GetStanding(self: Creature, c: Creature, tribeStanding: real) returns (s: Standing)
    ensures s == StandingToward(self, c, tribeStanding)
    ensures s.weight >= 0.0
    ensures c in self.privateEnemies &&
            (forall k :: 0 <= k < |self.enemyChecks| && c in self.enemyChecks[k].verdicts ==>
               self.enemyChecks[k].weight <= 1.0) ==>
              s == Standing(-1.0, 1.0)
  {
    var bestWeight := 0.0;
    var standing := tribeStanding;
    if c in self.privateEnemies {
      standing := -1.0;
      bestWeight := 1.0;
    }
    var checks := self.enemyChecks;
    for i := 0 to |checks|
      invariant Standing(standing, bestWeight) ==
                  ScanChecks(checks[..i], c, InitialStanding(tribeStanding, c in self.privateEnemies))
    {
      var check := checks[i];
      assert checks[..i + 1][..i] == checks[..i];
      if c in check.verdicts && check.weight > bestWeight {
        standing := check.verdicts[c];
        bestWeight := check.weight;
      }
    }
    assert checks[..|checks|] == checks;
    s := Standing(standing, bestWeight);
    if c in self.privateEnemies &&
       forall k :: 0 <= k < |checks| && c in checks[k].verdicts ==> checks[k].weight <= 1.0 {
      PrivateEnemyWins(checks, c, tribeStanding);
    }
  }

  /** Hostility: an insane creature is hostile to everyone else; otherwise
      the two standings are combined and a negative result means enemy.
      The two tribe standings are supplied by the tribes. */
  function IsEnemy(self: Creature, c: Creature, myTribeStanding: real, hisTribeStanding: real): (r: bool)
    reads self`lastingEffects, self`permanentEffects, self`time, self`enemyChecks, self`privateEnemies,
          c`enemyChecks, c`privateEnemies
    requires self.EffectsValid()
    ensures c == self ==> !r
    ensures self.IsAffected(Insanity) ==> (r <==> c != self)
  {
    if self.IsAffected(Insanity) then c != self
    else c != self && Resolve(StandingToward(self, c, myTribeStanding), StandingToward(c, self, hisTribeStanding)) < 0.0
  }

  /** Between two sane creatures hostility is mutual, each side using its
      own tribe's standing. */
  lemma {:induction false} IsEnemySymmetric(a: Creature, b: Creature, aTribe: real, bTribe: real)
    requires a.EffectsValid() && b.EffectsValid()
    requires !a.IsAffected(Insanity) && !b.IsAffected(Insanity)
    ensures IsEnemy(a, b, aTribe, bTribe) == IsEnemy(b, a, bTribe, aTribe)
  {
    ResolveSymmetric(StandingToward(a, b, aTribe), StandingToward(b, a, bTribe));
  }
}
