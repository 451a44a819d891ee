/** The technology prerequisite graph: a registry of technologies, each
    with a research cost and the technologies it requires, and the queries
    the keeper's research screen asks of it.  A technology is named by its
    position in the registry, which is also the registry's listing order. */
module Technologies {

  type TechId = nat

  datatype Technology = Technology(name: string, cost: int, prerequisites: seq<TechId>, research: bool)

  /** The registered technologies; technology `i` is `reg[i]`. */
  type Registry = seq<Technology>

  /** No id occurs twice. */
  predicate NoDup(s: seq<TechId>) {
    forall i, j :: 0 <= i < j < |s| ==> s[i] != s[j]
  }

  /** Ids in strictly increasing order, that is, in registry order. */
  predicate Increasing(s: seq<TechId>) {
    forall i, j :: 0 <= i < j < |s| ==> s[i] < s[j]
  }

  /** Every id is registered. */
  predicate Registered(reg: Registry, s: seq<TechId>) {
    forall i :: 0 <= i < |s| ==> s[i] < |reg|
  }

  // ----- A single technology -----

  /** Building a technology from its name, cost, prerequisite ids and
      whether it can be researched: the prerequisites are taken one by one
      in the order given, and the getters give back the arguments. */
  method NewTechnology(name: string, cost: int, pre: seq<TechId>, research: bool) returns (t: Technology)
    ensures t.name == name && t.cost == cost && t.research == research
    ensures t.prerequisites == pre
  {
    var prerequisites: seq<TechId> := [];
    for i := 0 to |pre|
      invariant prerequisites == pre[..i]
    {
      prerequisites := prerequisites + [pre[i]];
    }
    t := Technology(name, cost, prerequisites, research);
  }

  /** `s` with the first occurrence of `x`, if any, taken out. */
  function RemoveFirst(s: seq<TechId>, x: TechId): (r: seq<TechId>)
    ensures multiset(r) == multiset(s) - multiset{x}
    ensures x !in s ==> r == s
  {
    if |s| == 0 then s
    else
      assert s == [s[0]] + s[1..];
      if s[0] == x then s[1..] else [s[0]] + RemoveFirst(s[1..], x)
  }

  /** A technology can be learnt from a collection of technologies when
      the collection covers its prerequisites, counted with multiplicity. */
  predicate Learnable(t: Technology, techs: seq<TechId>) {
    multiset(t.prerequisites) <= multiset(techs)
  }

  /** Crosses every technology of `techs` off a copy of the prerequisites;
      learnable when nothing is left. */
  method CanLearnFrom(t: Technology, techs: seq<TechId>) returns (r: bool)
    ensures r == Learnable(t, techs)
  {
    var myPre := t.prerequisites;
    for i := 0 to |techs|
      invariant multiset(myPre) == multiset(t.prerequisites) - multiset(techs[..i])
    {
      assert techs[..i + 1] == techs[..i] + [techs[i]];
      myPre := RemoveFirst(myPre, techs[i]);
    }
    assert techs[..|techs|] == techs;
    r := |myPre| == 0;
    if !r {
      var x :| x in multiset(myPre);
      assert multiset(t.prerequisites)[x] > multiset(techs)[x];
    }
  }

  /** An id that occurs once in `s` has multiplicity one there. */
  lemma {:induction false} SingleOccurrence(s: seq<TechId>, x: TechId)
    requires NoDup(s) && x in s
    ensures multiset(s)[x] == 1
  {
    assert s == [s[0]] + s[1..];
    if s[0] == x {
      assert x !in s[1..] by {
        forall k | 0 <= k < |s| - 1 ensures s[1..][k] != x {
          assert s[k + 1] != s[0];
        }
      }
    } else {
      assert NoDup(s[1..]) by {
        forall i, j | 0 <= i < j < |s| - 1 ensures s[1..][i] != s[1..][j] {
          assert s[i + 1] != s[j + 1];
        }
      }
      SingleOccurrence(s[1..], x);
    }
  }

  /** Learnable means every prerequisite occurs in the collection, and
      conversely when no prerequisite is listed twice; with no
      prerequisites a technology is learnable from anything. */
  lemma LearnableIff(t: Technology, techs: seq<TechId>)
    ensures Learnable(t, techs) ==> forall p :: p in t.prerequisites ==> p in techs
    ensures NoDup(t.prerequisites) ==>
              (Learnable(t, techs) <==> forall p :: p in t.prerequisites ==> p in techs)
    ensures t.prerequisites == [] ==> Learnable(t, techs)
  {
    if Learnable(t, techs) {
      forall p | p in t.prerequisites ensures p in techs {
        assert multiset(t.prerequisites)[p] >= 1;
      }
    }
    if NoDup(t.prerequisites) && forall p :: p in t.prerequisites ==> p in techs {
      forall p | p in multiset(t.prerequisites)
        ensures multiset(t.prerequisites)[p] <= multiset(techs)[p]
      {
        SingleOccurrence(t.prerequisites, p);
      }
    }
  }

  // ----- Queries over the registry -----

  /** The ids from `k` up to `n`, in order, that `keep` accepts. */
  function Select(n: nat, keep: TechId -> bool, k: nat): (r: seq<TechId>)
    requires k <= n
    ensures forall i: TechId :: i in r <==> k <= i < n && keep(i)
    ensures Increasing(r)
    decreases n - k
  {
    if k == n then []
    else
      var rest := Select(n, keep, k + 1);
      assert forall i :: 0 <= i < |rest| ==> k < rest[i] by {
        forall i | 0 <= i < |rest| ensures k < rest[i] {
          assert rest[i] in rest;
        }
      }
      if keep(k) then [k] + rest else rest
  }

  /** The technologies not yet known that can be learnt from `current`,
      in registry order. */
  function NextTechs(reg: Registry, current: seq<TechId>): (r: seq<TechId>)
    ensures forall i: TechId :: i in r <==> i < |reg| && Learnable(reg[i], current) && i !in current
    ensures Increasing(r) && NoDup(r) && Registered(reg, r)
  {
    var r := Select(|reg|, (i: TechId) => i < |reg| && Learnable(reg[i], current) && i !in current, 0);
    assert forall i :: 0 <= i < |r| ==> r[i] in r;
    r
  }

  /** The registered technologies that list technology `id` among their
      prerequisites. */
  function Allowed(reg: Registry, id: TechId): (r: seq<TechId>)
    ensures forall j: TechId :: j in r <==> j < |reg| && id in reg[j].prerequisites
    ensures Increasing(r) && NoDup(r) && Registered(reg, r)
  {
    var r := Select(|reg|, (j: TechId) => j < |reg| && id in reg[j].prerequisites, 0);
    assert forall i :: 0 <= i < |r| ==> r[i] in r;
    r
  }

  /** Learning one more technology `t` makes newly learnable only
      technologies that `t` allows. */
  lemma {:induction false} NewlyLearnable(reg: Registry, current: seq<TechId>, t: TechId, j: TechId)
    requires j in NextTechs(reg, current + [t]) && j !in NextTechs(reg, current)
    ensures j in Allowed(reg, t)
  {
  }

  // ----- The topological order -----

  /** A rank for every technology that strictly decreases along each
      prerequisite edge: the graph has no cycle. */
  predicate Ranked(reg: Registry, rank: seq<nat>) {
    && |rank| == |reg|
    && forall i, p :: 0 <= i < |reg| && p in reg[i].prerequisites ==> p < |reg| && rank[p] < rank[i]
  }

  /** A registry whose prerequisites are registered, listed once each,
      and free of cycles. */
  ghost predicate WellFormed(reg: Registry) {
    && (forall i :: 0 <= i < |reg| ==> NoDup(reg[i].prerequisites))
    && exists rank :: Ranked(reg, rank)
  }

  /** Every technology comes after all of its prerequisites. */
  predicate PrerequisitesFirst(reg: Registry, s: seq<TechId>)
    requires Registered(reg, s)
  {
    forall i :: 0 <= i < |s| ==> forall p :: p in reg[s[i]].prerequisites ==> p in s[..i]
  }

  /** The ids occurring in `s`. */
  function Elements(s: seq<TechId>): set<TechId> {
    set x | x in s
  }

  /** A list has at most as many distinct ids as entries, and exactly as
      many when none repeats. */
  lemma {:induction false} ElementsCard(s: seq<TechId>)
    ensures |Elements(s)| <= |s|
    ensures NoDup(s) ==> |Elements(s)| == |s|
  {
    if |s| > 0 {
      var t := s[1..];
      ElementsCard(t);
      assert Elements(s) == {s[0]} + Elements(t);
      if NoDup(s) {
        assert NoDup(t) by {
          forall a, b | 0 <= a < b < |t| ensures t[a] != t[b] {
            assert s[a + 1] != s[b + 1];
          }
        }
        assert s[0] !in Elements(t) by {
          forall a | 0 <= a < |t| ensures t[a] != s[0] {
            assert s[a + 1] != s[0];
          }
        }
      }
    }
  }

  /** The ids below `n`, in order. */
  function Ids(n: nat): (r: seq<TechId>)
    ensures |r| == n && forall i :: 0 <= i < n ==> r[i] == i
  {
    seq(n, i => i)
  }

  /** The ids below `n`. */
  function Below(n: nat): set<TechId> {
    Elements(Ids(n))
  }

  /** There are `n` ids below `n`, and they are those less than `n`. */
  lemma BelowCard(n: nat)
    ensures |Below(n)| == n
    ensures forall u: TechId :: u in Below(n) <==> u < n
  {
    ElementsCard(Ids(n));
    forall u: TechId | u < n ensures u in Below(n) {
      assert Ids(n)[u] == u;
    }
  }

  /** A subset is no larger, and a subset as large is the whole set. */
  lemma {:induction false} SubsetCard(a: set<TechId>, b: set<TechId>)
    requires a <= b
    ensures |a| <= |b|
    ensures |a| == |b| ==> a == b
    decreases |b|
  {
    if b != {} {
      var x :| x in b;
      SubsetCard(a - {x}, b - {x});
      assert |b - {x}| == |b| - 1;
      if x in a {
        assert |a - {x}| == |a| - 1;
        assert a == (a - {x}) + {x} && b == (b - {x}) + {x};
      } else {
        assert a - {x} == a;
      }
    }
  }

  /** A duplicate-free list of ids below `n` is no longer than `n`, and
      one of length `n` holds every id below `n`. */
  lemma Pigeonhole(s: seq<TechId>, n: nat)
    requires NoDup(s) && forall i :: 0 <= i < |s| ==> s[i] < n
    ensures |s| <= n
    ensures |s| == n ==> forall u: TechId :: u < n ==> u in s
  {
    ElementsCard(s);
    BelowCard(n);
    assert Elements(s) <= Below(n);
    SubsetCard(Elements(s), Below(n));
    if |s| == n {
      assert Elements(s) == Below(n);
      forall u: TechId | u < n ensures u in s {
        assert u in Elements(s);
      }
    }
  }

  /** Following unlearnt prerequisites down the ranks from an unlearnt
      technology ends at one that can be learnt next. */
  lemma {:induction false} Descend(reg: Registry, rank: seq<nat>, ret: seq<TechId>, u: TechId)
    requires Ranked(reg, rank) && (forall i :: 0 <= i < |reg| ==> NoDup(reg[i].prerequisites))
    requires u < |reg| && u !in ret
    ensures exists v :: v in NextTechs(reg, ret)
    decreases rank[u]
  {
    if forall p :: p in reg[u].prerequisites ==> p in ret {
      LearnableIff(reg[u], ret);
      assert u in NextTechs(reg, ret);
    } else {
      var p :| p in reg[u].prerequisites && p !in ret;
      Descend(reg, rank, ret, p);
    }
  }

  /** While some technology is unlearnt, some technology is next. */
  lemma NextNonEmpty(reg: Registry, ret: seq<TechId>)
    requires WellFormed(reg) && NoDup(ret) && Registered(reg, ret) && |ret| < |reg|
    ensures NextTechs(reg, ret) != []
  {
    assert exists u: TechId :: u < |reg| && u !in ret by {
      if forall u: TechId :: u < |reg| ==> u in ret {
        assert Below(|reg|) <= Elements(ret);
        SubsetCard(Below(|reg|), Elements(ret));
        ElementsCard(ret);
        BelowCard(|reg|);
      }
    }
    var u: TechId :| u < |reg| && u !in ret;
    var rank :| Ranked(reg, rank);
    Descend(reg, rank, ret, u);
  }

  /** The research order: layer after layer, every technology that can be
      learnt from those already listed, until all are listed.  On a
      well-formed registry the loop ends, and lists each technology once,
      after all of its prerequisites. */
  method GetSorted(reg: Registry) returns (ret: seq<TechId>)
    requires WellFormed(reg)
    ensures |ret| == |reg| && NoDup(ret) && Registered(reg, ret)
    ensures forall u: TechId :: u < |reg| ==> u in ret
    ensures PrerequisitesFirst(reg, ret)
  {
    ret := [];
    while |ret| < |reg|
      invariant NoDup(ret) && Registered(reg, ret) && PrerequisitesFirst(reg, ret)
      decreases |reg| - |ret|
    {
      var next := NextTechs(reg, ret);
      NextNonEmpty(reg, ret);
      Pigeonhole(ret, |reg|);
      AppendLayer(reg, ret, next);
      ret := ret + next;
    }
    Pigeonhole(ret, |reg|);
  }

  /** Appending the next layer keeps the list free of duplicates and every
      technology after its prerequisites. */
  lemma AppendLayer(reg: Registry, ret: seq<TechId>, next: seq<TechId>)
    requires NoDup(ret) && Registered(reg, ret) && PrerequisitesFirst(reg, ret)
    requires next == NextTechs(reg, ret)
    ensures NoDup(ret + next) && Registered(reg, ret + next) && PrerequisitesFirst(reg, ret + next)
  {
    var s := ret + next;
    forall i | 0 <= i < |s| ensures forall p :: p in reg[s[i]].prerequisites ==> p in s[..i] {
      if i < |ret| {
        assert s[..i] == ret[..i];
      } else {
        LearnableIff(reg[s[i]], ret);
        assert s[..i] == ret + next[..i - |ret|];
      }
    }
  }

  // ----- The game's registry -----

  const Alchemy: TechId := 0
  const AlchemyAdv: TechId := 1
  const HumanoidMut: TechId := 2
  const BeastMut: TechId := 3
  const Crafting: TechId := 4
  const IronWorking: TechId := 5
  const Jewellery: TechId := 6
  const TwoHandedWeapons: TechId := 7
  const Traps: TechId := 8
  const Archery: TechId := 9
  const Spells: TechId := 10
  const SpellsAdv: TechId := 11
  const SpellsMas: TechId := 12
  const Kraken: TechId := 13

  /** The technologies the game registers at start-up, in registration
      order; two-handed weapons and archery are the researchable ones. */
  function Init(): (r: Registry)
    ensures |r| == 14
  {
    [ Technology("alchemy", 80, [], false),
      Technology("advanced alchemy", 200, [Alchemy], false),
      Technology("humanoid mutation", 400, [], false),
      Technology("beast mutation", 400, [], false),
      Technology("crafting", 40, [], false),
      Technology("iron working", 60, [Crafting], false),
      Technology("jewellery", 200, [IronWorking], false),
      Technology("two-handed weapons", 100, [IronWorking], true),
      Technology("traps", 100, [Crafting], false),
      Technology("archery", 100, [Crafting], true),
      Technology("sorcery", 60, [], false),
      Technology("advanced sorcery", 120, [Spells], false),
      Technology("master sorcery", 350, [SpellsAdv], false),
      Technology("kraken breeding", 150, [Alchemy], false) ]
  }

  /** The game's registry is well-formed: every prerequisite was
      registered before the technology requiring it. */
  lemma InitWellFormed()
    ensures WellFormed(Init())
  {
    var reg := Init();
    var rank := seq(|reg|, i => i);
    assert Ranked(reg, rank);
  }

  /** A non-empty list holds its head. */
  lemma Head(a: seq<TechId>)
    ensures |a| > 0 ==> a[0] in a
  {
  }

  /** The head of a list in registry order is its least id. */
  lemma HeadIsLeast(a: seq<TechId>, x: TechId)
    requires Increasing(a) && x in a
    ensures a[0] <= x
  {
    var k :| 0 <= k < |a| && a[k] == x;
    if k > 0 {
      assert a[0] < a[k];
    }
  }

  /** Two lists in registry order with the same ids are the same list. */
  lemma {:induction false} IncreasingUnique(a: seq<TechId>, b: seq<TechId>)
    requires Increasing(a) && Increasing(b)
    requires forall x :: x in a <==> x in b
    ensures a == b
  {
    if |a| > 0 && |b| > 0 {
      HeadIsLeast(b, a[0]);
      HeadIsLeast(a, b[0]);
      forall x ensures x in a[1..] <==> x in b[1..] {
        if x in a[1..] {
          var k :| 1 <= k < |a| && a[k] == x;
          assert a[0] < x && x in b;
          var m :| 0 <= m < |b| && b[m] == x;
          assert b[1..][m - 1] == x;
        }
        if x in b[1..] {
          var k :| 1 <= k < |b| && b[k] == x;
          assert b[0] < x && x in a;
          var m :| 0 <= m < |a| && a[m] == x;
          assert a[1..][m - 1] == x;
        }
      }
      IncreasingUnique(a[1..], b[1..]);
      assert a == [a[0]] + a[1..] && b == [b[0]] + b[1..];
    } else if |a| > 0 {
      Head(a);
      assert false;
    } else if |b| > 0 {
      Head(b);
      assert false;
    }
  }

  /** Only a technology without prerequisites is learnable from nothing. */
  lemma FromNothing(t: Technology)
    ensures Learnable(t, []) <==> t.prerequisites == []
  {
    if t.prerequisites != [] {
      assert t.prerequisites[0] in multiset(t.prerequisites);
    }
  }

  /** The first layer is the technologies without prerequisites. */
  lemma NextFromNothing(reg: Registry)
    ensures forall x: TechId :: x in NextTechs(reg, []) <==> x < |reg| && reg[x].prerequisites == []
  {
    forall x: TechId | x < |reg| {
      FromNothing(reg[x]);
    }
  }

  /** Crafting opens iron working, traps and archery. */
  lemma InitCraftingAllows()
    ensures Allowed(Init(), Crafting) == [IronWorking, Traps, Archery]
  {
    var expected := [IronWorking, Traps, Archery];
    forall x: TechId ensures x in Allowed(Init(), Crafting) <==> x in expected {
    }
    IncreasingUnique(Allowed(Init(), Crafting), expected);
  }
}
