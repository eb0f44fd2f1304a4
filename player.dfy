/** The player's game rules: mana, the selected ability, casting and the
    list of live projectiles (Shared/Player.hpp, Shared/Player.cpp).  A
    projectile is represented by its kind; its position and flight are
    floating-point rendering state. */
module Players {
  import opened Util
  import opened Projectiles

  const MaxMana: nat := 100
  const ManaGain: nat := 5
  /** A cast that leaves this many projectiles or more evicts the oldest. */
  const ProjectileLimit: nat := 20
  /** Projectiles in one Magic cast. */
  const MagicVolley: nat := 5

  /** Total mana one cast of `a` uses. */
  function CastCost(a: Ability): nat {
    if a == Magic then MagicVolley * ManaCost(Magic) else ManaCost(a)
  }

  /** Whether `mana` pays for a cast of `a`.  Magic is compared as a float
      against five times its per-projectile cost. */
  function HasEnoughForCast(mana: nat, a: Ability): (r: bool)
    ensures r <==> CastCost(a) <= mana
    ensures a == Potato ==> r
    ensures a == FireBall ==> (r <==> mana >= 20)
    ensures a == IceBall ==> (r <==> mana >= 30)
    ensures a == Magic ==> (r <==> mana >= 15)
  {
    match a
    case Potato => true
    case FireBall => mana >= ManaCost(FireBall)
    case IceBall => mana >= ManaCost(IceBall)
    case Magic => mana as real >= ManaCost(Magic) as real * 5.0
  }

  /** Unsigned 32-bit subtraction: `UInt` arithmetic wraps below zero. */
  function SubU32(a: nat, b: nat): (r: nat)
    ensures r < TwoTo32
    ensures b <= a < TwoTo32 ==> r == a - b
  {
    (a - b) % TwoTo32
  }

  /** `count` unsigned subtractions of `cost` in a row, as the magic loop
      pays once per projectile. */
  function Charged(mana: nat, cost: nat, count: nat): nat
    decreases count
  {
    if count == 0 then mana else SubU32(Charged(mana, cost, count - 1), cost)
  }

  /** The mana the switch of `fire_ability` leaves after a cast of `a`: the
      potato costs nothing, and every other projectile is paid for as it
      is appended. */
  function ManaAfterCast(mana: nat, a: Ability): nat {
    if a == Potato then mana else Charged(mana, ManaCost(a), |Volley(a)|)
  }

  /** The projectiles one cast of `a` appends, oldest first. */
  function Volley(a: Ability): (v: seq<Ability>)
    ensures |v| == if a == Magic then MagicVolley else 1
    ensures forall i | 0 <= i < |v| :: v[i] == a
  {
    if a == Magic then seq(MagicVolley, _ => Magic) else [a]
  }

  /** The list left once the oldest projectiles are dropped until fewer
      than the limit remain: the newest entries, in their order. */
  function Trimmed(s: seq<Ability>): (r: seq<Ability>)
    ensures |r| < ProjectileLimit
    ensures |s| < ProjectileLimit ==> r == s
    ensures |s| >= ProjectileLimit ==> |r| == ProjectileLimit - 1
    ensures r == s[|s| - |r|..]
  {
    if |s| < ProjectileLimit then s else s[|s| - (ProjectileLimit - 1)..]
  }

  class Player {
    var mana: nat
    /** Seconds accumulated towards the next mana tick. */
    var manaCounter: real
    var health: int
    var score: nat
    var currentAbility: Ability
    var projectiles: seq<Ability>

    ghost predicate Valid()
      reads this
    {
      && mana <= MaxMana
      && |projectiles| < ProjectileLimit
      && -TwoTo31 <= health < TwoTo31
      && score < TwoTo32
    }

    /** The field initialisers, then the selection stepped once from Magic,
        which lands on Potato. */
    constructor ()
      ensures mana == MaxMana && manaCounter == 0.0 && health == 100 && score == 0
      ensures projectiles == [] && currentAbility == Potato
      ensures Valid()
    {
      mana := MaxMana;
      manaCounter := 0.0;
      health := 100;
      score := 0;
      projectiles := [];
      currentAbility := Magic;
      new;
      NextAbility();
    }

    method NextAbility()
      modifies this`currentAbility
      ensures currentAbility == Successor(old(currentAbility))
    {
      if currentAbility == LastAbility {
        currentAbility := FirstAbility;
      } else {
        currentAbility := FromOrdinal(Ordinal(currentAbility) + 1);
      }
    }

    /** Casts the selected ability when the mana suffices: pays its cost,
        appends its projectiles and evicts the oldest ones over the limit.
        The unsigned mana never goes below zero, because the cost was
        checked first. */
    method FireAbility()
      requires Valid()
      modifies this`mana, this`projectiles
      ensures Valid()
      ensures !HasEnoughForCast(old(mana), currentAbility) ==>
                mana == old(mana) && projectiles == old(projectiles)
      ensures HasEnoughForCast(old(mana), currentAbility) ==>
                && mana == old(mana) - CastCost(currentAbility)
                && projectiles == Trimmed(old(projectiles) + Volley(currentAbility))
    {
      if !HasEnoughForCast(mana, currentAbility) {
        return;
      }
      CastWrapsUnlessCovered(mana, currentAbility);
      CastVolley();
      EvictOldest();
    }

    /** The switch of `fire_ability`: appends the projectiles of the selected
        ability and pays for each. */
    method CastVolley()
      modifies this`mana, this`projectiles
      ensures mana == ManaAfterCast(old(mana), currentAbility)
      ensures projectiles == old(projectiles) + Volley(currentAbility)
    {
      match currentAbility {
        case Potato =>
          projectiles := projectiles + [Potato];
        case FireBall =>
          projectiles := projectiles + [FireBall];
          mana := SubU32(mana, ManaCost(FireBall));
          assert mana == Charged(old(mana), ManaCost(FireBall), |Volley(FireBall)|);
        case IceBall =>
          projectiles := projectiles + [IceBall];
          mana := SubU32(mana, ManaCost(IceBall));
          assert mana == Charged(old(mana), ManaCost(IceBall), |Volley(IceBall)|);
        case Magic =>
          var i := 0;
          while i < MagicVolley
            invariant 0 <= i <= MagicVolley
            invariant projectiles == old(projectiles) + seq(i, _ => Magic)
            invariant mana == Charged(old(mana), ManaCost(Magic), i)
          {
            projectiles := projectiles + [Magic];
            mana := SubU32(mana, ManaCost(Magic));
            i := i + 1;
          }
      }
    }

    /** The closing loop of `fire_ability`: erases the front entry while the
        list is at or over the limit. */
    method EvictOldest()
      modifies this`projectiles
      ensures projectiles == Trimmed(old(projectiles))
    {
      while |projectiles| >= ProjectileLimit
        invariant Trimmed(projectiles) == Trimmed(old(projectiles))
        decreases |projectiles|
      {
        projectiles := projectiles[1..];
      }
    }

    /** One frame of mana regeneration: once a second has accumulated, one
        gain is added unless it would pass the maximum. */
    method Update(timeDelta: real)
      modifies this`mana, this`manaCounter
      ensures old(manaCounter) + timeDelta >= 1.0 ==> manaCounter == old(manaCounter) + timeDelta - 1.0
      ensures old(manaCounter) + timeDelta < 1.0 ==> manaCounter == old(manaCounter) + timeDelta
      ensures mana == if old(manaCounter) + timeDelta >= 1.0 && old(mana) + ManaGain <= MaxMana
                      then old(mana) + ManaGain else old(mana)
      ensures old(mana) <= mana <= old(mana) + ManaGain
      ensures old(mana) <= MaxMana ==> mana <= MaxMana
    {
      manaCounter := manaCounter + timeDelta;
      if manaCounter >= 1.0 {
        if (mana + ManaGain) as real <= MaxMana as real {
          mana := mana + ManaGain;
        }
        manaCounter := manaCounter - 1.0;
      }
    }

    method EnemyHit()
      modifies this`health
      ensures health == Wrap32(old(health) - 10)
      ensures -TwoTo31 + 10 <= old(health) < TwoTo31 ==> health == old(health) - 10
    {
      health := Wrap32(health - 10);
    }

    /** The unsigned score wraps at 2^32. */
    method IncrementScore()
      requires score < TwoTo32
      modifies this`score
      ensures score < TwoTo32 && score == (old(score) + 1) % TwoTo32
      ensures old(score) + 1 < TwoTo32 ==> score == old(score) + 1
    {
      score := (score + 1) % TwoTo32;
    }
  }

  /** Subtracting after reducing modulo 2^32 is subtracting and then
      reducing. */
  lemma SubMod(x: int, c: int)
    ensures (x % TwoTo32 - c) % TwoTo32 == (x - c) % TwoTo32
  {
    var r, y, z := x % TwoTo32, x % TwoTo32 - c, x - c;
    assert x == (x / TwoTo32) * TwoTo32 + r;
    assert z == y + (x / TwoTo32) * TwoTo32;
    assert y == (y / TwoTo32) * TwoTo32 + y % TwoTo32;
    assert z == (z / TwoTo32) * TwoTo32 + z % TwoTo32;
    var k := x / TwoTo32 + y / TwoTo32 - z / TwoTo32;
    assert z % TwoTo32 - y % TwoTo32 == k * TwoTo32;
  }

  /** Unsigned subtractions in a row are one subtraction modulo 2^32. */
  lemma {:induction false} ChargedModular(mana: nat, cost: nat, count: nat)
    requires mana < TwoTo32
    ensures Charged(mana, cost, count) == (mana - count * cost) % TwoTo32
  {
    if count == 0 {
      assert mana % TwoTo32 == mana;
    } else {
      ChargedModular(mana, cost, count - 1);
      var x := mana - (count - 1) * cost;
      SubMod(x, cost);
      assert Charged(mana, cost, count) == (x % TwoTo32 - cost) % TwoTo32;
      assert x - cost == mana - count * cost;
    }
  }

  /** The mana check is exactly what keeps the unsigned mana from
      wrapping: when it passes, the cast costs its price; when it fails, the
      same subtractions would wrap below zero and leave more mana than
      before. */
  lemma CastWrapsUnlessCovered(mana: nat, a: Ability)
    requires mana < TwoTo32
    ensures HasEnoughForCast(mana, a) ==> ManaAfterCast(mana, a) == mana - CastCost(a)
    ensures !HasEnoughForCast(mana, a) ==> ManaAfterCast(mana, a) > mana
  {
    if a != Potato {
      var n, c := |Volley(a)|, ManaCost(a);
      assert n * c == CastCost(a) by {
        if a == Magic { assert n == 5; } else { assert n == 1; }
      }
      ChargedModular(mana, c, n);
      ModBelowZero(mana - n * c);
    }
  }

  /** A difference no lower than -2^32 wraps to itself plus 2^32 when it is
      negative, and stays when it is not. */
  lemma ModBelowZero(d: int)
    requires -TwoTo32 <= d < TwoTo32
    ensures d % TwoTo32 == if d < 0 then d + TwoTo32 else d
  {
  }

  /** Eviction happens only on overflow: a cast that keeps the list under
      the limit simply appends, and otherwise exactly the oldest entries go,
      the newest one of the cast always staying. */
  lemma {:induction false} TrimOnlyOnOverflow(before: seq<Ability>, a: Ability)
    requires |before| < ProjectileLimit
    ensures |before| + |Volley(a)| < ProjectileLimit ==>
              Trimmed(before + Volley(a)) == before + Volley(a)
    ensures var t := Trimmed(before + Volley(a)); |t| > 0 && t[|t| - 1] == a
  {
    var s := before + Volley(a);
    var t := Trimmed(s);
    assert s[|s| - 1] == a;
    assert t[|t| - 1] == s[|s| - 1];
  }
}
