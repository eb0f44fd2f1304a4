/** The four projectile kinds a player casts and their fixed numbers
    (Shared/Projectile.hpp, Shared/Projectile.cpp). */
module Projectiles {

  /** enum Abilities, in declaration order. */
  datatype Ability = Potato | FireBall | IceBall | Magic

  const FirstAbility: Ability := Potato
  const LastAbility: Ability := Magic

  /** The enumerator's integer value. */
  function Ordinal(a: Ability): (n: nat)
    ensures n < 4
  {
    match a
    case Potato => 0
    case FireBall => 1
    case IceBall => 2
    case Magic => 3
  }

  /** The enumerator with integer value n (a static_cast back to the enum). */
  function FromOrdinal(n: nat): (a: Ability)
    requires n < 4
    ensures Ordinal(a) == n
  {
    if n == 0 then Potato else if n == 1 then FireBall else if n == 2 then IceBall else Magic
  }

  /** Mana one projectile of this kind costs: only the potato is free, and
      the iceball is the dearest. */
  function ManaCost(a: Ability): (c: nat)
    ensures c == 0 <==> a == Potato
    ensures c <= 30 && (c == 30 <==> a == IceBall)
  {
    match a
    case Potato => 0
    case FireBall => 20
    case IceBall => 30
    case Magic => 3
  }

  /** Health an enemy loses on impact; the fireball's damage comes as burning
      over time instead. */
  function Damage(a: Ability): (d: nat)
    ensures d == 0 <==> a == FireBall
    ensures d <= 40 && (d == 40 <==> a == IceBall)
  {
    match a
    case Potato => 5
    case FireBall => 0
    case IceBall => 40
    case Magic => 4
  }

  /** The ability after `a` in the selection cycle: the last one wraps to
      the first, any other steps to the next integer value. */
  function Successor(a: Ability): (b: Ability)
    ensures Ordinal(b) == (Ordinal(a) + 1) % 4
  {
    if a == LastAbility then FirstAbility else FromOrdinal(Ordinal(a) + 1)
  }

  /** The selection cycle visits all four abilities: it returns to the start
      after four steps and not before. */
  lemma SuccessorCycle(a: Ability)
    ensures Successor(a) != a
    ensures Successor(Successor(a)) != a
    ensures Successor(Successor(Successor(a))) != a
    ensures Successor(Successor(Successor(Successor(a)))) == a
  {
  }
}
