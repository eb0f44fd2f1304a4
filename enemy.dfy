/** An enemy: its health and status timers, the path it follows and the
    waypoint it steers for (Shared/Enemy.hpp, Shared/Enemy.cpp).  Positions
    and timers are reals; float rounding is not modelled. */
module Enemies {
  import opened Util
  import opened Nodes
  import opened Navigation
  import opened Projectiles
  import Collision

  /** Seconds a fireball keeps burning. */
  const BurnTimeout: real := 1.5
  /** Seconds an iceball keeps the enemy slowed. */
  const IceTimeout: real := 5.0
  const PathRefreshTime: real := 2.5
  /** Seconds an explosion lasts before the enemy is done. */
  const ExplosionTime: real := 2.0
  const SlowSpeed: real := 1.0
  const NormalSpeed: real := 5.0

  const Origin: Collision.Vec3 := Collision.Vec3(0.0, 0.0, 0.0)

  /** Index of the first occurrence of `c` on `p`, or `|p|` when it is not
      on the path. */
  function FirstOccurrence(p: seq<Node>, c: Node?): (i: nat)
    ensures i <= |p|
    ensures i < |p| ==> p[i] == c
    ensures forall j | 0 <= j < i :: p[j] != c
  {
    if p == [] then 0
    else if p[0] == c then 0
    else 1 + FirstOccurrence(p[1..], c)
  }

  /** The node an enemy heads for, given the grid node closest to it: the
      path element after that node's first occurrence, the node itself when
      it is the path's last element, and the node unchanged when it is not
      on the path. */
  function NextWaypoint(p: seq<Node>, c: Node?): (r: Node?)
    ensures r == c || exists j | 0 <= j < |p| :: r == p[j]
    ensures (forall j | 0 <= j < |p| :: p[j] != c) ==> r == c
  {
    var i := FirstOccurrence(p, c);
    if i == |p| then c
    else if i + 1 < |p| then p[i + 1]
    else p[i]
  }

  class Enemy {
    var health: int
    var fireTimer: real
    var iceTimer: real
    var doExplode: bool
    var isDone: bool
    var timeExploding: real
    var pathCounter: real
    var nodeNumber: int
    var path: seq<Node>
    /** The unit direction the enemy moves in each frame. */
    var target: Collision.Vec3
    /** The position of the enemy's cuboid. */
    var position: Collision.Vec3

    ghost predicate Valid()
      reads this
    {
      -TwoTo31 <= health < TwoTo31
    }

    /** A new enemy moved to the given spawn position (the default
        constructor followed by the scene's `move`): full health, not
        burning or slowed, not exploding, no path, standing still. */
    constructor (position: Collision.Vec3)
      ensures this.position == position && target == Origin
      ensures health == 100 && fireTimer == BurnTimeout && iceTimer == IceTimeout
      ensures !doExplode && !isDone && timeExploding == 0.0 && pathCounter == 0.0
      ensures nodeNumber == 1 && path == []
      ensures Valid()
    {
      this.position := position;
      target := Origin;
      health := 100;
      fireTimer := BurnTimeout;
      iceTimer := IceTimeout;
      doExplode := false;
      isDone := false;
      timeExploding := 0.0;
      pathCounter := 0.0;
      nodeNumber := 1;
      path := [];
    }

    method SetShortestPath(shortest: seq<Node>)
      modifies this`path, this`nodeNumber
      ensures path == shortest && nodeNumber == 1
    {
      path := shortest;
      nodeNumber := 1;
    }

    /** Takes the hit of one projectile: its damage, and for the elemental
        kinds a fresh status that also cancels the other element. */
    method Hit(kind: Ability)
      modifies this`health, this`fireTimer, this`iceTimer
      ensures health == Wrap32(old(health) - Damage(kind))
      ensures kind == FireBall ==> fireTimer == 0.0 && iceTimer == IceTimeout
      ensures kind == IceBall ==> iceTimer == 0.0 && fireTimer == BurnTimeout
      ensures kind == Potato || kind == Magic ==>
                fireTimer == old(fireTimer) && iceTimer == old(iceTimer)
    {
      match kind {
        case Potato =>
          health := Wrap32(health - Damage(Potato));
        case FireBall =>
          health := Wrap32(health - Damage(FireBall));
          fireTimer := 0.0;
          iceTimer := IceTimeout;
        case IceBall =>
          health := Wrap32(health - Damage(IceBall));
          iceTimer := 0.0;
          fireTimer := BurnTimeout;
        case Magic =>
          health := Wrap32(health - Damage(Magic));
      }
    }

    /** One frame: the explosion clock, the path clock, the status timers,
        burning, movement at the slowed or normal speed, and the start of the
        explosion once health is gone.  An explosion, once started, never
        stops. */
    method Update(timeDelta: real)
      requires Valid()
      modifies this
      ensures Valid()
      ensures timeExploding == if old(doExplode) then old(timeExploding) + timeDelta else old(timeExploding)
      ensures isDone == (old(isDone) || (old(doExplode) && timeExploding >= ExplosionTime))
      ensures pathCounter == (if old(pathCounter) >= PathRefreshTime then 0.0 else old(pathCounter)) + timeDelta
      ensures iceTimer == old(iceTimer) + timeDelta && fireTimer == old(fireTimer) + timeDelta
      ensures health == if fireTimer < BurnTimeout then Wrap32(old(health) - 1) else old(health)
      ensures position == if old(doExplode) then old(position)
                          else Collision.Add(old(position), Collision.Scale(old(target),
                                 timeDelta * (if iceTimer < IceTimeout then SlowSpeed else NormalSpeed)))
      ensures doExplode == (old(doExplode) || health <= 0)
      ensures target == old(target) && path == old(path) && nodeNumber == old(nodeNumber)
    {
      TickExplosion(timeDelta);
      TickTimers(timeDelta);
      Move(timeDelta);
      if health <= 0 {
        doExplode := true;
        return;
      }
    }

    /** The explosion clock runs once the enemy explodes; the enemy is done
        after two seconds of it. */
    method TickExplosion(timeDelta: real)
      modifies this`timeExploding, this`isDone
      ensures timeExploding == if doExplode then old(timeExploding) + timeDelta else old(timeExploding)
      ensures isDone == (old(isDone) || (doExplode && timeExploding >= ExplosionTime))
    {
      if doExplode {
        timeExploding := timeExploding + timeDelta;
        if timeExploding >= ExplosionTime {
          isDone := true;
        }
      }
    }

    /** The path clock restarts after its period; the status timers run,
        and a burning enemy loses one health point per frame. */
    method TickTimers(timeDelta: real)
      requires Valid()
      modifies this`pathCounter, this`iceTimer, this`fireTimer, this`health
      ensures Valid()
      ensures pathCounter == (if old(pathCounter) >= PathRefreshTime then 0.0 else old(pathCounter)) + timeDelta
      ensures iceTimer == old(iceTimer) + timeDelta && fireTimer == old(fireTimer) + timeDelta
      ensures health == if fireTimer < BurnTimeout then Wrap32(old(health) - 1) else old(health)
    {
      if pathCounter >= PathRefreshTime {
        pathCounter := 0.0;
      }
      iceTimer := iceTimer + timeDelta;
      fireTimer := fireTimer + timeDelta;
      if fireTimer < BurnTimeout {
        health := Wrap32(health - 1);
      }
      pathCounter := pathCounter + timeDelta;
    }

    /** Unless exploding, the enemy moves along its direction at the slowed
        speed while the iceball lasts and at the normal speed otherwise. */
    method Move(timeDelta: real)
      modifies this`position
      ensures position == if doExplode then old(position)
                          else Collision.Add(old(position), Collision.Scale(target,
                                 timeDelta * (if iceTimer < IceTimeout then SlowSpeed else NormalSpeed)))
    {
      var speed := if iceTimer < IceTimeout then SlowSpeed else NormalSpeed;
      if !doExplode {
        position := Collision.Add(position, Collision.Scale(target, timeDelta * speed));
      }
    }

    /** The waypoint after the map's closest node on the enemy's path. */
    method GetNextNode(m: Map) returns (r: Node?)
      ensures r == NextWaypoint(path, ClosestNode(m.nodeMap, position.x, position.z))
    {
      var c, _ := m.GetClosestNode(position.x, position.z);
      var i := 0;
      while i < |path|
        invariant 0 <= i <= |path|
        invariant forall j | 0 <= j < i :: path[j] != c
      {
        if path[i] == c {
          FirstOccurrenceAt(path, c, i);
          if i + 1 >= |path| {
            return path[i];
          }
          return path[i + 1];
        }
        i := i + 1;
      }
      FirstOccurrenceAt(path, c, i);
      r := c;
    }

    /** Points `target` at the next waypoint, at the enemy's own height; a
        path of at most one node leaves the enemy standing.  The
        normalisation is the engine's float routine, passed in. */
    method MoveTowardsClosestNode(m: Map, normalise: Collision.Vec3 -> Collision.Vec3)
      requires |path| > 1 ==> |Flatten(m.nodeMap)| > 0
      modifies this`target
      ensures |path| <= 1 ==> target == Origin
      ensures |path| > 1 ==> var next := NextWaypoint(path, ClosestNode(m.nodeMap, position.x, position.z));
                next != null &&
                target == normalise(Collision.Sub(Collision.Vec3(next.x as real, position.y, next.y as real), position))
    {
      if |path| <= 1 {
        target := Origin;
        return;
      }
      var next := GetNextNode(m);
      var nextPosition := Collision.Vec3(next.x as real, position.y, next.y as real);
      target := normalise(Collision.Sub(nextPosition, position));
    }
  }

  lemma {:induction false} FirstOccurrenceAt(p: seq<Node>, c: Node?, i: nat)
    requires i <= |p| && (i < |p| ==> p[i] == c) && forall j | 0 <= j < i :: p[j] != c
    ensures FirstOccurrence(p, c) == i
    decreases |p|
  {
    if p != [] && i > 0 {
      FirstOccurrenceAt(p[1..], c, i - 1);
    }
  }

  /** The three outcomes of `get_next_node`, for a closest node whose first
      occurrence on the path is at index i. */
  lemma NextWaypointCases(p: seq<Node>, c: Node?, i: nat)
    requires i < |p| && p[i] == c && forall j | 0 <= j < i :: p[j] != c
    ensures i + 1 < |p| ==> NextWaypoint(p, c) == p[i + 1]
    ensures i + 1 == |p| ==> NextWaypoint(p, c) == c
  {
    FirstOccurrenceAt(p, c, i);
  }
}
