/** Oriented-bounding-box collision (GeometryEngine/Shared/SAT_OBB.cpp):
    the box built from a vertex cloud, the bounding-sphere broad phase and
    the 15-axis separating-axis test.  Vectors are exact reals; the world
    placement of a box (its centre, axes and transformed corners, all
    products of the model matrix) is an input. */
module Collision {
  import opened Util

  datatype Vec3 = Vec3(x: real, y: real, z: real)

  function Add(a: Vec3, b: Vec3): Vec3 { Vec3(a.x + b.x, a.y + b.y, a.z + b.z) }
  function Sub(a: Vec3, b: Vec3): Vec3 { Vec3(a.x - b.x, a.y - b.y, a.z - b.z) }
  function Neg(a: Vec3): Vec3 { Vec3(-a.x, -a.y, -a.z) }
  function Scale(a: Vec3, k: real): Vec3 { Vec3(a.x * k, a.y * k, a.z * k) }
  function Dot(a: Vec3, b: Vec3): real { a.x * b.x + a.y * b.y + a.z * b.z }
  function Cross(a: Vec3, b: Vec3): Vec3 {
    Vec3(a.y * b.z - a.z * b.y, a.z * b.x - a.x * b.z, a.x * b.y - a.y * b.x)
  }
  function Abs(r: real): real { if r < 0.0 then -r else r }
  /** Squared Euclidean length. */
  function NormSq(a: Vec3): real { Dot(a, a) }

  /** The component-wise order `lo <= v <= hi`. */
  predicate Between(lo: Vec3, v: Vec3, hi: Vec3) {
    lo.x <= v.x <= hi.x && lo.y <= v.y <= hi.y && lo.z <= v.z <= hi.z
  }

  /** The object-space axis-aligned box of a model. */
  datatype Obb = Obb(aabbMin: Vec3, aabbMax: Vec3)

  /** Every vertex lies inside the box. */
  predicate Encloses(box: Obb, vs: seq<Vec3>) {
    forall i | 0 <= i < |vs| :: Between(box.aabbMin, vs[i], box.aabbMax)
  }

  /** Each of the six bound components is the coordinate of some vertex. */
  predicate Tight(box: Obb, vs: seq<Vec3>) {
    && (exists i | 0 <= i < |vs| :: vs[i].x == box.aabbMin.x)
    && (exists i | 0 <= i < |vs| :: vs[i].y == box.aabbMin.y)
    && (exists i | 0 <= i < |vs| :: vs[i].z == box.aabbMin.z)
    && (exists i | 0 <= i < |vs| :: vs[i].x == box.aabbMax.x)
    && (exists i | 0 <= i < |vs| :: vs[i].y == box.aabbMax.y)
    && (exists i | 0 <= i < |vs| :: vs[i].z == box.aabbMax.z)
  }

  /** `std::min_element` over a non-empty sequence, returning the value. */
  method MinElement(s: seq<real>) returns (m: real)
    requires |s| > 0
    ensures m in s && forall v | v in s :: m <= v
  {
    m := s[0];
    var i := 1;
    while i < |s|
      invariant 1 <= i <= |s|
      invariant m in s[..i] && forall j | 0 <= j < i :: m <= s[j]
    {
      if s[i] < m {
        m := s[i];
      }
      i := i + 1;
    }
  }

  /** `std::max_element` over a non-empty sequence, returning the value. */
  method MaxElement(s: seq<real>) returns (m: real)
    requires |s| > 0
    ensures m in s && forall v | v in s :: v <= m
  {
    m := s[0];
    var i := 1;
    while i < |s|
      invariant 1 <= i <= |s|
      invariant m in s[..i] && forall j | 0 <= j < i :: s[j] <= m
    {
      if m < s[i] {
        m := s[i];
      }
      i := i + 1;
    }
  }

  /** The constructor: fewer than three vertices is the source's exception
      (`None`); otherwise the box is the tightest one around the cloud. */
  method FromVertices(vs: seq<Vec3>) returns (r: Option<Obb>)
    ensures r.None? <==> |vs| < 3
    ensures r.Some? ==> Encloses(r.value, vs) && Tight(r.value, vs)
    ensures r.Some? ==> Between(r.value.aabbMin, r.value.aabbMin, r.value.aabbMax)
  {
    if |vs| < 3 {
      return None;
    }
    var xs: seq<real> := [];
    var ys: seq<real> := [];
    var zs: seq<real> := [];
    var i := 0;
    while i < |vs|
      invariant 0 <= i <= |vs|
      invariant |xs| == i && |ys| == i && |zs| == i
      invariant forall j | 0 <= j < i :: xs[j] == vs[j].x && ys[j] == vs[j].y && zs[j] == vs[j].z
    {
      xs := xs + [vs[i].x];
      ys := ys + [vs[i].y];
      zs := zs + [vs[i].z];
      i := i + 1;
    }
    var minX := MinElement(xs);
    var minY := MinElement(ys);
    var minZ := MinElement(zs);
    var maxX := MaxElement(xs);
    var maxY := MaxElement(ys);
    var maxZ := MaxElement(zs);
    var box := Obb(Vec3(minX, minY, minZ), Vec3(maxX, maxY, maxZ));
    forall j | 0 <= j < |vs|
      ensures Between(box.aabbMin, vs[j], box.aabbMax)
    {
      assert xs[j] in xs && ys[j] in ys && zs[j] in zs;
    }
    assert xs[0] in xs && ys[0] in ys && zs[0] in zs;
    r := Some(box);
  }

  /** The box does not depend on the order of the vertices: two tight
      enclosing boxes of the same multiset of vertices are equal. */
  lemma {:induction false} BoxIgnoresOrder(a: Obb, vs: seq<Vec3>, b: Obb, ws: seq<Vec3>)
    requires Encloses(a, vs) && Tight(a, vs)
    requires Encloses(b, ws) && Tight(b, ws)
    requires multiset(vs) == multiset(ws)
    ensures a == b
  {
    forall i | 0 <= i < |vs|
      ensures Between(b.aabbMin, vs[i], b.aabbMax)
    {
      assert vs[i] in multiset(ws);
      var k :| 0 <= k < |ws| && ws[k] == vs[i];
    }
    forall i | 0 <= i < |ws|
      ensures Between(a.aabbMin, ws[i], a.aabbMax)
    {
      assert ws[i] in multiset(vs);
      var k :| 0 <= k < |vs| && vs[k] == ws[i];
    }
  }

  /** The world-space data the test reads off a box's model matrix: the
      transformed origin, the three local axes and the two transformed
      box corners. */
  datatype Placement = Placement(centre: Vec3, ax: Vec3, ay: Vec3, az: Vec3,
                                 cornerMin: Vec3, cornerMax: Vec3)

  /** `axis_delta`: half the difference of the transformed corners. */
  function HalfDelta(p: Placement): Vec3 {
    Scale(Sub(p.cornerMax, p.cornerMin), 0.5)
  }

  function Axis(p: Placement, i: nat): Vec3
    requires i < 3
  {
    if i == 0 then p.ax else if i == 1 then p.ay else p.az
  }

  /** The 15 candidate axes: A's axes, B's axes, then every `Ai x Bj` in
      row-major order. */
  function CandidateAxes(a: Placement, b: Placement): (ls: seq<Vec3>)
    ensures |ls| == 15
    ensures forall i | 0 <= i < 3 :: ls[i] == Axis(a, i) && ls[3 + i] == Axis(b, i)
    ensures forall i, j | 0 <= i < 3 && 0 <= j < 3 :: ls[6 + 3 * i + j] == Cross(Axis(a, i), Axis(b, j))
  {
    [a.ax, a.ay, a.az, b.ax, b.ay, b.az,
     Cross(a.ax, b.ax), Cross(a.ax, b.ay), Cross(a.ax, b.az),
     Cross(a.ay, b.ax), Cross(a.ay, b.ay), Cross(a.ay, b.az),
     Cross(a.az, b.ax), Cross(a.az, b.ay), Cross(a.az, b.az)]
  }

  /** Half the length of one box's projection onto `l`. */
  function Extent(p: Placement, l: Vec3): (e: real)
    ensures e >= 0.0
  {
    var d := HalfDelta(p);
    Abs(Dot(Scale(p.ax, d.x), l)) + Abs(Dot(Scale(p.ay, d.y), l)) + Abs(Dot(Scale(p.az, d.z), l))
  }

  /** `l` separates the boxes when the centre offset projected onto it is
      longer than the two projected half-extents together. */
  predicate Separates(a: Placement, b: Placement, l: Vec3) {
    Abs(Dot(Sub(b.centre, a.centre), l)) > Extent(a, l) + Extent(b, l)
  }

  /** The broad phase without square roots: with D the squared centre
      distance and S1, S2 the squared box diagonals, `sqrt D <= sqrt S1 / 2
      + sqrt S2 / 2` is equivalent to `k <= 0 || k * k <= 4 * S1 * S2` for
      `k = 4D - S1 - S2` (see SphereCollideMeaning). */
  predicate SphereCollide(a: Obb, pa: Vec3, b: Obb, pb: Vec3) {
    var d := NormSq(Sub(pa, pb));
    var s1 := NormSq(Sub(a.aabbMin, a.aabbMax));
    var s2 := NormSq(Sub(b.aabbMin, b.aabbMax));
    var k := 4.0 * d - s1 - s2;
    k <= 0.0 || k * k <= 4.0 * s1 * s2
  }

  /** What `does_collide` decides. */
  predicate Collides(a: Obb, pa: Placement, b: Obb, pb: Placement) {
    && SphereCollide(a, pa.centre, b, pb.centre)
    && var ls := CandidateAxes(pa, pb);
       forall i | 0 <= i < 15 :: !Separates(pa, pb, ls[i])
  }

  /** `does_collide`: the broad phase, then the axes in order, stopping at
      the first one that separates. */
  method DoesCollide(a: Obb, pa: Placement, b: Obb, pb: Placement) returns (r: bool)
    ensures r <==> Collides(a, pa, b, pb)
    ensures !SphereCollide(a, pa.centre, b, pb.centre) ==> !r
  {
    var sphere := DoesSphereCollide(a, pa.centre, b, pb.centre);
    if !sphere {
      return false;
    }
    var ls := CandidateAxes(pa, pb);
    var t := Sub(pb.centre, pa.centre);
    var i := 0;
    while i < |ls|
      invariant 0 <= i <= |ls|
      invariant forall j | 0 <= j < i :: !Separates(pa, pb, ls[j])
    {
      var l := ls[i];
      var tDotL := Abs(Dot(t, l));
      var comparison := Extent(pa, l) + Extent(pb, l);
      if tDotL > comparison {
        return false;
      }
      i := i + 1;
    }
    return true;
  }

  /** `does_sphere_collide`, computed without square roots. */
  method DoesSphereCollide(a: Obb, pa: Vec3, b: Obb, pb: Vec3) returns (r: bool)
    ensures r == SphereCollide(a, pa, b, pb)
  {
    var d := NormSq(Sub(pa, pb));
    var s1 := NormSq(Sub(a.aabbMin, a.aabbMax));
    var s2 := NormSq(Sub(b.aabbMin, b.aabbMax));
    var k := 4.0 * d - s1 - s2;
    r := k <= 0.0 || k * k <= 4.0 * s1 * s2;
  }

  /** With d, la, lb the true lengths (the square roots the source takes),
      the square-root-free test is exactly "centre distance at most the sum
      of the two radii", each radius half a box diagonal. */
  lemma SphereCollideMeaning(a: Obb, pa: Vec3, b: Obb, pb: Vec3, d: real, la: real, lb: real)
    requires d >= 0.0 && d * d == NormSq(Sub(pa, pb))
    requires la >= 0.0 && la * la == NormSq(Sub(a.aabbMin, a.aabbMax))
    requires lb >= 0.0 && lb * lb == NormSq(Sub(b.aabbMin, b.aabbMax))
    ensures SphereCollide(a, pa, b, pb) <==> d <= la / 2.0 + lb / 2.0
  {
    RadiusTest(NormSq(Sub(pa, pb)), NormSq(Sub(a.aabbMin, a.aabbMax)),
               NormSq(Sub(b.aabbMin, b.aabbMax)), d, la, lb);
  }

  /** The algebra behind SphereCollideMeaning: `2d <= la + lb` squared. */
  lemma RadiusTest(dd: real, s1: real, s2: real, d: real, la: real, lb: real)
    requires d >= 0.0 && d * d == dd
    requires la >= 0.0 && la * la == s1
    requires lb >= 0.0 && lb * lb == s2
    ensures var k := 4.0 * dd - s1 - s2;
            (k <= 0.0 || k * k <= 4.0 * s1 * s2) <==> d <= la / 2.0 + lb / 2.0
  {
    var k := 4.0 * dd - s1 - s2;
    var m := 2.0 * (la * lb);
    MulMono(la, 0.0, lb, 0.0, la * lb);
    SquareMonotone(2.0 * d, la + lb, 4.0 * dd, s1 + m + s2);
    assert d <= la / 2.0 + lb / 2.0 <==> k <= m;
    assert m * m == 4.0 * s1 * s2;
    if k > 0.0 {
      SquareMonotone(k, m, k * k, m * m);
    }
  }

  /** Multiplying by a non-negative factor keeps an order.  The products
      are passed in so that callers and callee share the same terms. */
  lemma MulMono(k: real, a: real, b: real, ka: real, kb: real)
    requires k >= 0.0 && a <= b && ka == k * a && kb == k * b
    ensures ka <= kb
  {
  }

  lemma MulMonoStrict(k: real, a: real, b: real, ka: real, kb: real)
    requires k > 0.0 && a < b && ka == k * a && kb == k * b
    ensures ka < kb
  {
  }

  /** For non-negative reals, comparing squares compares the values. */
  lemma SquareMonotone(u: real, v: real, uu: real, vv: real)
    requires u >= 0.0 && v >= 0.0 && uu == u * u && vv == v * v
    ensures u <= v <==> uu <= vv
  {
    if u <= v {
      MulMono(u, u, v, u * u, u * v);
      MulMono(v, u, v, v * u, v * v);
    } else {
      MulMono(v, v, u, v * v, v * u);
      MulMonoStrict(u, v, u, u * v, u * u);
    }
  }

  /** The broad phase does not care which box is "this" one. */
  lemma SphereCollideSymmetric(a: Obb, pa: Vec3, b: Obb, pb: Vec3)
    ensures SphereCollide(a, pa, b, pb) == SphereCollide(b, pb, a, pa)
  {
    assert NormSq(Sub(pa, pb)) == NormSq(Sub(pb, pa));
  }

  /** A zero candidate axis, which is what the cross product of two parallel
      source axes gives, never separates. */
  lemma ZeroAxisNeverSeparates(a: Placement, b: Placement, l: Vec3)
    requires l == Vec3(0.0, 0.0, 0.0)
    ensures !Separates(a, b, l)
  {
    forall u: Vec3 ensures Dot(u, l) == 0.0 {
    }
  }

  lemma ParallelCrossIsZero(u: Vec3, k: real)
    ensures Cross(u, Scale(u, k)) == Vec3(0.0, 0.0, 0.0)
  {
  }

  /** Negating an axis, or the offset, changes no projected length. */
  lemma NegatedAxis(a: Placement, b: Placement, l: Vec3)
    ensures Extent(a, Neg(l)) == Extent(a, l)
    ensures Abs(Dot(Sub(a.centre, b.centre), Neg(l))) == Abs(Dot(Sub(b.centre, a.centre), l))
    ensures Separates(b, a, Neg(l)) == Separates(a, b, l)
  {
    var d := HalfDelta(a);
    assert Dot(Scale(a.ax, d.x), Neg(l)) == -Dot(Scale(a.ax, d.x), l);
    assert Dot(Scale(a.ay, d.y), Neg(l)) == -Dot(Scale(a.ay, d.y), l);
    assert Dot(Scale(a.az, d.z), Neg(l)) == -Dot(Scale(a.az, d.z), l);
    var e := HalfDelta(b);
    assert Dot(Scale(b.ax, e.x), Neg(l)) == -Dot(Scale(b.ax, e.x), l);
    assert Dot(Scale(b.ay, e.y), Neg(l)) == -Dot(Scale(b.ay, e.y), l);
    assert Dot(Scale(b.az, e.z), Neg(l)) == -Dot(Scale(b.az, e.z), l);
    assert Dot(Sub(a.centre, b.centre), Neg(l)) == Dot(Sub(b.centre, a.centre), l);
  }

  lemma SeparatesSwapped(a: Placement, b: Placement, l: Vec3)
    ensures Separates(b, a, l) == Separates(a, b, l)
  {
    assert Dot(Sub(a.centre, b.centre), l) == -Dot(Sub(b.centre, a.centre), l);
  }

  /** Where axis `i` of the pair (A, B) sits among the axes of (B, A). */
  function SwapIndex(i: nat): (j: nat)
    requires i < 15
    ensures j < 15 && (i < 6 <==> j < 6)
  {
    if i < 3 then i + 3 else if i < 6 then i - 3 else 6 + 3 * ((i - 6) % 3) + (i - 6) / 3
  }

  /** Swapping twice puts every axis back. */
  lemma SwapIndexInvolution(i: nat)
    requires i < 15
    ensures SwapIndex(SwapIndex(i)) == i
  {
  }

  /** Swapping the boxes moves candidate axis `i` to SwapIndex(i), negated
      when it is a cross product, and the test on it gives the same answer. */
  lemma SwappedAxis(pa: Placement, pb: Placement, i: nat)
    requires i < 15
    ensures var ls, ms := CandidateAxes(pa, pb), CandidateAxes(pb, pa);
            Separates(pb, pa, ms[SwapIndex(i)]) == Separates(pa, pb, ls[i])
  {
    var ls, ms := CandidateAxes(pa, pb), CandidateAxes(pb, pa);
    if i < 6 {
      assert ms[SwapIndex(i)] == ls[i];
      SeparatesSwapped(pa, pb, ls[i]);
    } else {
      var p, q := (i - 6) / 3, (i - 6) % 3;
      assert i == 6 + 3 * p + q;
      assert ls[i] == Cross(Axis(pa, p), Axis(pb, q));
      assert ms[SwapIndex(i)] == Cross(Axis(pb, q), Axis(pa, p)) == Neg(ls[i]);
      NegatedAxis(pa, pb, ls[i]);
    }
  }

  /** The verdict does not depend on which box asks: swapping the boxes
      permutes the candidate axes, up to sign. */
  lemma {:induction false} CollidesSymmetric(a: Obb, pa: Placement, b: Obb, pb: Placement)
    ensures Collides(a, pa, b, pb) == Collides(b, pb, a, pa)
  {
    SphereCollideSymmetric(a, pa.centre, b, pb.centre);
    var ls, ms := CandidateAxes(pa, pb), CandidateAxes(pb, pa);
    if forall i | 0 <= i < 15 :: !Separates(pa, pb, ls[i]) {
      forall j | 0 <= j < 15
        ensures !Separates(pb, pa, ms[j])
      {
        SwapIndexInvolution(j);
        SwappedAxis(pa, pb, SwapIndex(j));
      }
    }
    if forall j | 0 <= j < 15 :: !Separates(pb, pa, ms[j]) {
      forall i | 0 <= i < 15
        ensures !Separates(pa, pb, ls[i])
      {
        SwappedAxis(pa, pb, i);
      }
    }
  }

  /** The point of a box with local coordinates `c`, each in [-1, 1] for a
      point of the box: the centre plus `c` times the half-deltas along the
      three axes. */
  function BoxPoint(p: Placement, c: Vec3): Vec3 {
    Add(p.centre, Offset(p, c))
  }

  function Offset(p: Placement, c: Vec3): Vec3 {
    var d := HalfDelta(p);
    Add(Scale(p.ax, c.x * d.x), Add(Scale(p.ay, c.y * d.y), Scale(p.az, c.z * d.z)))
  }

  predicate UnitCoordinates(c: Vec3) {
    -1.0 <= c.x <= 1.0 && -1.0 <= c.y <= 1.0 && -1.0 <= c.z <= 1.0
  }

  /** The test is sound for the boxes it measures: an axis that separates
      proves that the two boxes spanned by the centre plus the half-deltas
      along the local axes (`BoxPoint`) share no point.  For a rotated box
      these are not the transformed model box, whose local half-extents
      differ from the world-frame half-deltas. */
  lemma SeparatingAxisSound(pa: Placement, ca: Vec3, pb: Placement, cb: Vec3, l: Vec3)
    requires UnitCoordinates(ca) && UnitCoordinates(cb)
    requires BoxPoint(pa, ca) == BoxPoint(pb, cb)
    ensures !Separates(pa, pb, l)
  {
    var oa, ob := Offset(pa, ca), Offset(pb, cb);
    assert Sub(pb.centre, pa.centre) == Sub(oa, ob);
    assert Dot(Sub(oa, ob), l) == Dot(oa, l) - Dot(ob, l);
    OffsetProjection(pa, ca, l);
    OffsetProjection(pb, cb, l);
    var u, v := Dot(oa, l), Dot(ob, l);
    assert Abs(u - v) <= Abs(u) + Abs(v);
  }

  /** One box's offset projects onto `l` no further than its extent. */
  lemma OffsetProjection(p: Placement, c: Vec3, l: Vec3)
    requires UnitCoordinates(c)
    ensures Abs(Dot(Offset(p, c), l)) <= Extent(p, l)
  {
    var d := HalfDelta(p);
    var tx, ty, tz := Dot(Scale(p.ax, d.x), l), Dot(Scale(p.ay, d.y), l), Dot(Scale(p.az, d.z), l);
    OffsetDot(p, c, l, tx, ty, tz);
    WeightedSum(c.x, c.y, c.z, tx, ty, tz, Dot(Offset(p, c), l));
  }

  /** |cx tx + cy ty + cz tz| <= |tx| + |ty| + |tz| for weights in [-1, 1]. */
  lemma WeightedSum(cx: real, cy: real, cz: real, tx: real, ty: real, tz: real, s: real)
    requires -1.0 <= cx <= 1.0 && -1.0 <= cy <= 1.0 && -1.0 <= cz <= 1.0
    requires s == cx * tx + cy * ty + cz * tz
    ensures Abs(s) <= Abs(tx) + Abs(ty) + Abs(tz)
  {
    var px, py, pz := cx * tx, cy * ty, cz * tz;
    ShrinkingFactor(cx, tx, px);
    ShrinkingFactor(cy, ty, py);
    ShrinkingFactor(cz, tz, pz);
    AbsSumBound(s, px, py, pz, tx, ty, tz);
  }

  /** A sum of three terms, each no longer than its bound, is no longer
      than the sum of the bounds. */
  lemma AbsSumBound(s: real, px: real, py: real, pz: real, tx: real, ty: real, tz: real)
    requires Abs(px) <= Abs(tx) && Abs(py) <= Abs(ty) && Abs(pz) <= Abs(tz)
    requires s == px + py + pz
    ensures Abs(s) <= Abs(tx) + Abs(ty) + Abs(tz)
  {
  }

  /** The offset's projection, axis by axis: coordinate times the axis's
      projected half-delta. */
  lemma OffsetDot(p: Placement, c: Vec3, l: Vec3, tx: real, ty: real, tz: real)
    requires tx == Dot(Scale(p.ax, HalfDelta(p).x), l)
    requires ty == Dot(Scale(p.ay, HalfDelta(p).y), l)
    requires tz == Dot(Scale(p.az, HalfDelta(p).z), l)
    ensures Dot(Offset(p, c), l) == c.x * tx + c.y * ty + c.z * tz
  {
    OffsetDotGeneric(p.ax, p.ay, p.az, HalfDelta(p), c, l);
  }

  lemma OffsetDotGeneric(ax: Vec3, ay: Vec3, az: Vec3, d: Vec3, c: Vec3, l: Vec3)
    ensures Dot(Add(Scale(ax, c.x * d.x), Add(Scale(ay, c.y * d.y), Scale(az, c.z * d.z))), l)
            == c.x * Dot(Scale(ax, d.x), l) + c.y * Dot(Scale(ay, d.y), l) + c.z * Dot(Scale(az, d.z), l)
  {
  }

  /** A factor in [-1, 1] never lengthens a value. */
  lemma ShrinkingFactor(c: real, t: real, ct: real)
    requires -1.0 <= c <= 1.0 && ct == c * t
    ensures Abs(ct) <= Abs(t)
  {
    if c >= 0.0 {
      if t >= 0.0 {
        MulMono(t, c, 1.0, ct, t);
        MulMono(c, 0.0, t, 0.0, ct);
      } else {
        MulMono(-t, c, 1.0, -ct, -t);
        MulMono(c, t, 0.0, ct, 0.0);
      }
    } else {
      if t >= 0.0 {
        MulMono(t, -c, 1.0, -ct, t);
        MulMono(-c, 0.0, t, 0.0, -ct);
      } else {
        MulMono(-t, -c, 1.0, ct, -t);
        MulMono(-c, t, 0.0, -ct, 0.0);
      }
    }
  }
}
