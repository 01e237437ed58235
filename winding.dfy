/**
 * The winding classifier: the trapezoid form of the shoelace sum over the
 * closed vertex loop, and the front-facing test on its sign.
 */
module Winding {
  import opened Uv

  /** The trapezoid term of the edge a -> b. */
  function Trapezoid(a: UV, b: UV): real {
    (b.u - a.u) * (b.v + a.v)
  }

  /** Swapping the end points of an edge negates its trapezoid term. */
  lemma TrapezoidAntisymmetric(a: UV, b: UV)
    ensures Trapezoid(b, a) == -Trapezoid(a, b)
  {
    var du, sv := b.u - a.u, b.v + a.v;
    assert Trapezoid(a, b) == du * sv;
    assert Trapezoid(b, a) == (-du) * sv;
  }

  /** Sum of the trapezoid terms along the open chain s[0] -> s[1] -> ... -> s[|s| - 1]. */
  function ChainSum(s: seq<UV>): real
    decreases |s|
  {
    if |s| <= 1 then 0.0 else Trapezoid(s[0], s[1]) + ChainSum(s[1..])
  }

  /** The trapezoid sum of the closed loop p, wrap-around edge p[|p| - 1] -> p[0] included; 0 for the empty loop. */
  function TrapezoidSum(p: seq<UV>): real {
    if p == [] then 0.0 else ChainSum(p) + Trapezoid(p[|p| - 1], p[0])
  }

  /** is_front_facing: front-facing exactly when the trapezoid sum is negative. */
  method IsFrontFacing(faces: seq<UV>) returns (front: bool)
    ensures front <==> TrapezoidSum(faces) < 0.0
  {
    var area := 0.0;
    var n := |faces|;
    for i := 0 to n
      invariant i < n ==> area == ChainSum(faces[..i + 1])
      invariant i == n ==> area == TrapezoidSum(faces)
    {
      var p1, p2 := faces[i], faces[(i + 1) % n];
      AreaStep(faces, i, (i + 1) % n);
      area := area + Trapezoid(p1, p2);
    }
    front := area < 0.0;
  }

  /** One iteration of the accumulation loop, with j the index after i: the chain grows by one edge, and the last iteration closes the loop. */
  lemma AreaStep(p: seq<UV>, i: nat, j: nat)
    requires i < |p| && j == (i + 1) % |p|
    ensures i + 1 < |p| ==> ChainSum(p[..i + 1]) + Trapezoid(p[i], p[j]) == ChainSum(p[..i + 2])
    ensures i + 1 == |p| ==> ChainSum(p[..i + 1]) + Trapezoid(p[i], p[j]) == TrapezoidSum(p)
  {
    if i + 1 < |p| {
      assert j == i + 1;
      var chain := p[..i + 1];
      ChainSumAppend(chain, p[j]);
      assert chain + [p[j]] == p[..i + 2];
    } else {
      assert j == 0;
      assert p[..i + 1] == p;
    }
  }

  /** Extending a chain by one point adds the trapezoid term of the new last edge. */
  lemma {:induction false} ChainSumAppend(s: seq<UV>, x: UV)
    requires |s| > 0
    ensures ChainSum(s + [x]) == ChainSum(s) + Trapezoid(s[|s| - 1], x)
    decreases |s|
  {
    if |s| > 1 {
      ChainSumAppend(s[1..], x);
      assert (s + [x])[1..] == s[1..] + [x];
    }
  }

  /** Moving the first vertex to the end does not change the trapezoid sum. */
  lemma {:induction false} RotateOnce(p: seq<UV>)
    requires |p| > 0
    ensures TrapezoidSum(p[1..] + [p[0]]) == TrapezoidSum(p)
  {
    if |p| > 1 {
      var q := p[1..];
      ChainSumAppend(q, p[0]);
      assert (q + [p[0]])[0] == q[0];
      assert (q + [p[0]])[|q|] == p[0];
    }
  }

  /** The trapezoid sum, hence the winding, is unchanged by any cyclic rotation of the vertex list. */
  lemma {:induction false} RotationInvariant(p: seq<UV>, k: nat)
    requires k <= |p|
    ensures TrapezoidSum(p[k..] + p[..k]) == TrapezoidSum(p)
    decreases k
  {
    if k == 0 {
      assert p[0..] + p[..0] == p;
    } else {
      RotationInvariant(p, k - 1);
      var r := p[k - 1..] + p[..k - 1];
      RotateOnce(r);
      assert r[1..] + [r[0]] == p[k..] + p[..k];
    }
  }

  /** The vertex list in reverse order. */
  function Reverse<T>(s: seq<T>): (r: seq<T>)
    ensures |r| == |s|
    ensures forall i :: 0 <= i < |s| ==> r[i] == s[|s| - 1 - i]
  {
    if s == [] then [] else Reverse(s[1..]) + [s[0]]
  }

  /** Walking a chain backwards negates every trapezoid term. */
  lemma {:induction false} ChainSumReverse(s: seq<UV>)
    ensures ChainSum(Reverse(s)) == -ChainSum(s)
    decreases |s|
  {
    if |s| > 1 {
      ChainSumReverse(s[1..]);
      var r := Reverse(s[1..]);
      ChainSumAppend(r, s[0]);
      TrapezoidAntisymmetric(s[0], s[1]);
      assert Reverse(s) == r + [s[0]];
    }
  }

  /** Reversing the vertex order negates the trapezoid sum. */
  lemma {:induction false} ReversalNegates(p: seq<UV>)
    ensures TrapezoidSum(Reverse(p)) == -TrapezoidSum(p)
  {
    if p != [] {
      ChainSumReverse(p);
      TrapezoidAntisymmetric(p[|p| - 1], p[0]);
    }
  }

  /** Reversing the vertex order flips the front-facing test whenever the sum is non-zero. */
  lemma ReversalFlips(p: seq<UV>)
    requires TrapezoidSum(p) != 0.0
    ensures (TrapezoidSum(Reverse(p)) < 0.0) <==> !(TrapezoidSum(p) < 0.0)
  {
    ReversalNegates(p);
  }

  /** The cross-product term of the edge a -> b in the usual shoelace formula. */
  function Cross(a: UV, b: UV): real {
    a.u * b.v - b.u * a.v
  }

  /** Sum of the cross terms along an open chain. */
  function ChainCross(s: seq<UV>): real
    decreases |s|
  {
    if |s| <= 1 then 0.0 else Cross(s[0], s[1]) + ChainCross(s[1..])
  }

  /** Twice the signed area of the closed loop p, positive for counter-clockwise order. */
  function ShoelaceArea(p: seq<UV>): real {
    if p == [] then 0.0 else ChainCross(p) + Cross(p[|p| - 1], p[0])
  }

  /** The trapezoid term is minus the cross term plus a difference of per-point products. */
  lemma TrapezoidVersusCross(a: UV, b: UV)
    ensures Trapezoid(a, b) == -Cross(a, b) + (b.u * b.v - a.u * a.v)
  {
    var au, av, bu, bv := a.u, a.v, b.u, b.v;
    calc {
      Trapezoid(a, b);
      (bu - au) * (bv + av);
      bu * bv + bu * av - au * bv - au * av;
      -(au * bv - bu * av) + (bu * bv - au * av);
    }
  }

  /** Along an open chain the trapezoid and cross sums differ by a telescoping term that only depends on the end points. */
  lemma {:induction false} ChainTelescopes(s: seq<UV>)
    requires |s| > 0
    ensures ChainSum(s) == -ChainCross(s) + (s[|s| - 1].u * s[|s| - 1].v - s[0].u * s[0].v)
    decreases |s|
  {
    if |s| > 1 {
      ChainTelescopes(s[1..]);
      TrapezoidVersusCross(s[0], s[1]);
    }
  }

  /**
   * On a closed loop the telescoping term cancels: the trapezoid sum is minus
   * twice the signed area, so a polygon is front-facing exactly when its
   * vertices run counter-clockwise in UV space.
   */
  lemma {:induction false} TrapezoidIsNegatedShoelace(p: seq<UV>)
    ensures TrapezoidSum(p) == -ShoelaceArea(p)
    ensures TrapezoidSum(p) < 0.0 <==> ShoelaceArea(p) > 0.0
  {
    if p != [] {
      var l, f := p[|p| - 1], p[0];
      ChainTelescopes(p);
      TrapezoidVersusCross(l, f);
      var x, y := l.u * l.v, f.u * f.v;
      assert ChainSum(p) == -ChainCross(p) + (x - y);
      assert Trapezoid(l, f) == -Cross(l, f) + (y - x);
    }
  }

  /** Loops of fewer than three vertices enclose nothing and classify as back-facing. */
  lemma DegenerateIsBackFacing(p: seq<UV>)
    requires |p| <= 2
    ensures TrapezoidSum(p) == 0.0
    ensures !(TrapezoidSum(p) < 0.0)
  {
    if |p| == 2 {
      TrapezoidAntisymmetric(p[0], p[1]);
      assert ChainSum(p[1..]) == 0.0;
    } else if |p| == 1 {
      TrapezoidAntisymmetric(p[0], p[0]);
    }
  }

  /** A vertical edge, or an edge lying on the u axis, contributes nothing to the sum. */
  lemma FlatTrapezoid(a: UV, b: UV)
    requires a.u == b.u || a.v == b.v == 0.0
    ensures Trapezoid(a, b) == 0.0
  {
  }

  /** The trapezoid sum of a quadrilateral is the sum of its four edge terms. */
  lemma QuadSum(a: UV, b: UV, c: UV, d: UV)
    ensures TrapezoidSum([a, b, c, d]) == Trapezoid(a, b) + Trapezoid(b, c) + Trapezoid(c, d) + Trapezoid(d, a)
  {
    assert [c, d][1..] == [d];
    assert ChainSum([c, d]) == Trapezoid(c, d);
    assert [b, c, d][1..] == [c, d];
    assert ChainSum([b, c, d]) == Trapezoid(b, c) + Trapezoid(c, d);
    assert [a, b, c, d][1..] == [b, c, d];
    assert ChainSum([a, b, c, d]) == Trapezoid(a, b) + Trapezoid(b, c) + Trapezoid(c, d);
  }

  /** The unit square listed counter-clockwise, (0,0) (1,0) (1,1) (0,1), is front-facing. */
  lemma UnitSquareIsFrontFacing()
    ensures TrapezoidSum([UV(0.0, 0.0), UV(1.0, 0.0), UV(1.0, 1.0), UV(0.0, 1.0)]) == -2.0
  {
    var a, b, c, d := UV(0.0, 0.0), UV(1.0, 0.0), UV(1.0, 1.0), UV(0.0, 1.0);
    QuadSum(a, b, c, d);
    FlatTrapezoid(a, b);
    FlatTrapezoid(b, c);
    FlatTrapezoid(d, a);
  }
}
