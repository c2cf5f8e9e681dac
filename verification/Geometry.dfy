/** Grid coordinates, Python ranges and the von Neumann neighbourhood. */
module Geometry {

  /** A cell of the grid, the model's `(x, y)` tuple. */
  datatype Pos = Pos(x: int, y: int)

  function Abs(n: int): nat
  {
    if n < 0 then -n else n
  }

  function Manhattan(a: Pos, b: Pos): nat
  {
    Abs(a.x - b.x) + Abs(a.y - b.y)
  }

  /** `c` is one of the four von Neumann neighbours of `p` at radius 1. */
  predicate Adjacent(c: Pos, p: Pos)
  {
    Manhattan(c, p) == 1
  }

  predicate InBounds(c: Pos, width: int, height: int)
  {
    0 <= c.x < width && 0 <= c.y < height
  }

  predicate Distinct<T(==)>(s: seq<T>)
  {
    forall i, j :: 0 <= i < j < |s| ==> s[i] != s[j]
  }

  /** `len(range(start, stop, step))` for a positive step. */
  function RangeLength(start: int, stop: int, step: nat): nat
    requires step > 0
  {
    if start >= stop then 0 else (stop - start - 1) / step + 1
  }

  /** Python's `list(range(start, stop, step))` for a positive step. */
  function RangeList(start: int, stop: int, step: nat): seq<int>
    requires step > 0
  {
    seq(RangeLength(start, stop, step), i => start + i * step)
  }

  /** Membership in a Python range: the value lies in `[start, stop)` on the step lattice. */
  lemma RangeListMembership(v: int, start: int, stop: int, step: nat)
    requires step > 0
    ensures v in RangeList(start, stop, step) <==> start <= v < stop && (v - start) % step == 0
  {
    if v in RangeList(start, stop, step) {
      RangeListMember(v, start, stop, step);
    }
    if start <= v < stop && (v - start) % step == 0 {
      RangeListHas(v, start, stop, step);
    }
  }

  lemma RangeListMember(v: int, start: int, stop: int, step: nat)
    requires step > 0 && v in RangeList(start, stop, step)
    ensures start <= v < stop && (v - start) % step == 0
  {
    var r := RangeList(start, stop, step);
    var i :| 0 <= i < |r| && r[i] == v;
    var q := (stop - start - 1) / step;
    assert v == start + i * step;
    assert i <= q;
    DivModUnique(v - start, step, i, 0);
    DivModUnique(stop - start - 1, step, q, (stop - start - 1) % step);
    MulMonotone(i, q, step);
    MulMonotone(0, i, step);
  }

  lemma RangeListHas(v: int, start: int, stop: int, step: nat)
    requires step > 0 && start <= v < stop && (v - start) % step == 0
    ensures v in RangeList(start, stop, step)
  {
    var r := RangeList(start, stop, step);
    var i := (v - start) / step;
    var q := (stop - start - 1) / step;
    assert v - start == i * step;
    assert 0 <= i <= q;
    assert r[i] == v;
  }

  /** Multiplying by a non-negative factor keeps the order. */
  lemma MulMonotone(a: int, b: int, step: nat)
    requires a <= b
    ensures a * step <= b * step
  {
    assert b * step - a * step == (b - a) * step;
  }

  /** Euclidean division has one quotient and one remainder. */
  lemma DivModUnique(a: int, step: nat, q: int, r: int)
    requires step > 0 && 0 <= r < step && a == q * step + r
    ensures a % step == r
  {
    var q', r' := a / step, a % step;
    var k := q' - q;
    assert k * step == r - r' by {
      assert q' * step + r' == q * step + r;
      assert k * step == q' * step - q * step;
    }
    if k > 0 {
      MulAtLeast(k, step);
    } else if k < 0 {
      MulAtLeast(-k, step);
    }
  }

  lemma MulAtLeast(k: int, step: nat)
    requires k >= 1
    ensures k * step >= step
  {
    assert k * step == (k - 1) * step + step;
    assert (k - 1) * step >= 0;
  }

  /**
   * The neighbourhood Mesa's `get_neighborhood(p, moore=False, radius=1)`
   * returns on a bounded (non-torus) grid, listed in one fixed order.
   */
  function VonNeumann(p: Pos, width: int, height: int): seq<Pos>
  {
    KeepInBounds([Pos(p.x, p.y - 1), Pos(p.x - 1, p.y), Pos(p.x + 1, p.y), Pos(p.x, p.y + 1)], width, height)
  }

  function KeepInBounds(cs: seq<Pos>, width: int, height: int): (r: seq<Pos>)
    ensures forall c :: c in r <==> c in cs && InBounds(c, width, height)
    ensures Distinct(cs) ==> Distinct(r)
  {
    if cs == [] then []
    else
      var rest := KeepInBounds(cs[1..], width, height);
      assert forall c :: c in cs <==> c == cs[0] || c in cs[1..];
      if InBounds(cs[0], width, height) then [cs[0]] + rest else rest
  }

  /** The neighbourhood holds exactly the in-bounds cells adjacent to `p`, each once. */
  lemma VonNeumannExact(p: Pos, width: int, height: int)
    ensures Distinct(VonNeumann(p, width, height))
    ensures forall c :: c in VonNeumann(p, width, height) <==> Adjacent(c, p) && InBounds(c, width, height)
  {
    var four := [Pos(p.x, p.y - 1), Pos(p.x - 1, p.y), Pos(p.x + 1, p.y), Pos(p.x, p.y + 1)];
    assert Distinct(four);
    forall c
      ensures c in four <==> Adjacent(c, p)
    {
      if Adjacent(c, p) {
        if c.x == p.x {
          assert c == four[0] || c == four[3];
        } else {
          assert c == four[1] || c == four[2];
        }
      }
    }
  }
}
