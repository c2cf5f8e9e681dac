/**
 * The helpers of the simulation model (model.py, class Map): building the
 * grid of street patches, drawing building cells for civilians, and
 * counting civilians by ethnicity.
 */
module City {
  import opened Draws
  import opened Geometry
  import opened StreetPatches
  import opened Agents

  /** The id of the first street patch. */
  const FirstPatchId: int := 10000000

  /** The id the grid construction gives the patch of cell `p`. */
  function PatchId(p: Pos, height: int): int
  {
    FirstPatchId + p.x * height + p.y
  }

  /** Two different cells of a grid of the given height never share a patch id. */
  lemma PatchIdsDistinct(p: Pos, q: Pos, height: int)
    requires 0 <= p.y < height && 0 <= q.y < height && p != q
    ensures PatchId(p, height) != PatchId(q, height)
  {
    if p.x == q.x {
      assert p.y != q.y;
    } else {
      var k := p.x - q.x;
      assert PatchId(p, height) - PatchId(q, height) == k * height + (p.y - q.y);
      if k > 0 {
        MulAtLeast(k, height);
      } else {
        MulAtLeast(-k, height);
        assert k * height == -((-k) * height);
      }
    }
  }

  /** `place_agent`: append an agent to the list of its cell. */
  function Place(cells: map<Pos, seq<Patch>>, p: Pos, patch: Patch): map<Pos, seq<Patch>>
  {
    cells[p := (if p in cells then cells[p] else []) + [patch]]
  }

  /** The cells of the columns left of `xk` each hold exactly the patch built for them. */
  ghost predicate ColumnsPlaced(cells: map<Pos, seq<Patch>>, xk: int, height: nat)
  {
    && (forall p :: p in cells <==> 0 <= p.x < xk && 0 <= p.y < height)
    && (forall p :: p in cells ==> cells[p] == [NewStreetPatch(PatchId(p, height), p)])
  }

  /** The inner loop of the construction: one patch for every cell of column `xk`. */
  method PlaceColumn(cells: map<Pos, seq<Patch>>, xk: nat, height: nat) returns (placed: map<Pos, seq<Patch>>)
    requires ColumnsPlaced(cells, xk, height)
    ensures ColumnsPlaced(placed, xk + 1, height)
  {
    placed := cells;
    for yk := 0 to height
      invariant forall p :: p in placed <==> (0 <= p.x < xk && 0 <= p.y < height) || (p.x == xk && 0 <= p.y < yk)
      invariant forall p :: p in placed ==> placed[p] == [NewStreetPatch(PatchId(p, height), p)]
    {
      var i := FirstPatchId + (xk * height) + yk;
      var position := Pos(xk, yk);
      var s := NewStreetPatch(i, position);
      assert [] + [s] == [s];
      assert position !in placed;
      placed := Place(placed, position, s);
    }
  }

  /**
   * The nested loops of the model's constructor that place one street patch
   * per cell: every cell of the grid holds exactly the patch built for it,
   * with the id `10000000 + x * height + y`.
   */
  method BuildPatches(width: nat, height: nat) returns (g: Grid)
    ensures g.width == width && g.height == height && Built(g)
    ensures forall p :: p in g.cells ==> g.cells[p] == [NewStreetPatch(PatchId(p, height), p)]
  {
    var cells: map<Pos, seq<Patch>> := map[];
    for xk := 0 to width
      invariant ColumnsPlaced(cells, xk, height)
    {
      cells := PlaceColumn(cells, xk, height);
    }
    g := Grid(width, height, cells);
  }

  /** `list(range(0, 100, 3))`: the columns a civilian is never placed in. */
  const ExcludeX: seq<int> := RangeList(0, 100, 3)
  /** `list(range(0, 120, 6))`: the rows a civilian is never placed in. */
  const ExcludeY: seq<int> := RangeList(0, 120, 6)

  /** `[v for v in range(0, n) if v not in exclude]`, in increasing order. */
  function Candidates(n: int, exclude: seq<int>): (cs: seq<int>)
    ensures forall v :: v in cs <==> 0 <= v < n && v !in exclude
    decreases n
  {
    if n <= 0 then []
    else
      var init := Candidates(n - 1, exclude);
      if n - 1 in exclude then init else init + [n - 1]
  }

  /**
   * `random_activity_generator` driven by the index draws `kx` and `ky`;
   * `None` when a list of candidates is empty and the choice raises.
   */
  function RandomActivity(width: int, height: int, kx: nat, ky: nat): Option<Pos>
  {
    match Choice(Candidates(width, ExcludeX), kx)
    case None => None
    case Some(x) =>
      match Choice(Candidates(height, ExcludeY), ky)
      case None => None
      case Some(y) => Some(Pos(x, y))
  }

  /**
   * A drawn cell lies on the grid, in no column of `range(0, 100, 3)` and in no
   * row of `range(0, 120, 6)`.
   */
  lemma RandomActivityInBounds(width: int, height: int, kx: nat, ky: nat)
    requires RandomActivity(width, height, kx, ky).Some?
    ensures var p := RandomActivity(width, height, kx, ky).value;
      && InBounds(p, width, height)
      && !(p.x < 100 && p.x % 3 == 0)
      && !(p.y < 120 && p.y % 6 == 0)
  {
    var xs, ys := Candidates(width, ExcludeX), Candidates(height, ExcludeY);
    var p := RandomActivity(width, height, kx, ky).value;
    assert p == Pos(xs[kx % |xs|], ys[ky % |ys|]);
    assert p.x in xs && p.y in ys;
    RangeListMembership(p.x, 0, 100, 3);
    RangeListMembership(p.y, 0, 120, 6);
  }

  /** No column qualifies exactly when the grid is at most one cell wide. */
  lemma NoColumnWhenNarrow(width: int)
    ensures Candidates(width, ExcludeX) == [] <==> width <= 1
  {
    RangeListMembership(0, 0, 100, 3);
    RangeListMembership(1, 0, 100, 3);
    if width > 1 {
      assert 1 in Candidates(width, ExcludeX);
    } else {
      assert forall v :: v !in Candidates(width, ExcludeX);
    }
  }

  /** No row qualifies exactly when the grid is at most one cell high. */
  lemma NoRowWhenFlat(height: int)
    ensures Candidates(height, ExcludeY) == [] <==> height <= 1
  {
    RangeListMembership(0, 0, 120, 6);
    RangeListMembership(1, 0, 120, 6);
    if height > 1 {
      assert 1 in Candidates(height, ExcludeY);
    } else {
      assert forall v :: v !in Candidates(height, ExcludeY);
    }
  }

  /** The draw fails exactly when the grid is at most one cell wide or high. */
  lemma RandomActivityFails(width: int, height: int, kx: nat, ky: nat)
    ensures RandomActivity(width, height, kx, ky).None? <==> width <= 1 || height <= 1
  {
    NoColumnWhenNarrow(width);
    NoRowWhenFlat(height);
  }

  /** Every cell off the excluded columns and rows can be drawn. */
  lemma RandomActivityCovers(width: int, height: int, p: Pos)
    requires InBounds(p, width, height)
    requires !(p.x < 100 && p.x % 3 == 0) && !(p.y < 120 && p.y % 6 == 0)
    ensures exists kx: nat, ky: nat :: RandomActivity(width, height, kx, ky) == Some(p)
  {
    RangeListMembership(p.x, 0, 100, 3);
    RangeListMembership(p.y, 0, 120, 6);
    var xs, ys := Candidates(width, ExcludeX), Candidates(height, ExcludeY);
    var kx :| 0 <= kx < |xs| && xs[kx] == p.x;
    var ky :| 0 <= ky < |ys| && ys[ky] == p.y;
    assert RandomActivity(width, height, kx, ky) == Some(p);
  }

  /** On a grid at most 100 wide and 120 high every drawn cell is a building. */
  lemma RandomActivityIsBuilding(width: int, height: int, kx: nat, ky: nat)
    requires width <= 100 && height <= 120
    requires RandomActivity(width, height, kx, ky).Some?
    ensures KindAt(RandomActivity(width, height, kx, ky).value) == Building
  {
    var p := RandomActivity(width, height, kx, ky).value;
    RandomActivityInBounds(width, height, kx, ky);
    RoadLattice(p);
  }

  /** `N_nodes`: how many activity nodes each civilian gets. */
  const NNodes: nat := 4

  /** Each of `nodes` is the cell drawn with the index draws of the same rank. */
  ghost predicate DrawnFrom(nodes: seq<Pos>, width: int, height: int, draws: seq<(nat, nat)>)
  {
    |nodes| <= |draws| &&
    forall i :: 0 <= i < |nodes| ==> RandomActivity(width, height, draws[i].0, draws[i].1) == Some(nodes[i])
  }

  lemma DrawnFromExtend(nodes: seq<Pos>, width: int, height: int, draws: seq<(nat, nat)>, p: Pos)
    requires DrawnFrom(nodes, width, height, draws) && |nodes| < |draws|
    requires RandomActivity(width, height, draws[|nodes|].0, draws[|nodes|].1) == Some(p)
    ensures DrawnFrom(nodes + [p], width, height, draws)
  {
    var ext := nodes + [p];
    forall i | 0 <= i < |ext|
      ensures RandomActivity(width, height, draws[i].0, draws[i].1) == Some(ext[i])
    {
      if i < |nodes| {
        assert ext[i] == nodes[i];
      }
    }
  }

  /** The loop that draws a civilian's activity nodes, one pair of index draws per node. */
  method GenerateActivityNodes(width: int, height: int, draws: seq<(nat, nat)>) returns (nodes: Option<seq<Pos>>)
    requires |draws| == NNodes
    ensures nodes.Some? <==> width > 1 && height > 1
    ensures nodes.Some? ==> |nodes.value| == NNodes && DrawnFrom(nodes.value, width, height, draws)
  {
    var activityNodes: seq<Pos> := [];
    for activity := 0 to NNodes
      invariant |activityNodes| == activity
      invariant activity > 0 ==> width > 1 && height > 1
      invariant DrawnFrom(activityNodes, width, height, draws)
    {
      var a := RandomActivity(width, height, draws[activity].0, draws[activity].1);
      RandomActivityFails(width, height, draws[activity].0, draws[activity].1);
      if a.None? {
        return None;
      }
      DrawnFromExtend(activityNodes, width, height, draws, a.value);
      activityNodes := activityNodes + [a.value];
    }
    nodes := Some(activityNodes);
  }

  /** The number of civilians among `agents`. */
  function CountCivilians(agents: seq<Occupant>): nat
    decreases |agents|
  {
    if agents == [] then 0
    else CountCivilians(agents[..|agents| - 1]) + (if Typ(agents[|agents| - 1]) == "civilian" then 1 else 0)
  }

  /** The number of civilians of ethnicity `e` among `agents`. */
  function CountEthnic(agents: seq<Occupant>, e: Ethnicity): nat
    decreases |agents|
  {
    if agents == [] then 0
    else
      var a := agents[|agents| - 1];
      CountEthnic(agents[..|agents| - 1], e) + (if Typ(a) == "civilian" && a.ethnicity == e then 1 else 0)
  }

  /** `count_ethnic_citizens`: the loop over the scheduled agents. */
  method CountEthnicCitizens(agents: seq<Occupant>, ethnicity: Ethnicity) returns (ethnicCount: nat)
    ensures ethnicCount == CountEthnic(agents, ethnicity)
  {
    ethnicCount := 0;
    for i := 0 to |agents|
      invariant ethnicCount == CountEthnic(agents[..i], ethnicity)
    {
      assert agents[..i + 1][..i] == agents[..i];
      var agent := agents[i];
      if Typ(agent) == "civilian" {
        if agent.ethnicity == ethnicity {
          ethnicCount := ethnicCount + 1;
        }
      }
    }
    assert agents[..|agents|] == agents;
  }

  /** No ethnicity counts more agents than there are civilians. */
  lemma {:induction false} CountEthnicBounded(agents: seq<Occupant>, e: Ethnicity)
    ensures CountEthnic(agents, e) <= CountCivilians(agents)
    decreases |agents|
  {
    if agents != [] {
      CountEthnicBounded(agents[..|agents| - 1], e);
    }
  }

  /** The four counts add up to the number of civilians. */
  lemma {:induction false} CountEthnicPartition(agents: seq<Occupant>)
    ensures CountEthnic(agents, White) + CountEthnic(agents, Other) + CountEthnic(agents, Asian)
            + CountEthnic(agents, Black) == CountCivilians(agents)
    decreases |agents|
  {
    if agents != [] {
      CountEthnicPartition(agents[..|agents| - 1]);
    }
  }
}
