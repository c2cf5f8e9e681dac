/**
 * Street patches (agent.py, class StreetPatch) and the grid that holds them.
 * A patch is a road when its column is one of every third column or its row
 * one of every sixth row below 400; every other patch is a building.
 */
module StreetPatches {
  import opened Geometry

  datatype Kind = Road | Building

  /** A street patch: its unique id, its cell and its `typ`. */
  datatype Patch = Patch(id: int, pos: Pos, kind: Kind)

  /** `list(range(0, 400, 3))`: the road columns. */
  const RoadColumns: seq<int> := RangeList(0, 400, 3)
  /** `list(range(0, 400, 6))`: the road rows. */
  const RoadRows: seq<int> := RangeList(0, 400, 6)

  /** The classification made by the patch constructor, as list membership. */
  function KindAt(p: Pos): Kind
  {
    if p.x in RoadColumns || p.y in RoadRows then Road else Building
  }

  predicate OnRoadLattice(p: Pos)
  {
    (0 <= p.x < 400 && p.x % 3 == 0) || (0 <= p.y < 400 && p.y % 6 == 0)
  }

  /** A cell is a road exactly on the periodic lattice, whatever else is known. */
  lemma RoadLattice(p: Pos)
    ensures KindAt(p) == Road <==> OnRoadLattice(p)
    ensures KindAt(p) == Building <==> !OnRoadLattice(p)
  {
    RangeListMembership(p.x, 0, 400, 3);
    RangeListMembership(p.y, 0, 400, 6);
  }

  /** `StreetPatch(unique_id, model, position)`. */
  function NewStreetPatch(id: int, pos: Pos): (patch: Patch)
    ensures patch.id == id && patch.pos == pos
    ensures patch.kind == Road <==> OnRoadLattice(pos)
  {
    RoadLattice(pos);
    Patch(id, pos, KindAt(pos))
  }

  /**
   * The patches of Mesa's MultiGrid: each cell lists the patches placed in it.
   * Civilians and cops on the grid are not part of this map; see README.md.
   */
  datatype Grid = Grid(width: nat, height: nat, cells: map<Pos, seq<Patch>>)

  /** What `get_cell_list_contents` lists for a cell; a cell never placed into is empty. */
  function CellContents(g: Grid, p: Pos): seq<Patch>
  {
    if p in g.cells then g.cells[p] else []
  }

  /** Every cell of the grid holds exactly one street patch built for that cell, and nothing lies outside. */
  ghost predicate Built(g: Grid)
  {
    && (forall p :: p in g.cells <==> InBounds(p, g.width, g.height))
    && (forall p :: p in g.cells ==> |g.cells[p]| == 1 && g.cells[p][0] == NewStreetPatch(g.cells[p][0].id, p))
  }

  /** The one patch of an in-bounds cell of a built grid. */
  function PatchAt(g: Grid, p: Pos): (patch: Patch)
    requires Built(g) && InBounds(p, g.width, g.height)
    ensures CellContents(g, p) == [patch]
    ensures patch.pos == p && patch.kind == KindAt(p)
  {
    g.cells[p][0]
  }
}
