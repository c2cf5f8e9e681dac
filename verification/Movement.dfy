/**
 * The greedy one-step movement heuristic that `Civilian.move` and `Cop.move`
 * both carry (the two bodies are copies; it is defined once here).
 * From the road cells around the agent it either jumps onto an adjacent
 * destination or takes a step that shrinks the distance on some axis,
 * falling back to the first other road cell, or stands still.
 */
module Movement {
  import opened Draws
  import opened Geometry
  import opened StreetPatches

  /** The movement state `self.moving`. */
  datatype Phase = Moving | Arrived | Waiting

  /** The draws one call of `move` may consume. */
  datatype MoveDraws = MoveDraws(
    nodePick: nat,  // random.choice of a new destination
    homeward: int,  // randint(0, 100) at a civilian's destination
    go: int,        // randint(0, 100) before a direction is chosen
    tie: int,       // randint(0, 100) when two good directions exist
    pick: nat,      // random.choice among the good directions
    homeDwell: nat, // int(uniform(0, 600)) on arriving home
    awayDwell: nat) // int(uniform(0, 4)) on arriving elsewhere

  /** Where one call leaves the agent, its new `prev_pos`, and whether it reached its destination. */
  datatype Step = Step(pos: Pos, prevPos: Pos, arrived: bool)

  /** The lists `right_dir` and `wrong_dir`. */
  datatype Split = Split(toward: seq<Pos>, away: seq<Pos>)

  /** Moving from `pos` to `c` shrinks `|dx|` or `|dy|` to the destination. */
  predicate Closer(c: Pos, pos: Pos, dest: Pos)
  {
    Abs(dest.x - c.x) < Abs(dest.x - pos.x) || Abs(dest.y - c.y) < Abs(dest.y - pos.y)
  }

  /** The test that assigns `best_position`: a step along the axis with the larger (or equal) offset. */
  predicate Favoured(c: Pos, pos: Pos, dest: Pos)
  {
    var dx, dy := Abs(dest.x - pos.x), Abs(dest.y - pos.y);
    (dx >= dy && c.x != pos.x) || (dx <= dy && c.y != pos.y)
  }

  /** What Mesa returns for a radius-1 von Neumann neighbourhood, in whatever order it lists it. */
  predicate Neighbourhood(nbhd: seq<Pos>, pos: Pos, g: Grid)
  {
    Distinct(nbhd) && forall c <- nbhd :: Adjacent(c, pos) && InBounds(c, g.width, g.height)
  }

  /** `road_neighbours`: the road cells of the neighbourhood other than the destination. */
  function RoadNeighbours(g: Grid, nbhd: seq<Pos>, dest: Pos): (roads: seq<Pos>)
    requires Built(g)
    requires forall c <- nbhd :: InBounds(c, g.width, g.height)
    ensures forall c :: c in roads <==> c in nbhd && c != dest && KindAt(c) == Road
    ensures Distinct(nbhd) ==> Distinct(roads)
    decreases |nbhd|
  {
    if nbhd == [] then []
    else
      var last := nbhd[|nbhd| - 1];
      var init := RoadNeighbours(g, nbhd[..|nbhd| - 1], dest);
      assert forall c :: c in nbhd <==> c in nbhd[..|nbhd| - 1] || c == last;
      assert Distinct(nbhd) ==> last !in nbhd[..|nbhd| - 1];
      if last != dest && PatchAt(g, last).kind == Road then init + [last] else init
  }

  /**
   * The split of the road neighbours other than `prev_pos`: each lands in
   * exactly one list, in `toward` exactly when it is closer on some axis.
   */
  function Partition(roads: seq<Pos>, prev: Pos, pos: Pos, dest: Pos): (split: Split)
    ensures forall c :: c in split.toward <==> c in roads && c != prev && Closer(c, pos, dest)
    ensures forall c :: c in split.away <==> c in roads && c != prev && !Closer(c, pos, dest)
    ensures Distinct(roads) ==> Distinct(split.toward) && Distinct(split.away)
    decreases |roads|
  {
    if roads == [] then Split([], [])
    else
      var c := roads[|roads| - 1];
      var init := Partition(roads[..|roads| - 1], prev, pos, dest);
      assert forall e :: e in roads <==> e in roads[..|roads| - 1] || e == c;
      assert Distinct(roads) ==> c !in roads[..|roads| - 1];
      if c == prev then init
      else if Closer(c, pos, dest) then Split(init.toward + [c], init.away)
      else Split(init.toward, init.away + [c])
  }

  /** `toward[i]` is favoured and no later entry of `toward` is. */
  predicate LastFavoured(toward: seq<Pos>, i: int, pos: Pos, dest: Pos)
  {
    && 0 <= i < |toward|
    && Favoured(toward[i], pos, dest)
    && forall j :: i < j < |toward| ==> !Favoured(toward[j], pos, dest)
  }

  /** An entry that is last favoured before an unfavoured one stays last favoured. */
  lemma LastFavouredExtend(toward: seq<Pos>, i: int, pos: Pos, dest: Pos)
    requires toward != [] && !Favoured(toward[|toward| - 1], pos, dest)
    requires LastFavoured(toward[..|toward| - 1], i, pos, dest)
    ensures LastFavoured(toward, i, pos, dest) && toward[i] == toward[..|toward| - 1][i]
  {
  }

  /** `best_position` after the loop over `right_dir`: the last favoured entry, or unbound. */
  function BestPosition(toward: seq<Pos>, pos: Pos, dest: Pos): (best: Option<Pos>)
    ensures best.Some? <==> exists c :: c in toward && Favoured(c, pos, dest)
    ensures best.Some? ==> best.value in toward && Favoured(best.value, pos, dest)
    ensures best.Some? ==> exists i :: LastFavoured(toward, i, pos, dest) && toward[i] == best.value
    decreases |toward|
  {
    if toward == [] then None
    else
      var n := |toward| - 1;
      var c := toward[n];
      var init := toward[..n];
      assert forall e :: e in toward <==> e in init || e == c;
      if Favoured(c, pos, dest) then
        assert LastFavoured(toward, n, pos, dest);
        Some(c)
      else
        var r := BestPosition(init, pos, dest);
        assert r.Some? ==> exists i :: LastFavoured(toward, i, pos, dest) && toward[i] == r.value by {
          if r.Some? {
            var i :| LastFavoured(init, i, pos, dest) && init[i] == r.value;
            LastFavouredExtend(toward, i, pos, dest);
          }
        }
        r
  }

  /**
   * The choice of the next cell once the two lists are built.  `None` is the
   * UnboundLocalError raised when `best_position` is read but was never assigned.
   */
  function Steer(split: Split, pos: Pos, dest: Pos, go: int, tie: int, pick: nat): (next: Option<Pos>)
    ensures next.None? <==> go <= 98 && |split.toward| > 1 && tie > 80 && BestPosition(split.toward, pos, dest).None?
    ensures go <= 98 && split.toward != [] && next.Some? ==> next.value in split.toward
    ensures (go > 98 || split.toward == []) ==> next == Some(if split.away != [] then split.away[0] else pos)
    ensures go <= 98 && |split.toward| > 1 && tie > 80 && next.Some? ==>
      exists i :: LastFavoured(split.toward, i, pos, dest) && split.toward[i] == next.value
    ensures go <= 98 && split.toward != [] && (|split.toward| == 1 || tie <= 80) ==> next == Choice(split.toward, pick)
  {
    if go <= 98 && |split.toward| > 0 then
      if |split.toward| > 1 then
        if tie > 80 then BestPosition(split.toward, pos, dest) else Choice(split.toward, pick)
      else Choice(split.toward, pick)
    else if |split.away| > 0 then Some(split.away[0])
    else Some(pos)
  }

  /** One call of the movement part of `move`, with the destination already settled. */
  function NextStep(g: Grid, nbhd: seq<Pos>, pos: Pos, prev: Pos, dest: Pos, go: int, tie: int, pick: nat): Option<Step>
    requires Built(g)
    requires forall c <- nbhd :: InBounds(c, g.width, g.height)
  {
    if dest in nbhd || dest == pos then Some(Step(dest, prev, true))
    else
      var split := Partition(RoadNeighbours(g, nbhd, dest), prev, pos, dest);
      match Steer(split, pos, dest, go, tie, pick)
      case None => None
      case Some(next) => Some(Step(next, pos, false))
  }

  /** A step that shrinks one axis offset shrinks the Manhattan distance by exactly one. */
  lemma CloserNeighbourShortens(c: Pos, pos: Pos, dest: Pos)
    requires Adjacent(c, pos) && Closer(c, pos, dest)
    ensures Manhattan(c, dest) + 1 == Manhattan(pos, dest)
  {
  }

  /** Two different good directions are one horizontal and one vertical step. */
  lemma OneGoodStepPerAxis(a: Pos, b: Pos, pos: Pos, dest: Pos)
    requires Adjacent(a, pos) && Closer(a, pos, dest)
    requires Adjacent(b, pos) && Closer(b, pos, dest)
    requires a != b
    ensures (a.x != pos.x) != (b.x != pos.x)
  {
  }

  /** With two or more good directions, the loop always assigns `best_position`. */
  lemma CrowdedTowardHasFavourite(toward: seq<Pos>, pos: Pos, dest: Pos)
    requires Distinct(toward) && |toward| > 1
    requires forall c <- toward :: Adjacent(c, pos) && Closer(c, pos, dest)
    ensures BestPosition(toward, pos, dest).Some?
  {
    var a, b := toward[0], toward[1];
    OneGoodStepPerAxis(a, b, pos, dest);
    var (h, v) := if a.x != pos.x then (a, b) else (b, a);
    if Abs(dest.x - pos.x) >= Abs(dest.y - pos.y) {
      assert Favoured(h, pos, dest);
    } else {
      assert Favoured(v, pos, dest);
    }
  }

  /** On a real neighbourhood a step never raises. */
  lemma StepDefined(g: Grid, nbhd: seq<Pos>, pos: Pos, prev: Pos, dest: Pos, go: int, tie: int, pick: nat)
    requires Built(g) && Neighbourhood(nbhd, pos, g)
    ensures NextStep(g, nbhd, pos, prev, dest, go, tie, pick).Some?
  {
    if dest !in nbhd && dest != pos {
      var split := Partition(RoadNeighbours(g, nbhd, dest), prev, pos, dest);
      if go <= 98 && |split.toward| > 1 {
        CrowdedTowardHasFavourite(split.toward, pos, dest);
      }
    }
  }

  /**
   * The agent arrives exactly when the destination is a neighbour or its own
   * cell; it then stands on the destination and keeps its `prev_pos`.
   */
  lemma StepArrives(g: Grid, nbhd: seq<Pos>, pos: Pos, prev: Pos, dest: Pos, go: int, tie: int, pick: nat)
    requires Built(g) && Neighbourhood(nbhd, pos, g)
    ensures NextStep(g, nbhd, pos, prev, dest, go, tie, pick).Some?
    ensures var st := NextStep(g, nbhd, pos, prev, dest, go, tie, pick).value;
      && (st.arrived <==> dest in nbhd || dest == pos)
      && (st.arrived ==> st.pos == dest && st.prevPos == prev)
  {
    StepDefined(g, nbhd, pos, prev, dest, go, tie, pick);
  }

  /**
   * A step that does not arrive records the old cell as `prev_pos` and either
   * stands still or moves to an adjacent road cell that is not the previous one.
   */
  lemma StepNeverBacktracks(g: Grid, nbhd: seq<Pos>, pos: Pos, prev: Pos, dest: Pos, go: int, tie: int, pick: nat)
    requires Built(g) && Neighbourhood(nbhd, pos, g)
    ensures NextStep(g, nbhd, pos, prev, dest, go, tie, pick).Some?
    ensures var st := NextStep(g, nbhd, pos, prev, dest, go, tie, pick).value;
      !st.arrived ==>
        && st.prevPos == pos
        && (st.pos == pos || (Adjacent(st.pos, pos) && KindAt(st.pos) == Road && st.pos != prev))
  {
    StepDefined(g, nbhd, pos, prev, dest, go, tie, pick);
  }

  /**
   * Where a step that does not arrive can go: a good direction, else the first
   * other road cell, else nowhere; and a good direction cuts the distance by one.
   */
  lemma StepChoices(g: Grid, nbhd: seq<Pos>, pos: Pos, prev: Pos, dest: Pos, go: int, tie: int, pick: nat)
    requires Built(g) && Neighbourhood(nbhd, pos, g)
    requires dest !in nbhd && dest != pos
    ensures NextStep(g, nbhd, pos, prev, dest, go, tie, pick).Some?
    ensures var split := Partition(RoadNeighbours(g, nbhd, dest), prev, pos, dest);
      var next := NextStep(g, nbhd, pos, prev, dest, go, tie, pick).value.pos;
      && (go <= 98 && split.toward != [] ==> next in split.toward && Manhattan(next, dest) + 1 == Manhattan(pos, dest))
      && (go > 98 || split.toward == [] ==> next == if split.away != [] then split.away[0] else pos)
      && (next == pos ==> split.away == [] && (go > 98 || split.toward == []))
  {
    StepDefined(g, nbhd, pos, prev, dest, go, tie, pick);
    var roads := RoadNeighbours(g, nbhd, dest);
    var split := Partition(roads, prev, pos, dest);
    var steered := Steer(split, pos, dest, go, tie, pick);
    assert NextStep(g, nbhd, pos, prev, dest, go, tie, pick) == Some(Step(steered.value, pos, false));
    var next := steered.value;
    if go <= 98 && split.toward != [] {
      assert next in roads && Closer(next, pos, dest);
      assert Adjacent(next, pos);
      CloserNeighbourShortens(next, pos, dest);
    } else if split.away != [] {
      assert split.away[0] in roads;
      assert Adjacent(next, pos);
    }
  }

  /** How many times `step` calls `move` for a given `travel_speed`: the `while run_times > 0` loop. */
  function Runs(travelSpeed: int): nat
  {
    if travelSpeed > 0 then travelSpeed else 0
  }

  /**
   * The scan over the neighbours: jump onto the destination if it is among
   * them, and collect the other road cells.
   */
  method ScanNeighbours(g: Grid, nbhd: seq<Pos>, pos: Pos, dest: Pos) returns (here: Pos, roads: seq<Pos>)
    requires Built(g)
    requires forall c <- nbhd :: InBounds(c, g.width, g.height)
    ensures here == if dest in nbhd then dest else pos
    ensures roads == RoadNeighbours(g, nbhd, dest)
  {
    here, roads := pos, [];
    for i := 0 to |nbhd|
      invariant here == if dest in nbhd[..i] then dest else pos
      invariant roads == RoadNeighbours(g, nbhd[..i], dest)
    {
      assert nbhd[..i + 1][..i] == nbhd[..i];
      assert dest in nbhd[..i + 1] <==> dest in nbhd[..i] || nbhd[i] == dest;
      assert RoadNeighbours(g, nbhd[..i + 1], dest) ==
        if nbhd[i] != dest && PatchAt(g, nbhd[i]).kind == Road then roads + [nbhd[i]] else roads;
      if nbhd[i] == dest {
        here := dest;
      } else if PatchAt(g, nbhd[i]).kind == Road {
        roads := roads + [nbhd[i]];
      }
    }
    assert nbhd[..|nbhd|] == nbhd;
  }

  /** The loop that fills `right_dir` and `wrong_dir`. */
  method SplitRoads(roads: seq<Pos>, prev: Pos, pos: Pos, dest: Pos) returns (toward: seq<Pos>, away: seq<Pos>)
    ensures Split(toward, away) == Partition(roads, prev, pos, dest)
  {
    toward, away := [], [];
    for i := 0 to |roads|
      invariant Split(toward, away) == Partition(roads[..i], prev, pos, dest)
    {
      assert roads[..i + 1][..i] == roads[..i];
      var c := roads[i];
      if c != prev {
        if Closer(c, pos, dest) {
          toward := toward + [c];
        } else {
          away := away + [c];
        }
      }
    }
    assert roads[..|roads|] == roads;
  }

  /** The loop that assigns `best_position`; `None` while it is unbound. */
  method FindBest(toward: seq<Pos>, pos: Pos, dest: Pos) returns (best: Option<Pos>)
    ensures best == BestPosition(toward, pos, dest)
  {
    var dx, dy := Abs(dest.x - pos.x), Abs(dest.y - pos.y);
    best := None;
    for i := 0 to |toward|
      invariant best == BestPosition(toward[..i], pos, dest)
    {
      assert toward[..i + 1][..i] == toward[..i];
      var c := toward[i];
      if dx >= dy && c.x != pos.x {
        best := Some(c);
      } else if dx <= dy && c.y != pos.y {
        best := Some(c);
      }
    }
    assert toward[..|toward|] == toward;
  }

  /** The movement part of `move`, once the destination is settled. */
  method TakeStep(g: Grid, nbhd: seq<Pos>, pos: Pos, prev: Pos, dest: Pos, go: int, tie: int, pick: nat)
    returns (next: Pos, newPrev: Pos, arrived: bool)
    requires Built(g) && Neighbourhood(nbhd, pos, g)
    ensures NextStep(g, nbhd, pos, prev, dest, go, tie, pick) == Some(Step(next, newPrev, arrived))
  {
    var here, roads := ScanNeighbours(g, nbhd, pos, dest);
    if dest == here {
      return here, prev, true;
    }
    var toward, away := SplitRoads(roads, prev, pos, dest);
    if go <= 98 && |toward| > 0 {
      if |toward| > 1 {
        var best := FindBest(toward, pos, dest);
        CrowdedTowardHasFavourite(toward, pos, dest);
        if tie > 80 {
          next := best.value;
        } else {
          next := toward[pick % |toward|];
        }
      } else {
        next := toward[pick % |toward|];
      }
    } else if |away| > 0 {
      next := away[0];
    } else {
      next := pos;
    }
    newPrev, arrived := pos, false;
  }
}
