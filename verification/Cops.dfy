/**
 * Cops (agent.py, class Cop): the moving -> arrived -> moving patrol cycle
 * with a fresh random road destination each time one is reached.
 */
module Cops {
  import opened Draws
  import opened Geometry
  import opened StreetPatches
  import opened Agents
  import opened Movement

  /** The fields `move` reads and writes. */
  datatype CopState = CopState(
    pos: Pos,
    prevPos: Pos,
    home: Pos,
    patrolNode: Pos,
    moving: Phase,
    destination: Pos,
    timer: int)

  /** `list_of_roads`: the positions of the road patches among the scheduled agents, in order. */
  function RoadPositions(scheduled: seq<Occupant>): (roads: seq<Pos>)
    ensures forall p :: p in roads <==> exists a :: a in scheduled && a.PatchAgent? && a.patch.kind == Road && a.patch.pos == p
    decreases |scheduled|
  {
    if scheduled == [] then []
    else
      var a := scheduled[|scheduled| - 1];
      var init := RoadPositions(scheduled[..|scheduled| - 1]);
      assert forall b :: b in scheduled <==> b in scheduled[..|scheduled| - 1] || b == a;
      if a.PatchAgent? && Typ(a) == "road" then init + [a.patch.pos] else init
  }

  /**
   * `random_patrol_node_generator`: a road patch position drawn from the
   * schedule, or `None` when the schedule holds no road patch and the choice raises.
   */
  lemma PatrolNodeIsRoad(scheduled: seq<Occupant>, k: nat)
    ensures var node := Choice(RoadPositions(scheduled), k);
      && (node.Some? <==> exists a :: a in scheduled && a.PatchAgent? && a.patch.kind == Road)
      && (node.Some? ==> exists a :: a in scheduled && a.PatchAgent? && a.patch.kind == Road && a.patch.pos == node.value)
  {
    if exists a :: a in scheduled && a.PatchAgent? && a.patch.kind == Road {
      var a :| a in scheduled && a.PatchAgent? && a.patch.kind == Road;
      assert a.patch.pos in RoadPositions(scheduled);
    }
  }

  /** One call of `Cop.move` against the scheduled agents; `None` when it raises. */
  function CopMove(s: CopState, g: Grid, scheduled: seq<Occupant>, d: MoveDraws): Option<CopState>
    requires Built(g)
  {
    match s.moving
    case Moving =>
      (match (if s.pos == s.destination then Choice(RoadPositions(scheduled), d.nodePick) else Some(s.destination))
       case None => None
       case Some(dest) =>
         VonNeumannExact(s.pos, g.width, g.height);
         match NextStep(g, VonNeumann(s.pos, g.width, g.height), s.pos, s.prevPos, dest, d.go, d.tie, d.pick)
         case None => None
         case Some(st) =>
           Some(s.(pos := st.pos, prevPos := st.prevPos, destination := dest,
                   moving := if st.arrived then Arrived else Moving)))
    case Arrived => Some(s.(prevPos := s.pos, moving := Moving))
    case Waiting => Some(s)
  }

  /** A cop raises only when it must draw a new destination and no road patch is scheduled. */
  lemma CopMoveDefined(s: CopState, g: Grid, scheduled: seq<Occupant>, d: MoveDraws)
    requires Built(g)
    ensures CopMove(s, g, scheduled, d).None? <==>
      s.moving == Moving && s.pos == s.destination && RoadPositions(scheduled) == []
  {
    if s.moving == Moving {
      var dest := if s.pos == s.destination then Choice(RoadPositions(scheduled), d.nodePick) else Some(s.destination);
      if dest.Some? {
        VonNeumannExact(s.pos, g.width, g.height);
        StepDefined(g, VonNeumann(s.pos, g.width, g.height), s.pos, s.prevPos, dest.value, d.go, d.tie, d.pick);
      }
    }
  }

  /**
   * The cycle moving -> arrived -> moving: arriving only at the destination,
   * and on the next call resetting `prev_pos` and moving on without a dwell.
   * A cop never enters `waiting`.
   */
  lemma CopPhaseCycle(s: CopState, g: Grid, scheduled: seq<Occupant>, d: MoveDraws)
    requires Built(g) && CopMove(s, g, scheduled, d).Some?
    ensures var r := CopMove(s, g, scheduled, d).value;
      && (s.moving == Moving ==> r.moving != Waiting && (r.moving == Arrived ==> r.pos == r.destination))
      && (s.moving == Arrived ==> r == s.(prevPos := s.pos, moving := Moving))
      && (s.moving != Waiting ==> r.moving != Waiting)
  {
  }

  /** A destination drawn on reaching the old one is the position of a scheduled road patch. */
  lemma CopDestinationIsRoad(s: CopState, g: Grid, scheduled: seq<Occupant>, d: MoveDraws)
    requires Built(g) && s.moving == Moving && s.pos == s.destination
    requires forall a <- scheduled :: a.PatchAgent? ==> a.patch == NewStreetPatch(a.patch.id, a.patch.pos)
    requires CopMove(s, g, scheduled, d).Some?
    ensures var r := CopMove(s, g, scheduled, d).value;
      r.destination in RoadPositions(scheduled) && KindAt(r.destination) == Road
  {
  }

  /** The state after the moves of one step and whether none of them raised. */
  datatype CopRun = CopRun(state: CopState, ok: bool)

  /** The `move` calls of one `step`, one per draw record, stopping at the first that raises. */
  function RunPatrol(s: CopState, g: Grid, scheduled: seq<Occupant>, draws: seq<MoveDraws>): CopRun
    requires Built(g)
    decreases |draws|
  {
    if draws == [] then CopRun(s, true)
    else
      match CopMove(s, g, scheduled, draws[0])
      case None => CopRun(s, false)
      case Some(s') => RunPatrol(s', g, scheduled, draws[1..])
  }

  class Cop {
    const id: int
    var pos: Pos
    var prevPos: Pos
    const home: Pos
    const patrolNode: Pos
    var moving: Phase
    var destination: Pos
    var timer: int
    const travelSpeed: int

    function State(): CopState
      reads this
    {
      CopState(pos, prevPos, home, patrolNode, moving, destination, timer)
    }

    constructor (id: int, position: Pos, prevPosition: Pos, patrolNode: Pos, moving: Phase,
                 destination: Pos, timer: int, travelSpeed: int)
      ensures this.id == id && this.travelSpeed == travelSpeed
      ensures State() == CopState(position, prevPosition, position, patrolNode, moving, destination, timer)
    {
      this.id := id;
      pos := position;
      home := position;
      prevPos := prevPosition;
      this.patrolNode := patrolNode;
      this.moving := moving;
      this.destination := destination;
      this.timer := timer;
      this.travelSpeed := travelSpeed;
    }

    /** `random_patrol_node_generator`: collect the road patches of the schedule and draw one. */
    method RandomPatrolNode(scheduled: seq<Occupant>, k: nat) returns (node: Option<Pos>)
      ensures node == Choice(RoadPositions(scheduled), k)
    {
      var listOfRoads: seq<Pos> := [];
      for i := 0 to |scheduled|
        invariant listOfRoads == RoadPositions(scheduled[..i])
      {
        assert scheduled[..i + 1][..i] == scheduled[..i];
        var a := scheduled[i];
        if a.PatchAgent? && Typ(a) == "road" {
          listOfRoads := listOfRoads + [a.patch.pos];
        }
      }
      assert scheduled[..|scheduled|] == scheduled;
      node := Choice(listOfRoads, k);
    }

    /** `move`: one sub-step of the patrol cycle.  `ok` is false when the call raises. */
    method Move(g: Grid, scheduled: seq<Occupant>, d: MoveDraws) returns (ok: bool)
      requires Built(g)
      modifies this
      ensures var r := CopMove(old(State()), g, scheduled, d);
        ok == r.Some? && State() == if ok then r.value else old(State())
    {
      ghost var s0 := State();
      if moving == Moving {
        if pos == destination {
          var node := RandomPatrolNode(scheduled, d.nodePick);
          if node.None? {
            return false;
          }
          destination := node.value;
        }
        assert (if s0.pos == s0.destination then Choice(RoadPositions(scheduled), d.nodePick) else Some(s0.destination)) == Some(destination);
        var nbhd := VonNeumann(pos, g.width, g.height);
        VonNeumannExact(pos, g.width, g.height);
        var next, newPrev, arrived := TakeStep(g, nbhd, pos, prevPos, destination, d.go, d.tie, d.pick);
        pos, prevPos := next, newPrev;
        if arrived {
          moving := Arrived;
        }
      } else if moving == Arrived {
        prevPos := pos;
        moving := Moving;
      }
      return true;
    }

    /** `step`: `travel_speed` calls of `move`, one draw record each. */
    method Step(g: Grid, scheduled: seq<Occupant>, draws: seq<MoveDraws>) returns (ok: bool)
      requires Built(g) && |draws| == Runs(travelSpeed)
      modifies this
      ensures var run := RunPatrol(old(State()), g, scheduled, draws);
        ok == run.ok && State() == run.state
    {
      var runTimes := travelSpeed;
      var k := 0;
      if runTimes > 0 {
        while runTimes > 0
          invariant 0 <= runTimes && k + runTimes == travelSpeed
          invariant RunPatrol(old(State()), g, scheduled, draws) == RunPatrol(State(), g, scheduled, draws[k..])
        {
          runTimes := runTimes - 1;
          var moved := Move(g, scheduled, draws[k]);
          if !moved {
            return false;
          }
          k := k + 1;
        }
      }
      assert draws[k..] == [];
      ok := true;
    }
  }
}
