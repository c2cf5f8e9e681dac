/**
 * Civilians (agent.py, class Civilian): the moving / arrived / waiting cycle
 * between home and activity nodes, the per-tick step, and victim selection.
 */
module Civilians {
  import opened Draws
  import opened Geometry
  import opened StreetPatches
  import opened Agents
  import opened Movement

  /** The fields `move` reads and writes. */
  datatype CivState = CivState(
    pos: Pos,
    prevPos: Pos,
    home: Pos,
    activityNodes: seq<Pos>,
    moving: Phase,
    destination: Pos,
    timer: int)

  /** A Python value that can meet a position tuple in an `in` test. */
  datatype PyValue = PyInt(i: int) | PyPair(first: int, second: int)

  /** The position tuple seen as the sequence of its components. */
  function AsTuple(p: Pos): seq<PyValue>
  {
    [PyInt(p.x), PyInt(p.y)]
  }

  /**
   * `[a_node for a_node in activity_nodes if a_node not in self.pos]`.
   * The test compares a pair with each integer of the tuple, so it never
   * holds and the filter removes nothing.
   */
  function NotInPosFilter(nodes: seq<Pos>, pos: Pos): (kept: seq<Pos>)
    ensures kept == nodes
  {
    if nodes == [] then []
    else
      var a := nodes[0];
      (if PyPair(a.x, a.y) !in AsTuple(pos) then [a] else []) + NotInPosFilter(nodes[1..], pos)
  }

  /** The destination once the first part of a `moving` call has run; `None` when the choice raises. */
  function NextDestination(s: CivState, d: MoveDraws): Option<Pos>
  {
    if s.pos == s.home then Choice(s.activityNodes, d.nodePick)
    else if s.pos == s.destination then
      if d.homeward <= 79 then Some(s.home)
      else Choice(NotInPosFilter(s.activityNodes, s.pos), d.nodePick)
    else Some(s.destination)
  }

  /** The timer set on arrival: `1 + int(uniform(0, 600))` at home, `15 + int(uniform(0, 4))` elsewhere. */
  function DwellTime(atHome: bool, d: MoveDraws): int
  {
    if atHome then 1 + d.homeDwell else 15 + d.awayDwell
  }

  /** One call of `Civilian.move`; `None` when it raises. */
  function CivMove(s: CivState, g: Grid, d: MoveDraws): Option<CivState>
    requires Built(g)
  {
    match s.moving
    case Moving =>
      (match NextDestination(s, d)
       case None => None
       case Some(dest) =>
         VonNeumannExact(s.pos, g.width, g.height);
         match NextStep(g, VonNeumann(s.pos, g.width, g.height), s.pos, s.prevPos, dest, d.go, d.tie, d.pick)
         case None => None
         case Some(st) =>
           Some(s.(pos := st.pos, prevPos := st.prevPos, destination := dest,
                   moving := if st.arrived then Arrived else Moving)))
    case Arrived =>
      Some(s.(prevPos := s.pos, moving := Waiting, timer := DwellTime(s.pos == s.home, d)))
    case Waiting =>
      if s.timer == 0 then Some(s.(moving := Moving)) else Some(s.(timer := s.timer - 1))
  }

  /** The state after the moves of one step and whether none of them raised. */
  datatype CivRun = CivRun(state: CivState, ok: bool)

  /** The `move` calls of one `step`, one per draw record, stopping at the first that raises. */
  function RunMoves(s: CivState, g: Grid, draws: seq<MoveDraws>): CivRun
    requires Built(g)
    decreases |draws|
  {
    if draws == [] then CivRun(s, true)
    else
      match CivMove(s, g, draws[0])
      case None => CivRun(s, false)
      case Some(s') => RunMoves(s', g, draws[1..])
  }

  /** The ids other than the offender's: `[i for i in filtered_cell if i not in the_offender]`. */
  function Others(ids: seq<int>, self: int): (others: seq<int>)
    ensures forall v :: v in others <==> v in ids && v != self
    decreases |ids|
  {
    if ids == [] then []
    else
      var init := Others(ids[..|ids| - 1], self);
      var v := ids[|ids| - 1];
      assert forall w :: w in ids <==> w in ids[..|ids| - 1] || w == v;
      if v != self then init + [v] else init
  }

  /**
   * The victim `offend` picks, or `None` when it returns without one.  It only
   * picks when the offender has a propensity and shares the cell with at
   * least one other civilian; the victim is another civilian of the cell.
   */
  function OffendChoice(propensity: int, self: int, occupants: seq<Occupant>, pick: nat): (victim: Option<int>)
    requires Distinct(CivilianIds(occupants))
    ensures victim.Some? <==> propensity > 0 && |CivilianIds(occupants)| > 1
    ensures victim.Some? ==> victim.value != self && victim.value in CivilianIds(occupants)
  {
    var civilians := CivilianIds(occupants);
    if propensity > 0 && |civilians| > 1 then
      var others := Others(civilians, self);
      assert civilians[0] != civilians[1];
      assert civilians[0] in others || civilians[1] in others;
      Choice(others, pick)
    else None
  }

  /** A civilian whose activity list is not empty never raises in `move`. */
  lemma CivMoveDefined(s: CivState, g: Grid, d: MoveDraws)
    requires Built(g) && |s.activityNodes| > 0
    ensures CivMove(s, g, d).Some?
  {
    if s.moving == Moving {
      var dest := NextDestination(s, d).value;
      VonNeumannExact(s.pos, g.width, g.height);
      StepDefined(g, VonNeumann(s.pos, g.width, g.height), s.pos, s.prevPos, dest, d.go, d.tie, d.pick);
    }
  }

  /**
   * `move` raises exactly when it must draw an activity node and the list is
   * empty: at home, or at the destination when the draw does not send it home.
   */
  lemma CivMoveRaises(s: CivState, g: Grid, d: MoveDraws)
    requires Built(g)
    ensures CivMove(s, g, d).None? <==>
      && s.moving == Moving
      && |s.activityNodes| == 0
      && (s.pos == s.home || (s.pos == s.destination && d.homeward > 79))
  {
    if s.moving == Moving && NextDestination(s, d).Some? {
      var dest := NextDestination(s, d).value;
      VonNeumannExact(s.pos, g.width, g.height);
      StepDefined(g, VonNeumann(s.pos, g.width, g.height), s.pos, s.prevPos, dest, d.go, d.tie, d.pick);
    }
  }

  /**
   * The cycle moving -> arrived -> waiting -> moving: arriving only at the
   * destination, waiting out the timer, and leaving only when it reads 0.
   */
  lemma CivPhaseCycle(s: CivState, g: Grid, d: MoveDraws)
    requires Built(g) && CivMove(s, g, d).Some?
    ensures var r := CivMove(s, g, d).value;
      && (s.moving == Moving ==> r.moving != Waiting && (r.moving == Arrived ==> r.pos == r.destination))
      && (s.moving == Arrived ==> r.moving == Waiting && r.pos == s.pos && r.prevPos == s.pos)
      && (s.moving == Waiting ==> r.moving != Arrived && r.pos == s.pos
                                  && (r.moving == Moving <==> s.timer == 0)
                                  && (s.timer != 0 ==> r.timer == s.timer - 1))
  {
  }

  /** The dwell timer set on arrival lies in [1, 600] at home and in [15, 18] elsewhere. */
  lemma CivDwellBounds(s: CivState, g: Grid, d: MoveDraws)
    requires Built(g) && s.moving == Arrived
    requires d.homeDwell < 600 && d.awayDwell < 4
    ensures CivMove(s, g, d).Some?
    ensures var r := CivMove(s, g, d).value;
      && (s.pos == s.home ==> 1 <= r.timer <= 600)
      && (s.pos != s.home ==> 15 <= r.timer <= 18)
  {
  }

  /** The timer never goes negative. */
  lemma CivTimerNonNegative(s: CivState, g: Grid, d: MoveDraws)
    requires Built(g) && s.timer >= 0 && CivMove(s, g, d).Some?
    ensures CivMove(s, g, d).value.timer >= 0
  {
  }

  /** Over a whole step the timer stays non-negative. */
  lemma {:induction false} RunKeepsTimer(s: CivState, g: Grid, draws: seq<MoveDraws>)
    requires Built(g) && s.timer >= 0
    ensures RunMoves(s, g, draws).state.timer >= 0
    decreases |draws|
  {
    if draws != [] {
      match CivMove(s, g, draws[0])
      case None =>
      case Some(s') =>
        CivTimerNonNegative(s, g, draws[0]);
        RunKeepsTimer(s', g, draws[1..]);
    }
  }

  /**
   * Re-selection of the destination: from home, one of the activity nodes;
   * from the destination, home when the draw is at most 79 and an activity
   * node otherwise; anywhere else the destination is kept.
   */
  lemma CivDestinationChoice(s: CivState, g: Grid, d: MoveDraws)
    requires Built(g) && s.moving == Moving && CivMove(s, g, d).Some?
    ensures var r := CivMove(s, g, d).value;
      && (s.pos == s.home ==> r.destination in s.activityNodes)
      && (s.pos != s.home && s.pos == s.destination && d.homeward <= 79 ==> r.destination == s.home)
      && (s.pos != s.home && s.pos == s.destination && d.homeward > 79 ==> r.destination in s.activityNodes)
      && (s.pos != s.home && s.pos != s.destination ==> r.destination == s.destination)
  {
  }

  /** A destination one cell away on the grid, road or building, is reached in the same call. */
  lemma CivArrivesWhenAdjacent(s: CivState, g: Grid, d: MoveDraws)
    requires Built(g) && s.moving == Moving && CivMove(s, g, d).Some?
    requires var dest := NextDestination(s, d).value;
      Adjacent(dest, s.pos) && InBounds(dest, g.width, g.height)
    ensures var r := CivMove(s, g, d).value;
      r.pos == r.destination && r.moving == Arrived && r.prevPos == s.prevPos
  {
    VonNeumannExact(s.pos, g.width, g.height);
  }

  /**
   * A `moving` call that does not arrive records the old cell as `prev_pos` and
   * either stands still or steps onto an adjacent road cell other than the old `prev_pos`.
   */
  lemma CivStepNeverBacktracks(s: CivState, g: Grid, d: MoveDraws)
    requires Built(g) && s.moving == Moving && CivMove(s, g, d).Some?
    ensures var r := CivMove(s, g, d).value;
      r.moving == Moving ==>
        && r.prevPos == s.pos
        && (r.pos == s.pos || (Adjacent(r.pos, s.pos) && KindAt(r.pos) == Road && r.pos != s.prevPos))
  {
    var dest := NextDestination(s, d).value;
    VonNeumannExact(s.pos, g.width, g.height);
    StepNeverBacktracks(g, VonNeumann(s.pos, g.width, g.height), s.pos, s.prevPos, dest, d.go, d.tie, d.pick);
  }

  class Civilian {
    const id: int
    var pos: Pos
    var prevPos: Pos
    const home: Pos
    const activityNodes: seq<Pos>
    var moving: Phase
    var destination: Pos
    var timer: int
    const travelSpeed: int
    const criminalPropensity: int
    const ethnicity: Ethnicity

    function State(): CivState
      reads this
    {
      CivState(pos, prevPos, home, activityNodes, moving, destination, timer)
    }

    /** The constructor; `ethnicDraw` is the `randint(0, 101)` drawn by `assign_ethnic`. */
    constructor (id: int, position: Pos, prevPosition: Pos, activityNodes: seq<Pos>, moving: Phase,
                 destination: Pos, timer: int, criminalPropensity: int, travelSpeed: int, ethnicDraw: int)
      ensures this.id == id && this.criminalPropensity == criminalPropensity && this.travelSpeed == travelSpeed
      ensures State() == CivState(position, prevPosition, position, activityNodes, moving, destination, timer)
      ensures ethnicity == AssignEthnic(ethnicDraw)
    {
      this.id := id;
      pos := position;
      this.ethnicity := AssignEthnic(ethnicDraw);
      home := position;
      prevPos := prevPosition;
      this.activityNodes := activityNodes;
      this.moving := moving;
      this.destination := destination;
      this.timer := timer;
      this.travelSpeed := travelSpeed;
      this.criminalPropensity := criminalPropensity;
    }

    /** `move`: one sub-step of the state machine.  `ok` is false when the call raises. */
    method Move(g: Grid, d: MoveDraws) returns (ok: bool)
      requires Built(g)
      modifies this
      ensures var r := CivMove(old(State()), g, d);
        ok == r.Some? && State() == if ok then r.value else old(State())
    {
      ghost var s0 := State();
      if moving == Moving {
        if pos == home {
          var c := Choice(activityNodes, d.nodePick);
          if c.None? {
            return false;
          }
          destination := c.value;
        } else if pos == destination {
          if d.homeward <= 79 {
            destination := home;
          } else {
            var c := Choice(NotInPosFilter(activityNodes, pos), d.nodePick);
            if c.None? {
              return false;
            }
            destination := c.value;
          }
        }
        assert NextDestination(s0, d) == Some(destination);
        var nbhd := VonNeumann(pos, g.width, g.height);
        VonNeumannExact(pos, g.width, g.height);
        var next, newPrev, arrived := TakeStep(g, nbhd, pos, prevPos, destination, d.go, d.tie, d.pick);
        pos, prevPos := next, newPrev;
        if arrived {
          moving := Arrived;
        }
      } else if moving == Arrived {
        prevPos := pos;
        moving := Waiting;
        if pos == home {
          timer := 1 + d.homeDwell;
        } else {
          timer := 15 + d.awayDwell;
        }
      } else {
        if timer == 0 {
          moving := Moving;
        } else {
          timer := timer - 1;
        }
      }
      return true;
    }

    /**
     * `offend`: look for a victim among the civilians of the offender's cell.
     * Nothing is changed; the victim picked is returned.
     */
    method Offend(occupants: seq<Occupant>, pick: nat) returns (victim: Option<int>)
      requires Distinct(CivilianIds(occupants))
      ensures victim == OffendChoice(criminalPropensity, id, occupants, pick)
    {
      victim := None;
      if criminalPropensity > 0 {
        var filtered: seq<int> := [];
        for i := 0 to |occupants|
          invariant filtered == CivilianIds(occupants[..i])
        {
          assert occupants[..i + 1][..i] == occupants[..i];
          if Typ(occupants[i]) == "civilian" {
            filtered := filtered + [occupants[i].id];
          }
        }
        assert occupants[..|occupants|] == occupants;
        if |filtered| > 1 {
          victim := Choice(Others(filtered, id), pick);
        }
      }
    }

    /**
     * `step`: `travel_speed` calls of `move`, one draw record each, then one
     * call of `offend` on the agents of the civilian's cell.
     */
    method Step(g: Grid, draws: seq<MoveDraws>, occupants: seq<Occupant>, victimPick: nat)
      returns (ok: bool, victim: Option<int>)
      requires Built(g) && |draws| == Runs(travelSpeed)
      requires Distinct(CivilianIds(occupants))
      modifies this
      ensures var run := RunMoves(old(State()), g, draws);
        ok == run.ok && State() == run.state
      ensures victim == if ok then OffendChoice(criminalPropensity, id, occupants, victimPick) else None
    {
      var runTimes := travelSpeed;
      var k := 0;
      if runTimes > 0 {
        while runTimes > 0
          invariant 0 <= runTimes && k + runTimes == travelSpeed
          invariant RunMoves(old(State()), g, draws) == RunMoves(State(), g, draws[k..])
        {
          runTimes := runTimes - 1;
          var moved := Move(g, draws[k]);
          if !moved {
            return false, None;
          }
          k := k + 1;
        }
      }
      assert draws[k..] == [];
      victim := Offend(occupants, victimPick);
      ok := true;
    }
  }
}
