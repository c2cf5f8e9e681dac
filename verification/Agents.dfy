/** What every agent exposes to the grid and the scheduler, and the ethnicity draw. */
module Agents {
  import opened Geometry
  import opened StreetPatches

  datatype Ethnicity = White | Other | Asian | Black

  /** Shares of the London population in 2020, in percent. */
  const WhitePop: real := 44.9
  const OtherPop: real := 23.3
  const AsianPop: real := 18.5
  /** Declared beside the others but never compared against. */
  const BlackPop: real := 13.3

  /** `Civilian.assign_ethnic` for the draw `randNr = randint(0, 101)`. */
  function AssignEthnic(randNr: int): Ethnicity
  {
    var r := randNr as real;
    if r <= WhitePop then White
    else if WhitePop < r <= OtherPop + WhitePop then Other
    else if WhitePop + OtherPop < r <= OtherPop + WhitePop + AsianPop then Asian
    else Black
  }

  /** The integer draws fall into four bands of 45, 24, 18 and 15 values. */
  lemma AssignEthnicBands(randNr: int)
    requires 0 <= randNr <= 101
    ensures AssignEthnic(randNr) == White <==> randNr <= 44
    ensures AssignEthnic(randNr) == Other <==> 45 <= randNr <= 68
    ensures AssignEthnic(randNr) == Asian <==> 69 <= randNr <= 86
    ensures AssignEthnic(randNr) == Black <==> 87 <= randNr
  {
  }

  /**
   * An agent as the scheduler and the grid hold it.  An id stands for the
   * Python object, so two occupants are the same agent exactly when their ids agree.
   */
  datatype Occupant =
    | PatchAgent(patch: Patch)
    | CivilianAgent(id: int, pos: Pos, ethnicity: Ethnicity)
    | CopAgent(id: int, pos: Pos)

  /** The agent's `typ` attribute. */
  function Typ(a: Occupant): string
  {
    match a
    case PatchAgent(p) => if p.kind == Road then "road" else "building"
    case CivilianAgent(_, _, _) => "civilian"
    case CopAgent(_, _) => "cop"
  }

  /** The ids of the civilians among `occupants`, in order. */
  function CivilianIds(occupants: seq<Occupant>): (ids: seq<int>)
    ensures |ids| <= |occupants|
    ensures forall a :: a in occupants && Typ(a) == "civilian" ==> a.id in ids
    ensures forall v :: v in ids ==> exists a :: a in occupants && a.CivilianAgent? && a.id == v
    decreases |occupants|
  {
    if occupants == [] then []
    else
      var a := occupants[|occupants| - 1];
      var init := CivilianIds(occupants[..|occupants| - 1]);
      assert forall b :: b in occupants <==> b in occupants[..|occupants| - 1] || b == a;
      if Typ(a) == "civilian" then init + [a.id] else init
  }
}
