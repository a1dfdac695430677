/** Units: the arrival rule that ends a move order, and the spawning of
    carrot units from harvest events. */
module Units {
  import opened Options
  import opened Geometry
  import Plots
  import opened Selection

  datatype UnitState = Idle | Move | Chase | Attack

  /** A player order: walk to a point, or walk there attacking on the way. */
  datatype UnitCommand = Move(dest: Vec2) | AttackMove(dest: Vec2)

  datatype Unit = Unit(
    state: UnitState,
    command: Option<UnitCommand>,
    moveSpeed: real,
    aggroRange: real,
    leashRange: real,
    lastTargetPos: Vec2)

  /** The default unit: idle, no order, zero stats, last target at the origin. */
  const DefaultUnit: Unit := Unit(UnitState.Idle, None, 0.0, 0.0, 0.0, Vec2(0.0, 0.0))

  /** A unit this close to its destination has arrived. */
  const ArrivalDistance: real := 4.0

  /** The order a unit at `pos` still has after the arrival check. */
  function Arrive(u: Unit, pos: Vec3): (r: Unit)
    // an order is only ever dropped, and the unit's stats are kept
    ensures r == u || (u.command.Some? && r.command.None? && r.state == UnitState.Idle)
    ensures r.moveSpeed == u.moveSpeed && r.aggroRange == u.aggroRange && r.leashRange == u.leashRange
  {
    match u.command
    case None => u
    case Some(c) =>
      if WithinRadius(Truncate(pos), c.dest, ArrivalDistance)
      then u.(lastTargetPos := c.dest, command := None, state := UnitState.Idle)
      else u
  }

  /** A unit with an order whose destination is within 4.0 drops the order,
      goes idle and remembers the destination; nothing else changes. */
  lemma ArrivalClearsCommand(u: Unit, pos: Vec3)
    requires u.command.Some?
    requires DistSq(Truncate(pos), u.command.value.dest) <= ArrivalDistance * ArrivalDistance
    ensures Arrive(u, pos) == u.(command := None, state := UnitState.Idle, lastTargetPos := u.command.value.dest)
  {
  }

  /** A unit without an order, or farther than 4.0 from its destination, is
      left exactly as it was. */
  lemma NotArrivedUnchanged(u: Unit, pos: Vec3)
    requires u.command.None? || DistSq(Truncate(pos), u.command.value.dest) > ArrivalDistance * ArrivalDistance
    ensures Arrive(u, pos) == u
  {
  }

  /** Move and AttackMove to the same point arrive together and end alike. */
  lemma MoveAndAttackMoveArriveAlike(u: Unit, pos: Vec3, dest: Vec2)
    ensures Arrive(u.(command := Some(UnitCommand.Move(dest))), pos).command.None?
            == Arrive(u.(command := Some(AttackMove(dest))), pos).command.None?
    ensures Arrive(u.(command := Some(UnitCommand.Move(dest))), pos).command.None? ==>
              Arrive(u.(command := Some(UnitCommand.Move(dest))), pos)
                == Arrive(u.(command := Some(AttackMove(dest))), pos)
  {
  }

  /** Checking arrival twice in the same place changes nothing more. */
  lemma ArriveIdempotent(u: Unit, pos: Vec3)
    ensures Arrive(Arrive(u, pos), pos) == Arrive(u, pos)
  {
  }

  /** The arrival pass over every unit; `positions[i]` is unit `i`'s position. */
  method ProcessUnitCommands(units: array<Unit>, positions: seq<Vec3>)
    requires |positions| == units.Length
    modifies units
    ensures forall i :: 0 <= i < units.Length ==> units[i] == Arrive(old(units[i]), positions[i])
  {
    for i := 0 to units.Length
      invariant forall j :: 0 <= j < i ==> units[j] == Arrive(old(units[j]), positions[j])
      invariant forall j :: i <= j < units.Length ==> units[j] == old(units[j])
    {
      var u := units[i];
      if u.command.Some? {
        var dest := u.command.value.dest;
        if WithinRadius(Truncate(positions[i]), dest, ArrivalDistance) {
          units[i] := u.(lastTargetPos := dest, command := None, state := UnitState.Idle);
        }
      }
    }
  }

  // ---------------------------------------------------------------------------
  // Harvest events become units
  // ---------------------------------------------------------------------------

  /** What spawning a carrot unit creates: its position, its Unit and
      Selectable components, and its one child, a hidden selection arrow. */
  datatype SpawnedUnit = SpawnedUnit(pos: Vec3, unit: Unit, selectable: Selectable, children: seq<Child>)

  /** Spawned units sit at this depth, above the plots. */
  const SpawnDepth: real := 0.1

  /** The unit a carrot harvest at `e.pos` spawns. */
  function SpawnFor(e: Plots.HarvestEvent): (s: SpawnedUnit)
    ensures Truncate(s.pos) == Truncate(e.pos) && s.pos.z == SpawnDepth
    ensures s.unit.state == UnitState.Idle && s.unit.command.None?
    ensures !s.selectable.hovered && !s.selectable.selected
  {
    SpawnedUnit(e.pos.(z := SpawnDepth), DefaultUnit, DefaultSelectable, [Child(true, false, false)])
  }

  /** The carrot harvests among `events`, in order. */
  function CarrotEvents(events: seq<Plots.HarvestEvent>): (r: seq<Plots.HarvestEvent>)
    ensures |r| <= |events|
    ensures forall k :: 0 <= k < |r| ==> r[k].crop == Plots.Carrot && r[k] in events
    ensures forall k :: 0 <= k < |events| && events[k].crop == Plots.Carrot ==> events[k] in r
  {
    if events == [] then []
    else CarrotEvents(events[..|events| - 1])
         + (if events[|events| - 1].crop == Plots.Carrot then [events[|events| - 1]] else [])
  }

  /** Drains the harvest queue: one unit per carrot harvest, in queue order;
      other crops spawn nothing. */
  method HandleHarvestEvents(events: seq<Plots.HarvestEvent>) returns (spawned: seq<SpawnedUnit>)
    ensures |spawned| == |CarrotEvents(events)|
    ensures forall k :: 0 <= k < |spawned| ==> spawned[k] == SpawnFor(CarrotEvents(events)[k])
  {
    spawned := [];
    for i := 0 to |events|
      invariant |spawned| == |CarrotEvents(events[..i])|
      invariant forall k :: 0 <= k < |spawned| ==> spawned[k] == SpawnFor(CarrotEvents(events[..i])[k])
    {
      assert events[..i + 1][..i] == events[..i];
      var harvest := events[i];
      match harvest.crop {
        case Carrot =>
          var pos := harvest.pos.(z := SpawnDepth);
          spawned := spawned + [SpawnedUnit(pos, DefaultUnit, DefaultSelectable, [Child(true, false, false)])];
        case Clover =>
        case Wheat =>
      }
    }
    assert events[..|events|] == events;
  }

  /** Draining the queue in two parts spawns exactly what draining it at
      once does: every event is processed once, in order. */
  lemma {:induction false} CarrotEventsSplit(a: seq<Plots.HarvestEvent>, b: seq<Plots.HarvestEvent>)
    ensures CarrotEvents(a + b) == CarrotEvents(a) + CarrotEvents(b)
  {
    if b == [] {
      assert a + b == a;
    } else {
      assert (a + b)[..|a + b| - 1] == a + b[..|b| - 1];
      CarrotEventsSplit(a, b[..|b| - 1]);
    }
  }

  /** A single harvest is kept exactly when it is a carrot. With
      `CarrotEventsSplit` this pins `CarrotEvents` down as the order-preserving
      filter of the queue. */
  lemma CarrotEventsSingle(e: Plots.HarvestEvent)
    ensures CarrotEvents([e]) == if e.crop == Plots.Carrot then [e] else []
  {
    assert [e][..0] == [];
  }

  /** A queue without carrot harvests spawns nothing. */
  lemma {:induction false} NoCarrotsSpawnNothing(events: seq<Plots.HarvestEvent>)
    requires forall k :: 0 <= k < |events| ==> events[k].crop != Plots.Carrot
    ensures CarrotEvents(events) == []
  {
    if events != [] {
      NoCarrotsSpawnNothing(events[..|events| - 1]);
    }
  }

  /** When every harvest is a carrot, each one spawns exactly one unit. */
  lemma {:induction false} AllCarrotsSpawnOneEach(events: seq<Plots.HarvestEvent>)
    requires forall k :: 0 <= k < |events| ==> events[k].crop == Plots.Carrot
    ensures CarrotEvents(events) == events
  {
    if events != [] {
      AllCarrotsSpawnOneEach(events[..|events| - 1]);
      assert events[..|events| - 1] + [events[|events| - 1]] == events;
    }
  }
}
