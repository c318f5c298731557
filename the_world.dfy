/** The FieldRunner simulation
    (src/Neat.Trainer/Simulations/FieldRunner/Services/TheWorld.cs): a stack
    of fields, one per day; each day the static items are copied, every pika
    decides a move, pays for it, eats or is penalised, and moves, stays or
    dies. The network's move decision, the shuffle of the pikas and the
    cancellation token are parameters. */
module TheWorld {
  import opened Wrappers
  import opened PositionTool
  import opened FieldModels
  import opened WorldBuilder

  /** The move the pika's network picks: from the day, the pika's cell, the
      pika, and the field being built for that day. */
  type Decision = (nat, int, Item, Field) -> Option<Move>

  predicate ValidSize(worldSize: Size)
  {
    0 < worldSize.width && 0 < worldSize.height
  }

  predicate IsStatic(cell: Option<Item>)
  {
    cell == Some(Wall) || cell == Some(Food) || cell == Some(Poison)
  }

  /** The cell a pika at `cellIndex` aims at: the first position of its
      move; aiming off the world throws. */
  function TargetIndex(worldSize: Size, cellIndex: int, pika: Item, move: Option<Move>): (r: Result<int>)
    requires ValidSize(worldSize) && pika.Pika?
    ensures r.Success? ==> 0 <= r.value < worldSize.width * worldSize.height
    ensures move.None? && 0 <= cellIndex < worldSize.width * worldSize.height ==> r == Success(cellIndex)
  {
    var position := IndexToPosition(cellIndex, worldSize).value;
    var (targetPositions, _) := CalculateMove(position, pika.direction, move, worldSize);
    if move.None? && 0 <= cellIndex < worldSize.width * worldSize.height then
      IndexRoundTrip(cellIndex, worldSize);
      PositionToIndex(targetPositions[0], worldSize)
    else PositionToIndex(targetPositions[0], worldSize)
  }

  /** The pika after paying for its move and for what it finds at the
      target: food gives energy, poison and walls take it. */
  function NewPika(settings: WorldSettings, pika: Item, move: Option<Move>, targetItem: Option<Item>): (r: Item)
    requires pika.Pika?
    ensures r.Pika? && r.runner == pika.runner && r.direction == NewDirection(pika.direction, move)
    ensures r.energy == pika.energy - settings.moveCost
      + (if targetItem == Some(Food) then settings.foodEnergy else 0)
      - (if targetItem == Some(Poison) then settings.poisonPenaltyEnergy else 0)
      - (if targetItem == Some(Wall) then settings.wallPenaltyEnergy else 0)
  {
    var energy := pika.energy - settings.moveCost;
    var energy := if targetItem == Some(Food) then energy + settings.foodEnergy else energy;
    var energy := if targetItem == Some(Poison) then energy - settings.poisonPenaltyEnergy else energy;
    var energy := if targetItem == Some(Wall) then energy - settings.wallPenaltyEnergy else energy;
    Pika(energy, NewDirection(pika.direction, move), pika.runner)
  }

  /** EvaluatePika on the field being built: food and poison at the target
      are consumed; a pika without energy empties its own cell and is dead;
      otherwise it moves to the target if that is now empty, else it stays. */
  function EvaluatePikaSpec(settings: WorldSettings, cells: Field, cellIndex: int, pika: Item, move: Option<Move>): (r: Result<(Field, bool)>)
    requires ValidSize(settings.worldSize) && pika.Pika?
    requires |cells| == settings.worldSize.width * settings.worldSize.height && 0 <= cellIndex < |cells|
    ensures r.Failure? <==> TargetIndex(settings.worldSize, cellIndex, pika, move).Failure?
    ensures r.Success? ==> |r.value.0| == |cells|
  {
    match TargetIndex(settings.worldSize, cellIndex, pika, move)
    case Failure(e) => Failure(e)
    case Success(targetIndex) =>
      var targetItem := cells[targetIndex];
      var newPika := NewPika(settings, pika, move, targetItem);
      var eaten := if targetItem == Some(Food) || targetItem == Some(Poison) then cells[targetIndex := None] else cells;
      if newPika.energy <= 0 then Success((eaten[cellIndex := None], false))
      else if eaten[targetIndex].None? then Success((eaten[targetIndex := Some(newPika)], true))
      else Success((eaten[cellIndex := Some(newPika)], true))
  }

  /** What one pika's turn does to the field: only its own cell and its
      target change; a surviving pika is on one of them with its new
      energy; a dead one leaves its own cell empty; walls are never
      touched and no food or poison appears. */
  lemma EvaluatePikaEffect(settings: WorldSettings, cells: Field, cellIndex: int, pika: Item, move: Option<Move>)
    requires ValidSize(settings.worldSize) && pika.Pika?
    requires |cells| == settings.worldSize.width * settings.worldSize.height && 0 <= cellIndex < |cells|
    requires cells[cellIndex] != Some(Wall)
    requires EvaluatePikaSpec(settings, cells, cellIndex, pika, move).Success?
    ensures var (c, alive) := EvaluatePikaSpec(settings, cells, cellIndex, pika, move).value;
      var t := TargetIndex(settings.worldSize, cellIndex, pika, move).value;
      var newPika := NewPika(settings, pika, move, cells[t]);
      (forall i :: 0 <= i < |c| && i != cellIndex && i != t ==> c[i] == cells[i])
      && (alive <==> newPika.energy > 0)
      && (alive ==> c[t] == Some(newPika) || c[cellIndex] == Some(newPika))
      && (!alive ==> c[cellIndex].None?)
      && (forall i :: 0 <= i < |c| ==> (c[i] == Some(Wall) <==> cells[i] == Some(Wall)))
      && (forall i :: 0 <= i < |c| && (c[i] == Some(Food) || c[i] == Some(Poison)) ==> c[i] == cells[i])
  {
  }

  /** A pika that survives its turn is on the field afterwards; one that
      dies takes no other pika's place. */
  lemma EvaluatePikaPikas(settings: WorldSettings, cells: Field, cellIndex: int, pika: Item, move: Option<Move>)
    requires ValidSize(settings.worldSize) && pika.Pika?
    requires |cells| == settings.worldSize.width * settings.worldSize.height && 0 <= cellIndex < |cells|
    requires EvaluatePikaSpec(settings, cells, cellIndex, pika, move).Success?
    ensures var (c, alive) := EvaluatePikaSpec(settings, cells, cellIndex, pika, move).value;
      (alive ==> FieldHasPika(c)) && (!alive && !FieldHasPika(cells) ==> !FieldHasPika(c))
  {
    var (c, alive) := EvaluatePikaSpec(settings, cells, cellIndex, pika, move).value;
    var t := TargetIndex(settings.worldSize, cellIndex, pika, move).value;
    var newPika := NewPika(settings, pika, move, cells[t]);
    if alive {
      if c[t] == Some(newPika) {
        assert HasPika(c[t]);
      } else {
        assert HasPika(c[cellIndex]);
      }
    } else if !FieldHasPika(cells) {
      forall i | 0 <= i < |c|
        ensures !HasPika(c[i])
      {
        assert i == cellIndex || i == t || c[i] == cells[i];
      }
    }
  }

  /** The indexes of the cells that hold a pika, in ascending order. */
  function PikaIndexes(field: Field): (r: seq<int>)
    ensures forall k :: 0 <= k < |r| ==> 0 <= r[k] < |field| && HasPika(field[r[k]])
    ensures forall i :: 0 <= i < |field| && HasPika(field[i]) ==> i in r
    ensures forall k, l :: 0 <= k < l < |r| ==> r[k] < r[l]
  {
    if |field| == 0 then []
    else
      var init := PikaIndexes(field[..|field| - 1]);
      if HasPika(field[|field| - 1]) then init + [|field| - 1] else init
  }

  /** The field a day starts from: walls, food and poison of the day before. */
  function CopyStatic(last: Field): (r: Field)
    ensures |r| == |last|
    ensures forall i :: 0 <= i < |r| ==> (r[i] == (if IsStatic(last[i]) then last[i] else None))
  {
    seq(|last|, i requires 0 <= i < |last| => if IsStatic(last[i]) then last[i] else None)
  }

  /** The turns of the pikas of `last`, in the order `order`: the `||`
      skips every turn after the first pika that survives. */
  function EvaluatePikas(settings: WorldSettings, day: nat, decide: Decision, last: Field, order: seq<int>, cells: Field, alive: bool): (r: Result<(Field, bool)>)
    requires ValidSize(settings.worldSize)
    requires |cells| == |last| == settings.worldSize.width * settings.worldSize.height
    requires forall k :: 0 <= k < |order| ==> 0 <= order[k] < |last| && HasPika(last[order[k]])
    ensures r.Success? ==> |r.value.0| == |cells|
    decreases |order|
  {
    if |order| == 0 || alive then Success((cells, alive))
    else
      var cellIndex := order[0];
      assert HasPika(last[cellIndex]);
      var pika := last[cellIndex].value;
      match EvaluatePikaSpec(settings, cells, cellIndex, pika, decide(day, cellIndex, pika, cells))
      case Failure(e) => Failure(e)
      case Success((next, survived)) => EvaluatePikas(settings, day, decide, last, order[1..], next, survived)
  }

  /** A day: the new field, and whether some pika is still alive. */
  function IterationSpec(settings: WorldSettings, day: nat, decide: Decision, last: Field, order: seq<int>): (r: Result<(Field, bool)>)
    requires ValidSize(settings.worldSize)
    requires |last| == settings.worldSize.width * settings.worldSize.height
    requires forall k :: 0 <= k < |order| ==> 0 <= order[k] < |last| && HasPika(last[order[k]])
    ensures r.Success? ==> |r.value.0| == |last|
  {
    EvaluatePikas(settings, day, decide, last, order, CopyStatic(last), false)
  }

  /** Some pika is alive after a day exactly when the new field holds a
      pika: copying never carries a pika over, only survivors are written,
      and the turns stop at the first survivor. */
  lemma {:induction false} EvaluatePikasAlive(settings: WorldSettings, day: nat, decide: Decision, last: Field, order: seq<int>, cells: Field, alive: bool)
    requires ValidSize(settings.worldSize)
    requires |cells| == |last| == settings.worldSize.width * settings.worldSize.height
    requires forall k :: 0 <= k < |order| ==> 0 <= order[k] < |last| && HasPika(last[order[k]])
    requires alive <==> FieldHasPika(cells)
    requires EvaluatePikas(settings, day, decide, last, order, cells, alive).Success?
    ensures var (c, a) := EvaluatePikas(settings, day, decide, last, order, cells, alive).value;
      a <==> FieldHasPika(c)
    decreases |order|
  {
    if |order| > 0 && !alive {
      var cellIndex := order[0];
      var pika := last[cellIndex].value;
      var move := decide(day, cellIndex, pika, cells);
      EvaluatePikaPikas(settings, cells, cellIndex, pika, move);
      var (next, survived) := EvaluatePikaSpec(settings, cells, cellIndex, pika, move).value;
      EvaluatePikasAlive(settings, day, decide, last, order[1..], next, survived);
    }
  }

  /** Walls stay where they are, and food or poison is only ever removed,
      as long as no pika starts on a wall. */
  lemma {:induction false} EvaluatePikasStatic(settings: WorldSettings, day: nat, decide: Decision, last: Field, order: seq<int>, cells: Field, alive: bool)
    requires ValidSize(settings.worldSize)
    requires |cells| == |last| == settings.worldSize.width * settings.worldSize.height
    requires forall k :: 0 <= k < |order| ==> 0 <= order[k] < |last| && HasPika(last[order[k]])
    requires forall i :: 0 <= i < |cells| ==> (cells[i] == Some(Wall) <==> last[i] == Some(Wall))
    requires EvaluatePikas(settings, day, decide, last, order, cells, alive).Success?
    ensures var c := EvaluatePikas(settings, day, decide, last, order, cells, alive).value.0;
      (forall i :: 0 <= i < |c| ==> (c[i] == Some(Wall) <==> last[i] == Some(Wall)))
      && (forall i :: 0 <= i < |c| && (c[i] == Some(Food) || c[i] == Some(Poison)) ==> c[i] == cells[i])
    decreases |order|
  {
    if |order| > 0 && !alive {
      var cellIndex := order[0];
      var pika := last[cellIndex].value;
      var move := decide(day, cellIndex, pika, cells);
      EvaluatePikaEffect(settings, cells, cellIndex, pika, move);
      var (next, survived) := EvaluatePikaSpec(settings, cells, cellIndex, pika, move).value;
      EvaluatePikasStatic(settings, day, decide, last, order[1..], next, survived);
    }
  }

  /** A day keeps every wall, creates no food or poison, and reports a
      living pika exactly when the new field holds one. */
  lemma IterationProperties(settings: WorldSettings, day: nat, decide: Decision, last: Field, order: seq<int>)
    requires ValidSize(settings.worldSize)
    requires |last| == settings.worldSize.width * settings.worldSize.height
    requires forall k :: 0 <= k < |order| ==> 0 <= order[k] < |last| && HasPika(last[order[k]])
    requires IterationSpec(settings, day, decide, last, order).Success?
    ensures var (c, alive) := IterationSpec(settings, day, decide, last, order).value;
      (alive <==> FieldHasPika(c))
      && (forall i :: 0 <= i < |c| ==> (c[i] == Some(Wall) <==> last[i] == Some(Wall)))
      && (forall i :: 0 <= i < |c| && (c[i] == Some(Food) || c[i] == Some(Poison)) ==> c[i] == last[i])
  {
    var start := CopyStatic(last);
    assert !FieldHasPika(start);
    EvaluatePikasAlive(settings, day, decide, last, order, start, false);
    EvaluatePikasStatic(settings, day, decide, last, order, start, false);
  }

  /** MeasureFitness: the number of days, from the first, that all hold a
      pika (the timeline read from its bottom, while a pika is on it). */
  function DaysSurvived(timeline: seq<Field>): (r: nat)
    ensures r <= |timeline|
    ensures forall k :: 0 <= k < r ==> FieldHasPika(timeline[k])
    ensures r < |timeline| ==> !FieldHasPika(timeline[r])
  {
    if |timeline| == 0 || !FieldHasPika(timeline[0]) then 0
    else 1 + DaysSurvived(timeline[1..])
  }

  /** One day of Simulate on the field `last`: its pikas in the order
      `shuffle` gives, then IterationSpec; the day reports a living pika
      exactly when its field holds one. */
  function Day(settings: WorldSettings, decide: Decision, shuffle: (nat, seq<int>) -> seq<int>, last: Field, day: nat): (r: Result<(Field, bool)>)
    requires ValidSize(settings.worldSize)
    requires forall d, s :: multiset(shuffle(d, s)) == multiset(s)
    requires |last| == settings.worldSize.width * settings.worldSize.height
    ensures r.Success? ==> |r.value.0| == |last| && (r.value.1 <==> FieldHasPika(r.value.0))
  {
    var order := shuffle(day, PikaIndexes(last));
    OrderedPikas(order, last);
    var result := IterationSpec(settings, day, decide, last, order);
    if result.Success? then
      assert !FieldHasPika(CopyStatic(last));
      EvaluatePikasAlive(settings, day, decide, last, order, CopyStatic(last), false);
      result
    else result
  }

  /** A day as a function of the field on top and the day's number. */
  type DayFunction = (Field, nat) --> Result<(Field, bool)>

  /** The day function runs on every field of `cells` cells and keeps its size. */
  ghost predicate DayFits(step: DayFunction, cells: nat)
  {
    (forall f: Field, d: nat :: |f| == cells ==> step.requires(f, d))
    && (forall f: Field, d: nat :: |f| == cells && step.requires(f, d) && step(f, d).Success? ==> |step(f, d).value.0| == cells)
  }

  /** The day function reports a living pika exactly when its field holds one. */
  ghost predicate DayReportsPika(step: DayFunction, cells: nat)
  {
    forall f: Field, d: nat :: |f| == cells && step.requires(f, d) && step(f, d).Success? ==>
      (step(f, d).value.1 <==> FieldHasPika(step(f, d).value.0))
  }

  /** Simulate's day function: Day for the given settings, moves and shuffles. */
  function Days(settings: WorldSettings, decide: Decision, shuffle: (nat, seq<int>) -> seq<int>): (r: DayFunction)
    requires ValidSize(settings.worldSize)
    requires forall d, s :: multiset(shuffle(d, s)) == multiset(s)
    ensures DayFits(r, settings.worldSize.width * settings.worldSize.height)
    ensures DayReportsPika(r, settings.worldSize.width * settings.worldSize.height)
    ensures forall f: Field, d: nat :: |f| == settings.worldSize.width * settings.worldSize.height ==>
      r.requires(f, d) && r(f, d) == Day(settings, decide, shuffle, f, d)
  {
    (f: Field, d: nat) requires |f| == settings.worldSize.width * settings.worldSize.height => Day(settings, decide, shuffle, f, d)
  }

  /** The days Simulate adds to `timeline`, from day `day` on: a day on the
      field on top at a time, stopping after a day that reports no living
      pika, or when the token is cancelled after `cancelAfter` days. */
  function SimulateSpec(step: DayFunction, cells: nat, timeline: seq<Field>, day: nat, cancelAfter: nat): (r: Result<seq<Field>>)
    requires DayFits(step, cells)
    requires |timeline| >= 1 && |timeline[|timeline| - 1]| == cells
    ensures r.Success? ==> |timeline| <= |r.value| && r.value[..|timeline|] == timeline
    ensures r.Success? ==> |r.value| <= |timeline| + (if day <= cancelAfter then cancelAfter - day else 0)
    decreases cancelAfter - day
  {
    if day >= cancelAfter then Success(timeline)
    else
      match step(timeline[|timeline| - 1], day)
      case Failure(e) => Failure(e)
      case Success((next, alive)) =>
        if !alive then Success(timeline + [next])
        else
          var rest := SimulateSpec(step, cells, timeline + [next], day + 1, cancelAfter);
          assert rest.Success? ==> rest.value[..|timeline|] == (rest.value[..|timeline| + 1])[..|timeline|];
          rest
  }

  /** One step of SimulateSpec: a failing day fails, a day without a living
      pika ends the timeline with it, any other day continues from it. */
  lemma SimulateSpecStep(step: DayFunction, cells: nat, timeline: seq<Field>, day: nat, cancelAfter: nat)
    requires DayFits(step, cells)
    requires |timeline| >= 1 && |timeline[|timeline| - 1]| == cells
    requires day < cancelAfter
    ensures var next := step(timeline[|timeline| - 1], day);
      (next.Failure? ==> SimulateSpec(step, cells, timeline, day, cancelAfter) == Failure(next.error))
      && (next.Success? && !next.value.1 ==>
            SimulateSpec(step, cells, timeline, day, cancelAfter) == Success(timeline + [next.value.0]))
      && (next.Success? && next.value.1 ==>
            |(timeline + [next.value.0])[|timeline|]| == cells
            && SimulateSpec(step, cells, timeline, day, cancelAfter)
               == SimulateSpec(step, cells, timeline + [next.value.0], day + 1, cancelAfter))
  {
  }

  /** The stop rule: every day Simulate adds before the last holds a pika,
      and it stops only when the last day holds none or the token is
      cancelled. */
  lemma {:induction false} SimulateStops(step: DayFunction, cells: nat, timeline: seq<Field>, day: nat, cancelAfter: nat)
    requires DayFits(step, cells) && DayReportsPika(step, cells)
    requires |timeline| >= 1 && |timeline[|timeline| - 1]| == cells
    requires day <= cancelAfter
    requires SimulateSpec(step, cells, timeline, day, cancelAfter).Success?
    ensures var days := SimulateSpec(step, cells, timeline, day, cancelAfter).value;
      (forall k :: |timeline| <= k < |days| - 1 ==> FieldHasPika(days[k]))
      && (|days| < |timeline| + (cancelAfter - day) ==> !FieldHasPika(days[|days| - 1]))
    decreases cancelAfter - day
  {
    var all := SimulateSpec(step, cells, timeline, day, cancelAfter).value;
    if day < cancelAfter {
      var (next, alive) := step(timeline[|timeline| - 1], day).value;
      var longer := timeline + [next];
      if alive {
        var days := SimulateSpec(step, cells, longer, day + 1, cancelAfter).value;
        assert all == days;
        SimulateStops(step, cells, longer, day + 1, cancelAfter);
        assert |longer| + (cancelAfter - (day + 1)) == |timeline| + (cancelAfter - day);
        assert days[|timeline|] == next by {
          assert days[..|longer|] == longer;
          assert longer[|timeline|] == next;
        }
        forall k | |timeline| <= k < |all| - 1
          ensures FieldHasPika(all[k])
        {
          if k > |timeline| {
            assert |longer| <= k < |days| - 1;
          }
        }
      } else {
        assert all == longer;
        assert all[|all| - 1] == next;
      }
    } else {
      assert all == timeline;
    }
  }

  /** A world with one pika and its timeline, the last field on top. */
  class World {
    const settings: WorldSettings
    const pika: nat
    var timeline: seq<Field>

    predicate Valid()
      reads this
    {
      ValidSize(settings.worldSize)
      && |timeline| >= 1
      && forall k :: 0 <= k < |timeline| ==> |timeline[k]| == settings.worldSize.width * settings.worldSize.height
    }

    /** The constructor builds the world around the single pika. */
    constructor (settings: WorldSettings, pika: nat, emptyCells: seq<int>, direction: Direction)
      requires ValidSize(settings.worldSize)
      requires multiset(emptyCells) == multiset(EmptyIndexes(EmptyField(settings.worldSize)))
      requires settings.obstaclesCount >= 0 && settings.initialFoodCount >= 0
      requires ValidIndexes(emptyCells, settings.worldSize.width * settings.worldSize.height)
      requires NewWorld(settings, [pika], emptyCells, [direction]).Success?
      ensures Valid()
      ensures this.settings == settings && this.pika == pika
      ensures timeline == [NewWorld(settings, [pika], emptyCells, [direction]).value]
      ensures FieldHasPika(timeline[0])
    {
      this.settings := settings;
      this.pika := pika;
      var world := CreateNewWorld(settings, [pika], emptyCells, [direction]);
      timeline := [world.value];
      NewWorldHasPika(settings, pika, emptyCells, direction);
    }

    /** EvaluatePika, writing into the field being built. */
    method EvaluatePika(cellIndex: int, oldPika: Item, move: Option<Move>, iteration: array<Option<Item>>) returns (r: Result<bool>)
      requires Valid() && oldPika.Pika?
      requires iteration.Length == settings.worldSize.width * settings.worldSize.height
      requires 0 <= cellIndex < iteration.Length
      modifies iteration
      ensures var spec := EvaluatePikaSpec(settings, old(iteration[..]), cellIndex, oldPika, move);
        (r.Failure? <==> spec.Failure?)
        && (r.Failure? ==> r.error == spec.error && iteration[..] == old(iteration[..]))
        && (r.Success? ==> (iteration[..], r.value) == spec.value)
    {
      var size := settings.worldSize;
      var pikaPosition := IndexToPosition(cellIndex, size).value;
      var (targetPositions, targetDirection) := CalculateMove(pikaPosition, oldPika.direction, move, size);
      var target := PositionToIndex(targetPositions[0], size);
      assert target == TargetIndex(size, cellIndex, oldPika, move);
      if target.Failure? {
        return Failure(target.error);
      }
      var targetIndex := target.value;
      var targetItem := iteration[targetIndex];
      var energy := oldPika.energy - settings.moveCost;
      if targetItem == Some(Food) {
        energy := energy + settings.foodEnergy;
        iteration[targetIndex] := None;
      }
      if targetItem == Some(Poison) {
        energy := energy - settings.poisonPenaltyEnergy;
        iteration[targetIndex] := None;
      }
      if targetItem == Some(Wall) {
        energy := energy - settings.wallPenaltyEnergy;
      }
      var newPika := Pika(energy, targetDirection, oldPika.runner);
      assert newPika == NewPika(settings, oldPika, move, targetItem);
      if energy <= 0 {
        iteration[cellIndex] := None;
        return Success(false);
      }
      if iteration[targetIndex].None? {
        iteration[targetIndex] := Some(newPika);
      } else {
        iteration[cellIndex] := Some(newPika);
      }
      r := Success(true);
    }

    /** EvaluateIteration: copies the static items into a fresh field, runs
        the pikas' turns in the shuffled order `order` and pushes the field,
        answering whether a pika is alive. A turn that throws pushes nothing. */
    method EvaluateIteration(day: nat, decide: Decision, order: seq<int>) returns (r: Result<bool>)
      requires Valid()
      requires multiset(order) == multiset(PikaIndexes(timeline[|timeline| - 1]))
      modifies this
      ensures Valid()
      ensures forall k :: 0 <= k < |order| ==> 0 <= order[k] < |old(timeline)[|old(timeline)| - 1]| && HasPika(old(timeline)[|old(timeline)| - 1][order[k]])
      ensures var spec := IterationSpec(settings, day, decide, old(timeline)[|old(timeline)| - 1], order);
        (r.Failure? <==> spec.Failure?)
        && (r.Failure? ==> r.error == spec.error && timeline == old(timeline))
        && (r.Success? ==> timeline == old(timeline) + [spec.value.0] && r.value == spec.value.1)
    {
      var lastIteration := timeline[|timeline| - 1];
      OrderedPikas(order, lastIteration);
      var newIteration := new Option<Item>[|lastIteration|](_ => None);
      for i := 0 to |lastIteration|
        modifies newIteration
        invariant forall j :: 0 <= j < i ==> newIteration[j] == CopyStatic(lastIteration)[j]
        invariant forall j :: i <= j < newIteration.Length ==> newIteration[j].None?
      {
        if IsStatic(lastIteration[i]) {
          newIteration[i] := lastIteration[i];
        }
      }
      assert newIteration[..] == CopyStatic(lastIteration);
      var haveAlivePikas := false;
      var k := 0;
      while k < |order|
        modifies newIteration
        invariant 0 <= k <= |order|
        invariant newIteration.Length == |lastIteration|
        invariant IterationSpec(settings, day, decide, lastIteration, order) ==
          EvaluatePikas(settings, day, decide, lastIteration, order[k..], newIteration[..], haveAlivePikas)
      {
        if !haveAlivePikas {
          var cellIndex := order[k];
          var pika := lastIteration[cellIndex].value;
          var turn := EvaluatePika(cellIndex, pika, decide(day, cellIndex, pika, newIteration[..]), newIteration);
          if turn.Failure? {
            return Failure(turn.error);
          }
          haveAlivePikas := turn.value;
        }
        assert order[k..][1..] == order[k + 1..];
        k := k + 1;
      }
      timeline := timeline + [newIteration[..]];
      assert |timeline[|timeline| - 1]| == settings.worldSize.width * settings.worldSize.height;
      r := Success(haveAlivePikas);
    }

    /** Simulate: a day at a time until no pika is alive or the token is
        cancelled, which happens after `cancelAfter` days; the result is the
        fitness. `shuffle` is the random order of the pikas of each day. */
    method Simulate(cancelAfter: nat, decide: Decision, shuffle: (nat, seq<int>) -> seq<int>) returns (r: Result<nat>)
      requires Valid()
      requires forall day, s :: multiset(shuffle(day, s)) == multiset(s)
      requires forall k :: 0 <= k < |timeline| ==> FieldHasPika(timeline[k])
      modifies this
      ensures Valid()
      ensures r.Success? ==> r.value == DaysSurvived(timeline)
      ensures r.Success? ==> r.value == |timeline| - (if FieldHasPika(timeline[|timeline| - 1]) then 0 else 1)
      ensures r.Success? ==> |timeline| <= |old(timeline)| + cancelAfter
      ensures r.Success? ==> |timeline| == |old(timeline)| + cancelAfter || !FieldHasPika(timeline[|timeline| - 1])
      ensures var spec := SimulateSpec(Days(settings, decide, shuffle), settings.worldSize.width * settings.worldSize.height, old(timeline), 0, cancelAfter);
        (r.Failure? <==> spec.Failure?)
        && (r.Failure? ==> r.error == spec.error)
        && (r.Success? ==> timeline == spec.value)
    {
      ghost var steps := Days(settings, decide, shuffle);
      ghost var cells := settings.worldSize.width * settings.worldSize.height;
      var day := 0;
      while day < cancelAfter
        invariant Valid()
        invariant day <= cancelAfter
        invariant |timeline| == |old(timeline)| + day
        invariant forall k :: 0 <= k < |timeline| ==> FieldHasPika(timeline[k])
        invariant SimulateSpec(steps, cells, old(timeline), 0, cancelAfter)
          == SimulateSpec(steps, cells, timeline, day, cancelAfter)
        decreases cancelAfter - day
      {
        var last := timeline[|timeline| - 1];
        ghost var before := timeline;
        var order := shuffle(day, PikaIndexes(last));
        var alive := EvaluateIteration(day, decide, order);
        ghost var step := steps(last, day);
        assert step == IterationSpec(settings, day, decide, last, order);
        SimulateSpecStep(steps, cells, before, day, cancelAfter);
        if alive.Failure? {
          return Failure(alive.error);
        }
        assert timeline == before + [step.value.0];
        day := day + 1;
        if !alive.value {
          DaysWithPikaBeforeLast(timeline);
          return Success(DaysSurvived(timeline));
        }
      }
      DaysAllWithPika(timeline);
      r := Success(DaysSurvived(timeline));
    }
  }

  /** A world built for one pika holds it. */
  lemma NewWorldHasPika(settings: WorldSettings, pika: nat, emptyCells: seq<int>, direction: Direction)
    requires ValidSize(settings.worldSize)
    requires multiset(emptyCells) == multiset(EmptyIndexes(EmptyField(settings.worldSize)))
    requires settings.obstaclesCount >= 0 && settings.initialFoodCount >= 0
    requires ValidIndexes(emptyCells, settings.worldSize.width * settings.worldSize.height)
    requires NewWorld(settings, [pika], emptyCells, [direction]).Success?
    ensures FieldHasPika(NewWorld(settings, [pika], emptyCells, [direction]).value)
  {
    var world := NewWorld(settings, [pika], emptyCells, [direction]).value;
    NewWorldPikas(settings, [pika], emptyCells, [direction], 0);
    var left := |emptyCells| - settings.obstaclesCount - settings.initialFoodCount;
    assert HasPika(world[emptyCells[left - 1]]);
  }

  /** The shuffled pikas name cells of the field that hold a pika. */
  lemma OrderedPikas(order: seq<int>, field: Field)
    requires multiset(order) == multiset(PikaIndexes(field))
    ensures forall k :: 0 <= k < |order| ==> 0 <= order[k] < |field| && HasPika(field[order[k]])
  {
    forall k | 0 <= k < |order|
      ensures 0 <= order[k] < |field| && HasPika(field[order[k]])
    {
      assert order[k] in multiset(order);
      assert order[k] in multiset(PikaIndexes(field));
    }
  }

  lemma {:induction false} DaysAllWithPika(timeline: seq<Field>)
    requires forall k :: 0 <= k < |timeline| ==> FieldHasPika(timeline[k])
    ensures DaysSurvived(timeline) == |timeline|
  {
    if |timeline| > 0 {
      DaysAllWithPika(timeline[1..]);
    }
  }

  lemma {:induction false} DaysWithPikaBeforeLast(timeline: seq<Field>)
    requires |timeline| >= 1
    requires forall k :: 0 <= k < |timeline| - 1 ==> FieldHasPika(timeline[k])
    requires !FieldHasPika(timeline[|timeline| - 1])
    ensures DaysSurvived(timeline) == |timeline| - 1
  {
    if |timeline| > 1 {
      DaysWithPikaBeforeLast(timeline[1..]);
    }
  }
}
