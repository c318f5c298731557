/** The values of the FieldRunner world
    (src/Neat.Trainer/Simulations/FieldRunner/Models): items, a field of
    cells, and the settings of one world. */
module FieldModels {
  import opened Wrappers
  import opened PositionTool

  /** What a cell can hold. A pika carries its energy, its heading and a
      handle on the network that drives it. */
  datatype Item =
    | Wall
    | Food
    | Poison
    | Pika(energy: int, direction: Direction, runner: nat)

  /** One field of the timeline: row-major cells, null where empty. */
  type Field = seq<Option<Item>>

  datatype WorldSettings = WorldSettings(
    worldSize: Size,
    initialFoodCount: int,
    pikaStartEnergy: int,
    foodEnergy: int,
    poisonPenaltyEnergy: int,
    wallPenaltyEnergy: int,
    moveCost: int,
    obstaclesCount: int,
    poisonsCount: int)

  predicate HasPika(cell: Option<Item>)
  {
    cell.Some? && cell.value.Pika?
  }

  predicate FieldHasPika(field: Field)
  {
    exists i :: 0 <= i < |field| && HasPika(field[i])
  }

  /** The indexes of the empty cells, in ascending order. */
  function EmptyIndexes(field: Field): (r: seq<int>)
    ensures forall k :: 0 <= k < |r| ==> 0 <= r[k] < |field| && field[r[k]].None?
    ensures forall i :: 0 <= i < |field| && field[i].None? ==> i in r
    ensures forall k, l :: 0 <= k < l < |r| ==> r[k] < r[l]
  {
    if |field| == 0 then []
    else
      var init := EmptyIndexes(field[..|field| - 1]);
      if field[|field| - 1].None? then init + [|field| - 1] else init
  }
}
