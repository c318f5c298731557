/** Construction of a new FieldRunner world
    (src/Neat.Trainer/Simulations/FieldRunner/Services/WorldBuilder.cs):
    border walls, then obstacles, food and pikas popped onto empty cells
    taken in a random order. The random order and the pikas' random headings
    are parameters. */
module WorldBuilder {
  import opened Wrappers
  import opened PositionTool
  import opened FieldModels

  predicate ValidIndexes(s: seq<int>, n: int)
  {
    forall k :: 0 <= k < |s| ==> 0 <= s[k] < n
  }

  predicate Distinct(s: seq<int>)
  {
    forall k, l :: 0 <= k < l < |s| ==> s[k] != s[l]
  }

  /** The cell at `index` lies on the outer ring of the world. */
  predicate OnBorder(index: int, worldSize: Size)
    requires 0 < worldSize.width
  {
    var p := IndexToPosition(index, worldSize).value;
    p.x == 0 || p.x == worldSize.width - 1 || p.y == 0 || p.y == worldSize.height - 1
  }

  /** The field CreateEmptyField builds. */
  function EmptyField(worldSize: Size): (r: Field)
    requires 0 < worldSize.width && 0 < worldSize.height
    ensures |r| == worldSize.width * worldSize.height
  {
    seq(worldSize.width * worldSize.height, i => if OnBorder(i, worldSize) then Some(Wall) else None)
  }

  /** CreateEmptyField: a wall on every cell of the outer ring, nothing inside. */
  method CreateEmptyField(settings: WorldSettings) returns (cells: array<Option<Item>>)
    requires 0 < settings.worldSize.width && 0 < settings.worldSize.height
    ensures fresh(cells)
    ensures cells[..] == EmptyField(settings.worldSize)
  {
    var size := settings.worldSize;
    cells := new Option<Item>[size.width * size.height](_ => None);
    for i := 0 to cells.Length
      invariant forall j :: 0 <= j < i ==> cells[j] == EmptyField(size)[j]
      invariant forall j :: i <= j < cells.Length ==> cells[j].None?
    {
      var position := IndexToPosition(i, size).value;
      if position.x == 0 || position.x == size.width - 1 || position.y == 0 || position.y == size.height - 1 {
        cells[i] := Some(Wall);
      }
    }
  }

  /** Every position of the world holds a wall exactly when it is on the
      outer ring; every other cell starts empty. */
  lemma EmptyFieldWalls(p: Point, worldSize: Size)
    requires 0 < worldSize.width && 0 < worldSize.height
    requires InBounds(p, worldSize)
    ensures PositionToIndex(p, worldSize).Success?
    ensures var cell := EmptyField(worldSize)[PositionToIndex(p, worldSize).value];
      (cell == Some(Wall) <==> (p.x == 0 || p.x == worldSize.width - 1 || p.y == 0 || p.y == worldSize.height - 1))
      && (cell.None? <==> cell != Some(Wall))
  {
    PositionRoundTrip(p, worldSize);
  }

  /** Popping `count` cells off the top (the end) of the stack and putting
      `item` in each. */
  function PopItems(cells: Field, emptyCells: seq<int>, count: int, item: Item): (r: (Field, seq<int>))
    requires ValidIndexes(emptyCells, |cells|)
    requires count <= |emptyCells|
    ensures |r.0| == |cells|
    ensures r.1 == emptyCells[..|emptyCells| - (if count < 0 then 0 else count)]
    decreases count
  {
    if count <= 0 then (cells, emptyCells)
    else
      var top := emptyCells[|emptyCells| - 1];
      PopItems(cells[top := Some(item)], emptyCells[..|emptyCells| - 1], count - 1, item)
  }

  /** AddItems throws unless the stack holds MORE cells than requested. */
  function AddItemsSpec(cells: Field, emptyCells: seq<int>, count: int, item: Item): (r: Result<(Field, seq<int>)>)
    requires ValidIndexes(emptyCells, |cells|)
    ensures r.Failure? <==> |emptyCells| <= count
    ensures r.Success? ==> r.value == PopItems(cells, emptyCells, count, item)
  {
    if |emptyCells| <= count then Failure(InvalidOperation("Not enough empty cells"))
    else Success(PopItems(cells, emptyCells, count, item))
  }

  /** The cells PopItems fills are exactly the popped ones: the top
      `count` entries of the stack. */
  lemma {:induction false} PopItemsCells(cells: Field, emptyCells: seq<int>, count: int, item: Item, j: int)
    requires ValidIndexes(emptyCells, |cells|)
    requires 0 <= count <= |emptyCells| && 0 <= j < |cells|
    ensures PopItems(cells, emptyCells, count, item).0[j] ==
      (if j in emptyCells[|emptyCells| - count..] then Some(item) else cells[j])
    decreases count
  {
    if count > 0 {
      var n := |emptyCells|;
      var top := emptyCells[n - 1];
      var rest := emptyCells[..n - 1];
      PopItemsCells(cells[top := Some(item)], rest, count - 1, item, j);
      assert emptyCells[n - count..] == rest[n - 1 - (count - 1)..] + [top];
    }
  }

  /** AddItems, on the field's array and the stack of empty cells. */
  method AddItems(cells: array<Option<Item>>, emptyCells: seq<int>, count: int, item: Item) returns (r: Result<seq<int>>)
    requires ValidIndexes(emptyCells, cells.Length)
    modifies cells
    ensures r.Failure? <==> |emptyCells| <= count
    ensures r.Failure? ==> r.error == InvalidOperation("Not enough empty cells") && cells[..] == old(cells[..])
    ensures r.Success? ==> (cells[..], r.value) == PopItems(old(cells[..]), emptyCells, count, item)
  {
    if |emptyCells| <= count {
      return Failure(InvalidOperation("Not enough empty cells"));
    }
    var stack := emptyCells;
    var i := 0;
    while i < count
      invariant 0 <= i <= (if count < 0 then 0 else count) && count < |emptyCells|
      invariant stack == emptyCells[..|emptyCells| - i]
      invariant ValidIndexes(stack, cells.Length)
      invariant PopItems(old(cells[..]), emptyCells, count, item) == PopItems(cells[..], stack, count - i, item)
    {
      var index := stack[|stack| - 1];
      stack := stack[..|stack| - 1];
      cells[index] := Some(item);
      i := i + 1;
    }
    r := Success(stack);
  }

  /** Popping one cell per pika; running out of cells throws. */
  function PlacePikas(cells: Field, emptyCells: seq<int>, pikas: seq<nat>, directions: seq<Direction>, energy: int): (r: Result<Field>)
    requires ValidIndexes(emptyCells, |cells|)
    requires |directions| == |pikas|
    ensures r.Failure? <==> |emptyCells| < |pikas|
    ensures r.Failure? ==> r.error == InvalidOperation("Not enough space for pikas")
    ensures r.Success? ==> |r.value| == |cells|
    decreases |pikas|
  {
    if |pikas| == 0 then Success(cells)
    else if |emptyCells| == 0 then Failure(InvalidOperation("Not enough space for pikas"))
    else
      var top := emptyCells[|emptyCells| - 1];
      PlacePikas(cells[top := Some(Pika(energy, directions[0], pikas[0]))], emptyCells[..|emptyCells| - 1],
        pikas[1..], directions[1..], energy)
  }

  /** The world CreateNewWorld builds from the stack of empty cells. */
  function NewWorld(settings: WorldSettings, pikas: seq<nat>, emptyCells: seq<int>, directions: seq<Direction>): (r: Result<Field>)
    requires 0 < settings.worldSize.width && 0 < settings.worldSize.height
    requires ValidIndexes(emptyCells, settings.worldSize.width * settings.worldSize.height)
    requires |directions| == |pikas|
    ensures r.Success? ==> |r.value| == settings.worldSize.width * settings.worldSize.height
  {
    var field := EmptyField(settings.worldSize);
    match AddItemsSpec(field, emptyCells, settings.obstaclesCount, Wall)
    case Failure(e) => Failure(e)
    case Success(walled) =>
      match AddItemsSpec(walled.0, walled.1, settings.initialFoodCount, Food)
      case Failure(e) => Failure(e)
      case Success(fed) =>
        if |fed.1| <= 0 then Failure(InvalidOperation("No empty cells"))
        else PlacePikas(fed.0, fed.1, pikas, directions, settings.pikaStartEnergy)
  }

  /** CreateNewWorld. `emptyCells` is the random order of the empty cells
      of the bordered field: its top is the last element. */
  method CreateNewWorld(settings: WorldSettings, pikas: seq<nat>, emptyCells: seq<int>, directions: seq<Direction>) returns (r: Result<Field>)
    requires 0 < settings.worldSize.width && 0 < settings.worldSize.height
    requires multiset(emptyCells) == multiset(EmptyIndexes(EmptyField(settings.worldSize)))
    requires |directions| == |pikas|
    ensures ValidIndexes(emptyCells, settings.worldSize.width * settings.worldSize.height)
    ensures r == NewWorld(settings, pikas, emptyCells, directions)
  {
    PermutationIndexes(emptyCells, EmptyField(settings.worldSize));
    var field := CreateEmptyField(settings);
    var walled := AddItems(field, emptyCells, settings.obstaclesCount, Wall);
    if walled.Failure? {
      return Failure(walled.error);
    }
    var stack := walled.value;
    var fed := AddItems(field, stack, settings.initialFoodCount, Food);
    if fed.Failure? {
      return Failure(fed.error);
    }
    stack := fed.value;
    if |stack| <= 0 {
      return Failure(InvalidOperation("No empty cells"));
    }
    var k := 0;
    while k < |pikas|
      invariant 0 <= k <= |pikas|
      invariant ValidIndexes(stack, field.Length)
      invariant NewWorld(settings, pikas, emptyCells, directions) ==
        PlacePikas(field[..], stack, pikas[k..], directions[k..], settings.pikaStartEnergy)
    {
      if |stack| == 0 {
        return Failure(InvalidOperation("Not enough space for pikas"));
      }
      var pikaCell := stack[|stack| - 1];
      stack := stack[..|stack| - 1];
      field[pikaCell] := Some(Pika(settings.pikaStartEnergy, directions[k], pikas[k]));
      assert pikas[k..][1..] == pikas[k + 1..] && directions[k..][1..] == directions[k + 1..];
      k := k + 1;
    }
    r := Success(field[..]);
  }

  /** A permutation of the empty indexes of a field is a list of distinct
      indexes of that field. */
  lemma PermutationIndexes(s: seq<int>, field: Field)
    requires multiset(s) == multiset(EmptyIndexes(field))
    ensures ValidIndexes(s, |field|)
    ensures Distinct(s)
  {
    var e := EmptyIndexes(field);
    forall k | 0 <= k < |s|
      ensures 0 <= s[k] < |field|
    {
      assert s[k] in multiset(s);
      assert s[k] in multiset(e);
    }
    forall k, l | 0 <= k < l < |s|
      ensures s[k] != s[l]
    {
      if s[k] == s[l] {
        TwiceInMultiset(s, k, l);
        AtMostOnce(e, s[k]);
      }
    }
  }

  /** ... and every one of them names an empty cell. */
  lemma PermutationEmpty(s: seq<int>, field: Field, k: int)
    requires multiset(s) == multiset(EmptyIndexes(field))
    requires 0 <= k < |s|
    ensures 0 <= s[k] < |field| && field[s[k]].None?
  {
    assert s[k] in multiset(s);
    assert s[k] in multiset(EmptyIndexes(field));
  }

  lemma TwiceInMultiset(s: seq<int>, k: int, l: int)
    requires 0 <= k < l < |s| && s[k] == s[l]
    ensures multiset(s)[s[k]] >= 2
  {
    assert s == s[..k] + [s[k]] + s[k + 1..l] + [s[l]] + s[l + 1..];
  }

  lemma {:induction false} AtMostOnce(e: seq<int>, x: int)
    requires forall k, l :: 0 <= k < l < |e| ==> e[k] < e[l]
    ensures multiset(e)[x] <= 1
  {
    if |e| > 0 {
      var init := e[..|e| - 1];
      assert e == init + [e[|e| - 1]];
      AtMostOnce(init, x);
      if x == e[|e| - 1] {
        assert x !in init;
      }
    }
  }

  /** When does building a world throw: too few empty cells for the walls,
      then for the food (each step needs strictly more cells than items),
      then none left at all, then fewer than the pikas. */
  lemma NewWorldFailures(settings: WorldSettings, pikas: seq<nat>, emptyCells: seq<int>, directions: seq<Direction>)
    requires 0 < settings.worldSize.width && 0 < settings.worldSize.height
    requires ValidIndexes(emptyCells, settings.worldSize.width * settings.worldSize.height)
    requires |directions| == |pikas|
    ensures var obstacles := if settings.obstaclesCount < 0 then 0 else settings.obstaclesCount;
      var food := if settings.initialFoodCount < 0 then 0 else settings.initialFoodCount;
      var left := |emptyCells| - obstacles - food;
      var r := NewWorld(settings, pikas, emptyCells, directions);
      (r.Failure? <==>
        |emptyCells| <= settings.obstaclesCount ||
        |emptyCells| - obstacles <= settings.initialFoodCount ||
        left <= 0 || left < |pikas|)
      && (|emptyCells| <= settings.obstaclesCount ==> r == Failure(InvalidOperation("Not enough empty cells")))
  {
  }

  /** With non-negative item counts "No empty cells" cannot be thrown: the
      food step already demands a cell to spare. */
  lemma NoEmptyCellsNeedsNegativeCounts(settings: WorldSettings, pikas: seq<nat>, emptyCells: seq<int>, directions: seq<Direction>)
    requires 0 < settings.worldSize.width && 0 < settings.worldSize.height
    requires ValidIndexes(emptyCells, settings.worldSize.width * settings.worldSize.height)
    requires |directions| == |pikas|
    requires settings.initialFoodCount >= 0
    ensures NewWorld(settings, pikas, emptyCells, directions) != Failure(InvalidOperation("No empty cells"))
  {
    var field := EmptyField(settings.worldSize);
    var walled := AddItemsSpec(field, emptyCells, settings.obstaclesCount, Wall);
    if walled.Success? {
      var fed := AddItemsSpec(walled.value.0, walled.value.1, settings.initialFoodCount, Food);
      if fed.Success? {
        assert |fed.value.1| == |walled.value.1| - settings.initialFoodCount > 0;
      }
    }
  }

  /** PlacePikas leaves every cell outside the popped part of the stack
      as it was. */
  lemma {:induction false} PlacePikasKeeps(cells: Field, emptyCells: seq<int>, pikas: seq<nat>, directions: seq<Direction>, energy: int, j: int)
    requires ValidIndexes(emptyCells, |cells|)
    requires |directions| == |pikas| <= |emptyCells| && 0 <= j < |cells|
    requires j !in emptyCells[|emptyCells| - |pikas|..]
    ensures PlacePikas(cells, emptyCells, pikas, directions, energy).Success?
    ensures PlacePikas(cells, emptyCells, pikas, directions, energy).value[j] == cells[j]
    decreases |pikas|
  {
    if |pikas| > 0 {
      var n := |emptyCells|;
      var top := emptyCells[n - 1];
      var rest := emptyCells[..n - 1];
      assert emptyCells[n - |pikas|..] == rest[(n - 1) - (|pikas| - 1)..] + [top];
      PlacePikasKeeps(cells[top := Some(Pika(energy, directions[0], pikas[0]))], rest, pikas[1..], directions[1..], energy, j);
    }
  }

  /** The k-th pika lands on the k-th cell popped, when the stack holds
      distinct cells. */
  lemma {:induction false} PlacePikasPlaces(cells: Field, emptyCells: seq<int>, pikas: seq<nat>, directions: seq<Direction>, energy: int, k: int)
    requires ValidIndexes(emptyCells, |cells|) && Distinct(emptyCells)
    requires |directions| == |pikas| <= |emptyCells| && 0 <= k < |pikas|
    ensures PlacePikas(cells, emptyCells, pikas, directions, energy).Success?
    ensures PlacePikas(cells, emptyCells, pikas, directions, energy).value[emptyCells[|emptyCells| - 1 - k]]
      == Some(Pika(energy, directions[k], pikas[k]))
    decreases |pikas|
  {
    var n := |emptyCells|;
    var top := emptyCells[n - 1];
    var rest := emptyCells[..n - 1];
    var placed := cells[top := Some(Pika(energy, directions[0], pikas[0]))];
    if k == 0 {
      assert top !in rest[(n - 1) - (|pikas| - 1)..];
      PlacePikasKeeps(placed, rest, pikas[1..], directions[1..], energy, top);
    } else {
      assert rest[(n - 1) - 1 - (k - 1)] == emptyCells[n - 1 - k];
      PlacePikasPlaces(placed, rest, pikas[1..], directions[1..], energy, k - 1);
    }
  }

  lemma DistinctPrefix(s: seq<int>, n: int)
    requires Distinct(s) && 0 <= n <= |s|
    ensures Distinct(s[..n])
  {
  }

  /** A world that was built keeps its border of walls. */
  lemma NewWorldBorder(settings: WorldSettings, pikas: seq<nat>, emptyCells: seq<int>, directions: seq<Direction>, i: int)
    requires 0 < settings.worldSize.width && 0 < settings.worldSize.height
    requires multiset(emptyCells) == multiset(EmptyIndexes(EmptyField(settings.worldSize)))
    requires |directions| == |pikas|
    requires 0 <= i < settings.worldSize.width * settings.worldSize.height && OnBorder(i, settings.worldSize)
    ensures ValidIndexes(emptyCells, settings.worldSize.width * settings.worldSize.height)
    ensures var r := NewWorld(settings, pikas, emptyCells, directions);
      r.Success? ==> r.value[i] == Some(Wall)
  {
    var size := settings.worldSize;
    var field := EmptyField(size);
    PermutationIndexes(emptyCells, field);
    var r := NewWorld(settings, pikas, emptyCells, directions);
    if r.Success? {
      var n := |emptyCells|;
      var o, f := settings.obstaclesCount, settings.initialFoodCount;
      var o', f' := if o < 0 then 0 else o, if f < 0 then 0 else f;
      var walled := PopItems(field, emptyCells, o, Wall);
      var fed := PopItems(walled.0, walled.1, f, Food);
      assert field[i] == Some(Wall);
      assert i !in emptyCells by {
        if i in emptyCells {
          var k :| 0 <= k < n && emptyCells[k] == i;
          PermutationEmpty(emptyCells, field, k);
        }
      }
      assert i !in emptyCells[n - o'..];
      assert i !in walled.1[|walled.1| - f'..];
      assert i !in fed.1[|fed.1| - |pikas|..];
      PopItemsCells(field, emptyCells, o', Wall, i);
      PopItemsCells(walled.0, walled.1, f', Food, i);
      PlacePikasKeeps(fed.0, fed.1, pikas, directions, settings.pikaStartEnergy, i);
    }
  }

  /** Every pika of a built world sits in its own cell, popped from the
      top of the stack after the walls and the food, with the start
      energy and its heading. */
  lemma NewWorldPikas(settings: WorldSettings, pikas: seq<nat>, emptyCells: seq<int>, directions: seq<Direction>, k: int)
    requires 0 < settings.worldSize.width && 0 < settings.worldSize.height
    requires multiset(emptyCells) == multiset(EmptyIndexes(EmptyField(settings.worldSize)))
    requires |directions| == |pikas|
    requires settings.obstaclesCount >= 0 && settings.initialFoodCount >= 0
    requires 0 <= k < |pikas|
    ensures ValidIndexes(emptyCells, settings.worldSize.width * settings.worldSize.height)
    ensures var r := NewWorld(settings, pikas, emptyCells, directions);
      var left := |emptyCells| - settings.obstaclesCount - settings.initialFoodCount;
      r.Success? ==> 0 <= left - 1 - k && r.value[emptyCells[left - 1 - k]] == Some(Pika(settings.pikaStartEnergy, directions[k], pikas[k]))
  {
    var field := EmptyField(settings.worldSize);
    PermutationIndexes(emptyCells, field);
    var r := NewWorld(settings, pikas, emptyCells, directions);
    if r.Success? {
      var o, f := settings.obstaclesCount, settings.initialFoodCount;
      var walled := PopItems(field, emptyCells, o, Wall);
      var fed := PopItems(walled.0, walled.1, f, Food);
      var left := |emptyCells| - o - f;
      assert r == PlacePikas(fed.0, fed.1, pikas, directions, settings.pikaStartEnergy);
      assert fed.1 == emptyCells[..left];
      assert Distinct(fed.1) by {
        DistinctPrefix(emptyCells, left);
      }
      PlacePikasPlaces(fed.0, fed.1, pikas, directions, settings.pikaStartEnergy, k);
      assert fed.1[|fed.1| - 1 - k] == emptyCells[left - 1 - k];
    }
  }

  /** In a list without repeats, the element at k lies in every slice
      that covers k and in no other. */
  lemma DistinctSlices(s: seq<int>, k: int, m: int)
    requires Distinct(s) && 0 <= k < |s| && 0 <= m <= |s|
    ensures s[k] in s[m..] <==> m <= k
    ensures s[k] in s[..m] <==> k < m
  {
    if s[k] in s[m..] {
      var j :| 0 <= j < |s[m..]| && s[m..][j] == s[k];
      assert s[m + j] == s[k];
    }
    if m <= k {
      assert s[m..][k - m] == s[k];
    }
    if s[k] in s[..m] {
      var j :| 0 <= j < m && s[..m][j] == s[k];
      assert s[j] == s[k];
    }
    if k < m {
      assert s[..m][k] == s[k];
    }
  }

  /** After the walls and then the food are popped off a stack of distinct
      cells, the top cells hold the walls and the next ones the food. */
  lemma PoppedItems(field: Field, emptyCells: seq<int>, obstacles: int, food: int, k: int)
    requires ValidIndexes(emptyCells, |field|) && Distinct(emptyCells)
    requires obstacles < |emptyCells| && food < |emptyCells| - (if obstacles < 0 then 0 else obstacles)
    requires 0 <= k < |emptyCells|
    ensures var walls := if obstacles < 0 then 0 else obstacles;
      var fed := if food < 0 then 0 else food;
      var walled := PopItems(field, emptyCells, obstacles, Wall);
      var c := PopItems(walled.0, walled.1, food, Food).0[emptyCells[k]];
      (|emptyCells| - walls <= k ==> c == Some(Wall))
      && (|emptyCells| - walls - fed <= k < |emptyCells| - walls ==> c == Some(Food))
  {
    var n := |emptyCells|;
    var walls := if obstacles < 0 then 0 else obstacles;
    var fed := if food < 0 then 0 else food;
    var c := emptyCells[k];
    var walled := PopItems(field, emptyCells, obstacles, Wall);
    assert walled.1 == emptyCells[..n - walls];
    DistinctSlices(emptyCells, k, n - walls);
    PopItemsCells(field, emptyCells, walls, Wall, c);
    if k < n - walls {
      DistinctPrefix(emptyCells, n - walls);
      assert walled.1[k] == c;
      DistinctSlices(walled.1, k, n - walls - fed);
    } else {
      assert c !in walled.1;
    }
    PopItemsCells(walled.0, walled.1, fed, Food, c);
  }

  /** The walls and the food of a built world stay where they were put:
      the top `obstaclesCount` cells of the stack hold a wall and the next
      `initialFoodCount` hold food, so no item and no pika overwrites
      another. */
  lemma NewWorldItems(settings: WorldSettings, pikas: seq<nat>, emptyCells: seq<int>, directions: seq<Direction>, k: int)
    requires 0 < settings.worldSize.width && 0 < settings.worldSize.height
    requires multiset(emptyCells) == multiset(EmptyIndexes(EmptyField(settings.worldSize)))
    requires |directions| == |pikas|
    requires 0 <= k < |emptyCells|
    ensures ValidIndexes(emptyCells, settings.worldSize.width * settings.worldSize.height)
    ensures var r := NewWorld(settings, pikas, emptyCells, directions);
      var walls := if settings.obstaclesCount < 0 then 0 else settings.obstaclesCount;
      var food := if settings.initialFoodCount < 0 then 0 else settings.initialFoodCount;
      r.Success? ==>
        (|emptyCells| - walls <= k ==> r.value[emptyCells[k]] == Some(Wall))
        && (|emptyCells| - walls - food <= k < |emptyCells| - walls ==> r.value[emptyCells[k]] == Some(Food))
  {
    var field := EmptyField(settings.worldSize);
    PermutationIndexes(emptyCells, field);
    var r := NewWorld(settings, pikas, emptyCells, directions);
    var n := |emptyCells|;
    var walls := if settings.obstaclesCount < 0 then 0 else settings.obstaclesCount;
    var food := if settings.initialFoodCount < 0 then 0 else settings.initialFoodCount;
    if r.Success? && n - walls - food <= k {
      var walled := PopItems(field, emptyCells, settings.obstaclesCount, Wall);
      var fed := PopItems(walled.0, walled.1, settings.initialFoodCount, Food);
      assert fed.1 == emptyCells[..n - walls - food];
      assert r == PlacePikas(fed.0, emptyCells[..n - walls - food], pikas, directions, settings.pikaStartEnergy);
      PoppedItems(field, emptyCells, settings.obstaclesCount, settings.initialFoodCount, k);
      PlacedAbove(fed.0, emptyCells, n - walls - food, pikas, directions, settings.pikaStartEnergy, k);
    }
  }

  /** Placing the pikas from a prefix of a stack of distinct cells leaves
      the cells above that prefix as they were. */
  lemma PlacedAbove(cells: Field, emptyCells: seq<int>, m: int, pikas: seq<nat>, directions: seq<Direction>, energy: int, k: int)
    requires ValidIndexes(emptyCells, |cells|) && Distinct(emptyCells)
    requires 0 <= m <= k < |emptyCells|
    requires |directions| == |pikas| <= m
    ensures PlacePikas(cells, emptyCells[..m], pikas, directions, energy).Success?
    ensures PlacePikas(cells, emptyCells[..m], pikas, directions, energy).value[emptyCells[k]] == cells[emptyCells[k]]
  {
    var stack := emptyCells[..m];
    DistinctSlices(emptyCells, k, m);
    assert emptyCells[k] !in stack[m - |pikas|..];
    PlacePikasKeeps(cells, stack, pikas, directions, energy, emptyCells[k]);
  }
}
