/** A cellular automaton that grows cave layouts on a fixed-size grid.

    The grid `caveMap[x, y]` holds OPEN (0) or WALL (1). A run seeds the grid
    from a sequence of random draws and then smooths it, one generation at a
    time, with an asymmetric rule: a wall survives with at least 3 wall
    neighbours, an open cell turns into a wall with at least 5. Coordinates
    outside the grid count as walls.
 */
module Cave {

  const OPEN := 0
  const WALL := 1

  /** The smoothing rule for one cell: the centre's current state and the
      number of walls among its eight neighbours give its next state. */
  function Transition(centre: int, walls: int): (next: int)
    ensures next == OPEN || next == WALL
    ensures centre == WALL ==> (next == WALL <==> walls >= 3)
    ensures centre != WALL ==> (next == WALL <==> walls >= 5)
  {
    var threshold := if centre == WALL then 3 else 5;
    if walls >= threshold then WALL else OPEN
  }

  /** More wall neighbours never turn a wall-bound cell back into an open one. */
  lemma TransitionMonotone(centre: int, fewer: int, more: int)
    requires fewer <= more
    ensures Transition(centre, fewer) <= Transition(centre, more)
  {
  }

  /** Walls are stickier than open space: whatever an open cell becomes, a
      wall with the same neighbourhood becomes too. */
  lemma WallsAreSticky(walls: int)
    ensures Transition(OPEN, walls) <= Transition(WALL, walls)
  {
  }

  /** What one draw in [0, 100) seeds a cell with. */
  function Seed(draw: int, percentWalls: int): (s: int)
    ensures s == OPEN || s == WALL
    ensures s == WALL <==> draw < percentWalls
  {
    if draw < percentWalls then WALL else OPEN
  }

  lemma MulMonotone(a: int, b: int, c: nat)
    requires a <= b
    ensures a * c <= b * c
  {
    assert b * c - a * c == (b - a) * c;
  }

  /** Index of the draw consumed for cell (x, y) when the grid is walked
      row by row, y outer and x inner: row y starts after the y * w draws
      of the rows before it. */
  function RowMajor(w: nat, h: nat, x: int, y: int): (i: nat)
    requires 0 <= x < w && 0 <= y < h
    ensures i < w * h
  {
    MulMonotone(y + 1, h, w);
    y * w + x
  }

  /** Every cell has its own draw: the index decodes back to the cell. */
  lemma {:induction false} RowMajorDecodes(w: nat, h: nat, x: int, y: int)
    requires 0 <= x < w && 0 <= y < h
    ensures RowMajor(w, h, x, y) / w == y && RowMajor(w, h, x, y) % w == x
  {
    var i := RowMajor(w, h, x, y);
    var q, r := i / w, i % w;
    assert i == q * w + r;
    if q < y {
      MulMonotone(q + 1, y, w);
      assert false;
    } else if q > y {
      MulMonotone(y + 1, q, w);
      assert false;
    }
  }

  /** Boundary-as-wall policy on a map `m`: a position outside `m` counts as
      one wall, a position inside counts when it holds WALL. */
  ghost function WallBit(m: array2<int>, x: int, y: int): (b: int)
    reads m
    ensures b == 0 || b == 1
    ensures !(0 <= x < m.Length0 && 0 <= y < m.Length1) ==> b == 1
    ensures 0 <= x < m.Length0 && 0 <= y < m.Length1 ==> (b == 1 <==> m[x, y] == WALL)
  {
    if 0 <= x < m.Length0 && 0 <= y < m.Length1 && m[x, y] != WALL then 0 else 1
  }

  /** Number of walls among the eight Moore neighbours of (x, y) in `m`; the
      centre itself is not one of them. */
  ghost function WallCount(m: array2<int>, x: int, y: int): (n: int)
    reads m
    ensures 0 <= n <= 8
  {
    WallBit(m, x - 1, y - 1) + WallBit(m, x, y - 1) + WallBit(m, x + 1, y - 1) +
    WallBit(m, x - 1, y)                            + WallBit(m, x + 1, y) +
    WallBit(m, x - 1, y + 1) + WallBit(m, x, y + 1) + WallBit(m, x + 1, y + 1)
  }

  /** The state the smoothing rule gives the cell (x, y) of `m`; it depends
      on `m` alone. */
  ghost function Next(m: array2<int>, x: int, y: int): (n: int)
    reads m
    requires 0 <= x < m.Length0 && 0 <= y < m.Length1
    ensures n == OPEN || n == WALL
    ensures m[x, y] == WALL ==> (n == WALL <==> WallCount(m, x, y) >= 3)
    ensures m[x, y] != WALL ==> (n == WALL <==> WallCount(m, x, y) >= 5)
  {
    Transition(m[x, y], WallCount(m, x, y))
  }

  /** Walls met in row y of the 3x3 window around (xPos, yPos) at columns
      before x, skipping the centre. */
  ghost function RowScanned(m: array2<int>, xPos: int, yPos: int, y: int, x: int): int
    reads m
    requires xPos - 1 <= x <= xPos + 2
    decreases x - xPos
  {
    if x == xPos - 1 then 0
    else RowScanned(m, xPos, yPos, y, x - 1) + (if xPos == x - 1 && yPos == y then 0 else WallBit(m, x - 1, y))
  }

  /** Walls met in the rows of the window before row y. */
  ghost function Scanned(m: array2<int>, xPos: int, yPos: int, y: int): int
    reads m
    requires yPos - 1 <= y <= yPos + 2
    decreases y - yPos
  {
    if y == yPos - 1 then 0
    else Scanned(m, xPos, yPos, y - 1) + RowScanned(m, xPos, yPos, y - 1, xPos + 2)
  }

  lemma {:induction false} RowScanCoversRow(m: array2<int>, xPos: int, yPos: int, y: int)
    ensures RowScanned(m, xPos, yPos, y, xPos + 2) ==
      WallBit(m, xPos - 1, y) + (if y == yPos then 0 else WallBit(m, xPos, y)) + WallBit(m, xPos + 1, y)
  {
    assert RowScanned(m, xPos, yPos, y, xPos) == WallBit(m, xPos - 1, y);
    assert RowScanned(m, xPos, yPos, y, xPos + 1) ==
      WallBit(m, xPos - 1, y) + (if y == yPos then 0 else WallBit(m, xPos, y));
  }

  /** Scanning the whole 3x3 window while skipping the centre visits exactly
      the eight Moore neighbours. */
  lemma {:induction false} ScanCoversMooreNeighbourhood(m: array2<int>, xPos: int, yPos: int)
    ensures Scanned(m, xPos, yPos, yPos + 2) == WallCount(m, xPos, yPos)
  {
    RowScanCoversRow(m, xPos, yPos, yPos - 1);
    RowScanCoversRow(m, xPos, yPos, yPos);
    RowScanCoversRow(m, xPos, yPos, yPos + 1);
    assert Scanned(m, xPos, yPos, yPos) == RowScanned(m, xPos, yPos, yPos - 1, xPos + 2);
    assert Scanned(m, xPos, yPos, yPos + 1) ==
      Scanned(m, xPos, yPos, yPos) + RowScanned(m, xPos, yPos, yPos, xPos + 2);
  }

  /** Every cell of `m` is OPEN or WALL. */
  ghost predicate Binary(m: array2<int>)
    reads m
  {
    forall x, y :: 0 <= x < m.Length0 && 0 <= y < m.Length1 ==> m[x, y] == OPEN || m[x, y] == WALL
  }

  ghost predicate AllOpen(m: array2<int>)
    reads m
  {
    forall x, y :: 0 <= x < m.Length0 && 0 <= y < m.Length1 ==> m[x, y] == OPEN
  }

  ghost predicate AllWall(m: array2<int>)
    reads m
  {
    forall x, y :: 0 <= x < m.Length0 && 0 <= y < m.Length1 ==> m[x, y] == WALL
  }

  /** On an all-wall map every cell sees eight walls, counting the outside
      as wall. */
  lemma AllWallSeesEightWalls(m: array2<int>, x: int, y: int)
    requires AllWall(m)
    requires 0 <= x < m.Length0 && 0 <= y < m.Length1
    ensures WallCount(m, x, y) == 8
  {
  }

  /** An all-wall map is a fixed point of the smoothing rule: 8 >= 3 keeps
      every wall a wall. */
  lemma AllWallIsFixedPoint(m: array2<int>)
    requires AllWall(m)
    ensures forall x, y :: 0 <= x < m.Length0 && 0 <= y < m.Length1 ==> Next(m, x, y) == WALL
  {
    forall x, y | 0 <= x < m.Length0 && 0 <= y < m.Length1
      ensures Next(m, x, y) == WALL
    {
      AllWallSeesEightWalls(m, x, y);
    }
  }

  /** On an all-open map each corner sees at least the five outside
      positions as walls (exactly five once the map is at least 2x2), so it
      turns into a wall after one step. */
  lemma CornerOfOpenMapBecomesWall(m: array2<int>, x: int, y: int)
    requires AllOpen(m)
    requires m.Length0 > 0 && m.Length1 > 0
    requires (x == 0 || x == m.Length0 - 1) && (y == 0 || y == m.Length1 - 1)
    ensures WallCount(m, x, y) >= 5
    ensures m.Length0 >= 2 && m.Length1 >= 2 ==> WallCount(m, x, y) == 5
    ensures Next(m, x, y) == WALL
  {
  }

  /** On an all-open map a non-corner cell of the first row sees only the
      three outside positions above it, and stays open. */
  lemma EdgeOfOpenMapStaysOpen(m: array2<int>, x: int)
    requires AllOpen(m)
    requires 1 <= x < m.Length0 - 1 && m.Length1 >= 2
    ensures WallCount(m, x, 0) == 3
    ensures Next(m, x, 0) == OPEN
  {
  }

  /** On an all-open map an interior cell sees no walls at all, and stays open. */
  lemma InteriorOfOpenMapStaysOpen(m: array2<int>, x: int, y: int)
    requires AllOpen(m)
    requires 1 <= x < m.Length0 - 1 && 1 <= y < m.Length1 - 1
    ensures WallCount(m, x, y) == 0
    ensures Next(m, x, y) == OPEN
  {
  }

  class CaveAlgo {
    const caveX: nat
    const caveY: nat
    var percentWalls: int
    var caveMap: array2<int>

    /** The map spans exactly caveX by caveY cells, each OPEN or WALL. */
    ghost predicate Valid()
      reads this, caveMap
    {
      caveMap.Length0 == caveX && caveMap.Length1 == caveY && Binary(caveMap)
    }

    /** Allocates the map; like a fresh C# array every cell starts at 0 (OPEN). */
    constructor (caveX: nat, caveY: nat, percentWalls: int)
      ensures Valid() && fresh(caveMap)
      ensures this.caveX == caveX && this.caveY == caveY
      ensures this.percentWalls == percentWalls
      ensures AllOpen(caveMap)
    {
      this.caveX := caveX;
      this.caveY := caveY;
      this.percentWalls := percentWalls;
      caveMap := new int[caveX, caveY]((x, y) => OPEN);
    }

    /** Bounds check: false exactly for the coordinates that index the map. */
    function IsOutOfBounds(x: int, y: int): (r: bool)
      reads this, caveMap
      requires Valid()
      ensures !r <==> 0 <= x < caveMap.Length0 && 0 <= y < caveMap.Length1
    {
      x < 0 || x >= caveX || y < 0 || y >= caveY
    }

    /** Anything outside the map is a wall, anything inside is a wall exactly
        when its stored state is WALL; it agrees with the counting policy. */
    function IsWall(x: int, y: int): (r: bool)
      reads this, caveMap
      requires Valid()
      ensures IsOutOfBounds(x, y) ==> r
      ensures !IsOutOfBounds(x, y) ==> (r <==> caveMap[x, y] == WALL)
      ensures r <==> WallBit(caveMap, x, y) == 1
    {
      IsOutOfBounds(x, y) || caveMap[x, y] == WALL
    }

    /** The next state of the in-bounds cell (xPos, yPos): counts the walls
        around it and applies the smoothing rule. */
    method GetNearTiles(xPos: int, yPos: int) returns (r: int)
      requires Valid()
      requires 0 <= xPos < caveX && 0 <= yPos < caveY
      ensures r == Next(caveMap, xPos, yPos)
    {
      var totalWalls := 0;
      var y := yPos - 1;
      while y <= yPos + 1
        invariant yPos - 1 <= y <= yPos + 2
        invariant totalWalls == Scanned(caveMap, xPos, yPos, y)
      {
        var x := xPos - 1;
        while x <= xPos + 1
          invariant xPos - 1 <= x <= xPos + 2
          invariant totalWalls == Scanned(caveMap, xPos, yPos, y) + RowScanned(caveMap, xPos, yPos, y, x)
        {
          if !(xPos == x && yPos == y) {
            if IsWall(x, y) {
              totalWalls := totalWalls + 1;
            }
          }
          x := x + 1;
        }
        y := y + 1;
      }
      ScanCoversMooreNeighbourhood(caveMap, xPos, yPos);

      if caveMap[xPos, yPos] == WALL {
        if totalWalls >= 3 {
          return WALL;
        }
      } else {
        if totalWalls >= 5 {
          return WALL;
        }
      }
      return OPEN;
    }

    /** Seeds the map from `draws`, one draw per cell in row-major order:
        a cell becomes a wall exactly when its draw is below percentWalls. */
    method SpawnBaseWall(draws: seq<int>)
      requires Valid()
      requires |draws| == caveX * caveY
      requires forall i :: 0 <= i < |draws| ==> 0 <= draws[i] < 100
      modifies caveMap
      ensures Valid()
      ensures forall x, y :: 0 <= x < caveX && 0 <= y < caveY ==>
        caveMap[x, y] == Seed(draws[RowMajor(caveX, caveY, x, y)], percentWalls)
      ensures percentWalls <= 0 ==> AllOpen(caveMap)
      ensures percentWalls >= 100 ==> AllWall(caveMap)
    {
      var next := 0;
      var y := 0;
      while y < caveY
        invariant 0 <= y <= caveY
        invariant next == y * caveX
        invariant Binary(caveMap)
        invariant forall i, j :: 0 <= i < caveX && 0 <= j < y ==>
          caveMap[i, j] == Seed(draws[RowMajor(caveX, caveY, i, j)], percentWalls)
      {
        var x := 0;
        while x < caveX
          invariant 0 <= x <= caveX
          invariant next == y * caveX + x
          invariant Binary(caveMap)
          invariant forall i, j :: 0 <= i < caveX && 0 <= j <= y && (j < y || i < x) ==>
            caveMap[i, j] == Seed(draws[RowMajor(caveX, caveY, i, j)], percentWalls)
        {
          assert next == RowMajor(caveX, caveY, x, y);
          var temp := draws[next];
          next := next + 1;
          if temp < percentWalls {
            caveMap[x, y] := WALL;
          } else {
            caveMap[x, y] := OPEN;
          }
          x := x + 1;
        }
        y := y + 1;
      }
    }

    /** One smoothing generation. Every new cell is computed from the previous
        map only: the result goes to a fresh array, the old one is left as it
        was, and the field is switched over at the end. */
    method StepMap()
      requires Valid()
      modifies this`caveMap
      ensures Valid() && fresh(caveMap)
      ensures unchanged(old(caveMap))
      ensures forall x, y :: 0 <= x < caveX && 0 <= y < caveY ==>
        caveMap[x, y] == Next(old(caveMap), x, y)
      ensures old(AllWall(caveMap)) ==> AllWall(caveMap)
    {
      ghost var previous := caveMap;
      var tempMap := new int[caveX, caveY];
      var y := 0;
      while y < caveY
        modifies tempMap
        invariant 0 <= y <= caveY
        invariant forall i, j :: 0 <= i < caveX && 0 <= j < y ==>
          tempMap[i, j] == Next(previous, i, j)
      {
        var x := 0;
        while x < caveX
          modifies tempMap
          invariant 0 <= x <= caveX
          invariant forall i, j :: 0 <= i < caveX && 0 <= j <= y && (j < y || i < x) ==>
            tempMap[i, j] == Next(previous, i, j)
        {
          tempMap[x, y] := GetNearTiles(x, y);
          x := x + 1;
        }
        y := y + 1;
      }
      caveMap := tempMap;
      if AllWall(previous) {
        AllWallIsFixedPoint(previous);
      }
    }
  }
}
