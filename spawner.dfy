/** spawnZombies and spawnItems: where new zombies and items appear. */
module Spawner {
  import opened World
  import opened Oracle

  /** C++ integer division, which truncates toward zero. */
  function Quot(a: int, b: int): (q: int)
    requires b > 0
    // the quotient rounds toward zero: q * b is the multiple of b nearest to
    // a on a's side of zero, and never further from zero than a
    ensures a >= 0 ==> 0 <= q * b <= a < q * b + b
    ensures a < 0 ==> q * b - b < a <= q * b <= 0
  {
    if a >= 0 then
      DivisionBounds(a, b); a / b
    else
      DivisionBounds(-a, b); -((-a) / b)
  }

  /** Dafny's division of a natural number rounds down. */
  lemma DivisionBounds(n: nat, b: int)
    requires b > 0
    ensures 0 <= (n / b) * b <= n < (n / b) * b + b
  {
    var q, m := n / b, n % b;
    assert n == q * b + m && 0 <= m < b;
    assert q >= 0;
  }

  /** Health of a zombie of the given wave: 1 + wave / 3. */
  function ZombieHealth(wave: int): int {
    1 + Quot(wave, 3)
  }

  /** One zombie of spawnZombies: on a random edge, at a random place along it. */
  function NewZombie(wave: int, roll: EdgeRoll): (z: Entity)
    ensures z.symbol == 'Z' && z.health == ZombieHealth(wave)
    ensures OnMap(z)
    ensures z.y == 0 || z.x == Width - 1 || z.y == Height - 1 || z.x == 0
  {
    var health := ZombieHealth(wave);
    match roll.side % 4
    case 0 => Entity(roll.offset % Width, 0, 'Z', health)            // top
    case 1 => Entity(Width - 1, roll.offset % Height, 'Z', health)   // right
    case 2 => Entity(roll.offset % Width, Height - 1, 'Z', health)   // bottom
    case 3 => Entity(0, roll.offset % Height, 'Z', health)           // left
  }

  /** The zombie list after spawnZombies with one roll per new zombie: the
      old zombies untouched, then one fresh 'Z' per roll, in roll order, each
      with the wave's health and on an edge of the map. */
  function Reinforce(zombies: seq<Entity>, wave: int, rolls: seq<EdgeRoll>): (r: seq<Entity>)
    ensures |r| == |zombies| + |rolls|
    ensures r[..|zombies|] == zombies
    ensures forall j :: |zombies| <= j < |r| ==>
      r[j] == NewZombie(wave, rolls[j - |zombies|])
    ensures forall j :: |zombies| <= j < |r| ==>
      r[j].symbol == 'Z' && r[j].health == ZombieHealth(wave) && OnMap(r[j]) &&
      (r[j].y == 0 || r[j].x == Width - 1 || r[j].y == Height - 1 || r[j].x == 0)
  {
    zombies + seq(|rolls|, j requires 0 <= j < |rolls| => NewZombie(wave, rolls[j]))
  }

  /** The cell a candidate draw stands for. */
  function CellX(t: Try): int { t.xDraw % Width }
  function CellY(t: Try): int { t.yDraw % Height }

  /** The item spawnItems builds from a roll once a cell is accepted; an
      item's health is the default 1 and is never read. */
  function NewItem(roll: ItemRoll, t: Try): (it: Entity)
    ensures it.symbol == 'A' || it.symbol == '+'
    ensures OnMap(it)
  {
    Entity(CellX(t), CellY(t), if roll.kind % 2 == 0 then 'A' else '+', 1)
  }

  /** A cell the rejection sampling accepts: not the player's cell (px, py),
      and no zombie or item is on it. */
  predicate Free(px: int, py: int, zombies: seq<Entity>, items: seq<Entity>, x: int, y: int) {
    !(px == x && py == y) && FirstAt(zombies, x, y) == |zombies| && FirstAt(items, x, y) == |items|
  }

  /** Index of the first free candidate, or |tries| when none is free. */
  function FirstFree(px: int, py: int, zombies: seq<Entity>, items: seq<Entity>, tries: seq<Try>): (k: nat)
    ensures k <= |tries|
    ensures k < |tries| ==> Free(px, py, zombies, items, CellX(tries[k]), CellY(tries[k]))
    ensures forall j :: 0 <= j < k ==> !Free(px, py, zombies, items, CellX(tries[j]), CellY(tries[j]))
  {
    if tries == [] then 0
    else if Free(px, py, zombies, items, CellX(tries[0]), CellY(tries[0])) then 0
    else 1 + FirstFree(px, py, zombies, items, tries[1..])
  }

  /** The rejection sampling of spawnItems: draw candidate cells in turn until
      one is neither the player's cell nor taken by a zombie or an item. */
  method FindFreeCell(px: int, py: int, zombies: seq<Entity>, items: seq<Entity>, tries: seq<Try>)
    returns (x: int, y: int)
    requires FirstFree(px, py, zombies, items, tries) < |tries|
    ensures var k := FirstFree(px, py, zombies, items, tries);
      x == CellX(tries[k]) && y == CellY(tries[k]) && Free(px, py, zombies, items, x, y)
  {
    ghost var k := FirstFree(px, py, zombies, items, tries);
    var t := 0;
    var valid := false;
    x, y := 0, 0;
    while !valid
      invariant t <= k + 1
      invariant !valid ==> t <= k
      invariant valid ==> t == k + 1 && x == CellX(tries[k]) && y == CellY(tries[k])
      decreases k + 1 - t
    {
      x, y := tries[t].xDraw % Width, tries[t].yDraw % Height;
      assert x == CellX(tries[t]) && y == CellY(tries[t]);
      t := t + 1;
      valid := true;
      if x == px && y == py {
        valid := false;
        continue;
      }
      var z := Locate(zombies, x, y);
      if z < |zombies| {
        valid := false;
      }
      var j := Locate(items, x, y);
      if j < |items| {
        valid := false;
      }
      assert valid <==> Free(px, py, zombies, items, x, y);
    }
  }

  /** The oracle supplies, for every item in turn, a free candidate cell,
      counting the items already placed by the same call.  The source keeps
      drawing until it finds one; the model needs the draws up front. */
  predicate Placeable(px: int, py: int, zombies: seq<Entity>, items: seq<Entity>, rolls: seq<ItemRoll>)
    decreases |rolls|
  {
    rolls == [] ||
    (var k := FirstFree(px, py, zombies, items, rolls[0].tries);
     k < |rolls[0].tries| &&
     Placeable(px, py, zombies, items + [NewItem(rolls[0], rolls[0].tries[k])], rolls[1..]))
  }

  /** The item list after spawnItems with one roll per new item. */
  function PlaceItems(px: int, py: int, zombies: seq<Entity>, items: seq<Entity>, rolls: seq<ItemRoll>): (r: seq<Entity>)
    requires Placeable(px, py, zombies, items, rolls)
    ensures |r| == |items| + |rolls|
    ensures r[..|items|] == items
    decreases |rolls|
  {
    if rolls == [] then items
    else
      var k := FirstFree(px, py, zombies, items, rolls[0].tries);
      PlaceItems(px, py, zombies, items + [NewItem(rolls[0], rolls[0].tries[k])], rolls[1..])
  }

  /** spawnItems appends exactly one item per roll and leaves the existing
      ones alone; each new item is an ammo box or a medkit on the map, away
      from the player, from every zombie and from every item before it. */
  lemma {:induction false} PlaceItemsSpread(px: int, py: int, zombies: seq<Entity>, items: seq<Entity>, rolls: seq<ItemRoll>)
    requires Placeable(px, py, zombies, items, rolls)
    ensures var r := PlaceItems(px, py, zombies, items, rolls);
      |r| == |items| + |rolls| && r[..|items|] == items &&
      forall j :: |items| <= j < |r| ==>
        (r[j].symbol == 'A' || r[j].symbol == '+') && OnMap(r[j]) &&
        !(r[j].x == px && r[j].y == py) &&
        (forall z :: z in zombies ==> !At(z, r[j].x, r[j].y)) &&
        (forall i :: 0 <= i < j ==> !At(r[i], r[j].x, r[j].y))
    decreases |rolls|
  {
    if rolls != [] {
      var k := FirstFree(px, py, zombies, items, rolls[0].tries);
      var it := NewItem(rolls[0], rolls[0].tries[k]);
      var items' := items + [it];
      PlaceItemsSpread(px, py, zombies, items', rolls[1..]);
      var r := PlaceItems(px, py, zombies, items, rolls);
      assert r == PlaceItems(px, py, zombies, items', rolls[1..]);
      assert r[..|items'|] == items';
      assert r[..|items|] == items by {
        assert r[..|items|] == r[..|items'|][..|items|];
      }
      forall j | |items| <= j < |r|
        ensures (r[j].symbol == 'A' || r[j].symbol == '+') && OnMap(r[j])
        ensures !(r[j].x == px && r[j].y == py)
        ensures forall z :: z in zombies ==> !At(z, r[j].x, r[j].y)
        ensures forall i :: 0 <= i < j ==> !At(r[i], r[j].x, r[j].y)
      {
        if j == |items| {
          assert r[j] == it;
          forall i | 0 <= i < j ensures !At(r[i], r[j].x, r[j].y) {
            assert r[i] == items[i];
          }
          forall z | z in zombies ensures !At(z, r[j].x, r[j].y) {
            var m :| 0 <= m < |zombies| && zombies[m] == z;
          }
        }
      }
    }
  }
}
