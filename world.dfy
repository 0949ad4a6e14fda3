/** The map, the entities on it and the game state they make up. */
module World {

  /** Size of the grid. */
  const Width: int := 40
  const Height: int := 20

  datatype Option<T> = None | Some(value: T)

  /** Player, zombie and item share one record; the symbol tells them apart
      ('@' the player, 'Z' a zombie, 'A' an ammo box, '+' a medkit). */
  datatype Entity = Entity(x: int, y: int, symbol: char, health: int)

  /** The single message slot shown under the map: last writer wins.  The
      numbers the game prints inside a message are kept as arguments. */
  datatype Message =
    | Welcome
    | OutOfAmmo
    | ZombieKilled
    | ZombieHit(remaining: int)
    | PickedUpAmmo
    | PickedUpHealth
    | Bitten
    | WaveCleared(wave: int)

  /** The whole game, as a value: what one GameState object holds. */
  datatype State = State(
    player: Entity,
    zombies: seq<Entity>,
    items: seq<Entity>,
    ammo: int,
    score: int,
    wave: int,
    gameOver: bool,
    message: Message)

  /** isWalkable: the only blocking rule is the edge of the map. */
  function IsWalkable(x: int, y: int): (ok: bool)
    ensures ok <==> 0 <= x < Width && 0 <= y < Height
  {
    if x < 0 || x >= Width || y < 0 || y >= Height then false else true
  }

  predicate At(e: Entity, x: int, y: int) {
    e.x == x && e.y == y
  }

  predicate OnMap(e: Entity) {
    IsWalkable(e.x, e.y)
  }

  predicate AllOnMap(es: seq<Entity>) {
    forall i :: 0 <= i < |es| ==> OnMap(es[i])
  }

  /** Index of the first entity standing on (x, y), or |es| when there is none:
      the search every scan loop of the game performs. */
  function FirstAt(es: seq<Entity>, x: int, y: int): (i: nat)
    ensures i <= |es|
    ensures i < |es| ==> At(es[i], x, y)
    ensures forall j :: 0 <= j < i ==> !At(es[j], x, y)
  {
    if es == [] then 0
    else if At(es[0], x, y) then 0
    else 1 + FirstAt(es[1..], x, y)
  }

  /** The scan loop itself: walk the sequence until an entity on (x, y) turns up. */
  method Locate(es: seq<Entity>, x: int, y: int) returns (i: nat)
    ensures i == FirstAt(es, x, y)
  {
    i := 0;
    while i < |es| && !(es[i].x == x && es[i].y == y)
      invariant i <= |es|
      invariant forall j :: 0 <= j < i ==> !At(es[j], x, y)
    {
      i := i + 1;
    }
  }
}
