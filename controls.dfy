/** handleInput: one key press, already read, turned into a move, a shot or
    quitting, followed by the item pickup on the player's cell. */
module Controls {
  import opened World
  import Combat

  /** What a key asks for. */
  datatype Command = Walk(dx: int, dy: int) | Fire(dx: int, dy: int) | Quit | Ignore

  /** One orthogonal step. */
  predicate IsUnitStep(dx: int, dy: int) {
    (dx == 0 && (dy == 1 || dy == -1)) || (dy == 0 && (dx == 1 || dx == -1))
  }

  /** The key switch: WASD move (either case), Q quits, and the second byte of
      the four arrow keys (72, 80, 75, 77, that is 'H', 'P', 'K', 'M') fires
      up, down, left and right.  Every other key falls through. */
  function Decode(key: char): (c: Command)
    ensures c.Walk? || c.Fire? ==> IsUnitStep(c.dx, c.dy)
    ensures c.Quit? <==> key == 'q' || key == 'Q'
    ensures c.Walk? <==> key in "wWsSaAdD"
    ensures c.Fire? <==> key in "HPKM"
  {
    match key
    case 'w' => Walk(0, -1)
    case 'W' => Walk(0, -1)
    case 's' => Walk(0, 1)
    case 'S' => Walk(0, 1)
    case 'a' => Walk(-1, 0)
    case 'A' => Walk(-1, 0)
    case 'd' => Walk(1, 0)
    case 'D' => Walk(1, 0)
    case 'q' => Quit
    case 'Q' => Quit
    case 'H' => Fire(0, -1)   // 72, arrow up
    case 'P' => Fire(0, 1)    // 80, arrow down
    case 'K' => Fire(-1, 0)   // 75, arrow left
    case 'M' => Fire(1, 0)    // 77, arrow right
    case _ => Ignore
  }

  /** The pickup scan on the player's cell: the first item there is used up
      and removed; an ammo box gives 5 ammo, anything else 20 health. */
  function Pickup(s: State): (r: State)
    ensures r.zombies == s.zombies && r.score == s.score && r.wave == s.wave
    ensures r.gameOver == s.gameOver
    ensures r.player.x == s.player.x && r.player.y == s.player.y
    // nothing on the cell: nothing happens
    ensures (forall i :: 0 <= i < |s.items| ==> !At(s.items[i], s.player.x, s.player.y)) ==> r == s
    // otherwise exactly the first item on the cell goes, the others keep their order
    ensures forall i :: (0 <= i < |s.items| && At(s.items[i], s.player.x, s.player.y) &&
        (forall j :: 0 <= j < i ==> !At(s.items[j], s.player.x, s.player.y))) ==>
      r.items == s.items[..i] + s.items[i + 1..] &&
      if s.items[i].symbol == 'A' then
        r.ammo == s.ammo + 5 && r.player == s.player && r.message == PickedUpAmmo
      else
        r.ammo == s.ammo && r.player == s.player.(health := s.player.health + 20) &&
        r.message == PickedUpHealth
    ensures r.items == s.items || |r.items| == |s.items| - 1
    ensures forall it :: it in r.items ==> it in s.items
  {
    var i := FirstAt(s.items, s.player.x, s.player.y);
    if i == |s.items| then s
    else
      var rest := s.(items := s.items[..i] + s.items[i + 1..]);
      if s.items[i].symbol == 'A' then rest.(ammo := s.ammo + 5, message := PickedUpAmmo)
      else rest.(player := s.player.(health := s.player.health + 20), message := PickedUpHealth)
  }

  /** The cell the key asks the player to move to (the player's own cell for
      every key that is not a move). */
  function Destination(p: Entity, c: Command): (int, int) {
    if c.Walk? then (p.x + c.dx, p.y + c.dy) else (p.x, p.y)
  }

  /** The switch of handleInput: quitting raises the flag, a fire key
      shoots; a move only changes the destination cell, so it acts here as
      every other key does, by doing nothing. */
  function Act(s: State, c: Command): (r: State)
    ensures r.player == s.player && r.items == s.items
    ensures r.gameOver == (s.gameOver || c.Quit?)
    ensures r.score == s.score && r.wave == s.wave
    ensures s.ammo >= 0 ==> r.ammo >= 0
    ensures |r.zombies| == |s.zombies|
    ensures forall j :: 0 <= j < |s.zombies| ==>
      r.zombies[j].x == s.zombies[j].x && r.zombies[j].y == s.zombies[j].y
    ensures !c.Fire? ==> r == s || r == s.(gameOver := true)
    // a fire key shoots in its direction
    ensures c.Fire? ==> r == Combat.Shot(s, c.dx, c.dy)
  {
    match c
    case Quit => s.(gameOver := true)
    case Fire(dx, dy) => Combat.ShotWoundsAtMostOne(s, dx, dy); Combat.Shot(s, dx, dy)
    case _ => s
  }

  /** The game after handleInput carried out command c. */
  function Perform(s: State, c: Command): (r: State)
    // the player moves at most one orthogonal step, and only onto the map
    ensures (r.player.x == s.player.x && r.player.y == s.player.y) ||
      (c.Walk? && IsWalkable(r.player.x, r.player.y) &&
       r.player.x == s.player.x + c.dx && r.player.y == s.player.y + c.dy)
    ensures OnMap(s.player) ==> OnMap(r.player)
    // a blocked move changes nothing at all
    ensures c.Walk? && !IsWalkable(s.player.x + c.dx, s.player.y + c.dy) ==> r == s
    // quitting raises the flag; nothing else does here
    ensures r.gameOver == (s.gameOver || c.Quit?)
    // no zombie moves, and no score is made here
    ensures r.score == s.score && r.wave == s.wave
    ensures |r.zombies| == |s.zombies|
    ensures forall j :: 0 <= j < |s.zombies| ==>
      r.zombies[j].x == s.zombies[j].x && r.zombies[j].y == s.zombies[j].y
    ensures !c.Fire? ==> r.zombies == s.zombies
    // at most one item is picked up
    ensures r.items == s.items || |r.items| == |s.items| - 1
    ensures forall it :: it in r.items ==> it in s.items
    // ammo never goes negative: a shot needs a bullet, a pickup only adds
    ensures s.ammo >= 0 ==> r.ammo >= 0
    ensures r.player.health >= s.player.health
    // a move onto the map takes the player there, then the pickup runs on that cell
    ensures c.Walk? && IsWalkable(s.player.x + c.dx, s.player.y + c.dy) ==>
      r == Pickup(s.(player := s.player.(x := s.player.x + c.dx, y := s.player.y + c.dy)))
    // every other key acts, then the pickup runs on the player's own cell
    ensures !c.Walk? && OnMap(s.player) ==> r == Pickup(Act(s, c))
  {
    var s' := Act(s, c);
    var (x, y) := Destination(s.player, c);
    if IsWalkable(x, y) then Pickup(s'.(player := s'.player.(x := x, y := y)))
    else s'
  }

  /** The game after handleInput read `key`. */
  function Input(s: State, key: char): State {
    Perform(s, Decode(key))
  }
}
