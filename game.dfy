/** The game loop's state object and the functions that act on it in place:
    initGame, handleInput, shoot, updateGame, spawnZombies and spawnItems,
    and one iteration of the main loop. */
module Game {
  import opened World
  import opened Oracle
  import opened Spawner
  import opened Combat
  import opened Controls
  import opened Horde

  /** The player initGame places: the centre of the map, 100 health. */
  function Start(): Entity {
    Entity(Width / 2, Height / 2, '@', 100)
  }

  /** The draws initGame needs: five zombies of wave 1, then three items
      that avoid them. */
  predicate InitReady(edges: seq<EdgeRoll>, drops: seq<ItemRoll>) {
    |edges| == 5 && |drops| == 3 &&
    Placeable(Start().x, Start().y, Reinforce([], 1, edges), [], drops)
  }

  /** The game initGame sets up. */
  function Initial(edges: seq<EdgeRoll>, drops: seq<ItemRoll>): (r: State)
    requires InitReady(edges, drops)
    // five zombies of wave 1, each with a single health point, on an edge
    ensures |r.zombies| == 5 && forall i :: 0 <= i < 5 ==>
      r.zombies[i].symbol == 'Z' && r.zombies[i].health == 1 &&
      (r.zombies[i].y == 0 || r.zombies[i].x == Width - 1 ||
       r.zombies[i].y == Height - 1 || r.zombies[i].x == 0)
    // three items, none on the player's cell or on a zombie
    ensures |r.items| == 3 && forall i :: 0 <= i < 3 ==>
      !At(r.items[i], r.player.x, r.player.y) &&
      forall z :: z in r.zombies ==> !At(z, r.items[i].x, r.items[i].y)
  {
    PlaceItemsSpread(Start().x, Start().y, Reinforce([], 1, edges), [], drops);
    var zombies := Reinforce([], 1, edges);
    State(Start(), zombies, PlaceItems(Start().x, Start().y, zombies, [], drops),
          15, 0, 1, false, Welcome)
  }

  /** The game after the input step of one loop iteration: no key pending
      leaves it alone. */
  function AfterKey(s: State, key: Option<char>): State {
    match key
    case None => s
    case Some(k) => Input(s, k)
  }

  predicate TickReady(s: State, key: Option<char>, rolls: Rolls) {
    UpdateReady(AfterKey(s, key), rolls)
  }

  /** One iteration of the main loop: input, then updateGame. */
  function Tick(s: State, key: Option<char>, rolls: Rolls): (r: State)
    requires TickReady(s, key, rolls)
    // the score never falls, and the wave advances by at most one
    ensures r.score >= s.score
    ensures r.wave == s.wave || r.wave == s.wave + 1
    // only a quit key or a fatal bite ends the game
    ensures r.gameOver ==> s.gameOver || key == Some('q') || key == Some('Q') || r.player.health <= 0
  {
    Update(AfterKey(s, key), rolls)
  }

  /** Where everything stands between two loop iterations: every entity on
      the map, ammo and score never negative, and the wave counted from 1. */
  predicate Placed(s: State) {
    OnMap(s.player) && AllOnMap(s.zombies) && AllOnMap(s.items) &&
    s.ammo >= 0 && s.score >= 0 && s.wave >= 1
  }

  /** Placed, and while the game goes on the player has health left and no
      dead zombie is left on the map. */
  predicate Sound(s: State) {
    Placed(s) &&
    (!s.gameOver ==> s.player.health > 0 && forall i :: 0 <= i < |s.zombies| ==> s.zombies[i].health > 0)
  }

  /** initGame sets up a sound game. */
  lemma InitialIsSound(edges: seq<EdgeRoll>, drops: seq<ItemRoll>)
    requires InitReady(edges, drops)
    ensures Sound(Initial(edges, drops))
  {
    PlaceItemsSpread(Start().x, Start().y, Reinforce([], 1, edges), [], drops);
  }

  /** handleInput keeps everything on the map and the counters in range, and
      never takes health away. */
  lemma InputKeepsPlaced(s: State, key: Option<char>)
    requires Placed(s)
    ensures Placed(AfterKey(s, key))
    ensures AfterKey(s, key).player.health >= s.player.health
  {
    if key.Some? {
      var r := Perform(s, Decode(key.value));
      forall i | 0 <= i < |r.items| ensures OnMap(r.items[i]) {
        assert r.items[i] in s.items;
      }
      forall j | 0 <= j < |r.zombies| ensures OnMap(r.zombies[j]) {
        assert OnMap(s.zombies[j]);
      }
    }
  }

  /** updateGame, entered with the player alive and everything placed, leaves
      a sound game. */
  lemma UpdateIsSound(s: State, rolls: Rolls)
    requires Placed(s) && s.player.health > 0 && UpdateReady(s, rolls)
    ensures Sound(Update(s, rolls))
  {
    var n := |s.zombies|;
    var c := Chase(s, rolls.chase);
    if Lethal(s.player, s.zombies, rolls.chase, 0) == n {
      AliveWithoutFatalBite(s.player, s.zombies, rolls.chase, n);
      var t := Cleanup(c);
      SurvivorsAreAlive(c.zombies);
      forall i | 0 <= i < |t.zombies| ensures OnMap(t.zombies[i]) {
        assert t.zombies[i] in c.zombies;
      }
      assert Placed(t) && t.player.health > 0;
      if t.zombies == [] {
        WaveIsSound(t, rolls.drops, rolls.edges);
      }
    }
  }

  /** A new wave, started on a placed map with the player alive and no
      zombie left, leaves a sound game. */
  lemma WaveIsSound(t: State, drops: seq<ItemRoll>, edges: seq<EdgeRoll>)
    requires Placed(t) && t.player.health > 0 && t.zombies == []
    requires Placeable(t.player.x, t.player.y, [], t.items, drops)
    ensures Sound(NextWave(t, drops, edges))
  {
    PlaceItemsSpread(t.player.x, t.player.y, [], t.items, drops);
    var r := NextWave(t, drops, edges);
    forall i | 0 <= i < |r.items| ensures OnMap(r.items[i]) {
      if i < |t.items| {
        assert r.items[..|t.items|][i] == r.items[i];
      }
    }
  }

  /** One iteration of the main loop, run on a sound game that is not over,
      leaves a sound game. */
  lemma TickKeepsSound(s: State, key: Option<char>, rolls: Rolls)
    requires Sound(s) && !s.gameOver && TickReady(s, key, rolls)
    ensures Sound(Tick(s, key, rolls))
  {
    InputKeepsPlaced(s, key);
    UpdateIsSound(AfterKey(s, key), rolls);
  }

  class GameState {
    var player: Entity
    var zombies: seq<Entity>
    var items: seq<Entity>
    var ammo: int
    var score: int
    var wave: int
    var gameOver: bool
    var message: Message

    /** The whole object as a value. */
    function Snapshot(): State
      reads this
    {
      State(player, zombies, items, ammo, score, wave, gameOver, message)
    }

    /** initGame. */
    constructor Init(edges: seq<EdgeRoll>, drops: seq<ItemRoll>)
      requires InitReady(edges, drops)
      ensures Snapshot() == Initial(edges, drops)
    {
      player := Entity(Width / 2, Height / 2, '@', 100);
      zombies, items := [], [];
      ammo, score, wave := 15, 0, 1;
      gameOver, message := false, Welcome;
      new;
      SpawnZombies(5, edges);
      SpawnItems(3, drops);
    }

    /** spawnZombies: append one zombie per roll. */
    method SpawnZombies(count: nat, rolls: seq<EdgeRoll>)
      requires |rolls| == count
      modifies this
      ensures Snapshot() == old(Snapshot()).(zombies := Reinforce(old(zombies), old(wave), rolls))
    {
      for i := 0 to count
        invariant Snapshot() == old(Snapshot()).(zombies := zombies)
        invariant zombies == Reinforce(old(zombies), wave, rolls[..i])
      {
        var roll := rolls[i];
        var health := 1 + Quot(wave, 3);
        var z: Entity;
        match roll.side % 4 {
          case 0 => z := Entity(roll.offset % Width, 0, 'Z', health);
          case 1 => z := Entity(Width - 1, roll.offset % Height, 'Z', health);
          case 2 => z := Entity(roll.offset % Width, Height - 1, 'Z', health);
          case 3 => z := Entity(0, roll.offset % Height, 'Z', health);
        }
        assert z == NewZombie(wave, roll);
        assert rolls[..i + 1] == rolls[..i] + [roll];
        zombies := zombies + [z];
      }
      assert rolls[..count] == rolls;
    }

    /** spawnItems: for each roll, draw candidate cells until one is free,
      then append the item there. */
    method SpawnItems(count: nat, rolls: seq<ItemRoll>)
      requires |rolls| == count
      requires Placeable(player.x, player.y, zombies, items, rolls)
      modifies this
      ensures Snapshot() == old(Snapshot()).(items :=
        PlaceItems(old(player.x), old(player.y), old(zombies), old(items), rolls))
    {
      ghost var goal := PlaceItems(player.x, player.y, zombies, items, rolls);
      for i := 0 to count
        invariant Snapshot() == old(Snapshot()).(items := items)
        invariant Placeable(player.x, player.y, zombies, items, rolls[i..])
        invariant PlaceItems(player.x, player.y, zombies, items, rolls[i..]) == goal
      {
        var roll := rolls[i];
        var symbol := if roll.kind % 2 == 0 then 'A' else '+';
        var x, y := FindFreeCell(player.x, player.y, zombies, items, roll.tries);
        assert rolls[i..][0] == roll && rolls[i..][1..] == rolls[i + 1..];
        items := items + [Entity(x, y, symbol, 1)];
      }
    }

    /** shoot: spend a bullet and send it up to Range cells from the player. */
    method Shoot(dx: int, dy: int)
      modifies this
      ensures Snapshot() == Shot(old(Snapshot()), dx, dy)
    {
      if ammo <= 0 {
        message := OutOfAmmo;
        return;
      }
      ammo := ammo - 1;
      var h := Fly(zombies, player, dx, dy);
      if h.Some? {
        var j := h.value.index;
        var z := zombies[j].(health := zombies[j].health - 1);
        zombies := zombies[j := z];
        message := if z.health <= 0 then ZombieKilled else ZombieHit(z.health);
      }
    }

    /** The pickup scan of handleInput, on the player's cell. */
    method Collect()
      modifies this
      ensures Snapshot() == Pickup(old(Snapshot()))
    {
      var i := Locate(items, player.x, player.y);
      if i < |items| {
        if items[i].symbol == 'A' {
          ammo := ammo + 5;
          message := PickedUpAmmo;
        } else {
          player := player.(health := player.health + 20);
          message := PickedUpHealth;
        }
        items := items[..i] + items[i + 1..];
      }
    }

    /** handleInput, given the key that was read (None: no key pending). */
    method HandleInput(key: Option<char>)
      modifies this
      ensures Snapshot() == AfterKey(old(Snapshot()), key)
    {
      if key.Some? {
        ghost var s0 := Snapshot();
        var c := Decode(key.value);
        var newX, newY := player.x, player.y;
        match c {
          case Walk(dx, dy) =>
            newX, newY := newX + dx, newY + dy;
          case Quit =>
            gameOver := true;
          case Fire(dx, dy) =>
            Shoot(dx, dy);
          case Ignore =>
        }
        assert Snapshot() == Act(s0, c);
        assert (newX, newY) == Destination(s0.player, c);
        if IsWalkable(newX, newY) {
          player := player.(x := newX, y := newY);
          Collect();
        }
      }
    }

    /** One pass of updateGame's movement loop, for zombie i: the zombie
      moves on an even first coin, along x on an even second coin when it is
      not level with the player in x, otherwise along y; a bite costs
      BiteDamage health.  Reports whether that bite left the player without
      health, which ends the game. */
    method TakeTurn(i: nat, roll: ZombieRoll) returns (fatal: bool)
      requires i < |zombies|
      modifies this
      ensures Snapshot() == Turn(old(Snapshot()), i, roll)
      ensures fatal <==> Bites(old(player), old(zombies)[i], roll) && player.health <= 0
    {
      fatal := false;
      if roll.move % 2 == 0 {
        var z := zombies[i];
        var dx := if z.x < player.x then 1 else if z.x > player.x then -1 else 0;
        var dy := if z.y < player.y then 1 else if z.y > player.y then -1 else 0;
        if roll.axis % 2 == 0 && dx != 0 {
          z := z.(x := z.x + dx);
        } else if dy != 0 {
          z := z.(y := z.y + dy);
        }
        zombies := zombies[i := z];
        if z.x == player.x && z.y == player.y {
          player := player.(health := player.health - BiteDamage);
          message := Bitten;
          if player.health <= 0 {
            gameOver := true;
            fatal := true;
          }
        }
      }
    }

    /** The movement pass of updateGame: each zombie in turn takes its turn;
      a fatal bite ends the pass on the spot.  Reports whether that
      happened. */
    method MoveZombies(rolls: seq<ZombieRoll>) returns (fatal: bool)
      requires |rolls| == |zombies|
      modifies this
      ensures Snapshot() == Chase(old(Snapshot()), rolls)
      ensures fatal <==> Lethal(old(player), old(zombies), rolls, 0) < |old(zombies)|
    {
      ghost var s0 := Snapshot();
      ghost var stop := Lethal(s0.player, s0.zombies, rolls, 0);
      for i := 0 to |zombies|
        invariant i <= stop
        invariant Snapshot() == Partial(s0, rolls, i)
      {
        TurnInPass(s0, rolls, i);
        fatal := TakeTurn(i, rolls[i]);
        if fatal {
          return;
        }
      }
      return false;
    }

    /** The remove_if pass of updateGame: the dead leave the list, each
      scoring KillReward. */
    method RemoveDead()
      modifies this
      ensures Snapshot() == Cleanup(old(Snapshot()))
    {
      ghost var s0 := Snapshot();
      var alive: seq<Entity> := [];
      for i := 0 to |zombies|
        invariant Snapshot() == s0.(score := score)
        invariant alive == Survivors(zombies[..i])
        invariant score == s0.score + KillReward * (i - |alive|)
      {
        SurvivorsSnoc(zombies, i);
        if zombies[i].health <= 0 {
          score := score + KillReward;
        } else {
          alive := alive + [zombies[i]];
        }
      }
      assert zombies[..|zombies|] == zombies;
      zombies := alive;
    }

    /** The wave check of updateGame, once the map is empty. */
    method StartNextWave(drops: seq<ItemRoll>, edges: seq<EdgeRoll>)
      requires |drops| == WaveItems && |edges| == WaveBase + wave + 1
      requires Placeable(player.x, player.y, zombies, items, drops)
      modifies this
      ensures Snapshot() == NextWave(old(Snapshot()), drops, edges)
    {
      wave := wave + 1;
      ammo := ammo + WaveAmmo;
      message := WaveCleared(wave - 1);
      SpawnItems(WaveItems, drops);
      SpawnZombies(WaveBase + wave, edges);
    }

    /** updateGame. */
    method UpdateGame(rolls: Rolls)
      requires UpdateReady(Snapshot(), rolls)
      modifies this
      ensures Snapshot() == Update(old(Snapshot()), rolls)
    {
      var fatal := MoveZombies(rolls.chase);
      if fatal {
        return;
      }
      RemoveDead();
      if zombies == [] {
        StartNextWave(rolls.drops, rolls.edges);
      }
    }

    /** One iteration of the main loop, entered while the game is not over. */
    method RunTick(key: Option<char>, rolls: Rolls)
      requires !gameOver
      requires TickReady(Snapshot(), key, rolls)
      modifies this
      ensures Snapshot() == Tick(old(Snapshot()), key, rolls)
    {
      HandleInput(key);
      UpdateGame(rolls);
    }
  }

  /** Zombie i's turn, taken after the first i turns of a pass that has not
      stopped yet, either is the fatal one and leaves the game as the whole
      pass does, or is not and leaves the game after i + 1 turns. */
  lemma TurnInPass(s: State, rolls: seq<ZombieRoll>, i: nat)
    requires i < |s.zombies| == |rolls| && i <= Lethal(s.player, s.zombies, rolls, 0)
    ensures var before := Partial(s, rolls, i);
      var after := Turn(before, i, rolls[i]);
      if Bites(before.player, before.zombies[i], rolls[i]) && after.player.health <= 0 then
        Lethal(s.player, s.zombies, rolls, 0) == i && after == Chase(s, rolls)
      else
        i < Lethal(s.player, s.zombies, rolls, 0) && after == Partial(s, rolls, i + 1)
  {
    TurnAdvances(s, rolls, i);
    if Fatal(s.player, s.zombies, rolls, i) {
      FatalStops(s.player, s.zombies, rolls, i);
    } else {
      NotFatalPasses(s.player, s.zombies, rolls, i);
    }
  }

  /** A bite that is fatal at zombie i, when no earlier one was, is where
      the movement pass stops. */
  lemma FatalStops(p: Entity, zombies: seq<Entity>, rolls: seq<ZombieRoll>, i: nat)
    requires i < |zombies| == |rolls| && i <= Lethal(p, zombies, rolls, 0)
    requires Fatal(p, zombies, rolls, i)
    ensures Lethal(p, zombies, rolls, 0) == i
  {
  }

  /** A turn that is not fatal lets the movement pass go on. */
  lemma NotFatalPasses(p: Entity, zombies: seq<Entity>, rolls: seq<ZombieRoll>, i: nat)
    requires i < |zombies| == |rolls| && i <= Lethal(p, zombies, rolls, 0)
    requires !Fatal(p, zombies, rolls, i)
    ensures i < Lethal(p, zombies, rolls, 0)
  {
  }
}
