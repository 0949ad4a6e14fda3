/** updateGame: the zombies chase the player and bite, the dead are cleared
    away and scored, and an empty map starts the next wave. */
module Horde {
  import opened World
  import opened Oracle
  import opened Spawner

  /** Health a bite costs the player. */
  const BiteDamage: int := 10
  /** Score for each dead zombie cleared away. */
  const KillReward: int := 10
  /** Ammo granted when a wave is cleared. */
  const WaveAmmo: int := 10
  /** Items dropped between waves. */
  const WaveItems: nat := 3
  /** A wave has WaveBase + wave zombies. */
  const WaveBase: int := 5

  function Dist(a: int, b: int): nat {
    if a <= b then b - a else a - b
  }

  /** A zombie that has decided to move takes one step towards player p: along
      x when the coin says so and it is not yet level with p in x, otherwise
      along y when it is not yet level in y. */
  function Step(p: Entity, z: Entity, axis: nat): (r: Entity)
    ensures r.symbol == z.symbol && r.health == z.health
    // one axis, one cell, towards the player
    ensures (r.x == z.x && r.y == z.y) ||
            (r.y == z.y && Dist(r.x, p.x) == Dist(z.x, p.x) - 1) ||
            (r.x == z.x && Dist(r.y, p.y) == Dist(z.y, p.y) - 1)
    // at most one cell in all
    ensures Dist(r.x, z.x) + Dist(r.y, z.y) <= 1
    // an odd coin, or a zombie level with p in x, never moves along x
    ensures axis % 2 != 0 || z.x == p.x ==> r.x == z.x
    // it stays put exactly when the axis it may take is already level
    ensures (r.x == z.x && r.y == z.y) <==> z.y == p.y && (axis % 2 != 0 || z.x == p.x)
    ensures axis % 2 == 0 && z.x != p.x ==> r.y == z.y && r.x != z.x
    ensures OnMap(z) && OnMap(p) ==> OnMap(r)
  {
    var dx := if z.x < p.x then 1 else if z.x > p.x then -1 else 0;
    var dy := if z.y < p.y then 1 else if z.y > p.y then -1 else 0;
    if axis % 2 == 0 && dx != 0 then z.(x := z.x + dx)
    else if dy != 0 then z.(y := z.y + dy)
    else z
  }

  /** A zombie after its turn: it moves only when the first coin is even. */
  function Moved(p: Entity, z: Entity, roll: ZombieRoll): (r: Entity)
    ensures roll.move % 2 != 0 ==> r == z
    // an even coin makes it take its step, as Step describes it
    ensures roll.move % 2 == 0 ==> r == Step(p, z, roll.axis)
    ensures r.symbol == z.symbol && r.health == z.health
    ensures r == z || Dist(r.x, p.x) + Dist(r.y, p.y) == Dist(z.x, p.x) + Dist(z.y, p.y) - 1
    ensures Dist(r.x, z.x) + Dist(r.y, z.y) <= 1
    ensures OnMap(z) && OnMap(p) ==> OnMap(r)
  {
    if roll.move % 2 == 0 then Step(p, z, roll.axis) else z
  }

  /** The collision check: the zombie's move coin came up even and it ends its
      turn on the player's cell.  A zombie whose move coin is odd does not
      bite, even on the player's cell; one already on the player's cell with
      an even coin stays there and bites. */
  function Bites(p: Entity, z: Entity, roll: ZombieRoll): (b: bool)
    ensures b ==> At(Moved(p, z, roll), p.x, p.y)
    ensures roll.move % 2 != 0 ==> !b
    ensures roll.move % 2 == 0 && At(z, p.x, p.y) ==> b
    // a zombie that moves onto (or stays on) the player's cell bites
    ensures roll.move % 2 == 0 && At(Moved(p, z, roll), p.x, p.y) ==> b
  {
    roll.move % 2 == 0 && At(Step(p, z, roll.axis), p.x, p.y)
  }

  /** Number of bites among the turns of the first n zombies. */
  function Contacts(p: Entity, zombies: seq<Entity>, rolls: seq<ZombieRoll>, n: nat): (c: nat)
    requires n <= |zombies| == |rolls|
    ensures c <= n
  {
    if n == 0 then 0
    else Contacts(p, zombies, rolls, n - 1) + (if Bites(p, zombies[n - 1], rolls[n - 1]) then 1 else 0)
  }

  /** No bite is counted exactly when none of the first n zombies bit. */
  lemma {:induction false} NoBiteNoContact(p: Entity, zombies: seq<Entity>, rolls: seq<ZombieRoll>, n: nat)
    requires n <= |zombies| == |rolls|
    ensures Contacts(p, zombies, rolls, n) == 0 <==> forall j :: 0 <= j < n ==> !Bites(p, zombies[j], rolls[j])
  {
    if n > 0 {
      NoBiteNoContact(p, zombies, rolls, n - 1);
    }
  }

  /** Zombie k's bite is the one that brings the player to 0 health or below. */
  predicate Fatal(p: Entity, zombies: seq<Entity>, rolls: seq<ZombieRoll>, k: nat)
    requires k < |zombies| == |rolls|
  {
    Bites(p, zombies[k], rolls[k]) && p.health - BiteDamage * Contacts(p, zombies, rolls, k + 1) <= 0
  }

  /** The first zombie, from k on, whose bite is fatal (|zombies| if none is):
      where updateGame returns early. */
  function Lethal(p: Entity, zombies: seq<Entity>, rolls: seq<ZombieRoll>, k: nat): (n: nat)
    requires k <= |zombies| == |rolls|
    ensures k <= n <= |zombies|
    ensures n < |zombies| ==> Fatal(p, zombies, rolls, n)
    ensures forall j :: k <= j < n ==> !Fatal(p, zombies, rolls, j)
    decreases |zombies| - k
  {
    if k == |zombies| then k
    else if Fatal(p, zombies, rolls, k) then k
    else Lethal(p, zombies, rolls, k + 1)
  }

  /** As long as no bite was fatal, the player is still alive. */
  lemma {:induction false} AliveWithoutFatalBite(p: Entity, zombies: seq<Entity>, rolls: seq<ZombieRoll>, n: nat)
    requires n <= |zombies| == |rolls|
    requires p.health > 0
    requires forall j :: 0 <= j < n ==> !Fatal(p, zombies, rolls, j)
    ensures p.health - BiteDamage * Contacts(p, zombies, rolls, n) > 0
  {
    if n > 0 {
      AliveWithoutFatalBite(p, zombies, rolls, n - 1);
      assert !Fatal(p, zombies, rolls, n - 1);
    }
  }

  /** The zombie list once the first n zombies have taken their turn. */
  function Advance(p: Entity, zombies: seq<Entity>, rolls: seq<ZombieRoll>, n: nat): (r: seq<Entity>)
    requires n <= |zombies| == |rolls|
    ensures |r| == |zombies|
    ensures forall j :: 0 <= j < |zombies| ==>
      r[j] == if j < n then Moved(p, zombies[j], rolls[j]) else zombies[j]
  {
    seq(|zombies|, j requires 0 <= j < |zombies| =>
      if j < n then Moved(p, zombies[j], rolls[j]) else zombies[j])
  }

  /** One zombie's turn in the movement pass: zombie i may step towards the
      player; landing on the player's cell costs BiteDamage health, and the
      bite that takes the player to 0 or below ends the game. */
  function Turn(s: State, i: nat, roll: ZombieRoll): (r: State)
    requires i < |s.zombies|
    ensures r.player == s.player.(health := r.player.health)
    ensures r.items == s.items && r.ammo == s.ammo && r.score == s.score && r.wave == s.wave
    ensures r.zombies == s.zombies[i := Moved(s.player, s.zombies[i], roll)]
    ensures Bites(s.player, s.zombies[i], roll) ==>
      r.player.health == s.player.health - BiteDamage && r.message == Bitten &&
      r.gameOver == (s.gameOver || r.player.health <= 0)
    ensures !Bites(s.player, s.zombies[i], roll) ==>
      r.player == s.player && r.message == s.message && r.gameOver == s.gameOver
  {
    if roll.move % 2 != 0 then s
    else
      var z := Step(s.player, s.zombies[i], roll.axis);
      var moved := s.(zombies := s.zombies[i := z]);
      if z.x == s.player.x && z.y == s.player.y then
        var hurt := moved.(player := s.player.(health := s.player.health - BiteDamage), message := Bitten);
        if hurt.player.health <= 0 then hurt.(gameOver := true) else hurt
      else moved
  }

  /** The game once the first n zombies have taken their turn and none of
      those bites was fatal (the game-over flag is left as it was). */
  function Partial(s: State, rolls: seq<ZombieRoll>, n: nat): State
    requires n <= |s.zombies| == |rolls|
  {
    var bites := Contacts(s.player, s.zombies, rolls, n);
    s.(zombies := Advance(s.player, s.zombies, rolls, n),
       player := s.player.(health := s.player.health - BiteDamage * bites),
       message := if bites > 0 then Bitten else s.message)
  }

  /** The movement pass of updateGame: every zombie takes its turn in list
      order until a bite is fatal; that zombie is the last to act. */
  function Chase(s: State, rolls: seq<ZombieRoll>): (r: State)
    requires |rolls| == |s.zombies|
    ensures r.player == s.player.(health := r.player.health)
    ensures r.items == s.items && r.ammo == s.ammo && r.score == s.score && r.wave == s.wave
    ensures |r.zombies| == |s.zombies|
    // each zombie stays or takes the one step towards the player
    ensures forall j :: 0 <= j < |s.zombies| ==>
      r.zombies[j] == s.zombies[j] || r.zombies[j] == Step(s.player, s.zombies[j], rolls[j].axis)
    ensures OnMap(s.player) && AllOnMap(s.zombies) ==> AllOnMap(r.zombies)
    // each bite costs BiteDamage, and the pass stops at the fatal one
    ensures var stop := Lethal(s.player, s.zombies, rolls, 0);
      var acted := if stop < |s.zombies| then stop + 1 else |s.zombies|;
      r.player.health == s.player.health - BiteDamage * Contacts(s.player, s.zombies, rolls, acted) &&
      r.gameOver == (s.gameOver || stop < |s.zombies|) &&
      (stop < |s.zombies| ==> r.player.health <= 0) &&
      r.message == (if Contacts(s.player, s.zombies, rolls, acted) > 0 then Bitten else s.message) &&
      (forall j :: 0 <= j < acted ==> r.zombies[j] == Moved(s.player, s.zombies[j], rolls[j])) &&
      (forall j :: acted <= j < |s.zombies| ==> r.zombies[j] == s.zombies[j])
  {
    var n := |s.zombies|;
    var stop := Lethal(s.player, s.zombies, rolls, 0);
    var acted := if stop < n then stop + 1 else n;
    Partial(s, rolls, acted).(gameOver := s.gameOver || stop < n)
  }

  /** The turn of zombie i, taken in the game the first i turns left behind,
      leads to the game after i + 1 turns; it ends the game exactly when that
      bite is the fatal one. */
  lemma TurnAdvances(s: State, rolls: seq<ZombieRoll>, i: nat)
    requires i < |s.zombies| == |rolls|
    ensures var before := Partial(s, rolls, i);
      var after := Turn(before, i, rolls[i]);
      after.(gameOver := s.gameOver) == Partial(s, rolls, i + 1) &&
      (Bites(before.player, before.zombies[i], rolls[i]) && after.player.health <= 0 <==>
       Fatal(s.player, s.zombies, rolls, i)) &&
      after.gameOver == (s.gameOver || Fatal(s.player, s.zombies, rolls, i))
  {
  }

  /** The zombies remove_if keeps: those with health left, in their order. */
  function Survivors(zombies: seq<Entity>): (r: seq<Entity>)
    ensures |r| <= |zombies|
    ensures forall i :: 0 <= i < |r| ==> r[i].health > 0
  {
    if zombies == [] then []
    else
      var last := zombies[|zombies| - 1];
      Survivors(zombies[..|zombies| - 1]) + (if last.health > 0 then [last] else [])
  }

  /** The survivors are exactly the zombies with health left. */
  lemma {:induction false} SurvivorsAreAlive(zombies: seq<Entity>)
    ensures forall z :: z in Survivors(zombies) <==> z in zombies && z.health > 0
  {
    if zombies != [] {
      var init := zombies[..|zombies| - 1];
      SurvivorsAreAlive(init);
      assert zombies == init + [zombies[|zombies| - 1]];
    }
  }

  /** remove_if visits the list front to back: one more zombie looked at
      either joins the survivors at the end or is dropped. */
  lemma SurvivorsSnoc(zombies: seq<Entity>, i: nat)
    requires i < |zombies|
    ensures Survivors(zombies[..i + 1]) ==
      Survivors(zombies[..i]) + if zombies[i].health > 0 then [zombies[i]] else []
  {
    assert zombies[..i + 1][..i] == zombies[..i];
  }

  /** The cleanup is stable: survivors of a concatenation are the survivors
      of each part, in the same order. */
  lemma {:induction false} SurvivorsSplit(a: seq<Entity>, b: seq<Entity>)
    ensures Survivors(a + b) == Survivors(a) + Survivors(b)
    decreases |b|
  {
    if b == [] {
      assert a + b == a;
    } else {
      var b' := b[..|b| - 1];
      assert (a + b)[..|a + b| - 1] == a + b';
      SurvivorsSplit(a, b');
    }
  }

  /** The cleanup after the movement pass: dead zombies leave the list, each
      earning KillReward. */
  function Cleanup(s: State): (r: State)
    ensures r.zombies == Survivors(s.zombies)
    ensures r.score == s.score + KillReward * (|s.zombies| - |r.zombies|)
    ensures r.player == s.player && r.items == s.items && r.ammo == s.ammo && r.wave == s.wave
    ensures r.gameOver == s.gameOver && r.message == s.message
  {
    var alive := Survivors(s.zombies);
    s.(zombies := alive, score := s.score + KillReward * (|s.zombies| - |alive|))
  }

  /** The wave check once the map is empty: next wave number, ammo reward,
      items dropped, then the new wave's zombies (spawnItems runs first, so
      items only avoid the zombies left at that moment). */
  function NextWave(s: State, drops: seq<ItemRoll>, edges: seq<EdgeRoll>): (r: State)
    requires Placeable(s.player.x, s.player.y, s.zombies, s.items, drops)
    ensures r.wave == s.wave + 1 && r.ammo == s.ammo + WaveAmmo && r.message == WaveCleared(s.wave)
    ensures r.player == s.player && r.score == s.score && r.gameOver == s.gameOver
    ensures r.items == PlaceItems(s.player.x, s.player.y, s.zombies, s.items, drops)
    ensures |r.zombies| == |s.zombies| + |edges| && r.zombies[..|s.zombies|] == s.zombies
    ensures forall j :: |s.zombies| <= j < |r.zombies| ==>
      r.zombies[j].symbol == 'Z' && r.zombies[j].health == ZombieHealth(r.wave) && OnMap(r.zombies[j])
  {
    var w := s.wave + 1;
    s.(wave := w,
       ammo := s.ammo + WaveAmmo,
       message := WaveCleared(s.wave),
       items := PlaceItems(s.player.x, s.player.y, s.zombies, s.items, drops),
       zombies := Reinforce(s.zombies, w, edges))
  }

  /** The draws one updateGame needs: one roll per zombie, and the item and
      zombie rolls of the next wave. */
  predicate UpdateReady(s: State, rolls: Rolls) {
    |rolls.chase| == |s.zombies| &&
    |rolls.drops| == WaveItems && Placeable(s.player.x, s.player.y, [], s.items, rolls.drops) &&
    |rolls.edges| == WaveBase + s.wave + 1
  }

  /** The game after updateGame. */
  function Update(s: State, rolls: Rolls): (r: State)
    requires UpdateReady(s, rolls)
    // a fatal bite ends the game on the spot: no cleanup, no score, no new wave
    ensures Lethal(s.player, s.zombies, rolls.chase, 0) < |s.zombies| ==>
      r.gameOver && r.player.health <= 0 &&
      r.score == s.score && r.wave == s.wave && r.items == s.items && r.ammo == s.ammo
    // otherwise only living zombies are left, and each dead one scored
    ensures Lethal(s.player, s.zombies, rolls.chase, 0) == |s.zombies| ==>
      r.gameOver == s.gameOver &&
      (s.wave >= 0 ==> forall i :: 0 <= i < |r.zombies| ==> r.zombies[i].health > 0)
    // after a fatal bite the zombies stay as the movement pass left them, uncleaned
    ensures Lethal(s.player, s.zombies, rolls.chase, 0) < |s.zombies| ==> r == Chase(s, rolls.chase)
    // otherwise the dead are cleared, and an empty map starts the next wave
    ensures Lethal(s.player, s.zombies, rolls.chase, 0) == |s.zombies| ==>
      var t := Cleanup(Chase(s, rolls.chase));
      r == if t.zombies == [] then NextWave(t, rolls.drops, rolls.edges) else t
    ensures r.score >= s.score
    // the wave advances by one exactly when no bite was fatal and no zombie survived
    ensures r.wave == s.wave + 1 <==>
      Lethal(s.player, s.zombies, rolls.chase, 0) == |s.zombies| &&
      Survivors(Chase(s, rolls.chase).zombies) == []
    ensures r.wave == s.wave || (r.wave == s.wave + 1 && |r.zombies| == WaveBase + r.wave)
    ensures r.player.x == s.player.x && r.player.y == s.player.y
    ensures r.player.health <= s.player.health
  {
    var c := Chase(s, rolls.chase);
    if Lethal(s.player, s.zombies, rolls.chase, 0) < |s.zombies| then c
    else
      var t := Cleanup(c);
      if t.zombies == [] then NextWave(t, rolls.drops, rolls.edges) else t
  }
}
