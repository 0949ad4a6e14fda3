# Zombie Survival, modelled in Dafny

A model of the simulation core of a small console game, written in C++ in
`main.cpp`. The player (`@`) walks a 40 × 20 grid with WASD and shoots
along the four directions with the arrow keys. Zombies (`Z`) walk
towards the player and bite. Ammo boxes (`A`) and medkits (`+`) lie
around to be picked up. Clearing a wave brings a bigger one.

The game is one mutable `GameState` record, changed in place by a handful of
procedures. The model keeps that form. `Game.GameState` is a class with
the record's fields, and each procedure of the source is a method on it:
`initGame`, `handleInput`, `shoot`, `updateGame`, `spawnZombies` and
`spawnItems`, plus one iteration of the main loop. Every method is proved
against a function on the `World.State` value that the object holds
(`Snapshot()`). The contracts of those functions, and the lemmas beside
them, state what the game promises.

Modules:

- `World`: the grid, `Entity`, `State`, the message tags, `isWalkable`,
  and the "first entity on this cell" scan every loop of the game
  performs.
- `Oracle`: the values `rand()` would have produced, as plain data.
- `Spawner`: `spawnZombies` and `spawnItems`.
- `Combat`: `shoot`.
- `Controls`: `handleInput`, after the key has been read.
- `Horde`: `updateGame`, covering the chase, the bites, the cleanup and the
  next wave.
- `Game`: the `GameState` class, `initGame`, one tick of the main loop, and
  the invariant every tick keeps.

Randomness is an input. Each call that draws from `rand()` takes the raw
draws as parameters (`Oracle`). The `% 2`, `% 4`, `% Width` and `% Height`
reductions are applied to them exactly where the source applies them. The
rejection-sampling loop of `spawnItems` takes its candidate cells from the
same source. Its precondition `Placeable` says that the candidates supplied
contain a free cell for every item.

Some behaviour that looks odd is modelled as the code does it:

- The pickup scan runs after every key, not only after a move.
  `isWalkable(newX, newY)` is checked after the switch, whatever the key
  was.
- After `q`, `updateGame` still runs once in the same loop iteration.
- A zombie that a shot has just killed stays on the map until the cleanup
  that follows, so it still moves and can still bite.
- A zombie whose move coin is odd does not bite, even when it shares the
  player's cell. One already on the player's cell with an even coin stays
  put and does bite.
- A fatal bite returns from `updateGame` at once. Later zombies do not
  move, no cleanup is done, no score is counted and no wave is checked.
- The "zombie killed" message promises +10 points, but `shoot` adds no
  score. The points are added in the cleanup of `updateGame`.

## Model

| member | source | states |
|---|---|---|
| World.IsWalkable | main.cpp:327-334 | a cell is walkable exactly when 0 ≤ x < 40 and 0 ≤ y < 20 |
| World.FirstAt | main.cpp:91-93 | the index of the first entity standing on a cell, or the length when none does; no earlier entity stands there |
| World.Locate | main.cpp:311-312 | the scan loop over a vector finds exactly the index `FirstAt` names |
| Spawner.Quot | main.cpp:215 | C++ `/` rounds toward zero: for a ≥ 0, q·b ≤ a < q·b + b; for a < 0, q·b − b < a ≤ q·b ≤ 0 |
| Spawner.NewZombie | main.cpp:212-236 | a new zombie is a 'Z' with health 1 + wave/3, on the map, on the top, right, bottom or left edge |
| Spawner.Reinforce | main.cpp:211-240 | spawnZombies appends exactly one zombie per draw, in draw order, and leaves the existing zombies untouched; each new one is a 'Z' with the wave's health, on the map and on an edge |
| Spawner.NewItem | main.cpp:244-257 | a new item is an ammo box 'A' or a medkit '+', on the map |
| Spawner.FirstFree | main.cpp:255-283 | the first candidate cell that is not the player's and holds no zombie and no item; every earlier candidate is taken |
| Spawner.FindFreeCell | main.cpp:255-283 | the rejection-sampling loop returns that first free candidate cell |
| Spawner.PlaceItems | main.cpp:242-287 | the item list after spawnItems has exactly one more item per draw, and the existing items stay as they were, in front |
| Spawner.PlaceItemsSpread | main.cpp:242-287 | spawnItems appends exactly one item per draw and keeps the existing items; each new item is 'A' or '+', on the map, off the player's cell, off every zombie, and off every earlier item, including those placed earlier in the same call |
| Combat.TargetFrom | main.cpp:301-324 | a bullet that has crossed k cells can only hit a zombie of the list, more than k and at most 10 cells from the player |
| Combat.Fly | main.cpp:297-324 | the bullet loop of shoot stops where `Target` says: at the edge of the map, at the first zombie it meets, or after 10 cells |
| Combat.TargetIsFirstOnRay | main.cpp:301-324 | from any point of its flight, the bullet hits the first zombie in list order on the first occupied cell ahead, provided every cell before it is on the map and within 10 steps; it hits nothing exactly when every cell it crosses before leaving the map is empty |
| Combat.ShotHitsFirstOnRay | main.cpp:297-324 | the same for a whole shot, from the player's cell |
| Combat.Shot | main.cpp:289-325 | with no ammo only the message changes, to out-of-ammo; otherwise exactly one bullet is spent, hit or miss, and a miss changes nothing else, not even the message; the player, items, score, wave and game-over flag never change, nor does the number of zombies |
| Combat.ShotWoundsAtMostOne | main.cpp:311-322 | a shot changes at most one zombie, by exactly 1 health, and moves none; with ammo it is the zombie `Target` names, and the message is "killed" when that leaves it at 0 or below, else "hit" with the health left |
| Controls.Decode | main.cpp:71-83 | w/W, s/S, a/A and d/D are one-cell moves; q/Q and only they quit; the arrow codes 72, 80, 75 and 77 and only they fire, one cell per step along an axis; every other key does nothing |
| Controls.Pickup | main.cpp:91-102 | with no item on the player's cell nothing changes; otherwise the first such item is removed and the others keep their order; an 'A' gives +5 ammo and anything else +20 health, with the matching message; zombies, score, wave and position never change |
| Controls.Act | main.cpp:71-83 | a fire key is exactly `Shot` in its direction; q/Q and only they raise the game-over flag; any other key leaves the game alone; nobody moves, nothing is picked up, and ammo stays non-negative |
| Controls.Perform | main.cpp:64-106 | a move key onto the map takes the player to that cell and then runs the pickup there; a blocked move changes nothing; every other key acts (`Act`: shoot, quit or nothing) and then runs the pickup on the player's own cell; so the player moves at most one orthogonal step and only onto the map, only q/Q sets game over, no zombie moves, no score is made, at most one item is picked up, ammo stays non-negative and health does not fall |
| Horde.Step | main.cpp:113-121 | a moving zombie moves at most one cell in all, and when it moves it comes one cell closer to the player along a single axis; an odd axis coin, or a zombie level with the player in x, never moves along x; it stays exactly when the axis it may take is already level with the player; a horizontal coin with x not level moves it along x; it never leaves the map if it and the player start on it |
| Horde.Moved | main.cpp:111-121 | an odd move coin leaves the zombie where it is; an even one makes it take exactly its `Step`, so it moves at most one cell, and stays or comes exactly one cell closer to the player; it keeps its symbol and health, and stays on the map when it and the player start on it |
| Horde.Bites | main.cpp:124 | with an even move coin, the zombie bites exactly when it ends its turn on the player's cell (one already there stays and bites); with an odd coin it never bites |
| Horde.Contacts | main.cpp:124-127 | counts the bites among the first n turns, never more than n; what the count means is stated by `NoBiteNoContact`, `Lethal` and `AliveWithoutFatalBite` |
| Horde.NoBiteNoContact | main.cpp:124-127 | the count of bites among the first n turns is 0 exactly when none of those zombies bit |
| Horde.Lethal | main.cpp:124-131 | the first zombie whose bite brings the player to 0 health or below, or the length when there is none; no earlier bite is fatal |
| Horde.AliveWithoutFatalBite | main.cpp:124-131 | as long as no bite was fatal, the player still has health left |
| Horde.Turn | main.cpp:110-133 | one zombie's turn changes only that zombie, and only by its step; a bite costs exactly 10 health, sets the bite message, and ends the game when health reaches 0 or below; without a bite player, message and flag are unchanged |
| Horde.Chase | main.cpp:110-133 | the movement pass changes only the player's health, the message, the flag and the zombies; every zombie up to and including the fatal one (all of them when none is fatal) ends as `Moved` makes it, so each with an even coin takes its step; every zombie stays or takes its one step and stays on the map; the player loses 10 health per bite up to the fatal one, and the message becomes the bitten message when at least one of those bites happened and is otherwise unchanged; the game is over exactly when a bite was fatal, and no zombie after it has moved |
| Horde.TurnAdvances | main.cpp:110-133 | taking zombie i's turn after the first i turns gives the game after i + 1 turns, and it ends the game exactly when that bite is the fatal one |
| Horde.Survivors | main.cpp:137-147 | what remove_if keeps is no longer than the list, and every zombie kept has health left |
| Horde.SurvivorsAreAlive | main.cpp:137-147 | a zombie is kept exactly when it is in the list and has health left |
| Horde.SurvivorsSnoc | main.cpp:137-147 | remove_if visits the zombies front to back: each one either joins the end of the survivors or is dropped |
| Horde.SurvivorsSplit | main.cpp:137-147 | the cleanup is stable: the survivors of two lists joined are the survivors of each, in order |
| Horde.Cleanup | main.cpp:137-147 | the cleanup keeps exactly the survivors and adds 10 points per zombie removed; nothing else changes |
| Horde.NextWave | main.cpp:150-160 | clearing a wave adds one to the wave and 10 ammo, sets the wave-cleared message with the old wave, drops the items spawnItems places, and appends one 'Z' per draw with the new wave's health, on the map; the existing zombies and the player stay as they are |
| Horde.Update | main.cpp:108-161 | a fatal bite returns at once: the game is the movement pass's, uncleaned, over, with the player at 0 health or below and score, wave, items and ammo alone; otherwise the dead are cleared and, exactly when none is left, the next wave starts; the flag is then untouched and, when the wave count is not negative, only zombies with health are left; the wave advances by one exactly when no bite was fatal and no zombie survived, and then 5 + wave zombies are on the map; the score never falls; the player never moves and never gains health |
| Game.Initial | main.cpp:46-62 | initGame's game has five zombies of health 1 on the edges and three items, none on the player's cell or on a zombie |
| Game.Tick | main.cpp:345-350 | one loop iteration never lowers the score, advances the wave by at most one, and ends the game only on q/Q or a fatal bite |
| Game.InitialIsSound | main.cpp:46-62 | initGame sets up a sound game: everything on the map, counters in range, the player and every zombie alive |
| Game.InputKeepsPlaced | main.cpp:64-106 | handleInput keeps everyone on the map, ammo and score non-negative and the wave at least 1, and never costs health |
| Game.UpdateIsSound | main.cpp:108-161 | updateGame entered with the player alive leaves a sound game |
| Game.WaveIsSound | main.cpp:150-160 | a new wave started on a placed, empty map with the player alive leaves a sound game: the dropped items and the new zombies are on the map, and every new zombie has health |
| Game.TickKeepsSound | main.cpp:345-350 | one iteration of the main loop, run while the game is on, takes a sound game to a sound game |
| Game.TurnInPass | main.cpp:110-133 | zombie i's turn, with no fatal bite before it, is either the fatal one, which leaves the game exactly as the whole movement pass does, or it is not, and the pass goes on to the game after i + 1 turns |
| Game.FatalStops | main.cpp:128-131 | a fatal bite, with no earlier one, is where the movement pass stops |
| Game.NotFatalPasses | main.cpp:124-131 | a turn without a fatal bite lets the movement pass go on |
| Game.GameState.Init | main.cpp:46-62 | initGame builds the game `Initial` describes: the player at the centre with 100 health, 15 ammo, score 0, wave 1, five zombies, then three items |
| Game.GameState.SpawnZombies | main.cpp:211-240 | the zombie list becomes `Reinforce` of the old one; nothing else changes |
| Game.GameState.SpawnItems | main.cpp:242-287 | the item list becomes `PlaceItems` of the old one; nothing else changes |
| Game.GameState.Shoot | main.cpp:289-325 | the object becomes `Shot` of what it was |
| Game.GameState.Collect | main.cpp:91-102 | the object becomes `Pickup` of what it was |
| Game.GameState.HandleInput | main.cpp:64-106 | no key leaves the object alone; a key makes it `Perform` of the decoded command |
| Game.GameState.TakeTurn | main.cpp:111-132 | the loop body for one zombie makes the object `Turn` of what it was, and reports exactly a fatal bite |
| Game.GameState.MoveZombies | main.cpp:110-133 | the movement loop makes the object `Chase` of what it was, and reports exactly whether a bite was fatal |
| Game.GameState.RemoveDead | main.cpp:137-147 | the object becomes `Cleanup` of what it was |
| Game.GameState.StartNextWave | main.cpp:150-160 | the object becomes `NextWave` of what it was |
| Game.GameState.UpdateGame | main.cpp:108-161 | the object becomes `Update` of what it was |
| Game.GameState.RunTick | main.cpp:345-350 | one loop iteration, input then update, makes the object `Tick` of what it was |

## Left out

- Rendering is not modelled: `renderGame`, the console clear, the grid and the game-over screen are terminal output.
- Keyboard polling (`_kbhit`, `_getch`) is not modelled. `HandleInput` takes the key already read, or none when no key is pending.
- `Sleep` and the seeding of `rand()` from the clock are left out: they are OS timing and clock access.
- `rand()` itself is not modelled as a generator. Its raw draws are parameters. The zombie turn takes its second coin from the roll even when the source would not draw it, because it is only used when the zombie moves.
- The unbounded main loop is modelled as one iteration (`Tick`, `GameState.RunTick`), with the invariant `Sound` proved to hold from one iteration to the next.
- Game.GameState.SpawnItems: termination of the rejection sampling cannot be shown for an arbitrary random source. The method requires the supplied candidates to contain a free cell for each item (`Placeable`), and its loop stops at the first one.
- Messages are tags (`Message`), not text. The integer formatting inside "Hit! Zombie health: n" and "Wave n cleared!" is kept as the tag's argument.
- Game.GameState.SpawnZombies: `count` is a `nat`. The source only ever passes 5 and 5 + wave, both positive.
- Integers are unbounded. Health, ammo, score and wave never come near the limits of a C++ `int` in play, so overflow is not modelled.
- The item's health field is the constructor's default, 1. The source never sets it and never reads it.
