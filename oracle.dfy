/** The values rand() would have produced, supplied from outside.  Each field
    is one raw draw (rand() never returns a negative number); the game reduces
    it with `%` exactly where the source does. */
module Oracle {

  /** The draws one zombie consumes in updateGame: the first decides whether
      it moves at all (even: it moves), the second whether it tries the
      horizontal axis first (even: it does).  The second is only drawn when
      the zombie moves. */
  datatype ZombieRoll = ZombieRoll(move: nat, axis: nat)

  /** The draws spawnZombies consumes for one zombie: the edge (`% 4`) and
      the position along that edge (`% Width` or `% Height`). */
  datatype EdgeRoll = EdgeRoll(side: nat, offset: nat)

  /** One candidate cell of the rejection sampling in spawnItems. */
  datatype Try = Try(xDraw: nat, yDraw: nat)

  /** The draws spawnItems consumes for one item: the kind (`% 2`: even is an
      ammo box) and the candidate cells in the order they are drawn. */
  datatype ItemRoll = ItemRoll(kind: nat, tries: seq<Try>)

  /** Everything one call of updateGame may draw: one ZombieRoll per zombie,
      and the rolls for the items and zombies of a new wave. */
  datatype Rolls = Rolls(chase: seq<ZombieRoll>, drops: seq<ItemRoll>, edges: seq<EdgeRoll>)
}
