/** shoot: a bullet travels from the player in a straight line and stops at
    the edge of the map or in the first zombie it meets. */
module Combat {
  import opened World

  /** How many cells a bullet travels at most. */
  const Range: nat := 10

  /** The zombie a bullet hits: `index` in the zombie list, `step` cells away
      from the player. */
  datatype Hit = Hit(step: nat, index: nat)

  /** The m-th cell of the ray lies on the map. */
  predicate InRange(p: Entity, dx: int, dy: int, m: int) {
    IsWalkable(p.x + m * dx, p.y + m * dy)
  }

  /** The m-th cell of the ray lies on the map and holds no zombie. */
  predicate Open(zombies: seq<Entity>, p: Entity, dx: int, dy: int, m: int) {
    InRange(p, dx, dy, m) && FirstAt(zombies, p.x + m * dx, p.y + m * dy) == |zombies|
  }

  /** Where a bullet that has crossed k cells without hitting anything, and
      is now on cell (x, y), ends up. */
  function TargetFrom(zombies: seq<Entity>, x: int, y: int, dx: int, dy: int, k: nat): (h: Option<Hit>)
    requires k <= Range
    ensures h.Some? ==> k < h.value.step <= Range && h.value.index < |zombies|
    decreases Range - k
  {
    if k == Range then None
    else
      var x', y' := x + dx, y + dy;
      if x' < 0 || x' >= Width || y' < 0 || y' >= Height then None
      else
        var i := FirstAt(zombies, x', y');
        if i < |zombies| then Some(Hit(k + 1, i))
        else TargetFrom(zombies, x', y', dx, dy, k + 1)
  }

  /** The zombie a shot from player p in direction (dx, dy) hits, if any. */
  function Target(zombies: seq<Entity>, p: Entity, dx: int, dy: int): Option<Hit> {
    TargetFrom(zombies, p.x, p.y, dx, dy, 0)
  }

  /** The bullet's flight in shoot: step up to Range cells from p, stopping
      at the edge of the map or at the first cell that holds a zombie. */
  method Fly(zombies: seq<Entity>, p: Entity, dx: int, dy: int) returns (h: Option<Hit>)
    ensures h == Target(zombies, p, dx, dy)
  {
    var x, y := p.x, p.y;
    for i := 0 to Range
      invariant Target(zombies, p, dx, dy) == TargetFrom(zombies, x, y, dx, dy, i)
    {
      ghost var x0, y0 := x, y;
      x, y := x + dx, y + dy;
      if x < 0 || x >= Width || y < 0 || y >= Height {
        return None;
      }
      var j := Locate(zombies, x, y);
      if j < |zombies| {
        return Some(Hit(i + 1, j));
      }
      assert TargetFrom(zombies, x0, y0, dx, dy, i) == TargetFrom(zombies, x, y, dx, dy, i + 1);
    }
    return None;
  }

  /** Where a bullet that has crossed k cells of the ray from p ends up, said
      cell by cell: it hits the first zombie, in list order, on the first cell
      past k that holds any zombie, provided that cell is within Range and
      every cell before it is on the map; it hits nothing exactly when every
      cell it crosses before leaving the map is empty. */
  predicate FirstOnRay(zombies: seq<Entity>, p: Entity, dx: int, dy: int, k: nat, t: Option<Hit>) {
    match t
    case Some(h) =>
      k < h.step <= Range &&
      (forall m :: k < m < h.step ==> Open(zombies, p, dx, dy, m)) &&
      InRange(p, dx, dy, h.step) &&
      h.index == FirstAt(zombies, p.x + h.step * dx, p.y + h.step * dy) &&
      h.index < |zombies|
    case None =>
      forall m :: k < m <= Range && (forall e :: k < e <= m ==> InRange(p, dx, dy, e)) ==>
        Open(zombies, p, dx, dy, m)
  }

  lemma {:induction false} TargetIsFirstOnRay(zombies: seq<Entity>, p: Entity, dx: int, dy: int,
                                              x: int, y: int, k: nat)
    requires k <= Range && x == p.x + k * dx && y == p.y + k * dy
    ensures FirstOnRay(zombies, p, dx, dy, k, TargetFrom(zombies, x, y, dx, dy, k))
    decreases Range - k
  {
    if k < Range {
      var x', y' := x + dx, y + dy;
      assert x' == p.x + (k + 1) * dx && y' == p.y + (k + 1) * dy;
      if !IsWalkable(x', y') {
        assert !InRange(p, dx, dy, k + 1);
      } else if FirstAt(zombies, x', y') == |zombies| {
        assert Open(zombies, p, dx, dy, k + 1);
        TargetIsFirstOnRay(zombies, p, dx, dy, x', y', k + 1);
      }
    }
  }

  /** The same for the whole shot: Target names the first zombie on the
      first occupied cell of the path. */
  lemma ShotHitsFirstOnRay(zombies: seq<Entity>, p: Entity, dx: int, dy: int)
    ensures FirstOnRay(zombies, p, dx, dy, 0, Target(zombies, p, dx, dy))
  {
    assert p.x == p.x + 0 * dx && p.y == p.y + 0 * dy;
    TargetIsFirstOnRay(zombies, p, dx, dy, p.x, p.y, 0);
  }

  /** Health a zombie has left after a bullet. */
  function Wounded(z: Entity): Entity {
    z.(health := z.health - 1)
  }

  /** The game after shoot(dx, dy). */
  function Shot(s: State, dx: int, dy: int): (r: State)
    // without ammo nothing but the message changes
    ensures s.ammo <= 0 ==> r == s.(message := OutOfAmmo)
    // otherwise a bullet is spent, hit or miss
    ensures s.ammo > 0 ==> r.ammo == s.ammo - 1
    // a miss spends the bullet and changes nothing else, not even the message
    ensures s.ammo > 0 && Target(s.zombies, s.player, dx, dy).None? ==> r == s.(ammo := s.ammo - 1)
    // a shot moves nothing and scores nothing
    ensures r.player == s.player && r.items == s.items && r.score == s.score
    ensures r.wave == s.wave && r.gameOver == s.gameOver
    ensures |r.zombies| == |s.zombies|
  {
    if s.ammo <= 0 then s.(message := OutOfAmmo)
    else
      var s' := s.(ammo := s.ammo - 1);
      match Target(s.zombies, s.player, dx, dy)
      case None => s'
      case Some(h) =>
        var z := Wounded(s.zombies[h.index]);
        s'.(zombies := s.zombies[h.index := z],
            message := if z.health <= 0 then ZombieKilled else ZombieHit(z.health))
  }

  /** A shot wounds at most one zombie, by exactly 1 health, and leaves every
      position alone; the one it wounds is the one Target names. */
  lemma ShotWoundsAtMostOne(s: State, dx: int, dy: int)
    ensures var r := Shot(s, dx, dy);
      (forall j :: 0 <= j < |s.zombies| ==>
        r.zombies[j] == s.zombies[j] || r.zombies[j] == Wounded(s.zombies[j])) &&
      (forall i, j :: 0 <= i < j < |s.zombies| ==>
        r.zombies[i] == s.zombies[i] || r.zombies[j] == s.zombies[j]) &&
      (s.ammo > 0 ==> match Target(s.zombies, s.player, dx, dy)
        case None => r.zombies == s.zombies
        case Some(h) =>
          (r.zombies[h.index] == Wounded(s.zombies[h.index]) &&
           r.message == (if r.zombies[h.index].health <= 0 then ZombieKilled
                         else ZombieHit(r.zombies[h.index].health))))
  {
  }
}
