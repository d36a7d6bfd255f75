/** The player and the enemies: grid position, health, and the two ways they hurt each other. */
module Characters {
  import opened Settings
  import opened Lists

  /** The six weapons; a character starts with the sword. */
  datatype Weapon = Sword | Gun | Bow | Spell | Mine | Laser

  /** The cardinal offsets in the order the sword tries them: left, right, up, down. */
  const DIRECTIONS: seq<(int, int)> := [(-1, 0), (1, 0), (0, -1), (0, 1)]

  /** The neighbour of `at` in direction d of DIRECTIONS. */
  function Neighbour(at: Cell, d: nat): Cell
    requires d < 4
  {
    (at.0 + DIRECTIONS[d].0, at.1 + DIRECTIONS[d].1)
  }

  /** Two cells that share a side. */
  predicate Adjacent(a: Cell, b: Cell)
  {
    Abs(b.0 - a.0) + Abs(b.1 - a.1) == 1
  }

  lemma AdjacentIsNeighbour(a: Cell, b: Cell)
    ensures Adjacent(a, b) <==> exists d :: 0 <= d < 4 && b == Neighbour(a, d)
  {
    if Adjacent(a, b) {
      var d := if b.0 < a.0 then 0 else if b.0 > a.0 then 1 else if b.1 < a.1 then 2 else 3;
      assert b == Neighbour(a, d);
    }
  }

  class Character {
    var x: int
    var y: int
    var health: int
    const maxHealth: int
    var currentWeapon: Weapon

    /** A fresh character at (x, y) at full health, holding the sword. */
    constructor (x: int, y: int, health: int)
      ensures this.x == x && this.y == y
      ensures this.health == health && maxHealth == health
      ensures currentWeapon == Sword
    {
      this.x := x;
      this.y := y;
      this.health := health;
      this.maxHealth := health;
      this.currentWeapon := Sword;
    }

    /** Whether the character stands on cell (x, y). */
    predicate IsAt(x: int, y: int)
      reads this
    {
      this.x == x && this.y == y
    }

    /**
     * Step by (dx, dy) unless the target is off the grid or occupied by one of `others`;
     * bumping into an occupant costs both of them 1 health and nobody moves.
     */
    method Move(dx: int, dy: int, others: seq<Character>)
      requires this !in others && Distinct(others)
      modifies this, others
      ensures (x, y) == MoveTarget((old(x), old(y)), dx, dy, old(Cells(others))).0
      ensures var k := MoveTarget((old(x), old(y)), dx, dy, old(Cells(others))).1;
              health == old(health) - (if k < |others| then 1 else 0) &&
              forall j :: 0 <= j < |others| ==> others[j].health == old(others[j].health) - (if j == k then 1 else 0)
      ensures Cells(others) == old(Cells(others))
      ensures currentWeapon == old(currentWeapon)
      ensures forall j :: 0 <= j < |others| ==> others[j].currentWeapon == old(others[j].currentWeapon)
    {
      ghost var cells := Cells(others);
      var newX, newY := x + dx, y + dy;
      if 0 <= newX < COLS && 0 <= newY < ROWS {
        var collided := CheckCollision(newX, newY, others);
        ghost var k := FirstIndex(cells, (newX, newY));
        assert MoveTarget((old(x), old(y)), dx, dy, cells) == (if k < |others| then (old(x), old(y)) else (newX, newY), k);
        if !collided {
          x, y := newX, newY;
        }
      }
    }

    /** The first of `others` standing on (newX, newY), if any, and this character each lose 1 health. */
    method CheckCollision(newX: int, newY: int, others: seq<Character>) returns (collided: bool)
      requires this !in others && Distinct(others)
      modifies this, others
      ensures var k := FirstIndex(old(Cells(others)), (newX, newY));
              collided == (k < |others|) &&
              health == old(health) - (if collided then 1 else 0) &&
              forall j :: 0 <= j < |others| ==> others[j].health == old(others[j].health) - (if j == k then 1 else 0)
      ensures x == old(x) && y == old(y) && currentWeapon == old(currentWeapon)
      ensures Cells(others) == old(Cells(others))
      ensures forall j :: 0 <= j < |others| ==> others[j].currentWeapon == old(others[j].currentWeapon)
    {
      ghost var cells := Cells(others);
      var i := 0;
      while i < |others|
        invariant 0 <= i <= |others|
        invariant forall j :: 0 <= j < i ==> cells[j] != (newX, newY)
      {
        if others[i].IsAt(newX, newY) {
          health := health - 1;
          others[i].health := others[i].health - 1;
          return true;
        }
        i := i + 1;
      }
      return false;
    }

    /**
     * Strike the first enemy found on a neighbouring cell, trying left, right, up, down:
     * it loses 2 health; the attacker is never hurt.
     */
    method AttackWithSword(enemies: seq<Character>) returns (hit: bool)
      requires this !in enemies && Distinct(enemies)
      modifies enemies
      ensures var k := SwordTarget((old(x), old(y)), old(Cells(enemies)));
              hit == (k < |enemies|) &&
              forall j :: 0 <= j < |enemies| ==> enemies[j].health == old(enemies[j].health) - (if j == k then 2 else 0)
      ensures health == old(health)
      ensures Cells(enemies) == old(Cells(enemies))
    {
      ghost var cells := Cells(enemies);
      ghost var at := (x, y);
      var d := 0;
      while d < 4
        invariant 0 <= d <= 4
        invariant SwordScan(at, cells, d) == SwordScan(at, cells, 0)
        invariant forall j :: 0 <= j < |enemies| ==> enemies[j].health == old(enemies[j].health)
        invariant Cells(enemies) == cells
      {
        var (dx, dy) := DIRECTIONS[d];
        assert (x + dx, y + dy) == Neighbour(at, d);
        hit := AttackDirection(dx, dy, enemies);
        if hit {
          return;
        }
        assert SwordScan(at, cells, d) == SwordScan(at, cells, d + 1);
        d := d + 1;
      }
      hit := false;
    }

    /** Strike the first enemy on cell (x + dx, y + dy), if any, for 2 damage. */
    method AttackDirection(dx: int, dy: int, enemies: seq<Character>) returns (hit: bool)
      requires this !in enemies && Distinct(enemies)
      modifies enemies
      ensures var k := FirstIndex(old(Cells(enemies)), (old(x) + dx, old(y) + dy));
              hit == (k < |enemies|) &&
              forall j :: 0 <= j < |enemies| ==> enemies[j].health == old(enemies[j].health) - (if j == k then 2 else 0)
      ensures Cells(enemies) == old(Cells(enemies))
    {
      ghost var cells := Cells(enemies);
      var targetX, targetY := x + dx, y + dy;
      var i := 0;
      while i < |enemies| && !enemies[i].IsAt(targetX, targetY)
        invariant 0 <= i <= |enemies|
        invariant forall j :: 0 <= j < i ==> cells[j] != (targetX, targetY)
      {
        i := i + 1;
      }
      assert FirstIndex(cells, (targetX, targetY)) == i;
      if i < |enemies| {
        enemies[i].health := enemies[i].health - 2;
      }
      return i < |enemies|;
    }
  }

  /** The cells the characters stand on, in list order. */
  ghost function Cells(cs: seq<Character>): (r: seq<Cell>)
    reads cs
    ensures |r| == |cs| && forall j :: 0 <= j < |cs| ==> r[j] == (cs[j].x, cs[j].y)
  {
    seq(|cs|, j requires 0 <= j < |cs| reads cs => (cs[j].x, cs[j].y))
  }

  /**
   * The outcome of a move by (dx, dy) from `from` among characters standing on `others`:
   * the cell the mover ends on and the index of the character it bumps into (|others| for nobody).
   */
  function MoveTarget(from: Cell, dx: int, dy: int, others: seq<Cell>): (r: (Cell, nat))
    ensures r.1 <= |others|
    ensures !InGrid(from.0 + dx, from.1 + dy) ==> r == (from, |others|)
    ensures InGrid(from.0 + dx, from.1 + dy) && (from.0 + dx, from.1 + dy) in others ==>
              r.0 == from && r.1 < |others| && others[r.1] == (from.0 + dx, from.1 + dy) &&
              forall j :: 0 <= j < r.1 ==> others[j] != others[r.1]
    ensures InGrid(from.0 + dx, from.1 + dy) && (from.0 + dx, from.1 + dy) !in others ==>
              r == ((from.0 + dx, from.1 + dy), |others|)
    ensures CellInGrid(from) ==> CellInGrid(r.0)
    ensures r.0 == from || r.0 !in others
  {
    var target := (from.0 + dx, from.1 + dy);
    if !InGrid(target.0, target.1) then (from, |others|)
    else
      var k := FirstIndex(others, target);
      if k < |others| then (from, k) else (target, |others|)
  }

  /**
   * The enemy the sword hits from `at`, trying directions d, d+1, .. of DIRECTIONS in turn and,
   * within a direction, the first enemy on that cell; |cells| when there is none.
   */
  function SwordScan(at: Cell, cells: seq<Cell>, d: nat): (k: nat)
    requires d <= 4
    ensures k <= |cells|
    decreases 4 - d
  {
    if d == 4 then |cells|
    else
      var k := FirstIndex(cells, Neighbour(at, d));
      if k < |cells| then k else SwordScan(at, cells, d + 1)
  }

  /**
   * The scan hits an enemy standing on the earliest direction, from d on, whose cell is occupied,
   * and the first such enemy in list order; it hits nobody exactly when those cells are all free.
   */
  lemma {:induction false} SwordScanHits(at: Cell, cells: seq<Cell>, d: nat)
    requires d <= 4
    ensures var k := SwordScan(at, cells, d);
            (k < |cells| ==> exists e :: d <= e < 4 && cells[k] == Neighbour(at, e) &&
                                         forall f :: d <= f < e ==> Neighbour(at, f) !in cells) &&
            (k < |cells| ==> forall j :: 0 <= j < k ==> cells[j] != cells[k]) &&
            (k == |cells| <==> forall e :: d <= e < 4 ==> Neighbour(at, e) !in cells)
    decreases 4 - d
  {
    if d < 4 && FirstIndex(cells, Neighbour(at, d)) == |cells| {
      SwordScanHits(at, cells, d + 1);
    }
  }

  /**
   * The enemy a sword swing from `at` hits: one on an adjacent cell, the first in list order
   * on the first of left, right, up, down that holds any; |cells| exactly when none is adjacent.
   */
  function SwordTarget(at: Cell, cells: seq<Cell>): (k: nat)
    ensures k <= |cells|
    ensures k < |cells| ==> Adjacent(at, cells[k])
    ensures k == |cells| <==> forall j :: 0 <= j < |cells| ==> !Adjacent(at, cells[j])
  {
    var k := SwordScan(at, cells, 0);
    SwordScanHits(at, cells, 0);
    forall j | 0 <= j < |cells| ensures Adjacent(at, cells[j]) <==> exists d :: 0 <= d < 4 && cells[j] == Neighbour(at, d) {
      AdjacentIsNeighbour(at, cells[j]);
    }
    k
  }
}
