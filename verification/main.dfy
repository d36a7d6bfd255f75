/**
 * The turn engine of the game: how a key or a click becomes the player's action, how the
 * projectiles, effects and mines advance every frame, how the enemies answer, and the two flags
 * (player's turn, actions pending) that sequence it all.
 */
module TurnEngine {
  import opened Settings
  import opened Lists
  import opened Characters
  import opened Weapons
  import opened Effects
  import opened Utils
  import opened Updates

  datatype Option<T> = None | Some(value: T)

  /** The keys the game reacts to; every other key is OtherKey. */
  datatype Key = LeftKey | RightKey | UpKey | DownKey | SpaceKey | LKey | OtherKey

  predicate IsArrowKey(key: Key)
  {
    key == LeftKey || key == RightKey || key == UpKey || key == DownKey
  }

  /** The direction the bow shoots for a key: one of the four unit steps, or none. */
  function DirectionFromKey(key: Key): (r: Option<(int, int)>)
    ensures r.Some? <==> IsArrowKey(key)
    ensures r.Some? ==> IsDirection(r.value.0, r.value.1) && r.value in DIRECTIONS
  {
    match key
    case LeftKey => Some((-1, 0))
    case RightKey => Some((1, 0))
    case UpKey => Some((0, -1))
    case DownKey => Some((0, 1))
    case _ => None
  }

  /** The step a key asks the player to take; (0, 0) for a key that is not an arrow. */
  function MovementFromKey(key: Key): (r: (int, int))
    ensures r != (0, 0) <==> IsArrowKey(key)
    ensures r != (0, 0) ==> IsDirection(r.0, r.1)
  {
    match key
    case LeftKey => (-1, 0)
    case RightKey => (1, 0)
    case UpKey => (0, -1)
    case DownKey => (0, 1)
    case _ => (0, 0)
  }

  /** Moving and shooting read the arrow keys the same way, and distinct arrow keys differ. */
  lemma KeysAgree(key: Key, other: Key)
    ensures DirectionFromKey(key) == (if IsArrowKey(key) then Some(MovementFromKey(key)) else None)
    ensures IsArrowKey(key) && IsArrowKey(other) && key != other ==> MovementFromKey(key) != MovementFromKey(other)
  {
  }

  /**
   * The step an enemy at `enemy` takes toward the player at `player`: on each axis one cell
   * toward the player, or none when already level with it.
   */
  function EnemyMovement(enemy: Cell, player: Cell): (r: (int, int))
    ensures -1 <= r.0 <= 1 && -1 <= r.1 <= 1
    ensures r.0 == 0 <==> enemy.0 == player.0
    ensures r.1 == 0 <==> enemy.1 == player.1
    ensures Abs(player.0 - (enemy.0 + r.0)) == if enemy.0 == player.0 then 0 else Abs(player.0 - enemy.0) - 1
    ensures Abs(player.1 - (enemy.1 + r.1)) == if enemy.1 == player.1 then 0 else Abs(player.1 - enemy.1) - 1
  {
    var dx := if enemy.0 < player.0 then 1 else if enemy.0 > player.0 then -1 else 0;
    var dy := if enemy.1 < player.1 then 1 else if enemy.1 > player.1 then -1 else 0;
    (dx, dy)
  }

  /** The cell an enemy at `c` steps to when it heads for the player at `p`. */
  function Approach(c: Cell, p: Cell): Cell
  {
    var m := EnemyMovement(c, p);
    (c.0 + m.0, c.1 + m.1)
  }

  /** What enemy i bumps against on its move: the player first, then every other enemy in order. */
  function OthersOf(p: Cell, cells: seq<Cell>, i: nat): (r: seq<Cell>)
    requires i < |cells|
    ensures |r| == |cells|
  {
    [p] + (cells[..i] + cells[i + 1..])
  }

  /**
   * The enemies' cells after the first n of them, in list order, have each tried one step
   * toward the player at p; every move sees the cells as the earlier moves left them.
   */
  function EnemyTurn(cells: seq<Cell>, p: Cell, n: nat): (r: seq<Cell>)
    requires n <= |cells|
    ensures |r| == |cells|
    ensures forall j :: n <= j < |cells| ==> r[j] == cells[j]
  {
    if n == 0 then cells else EnemyStep(EnemyTurn(cells, p, n - 1), p, n - 1)
  }

  /**
   * Enemy i tries its step toward the player at p, bumping against the player and every other
   * enemy where they stand now; it either stays put or takes that step, and nobody else moves.
   */
  function EnemyStep(cur: seq<Cell>, p: Cell, i: nat): (r: seq<Cell>)
    requires i < |cur|
    ensures |r| == |cur|
    ensures forall j :: 0 <= j < |cur| && j != i ==> r[j] == cur[j]
    ensures r[i] == cur[i] || r[i] == Approach(cur[i], p)
  {
    var m := EnemyMovement(cur[i], p);
    cur[i := MoveTarget(cur[i], m.0, m.1, OthersOf(p, cur, i)).0]
  }

  /** One enemy's step never lands on the player or on another enemy. */
  lemma EnemyStepKeepsApart(cur: seq<Cell>, p: Cell, i: nat)
    requires i < |cur| && Distinct([p] + cur)
    ensures Distinct([p] + EnemyStep(cur, p, i))
  {
    var m := EnemyMovement(cur[i], p);
    var c := MoveTarget(cur[i], m.0, m.1, OthersOf(p, cur, i)).0;
    var s := [p] + cur;
    assert OthersOf(p, cur, i) == s[..i + 1] + s[i + 2..];
    ReplaceKeepsDistinct(s, i + 1, c);
    assert [p] + EnemyStep(cur, p, i) == s[i + 1 := c];
  }

  /** Every enemy that has had its move either stayed put or took its step toward the player. */
  lemma {:induction false} EnemyTurnStaysOrApproaches(cells: seq<Cell>, p: Cell, n: nat)
    requires n <= |cells|
    ensures forall j :: 0 <= j < |cells| ==>
              EnemyTurn(cells, p, n)[j] == cells[j] || (j < n && EnemyTurn(cells, p, n)[j] == Approach(cells[j], p))
  {
    if n > 0 {
      EnemyTurnStaysOrApproaches(cells, p, n - 1);
    }
  }

  /** Staying put, or a step toward the player, brings the enemy no further away on either axis. */
  lemma ApproachCloser(c: Cell, r: Cell, p: Cell)
    requires r == c || r == Approach(c, p)
    ensures Abs(p.0 - r.0) <= Abs(p.0 - c.0) && Abs(p.1 - r.1) <= Abs(p.1 - c.1)
  {
    var m := EnemyMovement(c, p);
  }

  /**
   * When the player and the enemies stand on pairwise different cells, they still do after
   * any number of enemy moves: nobody steps onto an occupied cell.
   */
  lemma {:induction false} EnemyTurnKeepsApart(cells: seq<Cell>, p: Cell, n: nat)
    requires n <= |cells| && Distinct([p] + cells)
    ensures Distinct([p] + EnemyTurn(cells, p, n))
  {
    if n > 0 {
      EnemyTurnKeepsApart(cells, p, n - 1);
      EnemyStepKeepsApart(EnemyTurn(cells, p, n - 1), p, n - 1);
    }
  }

  /** Overwriting one entry of a list without repeats by itself or by a value found nowhere else keeps it so. */
  lemma ReplaceKeepsDistinct<T>(s: seq<T>, k: nat, v: T)
    requires Distinct(s) && k < |s|
    requires v == s[k] || v !in s[..k] + s[k + 1..]
    ensures Distinct(s[k := v])
  {
    var t := s[k := v];
    forall i, j | 0 <= i < j < |t| ensures t[i] != t[j] {
      if i == k {
        assert t[j] == (s[..k] + s[k + 1..])[j - 1];
      } else if j == k {
        assert t[i] == (s[..k] + s[k + 1..])[i];
      }
    }
  }

  /** The cells of the player followed by the enemies. */
  ghost function Board(player: Character, enemies: seq<Character>): seq<Cell>
    reads player, enemies
  {
    [(player.x, player.y)] + Cells(enemies)
  }

  /** Characters on different cells are different characters. */
  lemma ApartIsDistinct(player: Character, enemies: seq<Character>)
    requires Distinct(Board(player, enemies))
    ensures player !in enemies && Distinct(enemies)
  {
    var b := Board(player, enemies);
    forall j | 0 <= j < |enemies| ensures enemies[j] != player {
      assert b[j + 1] != b[0];
    }
    forall i, j | 0 <= i < j < |enemies| ensures enemies[i] != enemies[j] {
      assert b[i + 1] != b[j + 1];
    }
  }

  /** The player's cell and an enemy's position in the list of everybody else. */
  lemma CellsOfOthers(player: Character, enemies: seq<Character>, i: nat)
    requires i < |enemies|
    ensures Cells([player] + (enemies[..i] + enemies[i + 1..])) == OthersOf((player.x, player.y), Cells(enemies), i)
  {
  }

  /** Two "everybody but i" lists agree exactly when the player cells agree and the lists differ at most at i. */
  lemma SpliceEqual(a: seq<Cell>, b: seq<Cell>, i: nat, p: Cell, q: Cell)
    requires |a| == |b| && i < |a|
    requires OthersOf(p, a, i) == OthersOf(q, b, i)
    ensures p == q && a == b[i := a[i]]
  {
    var x, y := OthersOf(p, a, i), OthersOf(q, b, i);
    assert p == x[0] == y[0] == q;
    forall j | 0 <= j < |a| ensures a[j] == b[i := a[i]][j] {
      if j < i {
        assert a[j] == x[j + 1] == y[j + 1] == b[j];
      } else if j > i {
        assert a[j] == x[j] == y[j] == b[j];
      }
    }
  }

  /** The state the enemies' turn has reached once the first i enemies have moved. */
  ghost predicate EnemiesMoved(enemies: seq<Character>, player: Character, cells: seq<Cell>, p: Cell,
                               health: seq<int>, playerHealth: int, i: nat)
    reads player, enemies
  {
    |cells| == |enemies| && |health| == |enemies| && i <= |enemies| &&
    player !in enemies && Distinct(enemies) &&
    Cells(enemies) == EnemyTurn(cells, p, i) &&
    (player.x, player.y) == p && player.health <= playerHealth &&
    forall j :: 0 <= j < |enemies| ==> enemies[j].health <= health[j]
  }

  /** Enemy i heads for the player, bumping against the player and the other enemies. */
  method MoveEnemy(enemies: seq<Character>, player: Character, i: nat, ghost cells: seq<Cell>, ghost p: Cell,
                   ghost health: seq<int>, ghost playerHealth: int)
    requires i < |enemies| && EnemiesMoved(enemies, player, cells, p, health, playerHealth, i)
    modifies enemies, player
    ensures EnemiesMoved(enemies, player, cells, p, health, playerHealth, i + 1)
    ensures player.currentWeapon == old(player.currentWeapon)
  {
    ghost var before := Cells(enemies);
    var enemy := enemies[i];
    var m := EnemyMovement((enemy.x, enemy.y), (player.x, player.y));
    var others := [player] + Except(enemies, enemy);
    OthersLayout(enemies, player, i);
    CellsOfOthers(player, enemies, i);
    enemy.Move(m.0, m.1, others);
    CellsOfOthers(player, enemies, i);
    SpliceEqual(Cells(enemies), before, i, (player.x, player.y), p);
    assert forall j :: 0 <= j < |enemies| ==> enemies[j].health <= old(enemies[j].health);
  }

  /** The list enemy i moves among: the player, then the other enemies in order, each once. */
  lemma OthersLayout(enemies: seq<Character>, player: Character, i: nat)
    requires i < |enemies| && Distinct(enemies) && player !in enemies
    ensures [player] + Except(enemies, enemies[i]) == [player] + (enemies[..i] + enemies[i + 1..])
    ensures Distinct([player] + (enemies[..i] + enemies[i + 1..]))
    ensures enemies[i] !in [player] + (enemies[..i] + enemies[i + 1..])
    ensures forall j :: 0 <= j < i ==> enemies[j] == (enemies[..i] + enemies[i + 1..])[j]
    ensures forall j :: i < j < |enemies| ==> enemies[j] == (enemies[..i] + enemies[i + 1..])[j - 1]
  {
    var rest := enemies[..i] + enemies[i + 1..];
    ExceptAt(enemies, i);
    OnlyAt(enemies, i);
    DistinctCut(enemies, i);
    assert player !in rest;
    DistinctCons(player, rest);
    assert forall j :: 0 <= j < i ==> enemies[j] == rest[j];
    assert forall j :: i < j < |enemies| ==> enemies[j] == rest[j - 1];
  }

  /**
   * The enemies' turn: in list order, each enemy tries one step toward the player; a step onto
   * the edge of the grid is refused, and a step onto the player or another enemy is refused and
   * costs both of them 1 health. The player never moves, and the cells come out as EnemyTurn
   * says, so every enemy stays or approaches and nobody shares a cell.
   */
  method HandleEnemiesTurn(enemies: seq<Character>, player: Character)
    requires Distinct(Board(player, enemies))
    modifies enemies, player
    ensures Cells(enemies) == EnemyTurn(old(Cells(enemies)), old((player.x, player.y)), |enemies|)
    ensures (player.x, player.y) == old((player.x, player.y))
    ensures Distinct(Board(player, enemies))
    ensures player.health <= old(player.health)
    ensures forall j :: 0 <= j < |enemies| ==> enemies[j].health <= old(enemies[j].health)
    ensures player.currentWeapon == old(player.currentWeapon)
  {
    ghost var cells, p := Cells(enemies), (player.x, player.y);
    ghost var health := Healths(enemies);
    ApartIsDistinct(player, enemies);
    var i := 0;
    while i < |enemies|
      invariant EnemiesMoved(enemies, player, cells, p, health, old(player.health), i)
      invariant player.currentWeapon == old(player.currentWeapon)
    {
      MoveEnemy(enemies, player, i, cells, p, health, old(player.health));
      i := i + 1;
    }
    EnemyTurnKeepsApart(cells, p, |enemies|);
  }

  /** The weapons in the order of their buttons along the bottom of the window. */
  const WEAPON_BUTTONS: seq<Weapon> := [Sword, Gun, Bow, Spell, Mine, Laser]

  /** The position of a weapon's button. */
  function ButtonIndex(w: Weapon): (k: nat)
    ensures k < |WEAPON_BUTTONS| && WEAPON_BUTTONS[k] == w
  {
    match w
    case Sword => 0
    case Gun => 1
    case Bow => 2
    case Spell => 3
    case Mine => 4
    case Laser => 5
  }

  /**
   * Arm the player with w and mark, button by button, whether it is w's button; with the
   * game's buttons exactly one of them is marked, w's own.
   */
  method SelectWeapon(w: Weapon, player: Character, labels: seq<Weapon>) returns (selected: seq<bool>)
    modifies player
    ensures player.currentWeapon == w
    ensures player.x == old(player.x) && player.y == old(player.y) && player.health == old(player.health)
    ensures |selected| == |labels| && forall j :: 0 <= j < |labels| ==> (selected[j] <==> labels[j] == w)
    ensures labels == WEAPON_BUTTONS ==> forall j :: 0 <= j < |labels| ==> (selected[j] <==> j == ButtonIndex(w))
  {
    player.currentWeapon := w;
    selected := [];
    var i := 0;
    while i < |labels|
      invariant i <= |labels| && |selected| == i
      invariant forall j :: 0 <= j < i ==> (selected[j] <==> labels[j] == w)
    {
      selected := selected + [labels[i] == w];
      i := i + 1;
    }
  }

  /** The grid cell under a pixel position: the floor of each coordinate over the cell size. */
  function ClickedCell(mouseX: int, mouseY: int): (c: Cell)
    ensures c.0 * CELL_SIZE <= mouseX < (c.0 + 1) * CELL_SIZE
    ensures c.1 * CELL_SIZE <= mouseY < (c.1 + 1) * CELL_SIZE
  {
    (mouseX / CELL_SIZE, mouseY / CELL_SIZE)
  }

  /** The weapons a click on the board fires; a click with any other weapon does nothing. */
  predicate FiresOnClick(w: Weapon)
  {
    w == Gun || w == Spell || w == Mine
  }

  /**
   * A click on the board at pixel (mouseX, mouseY) with the player's weapon: the gun adds a
   * bullet flying from the player to the clicked cell, the spell strikes around the clicked cell
   * and adds its effect, the mine adds an armed mine there; each of these is the player's action.
   * Any other weapon changes nothing and is no action.
   */
  method HandleWeaponClick(player: Character, enemies: seq<Character>, bullets: seq<Bullet>, spells: seq<SpellEffect>,
                           mines: seq<Mine>, mouseX: int, mouseY: int)
    returns (bullets': seq<Bullet>, spells': seq<SpellEffect>, mines': seq<Mine>, acted: bool)
    requires player !in enemies && Distinct(enemies)
    modifies enemies
    ensures acted <==> FiresOnClick(player.currentWeapon)
    ensures var t := ClickedCell(mouseX, mouseY);
            if player.currentWeapon == Gun then
              |bullets'| == |bullets| + 1 && bullets'[..|bullets|] == bullets && fresh(bullets'[|bullets|]) &&
              bullets'[|bullets|].path == Line(player.x, player.y, t.0, t.1) && bullets'[|bullets|].speed == 5 &&
              bullets'[|bullets|].State() == BulletState(0, false, 0)
            else bullets' == bullets
    ensures var t := ClickedCell(mouseX, mouseY);
            if player.currentWeapon == Spell then
              |spells'| == |spells| + 1 && spells'[..|spells|] == spells && fresh(spells'[|spells|]) &&
              spells'[|spells|].x == t.0 * CELL_SIZE + CELL_SIZE / 2 && spells'[|spells|].y == t.1 * CELL_SIZE + CELL_SIZE / 2 &&
              spells'[|spells|].radius == 2 * CELL_SIZE && spells'[|spells|].duration == SPELL_DURATION
            else spells' == spells
    ensures var t := ClickedCell(mouseX, mouseY);
            mines' == if player.currentWeapon == Mine then PlaceMine(t.0, t.1, mines) else mines
    ensures var t := ClickedCell(mouseX, mouseY);
            forall j :: 0 <= j < |enemies| ==>
              enemies[j].health == old(enemies[j].health) -
                (if player.currentWeapon == Spell && InSpellRange(old(enemies[j].x), old(enemies[j].y), t.0, t.1)
                 then SPELL_DAMAGE else 0)
    ensures Cells(enemies) == old(Cells(enemies))
    ensures FightersOf(player, enemies) == Perform(BoardClick(ClickedCell(mouseX, mouseY), player.currentWeapon), old(FightersOf(player, enemies)))
  {
    ghost var f := FightersOf(player, enemies);
    var t := ClickedCell(mouseX, mouseY);
    bullets', spells', mines' := bullets, spells, mines;
    if player.currentWeapon == Gun {
      var bullet := new Bullet(player.x, player.y, t.0, t.1, 5);
      bullets' := bullets + [bullet];
      acted := true;
    } else if player.currentWeapon == Spell {
      CastSpell(t.0, t.1, enemies);
      var effect := new SpellEffect(t.0 * CELL_SIZE + CELL_SIZE / 2, t.1 * CELL_SIZE + CELL_SIZE / 2, 2 * CELL_SIZE);
      spells' := spells + [effect];
      acted := true;
    } else if player.currentWeapon == Mine {
      mines' := PlaceMine(t.0, t.1, mines);
      acted := true;
    } else {
      acted := false;
    }
    ClickPerformed(t, player.currentWeapon, f, FightersOf(player, enemies));
  }

  /**
   * A key with the bow: an arrow key adds an arrow leaving the player's cell in that key's
   * direction, at speed 3 and with a range of 15 cells, and is the player's action; any other key
   * does nothing.
   */
  method HandleBow(key: Key, player: Character, arrows: seq<Arrow>) returns (arrows': seq<Arrow>, acted: bool)
    ensures acted <==> IsArrowKey(key)
    ensures if acted then
              |arrows'| == |arrows| + 1 && arrows'[..|arrows|] == arrows && fresh(arrows'[|arrows|]) &&
              arrows'[|arrows|].State() == ArrowState(player.x, player.y, 0, false, 0) &&
              Some((arrows'[|arrows|].dx, arrows'[|arrows|].dy)) == DirectionFromKey(key) &&
              arrows'[|arrows|].speed == 3 && arrows'[|arrows|].rangeLimit == 15
            else arrows' == arrows
  {
    var direction := DirectionFromKey(key);
    if direction.Some? {
      var arrow := new Arrow(player.x, player.y, direction.value, 3, 15);
      arrows' := arrows + [arrow];
      acted := true;
    } else {
      arrows' := arrows;
      acted := false;
    }
  }

  /**
   * A key as a step: an arrow key tries to move the player one cell that way among the enemies
   * and is the player's action even when the step is refused; any other key does nothing. A
   * player on a cell of their own stays on a cell of their own.
   */
  method HandleMovement(key: Key, player: Character, enemies: seq<Character>) returns (acted: bool)
    requires player !in enemies && Distinct(enemies)
    modifies player, enemies
    ensures acted <==> IsArrowKey(key)
    ensures var d := MovementFromKey(key);
            var r := if acted then MoveTarget((old(player.x), old(player.y)), d.0, d.1, old(Cells(enemies)))
                     else ((old(player.x), old(player.y)), |enemies|);
            (player.x, player.y) == r.0 &&
            player.health == old(player.health) - (if r.1 < |enemies| then 1 else 0) &&
            forall j :: 0 <= j < |enemies| ==> enemies[j].health == old(enemies[j].health) - (if j == r.1 then 1 else 0)
    ensures Cells(enemies) == old(Cells(enemies)) && player.currentWeapon == old(player.currentWeapon)
    ensures FightersOf(player, enemies) == Perform(StepAction(key), old(FightersOf(player, enemies)))
    ensures old(Distinct(Board(player, enemies))) ==> Distinct(Board(player, enemies))
  {
    ghost var f := FightersOf(player, enemies);
    var d := MovementFromKey(key);
    if d.0 != 0 || d.1 != 0 {
      ghost var p := (player.x, player.y);
      ghost var cells := Cells(enemies);
      player.Move(d.0, d.1, enemies);
      MoveKeepsApart(p, cells, (player.x, player.y));
      acted := true;
    } else {
      acted := false;
    }
    StepPerformed(key, f, FightersOf(player, enemies));
  }

  /** The player leaving its cell only for one nobody stands on keeps everybody on cells of their own. */
  lemma MoveKeepsApart(p: Cell, cells: seq<Cell>, q: Cell)
    requires q == p || q !in cells
    ensures Distinct([p] + cells) ==> Distinct([q] + cells)
  {
    var s := [p] + cells;
    if Distinct(s) {
      forall a, b | 0 <= a < b < |cells| ensures cells[a] != cells[b] {
        assert cells[a] == s[a + 1] && cells[b] == s[b + 1];
      }
      forall a | 0 <= a < |cells| ensures cells[a] != p {
        assert cells[a] == s[a + 1] && p == s[0];
      }
      DistinctCons(q, cells);
    }
  }

  /** What a key does, given the player's weapon, in the order the game tries them. */
  datatype KeyAction = SwordStrike | BowShot | LaserShot | Walk

  function KeyActionFor(w: Weapon, key: Key): (a: KeyAction)
    ensures a == SwordStrike <==> key == SpaceKey && w == Sword
    ensures a == BowShot <==> w == Bow
    ensures a == LaserShot <==> key == LKey && w == Laser
  {
    if key == SpaceKey && w == Sword then SwordStrike
    else if w == Bow then BowShot
    else if w == Laser && key == LKey then LaserShot
    else Walk
  }

  /** What one frame's event queue may hold; a click names the weapon button it landed on, if any. */
  datatype Event = Quit | Click(x: int, y: int, button: Option<Weapon>) | KeyDown(key: Key) | OtherEvent

  // ---------------------------------------------------------------------------
  // Actions: what an event asks of the game, and what it does to the board and the arena
  // ---------------------------------------------------------------------------

  /**
   * What one event asks of the game, given the weapon the player holds: nothing, a new weapon
   * (a button), or one of the player's actions with its target cell or direction.
   */
  datatype Action =
    | Nothing
    | Choose(weapon: Weapon)
    | ShootAt(target: Cell)
    | CastAt(target: Cell)
    | PlaceAt(target: Cell)
    | Swing
    | Loose(dir: (int, int))
    | Fire
    | Step(dir: (int, int))

  /** The actions proper, those that end the player's turn; choosing a weapon is not one. */
  predicate Acts(a: Action)
  {
    !a.Nothing? && !a.Choose?
  }

  /** A click: a button chooses its weapon; on the board the gun, the spell and the mine act on the clicked cell. */
  function ClickAction(x: int, y: int, button: Option<Weapon>, w: Weapon): Action
  {
    if button.Some? then Choose(button.value) else BoardClick(ClickedCell(x, y), w)
  }

  /** A click on cell t of the board: the gun shoots at it, the spell is cast on it, the mine is placed on it. */
  function BoardClick(t: Cell, w: Weapon): Action
  {
    if w == Gun then ShootAt(t)
    else if w == Spell then CastAt(t)
    else if w == Mine then PlaceAt(t)
    else Nothing
  }

  /** A key: the sword and the laser act on their key; the bow and a step act on an arrow key. */
  function PressAction(key: Key, w: Weapon): Action
  {
    match KeyActionFor(w, key)
    case SwordStrike => Swing
    case BowShot => if IsArrowKey(key) then Loose(DirectionFromKey(key).value) else Nothing
    case LaserShot => Fire
    case Walk => StepAction(key)
  }

  /** A key taken as a step: an arrow key steps that way, any other key does nothing. */
  function StepAction(key: Key): Action
  {
    if IsArrowKey(key) then Step(MovementFromKey(key)) else Nothing
  }

  function EventAction(ev: Event, w: Weapon): Action
  {
    match ev
    case Click(x, y, button) => ClickAction(x, y, button, w)
    case KeyDown(key) => PressAction(key, w)
    case _ => Nothing
  }

  /** Exactly the board clicks with a firing weapon and the keys that strike, fire or name a direction act. */
  lemma ActsExactly(ev: Event, w: Weapon)
    ensures Acts(EventAction(ev, w)) <==>
              (ev.Click? && ev.button.None? && FiresOnClick(w)) ||
              (ev.KeyDown? && (KeyActionFor(w, ev.key) in {SwordStrike, LaserShot} || IsArrowKey(ev.key)))
  {
  }

  /** The weapon held after action a: a button changes it, nothing else does. */
  function WeaponAfter(a: Action, w: Weapon): Weapon
  {
    if a.Choose? then a.weapon else w
  }

  /** The marks of the weapon buttons once w is chosen: only w's button is marked. */
  function Marks(w: Weapon): (r: seq<bool>)
    ensures |r| == |WEAPON_BUTTONS| && forall j :: 0 <= j < |r| ==> (r[j] <==> WEAPON_BUTTONS[j] == w)
  {
    seq(|WEAPON_BUTTONS|, j => j == ButtonIndex(w))
  }

  /** What actions change on the board: the player's cell and health, the enemies' cells and healths. */
  datatype Fighters = Fighters(at: Cell, health: int, cells: seq<Cell>, healths: seq<int>)

  ghost function FightersOf(player: Character, enemies: seq<Character>): (f: Fighters)
    reads player, enemies
    ensures |f.cells| == |f.healths| == |enemies|
  {
    Fighters((player.x, player.y), player.health, Cells(enemies), Healths(enemies))
  }

  /** The health enemy j, standing on cells[j], loses to action a of the player on p. */
  function EnemyLoss(a: Action, p: Cell, cells: seq<Cell>, j: nat): int
    requires j < |cells|
  {
    match a
    case CastAt(t) => if InSpellRange(cells[j].0, cells[j].1, t.0, t.1) then SPELL_DAMAGE else 0
    case Swing => if j == SwordTarget(p, cells) then 2 else 0
    case Fire => LASER_DAMAGE * Crossings(p, 4, cells[j])
    case Step(d) => if j == MoveTarget(p, d.0, d.1, cells).1 then 1 else 0
    case _ => 0
  }

  /**
   * The board after action a. No enemy moves; only a step moves the player, and a step into an
   * enemy costs the player and that enemy 1 health each instead; the other actions damage the
   * enemies by EnemyLoss.
   */
  function Perform(a: Action, f: Fighters): (r: Fighters)
    requires |f.cells| == |f.healths|
    ensures r.cells == f.cells && |r.healths| == |f.healths|
    ensures !a.Step? ==> r.at == f.at && r.health == f.health
    ensures forall j :: 0 <= j < |f.healths| ==> r.healths[j] == f.healths[j] - EnemyLoss(a, f.at, f.cells, j)
  {
    var move := if a.Step? then MoveTarget(f.at, a.dir.0, a.dir.1, f.cells) else (f.at, |f.cells|);
    Fighters(move.0, f.health - (if move.1 < |f.cells| then 1 else 0), f.cells,
             seq(|f.healths|, j requires 0 <= j < |f.healths| => f.healths[j] - EnemyLoss(a, f.at, f.cells, j)))
  }

  /** A board that has taken action a's moves and losses, enemy by enemy, is the board Perform describes. */
  lemma PerformedBy(a: Action, f: Fighters, g: Fighters)
    requires |f.cells| == |f.healths| == |g.healths| && g.cells == f.cells
    requires g.at == Perform(a, f).at && g.health == Perform(a, f).health
    requires forall j :: 0 <= j < |g.healths| ==> g.healths[j] == f.healths[j] - EnemyLoss(a, f.at, f.cells, j)
    ensures g == Perform(a, f)
  {
  }

  /**
   * A board on which the player has stepped as key says (onto a free cell, or bumping the enemy
   * in the way, each losing 1 health) is the board Perform describes for that key's step.
   */
  lemma StepPerformed(key: Key, f: Fighters, g: Fighters)
    requires |f.cells| == |f.healths| == |g.healths| && g.cells == f.cells
    requires var d := MovementFromKey(key);
             var r := if IsArrowKey(key) then MoveTarget(f.at, d.0, d.1, f.cells) else (f.at, |f.cells|);
             g.at == r.0 && g.health == f.health - (if r.1 < |f.cells| then 1 else 0) &&
             forall j :: 0 <= j < |f.cells| ==> g.healths[j] == f.healths[j] - (if j == r.1 then 1 else 0)
    ensures g == Perform(StepAction(key), f)
  {
    PerformedBy(StepAction(key), f, g);
  }

  /**
   * A board on which the sword has taken 2 health from the enemy SwordTarget picks, and from
   * nobody else, is the board Perform describes for a swing.
   */
  lemma SwingPerformed(f: Fighters, g: Fighters)
    requires |f.cells| == |f.healths| == |g.healths| && g.cells == f.cells
    requires g.at == f.at && g.health == f.health
    requires forall j :: 0 <= j < |f.cells| ==> g.healths[j] == f.healths[j] - (if j == SwordTarget(f.at, f.cells) then 2 else 0)
    ensures g == Perform(Swing, f)
  {
    PerformedBy(Swing, f, g);
  }

  /**
   * A board on which every enemy has lost LASER_DAMAGE for each beam from the player crossing
   * its cell is the board Perform describes for firing the laser.
   */
  lemma FirePerformed(f: Fighters, g: Fighters)
    requires |f.cells| == |f.healths| == |g.healths| && g.cells == f.cells
    requires g.at == f.at && g.health == f.health
    requires forall j :: 0 <= j < |f.cells| ==> g.healths[j] == f.healths[j] - LASER_DAMAGE * Crossings(f.at, 4, f.cells[j])
    ensures g == Perform(Fire, f)
  {
    PerformedBy(Fire, f, g);
  }

  /**
   * A board on which, for a spell, every enemy in the spell's range of cell t has lost
   * SPELL_DAMAGE, and otherwise nothing has changed, is the board Perform describes for a click
   * on t with weapon w.
   */
  lemma ClickPerformed(t: Cell, w: Weapon, f: Fighters, g: Fighters)
    requires |f.cells| == |f.healths| == |g.healths| && g.cells == f.cells
    requires g.at == f.at && g.health == f.health
    requires forall j :: 0 <= j < |f.cells| ==>
               g.healths[j] == f.healths[j] - (if w == Spell && InSpellRange(f.cells[j].0, f.cells[j].1, t.0, t.1) then SPELL_DAMAGE else 0)
    ensures g == Perform(BoardClick(t, w), f)
  {
    PerformedBy(BoardClick(t, w), f, g);
  }

  /**
   * Actions that hurt nobody at once leave the board as it is: no action, a weapon choice, and
   * the shot, mine and arrow, whose damage comes later as they fly or are stepped on.
   */
  lemma PerformLeaves(a: Action, f: Fighters)
    requires a.Nothing? || a.Choose? || a.ShootAt? || a.PlaceAt? || a.Loose?
    requires |f.cells| == |f.healths|
    ensures Perform(a, f) == f
  {
    assert Perform(a, f).healths == f.healths;
  }

  /** Everything the player's actions add to: the projectiles, the effects and the mines. */
  datatype Arena = Arena(bullets: seq<Bullet>, arrows: seq<Arrow>, spells: seq<SpellEffect>,
                         lasers: seq<LaserEffect>, mines: seq<Mine>)

  /** r is s with one more element at its end. */
  predicate Appended<T(==)>(s: seq<T>, r: seq<T>)
  {
    |r| == |s| + 1 && r[..|s|] == s
  }

  /**
   * b is a with what action act of the player on p adds, and nothing else: a new bullet along
   * the line from p to the target at speed 5, a new spell effect centred on the target cell with
   * a radius of two cells, an armed mine on the target, a new arrow in the chosen direction at
   * speed 3 with a range of 15, or a new laser effect along the four beams from p. Any other
   * action adds nothing. Only what never changes after construction is said here; the handlers
   * that make the new thing say where it starts.
   */
  twostate predicate Adds(act: Action, p: Cell, a: Arena, new b: Arena)
    ensures Adds(act, p, a, b) ==> OnlyNew(a, b)
  {
    match act
    case ShootAt(t) =>
      b == a.(bullets := b.bullets) && Appended(a.bullets, b.bullets) && fresh(b.bullets[|a.bullets|]) &&
      b.bullets[|a.bullets|].path == Line(p.0, p.1, t.0, t.1) && b.bullets[|a.bullets|].speed == 5
    case CastAt(t) =>
      b == a.(spells := b.spells) && Appended(a.spells, b.spells) && fresh(b.spells[|a.spells|]) &&
      b.spells[|a.spells|].x == t.0 * CELL_SIZE + CELL_SIZE / 2 && b.spells[|a.spells|].y == t.1 * CELL_SIZE + CELL_SIZE / 2 &&
      b.spells[|a.spells|].radius == 2 * CELL_SIZE
    case PlaceAt(t) =>
      b == a.(mines := PlaceMine(t.0, t.1, a.mines))
    case Loose(d) =>
      b == a.(arrows := b.arrows) && Appended(a.arrows, b.arrows) && fresh(b.arrows[|a.arrows|]) &&
      (b.arrows[|a.arrows|].dx, b.arrows[|a.arrows|].dy) == d &&
      b.arrows[|a.arrows|].speed == 3 && b.arrows[|a.arrows|].rangeLimit == 15
    case Fire =>
      b == a.(lasers := b.lasers) && Appended(a.lasers, b.lasers) && fresh(b.lasers[|a.lasers|]) &&
      b.lasers[|a.lasers|].paths == Beams(p, 4)
    case _ => b == a
  }

  /** How many things the arena holds. */
  function Size(a: Arena): nat
  {
    |a.bullets| + |a.arrows| + |a.spells| + |a.lasers| + |a.mines|
  }

  /**
   * The shot, the spell, the mine, the arrow and the laser each add exactly one thing to the
   * arena; the sword, a step and anything else add nothing.
   */
  twostate lemma AddsOne(act: Action, p: Cell, a: Arena, new b: Arena)
    requires Adds(act, p, a, b)
    ensures Size(b) == Size(a) + (if act.ShootAt? || act.CastAt? || act.PlaceAt? || act.Loose? || act.Fire? then 1 else 0)
  {
    match act
    case ShootAt(_) => assert b.arrows == a.arrows && b.spells == a.spells && b.lasers == a.lasers && b.mines == a.mines;
    case CastAt(_) => assert b.bullets == a.bullets && b.arrows == a.arrows && b.lasers == a.lasers && b.mines == a.mines;
    case PlaceAt(_) => assert b.bullets == a.bullets && b.arrows == a.arrows && b.spells == a.spells && b.lasers == a.lasers;
    case Loose(_) => assert b.bullets == a.bullets && b.spells == a.spells && b.lasers == a.lasers && b.mines == a.mines;
    case Fire => assert b.bullets == a.bullets && b.arrows == a.arrows && b.spells == a.spells && b.mines == a.mines;
    case _ =>
  }

  /** Each object of the arena is in its list once. */
  predicate ArenaDistinct(a: Arena)
  {
    Distinct(a.bullets) && Distinct(a.arrows) && Distinct(a.spells) && Distinct(a.lasers)
  }

  /** Every object in b's lists was already in a's or has just been made. */
  twostate predicate OnlyNew(a: Arena, new b: Arena)
  {
    (forall o :: o in b.bullets ==> o in a.bullets || fresh(o)) &&
    (forall o :: o in b.arrows ==> o in a.arrows || fresh(o)) &&
    (forall o :: o in b.spells ==> o in a.spells || fresh(o)) &&
    (forall o :: o in b.lasers ==> o in a.lasers || fresh(o))
  }

  /** One new element at the end keeps a list free of repeats. */
  lemma AppendedDistinct<T>(s: seq<T>, r: seq<T>)
    requires Appended(s, r) && Distinct(s) && r[|s|] !in s
    ensures Distinct(r)
  {
    forall x, y | 0 <= x < y < |r| ensures r[x] != r[y] {
      if y < |s| {
        assert r[x] == s[x] && r[y] == s[y];
      } else {
        assert r[x] == s[x];
      }
    }
  }

  // ---------------------------------------------------------------------------
  // The handlers
  // ---------------------------------------------------------------------------

  /**
   * A key press: the space bar strikes with the sword, any key with the bow goes to the bow, L
   * fires the laser and adds its effect; every other key is a step. The key's action, as
   * PressAction names it, is carried out on the board and in the arena.
   */
  method HandleKeyPress(key: Key, player: Character, enemies: seq<Character>, arena: Arena)
    returns (arena': Arena, acted: bool)
    requires player !in enemies && Distinct(enemies)
    modifies player, enemies
    ensures acted == Acts(PressAction(key, old(player.currentWeapon)))
    ensures FightersOf(player, enemies) == Perform(PressAction(key, old(player.currentWeapon)), old(FightersOf(player, enemies)))
    ensures Adds(PressAction(key, old(player.currentWeapon)), old((player.x, player.y)), arena, arena')
    ensures PressAction(key, old(player.currentWeapon)).Loose? ==>
              arena'.arrows[|arena.arrows|].State() == ArrowState(old(player.x), old(player.y), 0, false, 0)
    ensures PressAction(key, old(player.currentWeapon)).Fire? ==> arena'.lasers[|arena.lasers|].duration == LASER_DURATION
    ensures player.currentWeapon == old(player.currentWeapon)
    ensures old(Distinct(Board(player, enemies))) ==> Distinct(Board(player, enemies))
  {
    ghost var f := FightersOf(player, enemies);
    ghost var a := PressAction(key, player.currentWeapon);
    ghost var p := (player.x, player.y);
    arena' := arena;
    if key == SpaceKey && player.currentWeapon == Sword {
      StrikeWithSword(player, enemies);
      acted := true;
      assert a == Swing;
    } else if player.currentWeapon == Bow {
      var arrows';
      arrows', acted := HandleBow(key, player, arena.arrows);
      arena' := arena.(arrows := arrows');
      assert a == if IsArrowKey(key) then Loose(DirectionFromKey(key).value) else Nothing;
      PerformLeaves(a, f);
      assert Adds(a, p, arena, arena');
    } else if player.currentWeapon == Laser && key == LKey {
      arena' := FireLaserEffect(player, enemies, arena);
      acted := true;
      assert a == Fire;
    } else {
      acted := HandleMovement(key, player, enemies);
      assert a == StepAction(key);
    }
  }

  /** The sword branch of a key press: the strike, as Perform describes a swing. */
  method StrikeWithSword(player: Character, enemies: seq<Character>)
    requires player !in enemies && Distinct(enemies)
    modifies enemies
    ensures FightersOf(player, enemies) == Perform(Swing, old(FightersOf(player, enemies)))
  {
    ghost var f := FightersOf(player, enemies);
    var _ := player.AttackWithSword(enemies);
    SwingPerformed(f, FightersOf(player, enemies));
  }

  /**
   * The laser branch of a key press: the four beams fired from the player, as Perform describes,
   * and one new laser effect along them, appended to the list.
   */
  method FireLaserEffect(player: Character, enemies: seq<Character>, arena: Arena) returns (arena': Arena)
    requires player !in enemies && Distinct(enemies)
    modifies enemies
    ensures FightersOf(player, enemies) == Perform(Fire, old(FightersOf(player, enemies)))
    ensures Adds(Fire, (player.x, player.y), arena, arena') && arena'.lasers[|arena.lasers|].duration == LASER_DURATION
  {
    ghost var f := FightersOf(player, enemies);
    var paths := FireLaser(player, enemies, []);
    FirePerformed(f, FightersOf(player, enemies));
    var effect := new LaserEffect(paths);
    arena' := arena.(lasers := arena.lasers + [effect]);
  }

  /** The three flags of the game loop. */
  datatype Flags = Flags(running: bool, playerTurn: bool, waiting: bool)

  /** The player may act only on their turn and when nothing from the last action is still moving. */
  predicate Open(f: Flags)
  {
    f.playerTurn && !f.waiting
  }

  /**
   * A click: on a weapon button it selects that weapon and is no action; anywhere else it is a
   * click on the board with the current weapon. Its action, as ClickAction names it, is carried
   * out on the board and in the arena.
   */
  method HandleMouseClick(x: int, y: int, button: Option<Weapon>, player: Character, enemies: seq<Character>,
                          arena: Arena, selected: seq<bool>)
    returns (arena': Arena, selected': seq<bool>, acted: bool)
    requires player !in enemies && Distinct(enemies)
    modifies player, enemies
    ensures acted == Acts(ClickAction(x, y, button, old(player.currentWeapon)))
    ensures player.currentWeapon == WeaponAfter(ClickAction(x, y, button, old(player.currentWeapon)), old(player.currentWeapon))
    ensures selected' == if button.Some? then Marks(button.value) else selected
    ensures FightersOf(player, enemies) == Perform(ClickAction(x, y, button, old(player.currentWeapon)), old(FightersOf(player, enemies)))
    ensures Adds(ClickAction(x, y, button, old(player.currentWeapon)), old((player.x, player.y)), arena, arena')
    ensures ClickAction(x, y, button, old(player.currentWeapon)).ShootAt? ==>
              arena'.bullets[|arena.bullets|].State() == BulletState(0, false, 0)
    ensures ClickAction(x, y, button, old(player.currentWeapon)).CastAt? ==> arena'.spells[|arena.spells|].duration == SPELL_DURATION
  {
    if button.Some? {
      selected' := SelectWeapon(button.value, player, WEAPON_BUTTONS);
      arena', acted := arena, false;
    } else {
      var bullets', spells', mines';
      bullets', spells', mines', acted := HandleWeaponClick(player, enemies, arena.bullets, arena.spells, arena.mines, x, y);
      arena' := arena.(bullets := bullets', spells := spells', mines := mines');
      selected' := selected;
    }
  }

  // ---------------------------------------------------------------------------
  // The event loop
  // ---------------------------------------------------------------------------

  /** The action an event stands for at the gate: while the player may not act, none. */
  function GateAction(ev: Event, w: Weapon, f: Flags): Action
  {
    if Open(f) then EventAction(ev, w) else Nothing
  }

  /** What the event loop carries from one event to the next: the weapon held, the button marks, the flags. */
  datatype Input = Input(weapon: Weapon, selected: seq<bool>, flags: Flags)

  /**
   * The loop's state after one more event: Quit stops the game, a button chooses its weapon, and
   * an action ends the player's turn and leaves the game waiting for it to play out.
   */
  function Next(s: Input, ev: Event): Input
  {
    var a := GateAction(ev, s.weapon, s.flags);
    Input(WeaponAfter(a, s.weapon), if a.Choose? then Marks(a.weapon) else s.selected,
          Flags(s.flags.running && !ev.Quit?, s.flags.playerTurn && !Acts(a), s.flags.waiting || Acts(a)))
  }

  /** With an open gate, one event closes it exactly when it acts; with a closed gate only Quit changes anything. */
  lemma GateCloses(s: Input, ev: Event)
    ensures Open(s.flags) ==> (Open(Next(s, ev).flags) <==> !Acts(EventAction(ev, s.weapon)))
    ensures !Open(s.flags) ==> Next(s, ev) == s.(flags := s.flags.(running := s.flags.running && !ev.Quit?))
  {
  }

  /** The loop's state after all of `events`, in order. */
  function Replay(events: seq<Event>, s: Input): Input
  {
    if events == [] then s else Next(Replay(events[..|events| - 1], s), events[|events| - 1])
  }

  /** The action `events` take: the one that passes the open gate, or Nothing. */
  function Taken(events: seq<Event>, s: Input): (a: Action)
    ensures a.Nothing? || Acts(a)
  {
    if events == [] then Nothing
    else
      var n := |events| - 1;
      var r := Replay(events[..n], s);
      var a := GateAction(events[n], r.weapon, r.flags);
      if Acts(a) then a else Taken(events[..n], s)
  }

  /**
   * A frame takes at most one action: an open gate stays open exactly until an event acts, and a
   * closed gate stays closed, with the weapon and the marks as they were and no action taken.
   */
  lemma {:induction false} ReplayGate(events: seq<Event>, s: Input)
    ensures Open(s.flags) ==> (Open(Replay(events, s).flags) <==> Taken(events, s).Nothing?)
    ensures !Open(s.flags) ==>
              Taken(events, s) == Nothing && Replay(events, s).weapon == s.weapon && Replay(events, s).selected == s.selected &&
              Replay(events, s).flags.playerTurn == s.flags.playerTurn && Replay(events, s).flags.waiting == s.flags.waiting
  {
    if events != [] {
      var n := |events| - 1;
      ReplayGate(events[..n], s);
    }
  }

  /** Only Quit stops the event loop's game, wherever it comes. */
  lemma {:induction false} ReplayRunning(events: seq<Event>, s: Input)
    ensures Replay(events, s).flags.running == (s.flags.running && forall k :: 0 <= k < |events| ==> !events[k].Quit?)
  {
    if events != [] {
      var n := |events| - 1;
      ReplayRunning(events[..n], s);
      assert forall k :: 0 <= k < n ==> events[..n][k] == events[k];
    }
  }

  /** One more event: the replay takes one step, and an action is taken only if none was before. */
  lemma TakenStep(events: seq<Event>, s: Input, i: nat)
    requires i < |events|
    ensures Replay(events[..i + 1], s) == Next(Replay(events[..i], s), events[i])
    ensures var r := Replay(events[..i], s);
            var a := GateAction(events[i], r.weapon, r.flags);
            Taken(events[..i + 1], s) == (if Acts(a) then a else Taken(events[..i], s)) &&
            (Acts(a) ==> Taken(events[..i], s) == Nothing)
  {
    assert events[..i + 1][..i] == events[..i];
    ReplayGate(events[..i], s);
  }

  /**
   * One event of the queue: Quit stops the game; while the player may act, a button chooses its
   * weapon and an action is carried out, ends the player's turn and marks the game as waiting
   * for it to play out. Outside the player's turn nothing but Quit has any effect.
   */
  method HandleEvent(ev: Event, player: Character, enemies: seq<Character>, arena: Arena, selected: seq<bool>, flags: Flags)
    returns (arena': Arena, selected': seq<bool>, flags': Flags)
    requires Distinct(Board(player, enemies))
    modifies player, enemies
    ensures Input(player.currentWeapon, selected', flags') == Next(Input(old(player.currentWeapon), selected, flags), ev)
    ensures FightersOf(player, enemies) == Perform(GateAction(ev, old(player.currentWeapon), flags), old(FightersOf(player, enemies)))
    ensures Adds(GateAction(ev, old(player.currentWeapon), flags), old((player.x, player.y)), arena, arena')
    ensures Distinct(Board(player, enemies))
  {
    ApartIsDistinct(player, enemies);
    ghost var a := GateAction(ev, player.currentWeapon, flags);
    arena', selected', flags' := arena, selected, flags;
    if ev.Quit? {
      flags' := flags'.(running := false);
    }
    if Open(flags) {
      var acted := false;
      if ev.Click? {
        assert a == ClickAction(ev.x, ev.y, ev.button, player.currentWeapon);
        arena', selected', acted := HandleMouseClick(ev.x, ev.y, ev.button, player, enemies, arena, selected);
      } else if ev.KeyDown? {
        assert a == PressAction(ev.key, player.currentWeapon);
        arena', acted := HandleKeyPress(ev.key, player, enemies, arena);
      } else {
        assert a == Nothing;
      }
      if acted {
        flags' := flags'.(playerTurn := false, waiting := true);
      }
    } else {
      assert a == Nothing;
    }
  }

  /**
   * One frame's event queue, in order. The weapon, the marks and the flags follow Replay; the
   * board and the arena show the one action Taken, if any.
   */
  method HandleEvents(events: seq<Event>, player: Character, enemies: seq<Character>, arena: Arena,
                      selected: seq<bool>, flags: Flags)
    returns (arena': Arena, selected': seq<bool>, flags': Flags)
    requires Distinct(Board(player, enemies))
    modifies player, enemies
    ensures Input(player.currentWeapon, selected', flags') == Replay(events, Input(old(player.currentWeapon), selected, flags))
    ensures FightersOf(player, enemies) == Perform(Taken(events, Input(old(player.currentWeapon), selected, flags)), old(FightersOf(player, enemies)))
    ensures Adds(Taken(events, Input(old(player.currentWeapon), selected, flags)), old((player.x, player.y)), arena, arena')
    ensures Distinct(Board(player, enemies))
    ensures OnlyNew(arena, arena') && (ArenaDistinct(arena) ==> ArenaDistinct(arena'))
  {
    ghost var s := Input(player.currentWeapon, selected, flags);
    ghost var f := FightersOf(player, enemies);
    arena', selected', flags' := arena, selected, flags;
    var i := 0;
    while i < |events|
      invariant i <= |events|
      invariant Input(player.currentWeapon, selected', flags') == Replay(events[..i], s)
      invariant FightersOf(player, enemies) == Perform(Taken(events[..i], s), f)
      invariant Adds(Taken(events[..i], s), f.at, arena, arena')
      invariant Distinct(Board(player, enemies))
    {
      TakenStep(events, s, i);
      ghost var r := Replay(events[..i], s);
      ghost var a := GateAction(events[i], r.weapon, r.flags);
      ghost var g := FightersOf(player, enemies);
      if Acts(a) {
        PerformLeaves(Nothing, f);
      }
      arena', selected', flags' := HandleEvent(events[i], player, enemies, arena', selected', flags');
      if !Acts(a) {
        PerformLeaves(a, g);
      }
      i := i + 1;
    }
    assert events[..|events|] == events;
    if ArenaDistinct(arena) {
      match Taken(events, s)
      case ShootAt(_) => AppendedDistinct(arena.bullets, arena'.bullets);
      case CastAt(_) => AppendedDistinct(arena.spells, arena'.spells);
      case Loose(_) => AppendedDistinct(arena.arrows, arena'.arrows);
      case Fire => AppendedDistinct(arena.lasers, arena'.lasers);
      case _ =>
    }
  }

  /** Everybody on a cell of their own, said character by character. */
  ghost predicate Apart(player: Character, enemies: seq<Character>)
    reads player, enemies
  {
    Distinct(enemies) && player !in enemies &&
    (forall e :: e in enemies ==> (e.x, e.y) != (player.x, player.y)) &&
    (forall e, f :: e in enemies && f in enemies && e != f ==> (e.x, e.y) != (f.x, f.y))
  }

  /** The two ways of saying that everybody stands on a cell of their own agree. */
  lemma BoardApart(player: Character, enemies: seq<Character>)
    ensures Distinct(Board(player, enemies)) <==> Apart(player, enemies)
  {
    var b := Board(player, enemies);
    if Distinct(b) {
      ApartIsDistinct(player, enemies);
      forall e | e in enemies ensures (e.x, e.y) != (player.x, player.y) {
        var k :| 0 <= k < |enemies| && enemies[k] == e;
        assert b[k + 1] == (e.x, e.y) && b[0] == (player.x, player.y);
      }
      forall e, f | e in enemies && f in enemies && e != f ensures (e.x, e.y) != (f.x, f.y) {
        var k :| 0 <= k < |enemies| && enemies[k] == e;
        var l :| 0 <= l < |enemies| && enemies[l] == f;
        assert b[k + 1] == (e.x, e.y) && b[l + 1] == (f.x, f.y);
      }
    }
    if Apart(player, enemies) {
      forall x, y | 0 <= x < y < |b| ensures b[x] != b[y] {
        assert enemies[y - 1] in enemies;
        if x > 0 {
          assert enemies[x - 1] in enemies && enemies[x - 1] != enemies[y - 1];
        }
      }
    }
  }

  /** Dropping the dead enemies keeps everybody left on cells of their own. */
  lemma SurvivorsKeepApart(player: Character, enemies: seq<Character>)
    requires Distinct(Board(player, enemies))
    ensures Distinct(Board(player, RemoveDeadCharacters(enemies)))
  {
    BoardApart(player, enemies);
    RemoveDeadDistinct(enemies);
    BoardApart(player, RemoveDeadCharacters(enemies));
  }

  /** Which members of each of the arena's lists a frame has finished with. */
  datatype Done = Done(bullets: seq<bool>, arrows: seq<bool>, spells: seq<bool>, lasers: seq<bool>)

  /**
   * Each of b's lists is a's without the members `done` marks, and `done` marks exactly the
   * bullets and arrows that have finished and the effects that have run out.
   */
  ghost predicate ArenaPruned(a: Arena, b: Arena, done: Done)
    reads a.bullets, a.arrows, a.spells, a.lasers
  {
    BulletsPruned(a.bullets, b.bullets, done.bullets) && ArrowsPruned(a.arrows, b.arrows, done.arrows) &&
    SpellsPruned(a.spells, b.spells, done.spells) && LasersPruned(a.lasers, b.lasers, done.lasers)
  }

  /**
   * The frame update of a pass of the game loop: everything in flight advances, mines go off,
   * the dead are removed. Each list keeps exactly its unfinished members, each enemy loses its
   * frame damage and nobody moves; only the living enemies are left.
   */
  method Refresh(player: Character, enemies: seq<Character>, arena: Arena)
    returns (enemies': seq<Character>, arena': Arena, waiting: bool,
             ghost done: Done,
             ghost frameHealth: seq<int>)
    requires Distinct(Board(player, enemies)) && ArenaDistinct(arena)
    modifies enemies, arena.bullets, arena.arrows, arena.spells, arena.lasers
    ensures ArenaPruned(arena, arena', done)
    ensures multiset(arena'.mines) == multiset(MinesAfter(arena.mines, old(Cells(enemies))))
    ensures |frameHealth| == |enemies| &&
            forall k :: 0 <= k < |enemies| ==>
              enemies[k].health == frameHealth[k] == old(enemies[k].health) -
                FrameDamage(arena.bullets, old(BulletStates(arena.bullets)), arena.arrows, old(ArrowStates(arena.arrows)),
                            arena.mines, old(Cells(enemies)), k)
    ensures Cells(enemies) == old(Cells(enemies))
    ensures enemies' == RemoveDeadCharacters(enemies) == Kept(enemies, Fallen(frameHealth))
    ensures forall k :: 0 <= k < |enemies| ==> (enemies[k] in enemies' <==> frameHealth[k] > 0)
    ensures waiting <==> arena'.bullets != [] || arena'.arrows != [] || arena'.spells != [] || arena'.lasers != []
  {
    ApartIsDistinct(player, enemies);
    var bullets, arrows, spells, lasers, mines;
    ghost var doneBullets, doneArrows, doneSpells, doneLasers;
    bullets, arrows, spells, lasers, mines, enemies', waiting, doneBullets, doneArrows, doneSpells, doneLasers :=
      UpdateGameState(arena.bullets, arena.arrows, arena.spells, arena.lasers, arena.mines, enemies);
    arena' := Arena(bullets, arrows, spells, lasers, mines);
    done := Done(doneBullets, doneArrows, doneSpells, doneLasers);
    frameHealth := Healths(enemies);
    RemoveDeadIsKept(enemies, frameHealth);
    KeptExactly(enemies, Fallen(frameHealth));
  }

  /**
   * The frame update as the rest of the pass relies on it: Refresh's lists, mines and frame
   * healths, with the survivors living members of the old list standing where they stood, the
   * board still free of shared cells and every list free of repeats.
   */
  method Settle(player: Character, enemies: seq<Character>, arena: Arena)
    returns (enemies': seq<Character>, arena': Arena, waiting: bool,
             ghost done: Done,
             ghost frameHealth: seq<int>)
    requires Distinct(Board(player, enemies)) && ArenaDistinct(arena)
    modifies enemies, arena.bullets, arena.arrows, arena.spells, arena.lasers
    ensures ArenaPruned(arena, arena', done)
    ensures multiset(arena'.mines) == multiset(MinesAfter(arena.mines, old(Cells(enemies))))
    ensures |frameHealth| == |enemies| &&
            forall k :: 0 <= k < |enemies| ==>
              enemies[k].health == frameHealth[k] == old(enemies[k].health) -
                FrameDamage(arena.bullets, old(BulletStates(arena.bullets)), arena.arrows, old(ArrowStates(arena.arrows)),
                            arena.mines, old(Cells(enemies)), k)
    ensures enemies' == Kept(enemies, Fallen(frameHealth))
    ensures forall k :: 0 <= k < |enemies| ==> (enemies[k] in enemies' <==> frameHealth[k] > 0)
    ensures waiting <==> arena'.bullets != [] || arena'.arrows != [] || arena'.spells != [] || arena'.lasers != []
    ensures forall j :: 0 <= j < |enemies'| ==> enemies'[j] in enemies && enemies'[j].health > 0
    ensures Cells(enemies') == old(Cells(enemies'))
    ensures Distinct(Board(player, enemies')) && ArenaDistinct(arena') && unchanged(player)
  {
    ApartIsDistinct(player, enemies);
    ghost var board := Board(player, enemies);
    enemies', arena', waiting, done, frameHealth := Refresh(player, enemies, arena);
    KeptDistinct(arena.bullets, done.bullets);
    KeptDistinct(arena.arrows, done.arrows);
    KeptDistinct(arena.spells, done.spells);
    KeptDistinct(arena.lasers, done.lasers);
    assert Board(player, enemies) == board;
    SurvivorsKeepApart(player, enemies);
    SurvivorsStay(enemies, enemies');
  }

  /** Characters drawn from a list whose cells have not changed stand where they stood. */
  twostate lemma SurvivorsStay(enemies: seq<Character>, new survivors: seq<Character>)
    requires Cells(enemies) == old(Cells(enemies))
    requires forall j :: 0 <= j < |survivors| ==> survivors[j] in enemies
    ensures Cells(survivors) == old(Cells(survivors))
  {
    forall j | 0 <= j < |survivors| ensures Cells(survivors)[j] == old(Cells(survivors))[j] {
      var k :| 0 <= k < |enemies| && enemies[k] == survivors[j];
      assert Cells(enemies)[k] == old(Cells(enemies))[k];
    }
  }

  /**
   * When nothing is in flight and the player has had the turn, the enemies answer and the turn
   * goes back to the player; otherwise nobody moves, nobody is hurt and the turn stays as it
   * was. Answering costs health only through bumps, so nobody's health rises; this is said of
   * `all`, any list holding the enemies but not the player, such as the enemies before the
   * frame's dead were removed. The answer touches no bullet, arrow or effect, so what the frame
   * has just pruned (`before` to `after`) stays as it was.
   */
  method EnemiesAnswer(player: Character, enemies: seq<Character>, playerTurn: bool, waiting: bool,
                       ghost all: seq<Character>, ghost before: Arena, ghost after: Arena, ghost done: Done)
    returns (playerTurn': bool)
    requires Distinct(Board(player, enemies))
    requires (forall j :: 0 <= j < |enemies| ==> enemies[j] in all) && player !in all
    requires ArenaPruned(before, after, done)
    ensures ArenaPruned(before, after, done)
    modifies player, enemies
    ensures playerTurn' == (playerTurn || !waiting)
    ensures (player.x, player.y) == old((player.x, player.y)) && player.currentWeapon == old(player.currentWeapon)
    ensures Cells(enemies) == if !playerTurn && !waiting
                              then EnemyTurn(old(Cells(enemies)), old((player.x, player.y)), |enemies|)
                              else old(Cells(enemies))
    ensures player.health <= old(player.health) && forall k :: 0 <= k < |all| ==> all[k].health <= old(all[k].health)
    ensures playerTurn || waiting ==>
              player.health == old(player.health) && forall k :: 0 <= k < |all| ==> all[k].health == old(all[k].health)
    ensures Distinct(Board(player, enemies))
  {
    playerTurn' := playerTurn;
    if !waiting && !playerTurn {
      HandleEnemiesTurn(enemies, player);
      playerTurn' := true;
    }
  }

  /**
   * The part of a pass of the game loop after the events: refresh the frame and, when nothing
   * is in flight after the player has acted, let the enemies answer and give the turn back;
   * stop when the player is dead or no enemy is left. The lists keep exactly their unfinished
   * members, and the enemies left are those the frame left alive; only the enemies' answer moves
   * anybody or costs the player health.
   */
  method AfterInput(player: Character, enemies: seq<Character>, arena: Arena, flags: Flags)
    returns (enemies': seq<Character>, arena': Arena, flags': Flags,
             ghost done: Done,
             ghost frameHealth: seq<int>)
    requires Distinct(Board(player, enemies)) && ArenaDistinct(arena)
    modifies player, enemies, arena.bullets, arena.arrows, arena.spells, arena.lasers
    ensures ArenaPruned(arena, arena', done)
    ensures multiset(arena'.mines) == multiset(MinesAfter(arena.mines, old(Cells(enemies))))
    ensures |frameHealth| == |enemies| &&
            forall k :: 0 <= k < |enemies| ==>
              frameHealth[k] == old(enemies[k].health) -
                FrameDamage(arena.bullets, old(BulletStates(arena.bullets)), arena.arrows, old(ArrowStates(arena.arrows)),
                            arena.mines, old(Cells(enemies)), k)
    ensures enemies' == Kept(enemies, Fallen(frameHealth))
    ensures forall k :: 0 <= k < |enemies| ==> (enemies[k] in enemies' <==> frameHealth[k] > 0)
    ensures flags'.waiting <==> arena'.bullets != [] || arena'.arrows != [] || arena'.spells != [] || arena'.lasers != []
    ensures flags'.playerTurn == (flags.playerTurn || !flags'.waiting)
    ensures flags'.running == (flags.running && player.health > 0 && enemies' != [])
    ensures (player.x, player.y) == old((player.x, player.y)) && player.currentWeapon == old(player.currentWeapon)
    ensures Cells(enemies') == if !flags.playerTurn && !flags'.waiting
                               then EnemyTurn(old(Cells(enemies')), old((player.x, player.y)), |enemies'|)
                               else old(Cells(enemies'))
    ensures player.health <= old(player.health) && forall k :: 0 <= k < |enemies| ==> enemies[k].health <= frameHealth[k]
    ensures flags.playerTurn || flags'.waiting ==>
              player.health == old(player.health) && forall k :: 0 <= k < |enemies| ==> enemies[k].health == frameHealth[k]
    ensures Distinct(Board(player, enemies')) && ArenaDistinct(arena')
  {
    ApartIsDistinct(player, enemies);
    var waiting;
    enemies', arena', waiting, done, frameHealth := Settle(player, enemies, arena);
    var playerTurn := EnemiesAnswer(player, enemies', flags.playerTurn, waiting, enemies, arena, arena', done);
    var running := flags.running;
    if player.health <= 0 || |enemies'| == 0 {
      running := false;
    }
    flags' := Flags(running, playerTurn, waiting);
  }

  /**
   * One pass of the game loop: handle the frame's events, then advance the world. The weapon,
   * the marks and the player's cell are those the events leave. The game stops exactly on Quit, when the player is dead or when
   * no enemy is left, and it never stalls: after every pass it is the player's turn or something
   * is still in flight.
   */
  method Tick(events: seq<Event>, player: Character, enemies: seq<Character>, arena: Arena,
              selected: seq<bool>, flags: Flags)
    returns (enemies': seq<Character>, arena': Arena, selected': seq<bool>, flags': Flags)
    requires Distinct(Board(player, enemies)) && ArenaDistinct(arena)
    modifies player, enemies, arena.bullets, arena.arrows, arena.spells, arena.lasers
    ensures var r := Replay(events, Input(old(player.currentWeapon), selected, flags));
            player.currentWeapon == r.weapon && selected' == r.selected &&
            flags'.playerTurn == (r.flags.playerTurn || !flags'.waiting)
    ensures flags'.running == (flags.running && (forall k :: 0 <= k < |events| ==> !events[k].Quit?) &&
                               player.health > 0 && enemies' != [])
    ensures flags'.waiting <==> arena'.bullets != [] || arena'.arrows != [] || arena'.spells != [] || arena'.lasers != []
    ensures flags'.playerTurn || flags'.waiting
    ensures (player.x, player.y) == Perform(Taken(events, Input(old(player.currentWeapon), selected, flags)),
                                            old(FightersOf(player, enemies))).at
    ensures forall e :: e in enemies' ==> e in enemies
    ensures Distinct(Board(player, enemies')) && ArenaDistinct(arena')
  {
    ghost var s := Input(player.currentWeapon, selected, flags);
    var afterEvents, handledFlags;
    afterEvents, selected', handledFlags := HandleEvents(events, player, enemies, arena, selected, flags);
    ReplayRunning(events, s);
    ghost var done, frameHealth;
    enemies', arena', flags', done, frameHealth := AfterInput(player, enemies, afterEvents, handledFlags);
    KeptFrom(enemies, Fallen(frameHealth));
  }
}
