# Simple Roguelike — a verified model of the rules engine

The game is a turn-based roguelike played on a 30 × 30 grid of 20-pixel cells. A player starts
with 10 health and faces five enemies with 5 health each. On the player's turn one key press or
one click is an action:

- an arrow key steps the player;
- the space bar swings the sword at the first adjacent enemy;
- with the bow, an arrow key shoots an arrow;
- L fires the laser along the player's row and column;
- a click on the board fires a bullet along a Bresenham line, casts a spell of radius 2, or
  places a mine, depending on the weapon chosen with the buttons along the bottom.

Once the action's bullets, arrows and visual effects have played out, frame by frame, every
enemy steps one cell toward the player. Bumping into another character costs both of them 1
health. Dead enemies are removed after every frame. The game ends when the player dies, when
no enemy is left, or on Quit.

The project has one Dafny module per source file:

- `Settings` and `Lists` (`settings.dfy`): the grid constants, and the list facts that the
  game's remove-while-iterating loops rely on.
- `Characters` (`character.dfy`): the `Character` class, with its move, collision and sword
  attack.
- `Weapons` (`weapons.dfy`): the `Bullet` and `Arrow` classes, Bresenham's line, the spell, the
  mines and the laser.
- `Effects` (`effects.dfy`): the `SpellEffect` and `LaserEffect` count-downs.
- `Utils` (`utils.dfy`): removal of dead characters.
- `Updates` (`updates.dfy`): `update_game_state` and its per-list passes, from `main.py`.
- `TurnEngine` (`main.dfy`): the rest of `main.py`, namely the key and click handlers, the
  enemies' turn, the event queue and one pass of the game loop.

How the model is written:

- Characters, bullets, arrows and effects are objects whose fields the game updates in place, so
  they are Dafny classes with `modifies` frames.
- The lists the game mutates are sequences of those objects. Each operation returns the new
  list, because the source removes items by identity while it iterates over a copy.
- Mines are plain records, so they are a datatype.
- Each loop is a method proved against a specification function. Examples: `GetLine` against
  the closed-form `LinePoint`, `Bullet.Update` against `BulletTick`, `FireLaser` against
  `Beams` and `Crossings`, and `HandleEnemiesTurn` against `EnemyTurn`. The properties of the
  game are lemmas about those functions.

## Model

| member | source | states |
|---|---|---|
| Characters.Character.constructor | character.py:9-16 | a new character stands on the given cell, with full health equal to its maximum, and holds the sword |
| Characters.Character.Move | character.py:36-43 | the mover ends on MoveTarget's cell. It bumps at most the first occupant of the target; that occupant and the mover each lose exactly 1. Nobody else's health and no one's cell changes |
| Characters.Character.CheckCollision | character.py:45-53 | a collision happens iff some other character stands on the cell. Then the first such one and the mover each lose 1. Positions are unchanged |
| Characters.Character.AttackWithSword | character.py:59-66 | the enemy hit is SwordTarget's: the first direction (left, right, up, down) holding an enemy, then the first enemy there. It loses 2 and nobody else changes. The result says whether anyone was adjacent. The attacker is never hurt |
| Characters.Character.AttackDirection | character.py:68-77 | the first enemy on the neighbouring cell loses 2 and the result says whether there was one |
| Characters.MoveTarget | character.py:38-43 | off-grid targets and occupied targets leave the mover in place; an occupied target also names the first occupant. A free target is entered. A mover on the grid stays on it, and it never ends on another character's cell |
| Characters.SwordTarget | character.py:59-77 | the struck enemy is adjacent to the attacker; nobody is struck exactly when no enemy is adjacent |
| Characters.SwordScanHits | character.py:61-64 | the scan picks the earliest occupied direction and the first enemy in list order on it |
| Characters.AdjacentIsNeighbour | character.py:61 | two cells share a side iff one is a neighbour of the other in one of the four sword directions |
| Lists.FirstIndex | character.py:47-52 | the first-match search: the index of the first occurrence, and the length exactly when there is none |
| Lists.RemoveFirst | main.py:295 | list.remove takes out the first occurrence and keeps the rest in order: one fewer element, and the multiset loses exactly that one |
| Lists.ExceptAt | main.py:308 | in a list without repeats, "every enemy other than this one" is the list with that position cut out |
| Lists.RemoveIfFlagged | main.py:292-295 | one step of the remove-while-iterating loop keeps the live list equal to the kept prefix followed by the untouched rest |
| Lists.DropStep | main.py:292-295 | removing a flagged item by value takes out the very item the snapshot is at |
| Lists.KeptExactly | main.py:290-302 | after the pass an object of a distinct list remains iff it was not flagged |
| Lists.KeptDistinct | main.py:290-302 | the pass keeps each object at most once |
| Weapons.GetLine | weapons.py:17-44 | Bresenham's line: its length is the longer extent plus one, cell i is LinePoint's closed form, and it starts at the shooter and ends at the target |
| Weapons.LineAlongX | weapons.py:24-33 | the x-major branch produces LinePoint's cells, the doubled error term standing for the float one |
| Weapons.LineAlongY | weapons.py:34-43 | the y-major branch produces LinePoint's cells |
| Weapons.LineEnds | weapons.py:17-44 | the closed-form line starts at (x0, y0) and ends at (x1, y1) |
| Weapons.LineStep | weapons.py:26-32 | consecutive cells of the line differ by 1 on the longer axis and at most 1 on the other, so the path has no gaps |
| Weapons.ErrorTermStep | weapons.py:28-31 | the error-term update keeps the drawn minor coordinate equal to the rounded ideal one |
| Weapons.MinorStepsStep | weapons.py:28-31 | each major step moves the minor axis by 0 or 1 |
| Weapons.Bullet.constructor | weapons.py:10-15 | a new bullet's path is the line from shooter to target, its cursor is at 0, and it is running with a zero frame counter |
| Weapons.Bullet.Update | weapons.py:46-53 | the bullet's state and the enemy it hits are BulletTick's. That enemy loses 2 and the cursor stays on the path |
| Weapons.Bullet.Move | weapons.py:55-64 | the state and hit are BulletMove's: a hit stops the bullet, a free cell advances the cursor, and the end of the path stops it |
| Weapons.Bullet.CheckCollision | weapons.py:66-73 | only the first enemy on the cell loses 2, and the result says whether there was one |
| Weapons.BulletMoveBounds | weapons.py:55-64 | a move keeps the cursor within the path and advances it by at most one |
| Weapons.BulletMoveHit | weapons.py:57-64 | a hit is on the first enemy standing on the current cell and stops the bullet in place. No hit advances the cursor, or past the end stops the bullet |
| Weapons.BulletMovesEverySpeedTicks | weapons.py:46-53 | a running bullet moves exactly once in every `speed` updates, on the last one |
| Weapons.PointBlankBullet | weapons.py:17-64 | a shot at the shooter's own cell has a one-cell path and finishes on its second move |
| Weapons.Arrow.constructor | weapons.py:94-102 | a new arrow stands on the shooter's cell, not yet moved, with its direction, speed and range |
| Weapons.Arrow.Update | weapons.py:104-111 | the arrow's state is ArrowTick's. Every enemy on a cell it enters loses 1 |
| Weapons.Arrow.Move | weapons.py:113-124 | the arrow stops at the end of its range or at the edge of the grid, otherwise steps one cell and hits every enemy there |
| Weapons.Arrow.CheckCollision | weapons.py:126-131 | every enemy on the arrow's cell loses 1, not only the first |
| Weapons.ArrowMoveStaysInBounds | weapons.py:113-124 | a move keeps the arrow on the grid and within its range. It finishes exactly at range or edge; otherwise it is one step in its direction |
| Weapons.ArrowMovesEverySpeedTicks | weapons.py:104-111 | a flying arrow moves exactly once in every `speed` updates, on the last one |
| Weapons.ArrowFlight | weapons.py:113-124 | an arrow shot right from (10, 10) is n cells further after n moves, for n up to its range of 15 |
| Weapons.ArrowRangeExample | weapons.py:113-124 | that arrow crosses exactly 15 cells and finishes on its 16th move |
| Weapons.CastSpell | weapons.py:148-156 | every enemy within Euclidean distance 2 of the target loses 2; nobody else changes |
| Weapons.SpellAreaIsDiamond | weapons.py:153-154 | distance at most 2 is the same as Manhattan distance at most 2: the 13-cell diamond |
| Weapons.StrikeAllAt | weapons.py:197-200 | every enemy on the cell loses the damage; the result says whether one stood there |
| Weapons.PlaceMine | weapons.py:158-162 | the mine list gains one armed mine on the cell at its end, the rest unchanged |
| Weapons.CheckMines | weapons.py:164-174 | the remaining mines are MinesAfter's, as a multiset. Each enemy loses 3 for every armed mine on its cell |
| Weapons.CheckMine | weapons.py:166-174 | handling one record: a spent mine is removed, and an armed one hits its cell and is disarmed iff it hit |
| Weapons.MinesAfterArmedIffClear | weapons.py:166-174 | after a check a mine stays armed iff no enemy stands on it |
| Weapons.MinesAfterKeepsArmed | weapons.py:166-169 | a check keeps one record per armed mine and drops every spent one |
| Weapons.ArmedAtPositive | weapons.py:170-172 | an enemy takes mine damage iff an armed mine lies on its cell |
| Weapons.SecondCheckDropsSpent | weapons.py:164-174 | a second check against the same enemies only drops the mines the first one disarmed |
| Weapons.MinesAfterStaysArmed | weapons.py:164-174 | mines armed exactly on clear cells all stay armed after a check |
| Weapons.FireRay | weapons.py:193-202 | one ray's path is Ray's cells up to the edge of the grid. Each enemy on a covered cell loses 2, and the others nothing |
| Weapons.FireLaser | weapons.py:188-203 | the four rays are appended in the order left, right, up, down. Each enemy loses 2 for every ray crossing its cell |
| Weapons.Beams | weapons.py:191-203 | the laser has exactly four beams, beam d starting next to the player in direction d |
| Weapons.RayCovers | weapons.py:194-202 | a ray covers each grid cell of its half-line and nothing else |
| Weapons.BeamCount | weapons.py:191-202 | beam d covers a grid cell iff that cell lies on the player's row or column on that side |
| Weapons.LaserHitsRowAndColumn | weapons.py:188-203 | an enemy on any cell other than the player's own is struck exactly once if it shares the player's row or column, and otherwise not at all |
| Weapons.LaserExample | weapons.py:188-203 | from (15, 15), an enemy on (20, 15) loses 2 and one on (20, 16) nothing |
| Effects.SpellEffect.constructor | effects.py:9-13 | a new spell effect keeps its centre and radius and starts at 30 |
| Effects.SpellEffect.Update | effects.py:15-17 | each update takes exactly one off the duration |
| Effects.LaserEffect.constructor | effects.py:31-33 | a new laser effect keeps its paths and starts at 10 |
| Effects.LaserEffect.Update | effects.py:35-37 | each update takes exactly one off the duration |
| Effects.AfterUpdatesLowers | effects.py:15-17 | n updates lower the duration by exactly n |
| Effects.FinishedAfterExactly | effects.py:24-26 | an effect with positive duration d is finished after d updates and not before |
| Effects.SpellEffectLifetime | effects.py:9-26 | a spell effect lasts exactly 30 updates |
| Effects.LaserEffectLifetime | effects.py:31-54 | a laser effect lasts exactly 10 updates |
| Utils.RemoveDeadCharacters | utils.py:13-15 | a character survives iff its health is positive, and nothing new appears |
| Utils.RemoveDeadKeepsOrder | utils.py:13-15 | survivors keep their relative order |
| Utils.RemoveDeadIdempotent | utils.py:13-15 | removing the dead twice is the same as once |
| Utils.RemoveDeadNoneDead | utils.py:13-15 | with nobody dead the list comes back unchanged |
| Utils.RemoveDeadDistinct | utils.py:13-15 | a list of distinct characters stays distinct |
| Utils.RemoveDeadIsKept | utils.py:13-15 | removing the dead is Kept with the Fallen flags of the current healths (health at or below zero): the characters with positive health, in their order. Stated this way it holds after later changes to health, and with Lists.KeptExactly a character of a distinct list stays iff its recorded health is positive |
| Updates.UpdateBullets | main.py:290-295 | every bullet ticks exactly once and each enemy loses 2 per bullet hit. The list keeps exactly the unfinished bullets, in order |
| Updates.UpdateArrows | main.py:290-295 | every arrow ticks exactly once and each enemy loses 1 per arrow entering its cell. The list keeps exactly the unfinished arrows, in order |
| Updates.UpdateSpellEffects | main.py:297-302 | every spell effect counts down once; the list keeps exactly those not expired, in order |
| Updates.UpdateLaserEffects | main.py:297-302 | every laser effect counts down once; the list keeps exactly those not expired, in order |
| Updates.AdvanceProjectiles | main.py:278-279 | the bullets, then the arrows, each tick exactly once and keep exactly their unfinished members. Each enemy loses ProjectileDamage: 2 per bullet hit and 1 per arrow strike. Nobody moves |
| Updates.AdvanceEffects | main.py:280-281 | every spell and laser effect loses exactly one frame, and each list keeps exactly its unexpired members. Bullets, arrows and characters are untouched |
| Updates.FinishFrame | main.py:280-283 | the effects lose one frame each and are pruned. The mines are those of MinesAfter, each enemy loses 3 per armed mine on its cell, and the enemies left are exactly the living ones |
| Updates.UpdateGameState | main.py:274-288 | each list keeps exactly its unfinished members. Each enemy loses FrameDamage (its projectile damage plus 3 per armed mine under it) and nobody moves; only living enemies remain. Actions are pending iff a bullet, arrow or effect is left; mines do not count |
| TurnEngine.DirectionFromKey | main.py:242-252 | an arrow key gives one of the four unit directions, and any other key gives none |
| TurnEngine.MovementFromKey | main.py:262-272 | an arrow key gives a unit step and any other key gives (0, 0) |
| TurnEngine.KeysAgree | main.py:242-272 | shooting and stepping read an arrow key as the same direction, and distinct arrow keys differ |
| TurnEngine.EnemyMovement | main.py:311-315 | on each axis the enemy steps one cell toward the player, or none when level. Each step shortens that distance by exactly one |
| TurnEngine.EnemyTurn | main.py:304-309 | the enemies' cells once the first n have moved, one EnemyStep each in list order. The enemies after the first n have not moved |
| TurnEngine.EnemyStep | main.py:306-309 | one enemy's move changes only that enemy's cell, which either stays or is its step toward the player |
| TurnEngine.EnemyStepKeepsApart | main.py:306-309 | one enemy's move never lands on the player or on another enemy |
| TurnEngine.EnemyTurnStaysOrApproaches | main.py:304-309 | after the turn every enemy stayed put or took its step toward the player |
| TurnEngine.ApproachCloser | main.py:311-315 | such a move never takes an enemy further from the player on either axis |
| TurnEngine.EnemyTurnKeepsApart | main.py:304-309 | if everybody stood on distinct cells before the enemies' turn, they still do after it |
| TurnEngine.HandleEnemiesTurn | main.py:304-309 | the enemies' cells become EnemyTurn's and the player does not move. Everybody stays on distinct cells, and nobody's health rises |
| TurnEngine.MoveEnemy | main.py:307-309 | the enemies' turn advances by one enemy while keeping its loop state |
| TurnEngine.SelectWeapon | main.py:143-147 | the player holds the chosen weapon. A button is marked iff it is that weapon's, and with the game's six buttons exactly one is |
| TurnEngine.ButtonIndex | main.py:134 | every weapon has its own button |
| TurnEngine.ClickedCell | main.py:198 | the clicked cell is the one whose pixel square contains the click |
| TurnEngine.HandleWeaponClick | main.py:196-215 | a click acts iff the weapon is the gun, spell or mine. The gun adds a bullet along the line to the clicked cell; the spell hits and adds a 30-frame effect centred on that cell; the mine arms there. The board changes as Perform describes the click |
| TurnEngine.HandleBow | main.py:233-240 | with the bow, a key acts iff it is an arrow key. It then appends an arrow from the player's cell in that direction, with speed 3 and range 15 |
| TurnEngine.HandleMovement | main.py:254-260 | a key acts iff it is an arrow key, even when the step is refused. The player's cell becomes MoveTarget's, and a bump costs the player and the first occupant 1 each, as Perform describes the step. Distinct cells stay distinct |
| TurnEngine.MoveKeepsApart | main.py:254-260 | moving only to a cell nobody holds keeps everybody on distinct cells |
| TurnEngine.KeyActionFor | main.py:217-231 | space with the sword strikes, any key with the bow shoots, L with the laser fires, and anything else is a step |
| TurnEngine.ActsExactly | main.py:187-231 | an event is an action exactly when it is a board click with the gun, spell or mine, or a key that strikes with the sword, fires the laser or is an arrow key |
| TurnEngine.Marks | main.py:143-147 | after a weapon is chosen, a button is marked iff it is that weapon's |
| TurnEngine.Perform | main.py:196-260 | an action moves no enemy; only a step moves the player, and a bump costs the player 1. Each enemy loses what the action deals it |
| TurnEngine.StepPerformed | main.py:254-260 | the step's outcome, as HandleMovement leaves it, is Perform's for that key |
| TurnEngine.SwingPerformed | main.py:219-221 | 2 damage to SwordTarget's enemy and to nobody else is Perform's swing |
| TurnEngine.FirePerformed | main.py:224-226 | 2 damage to each enemy for every beam crossing its cell is Perform's laser shot |
| TurnEngine.ClickPerformed | main.py:198-214 | a click on a cell that damages only the spell's range, and only with the spell, is Perform's board click |
| TurnEngine.PerformLeaves | main.py:199-240 | the gun, the mine, the bow and a button hurt nobody at once and move nobody |
| TurnEngine.Adds | main.py:196-231 | what an action appends to the arena: one new bullet, spell effect, arrow or laser effect with its construction constants, or one armed mine, and nothing else. Every object afterwards was there before or is new |
| TurnEngine.AddsOne | main.py:196-240 | the shot, spell, mine, arrow and laser each add exactly one thing to the arena; the sword and a step add nothing |
| TurnEngine.HandleKeyPress | main.py:217-231 | the key does PressAction's action. It acts iff that is an action; the board changes as Perform and the arena as Adds describe, a new arrow starts unmoved on the player's cell and a new laser effect lasts 10 frames. The weapon is unchanged and cells stay distinct |
| TurnEngine.StrikeWithSword | main.py:219-221 | the sword branch changes the board exactly as Perform describes a swing |
| TurnEngine.FireLaserEffect | main.py:224-229 | the laser branch changes the board as Perform describes a shot and appends one 10-frame effect along the four beams |
| TurnEngine.HandleMouseClick | main.py:187-194 | a click on a button chooses that weapon, marks only its button and is no action. Any other click does its board action: it acts iff that is an action, the board changes as Perform and the arena as Adds describe, a new bullet starts at its path's first cell and a new spell effect lasts 30 frames |
| TurnEngine.GateCloses | main.py:175-184 | at an open gate an event closes it exactly when it acts; at a closed gate only Quit changes anything |
| TurnEngine.Taken | main.py:175-184 | a frame's events take no action or exactly one action |
| TurnEngine.ReplayGate | main.py:175-185 | an open gate stays open exactly when no event acted. A closed gate leaves the weapon, the marks and the turn as they were and takes no action |
| TurnEngine.ReplayRunning | main.py:175-177 | after the events the game is running iff it was and none of them was Quit |
| TurnEngine.TakenStep | main.py:175-184 | one more event advances the loop state by one step, and it takes an action only if none was taken before |
| TurnEngine.HandleEvent | main.py:175-184 | the weapon, marks and flags advance as Next says: Quit stops the game, and at an open gate a button chooses its weapon while an action closes the gate and sets waiting. The board changes as Perform and the arena as Adds describe for the gate's action; cells stay distinct |
| TurnEngine.HandleEvents | main.py:169-185 | the weapon, marks and flags are Replay's over the queue. The board and the arena show the single action Taken, through Perform and Adds; the arena holds only old or new objects and stays free of repeats, and cells stay distinct |
| TurnEngine.BoardApart | main.py:125 | "all cells distinct" is the same as "no two characters share a cell" |
| TurnEngine.SurvivorsKeepApart | main.py:283 | dropping the dead keeps everybody left on distinct cells |
| TurnEngine.Refresh | main.py:95-97 | each list keeps exactly its unfinished members, each enemy's health becomes its frame health (the old one minus FrameDamage) and nobody moves. The mines are MinesAfter's, the enemies left are the living ones, that is the old list Kept without those Fallen by their frame healths, and an enemy stays iff its frame health is positive. Actions are pending iff something is in flight |
| TurnEngine.Settle | main.py:95-97 | Refresh's pruned lists, mines, frame healths and survivors (an enemy stays iff its frame health is positive, in order), and pending iff something is in flight; in addition the survivors are living members of the old list standing where they stood, the player is untouched, cells stay distinct and no list holds a repeat |
| TurnEngine.SurvivorsStay | main.py:283 | enemies kept from a list whose cells did not change stand where they stood |
| TurnEngine.EnemiesAnswer | main.py:98-100 | the enemies' cells become EnemyTurn's exactly when nothing is in flight and the player has acted, and the turn returns then. Otherwise nobody moves or loses health; when they answer nobody's health rises. The player neither moves nor changes weapon, no bullet, arrow or effect changes, and cells stay distinct |
| TurnEngine.AfterInput | main.py:94-102 | each list keeps exactly its unfinished members and the mines are MinesAfter's. The enemies left are the old list, in order, Kept without those Fallen by their frame healths (old health minus FrameDamage): an enemy stays iff its frame health is positive, so one killed in the frame is gone. Pending iff something is in flight; the turn is the player's iff it was or nothing is in flight; the game runs iff it did, the player lives and an enemy remains. The enemies left move by EnemyTurn when they answer and stay put otherwise; without an answer every health is its frame health and the player's is unchanged, with one nobody's rises. The player stays put |
| TurnEngine.Tick | main.py:80-102 | the weapon and the marks are Replay's and the player's cell is the one the taken action leaves. The game runs iff no Quit came, the player lives and an enemy remains, and it never stalls: it is the player's turn or something is in flight. The enemies left come from the old list, cells stay distinct and no list holds a repeat |

## Left out

- Drawing is not modelled: the grid, characters and health bars, bullets, arrows, effects, mines and buttons (`draw*` in every file), and `pygame.display`.
- The tutorial screen (`main.py:15-68`) is not modelled, nor are the clock, `pygame.quit` and `sys.exit`.
- Console messages (`print`) are not modelled.
- The pygame event queue is a parameter: `Tick` takes one frame's events as a sequence.
- A click event carries the weapon button it landed on, if any. The rectangle hit test of `buttons.py` is not part of this model.
- `initialize_characters`, `create_enemies`, `get_random_position` and `create_weapon_buttons` (`main.py:106-141`) use randomness or only draw. The model does not build the starting state; it takes "everybody on distinct cells" as a precondition, which is what `get_random_position` ensures.
- Weapon names are strings in the source and a datatype here. `select_weapon` compares lower-cased button labels with the name; `SelectWeapon` compares weapons.
- The list operations `remove(x)` and "every e with e != enemy" compare by object identity. The model works on lists without repeats, which the game's lists always are, and proves that every operation keeps them so.
- Weapons.CheckMines: states the remaining mines as a multiset, so the order the source leaves them in is not stated.
- TurnEngine.HandleEnemiesTurn: states only that nobody's health rises. The exact bump damage of each move is stated by `Characters.Character.Move`, whose contract this loop keeps step by step.
- Updates.UpdateGameState: does not restate the per-object ticks and effect durations; `AdvanceProjectiles`, `AdvanceEffects` and `FinishFrame` state them.
- TurnEngine.Refresh: does not restate the per-object ticks and effect durations either, for the same reason.
- TurnEngine.Settle: does not restate the per-object ticks and effect durations either.
- TurnEngine.AfterInput: does not restate the per-object ticks and effect durations, nor each bump of the enemies' answer, only that nobody's health rises; `HandleEnemiesTurn` and `Characters.Character.Move` state the bumps.
- TurnEngine.HandleEvent: states what the action appends through `Adds`, which names only what never changes after construction. The new object's starting counters are stated by `HandleKeyPress` and `HandleMouseClick`.
- TurnEngine.HandleEvents: does not restate the new object's starting counters, which `HandleKeyPress` and `HandleMouseClick` state.
- TurnEngine.Tick: does not restate the board and arena changes of the taken action or of the frame update (the pruned lists, the mines, the frame healths and which enemies survive), nor the enemies' moves; `HandleEvents` and `AfterInput` state them, each against the state it starts from.
- The Euclidean distance `math.hypot` is compared as a squared distance, which is exact for integer cells.
- The Bresenham error term, a float (`dx / 2.0`), is doubled into an integer with the same sign at every comparison.
- Floor division `//` on pixel positions is Dafny's `/` with a positive divisor, which agrees with it for every integer position.
- Integers are unbounded, as in Python.

Notes on the code's behaviour:

- The sword always consumes the player's turn (`main.py:219-221`), even when no enemy is adjacent.
- Spell and laser effects count as pending actions, so enemies wait until the effect has faded (`main.py:285-287`). Mines do not count.
- An arrow key with a refused step still ends the player's turn.
- An enemy bumped to 0 health during the enemies' turn stays in the list until the next frame's removal.
- A bullet fired at its own cell finishes on its second move, not its first (`Weapons.PointBlankBullet`).
