/**
 * One frame of the world: every bullet and arrow takes its tick and hits the enemies in its way,
 * every effect counts down, the mines are checked, the dead are removed, and the frame reports
 * whether anything is still in flight.
 */
module Updates {
  import opened Settings
  import opened Lists
  import opened Characters
  import opened Weapons
  import opened Effects
  import opened Utils

  // ---------------------------------------------------------------------------
  // Bullets
  // ---------------------------------------------------------------------------

  /** The state of each bullet, in list order. */
  ghost function BulletStates(bs: seq<Bullet>): (r: seq<BulletState>)
    reads bs
    ensures |r| == |bs| && forall j :: 0 <= j < |bs| ==> r[j] == bs[j].State()
  {
    seq(|bs|, j requires 0 <= j < |bs| reads bs => bs[j].State())
  }

  /** Whether each bullet has finished, in list order. */
  ghost function BulletsFinished(bs: seq<Bullet>): (r: seq<bool>)
    reads bs
    ensures |r| == |bs| && forall j :: 0 <= j < |bs| ==> r[j] == bs[j].finished
  {
    seq(|bs|, j requires 0 <= j < |bs| reads bs => bs[j].finished)
  }

  /** How many of the bullets, one update each from `states` among enemies on `cells`, hit enemy k. */
  function BulletHits(bs: seq<Bullet>, states: seq<BulletState>, cells: seq<Cell>, k: nat): nat
    requires |states| == |bs|
  {
    if bs == [] then 0
    else
      var n := |bs| - 1;
      BulletHits(bs[..n], states[..n], cells, k) + (if BulletTick(bs[n].path, bs[n].speed, states[n], cells).1 == k then 1 else 0)
  }

  /** Extending the bullets by one adds that bullet's hit, if it has one, to every enemy's count. */
  lemma BulletHitsStep(bs: seq<Bullet>, states: seq<BulletState>, cells: seq<Cell>, i: nat)
    requires i < |bs| == |states|
    ensures forall k: nat :: BulletHits(bs[..i + 1], states[..i + 1], cells, k) ==
              BulletHits(bs[..i], states[..i], cells, k) + (if BulletTick(bs[i].path, bs[i].speed, states[i], cells).1 == k then 1 else 0)
  {
    assert bs[..i + 1][..i] == bs[..i] && states[..i + 1][..i] == states[..i];
  }

  /** The first i bullets have taken their tick from `states` among enemies on `cells`; the rest still hold `states`. */
  ghost predicate BulletsTicked(bullets: seq<Bullet>, states: seq<BulletState>, cells: seq<Cell>, i: nat)
    reads bullets
  {
    |states| == |bullets| && i <= |bullets| &&
    forall j :: 0 <= j < |bullets| ==>
      bullets[j].State() == if j < i then BulletTick(bullets[j].path, bullets[j].speed, states[j], cells).0 else states[j]
  }

  /** Each enemy has lost, from `health`, 2 for every hit made by the first i bullets. */
  ghost predicate HitByBullets(enemies: seq<Character>, health: seq<int>, bullets: seq<Bullet>, states: seq<BulletState>, cells: seq<Cell>, i: nat)
    reads enemies
  {
    |health| == |enemies| && |states| == |bullets| && i <= |bullets| &&
    forall k :: 0 <= k < |enemies| ==> enemies[k].health == health[k] - 2 * BulletHits(bullets[..i], states[..i], cells, k)
  }

  /** `drop` records, for each of the first i bullets, whether it has finished. */
  ghost predicate BulletFlags(bullets: seq<Bullet>, drop: seq<bool>, i: nat)
    reads bullets
  {
    |drop| == i <= |bullets| && forall j :: 0 <= j < i ==> drop[j] == bullets[j].finished
  }

  lemma BulletFlagsAreFinished(bullets: seq<Bullet>, drop: seq<bool>)
    requires BulletFlags(bullets, drop, |bullets|)
    ensures drop == BulletsFinished(bullets)
  {
  }

  /** The health of each enemy, in list order. */
  ghost function Healths(cs: seq<Character>): (r: seq<int>)
    reads cs
    ensures |r| == |cs| && forall j :: 0 <= j < |cs| ==> r[j] == cs[j].health
  {
    seq(|cs|, j requires 0 <= j < |cs| reads cs => cs[j].health)
  }

  /** Bullet i takes its tick: the bullets and the enemies move from their state at i to their state at i + 1. */
  method TickBullet(bullets: seq<Bullet>, i: nat, enemies: seq<Character>,
                    ghost states: seq<BulletState>, ghost cells: seq<Cell>, ghost health: seq<int>, ghost drop: seq<bool>)
    returns (done: bool)
    requires i < |bullets| && Distinct(bullets) && Distinct(enemies) && Cells(enemies) == cells
    requires BulletsTicked(bullets, states, cells, i) && HitByBullets(enemies, health, bullets, states, cells, i)
    requires BulletFlags(bullets, drop, i)
    modifies bullets[i], enemies
    ensures BulletsTicked(bullets, states, cells, i + 1) && HitByBullets(enemies, health, bullets, states, cells, i + 1)
    ensures BulletFlags(bullets, drop + [done], i + 1)
    ensures Cells(enemies) == cells
  {
    var b := bullets[i];
    b.Update(enemies);
    forall j | 0 <= j < |bullets| && j != i
      ensures bullets[j].State() == old(bullets[j].State())
    {
      assert bullets[j] != b;
    }
    BulletHitsStep(bullets, states, cells, i);
    done := b.IsFinished();
  }

  /**
   * The state of a pass over the bullets after the first i of them: those have taken their tick
   * (from `states`, among enemies on `cells`), the enemies have lost their hits from `health`,
   * `drop` records which of them finished and `live` has lost exactly those.
   */
  ghost predicate BulletPass(bullets: seq<Bullet>, enemies: seq<Character>, live: seq<Bullet>,
                             states: seq<BulletState>, cells: seq<Cell>, health: seq<int>, drop: seq<bool>, i: nat)
    reads bullets, enemies
  {
    BulletsTicked(bullets, states, cells, i) && HitByBullets(enemies, health, bullets, states, cells, i) &&
    BulletFlags(bullets, drop, i) && live == Kept(bullets[..i], drop) + bullets[i..] && Cells(enemies) == cells
  }

  /** Bullet i takes its tick and leaves the list if that finished it. */
  method StepBullet(bullets: seq<Bullet>, i: nat, enemies: seq<Character>, live: seq<Bullet>,
                    ghost states: seq<BulletState>, ghost cells: seq<Cell>, ghost health: seq<int>, ghost drop: seq<bool>)
    returns (live': seq<Bullet>, ghost drop': seq<bool>)
    requires i < |bullets| && Distinct(bullets) && Distinct(enemies)
    requires BulletPass(bullets, enemies, live, states, cells, health, drop, i)
    modifies bullets[i], enemies
    ensures BulletPass(bullets, enemies, live', states, cells, health, drop', i + 1)
  {
    var done := TickBullet(bullets, i, enemies, states, cells, health, drop);
    assert bullets[i] !in bullets[..i];
    live' := RemoveIfFlagged(bullets, drop, i, live, done);
    drop' := drop + [done];
  }

  /** A pass over all the bullets leaves exactly the unfinished ones in the list. */
  lemma BulletPassDone(bullets: seq<Bullet>, enemies: seq<Character>, live: seq<Bullet>,
                       states: seq<BulletState>, cells: seq<Cell>, health: seq<int>, drop: seq<bool>)
    requires Distinct(bullets)
    requires BulletPass(bullets, enemies, live, states, cells, health, drop, |bullets|)
    ensures live == Kept(bullets, BulletsFinished(bullets))
    ensures forall j :: 0 <= j < |bullets| ==> (bullets[j] in live <==> !bullets[j].finished)
    ensures forall k :: 0 <= k < |enemies| ==> enemies[k].health == health[k] - 2 * BulletHits(bullets, states, cells, k)
  {
    assert bullets[..|bullets|] == bullets && bullets[|bullets|..] == [] && states[..|bullets|] == states;
    BulletFlagsAreFinished(bullets, drop);
    KeptExactly(bullets, drop);
  }

  /**
   * Update every bullet once, in list order, and drop from the list those that have finished
   * after their update. Each bullet makes exactly one tick, each enemy loses 2 for every bullet
   * that hit it, and the survivors keep their order.
   */
  method UpdateBullets(bullets: seq<Bullet>, enemies: seq<Character>) returns (live: seq<Bullet>)
    requires Distinct(bullets) && Distinct(enemies)
    modifies bullets, enemies
    ensures live == Kept(bullets, BulletsFinished(bullets))
    ensures forall j :: 0 <= j < |bullets| ==> (bullets[j] in live <==> !bullets[j].finished)
    ensures BulletsTicked(bullets, old(BulletStates(bullets)), old(Cells(enemies)), |bullets|)
    ensures forall k :: 0 <= k < |enemies| ==>
              enemies[k].health == old(enemies[k].health) - 2 * BulletHits(bullets, old(BulletStates(bullets)), old(Cells(enemies)), k)
    ensures Cells(enemies) == old(Cells(enemies))
  {
    ghost var cells := Cells(enemies);
    ghost var states := BulletStates(bullets);
    ghost var health := Healths(enemies);
    ghost var drop: seq<bool> := [];
    live := bullets;
    var i := 0;
    while i < |bullets|
      invariant i <= |bullets| && BulletPass(bullets, enemies, live, states, cells, health, drop, i)
    {
      live, drop := StepBullet(bullets, i, enemies, live, states, cells, health, drop);
      i := i + 1;
    }
    BulletPassDone(bullets, enemies, live, states, cells, health, drop);
  }

  // ---------------------------------------------------------------------------
  // Arrows
  // ---------------------------------------------------------------------------

  /** The state of each arrow, in list order. */
  ghost function ArrowStates(arrows: seq<Arrow>): (r: seq<ArrowState>)
    reads arrows
    ensures |r| == |arrows| && forall j :: 0 <= j < |arrows| ==> r[j] == arrows[j].State()
  {
    seq(|arrows|, j requires 0 <= j < |arrows| reads arrows => arrows[j].State())
  }

  /** Whether each arrow has finished, in list order. */
  ghost function ArrowsFinished(arrows: seq<Arrow>): (r: seq<bool>)
    reads arrows
    ensures |r| == |arrows| && forall j :: 0 <= j < |arrows| ==> r[j] == arrows[j].finished
  {
    seq(|arrows|, j requires 0 <= j < |arrows| reads arrows => arrows[j].finished)
  }

  /** Whether arrow `a`, ticking from state `s`, enters cell `c` (and so hits whoever stands there). */
  function ArrowStrike(a: Arrow, s: ArrowState, c: Cell): nat
  {
    var (t, moved) := ArrowTick(a.dx, a.dy, a.speed, a.rangeLimit, s);
    if moved && (t.x, t.y) == c then 1 else 0
  }

  /** How many of the arrows, one tick each from `states`, enter cell `c`. */
  function ArrowHits(arrows: seq<Arrow>, states: seq<ArrowState>, c: Cell): nat
    requires |states| == |arrows|
  {
    if arrows == [] then 0
    else
      var n := |arrows| - 1;
      ArrowHits(arrows[..n], states[..n], c) + ArrowStrike(arrows[n], states[n], c)
  }

  /** Extending the arrows by one adds that arrow's strike to the count of every cell. */
  lemma ArrowHitsStep(arrows: seq<Arrow>, states: seq<ArrowState>, i: nat)
    requires i < |arrows| == |states|
    ensures forall c: Cell :: ArrowHits(arrows[..i + 1], states[..i + 1], c) ==
              ArrowHits(arrows[..i], states[..i], c) + ArrowStrike(arrows[i], states[i], c)
  {
    assert arrows[..i + 1][..i] == arrows[..i] && states[..i + 1][..i] == states[..i];
  }

  /** The first i arrows have taken their tick from `states`; the rest still hold `states`. */
  ghost predicate ArrowsTicked(arrows: seq<Arrow>, states: seq<ArrowState>, i: nat)
    reads arrows
  {
    |states| == |arrows| && i <= |arrows| &&
    forall j :: 0 <= j < |arrows| ==>
      arrows[j].State() == if j < i then ArrowTick(arrows[j].dx, arrows[j].dy, arrows[j].speed, arrows[j].rangeLimit, states[j]).0 else states[j]
  }

  /** Each enemy, standing on its cell in `cells`, has lost from `health` 1 for every one of the first i arrows that entered it. */
  ghost predicate HitByArrows(enemies: seq<Character>, health: seq<int>, cells: seq<Cell>, arrows: seq<Arrow>, states: seq<ArrowState>, i: nat)
    reads enemies
  {
    |health| == |enemies| == |cells| && |states| == |arrows| && i <= |arrows| &&
    forall k :: 0 <= k < |enemies| ==> enemies[k].health == health[k] - ArrowHits(arrows[..i], states[..i], cells[k])
  }

  /** `drop` records, for each of the first i arrows, whether it has finished. */
  ghost predicate ArrowFlags(arrows: seq<Arrow>, drop: seq<bool>, i: nat)
    reads arrows
  {
    |drop| == i <= |arrows| && forall j :: 0 <= j < i ==> drop[j] == arrows[j].finished
  }

  lemma ArrowFlagsAreFinished(arrows: seq<Arrow>, drop: seq<bool>)
    requires ArrowFlags(arrows, drop, |arrows|)
    ensures drop == ArrowsFinished(arrows)
  {
  }

  /** Arrow i takes its tick: the arrows and the enemies move from their state at i to their state at i + 1. */
  method TickArrow(arrows: seq<Arrow>, i: nat, enemies: seq<Character>,
                   ghost states: seq<ArrowState>, ghost cells: seq<Cell>, ghost health: seq<int>, ghost drop: seq<bool>)
    returns (done: bool)
    requires i < |arrows| && Distinct(arrows) && Distinct(enemies) && Cells(enemies) == cells
    requires ArrowsTicked(arrows, states, i) && HitByArrows(enemies, health, cells, arrows, states, i)
    requires ArrowFlags(arrows, drop, i)
    modifies arrows[i], enemies
    ensures ArrowsTicked(arrows, states, i + 1) && HitByArrows(enemies, health, cells, arrows, states, i + 1)
    ensures ArrowFlags(arrows, drop + [done], i + 1)
    ensures Cells(enemies) == cells
  {
    var a := arrows[i];
    a.Update(enemies);
    forall j | 0 <= j < |arrows| && j != i
      ensures arrows[j].State() == old(arrows[j].State())
    {
      assert arrows[j] != a;
    }
    ArrowHitsStep(arrows, states, i);
    done := a.IsFinished();
  }

  /** The state of a pass over the arrows after the first i of them (see BulletPass). */
  ghost predicate ArrowPass(arrows: seq<Arrow>, enemies: seq<Character>, live: seq<Arrow>,
                            states: seq<ArrowState>, cells: seq<Cell>, health: seq<int>, drop: seq<bool>, i: nat)
    reads arrows, enemies
  {
    ArrowsTicked(arrows, states, i) && HitByArrows(enemies, health, cells, arrows, states, i) &&
    ArrowFlags(arrows, drop, i) && live == Kept(arrows[..i], drop) + arrows[i..] && Cells(enemies) == cells
  }

  /** Arrow i takes its tick and leaves the list if that finished it. */
  method StepArrow(arrows: seq<Arrow>, i: nat, enemies: seq<Character>, live: seq<Arrow>,
                   ghost states: seq<ArrowState>, ghost cells: seq<Cell>, ghost health: seq<int>, ghost drop: seq<bool>)
    returns (live': seq<Arrow>, ghost drop': seq<bool>)
    requires i < |arrows| && Distinct(arrows) && Distinct(enemies)
    requires ArrowPass(arrows, enemies, live, states, cells, health, drop, i)
    modifies arrows[i], enemies
    ensures ArrowPass(arrows, enemies, live', states, cells, health, drop', i + 1)
  {
    var done := TickArrow(arrows, i, enemies, states, cells, health, drop);
    assert arrows[i] !in arrows[..i];
    live' := RemoveIfFlagged(arrows, drop, i, live, done);
    drop' := drop + [done];
  }

  /** A pass over all the arrows leaves exactly the unfinished ones in the list. */
  lemma ArrowPassDone(arrows: seq<Arrow>, enemies: seq<Character>, live: seq<Arrow>,
                      states: seq<ArrowState>, cells: seq<Cell>, health: seq<int>, drop: seq<bool>)
    requires Distinct(arrows)
    requires ArrowPass(arrows, enemies, live, states, cells, health, drop, |arrows|)
    ensures live == Kept(arrows, ArrowsFinished(arrows))
    ensures forall j :: 0 <= j < |arrows| ==> (arrows[j] in live <==> !arrows[j].finished)
    ensures forall k :: 0 <= k < |enemies| ==> enemies[k].health == health[k] - ArrowHits(arrows, states, cells[k])
  {
    assert arrows[..|arrows|] == arrows && arrows[|arrows|..] == [] && states[..|arrows|] == states;
    ArrowFlagsAreFinished(arrows, drop);
    KeptExactly(arrows, drop);
  }

  /**
   * Update every arrow once, in list order, and drop from the list those that have finished
   * after their update. Each arrow makes exactly one tick, each enemy loses 1 for every arrow
   * that entered its cell, and the survivors keep their order.
   */
  method UpdateArrows(arrows: seq<Arrow>, enemies: seq<Character>) returns (live: seq<Arrow>)
    requires Distinct(arrows) && Distinct(enemies)
    modifies arrows, enemies
    ensures live == Kept(arrows, ArrowsFinished(arrows))
    ensures forall j :: 0 <= j < |arrows| ==> (arrows[j] in live <==> !arrows[j].finished)
    ensures ArrowsTicked(arrows, old(ArrowStates(arrows)), |arrows|)
    ensures forall k :: 0 <= k < |enemies| ==>
              enemies[k].health == old(enemies[k].health) - ArrowHits(arrows, old(ArrowStates(arrows)), old(Cells(enemies))[k])
    ensures Cells(enemies) == old(Cells(enemies))
  {
    ghost var cells := Cells(enemies);
    ghost var states := ArrowStates(arrows);
    ghost var health := Healths(enemies);
    assert forall k :: 0 <= k < |enemies| ==> health[k] == old(enemies[k].health);
    ghost var drop: seq<bool> := [];
    live := arrows;
    var i := 0;
    while i < |arrows|
      invariant i <= |arrows| && ArrowPass(arrows, enemies, live, states, cells, health, drop, i)
    {
      live, drop := StepArrow(arrows, i, enemies, live, states, cells, health, drop);
      i := i + 1;
    }
    ArrowPassDone(arrows, enemies, live, states, cells, health, drop);
  }

  // ---------------------------------------------------------------------------
  // Spell effects
  // ---------------------------------------------------------------------------

  /** The remaining duration of each spell effect, in list order. */
  ghost function SpellDurations(effects: seq<SpellEffect>): (r: seq<int>)
    reads effects
    ensures |r| == |effects| && forall j :: 0 <= j < |effects| ==> r[j] == effects[j].duration
  {
    seq(|effects|, j requires 0 <= j < |effects| reads effects => effects[j].duration)
  }

  /** Whether each spell effect has run out, in list order. */
  ghost function SpellsExpired(effects: seq<SpellEffect>): (r: seq<bool>)
    reads effects
    ensures |r| == |effects| && forall j :: 0 <= j < |effects| ==> r[j] == Expired(effects[j].duration)
  {
    seq(|effects|, j requires 0 <= j < |effects| reads effects => Expired(effects[j].duration))
  }

  /**
   * The state of a pass over the spell effects after the first i of them: those have counted down
   * once from `durations`, `drop` records which of them ran out and `live` has lost exactly those.
   */
  ghost predicate SpellPass(effects: seq<SpellEffect>, live: seq<SpellEffect>, durations: seq<int>, drop: seq<bool>, i: nat)
    reads effects
  {
    |durations| == |effects| && |drop| == i <= |effects| &&
    (forall j :: 0 <= j < |effects| ==> effects[j].duration == if j < i then durations[j] - 1 else durations[j]) &&
    (forall j :: 0 <= j < i ==> drop[j] == Expired(effects[j].duration)) &&
    live == Kept(effects[..i], drop) + effects[i..]
  }

  /** Spell effect i counts down and leaves the list if it ran out. */
  method StepSpell(effects: seq<SpellEffect>, i: nat, live: seq<SpellEffect>, ghost durations: seq<int>, ghost drop: seq<bool>)
    returns (live': seq<SpellEffect>, ghost drop': seq<bool>)
    requires i < |effects| && Distinct(effects)
    requires SpellPass(effects, live, durations, drop, i)
    modifies effects[i]
    ensures SpellPass(effects, live', durations, drop', i + 1)
  {
    var e := effects[i];
    e.Update();
    forall j | 0 <= j < |effects| && j != i
      ensures effects[j].duration == old(effects[j].duration)
    {
      assert effects[j] != e;
    }
    var done := e.IsFinished();
    assert e !in effects[..i];
    live' := RemoveIfFlagged(effects, drop, i, live, done);
    drop' := drop + [done];
  }

  /** A pass over all the spell effects leaves exactly those that have not run out. */
  lemma SpellPassDone(effects: seq<SpellEffect>, live: seq<SpellEffect>, durations: seq<int>, drop: seq<bool>)
    requires Distinct(effects)
    requires SpellPass(effects, live, durations, drop, |effects|)
    ensures live == Kept(effects, SpellsExpired(effects))
    ensures forall j :: 0 <= j < |effects| ==> (effects[j] in live <==> !Expired(effects[j].duration))
  {
    assert effects[..|effects|] == effects && effects[|effects|..] == [];
    assert drop == SpellsExpired(effects);
    KeptExactly(effects, drop);
  }

  /**
   * Count every spell effect down once, in list order, and drop from the list those that have run
   * out after their update; the survivors keep their order.
   */
  method UpdateSpellEffects(effects: seq<SpellEffect>) returns (live: seq<SpellEffect>)
    requires Distinct(effects)
    modifies effects
    ensures live == Kept(effects, SpellsExpired(effects))
    ensures forall j :: 0 <= j < |effects| ==> (effects[j] in live <==> !Expired(effects[j].duration))
    ensures forall j :: 0 <= j < |effects| ==> effects[j].duration == old(effects[j].duration) - 1
    ensures forall b: Bullet {:trigger allocated(b)} :: old(allocated(b)) ==> unchanged(b)
    ensures forall a: Arrow {:trigger allocated(a)} :: old(allocated(a)) ==> unchanged(a)
    ensures forall c: Character {:trigger allocated(c)} :: old(allocated(c)) ==> unchanged(c)
  {
    ghost var durations := SpellDurations(effects);
    ghost var drop: seq<bool> := [];
    live := effects;
    var i := 0;
    while i < |effects|
      invariant i <= |effects| && SpellPass(effects, live, durations, drop, i)
    {
      live, drop := StepSpell(effects, i, live, durations, drop);
      i := i + 1;
    }
    SpellPassDone(effects, live, durations, drop);
  }

  // ---------------------------------------------------------------------------
  // Laser effects
  // ---------------------------------------------------------------------------

  /** The remaining duration of each laser effect, in list order. */
  ghost function LaserDurations(effects: seq<LaserEffect>): (r: seq<int>)
    reads effects
    ensures |r| == |effects| && forall j :: 0 <= j < |effects| ==> r[j] == effects[j].duration
  {
    seq(|effects|, j requires 0 <= j < |effects| reads effects => effects[j].duration)
  }

  /** Whether each laser effect has run out, in list order. */
  ghost function LasersExpired(effects: seq<LaserEffect>): (r: seq<bool>)
    reads effects
    ensures |r| == |effects| && forall j :: 0 <= j < |effects| ==> r[j] == Expired(effects[j].duration)
  {
    seq(|effects|, j requires 0 <= j < |effects| reads effects => Expired(effects[j].duration))
  }

  /**
   * The state of a pass over the laser effects after the first i of them: those have counted down
   * once from `durations`, `drop` records which of them ran out and `live` has lost exactly those.
   */
  ghost predicate LaserPass(effects: seq<LaserEffect>, live: seq<LaserEffect>, durations: seq<int>, drop: seq<bool>, i: nat)
    reads effects
  {
    |durations| == |effects| && |drop| == i <= |effects| &&
    (forall j :: 0 <= j < |effects| ==> effects[j].duration == if j < i then durations[j] - 1 else durations[j]) &&
    (forall j :: 0 <= j < i ==> drop[j] == Expired(effects[j].duration)) &&
    live == Kept(effects[..i], drop) + effects[i..]
  }

  /** Laser effect i counts down and leaves the list if it ran out. */
  method StepLaser(effects: seq<LaserEffect>, i: nat, live: seq<LaserEffect>, ghost durations: seq<int>, ghost drop: seq<bool>)
    returns (live': seq<LaserEffect>, ghost drop': seq<bool>)
    requires i < |effects| && Distinct(effects)
    requires LaserPass(effects, live, durations, drop, i)
    modifies effects[i]
    ensures LaserPass(effects, live', durations, drop', i + 1)
  {
    var e := effects[i];
    e.Update();
    forall j | 0 <= j < |effects| && j != i
      ensures effects[j].duration == old(effects[j].duration)
    {
      assert effects[j] != e;
    }
    var done := e.IsFinished();
    assert e !in effects[..i];
    live' := RemoveIfFlagged(effects, drop, i, live, done);
    drop' := drop + [done];
  }

  /** A pass over all the laser effects leaves exactly those that have not run out. */
  lemma LaserPassDone(effects: seq<LaserEffect>, live: seq<LaserEffect>, durations: seq<int>, drop: seq<bool>)
    requires Distinct(effects)
    requires LaserPass(effects, live, durations, drop, |effects|)
    ensures live == Kept(effects, LasersExpired(effects))
    ensures forall j :: 0 <= j < |effects| ==> (effects[j] in live <==> !Expired(effects[j].duration))
  {
    assert effects[..|effects|] == effects && effects[|effects|..] == [];
    assert drop == LasersExpired(effects);
    KeptExactly(effects, drop);
  }

  /**
   * Count every laser effect down once, in list order, and drop from the list those that have run
   * out after their update; the survivors keep their order.
   */
  method UpdateLaserEffects(effects: seq<LaserEffect>) returns (live: seq<LaserEffect>)
    requires Distinct(effects)
    modifies effects
    ensures live == Kept(effects, LasersExpired(effects))
    ensures forall j :: 0 <= j < |effects| ==> (effects[j] in live <==> !Expired(effects[j].duration))
    ensures forall j :: 0 <= j < |effects| ==> effects[j].duration == old(effects[j].duration) - 1
    ensures forall b: Bullet {:trigger allocated(b)} :: old(allocated(b)) ==> unchanged(b)
    ensures forall a: Arrow {:trigger allocated(a)} :: old(allocated(a)) ==> unchanged(a)
    ensures forall e: SpellEffect {:trigger allocated(e)} :: old(allocated(e)) ==> unchanged(e)
    ensures forall c: Character {:trigger allocated(c)} :: old(allocated(c)) ==> unchanged(c)
  {
    ghost var durations := LaserDurations(effects);
    ghost var drop: seq<bool> := [];
    live := effects;
    var i := 0;
    while i < |effects|
      invariant i <= |effects| && LaserPass(effects, live, durations, drop, i)
    {
      live, drop := StepLaser(effects, i, live, durations, drop);
      i := i + 1;
    }
    LaserPassDone(effects, live, durations, drop);
  }

  // ---------------------------------------------------------------------------
  // One frame
  // ---------------------------------------------------------------------------

  /** `live` is `bullets` without those `done` marks, and `done` marks exactly the bullets that have finished. */
  ghost predicate BulletsPruned(bullets: seq<Bullet>, live: seq<Bullet>, done: seq<bool>)
    reads bullets
  {
    |done| == |bullets| && live == Kept(bullets, done) &&
    (forall j :: 0 <= j < |bullets| ==> done[j] == bullets[j].finished)
  }

  /** `live` is `arrows` without those `done` marks, and `done` marks exactly the arrows that have finished. */
  ghost predicate ArrowsPruned(arrows: seq<Arrow>, live: seq<Arrow>, done: seq<bool>)
    reads arrows
  {
    |done| == |arrows| && live == Kept(arrows, done) &&
    (forall j :: 0 <= j < |arrows| ==> done[j] == arrows[j].finished)
  }

  /** `live` is `effects` without those `done` marks, and `done` marks exactly the spell effects that have run out. */
  ghost predicate SpellsPruned(effects: seq<SpellEffect>, live: seq<SpellEffect>, done: seq<bool>)
    reads effects
  {
    |done| == |effects| && live == Kept(effects, done) &&
    (forall j :: 0 <= j < |effects| ==> done[j] == Expired(effects[j].duration))
  }

  /** `live` is `effects` without those `done` marks, and `done` marks exactly the laser effects that have run out. */
  ghost predicate LasersPruned(effects: seq<LaserEffect>, live: seq<LaserEffect>, done: seq<bool>)
    reads effects
  {
    |done| == |effects| && live == Kept(effects, done) &&
    (forall j :: 0 <= j < |effects| ==> done[j] == Expired(effects[j].duration))
  }

  /** What enemy k, standing on cells[k], loses to one tick of the bullets and arrows: 2 a bullet hit, 1 an arrow strike. */
  function ProjectileDamage(bullets: seq<Bullet>, bulletStates: seq<BulletState>, arrows: seq<Arrow>, arrowStates: seq<ArrowState>,
                            cells: seq<Cell>, k: nat): int
    requires |bulletStates| == |bullets| && |arrowStates| == |arrows| && k < |cells|
  {
    2 * BulletHits(bullets, bulletStates, cells, k) + ArrowHits(arrows, arrowStates, cells[k])
  }

  /**
   * The projectile half of a frame: the bullets move first, then the arrows, against the same
   * enemies. Each list keeps exactly its members that have not finished; the effects are untouched.
   */
  method AdvanceProjectiles(bullets: seq<Bullet>, arrows: seq<Arrow>, enemies: seq<Character>)
    returns (bullets': seq<Bullet>, arrows': seq<Arrow>, ghost doneBullets: seq<bool>, ghost doneArrows: seq<bool>)
    requires Distinct(bullets) && Distinct(arrows) && Distinct(enemies)
    modifies bullets, arrows, enemies
    ensures BulletsPruned(bullets, bullets', doneBullets) && ArrowsPruned(arrows, arrows', doneArrows)
    ensures BulletsTicked(bullets, old(BulletStates(bullets)), old(Cells(enemies)), |bullets|)
    ensures ArrowsTicked(arrows, old(ArrowStates(arrows)), |arrows|)
    ensures forall k :: 0 <= k < |enemies| ==>
              enemies[k].health == old(enemies[k].health) - ProjectileDamage(bullets, old(BulletStates(bullets)), arrows, old(ArrowStates(arrows)), old(Cells(enemies)), k)
    ensures Cells(enemies) == old(Cells(enemies))
  {
    ghost var bulletStates, arrowStates, cells := BulletStates(bullets), ArrowStates(arrows), Cells(enemies);
    bullets' := UpdateBullets(bullets, enemies);
    doneBullets := BulletsFinished(bullets);
    ghost var health := Healths(enemies);
    arrows' := UpdateArrows(arrows, enemies);
    doneArrows := ArrowsFinished(arrows);
    forall k | 0 <= k < |enemies|
      ensures enemies[k].health == old(enemies[k].health) - ProjectileDamage(bullets, bulletStates, arrows, arrowStates, cells, k)
    {
      assert health[k] == old(enemies[k].health) - 2 * BulletHits(bullets, bulletStates, cells, k);
    }
  }

  /** The effect half of a frame: every spell and laser effect ages by one frame; the expired ones go. */
  method AdvanceEffects(spells: seq<SpellEffect>, lasers: seq<LaserEffect>)
    returns (spells': seq<SpellEffect>, lasers': seq<LaserEffect>, ghost doneSpells: seq<bool>, ghost doneLasers: seq<bool>)
    requires Distinct(spells) && Distinct(lasers)
    modifies spells, lasers
    ensures SpellsPruned(spells, spells', doneSpells) && LasersPruned(lasers, lasers', doneLasers)
    ensures forall j :: 0 <= j < |spells| ==> spells[j].duration == old(spells[j].duration) - 1
    ensures forall j :: 0 <= j < |lasers| ==> lasers[j].duration == old(lasers[j].duration) - 1
    ensures forall b: Bullet {:trigger allocated(b)} :: old(allocated(b)) ==> unchanged(b)
    ensures forall a: Arrow {:trigger allocated(a)} :: old(allocated(a)) ==> unchanged(a)
    ensures forall c: Character {:trigger allocated(c)} :: old(allocated(c)) ==> unchanged(c)
  {
    spells' := UpdateSpellEffects(spells);
    doneSpells := SpellsExpired(spells);
    lasers' := UpdateLaserEffects(lasers);
    doneLasers := LasersExpired(lasers);
  }

  /**
   * The rest of a frame after the projectiles: the effects age, the mines are checked against the
   * enemies' cells, and the dead enemies are dropped. Bullets and arrows are untouched.
   */
  method FinishFrame(spells: seq<SpellEffect>, lasers: seq<LaserEffect>, mines: seq<Mine>, enemies: seq<Character>)
    returns (spells': seq<SpellEffect>, lasers': seq<LaserEffect>, mines': seq<Mine>, enemies': seq<Character>,
             ghost doneSpells: seq<bool>, ghost doneLasers: seq<bool>)
    requires Distinct(spells) && Distinct(lasers) && Distinct(enemies)
    modifies spells, lasers, enemies
    ensures SpellsPruned(spells, spells', doneSpells) && LasersPruned(lasers, lasers', doneLasers)
    ensures forall j :: 0 <= j < |spells| ==> spells[j].duration == old(spells[j].duration) - 1
    ensures forall j :: 0 <= j < |lasers| ==> lasers[j].duration == old(lasers[j].duration) - 1
    ensures multiset(mines') == multiset(MinesAfter(mines, old(Cells(enemies))))
    ensures forall j :: 0 <= j < |enemies| ==>
              enemies[j].health == old(enemies[j].health) - MINE_DAMAGE * ArmedAt(mines, old(Cells(enemies))[j])
    ensures enemies' == RemoveDeadCharacters(enemies) && Cells(enemies) == old(Cells(enemies))
    ensures forall e :: e in enemies' ==> e.health > 0
    ensures forall b: Bullet {:trigger allocated(b)} :: old(allocated(b)) ==> unchanged(b)
    ensures forall a: Arrow {:trigger allocated(a)} :: old(allocated(a)) ==> unchanged(a)
  {
    spells', lasers', doneSpells, doneLasers := AdvanceEffects(spells, lasers);
    mines' := CheckMines(mines, enemies);
    enemies' := RemoveDeadCharacters(enemies);
  }

  /** What enemy k, standing on cells[k], loses in one frame: its projectile damage, then 3 for every armed mine under it. */
  function FrameDamage(bullets: seq<Bullet>, bulletStates: seq<BulletState>, arrows: seq<Arrow>, arrowStates: seq<ArrowState>,
                       mines: seq<Mine>, cells: seq<Cell>, k: nat): int
    requires |bulletStates| == |bullets| && |arrowStates| == |arrows| && k < |cells|
  {
    ProjectileDamage(bullets, bulletStates, arrows, arrowStates, cells, k) + MINE_DAMAGE * ArmedAt(mines, cells[k])
  }

  /**
   * One frame of the world: advance the projectiles, then the effects, check the mines, and keep
   * only the living enemies. Each list keeps exactly its unfinished members, the result says
   * whether any bullet, arrow or effect is still pending (the mines do not count), and no enemy
   * that is left is dead.
   */
  method UpdateGameState(bullets: seq<Bullet>, arrows: seq<Arrow>, spells: seq<SpellEffect>, lasers: seq<LaserEffect>,
                         mines: seq<Mine>, enemies: seq<Character>)
    returns (bullets': seq<Bullet>, arrows': seq<Arrow>, spells': seq<SpellEffect>, lasers': seq<LaserEffect>,
             mines': seq<Mine>, enemies': seq<Character>, waiting: bool,
             ghost doneBullets: seq<bool>, ghost doneArrows: seq<bool>,
             ghost doneSpells: seq<bool>, ghost doneLasers: seq<bool>)
    requires Distinct(bullets) && Distinct(arrows) && Distinct(spells) && Distinct(lasers) && Distinct(enemies)
    modifies bullets, arrows, spells, lasers, enemies
    ensures BulletsPruned(bullets, bullets', doneBullets) && ArrowsPruned(arrows, arrows', doneArrows)
    ensures SpellsPruned(spells, spells', doneSpells) && LasersPruned(lasers, lasers', doneLasers)
    ensures multiset(mines') == multiset(MinesAfter(mines, old(Cells(enemies))))
    ensures forall k :: 0 <= k < |enemies| ==>
              enemies[k].health == old(enemies[k].health) - FrameDamage(bullets, old(BulletStates(bullets)), arrows, old(ArrowStates(arrows)), mines, old(Cells(enemies)), k)
    ensures enemies' == RemoveDeadCharacters(enemies) && Cells(enemies) == old(Cells(enemies))
    ensures forall e :: e in enemies' ==> e.health > 0
    ensures waiting <==> bullets' != [] || arrows' != [] || spells' != [] || lasers' != []
  {
    bullets', arrows', doneBullets, doneArrows := AdvanceProjectiles(bullets, arrows, enemies);
    spells', lasers', mines', enemies', doneSpells, doneLasers := FinishFrame(spells, lasers, mines, enemies);
    waiting := bullets' != [] || arrows' != [] || spells' != [] || lasers' != [];
  }
}
