/** Visual count-downs left behind by a spell or a laser; they carry no game logic besides their timer. */
module Effects {
  import opened Settings

  /** How many updates each kind of effect stays on screen by default. */
  const SPELL_DURATION: int := 30
  const LASER_DURATION: int := 10

  /** The circle drawn where a spell landed (pixel centre and pixel radius). */
  class SpellEffect {
    const x: int
    const y: int
    const radius: int
    var duration: int

    constructor (x: int, y: int, radius: int, duration: int := SPELL_DURATION)
      ensures this.x == x && this.y == y && this.radius == radius && this.duration == duration
    {
      this.x := x;
      this.y := y;
      this.radius := radius;
      this.duration := duration;
    }

    /** One tick of the count-down; position and radius stay as they are. */
    method Update()
      modifies this
      ensures duration == old(duration) - 1
    {
      duration := duration - 1;
    }

    predicate IsFinished()
      reads this
    {
      Expired(duration)
    }
  }

  /** The four laser rays drawn after a laser shot. */
  class LaserEffect {
    const paths: seq<seq<Cell>>
    var duration: int

    constructor (paths: seq<seq<Cell>>, duration: int := LASER_DURATION)
      ensures this.paths == paths && this.duration == duration
    {
      this.paths := paths;
      this.duration := duration;
    }

    /** One tick of the count-down; the paths stay as they are. */
    method Update()
      modifies this
      ensures duration == old(duration) - 1
    {
      duration := duration - 1;
    }

    predicate IsFinished()
      reads this
    {
      Expired(duration)
    }
  }

  /** An effect is finished once its count-down is at or below zero. */
  predicate Expired(duration: int)
  {
    duration <= 0
  }

  /** The duration left after n updates, each of which takes one off. */
  function AfterUpdates(duration: int, n: nat): int
  {
    if n == 0 then duration else AfterUpdates(duration, n - 1) - 1
  }

  /** n updates lower the duration by exactly n. */
  lemma {:induction false} AfterUpdatesLowers(duration: int, n: nat)
    ensures AfterUpdates(duration, n) == duration - n
  {
    if n > 0 {
      AfterUpdatesLowers(duration, n - 1);
    }
  }

  /** An effect that starts with a positive duration d is finished after exactly d updates, not before. */
  lemma FinishedAfterExactly(d: int, n: nat)
    requires d > 0
    ensures Expired(AfterUpdates(d, n)) <==> n >= d
  {
    AfterUpdatesLowers(d, n);
  }

  /** A spell effect with the default duration is finished after 30 updates and not before. */
  lemma SpellEffectLifetime(n: nat)
    ensures Expired(AfterUpdates(SPELL_DURATION, n)) <==> n >= 30
  {
    FinishedAfterExactly(SPELL_DURATION, n);
  }

  /** A laser effect with the default duration is finished after 10 updates and not before. */
  lemma LaserEffectLifetime(n: nat)
    ensures Expired(AfterUpdates(LASER_DURATION, n)) <==> n >= 10
  {
    FinishedAfterExactly(LASER_DURATION, n);
  }
}
