/** One run of `checkGameState` as a function of the game state it starts from: the end
    checks, the hero's move, the collisions and the purge, each a function on `State`. */
module GameTick {
  import opened Objects
  import opened Messages
  import opened Scene

  /** The part of the game state a tick reads or writes: the object list, the hero, the
      lives, the score, the messages delivered so far and the three game flags. */
  datatype State = State(gameObjects: seq<Entry>, hero: GameObject, life: int, points: int,
                         published: seq<Message>, start: bool, end: bool, loopRunning: bool)

  /** What the end-of-game handlers do to the flags. */
  function Over(s: State, m: Message): State
  {
    s.(published := s.published + [m], end := true, start := false, loopRunning := false)
  }

  /** Steps 1 and 2: a dead hero loses the game; otherwise no monster left wins it. */
  function EndCheck(s: State): State
  {
    if s.hero.dead then Over(s, GameEndLoss)
    else if |MonstersOf(s.gameObjects)| == 0 then Over(s, GameEndWin)
    else s
  }

  /** The hero after step 3: moved by its horizontal speed. */
  function MovedHero(s: State, speedX: int): GameObject
  {
    s.hero.(x := s.hero.x + speedX)
  }

  /** Step 3: the hero moves by its horizontal speed. */
  function Move(s: State, speedX: int): State
  {
    s.(hero := MovedHero(s, speedX))
  }

  /** Steps 4 to 6: the ramp, the laser handlers and the hero-hit handlers. The handlers
      find the pairs and the hitters of the list the tick began with. */
  function AfterCollisions(s: State): State
  {
    var g := s.gameObjects;
    var ms := MonstersOf(g);
    var hits := Hits(g, LasersOf(g), ms);
    var hs := HeroHitters(g, ms, s.hero);
    var lost := 1 <= s.life <= |hs|;
    State(Collided(g, s.hero, s.life), s.hero.(dead := s.hero.dead || lost),
          s.life - |hs|, s.points + 100 * |hits|,
          s.published + Repeat(CollisionMonsterLaser, |hits|) + HeroTrace(s.life, |hs|),
          if lost then false else s.start, lost || s.end, if lost then false else s.loopRunning)
  }

  /** Step 7: every dead object, and the hero if it is dead, leaves the list. */
  function Purge(s: State): State
  {
    s.(gameObjects := Purged(s.gameObjects, s.hero.dead))
  }

  /** `checkGameState` with the hero's horizontal speed `speedX`. */
  function Tick(s: State, speedX: int): State
  {
    Purge(AfterCollisions(Move(EndCheck(s), speedX)))
  }

  /** Step 4: every monster gets speed `v`. */
  function RampPhase(s: State, v: int): State
  {
    s.(gameObjects := Ramped(s.gameObjects, v))
  }

  /** COLLISION_MONSTER_LASER for laser l and monster m: both dead (the laser first), 100
      points, and an explosion appended at the monster's place. */
  function LaserHit(s: State, l: nat, m: nat): State
    requires l < |s.gameObjects| && m < |s.gameObjects|
    requires s.gameObjects[l].Item? && s.gameObjects[m].Item?
  {
    var g := s.gameObjects[l := Killed(s.gameObjects[l])];
    s.(gameObjects := g[m := Killed(g[m])] + [ExplosionOver(s.gameObjects[m].obj)],
       points := s.points + 100, published := s.published + [CollisionMonsterLaser])
  }

  /** The state after the laser handlers for the pairs `done`, in order. */
  function LaserStateAfter(s: State, done: seq<(nat, nat)>): State
    requires PairRefs(s.gameObjects, done)
  {
    s.(gameObjects := AfterLaserHits(s.gameObjects, done), points := s.points + 100 * |done|,
       published := s.published + Repeat(CollisionMonsterLaser, |done|))
  }

  /** Step 5: the laser handlers for the pairs `lasers` x `ms` whose boxes intersect. */
  function LaserPhase(s: State, lasers: seq<nat>, ms: seq<nat>): State
    requires Refs(s.gameObjects, lasers) && Refs(s.gameObjects, ms)
  {
    LaserStateAfter(s, Hits(s.gameObjects, lasers, ms))
  }

  lemma LaserStateAfterNone(s: State)
    ensures LaserStateAfter(s, []) == s
  {
    assert Mark(s.gameObjects, Touched([])) == s.gameObjects;
    assert s.published + Repeat(CollisionMonsterLaser, 0) == s.published;
  }

  /** Handling one more pair is handling the longer list of pairs. */
  lemma LaserHitAfter(s: State, done: seq<(nat, nat)>, l: nat, m: nat)
    requires PairRefs(s.gameObjects, done)
    requires l < |s.gameObjects| && m < |s.gameObjects|
    requires s.gameObjects[l].Item? && s.gameObjects[m].Item?
    ensures PairRefs(s.gameObjects, done + [(l, m)])
    ensures LaserHit(LaserStateAfter(s, done), l, m) == LaserStateAfter(s, done + [(l, m)])
  {
    var cur := LaserStateAfter(s, done);
    LaserHitStep(s.gameObjects, done, l, m, cur.gameObjects);
    RepeatSnoc(CollisionMonsterLaser, |done|);
    assert s.published + Repeat(CollisionMonsterLaser, |done|) + [CollisionMonsterLaser] == s.published + (Repeat(CollisionMonsterLaser, |done|) + [CollisionMonsterLaser]);
  }

  /** COLLISION_MONSTER_HERO for monster m: one life less; at exactly 0 lives the hero is
      dead, the game is lost and an explosion is appended at the hero's place; then the
      monster is dead and an explosion is appended at its place. */
  function HeroHit(s: State, m: nat): State
    requires m < |s.gameObjects| && s.gameObjects[m].Item?
  {
    var life := s.life - 1;
    var dies := life == 0;
    var g := s.gameObjects;
    s.(gameObjects := g[m := Killed(g[m])] + (if dies then [ExplosionOver(s.hero)] else [])
                        + [ExplosionOver(g[m].obj)],
       hero := s.hero.(dead := s.hero.dead || dies), life := life,
       published := s.published + HitMessages(life),
       start := if dies then false else s.start, end := dies || s.end,
       loopRunning := if dies then false else s.loopRunning)
  }

  /** The state after the hero-hit handlers for the monsters `hs`, in order: the lives pass
      through 0 exactly when 1 <= life <= |hs|, and only that hit ends the game. */
  function HeroStateAfter(s: State, hs: seq<nat>): State
    requires Refs(s.gameObjects, hs)
  {
    var lost := 1 <= s.life <= |hs|;
    s.(gameObjects := AfterHeroHits(s.gameObjects, hs, s.life, s.hero),
       hero := s.hero.(dead := s.hero.dead || lost), life := s.life - |hs|,
       published := s.published + HeroTrace(s.life, |hs|),
       start := if lost then false else s.start, end := lost || s.end,
       loopRunning := if lost then false else s.loopRunning)
  }

  /** Step 6: the hero-hit handlers for the monsters of `ms` whose boxes intersect the hero. */
  function HeroPhase(s: State, ms: seq<nat>): State
    requires Refs(s.gameObjects, ms)
  {
    HeroStateAfter(s, HeroHitters(s.gameObjects, ms, s.hero))
  }

  lemma HeroStateAfterNone(s: State)
    ensures HeroStateAfter(s, []) == s
  {
    assert Mark(s.gameObjects, Elements([])) == s.gameObjects;
    assert s.published + HeroTrace(s.life, 0) == s.published;
  }

  /** Handling one more hitter is handling the longer list of hitters. */
  lemma HeroHitAfter(s: State, hs: seq<nat>, m: nat)
    requires Refs(s.gameObjects, hs) && m < |s.gameObjects| && s.gameObjects[m].Item?
    ensures Refs(s.gameObjects, hs + [m])
    ensures HeroHit(HeroStateAfter(s, hs), m) == HeroStateAfter(s, hs + [m])
  {
    var cur := HeroStateAfter(s, hs);
    HeroHitStep(s.gameObjects, hs, s.life, s.hero, cur.hero, m, cur.gameObjects, cur.life - 1);
    assert s.published + HeroTrace(s.life, |hs|) + HitMessages(s.life - |hs| - 1) == s.published + (HeroTrace(s.life, |hs|) + HitMessages(s.life - |hs| - 1));
    assert HeroTrace(s.life, |hs + [m]|) == HeroTrace(s.life, |hs|) + HitMessages(s.life - |hs| - 1);
  }

  /** The three collision steps one after the other, on the lists each step leaves, are
      `AfterCollisions`. */
  lemma CollisionsInSteps(s: State, ms: seq<nat>, s1: State, lasers: seq<nat>, s2: State, t: State)
    requires ms == MonstersOf(s.gameObjects) && s1 == RampPhase(s, RampSpeed(|ms|))
    requires lasers == LasersOf(s1.gameObjects) && Refs(s1.gameObjects, ms)
    requires s2 == LaserPhase(s1, lasers, ms) && Refs(s2.gameObjects, ms)
    requires t == HeroPhase(s2, ms)
    ensures t == AfterCollisions(s)
  {
    CollidedInSteps(s.gameObjects, ms, s1.gameObjects, lasers, s2.gameObjects, s.hero, s.life, t.gameObjects);
  }

  /** The four steps one after the other are `Tick`. */
  lemma TickInSteps(s: State, speedX: int, s1: State, s2: State, s3: State, t: State)
    requires s1 == EndCheck(s) && s2 == Move(s1, speedX) && s3 == AfterCollisions(s2)
    requires t == Purge(s3)
    ensures t == Tick(s, speedX)
  {
  }

  // ---------------------------------------------------------------- what one tick does

  /** What steps 1 to 3 leave for the collision step: the same list and lives, the moved
      hero, and the end message if any. */
  lemma BeforeCollisions(s: State, speedX: int)
    ensures var s2 := Move(EndCheck(s), speedX);
      var over := s.hero.dead || |MonstersOf(s.gameObjects)| == 0;
      && s2.gameObjects == s.gameObjects && s2.hero == MovedHero(s, speedX)
      && s2.life == s.life && s2.points == s.points
      && s2.published == s.published + EndMessages(s)
      && (s2.end <==> s.end || over) && (s2.start <==> s.start && !over)
      && (s2.loopRunning <==> s.loopRunning && !over)
  {
  }

  /** The message steps 1 and 2 publish. */
  function EndMessages(s: State): seq<Message>
  {
    if s.hero.dead then [GameEndLoss] else if |MonstersOf(s.gameObjects)| == 0 then [GameEndWin] else []
  }

  /** What the collision step does to everything but the list. */
  lemma CollisionFields(s: State)
    ensures var g := s.gameObjects;
      var ms := MonstersOf(g);
      var n := |HeroHitters(g, ms, s.hero)|;
      var lost := 1 <= s.life <= n;
      var c := AfterCollisions(s);
      && c.life == s.life - n && c.points == s.points + 100 * |Hits(g, LasersOf(g), ms)|
      && c.published == s.published + Repeat(CollisionMonsterLaser, |Hits(g, LasersOf(g), ms)|)
                        + HeroTrace(s.life, n)
      && c.hero == s.hero.(dead := s.hero.dead || lost)
      && (c.end <==> s.end || lost) && (c.start <==> s.start && !lost)
      && (c.loopRunning <==> s.loopRunning && !lost)
  {
  }

  /** Everything but the list is the same after the purge as after the collisions. */
  lemma TickIsPurge(s: State, speedX: int, c: State)
    requires c == AfterCollisions(Move(EndCheck(s), speedX))
    ensures Tick(s, speedX) == c.(gameObjects := Purged(c.gameObjects, c.hero.dead))
  {
  }

  /** The score: 100 points for every (laser, monster) pair of the list the tick began with
      whose boxes intersect. A pair counts exactly when it is one, and no pair counts twice:
      the pairs come in the order of the nested loops. */
  lemma TickScore(s: State, speedX: int, l: nat, m: nat)
    ensures var g := s.gameObjects;
      var hits := Hits(g, LasersOf(g), MonstersOf(g));
      && Tick(s, speedX).points == s.points + 100 * |hits|
      && (forall a, b :: 0 <= a < b < |hits| ==> PairBefore(hits[a], hits[b]) && hits[a] != hits[b])
      && ((l, m) in hits <==>
          l in LasersOf(g) && m in MonstersOf(g) && l < |g| && m < |g| && Collide(g[l].obj, g[m].obj))
  {
    var g := s.gameObjects;
    HitsMembership(g, LasersOf(g), MonstersOf(g), l, m);
    HitsInLoopOrder(g, LasersOf(g), MonstersOf(g));
    BeforeCollisions(s, speedX);
    var s2 := Move(EndCheck(s), speedX);
    CollisionFields(s2);
    TickIsPurge(s, speedX, AfterCollisions(s2));
  }

  /** One laser over two monsters scores twice in the same tick. */
  lemma LaserScoresTwice(s: State, speedX: int, l: nat, m1: nat, m2: nat)
    requires var g := s.gameObjects;
      && l in LasersOf(g) && m1 in MonstersOf(g) && m2 in MonstersOf(g) && m1 != m2
      && l < |g| && m1 < |g| && m2 < |g|
      && Collide(g[l].obj, g[m1].obj) && Collide(g[l].obj, g[m2].obj)
    ensures Tick(s, speedX).points >= s.points + 200
  {
    var g := s.gameObjects;
    HitsMembership(g, LasersOf(g), MonstersOf(g), l, m1);
    HitsMembership(g, LasersOf(g), MonstersOf(g), l, m2);
    TwoPairs(Hits(g, LasersOf(g), MonstersOf(g)), (l, m1), (l, m2));
    TickScore(s, speedX, l, m1);
  }

  /** A list holding two different pairs has at least two entries. */
  lemma TwoPairs(hits: seq<(nat, nat)>, p: (nat, nat), q: (nat, nat))
    requires p in hits && q in hits && p != q
    ensures |hits| >= 2
  {
    var i :| 0 <= i < |hits| && hits[i] == p;
    var j :| 0 <= j < |hits| && hits[j] == q;
    assert i != j;
  }

  /** The lives and the game flags: one life less for every monster whose box intersects the
      moved hero, and a monster counts exactly when it does, once (the hitters come in
      ascending list order). The hero is dead exactly when it already was or the lives
      passed through 0. The game is over, with the start flag and the loop off, exactly
      when it already was, when the hero was dead at the start, when no monster was listed,
      or when the lives passed through 0. */
  lemma TickHeroHits(s: State, speedX: int, m: nat)
    ensures var g := s.gameObjects;
      var ms := MonstersOf(g);
      var hs := HeroHitters(g, ms, MovedHero(s, speedX));
      var t := Tick(s, speedX);
      var over := s.hero.dead || |ms| == 0 || 1 <= s.life <= |hs|;
      && t.life == s.life - |hs| && Ascending(hs)
      && (m in hs <==> m in ms && Collide(g[m].obj, MovedHero(s, speedX)))
      && t.hero == MovedHero(s, speedX).(dead := s.hero.dead || 1 <= s.life <= |hs|)
      && (t.end <==> s.end || over)
      && (t.start <==> s.start && !over)
      && (t.loopRunning <==> s.loopRunning && !over)
  {
    var g := s.gameObjects;
    var ms := MonstersOf(g);
    var h := MovedHero(s, speedX);
    HeroHittersAscending(g, ms, h);
    BeforeCollisions(s, speedX);
    var s2 := Move(EndCheck(s), speedX);
    CollisionFields(s2);
    TickIsPurge(s, speedX, AfterCollisions(s2));
    if m in ms && Collide(g[m].obj, h) {
      HeroHittersComplete(g, ms, h, m);
    }
  }

  /** Both objects of every handled pair are dead after the collisions, and the purge then
      removes them. */
  lemma TickPairsRemoved(s: State, speedX: int, l: nat, m: nat)
    requires (l, m) in Hits(s.gameObjects, LasersOf(s.gameObjects), MonstersOf(s.gameObjects))
    ensures var c := AfterCollisions(Move(EndCheck(s), speedX)).gameObjects;
      && l < |c| && c[l].Item? && c[l].obj.dead && c[l] !in Tick(s, speedX).gameObjects
      && m < |c| && c[m].Item? && c[m].obj.dead && c[m] !in Tick(s, speedX).gameObjects
  {
    var c := CollidedAfterSteps(s, speedX);
    PairsDie(s.gameObjects, MovedHero(s, speedX), s.life, l, m);
    TickPurges(s, speedX, c[l]);
    TickPurges(s, speedX, c[m]);
  }

  /** Every monster that hits the moved hero is dead after the collisions, and the purge
      then removes it. */
  lemma TickHittersRemoved(s: State, speedX: int, m: nat)
    requires m in HeroHitters(s.gameObjects, MonstersOf(s.gameObjects), MovedHero(s, speedX))
    ensures var c := AfterCollisions(Move(EndCheck(s), speedX)).gameObjects;
      m < |c| && c[m].Item? && c[m].obj.dead && c[m] !in Tick(s, speedX).gameObjects
  {
    var c := CollidedAfterSteps(s, speedX);
    HittersDie(s.gameObjects, MovedHero(s, speedX), s.life, m);
    TickPurges(s, speedX, c[m]);
  }

  /** The list the collision step of a tick leaves, as `Collided` of the list the tick
      began with. */
  lemma CollidedAfterSteps(s: State, speedX: int) returns (c: seq<Entry>)
    ensures c == AfterCollisions(Move(EndCheck(s), speedX)).gameObjects
    ensures c == Collided(s.gameObjects, MovedHero(s, speedX), s.life)
  {
    BeforeCollisions(s, speedX);
    c := AfterCollisions(Move(EndCheck(s), speedX)).gameObjects;
  }

  /** The quirk of the zero test: two monsters on the hero's last life leave -1 lives. */
  lemma LastLifeTwice(s: State, speedX: int)
    requires s.life == 1
    requires |HeroHitters(s.gameObjects, MonstersOf(s.gameObjects), MovedHero(s, speedX))| == 2
    ensures Tick(s, speedX).life == -1 && Tick(s, speedX).hero.dead && Tick(s, speedX).end
  {
    TickHeroHits(s, speedX, 0);
  }

  /** The messages one tick publishes: the end message of steps 1 and 2, one
      COLLISION_MONSTER_LASER per pair, one COLLISION_MONSTER_HERO per hitter, and
      GAME_END_LOSS right after the hit that leaves 0 lives. */
  lemma TickMessages(s: State, speedX: int)
    ensures var g := s.gameObjects;
      var ms := MonstersOf(g);
      var hits := Hits(g, LasersOf(g), ms);
      var n := |HeroHitters(g, ms, MovedHero(s, speedX))|;
      Tick(s, speedX).published
        == s.published
           + EndMessages(s)
           + Repeat(CollisionMonsterLaser, |hits|)
           + (if 1 <= s.life <= n
              then Repeat(CollisionMonsterHero, s.life) + [GameEndLoss]
                   + Repeat(CollisionMonsterHero, n - s.life)
              else Repeat(CollisionMonsterHero, n))
  {
    var g := s.gameObjects;
    TickTrace(s, speedX);
    HeroTraceClosed(s.life, |HeroHitters(g, MonstersOf(g), MovedHero(s, speedX))|);
  }

  /** TickMessages with the hero-hit messages still given by `HeroTrace`. */
  lemma TickTrace(s: State, speedX: int)
    ensures var g := s.gameObjects;
      var ms := MonstersOf(g);
      Tick(s, speedX).published
        == s.published + EndMessages(s) + Repeat(CollisionMonsterLaser, |Hits(g, LasersOf(g), ms)|)
           + HeroTrace(s.life, |HeroHitters(g, ms, MovedHero(s, speedX))|)
  {
    BeforeCollisions(s, speedX);
    var s2 := Move(EndCheck(s), speedX);
    CollisionFields(s2);
    TickIsPurge(s, speedX, AfterCollisions(s2));
  }

  /** After a tick every monster left has the speed the ramp gave it, computed from the
      number of monsters the tick began with. */
  lemma TickSpeeds(s: State, speedX: int)
    ensures MonstersAtSpeed(Tick(s, speedX).gameObjects, RampSpeed(|MonstersOf(s.gameObjects)|))
  {
    BeforeCollisions(s, speedX);
    var c := AfterCollisions(Move(EndCheck(s), speedX));
    TickIsPurge(s, speedX, c);
    CollidedSpeeds(s.gameObjects, MovedHero(s, speedX), s.life);
    PurgedKeepsSpeeds(c.gameObjects, c.hero.dead, RampSpeed(|MonstersOf(s.gameObjects)|));
  }

  /** After a tick nothing dead is left, the hero entry is gone exactly when the hero is dead,
      and every live entry of the list before the purge stays, as often as it occurred. */
  lemma TickPurges(s: State, speedX: int, e: Entry)
    ensures var c := AfterCollisions(Move(EndCheck(s), speedX));
      var t := Tick(s, speedX);
      && (forall i :: 0 <= i < |t.gameObjects| ==> Alive(t.gameObjects[i], t.hero.dead))
      && multiset(t.gameObjects)[e] == if Alive(e, t.hero.dead) then multiset(c.gameObjects)[e] else 0
  {
    var c := AfterCollisions(Move(EndCheck(s), speedX));
    PurgedCounts(c.gameObjects, c.hero.dead, e);
    var t := Tick(s, speedX);
    forall i | 0 <= i < |t.gameObjects|
      ensures Alive(t.gameObjects[i], t.hero.dead)
    {
      assert t.gameObjects[i] in t.gameObjects;
    }
  }
}
