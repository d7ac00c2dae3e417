/** The game state of the shooter and everything that changes it: the handlers registered on
    the bus, the timer bodies of lasers, monsters, explosions and the fire cool-down, the
    reset that starts a game, and the tick `checkGameState`. */
module Shooter {
  import opened Objects
  import opened Events
  import opened Messages
  import opened Scene
  import opened GameTick

  class Game {
    /** The canvas size, fixed once the page is loaded. */
    const canvasWidth: int
    const canvasHeight: int
    /** The bus the constructor registers the handlers on. */
    const bus: EventEmitter<Message>

    var points: int
    var life: int
    var end: bool
    var start: bool
    var ready: bool
    var gamePaused: bool
    /** Milliseconds until the next shot; the cooling interval runs while it is above 0. */
    var coolDown: int
    /** The game-loop interval is scheduled (it is cleared by the end-of-game handlers). */
    var loopRunning: bool
    /** The one hero object, also referenced from `gameObjects` by HeroEntry. */
    var hero: GameObject
    var heroSpeed: Velocity
    var gameObjects: seq<Entry>
    /** Every message delivered so far, in delivery order: each handler logs its own. */
    ghost var published: seq<Message>

    /** The state every handler keeps; `Valid` adds that a scheduled loop belongs to a
        running game. */
    ghost predicate Consistent()
      reads this, bus
    {
      && bus.Valid() && bus.registrations == GameRegistrations()
      && hero.kind == Hero && hero.width == 99 && hero.height == 75
      && 0 <= coolDown <= 500 && coolDown % 100 == 0
      && canvasWidth % 2 == 0 && canvasHeight % 4 == 0
    }

    ghost predicate Valid()
      reads this, bus
    {
      Consistent() && (loopRunning ==> ready && !end)
    }

    /** `new Game()` together with the globals it works on. Each handler is registered under
        its message's name, in app.js's order, so that every message has exactly one
        handler: the one the methods below model. The canvas is taken as even in width and
        a multiple of 4 in height, so that the centring and the hero's place are whole. */
    constructor (w: int, h: int)
      requires w % 2 == 0 && h % 4 == 0
      ensures Valid() && fresh(bus)
      ensures canvasWidth == w && canvasHeight == h
      ensures points == 0 && life == 3 && !end && !start && !ready && !gamePaused
      ensures coolDown == 0 && !loopRunning
      ensures hero == NewHero(0, 0) && heroSpeed == Velocity(0, 0)
      ensures gameObjects == [] && published == []
      ensures forall m :: ListenersIn(bus.registrations, Name(m)) == [m]
    {
      canvasWidth := w;
      canvasHeight := h;
      var b := new EventEmitter<Message>();
      var k := 0;
      while k < 15
        invariant 0 <= k <= 15
        invariant b.Valid() && b.registrations == GameRegistrations()[..k]
      {
        var m := MessageAt(k);
        b.On(Name(m), m);
        assert GameRegistrations()[..k + 1] == GameRegistrations()[..k] + [(Name(m), m)];
        k := k + 1;
      }
      assert GameRegistrations()[..15] == GameRegistrations();
      bus := b;
      points := 0;
      life := 3;
      end := false;
      start := false;
      ready := false;
      gamePaused := false;
      coolDown := 0;
      loopRunning := false;
      hero := NewHero(0, 0);
      heroSpeed := Velocity(0, 0);
      gameObjects := [];
      published := [];
      new;
      forall m: Message
        ensures ListenersIn(bus.registrations, Name(m)) == [m]
      {
        EveryMessageHasOneListener(m);
      }
    }

    // -------------------------------------------------------------- handlers

    /** MONSTER_OUT_OF_BOUNDS: the hero is dead (the next tick then ends the game). */
    method OnMonsterOutOfBounds()
      requires Valid()
      modifies this`hero, this`published
      ensures Valid()
      ensures hero == old(hero).(dead := true)
      ensures published == old(published) + [MonsterOutOfBounds]
    {
      published := published + [MonsterOutOfBounds];
      hero := hero.(dead := true);
    }

    /** HERO_MOVING_LEFT: velocity -10 across, unless paused. */
    method OnHeroSpeedLeft()
      requires Valid()
      modifies this`heroSpeed, this`published
      ensures Valid()
      ensures heroSpeed == if old(gamePaused) then old(heroSpeed) else old(heroSpeed).(x := -10)
      ensures published == old(published) + [HeroSpeedLeft]
    {
      published := published + [HeroSpeedLeft];
      if !gamePaused {
        heroSpeed := heroSpeed.(x := -10);
      }
    }

    /** HERO_MOVING_RIGHT: velocity +10 across, unless paused. */
    method OnHeroSpeedRight()
      requires Valid()
      modifies this`heroSpeed, this`published
      ensures Valid()
      ensures heroSpeed == if old(gamePaused) then old(heroSpeed) else old(heroSpeed).(x := 10)
      ensures published == old(published) + [HeroSpeedRight]
    {
      published := published + [HeroSpeedRight];
      if !gamePaused {
        heroSpeed := heroSpeed.(x := 10);
      }
    }

    /** HERO_SPEED_ZERO: the hero stops, unless paused. */
    method OnHeroSpeedZero()
      requires Valid()
      modifies this`heroSpeed, this`published
      ensures Valid()
      ensures heroSpeed == if old(gamePaused) then old(heroSpeed) else Velocity(0, 0)
      ensures published == old(published) + [HeroSpeedZero]
    {
      published := published + [HeroSpeedZero];
      if !gamePaused {
        heroSpeed := Velocity(0, 0);
      }
    }

    /** `cooling`: no shot for the next 500 ms. */
    method Cooling()
      requires Valid()
      modifies this`coolDown
      ensures Valid() && coolDown == 500
    {
      coolDown := 500;
    }

    /** One run of the cooling interval, which is scheduled while `coolDown` is above 0 and
        cleared when it reaches 0: five runs after a shot the hero can fire again. */
    method CoolingStep()
      requires Valid()
      modifies this`coolDown
      ensures Valid()
      ensures coolDown == if old(coolDown) > 0 then old(coolDown) - 100 else 0
      ensures old(coolDown) > 0 ==> coolDown < old(coolDown)
    {
      if coolDown > 0 {
        coolDown := coolDown - 100;
      }
    }

    /** HERO_FIRE: when the cool-down is over and the game is not paused, a laser leaves the
        hero's nose (45 right, 30 up) and the cool-down restarts. Nothing checks that a game
        is running. */
    method OnHeroFire()
      requires Valid()
      modifies this`gameObjects, this`coolDown, this`published
      ensures Valid()
      ensures published == old(published) + [HeroFire]
      ensures if old(coolDown) == 0 && !gamePaused then
          gameObjects == old(gameObjects) + [Item(NewLaser(hero.x + 45, hero.y - 30))] && coolDown == 500
        else
          gameObjects == old(gameObjects) && coolDown == old(coolDown)
    {
      published := published + [HeroFire];
      if coolDown == 0 && !gamePaused {
        gameObjects := gameObjects + [Item(NewLaser(hero.x + 45, hero.y - 30))];
        Cooling();
      }
    }

    /** GAME_END_LOSS: the game is over and its loop is cleared. */
    method OnGameEndLoss()
      requires Consistent()
      modifies this`end, this`start, this`loopRunning, this`published
      ensures Valid() && end && !start && !loopRunning
      ensures published == old(published) + [GameEndLoss]
    {
      published := published + [GameEndLoss];
      end := true;
      start := false;
      loopRunning := false;
    }

    /** GAME_END_WIN: the game is over and its loop is cleared. */
    method OnGameEndWin()
      requires Consistent()
      modifies this`end, this`start, this`loopRunning, this`published
      ensures Valid() && end && !start && !loopRunning
      ensures published == old(published) + [GameEndWin]
    {
      published := published + [GameEndWin];
      end := true;
      start := false;
      loopRunning := false;
    }

    /** COLLISION_MONSTER_LASER with the pair (l, m): both are dead, 100 points, and an
        explosion at the monster's place. Nothing checks whether either was already dead. */
    method OnLaserHit(l: nat, m: nat)
      requires Valid()
      requires l < |gameObjects| && m < |gameObjects| && gameObjects[l].Item? && gameObjects[m].Item?
      modifies this`gameObjects, this`points, this`published
      ensures Valid() && Snapshot() == LaserHit(old(Snapshot()), l, m)
    {
      published := published + [CollisionMonsterLaser];
      gameObjects := gameObjects[l := Killed(gameObjects[l])];
      gameObjects := gameObjects[m := Killed(gameObjects[m])];
      points := points + 100;
      gameObjects := gameObjects + [ExplosionOver(gameObjects[m].obj)];
    }

    /** COLLISION_MONSTER_HERO with monster m: one life less; at exactly 0 lives the hero is
        dead, the game is lost and the hero explodes; the monster is dead and explodes. */
    method OnHeroHit(m: nat)
      requires Valid()
      requires m < |gameObjects| && gameObjects[m].Item?
      modifies this`gameObjects, this`life, this`hero, this`start, this`end, this`loopRunning, this`published
      ensures Valid() && Snapshot() == HeroHit(old(Snapshot()), m)
    {
      published := published + [CollisionMonsterHero];
      life := life - 1;
      if life == 0 {
        ghost var g := gameObjects;
        LastLifeLost();
        UpdateBeforeAppend(g, [ExplosionOver(old(hero))], m, Killed(g[m]));
      }
      gameObjects := gameObjects[m := Killed(gameObjects[m])];
      gameObjects := gameObjects + [ExplosionOver(gameObjects[m].obj)];
    }

    /** The part of COLLISION_MONSTER_HERO that runs when the lives reach 0: the hero is
        dead, the game is lost, and an explosion is appended at the hero's place. */
    method LastLifeLost()
      requires Valid()
      modifies this`gameObjects, this`hero, this`start, this`end, this`loopRunning, this`published
      ensures Valid() && hero == old(hero).(dead := true) && end && !start && !loopRunning
      ensures published == old(published) + [GameEndLoss]
      ensures gameObjects == old(gameObjects) + [ExplosionOver(old(hero))]
    {
      hero := hero.(dead := true);
      start := false;
      OnGameEndLoss();
      gameObjects := gameObjects + [ExplosionOver(hero)];
    }

    /** KEY_EVENT_UP: 5 up while below the top edge, unless paused. */
    method OnKeyUp()
      requires Valid()
      modifies this`hero, this`published
      ensures Valid()
      ensures hero == old(hero).(y := if !gamePaused && old(hero).y > 0 then old(hero).y - 5 else old(hero).y)
      ensures -5 < old(hero).y ==> -5 < hero.y
      ensures published == old(published) + [KeyEventUp]
    {
      published := published + [KeyEventUp];
      if !gamePaused {
        hero := hero.(y := if hero.y > 0 then hero.y - 5 else hero.y);
      }
    }

    /** KEY_EVENT_DOWN: 5 down while above HEIGHT, unless paused. */
    method OnKeyDown()
      requires Valid()
      modifies this`hero, this`published
      ensures Valid()
      ensures hero == old(hero).(y := if !gamePaused && old(hero).y < HEIGHT then old(hero).y + 5 else old(hero).y)
      ensures old(hero).y < HEIGHT + 5 ==> hero.y < HEIGHT + 5
      ensures published == old(published) + [KeyEventDown]
    {
      published := published + [KeyEventDown];
      if !gamePaused {
        hero := hero.(y := if hero.y < HEIGHT then hero.y + 5 else hero.y);
      }
    }

    /** KEY_EVENT_LEFT: 10 left while right of the left edge, unless paused. */
    method OnKeyLeft()
      requires Valid()
      modifies this`hero, this`published
      ensures Valid()
      ensures hero == old(hero).(x := if !gamePaused && old(hero).x > 0 then old(hero).x - 10 else old(hero).x)
      ensures -10 < old(hero).x ==> -10 < hero.x
      ensures published == old(published) + [KeyEventLeft]
    {
      published := published + [KeyEventLeft];
      if !gamePaused {
        hero := hero.(x := if hero.x > 0 then hero.x - 10 else hero.x);
      }
    }

    /** KEY_EVENT_RIGHT: 10 right while left of WIDTH, unless paused. */
    method OnKeyRight()
      requires Valid()
      modifies this`hero, this`published
      ensures Valid()
      ensures hero == old(hero).(x := if !gamePaused && old(hero).x < WIDTH then old(hero).x + 10 else old(hero).x)
      ensures old(hero).x < WIDTH + 10 ==> hero.x < WIDTH + 10
      ensures published == old(published) + [KeyEventRight]
    {
      published := published + [KeyEventRight];
      if !gamePaused {
        hero := hero.(x := if hero.x < WIDTH then hero.x + 10 else hero.x);
      }
    }

    /** GAME_PAUSE: toggles the pause, except once the game has ended. */
    method OnGamePause()
      requires Valid()
      modifies this`gamePaused, this`published
      ensures Valid()
      ensures gamePaused == if old(end) then old(gamePaused) else !old(gamePaused)
      ensures published == old(published) + [GamePause]
    {
      published := published + [GamePause];
      if !end {
        gamePaused := !gamePaused;
      }
    }

    /** GAME_START: once the assets are loaded and no game is running, a new game starts.
        The end of the previous game cleared its loop, so at most one loop ever runs. */
    method OnGameStart()
      requires Valid()
      modifies this`start, this`gameObjects, this`life, this`points, this`end, this`gamePaused,
        this`hero, this`loopRunning, this`published
      ensures Valid()
      ensures published == old(published) + [GameStart]
      ensures if old(ready) && old(end) then
          start && Reset(old(hero))
        else
          start == old(start) && gameObjects == old(gameObjects) && life == old(life) && points == old(points)
          && end == old(end) && gamePaused == old(gamePaused) && hero == old(hero) && loopRunning == old(loopRunning)
    {
      published := published + [GameStart];
      if ready && end {
        start := true;
        RunGame();
      }
    }

    /** The state `runGame` leaves, starting from the hero `hero0`. */
    ghost predicate Reset(hero0: GameObject)
      reads this
    {
      && gameObjects == MonsterGrid(canvasWidth) + [HeroEntry]
      && life == 3 && points == 0 && !end && !gamePaused && loopRunning
      && hero == hero0.(dead := false, x := canvasWidth / 2, y := canvasHeight / 4 * 3)
    }

    /** `window.onload` once the images are in: the title screen waits for Enter. It runs
        once, before any game can start. */
    method AssetsLoaded()
      requires Valid() && !ready
      modifies this`ready, this`end
      ensures Valid() && ready && end
    {
      ready := true;
      end := true;
    }

    // -------------------------------------------------------------- a new game

    /** `runGame`: an empty list, 3 lives, no points, not paused, the 25 monsters and the
        hero, and the loop scheduled. The hero keeps the velocity it had. Its only caller is
        the GAME_START handler, when the assets are loaded and no loop is running. */
    method RunGame()
      requires Valid() && ready && !loopRunning
      modifies this`gameObjects, this`life, this`points, this`end, this`gamePaused, this`hero, this`loopRunning
      ensures Valid()
      ensures Reset(old(hero))
    {
      gameObjects := [];
      life := 3;
      points := 0;
      end := false;
      gamePaused := false;
      CreateMonsters();
      CreateHero();
      loopRunning := true;
    }

    /** `createMonsters`: five columns 98 apart, centred, each of five monsters 50 apart from
        the top, the lane index counting down from 5. */
    method CreateMonsters()
      requires Valid()
      modifies this`gameObjects
      ensures Valid()
      ensures gameObjects == old(gameObjects) + MonsterGrid(canvasWidth)
    {
      var startX := GridStartX(canvasWidth);
      var stopX := startX + 5 * 98;
      var index := 5;
      var x := startX;
      ghost var c := 0;
      while x < stopX
        invariant 0 <= c <= 5 && x == startX + 98 * c && index == 5 - c
        invariant gameObjects == old(gameObjects) + MonsterGrid(canvasWidth)[..5 * c]
        decreases stopX - x
      {
        var y := 0;
        ghost var r := 0;
        while y < 50 * 5
          invariant 0 <= r <= 5 && y == 50 * r
          invariant gameObjects == old(gameObjects) + MonsterGrid(canvasWidth)[..5 * c + r]
        {
          MonsterGridAt(canvasWidth, c, r);
          assert MonsterGrid(canvasWidth)[..5 * c + r + 1]
            == MonsterGrid(canvasWidth)[..5 * c + r] + [MonsterGrid(canvasWidth)[5 * c + r]];
          gameObjects := gameObjects + [Item(NewMonster(x, y, index))];
          y := y + 50;
          r := r + 1;
        }
        index := index - 1;
        x := x + 98;
        c := c + 1;
      }
      assert MonsterGrid(canvasWidth)[..25] == MonsterGrid(canvasWidth);
    }

    /** `createHero`: alive again, its left edge at the middle of the canvas, three quarters down, and in the list. */
    method CreateHero()
      requires Valid()
      modifies this`hero, this`gameObjects
      ensures Valid()
      ensures hero == old(hero).(dead := false, x := canvasWidth / 2, y := canvasHeight / 4 * 3)
      ensures gameObjects == old(gameObjects) + [HeroEntry]
    {
      hero := hero.(dead := false);
      hero := hero.(y := canvasHeight / 4 * 3);
      hero := hero.(x := canvasWidth / 2);
      gameObjects := gameObjects + [HeroEntry];
    }

    // -------------------------------------------------------------- timer bodies

    /** One run of the 100 ms interval of the laser at position i. */
    method LaserStep(i: nat)
      requires Valid() && i < |gameObjects| && IsKind(gameObjects[i], Laser)
      modifies this`gameObjects
      ensures Valid()
      ensures var o := old(gameObjects)[i].obj;
        gameObjects == if o.dead || gamePaused then old(gameObjects) else old(gameObjects)[i := Item(LaserMove(o))]
    {
      var o := gameObjects[i].obj;
      if !o.dead {
        if !gamePaused {
          gameObjects := gameObjects[i := Item(LaserMove(o))];
        }
      }
    }

    /** One run of the 12 s interval of the monster at position i: it drops, and when it
        reaches the bottom it is dead and MONSTER_OUT_OF_BOUNDS kills the hero. */
    method MonsterStepY(i: nat)
      requires Valid() && i < |gameObjects| && IsKind(gameObjects[i], Monster)
      modifies this`gameObjects, this`hero, this`published
      ensures Valid()
      ensures var o := old(gameObjects)[i].obj;
        if o.dead || gamePaused then
          gameObjects == old(gameObjects) && hero == old(hero) && published == old(published)
        else
          && gameObjects == old(gameObjects)[i := Item(MonsterDrop(o))]
          && hero == old(hero).(dead := old(hero).dead || MonsterDrop(o).dead)
          && published == old(published) + (if MonsterDrop(o).dead then [MonsterOutOfBounds] else [])
    {
      var o := gameObjects[i].obj;
      if !o.dead {
        if !gamePaused {
          var dropped := MonsterDrop(o);
          gameObjects := gameObjects[i := Item(dropped)];
          if dropped.dead {
            OnMonsterOutOfBounds();
          }
        }
      }
    }

    /** One run of the 600 ms interval of the monster at position i: the sweep. */
    method MonsterStepX(i: nat)
      requires Valid() && i < |gameObjects| && IsKind(gameObjects[i], Monster)
      modifies this`gameObjects
      ensures Valid()
      ensures var o := old(gameObjects)[i].obj;
        gameObjects == if o.dead || gamePaused then old(gameObjects)
          else old(gameObjects)[i := Item(MonsterSweep(o, canvasWidth))]
    {
      var o := gameObjects[i].obj;
      if !o.dead {
        if !gamePaused {
          gameObjects := gameObjects[i := Item(MonsterSweep(o, canvasWidth))];
        }
      }
    }

    /** The 300 ms timeout of the explosion at position i: it is dead, paused or not. */
    method ExplosionExpire(i: nat)
      requires Valid() && i < |gameObjects| && IsKind(gameObjects[i], Explosion)
      modifies this`gameObjects
      ensures Valid()
      ensures gameObjects == old(gameObjects)[i := Killed(old(gameObjects)[i])]
    {
      gameObjects := gameObjects[i := Killed(gameObjects[i])];
    }

    // -------------------------------------------------------------- the tick

    /** The part of the state a tick reads or writes. */
    ghost function Snapshot(): State
      reads this
    {
      State(gameObjects, hero, life, points, published, start, end, loopRunning)
    }

    /** One run of the game loop: the tick, unless the game is paused. */
    method GameLoopTick()
      requires Valid() && loopRunning
      modifies this`hero, this`points, this`life, this`end, this`start, this`loopRunning,
        this`gameObjects, this`published
      ensures Valid()
      ensures old(gamePaused) ==> unchanged(this)
      ensures !old(gamePaused) ==> Snapshot() == Tick(old(Snapshot()), heroSpeed.x)
    {
      if !gamePaused {
        CheckGameState();
      }
    }

    /** `checkGameState`: loss or win, the hero's move, the speed ramp, the laser and hero
        collisions, and the purge, as `Tick` describes them. */
    method CheckGameState()
      requires Valid()
      modifies this`hero, this`points, this`life, this`end, this`start, this`loopRunning,
        this`gameObjects, this`published
      ensures Valid()
      ensures Snapshot() == Tick(old(Snapshot()), heroSpeed.x)
    {
      var monsters := MonstersOf(gameObjects);
      EndGameCheck(monsters);
      ghost var s1 := Snapshot();
      MoveHero();
      ghost var s2 := Snapshot();
      Collisions(monsters);
      ghost var s3 := Snapshot();
      PurgeDead();
      TickInSteps(old(Snapshot()), heroSpeed.x, s1, s2, s3, Snapshot());
    }

    /** Steps 1 and 2 of the tick: a dead hero loses the game, no monster left wins it. The
        win sets the flags itself before its message is published. */
    method EndGameCheck(monsters: seq<nat>)
      requires Valid() && monsters == MonstersOf(gameObjects)
      modifies this`end, this`start, this`loopRunning, this`published
      ensures Valid() && Snapshot() == EndCheck(old(Snapshot()))
    {
      if hero.dead {
        OnGameEndLoss();
      } else if |monsters| == 0 {
        end := true;
        start := false;
        OnGameEndWin();
      }
    }

    /** Step 3 of the tick: the hero moves by its horizontal speed, when that is not 0. */
    method MoveHero()
      requires Valid()
      modifies this`hero
      ensures Valid() && Snapshot() == Move(old(Snapshot()), heroSpeed.x)
    {
      if heroSpeed.x != 0 {
        hero := hero.(x := hero.x + heroSpeed.x);
      }
    }

    /** Step 7 of the tick: `gameObjects.filter(go => !go.dead)`. */
    method PurgeDead()
      requires Valid()
      modifies this`gameObjects
      ensures Valid() && Snapshot() == Purge(old(Snapshot()))
    {
      gameObjects := Purged(gameObjects, hero.dead);
    }

    /** Steps 4 to 6 of the tick, for the monsters the tick started with: the speed ramp,
        the laser handlers, then the hero-hit handlers. */
    method Collisions(monsters: seq<nat>)
      requires Valid() && monsters == MonstersOf(gameObjects)
      modifies this`hero, this`points, this`life, this`end, this`start, this`loopRunning,
        this`gameObjects, this`published
      ensures Valid()
      ensures Snapshot() == AfterCollisions(old(Snapshot()))
    {
      ghost var s := Snapshot();
      RampSpeeds(monsters);
      ghost var s1 := Snapshot();
      RampedSameBoxes(s.gameObjects, RampSpeed(|monsters|));
      HeroHittersSameBoxes(s.gameObjects, s1.gameObjects, monsters, hero);
      var lasers := LasersOf(gameObjects);
      LaserCollisions(lasers, monsters);
      ghost var s2 := Snapshot();
      ghost var hits := Hits(s1.gameObjects, lasers, monsters);
      MarkSameBoxes(s1.gameObjects, Touched(hits), LaserExplosions(s1.gameObjects, hits));
      HeroHittersSameBoxes(s1.gameObjects, s2.gameObjects, monsters, hero);
      HeroCollisions(monsters);
      CollisionsInSteps(s, monsters, s1, lasers, s2, Snapshot());
    }

    /** Step 4: every monster of the list gets the speed for the count at the tick's start. */
    method RampSpeeds(monsters: seq<nat>)
      requires Valid() && monsters == MonstersOf(gameObjects)
      modifies this`gameObjects
      ensures Valid()
      ensures Snapshot() == RampPhase(old(Snapshot()), RampSpeed(|monsters|))
    {
      var v := RampSpeed(|monsters|);
      var k := 0;
      while k < |monsters|
        invariant 0 <= k <= |monsters| && |gameObjects| == |old(gameObjects)|
        invariant forall i :: 0 <= i < |gameObjects| ==>
          gameObjects[i] == if i in monsters[..k] then Item(old(gameObjects)[i].obj.(speed := v)) else old(gameObjects)[i]
      {
        var m := monsters[k];
        gameObjects := gameObjects[m := Item(gameObjects[m].obj.(speed := v))];
        k := k + 1;
      }
      assert monsters[..k] == monsters;
      assert gameObjects == Ramped(old(gameObjects), v);
    }

    /** Step 5: every (laser, monster) pair whose boxes intersect, lasers outer, runs the
        laser handler; dead objects are not skipped. */
    method LaserCollisions(lasers: seq<nat>, monsters: seq<nat>)
      requires Valid() && Refs(gameObjects, lasers) && Refs(gameObjects, monsters)
      modifies this`gameObjects, this`points, this`published
      ensures Valid()
      ensures Snapshot() == LaserPhase(old(Snapshot()), lasers, monsters)
    {
      ghost var s0 := Snapshot();
      ghost var g0 := gameObjects;
      ghost var done: seq<(nat, nat)> := [];
      LaserStateAfterNone(s0);
      var a := 0;
      while a < |lasers|
        invariant 0 <= a <= |lasers|
        invariant Valid() && Refs(g0, lasers[..a]) && done == Hits(g0, lasers[..a], monsters)
        invariant PairRefs(g0, done) && Snapshot() == LaserStateAfter(s0, done)
      {
        done := LaserRow(lasers[a], monsters, s0, done);
        HitsSnoc(g0, lasers, monsters, a);
        a := a + 1;
      }
      assert lasers[..a] == lasers;
    }

    /** The inner `forEach` of step 5 for laser l, after the handlers for the pairs `done`
        of the list of `s0`: the pairs of l whose boxes intersect are handled, in order. */
    method LaserRow(l: nat, monsters: seq<nat>, ghost s0: State, ghost done: seq<(nat, nat)>)
      returns (ghost done': seq<(nat, nat)>)
      requires Valid() && l < |s0.gameObjects| && s0.gameObjects[l].Item? && Refs(s0.gameObjects, monsters)
      requires PairRefs(s0.gameObjects, done) && Snapshot() == LaserStateAfter(s0, done)
      modifies this`gameObjects, this`points, this`published
      ensures Valid() && PairRefs(s0.gameObjects, done') && Snapshot() == LaserStateAfter(s0, done')
      ensures done' == done + RowHits(s0.gameObjects, l, monsters)
    {
      ghost var g0 := s0.gameObjects;
      done' := done;
      var b := 0;
      while b < |monsters|
        invariant 0 <= b <= |monsters|
        invariant Valid() && Refs(g0, monsters[..b])
        invariant done' == done + RowHits(g0, l, monsters[..b])
        invariant PairRefs(g0, done') && Snapshot() == LaserStateAfter(s0, done')
      {
        var m := monsters[b];
        RowHitsSnoc(g0, l, monsters, b);
        ghost var row := RowHits(g0, l, monsters[..b]);
        done' := LaserHitCheck(l, m, s0, done');
        AppendAssoc(done, row, if Collide(g0[l].obj, g0[m].obj) then [(l, m)] else []);
        b := b + 1;
      }
      assert monsters[..b] == monsters;
    }

    /** The inner `forEach` body of step 5 for laser l and monster m, after the handlers for
        the pairs `done` of the list of `s0`. The marks made so far leave every box as it
        was in `s0`. */
    method LaserHitCheck(l: nat, m: nat, ghost s0: State, ghost done: seq<(nat, nat)>)
      returns (ghost done': seq<(nat, nat)>)
      requires Valid() && l < |s0.gameObjects| && m < |s0.gameObjects|
      requires s0.gameObjects[l].Item? && s0.gameObjects[m].Item?
      requires PairRefs(s0.gameObjects, done) && Snapshot() == LaserStateAfter(s0, done)
      modifies this`gameObjects, this`points, this`published
      ensures Valid() && PairRefs(s0.gameObjects, done') && Snapshot() == LaserStateAfter(s0, done')
      ensures done' == done + (if Collide(s0.gameObjects[l].obj, s0.gameObjects[m].obj) then [(l, m)] else [])
    {
      ghost var g0 := s0.gameObjects;
      assert l < |gameObjects| && m < |gameObjects| && gameObjects[l].Item? && gameObjects[m].Item?
        && (Collide(g0[l].obj, g0[m].obj)
            <==> IntersectRect(RectFromGameObject(gameObjects[l].obj), RectFromGameObject(gameObjects[m].obj))) by {
        MarkSameBoxes(g0, Touched(done), LaserExplosions(g0, done));
        assert RectFromGameObject(gameObjects[l].obj) == RectFromGameObject(g0[l].obj);
        assert RectFromGameObject(gameObjects[m].obj) == RectFromGameObject(g0[m].obj);
      }
      done' := done;
      if IntersectRect(RectFromGameObject(gameObjects[l].obj), RectFromGameObject(gameObjects[m].obj)) {
        LaserHitAfter(s0, done, l, m);
        OnLaserHit(l, m);
        done' := done + [(l, m)];
      }
    }

    /** Step 6: every monster whose box intersects the hero's runs the hero-hit handler;
        monsters already dead still count. */
    method HeroCollisions(monsters: seq<nat>)
      requires Valid() && Refs(gameObjects, monsters)
      modifies this`gameObjects, this`life, this`hero, this`start, this`end, this`loopRunning, this`published
      ensures Valid()
      ensures Snapshot() == HeroPhase(old(Snapshot()), monsters)
    {
      ghost var s0 := Snapshot();
      ghost var hs: seq<nat> := [];
      HeroStateAfterNone(s0);
      var b := 0;
      while b < |monsters|
        invariant 0 <= b <= |monsters|
        invariant Valid() && Refs(s0.gameObjects, monsters[..b])
        invariant hs == HeroHitters(s0.gameObjects, monsters[..b], s0.hero)
        invariant Refs(s0.gameObjects, hs) && Snapshot() == HeroStateAfter(s0, hs)
      {
        var m := monsters[b];
        HeroHittersSnoc(s0.gameObjects, monsters, s0.hero, b);
        hs := HeroHitCheck(m, s0, hs);
        b := b + 1;
      }
      assert monsters[..b] == monsters;
    }

    /** The `forEach` body of step 6 for monster m, after the handlers for the hitters `hs`
        of the list of `s0`. */
    method HeroHitCheck(m: nat, ghost s0: State, ghost hs: seq<nat>) returns (ghost hs': seq<nat>)
      requires Valid() && m < |s0.gameObjects| && s0.gameObjects[m].Item?
      requires Refs(s0.gameObjects, hs) && Snapshot() == HeroStateAfter(s0, hs)
      modifies this`gameObjects, this`life, this`hero, this`start, this`end, this`loopRunning, this`published
      ensures Valid() && Refs(s0.gameObjects, hs') && Snapshot() == HeroStateAfter(s0, hs')
      ensures hs' == hs + (if Collide(s0.gameObjects[m].obj, s0.hero) then [m] else [])
    {
      ghost var g0 := s0.gameObjects;
      assert m < |gameObjects| && gameObjects[m].Item?
        && (Collide(g0[m].obj, s0.hero)
            <==> IntersectRect(RectFromGameObject(gameObjects[m].obj), RectFromGameObject(hero))) by {
        MarkSameBoxes(g0, Elements(hs), HeroExplosions(g0, hs, s0.life, s0.hero));
        assert RectFromGameObject(gameObjects[m].obj) == RectFromGameObject(g0[m].obj);
        assert RectFromGameObject(hero) == RectFromGameObject(s0.hero);
      }
      hs' := hs;
      if IntersectRect(RectFromGameObject(gameObjects[m].obj), RectFromGameObject(hero)) {
        HeroHitAfter(s0, hs, m);
        OnHeroHit(m);
        hs' := hs + [m];
      }
    }
  }
}
