# Starship Commander: the game state and its tick

This project models the core of the browser shooter in `app.js`, in Dafny. The core is:

- the game state: score, lives, the flags `end`, `start`, `ready` and the pause, the fire cool-down, the hero, and the `gameObjects` list;
- the publish/subscribe bus the handlers are registered on;
- the handlers themselves;
- the timer bodies of lasers, monsters, explosions and the cool-down;
- the reset that starts a game;
- the per-tick update `checkGameState`.

The Dafny files are:

- `objects.dfy` (module `Objects`): game objects as values. It holds the bounding box `rectFromGameObject` and the box test `intersectRect`. It also holds the laser climb, the monster drop and the monster sweep as single steps, with lemmas about repeated steps.
- `events.dfy` (module `Events`): the `EventEmitter`, a class over a map from message name to handlers. A log of every `on` call serves as its reference meaning (`ListenersIn`).
- `messages.dfy` (module `Messages`): the 15 messages, their names, and the registrations `Game`'s constructor makes.
- `scene.dfy` (module `Scene`): the `gameObjects` list as a value, and what each part of a tick does to it, as functions with lemmas:
  - the filters by type;
  - the laser × monster pairs and the hero hitters;
  - the marks and explosions the handlers leave;
  - the speed ramp and the purge;
  - the monster grid of a reset.
- `tick.dfy` (module `GameTick`): one run of `checkGameState` as the function `Tick` on a `State` record. It is built from the steps `EndCheck`, `Move`, `AfterCollisions` and `Purge`. The module also holds the lemmas that say what one tick does in the game's terms.
- `shooter.dfy` (module `Shooter`): the class `Game`. It holds the state as fields, the handlers and timer bodies as methods, and `CheckGameState` as a method with one loop per `forEach` of `checkGameState`. Each step method is proved against the matching `GameTick` function through the ghost `Snapshot()` of the fields.

How the model represents the program:

- **Objects.** `gameObjects` is a `seq<Entry>`. An entry is either `Item(o)`, an object the list holds by value, or `HeroEntry`, which stands for the one hero object that `createHero` pushes into the list by reference.
- **Collision loops.** The `forEach` loops go over the index lists of the monsters and lasers taken at the start of the tick.
- **Handlers.** The tick calls the handler methods directly. The constructor's contract proves this is what `emit` does: every message name has exactly one handler, its own.
- **Published messages.** The ghost field `published` records every message in the order it was delivered.
- **Timers.** Each interval or timeout body is a step method. The caller invokes it.

Behaviours of the code that a player might not expect, all kept in the model:

- **Lives go below 0.** The hero-hit handler tests `life === 0` (app.js:281-282), so two monsters on the last life leave -1 lives (`GameTick.LastLifeTwice`, `GameTick.TickHeroHits`).
- **GAME_END_LOSS within one tick's hits.** Among one tick's hero hits, GAME_END_LOSS is published at most once, right after the hit that leaves exactly 0 lives (`GameTick.TickMessages`). A hero already dead when the tick starts also gets the end check's GAME_END_LOSS (app.js:620-621), so such a tick can publish it twice.
- **The hero's move is not clamped.** `hero.x += hero.speed.x` (app.js:633-636) has no bound.
- **One laser can score twice.** A laser that meets two monsters in one tick scores twice (`GameTick.LaserScoresTwice`).
- **Dead objects still collide.** The pair loops test every listed laser and monster, including those already marked dead in the same tick (`Scene.HitsMembership`, `GameTick.TickHeroHits`). The test reads only positions and sizes (`Objects.CollideIgnoresState`).
- **A dead hero does not stop the tick.** When the hero is dead at the start of a tick, the loss is published and the rest of the tick still runs.
- **Firing does not check for a running game.** HERO_FIRE checks only the cool-down and the pause (app.js:232-243).

## Model

| member | source | states |
|---|---|---|
| Objects.IntersectRectSymmetric | app.js:488-495 | the box test gives the same answer with its arguments swapped |
| Objects.TouchingRectsIntersect | app.js:488-495 | well-formed boxes that share only a vertical or a horizontal edge, overlapping on the other axis, count as intersecting, because the test's comparisons are strict |
| Objects.CornerRectsIntersect | app.js:488-495 | well-formed boxes that meet only where the right edge of one meets the left edge of the other and its bottom meets the other's top count as intersecting |
| Objects.IntersectRectIffCommonPoint | app.js:488-495 | for boxes with ordered sides, the test holds exactly when the two closed boxes share a point |
| Objects.CollideIffCommonPoint | app.js:479-495 | two objects of non-negative size collide exactly when the closed regions they occupy on the canvas share a point |
| Objects.CollideIgnoresState | app.js:36-43 | a collision depends on position and size only, so a dead object collides like a live one |
| Objects.LaserMove | app.js:61-68 | one run of a live laser: it climbs 20 while above the top edge, stays put otherwise, and is dead exactly when it is at or above the edge; other fields are unchanged |
| Objects.LaserAfterClimbs | app.js:61-72 | while it stays below the edge, k runs lift a live laser by exactly 20·k |
| Objects.LaserFlightEnds | app.js:61-72 | a live laser dies on exactly its FlightRuns(y)-th run and is alive before that run |
| Objects.MonsterDrop | app.js:99-107 | one run of a live monster's drop: 30 down while above HEIGHT, and dead exactly when its top is at or below HEIGHT - height |
| Objects.MonsterAfterDrops | app.js:99-111 | while it stays above the bottom, k runs lower a live monster by exactly 30·k |
| Objects.MonsterReachesBottom | app.js:99-111 | a live monster dies on exactly its DropRuns-th run, so every monster left alone reaches the bottom |
| Objects.MonsterSweep | app.js:114-137 | inside its bound a monster moves by exactly `speed` in its direction; at the bound it only turns round, with x unchanged |
| Objects.SweepStaysInBand | app.js:114-137 | a monster whose speed never exceeds s never passes a sweep bound by a full step |
| Events.ListenersInAppend | app.js:7-12 | registering in two batches gives the first batch's handlers, then the second's |
| Events.NoListenersIffNeverRegistered | app.js:14-18 | a message has no handlers exactly when no `on` call named it |
| Events.EventEmitter.constructor | app.js:3-5 | a new bus holds no handlers and is consistent with its empty log |
| Events.EventEmitter.On | app.js:7-12 | `on` appends the handler to the message's list, creating the list on first use, and the map stays equal to the log's meaning |
| Events.EventEmitter.Emit | app.js:14-18 | `emit` yields exactly the handlers registered for the message, oldest first; a message nobody registered yields none; the bus is unchanged |
| Messages.NamesDistinct | app.js:178-194 | no two messages share a name |
| Messages.Order | app.js:205-351 | each message's position among the constructor's registrations is below 15 and names it back |
| Messages.OrderOfMessageAt | app.js:205-351 | position k of the registrations belongs to the message whose position is k |
| Messages.ListenersOfOrderedLog | app.js:205-351 | after the first n registrations, a message has its own handler if it was registered among them, and none otherwise |
| Messages.EveryMessageHasOneListener | app.js:205-351 | after the constructor every message has exactly one handler: its own |
| Scene.IndicesOf | app.js:619 | the positions of the objects of one type, ascending, with none missing and none of another type |
| Scene.RowHits | app.js:654-663 | every pair found is laser l with a listed monster whose box meets its box |
| Scene.RowHitsAscending | app.js:654-663 | for an ascending monster list, laser l's pairs come with strictly ascending monsters, so no monster is paired with l twice |
| Scene.RowHitsComplete | app.js:654-663 | every listed monster whose box meets laser l's box is paired with l |
| Scene.Hits | app.js:652-664 | every pair found is a listed laser with a listed monster whose boxes meet |
| Scene.HitsInLoopOrder | app.js:652-664 | for ascending lists the pairs come strictly in the order of the nested loops, lasers outer, so no pair is found twice |
| Scene.HitsMembership | app.js:652-664 | a (laser, monster) pair is handled in a tick exactly when both are in their lists and their boxes intersect |
| Scene.HeroHitters | app.js:666-673 | the hitters are listed monsters whose boxes intersect the hero's, no more than the monsters listed |
| Scene.HeroHittersAscending | app.js:666-673 | for an ascending monster list the hitters are strictly ascending, so no monster hits the hero twice in one tick |
| Scene.HeroHittersComplete | app.js:666-673 | every monster whose box intersects the hero's is a hitter |
| Scene.LaserExplosions | app.js:274 | one explosion per handled pair, at that pair's monster, in order |
| Scene.HeroExplosions | app.js:282-290 | the explosions the hero-hit handlers add are all live explosions |
| Scene.AfterLaserHitsSnoc | app.js:267-277 | one more laser handler kills the laser, then the monster, and appends one explosion over the monster |
| Scene.AfterHeroHitsSnoc | app.js:278-292 | one more hero-hit handler kills the monster and appends an explosion over the hero if that hit leaves exactly 0 lives, then one over the monster |
| Scene.HitsSameBoxes | app.js:652-664 | the pairs found depend only on the boxes, so earlier marks and speed changes in the tick do not change them |
| Scene.HeroHittersSameBoxes | app.js:666-673 | the hero hitters depend only on the boxes, so the laser step's marks do not change them |
| Scene.MarkSameBoxes | app.js:270-271 | marking entries dead and appending explosions moves no box of the list |
| Scene.CollidedInSteps | app.js:639-673 | the ramp, the laser step and the hero step in sequence, each on the list the last one left, give `Collided` |
| Scene.PairsDie | app.js:267-292 | both objects of every handled pair leave the collision steps as dead objects at the positions they had |
| Scene.HittersDie | app.js:278-292 | every hitter leaves the collision steps as a dead object at the position it had |
| Scene.HeroTraceClosed | app.js:278-292 | n hero hits from life0 lives publish n COLLISION_MONSTER_HERO messages, with one GAME_END_LOSS right after hit number life0 exactly when 1 <= life0 <= n |
| Scene.Purged | app.js:675 | the purge leaves no dead object, and no hero entry when the hero is dead, and never grows the list |
| Scene.PurgedKeepsOrder | app.js:675 | the purged list is the input read at ascending positions, and a position is kept exactly when its entry is alive |
| Scene.PurgedCounts | app.js:675 | the purge keeps every live entry as often as it occurred and drops every dead one |
| Scene.PurgedIdempotent | app.js:675 | purging twice is purging once |
| Scene.PurgedKeepsSpeeds | app.js:675 | the purge keeps every monster's speed |
| Scene.RampedSpeeds | app.js:648-650 | after the ramp every monster has speed v |
| Scene.CollidedSpeeds | app.js:639-673 | after steps 4 to 6 every monster, dead or alive, has the speed of the tick's starting count |
| Scene.MonsterGrid | app.js:588-608 | the grid is 25 live monsters |
| Scene.MonsterGridAt | app.js:597-603 | monster 5c+r stands in column c (x = start + 98c, lane index 5-c) and row r (y = 50r) |
| Scene.ResetCounts | app.js:588-616 | after a reset the first 25 entries are the monsters and there are no lasers, so the first ramp gives speed 30 |
| GameTick.LaserHitAfter | app.js:267-277 | handling one more pair is handling the longer list of pairs |
| GameTick.HeroHitAfter | app.js:278-292 | handling one more hitter is handling the longer list of hitters |
| GameTick.CollisionsInSteps | app.js:639-673 | the ramp, the laser step and the hero step in sequence are `AfterCollisions` |
| GameTick.TickScore | app.js:652-663 | a tick adds exactly 100 points per intersecting (laser, monster) pair: a pair counts exactly when the two boxes intersect, and no pair counts twice |
| GameTick.LaserScoresTwice | app.js:652-663 | a laser whose box meets two monsters earns at least 200 points in one tick |
| GameTick.TickHeroHits | app.js:618-676 | a tick takes one life per monster meeting the moved hero: exactly those monsters count, each once. The hero ends the tick at its moved position, and it is dead exactly when it already was or the lives passed through 0. The game is over, and the start flag and the loop are off, exactly when the game was already over, the hero was dead at the start of the tick, no monster was listed, or the lives passed through 0 |
| GameTick.TickPairsRemoved | app.js:652-675 | both objects of every handled pair are dead after the collisions and gone after the purge |
| GameTick.TickHittersRemoved | app.js:666-675 | every monster that meets the moved hero is dead after the collisions and gone after the purge |
| GameTick.LastLifeTwice | app.js:281-282 | two hits on the last life leave -1 lives, with the hero dead and the game over |
| GameTick.TickMessages | app.js:618-673 | a tick publishes its end message, then one COLLISION_MONSTER_LASER per pair, then the hero-hit messages, with GAME_END_LOSS only after the hit that leaves 0 lives |
| GameTick.TickTrace | app.js:618-673 | a tick publishes its end message, one COLLISION_MONSTER_LASER per pair, then the messages of its hero hits in order |
| GameTick.TickSpeeds | app.js:639-650 | after a tick every monster left has speed 30 + (25 - the number of monsters the tick began with) |
| GameTick.TickPurges | app.js:675 | after a tick nothing dead is left, and every live entry of the list before the purge stays, as often as it occurred |
| Shooter.Game.constructor | app.js:196-352 | a fresh game with 0 points, 3 lives, no objects and a bus on which every message has exactly its own handler |
| Shooter.Game.OnMonsterOutOfBounds | app.js:205-209 | the hero is dead and nothing else changes |
| Shooter.Game.OnHeroSpeedLeft | app.js:210-215 | the horizontal speed becomes -10 unless the game is paused |
| Shooter.Game.OnHeroSpeedRight | app.js:216-221 | the horizontal speed becomes 10 unless the game is paused |
| Shooter.Game.OnHeroSpeedZero | app.js:222-231 | the velocity becomes (0, 0) unless the game is paused |
| Shooter.Game.Cooling | app.js:553-554 | the cool-down restarts at 500 |
| Shooter.Game.CoolingStep | app.js:555-560 | one run of the cooling interval takes 100 off while above 0, so it strictly decreases and stays a multiple of 100 in [0, 500] |
| Shooter.Game.OnHeroFire | app.js:232-243 | once cooled down and when not paused, one laser appears 45 right of and 30 above the hero and the cool-down restarts; otherwise nothing changes |
| Shooter.Game.OnGameEndLoss | app.js:244-255 | the game is over, not started, and its loop is cleared |
| Shooter.Game.OnGameEndWin | app.js:257-266 | the game is over, not started, and its loop is cleared |
| Shooter.Game.OnLaserHit | app.js:267-277 | the laser and the monster are dead, 100 points are added, and an explosion is appended over the monster |
| Shooter.Game.OnHeroHit | app.js:278-292 | one life less; at exactly 0 lives the hero is dead, the game is lost and an explosion is appended over the hero; the monster is dead and an explosion is appended over it |
| Shooter.Game.LastLifeLost | app.js:282-287 | the hero is dead, GAME_END_LOSS is published and an explosion is appended over the hero |
| Shooter.Game.OnKeyUp | app.js:293-297 | 5 up while below the top edge, unless paused |
| Shooter.Game.OnKeyDown | app.js:298-302 | 5 down while above HEIGHT, unless paused |
| Shooter.Game.OnKeyLeft | app.js:303-307 | 10 left while right of the left edge, unless paused |
| Shooter.Game.OnKeyRight | app.js:308-312 | 10 right while left of WIDTH, unless paused |
| Shooter.Game.OnGamePause | app.js:341-351 | the pause toggles, except once the game has ended |
| Shooter.Game.OnGameStart | app.js:313-340 | with the assets loaded and the game over, a new game starts in the reset state; otherwise nothing but the message log changes |
| Shooter.Game.AssetsLoaded | app.js:762-763 | once the assets are in, the title screen is shown: ready and ended |
| Shooter.Game.RunGame | app.js:678-690 | 3 lives, 0 points, not ended, not paused, the 25-monster grid followed by the hero, and the loop scheduled |
| Shooter.Game.CreateMonsters | app.js:588-608 | appends the 25 monsters of the grid, column by column |
| Shooter.Game.CreateHero | app.js:610-616 | the hero is alive, its left edge at the middle of the canvas (x = width / 2), three quarters down, and appended to the list |
| Shooter.Game.LaserStep | app.js:61-72 | a live laser makes one `LaserMove` unless the game is paused; otherwise nothing changes |
| Shooter.Game.MonsterStepY | app.js:99-111 | unless paused, a live monster makes one `MonsterDrop`, and reaching the bottom kills the hero and publishes MONSTER_OUT_OF_BOUNDS once |
| Shooter.Game.MonsterStepX | app.js:114-137 | a live monster makes one `MonsterSweep` unless the game is paused; otherwise nothing changes |
| Shooter.Game.ExplosionExpire | app.js:82-84 | the explosion is dead, paused or not |
| Shooter.Game.GameLoopTick | app.js:690-710 | when not paused the state becomes `Tick` of the old state; when paused nothing changes |
| Shooter.Game.CheckGameState | app.js:618-676 | the new state is `Tick` of the old state with the hero's horizontal speed |
| Shooter.Game.EndGameCheck | app.js:619-631 | a dead hero loses the game; otherwise no monster left wins it |
| Shooter.Game.MoveHero | app.js:633-636 | the hero moves by its horizontal speed |
| Shooter.Game.Collisions | app.js:639-673 | steps 4 to 6 leave `AfterCollisions` of the old state |
| Shooter.Game.RampSpeeds | app.js:648-650 | the loop leaves `Ramped` of the old list |
| Shooter.Game.LaserCollisions | app.js:652-664 | the nested loops run the laser handler for exactly the intersecting pairs, lasers outer, in order |
| Shooter.Game.LaserRow | app.js:654-663 | the inner loop runs the laser handler for laser l with exactly the monsters its box meets, in order |
| Shooter.Game.LaserHitCheck | app.js:655-662 | the pair's handler runs exactly when the boxes intersect |
| Shooter.Game.HeroCollisions | app.js:666-673 | the loop runs the hero-hit handler for exactly the monsters meeting the hero, in order |
| Shooter.Game.HeroHitCheck | app.js:667-672 | the monster's handler runs exactly when its box meets the hero's |
| Shooter.Game.PurgeDead | app.js:675 | the list becomes `Purged` of the old list |

## Left out

- `Star`, the starfield animation and `starfield.js`: they use random numbers, floating-point perspective and canvas drawing.
- `AudioManager` and every audio call: browser audio is a pure side effect, so each call is a no-op here.
- Drawing: `draw`, `displayGameScore`, `displayLife`, `displayMessage`, the canvas clears in the game loop, and every `img` assignment, including the hero's damaged image.
- `loadTexture` and the rest of `window.onload`: these are asynchronous image loading and DOM lookups. Only the two flag updates at the end of `window.onload` are modelled (`AssetsLoaded`). The canvas size is a constructor parameter.
- The keyboard listeners: their only effect is to emit messages, so the model has one method per handler for the listeners to call.
- Timer scheduling itself (`setInterval`, `setTimeout`, `clearInterval`): each callback body is a step method. The game-loop interval being scheduled or cleared is the flag `loopRunning`.
- Monsters and lasers of an earlier game keep their intervals after a reset, because those intervals close over the objects (app.js:61-72, 99-137). So a monster left over from a lost game can still reach the bottom and publish MONSTER_OUT_OF_BOUNDS (app.js:99-106), killing the next game's hero. The step methods act only on objects still in the list, so the model does not tie that message to a detached monster. It only allows it, because `OnMonsterOutOfBounds` may be called at any time.
- The bus's listener table is a plain object `{}` (app.js:3-16). There, a message named like an inherited property (`toString`, `constructor`) finds that property, and `on`/`emit` then fail. `Events.EventEmitter` uses a true map, so it has no such names; the game's 15 message names are none of them.
- `Game.paused`: it is set in the constructor and never read.
- The monster fields `initialX` and the hero's `speed.y`: neither is ever read.
- The `gameLoopId` payloads and the `async`-ness of the GAME_START handler.
- Shooter.Game.constructor: requires an even canvas width and a canvas height that is a multiple of 4, so that the centring and the hero's place are whole numbers.
- Shooter.Game.AssetsLoaded: requires `!ready`, because `window.onload` runs once, before any game.
- Shooter.Game.RunGame: requires `ready && !loopRunning`, because its only caller is the GAME_START handler when the game is over. An earlier loop was cleared by the end of its game.
- Shooter.Game.CheckGameState: does not model the `console.log` of the monster count.
