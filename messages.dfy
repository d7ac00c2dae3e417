/** The messages the game publishes on its bus, and the names they are registered under. */
module Messages {
  import opened Events

  datatype Message =
    | MonsterOutOfBounds
    | HeroSpeedLeft
    | HeroSpeedRight
    | HeroSpeedZero
    | HeroFire
    | GameEndLoss
    | GameEndWin
    | CollisionMonsterLaser
    | CollisionMonsterHero
    | KeyEventUp
    | KeyEventDown
    | KeyEventLeft
    | KeyEventRight
    | GameStart
    | GamePause

  /** The string each message is published under. The two speed messages use the names
      HERO_MOVING_LEFT and HERO_MOVING_RIGHT, not their keys. */
  function Name(m: Message): string
  {
    match m
    case MonsterOutOfBounds => "MONSTER_OUT_OF_BOUNDS"
    case HeroSpeedLeft => "HERO_MOVING_LEFT"
    case HeroSpeedRight => "HERO_MOVING_RIGHT"
    case HeroSpeedZero => "HERO_SPEED_ZERO"
    case HeroFire => "HERO_FIRE"
    case GameEndLoss => "GAME_END_LOSS"
    case GameEndWin => "GAME_END_WIN"
    case CollisionMonsterLaser => "COLLISION_MONSTER_LASER"
    case CollisionMonsterHero => "COLLISION_MONSTER_HERO"
    case KeyEventUp => "KEY_EVENT_UP"
    case KeyEventDown => "KEY_EVENT_DOWN"
    case KeyEventLeft => "KEY_EVENT_LEFT"
    case KeyEventRight => "KEY_EVENT_RIGHT"
    case GameStart => "GAME_START"
    case GamePause => "GAME_PAUSE"
  }

  /** No two messages share a name, so a handler registered for one is never run for another. */
  lemma NamesDistinct(m1: Message, m2: Message)
    ensures Name(m1) == Name(m2) ==> m1 == m2
  {
  }

  /** The position of each message in `Game`'s constructor, which registers them in this order. */
  function Order(m: Message): (k: nat)
    ensures k < 15 && MessageAt(k) == m
  {
    match m
    case MonsterOutOfBounds => 0
    case HeroSpeedLeft => 1
    case HeroSpeedRight => 2
    case HeroSpeedZero => 3
    case HeroFire => 4
    case GameEndLoss => 5
    case GameEndWin => 6
    case CollisionMonsterLaser => 7
    case CollisionMonsterHero => 8
    case KeyEventUp => 9
    case KeyEventDown => 10
    case KeyEventLeft => 11
    case KeyEventRight => 12
    case GameStart => 13
    case GamePause => 14
  }

  function MessageAt(k: nat): Message
    requires k < 15
  {
    [ MonsterOutOfBounds, HeroSpeedLeft, HeroSpeedRight, HeroSpeedZero, HeroFire,
      GameEndLoss, GameEndWin, CollisionMonsterLaser, CollisionMonsterHero,
      KeyEventUp, KeyEventDown, KeyEventLeft, KeyEventRight, GameStart, GamePause ][k]
  }

  /** `Order` and `MessageAt` are inverse: position k holds the message whose position is k. */
  lemma OrderOfMessageAt(k: nat)
    requires k < 15
    ensures Order(MessageAt(k)) == k
  {
  }

  /** The registrations `Game`'s constructor makes, in its order: one handler per message,
      the handler being identified by the message it answers. */
  function GameRegistrations(): seq<(string, Message)>
  {
    seq(15, k requires 0 <= k < 15 => (Name(MessageAt(k)), MessageAt(k)))
  }

  /** The handlers registered for `message` by a log in which entry k is message k's own. */
  lemma {:induction false} ListenersOfOrderedLog(n: nat, m: Message)
    requires n <= 15
    ensures ListenersIn(GameRegistrations()[..n], Name(m)) == if Order(m) < n then [m] else []
  {
    if n > 0 {
      var log := GameRegistrations()[..n];
      var last := MessageAt(n - 1);
      var hit := Name(last) == Name(m);
      assert log[..n - 1] == GameRegistrations()[..n - 1];
      assert log[n - 1] == (Name(last), last);
      assert hit <==> last == m by {
        NamesDistinct(last, m);
      }
      assert last == m <==> Order(m) == n - 1 by {
        OrderOfMessageAt(n - 1);
      }
      calc {
        ListenersIn(log, Name(m));
        ListenersIn(log[..n - 1], Name(m)) + (if hit then [last] else []);
        { ListenersOfOrderedLog(n - 1, m); }
        (if Order(m) < n - 1 then [m] else []) + (if hit then [last] else []);
      }
    }
  }

  /** After `Game`'s constructor every message has exactly one handler: its own. */
  lemma EveryMessageHasOneListener(m: Message)
    ensures ListenersIn(GameRegistrations(), Name(m)) == [m]
  {
    ListenersOfOrderedLog(15, m);
    assert GameRegistrations()[..15] == GameRegistrations();
  }
}
