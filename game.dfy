/** The running game: the global direction flags, the round status flags, the
    snake and the apple list, with the operations the page drives — key presses,
    movement ticks, animation frames and the retry button. Canvas width and
    height are passed in by the caller; the random placement of new apples is
    replaced by positions the caller supplies. */
module Game {
  import opened Grid
  import opened Keys
  import opened SnakeRules
  import opened Apples

  /** Apples on the field at any time. */
  const AppleCount: nat := 5

  /** Every supplied position is one that random placement could produce. */
  predicate AllSpawnable(ps: seq<Pos>, cols: nat, rows: nat) {
    forall i :: 0 <= i < |ps| ==> Spawnable(ps[i], cols, rows)
  }

  /** The self-collision scan: walks the tail from the front and stops at the
      first segment on the head's cell. */
  method HitsTail(tail: seq<Pos>, head: Pos) returns (hit: bool)
    ensures hit <==> head in tail
  {
    hit := false;
    for i := 0 to |tail|
      invariant head !in tail[..i]
    {
      if tail[i] == head {
        hit := true;
        break;
      }
      assert tail[..i + 1] == tail[..i] + [tail[i]];
    }
  }

  class Session {
    // the snake
    var x: int
    var y: int
    var length: nat
    var tail: seq<Pos>
    // the game's apples
    var apples: seq<Pos>
    // the latched arrow flags
    var keys: Flags
    // round status
    var isGameOver: bool
    var gameOverSoundPlayed: bool

    /** Exactly one arrow latched, the tail no longer than the snake's length, which
        is at least the starting 3, five apples, and the game-over sound only ever
        played for a round that is over. */
    ghost predicate Valid()
      reads this
    {
      WellFormed(keys) && ExactlyOne(keys) &&
      3 <= length && |tail| <= length &&
      |apples| == AppleCount &&
      (gameOverSoundPlayed ==> isGameOver)
    }

    /** The canonical start of a round, with the given apples. */
    ghost predicate Initial(newApples: seq<Pos>)
      reads this
    {
      x == 10 && y == 15 && length == 3 &&
      tail == [Pos(10, 15), Pos(10, 16), Pos(10, 17)] &&
      apples == newApples &&
      keys == Only(ArrowUp) &&
      !isGameOver && !gameOverSoundPlayed
    }

    function Head(): Pos
      reads this
    {
      Pos(x, y)
    }

    /** The score shown on screen. */
    function Score(): nat
      reads this
      requires Valid()
    {
      length - 3
    }

    /** Page load: the flags start cleared and not over, the first game is built and
        the snake starts moving up. */
    constructor (width: nat, height: nat, newApples: seq<Pos>)
      requires |newApples| == AppleCount && AllSpawnable(newApples, Cells(width), Cells(height))
      ensures Valid() && Initial(newApples)
    {
      isGameOver := false;
      gameOverSoundPlayed := false;
      keys := map[ArrowUp := false, ArrowDown := false, ArrowLeft := false, ArrowRight := false];
      new;
      NewGame(width, height, newApples);
      keys := keys[ArrowUp := true];
      assert keys == Only(ArrowUp);
    }

    /** A new game object: the snake at its starting layout (its head cell is also
        the first tail entry) and five apples pushed one by one. */
    method NewGame(width: nat, height: nat, newApples: seq<Pos>)
      requires |newApples| == AppleCount && AllSpawnable(newApples, Cells(width), Cells(height))
      modifies this`x, this`y, this`length, this`tail, this`apples
      ensures x == 10 && y == 15 && length == 3
      ensures tail == [Pos(10, 15), Pos(10, 16), Pos(10, 17)]
      ensures apples == newApples
    {
      x, y := 10, 15;
      length := 3;
      tail := [Pos(10, 15), Pos(10, 16), Pos(10, 17)];
      apples := [];
      var i := 0;
      while i < AppleCount
        invariant 0 <= i <= AppleCount
        invariant apples == newApples[..i]
        invariant x == 10 && y == 15 && length == 3
        invariant tail == [Pos(10, 15), Pos(10, 16), Pos(10, 17)]
      {
        apples := apples + [newApples[i]];
        i := i + 1;
      }
    }

    /** Clears every flag, one property at a time. */
    method ResetKeys()
      requires WellFormed(keys)
      modifies this`keys
      ensures keys == Cleared()
    {
      var pending := keys.Keys;
      while pending != {}
        invariant WellFormed(keys) && pending <= keys.Keys
        invariant forall a :: a in keys && a !in pending ==> !keys[a]
        decreases pending
      {
        var k :| k in pending;
        keys := keys[k := false];
        pending := pending - {k};
      }
    }

    /** `resetKeys()` followed by setting one flag. */
    method Hold(a: Arrow)
      requires WellFormed(keys)
      modifies this`keys
      ensures keys == Only(a)
    {
      ResetKeys();
      keys := keys[a := true];
    }

    /** A key press. Names that are not arrow keys are ignored; an arrow is latched
        unless its reverse is the one held. */
    method KeyDown(name: string)
      requires Valid()
      modifies this`keys
      ensures Valid()
      ensures keys == match ArrowNamed(name)
                      case None => old(keys)
                      case Some(a) => Latch(old(keys), a)
    {
      if ArrowNamed(name).None? {
        return;
      }
      ghost var held :| keys == Only(held);
      if name == "ArrowUp" && !keys[ArrowDown] {
        Hold(ArrowUp);
      } else if name == "ArrowDown" && !keys[ArrowUp] {
        Hold(ArrowDown);
      } else if name == "ArrowLeft" && !keys[ArrowRight] {
        Hold(ArrowLeft);
      } else if name == "ArrowRight" && !keys[ArrowLeft] {
        Hold(ArrowRight);
      }
      LatchWhileHolding(held, ArrowNamed(name).value);
    }

    /** The first part of a movement step: the head is put in front of the tail,
        which then loses its last entry if it has grown longer than the snake. */
    method RecordHead()
      requires Valid()
      modifies this`tail
      ensures Valid()
      ensures tail == Shifted(old(tail), Head(), length)
    {
      tail := [Pos(x, y)] + tail;
      if |tail| > length {
        tail := tail[..|tail| - 1];
      }
    }

    /** The second part of a movement step: each latched flag moves the head by one
        cell on its axis. */
    method StepHead()
      requires WellFormed(keys)
      modifies this`x, this`y
      ensures Head() == Step(old(Head()), keys)
    {
      if keys[ArrowUp] { y := y - 1; }
      if keys[ArrowDown] { y := y + 1; }
      if keys[ArrowLeft] { x := x - 1; }
      if keys[ArrowRight] { x := x + 1; }
    }

    /** One movement step: record the head at the front of the tail (trimmed to the
        length), step the head by every latched flag, then end the round if the head
        left the field or landed on a tail segment. Never clears `isGameOver`. */
    method Move(width: nat, height: nat)
      requires Valid()
      modifies this`x, this`y, this`tail, this`isGameOver
      ensures Valid()
      ensures tail == Shifted(old(tail), old(Head()), length)
      ensures Head() == Step(old(Head()), keys)
      ensures isGameOver == (old(isGameOver) || Collision(Head(), tail, Cells(width), Cells(height)))
    {
      var cols := Cells(width);
      var rows := Cells(height);
      var maxX := cols as int - 1;
      var maxY := rows as int - 1;

      ghost var before := Pos(x, y);
      RecordHead();

      StepHead();

      if x < 0 || x > maxX || y < 0 || y > maxY {
        isGameOver := true;
      }
      assert isGameOver == (old(isGameOver) || !InBounds(Pos(x, y), cols, rows));

      var hit := HitsTail(tail, Pos(x, y));
      if hit {
        isGameOver := true;
      }
    }

    /** The 100 ms movement timer: a step only while the round is not over, and
        then a step of exactly one cell in the latched direction. */
    method Tick(width: nat, height: nat)
      requires Valid()
      modifies this`x, this`y, this`tail, this`isGameOver
      ensures Valid()
      ensures old(isGameOver) ==> isGameOver && Head() == old(Head()) && tail == old(tail)
      ensures !old(isGameOver) ==>
                tail == Shifted(old(tail), old(Head()), length) &&
                Head() == Step(old(Head()), keys) &&
                isGameOver == Collision(Head(), tail, Cells(width), Cells(height))
      ensures !old(isGameOver) ==> exists a :: keys == Only(a) && Head() == Neighbour(old(Head()), a)
    {
      if !isGameOver {
        ghost var before := Head();
        Move(width, height);
        ghost var held :| keys == Only(held);
        StepIsUnitMove(before, keys, held);
      }
    }

    /** The apple check of one animation frame. Each apple on the head adds one to
        the length and is replaced by the next supplied position; the result is the
        frame walk `Eat`, and the count is the number of eat sounds. */
    method EatApples(width: nat, height: nat, spawn: seq<Pos>) returns (eaten: nat)
      requires Valid()
      requires |spawn| >= |apples| && AllSpawnable(spawn, Cells(width), Cells(height))
      modifies this`length, this`apples
      ensures Valid()
      ensures Eaten(apples, eaten) == Eat(old(apples), Head(), spawn)
      ensures length == old(length) + eaten
    {
      var head := Pos(x, y);
      var n := |apples|;
      var k := 0;
      eaten := 0;
      while k < n
        invariant 0 <= eaten <= k <= n == |apples|
        invariant length == old(length) + eaten
        invariant Eat(old(apples), head, spawn)
               == var r := EatFrom(apples, head, spawn[eaten..], k); Eaten(r.apples, r.count + eaten)
      {
        if apples[k] == head {
          length := length + 1;
          var next := apples[..k] + apples[k + 1..] + [spawn[eaten]];
          assert spawn[eaten..][0] == spawn[eaten] && spawn[eaten..][1..] == spawn[eaten + 1..];
          apples := next;
          eaten := eaten + 1;
        }
        k := k + 1;
      }
    }

    /** One animation frame without the drawing: the apple check, then, once the round
        is over, the game-over sound exactly once. Afterwards the sound counts as
        played precisely when the round is over, so later frames stay silent. */
    method Animate(width: nat, height: nat, spawn: seq<Pos>) returns (eaten: nat, gameOverSound: bool)
      requires Valid()
      requires |spawn| >= |apples| && AllSpawnable(spawn, Cells(width), Cells(height))
      modifies this`length, this`apples, this`gameOverSoundPlayed
      ensures Valid()
      ensures Eaten(apples, eaten) == Eat(old(apples), Head(), spawn)
      ensures length == old(length) + eaten
      ensures gameOverSound == (isGameOver && !old(gameOverSoundPlayed))
      ensures gameOverSoundPlayed == isGameOver
    {
      eaten := EatApples(width, height, spawn);
      gameOverSound := false;
      if isGameOver {
        if !gameOverSoundPlayed {
          gameOverSound := true;
          gameOverSoundPlayed := true;
        }
      }
    }

    /** The retry button: a brand-new game, only the up arrow latched, and both
        round flags cleared. */
    method Retry(width: nat, height: nat, newApples: seq<Pos>)
      requires Valid()
      requires |newApples| == AppleCount && AllSpawnable(newApples, Cells(width), Cells(height))
      modifies this
      ensures Valid() && Initial(newApples)
    {
      NewGame(width, height, newApples);
      Hold(ArrowUp);
      isGameOver := false;
      gameOverSoundPlayed := false;
    }
  }

  /** A round on a canvas too small for a single cell: the first tick ends it,
      the game-over sound plays on the next frame only, the snake no longer moves,
      and retry starts a fresh round. */
  method ZeroFieldRound() {
    var spots := [Pos(0, 0), Pos(0, 0), Pos(0, 0), Pos(0, 0), Pos(0, 0)];
    var s := new Session(0, 0, spots);
    s.Tick(0, 0);
    StepIsUnitMove(Pos(10, 15), Only(ArrowUp), ArrowUp);
    assert s.Head() == Pos(10, 14) && s.isGameOver;
    var eaten, sound := s.Animate(0, 0, spots);
    assert sound;
    eaten, sound := s.Animate(0, 0, spots);
    assert !sound;
    s.Tick(0, 0);
    assert s.Head() == Pos(10, 14);
    s.Retry(0, 0, spots);
    assert !s.isGameOver && s.Score() == 0 && s.Head() == Pos(10, 15);
  }
}
