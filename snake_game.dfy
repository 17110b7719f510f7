/**
 * The `SnakeGame` object of snake_game.py: the fields the source updates in
 * place, and its gameplay methods written step by step as the source does
 * them (insert and pop on the snake, retry loops for spawning, loops over a
 * copy of the power-up list that remove from the list itself). Each method
 * is proved to leave the object in the state the matching function of
 * SnakeSpec computes, and to keep the game invariant `Valid()`.
 */
module SnakeEngine {
  import opened Wrappers
  import opened Directions
  import opened SnakeSpec

  /** The retry loop of `spawn_fruit` and `spawn_power_up`: draw until the cell is vacant. */
  method FindVacant(draws: seq<Cell>, snake: seq<Cell>, others: seq<Cell>) returns (c: Cell)
    requires exists i :: 0 <= i < |draws| && Vacant(draws[i], snake, others)
    ensures Some(c) == FirstVacant(draws, snake, others)
  {
    var i := 0;
    while !Vacant(draws[i], snake, others)
      invariant 0 <= i < |draws|
      invariant FirstVacant(draws[i..], snake, others) == FirstVacant(draws, snake, others)
      invariant FirstVacant(draws[i..], snake, others).Some?
      decreases |draws| - i
    {
      assert draws[i..][1..] == draws[i + 1..];
      i := i + 1;
    }
    c := draws[i];
  }

  class SnakeGame {
    const gridWidth: int
    const gridHeight: int

    var snake: seq<Cell>
    var direction: Direction
    var nextDirection: Direction
    var fruit: Cell
    var powerUps: seq<PowerUp>
    var score: int
    var highScore: int
    var gameOver: bool
    var paused: bool
    var speedBoost: bool
    var wrapAround: bool
    var lastPowerUpScore: int

    /** The object's state as a value. */
    function Model(): Game
      reads this
    {
      Game(snake, direction, nextDirection, fruit, powerUps, score, highScore, gameOver, paused,
           speedBoost, wrapAround, lastPowerUpScore)
    }

    predicate Valid()
      reads this
    {
      Inv(Model(), gridWidth, gridHeight)
    }

    /**
     * `__init__`: the grid from the pixel size, the persisted high score,
     * wrap mode on, then `reset_game`.
     */
    constructor (width: int, height: int, gridSize: int, savedHighScore: int, r: Draws)
      requires gridSize > 0
      requires exists i :: 0 <= i < |r.fruitCells| &&
                 Vacant(r.fruitCells[i], StartSnake(GridCells(width, gridSize), GridCells(height, gridSize)), [])
      requires DrawsInBounds(r, GridCells(width, gridSize), GridCells(height, gridSize))
      ensures Valid()
      ensures gridWidth == GridCells(width, gridSize) && gridHeight == GridCells(height, gridSize)
      ensures snake == StartSnake(gridWidth, gridHeight) && direction == Right && nextDirection == Right
      ensures Some(fruit) == FirstVacant(r.fruitCells, snake, [])
      ensures powerUps == [] && score == 0 && highScore == savedHighScore && lastPowerUpScore == 0
      ensures !gameOver && !paused && !speedBoost && wrapAround
    {
      gridWidth := GridCells(width, gridSize);
      gridHeight := GridCells(height, gridSize);
      highScore := savedHighScore;
      powerUps := [];
      lastPowerUpScore := 0;
      paused := false;
      wrapAround := true;
      snake := [];
      direction := Right;
      nextDirection := Right;
      fruit := Cell(0, 0);
      score := 0;
      gameOver := false;
      speedBoost := false;
      new;
      assert Positions([]) == [];
      ResetGame(r);
    }

    /** `reset_game`: the start layout facing right, score zero, running, and a fresh fruit. */
    method ResetGame(r: Draws)
      requires gridWidth >= MinGridCells && gridHeight >= MinGridCells && lastPowerUpScore >= 0
      requires ResetOk(Model(), gridWidth, gridHeight, r) && DrawsInBounds(r, gridWidth, gridHeight)
      modifies this
      ensures Valid()
      ensures Model() == Reset(old(Model()), gridWidth, gridHeight, r)
    {
      var startX, startY := gridWidth / 2, gridHeight / 2;
      snake := [Cell(startX, startY), Cell(startX - 1, startY), Cell(startX - 2, startY)];
      direction := Right;
      nextDirection := Right;
      score := 0;
      gameOver := false;
      speedBoost := false;
      powerUps := [];
      paused := false;
      assert Model() == Restarted(old(Model()), gridWidth, gridHeight);
      SpawnFruit(r);
      ResetFacts(old(Model()), gridWidth, gridHeight, r);
    }

    /** `spawn_fruit`: a vacant cell for the fruit, then perhaps a power-up, throttled by score. */
    method SpawnFruit(r: Draws)
      requires CanSpawn(Model(), r)
      modifies this
      ensures Model() == Respawn(old(Model()), r)
    {
      fruit := FindVacant(r.fruitCells, snake, Positions(powerUps));
      if score - lastPowerUpScore >= PowerUpScoreGap && r.roll < PowerUpChance {
        SpawnPowerUp(r.powerUpCells);
        lastPowerUpScore := score;
      }
    }

    /** `spawn_power_up`: a star with lifespan 200 on a cell off the snake and off the fruit. */
    method SpawnPowerUp(draws: seq<Cell>)
      requires exists i :: 0 <= i < |draws| && Vacant(draws[i], snake, [fruit])
      modifies this`powerUps
      ensures powerUps == old(powerUps) + [PowerUp(FirstVacant(draws, snake, [fruit]).value, PowerUpLifespan)]
    {
      var c := FindVacant(draws, snake, [fruit]);
      powerUps := powerUps + [PowerUp(c, PowerUpLifespan)];
    }

    /** `update_power_ups`: age every entry of a copy in place and remove the expired ones. */
    method UpdatePowerUps()
      modifies this`powerUps
      ensures powerUps == Aged(old(powerUps))
    {
      var copy := powerUps;
      var i, k := 0, 0;
      while i < |copy|
        invariant 0 <= i <= |copy|
        invariant powerUps == Aged(copy[..i]) + copy[i..]
        invariant k == |Aged(copy[..i])|
      {
        AgedStep(copy, i, powerUps, k);
        var pu := PowerUp(copy[i].pos, copy[i].lifespan - 1);
        powerUps := powerUps[k := pu];
        if pu.lifespan <= 0 {
          powerUps := RemoveFirst(powerUps, pu);
        } else {
          k := k + 1;
        }
        i := i + 1;
      }
      assert copy[..i] == copy;
    }

    /** The power-up check of `update`: each entry of a copy on the head scores 20 and is removed. */
    method CollectPowerUps(head: Cell)
      modifies this`powerUps, this`score
      ensures powerUps == RemoveAt(old(powerUps), head)
      ensures score == old(score) + PowerUpPoints * CountAt(old(powerUps), head)
    {
      var copy := powerUps;
      var i := 0;
      ghost var k := 0;
      while i < |copy|
        invariant 0 <= i <= |copy|
        invariant powerUps == RemoveAt(copy[..i], head) + copy[i..]
        invariant k == |RemoveAt(copy[..i], head)|
        invariant score == old(score) + PowerUpPoints * CountAt(copy[..i], head)
      {
        k := CollectEntry(copy, head, i, k);
        i := i + 1;
      }
      assert copy[..i] == copy;
    }

    /** One entry of the copy: scored and removed from the live list when it sits on the head. */
    method CollectEntry(copy: seq<PowerUp>, head: Cell, i: nat, ghost k: nat) returns (ghost k': nat)
      requires i < |copy| && powerUps == RemoveAt(copy[..i], head) + copy[i..] && k == |RemoveAt(copy[..i], head)|
      modifies this`powerUps, this`score
      ensures powerUps == RemoveAt(copy[..i + 1], head) + copy[i + 1..]
      ensures k' == |RemoveAt(copy[..i + 1], head)|
      ensures score == old(score) + PowerUpPoints * (CountAt(copy[..i + 1], head) - CountAt(copy[..i], head))
    {
      CollectStep(copy, head, i, powerUps, k);
      k' := k;
      if head == copy[i].pos {
        score := score + PowerUpPoints;
        powerUps := RemoveFirst(powerUps, copy[i]);
      } else {
        k' := k + 1;
      }
    }

    /** `change_direction`: queue a named direction unless it reverses the committed one. */
    method ChangeDirection(newDirection: string)
      modifies this
      ensures Model() == Steer(old(Model()), newDirection)
      ensures old(Valid()) ==> Valid()
    {
      if gameOver || paused {
        return;
      }
      var d := Parse(newDirection);
      if d.Some? && d.value != Opposite(direction) {
        nextDirection := d.value;
      }
    }

    /** `toggle_pause`. */
    method TogglePause()
      modifies this
      ensures Model() == old(Model()).(paused := !old(paused))
      ensures old(Valid()) ==> Valid()
    {
      paused := !paused;
    }

    /** `toggle_wrap` (without its console message). */
    method ToggleWrap()
      modifies this
      ensures Model() == old(Model()).(wrapAround := !old(wrapAround))
      ensures old(Valid()) ==> Valid()
    {
      wrapAround := !wrapAround;
    }

    /** `set_speed_boost`. */
    method SetSpeedBoost(boost: bool)
      modifies this
      ensures Model() == old(Model()).(speedBoost := boost)
      ensures old(Valid()) ==> Valid()
    {
      speedBoost := boost;
    }

    /** `get_current_speed`: ticks per second, boosted while the flag is set. */
    function CurrentSpeed(): (s: int)
      reads this
      ensures s == BoostSpeed <==> speedBoost
      ensures s == BaseSpeed <==> !speedBoost
    {
      if speedBoost then BoostSpeed else BaseSpeed
    }

    /** `update`: one tick. */
    method Update(r: Draws)
      requires Valid() && TickOk(Model(), gridWidth, gridHeight, r) && DrawsInBounds(r, gridWidth, gridHeight)
      modifies this
      ensures Valid()
      ensures Model() == Tick(old(Model()), gridWidth, gridHeight, r)
    {
      ghost var g0 := Model();
      Step(r);
      TickKeepsInv(g0, gridWidth, gridHeight, r);
    }

    /** The statements of `update`, proved against `Tick` without the invariant. */
    method Step(r: Draws)
      requires TickOk(Model(), gridWidth, gridHeight, r)
      modifies this
      ensures Model() == Tick(old(Model()), gridWidth, gridHeight, r)
    {
      ghost var g0 := Model();
      if gameOver || paused {
        TickFrozen(g0, gridWidth, gridHeight, r);
        return;
      }
      direction := nextDirection;
      ghost var committed := Model();
      assert committed == g0.(direction := g0.nextDirection);
      var head := snake[0];
      var newHead := Cell(head.x + Dx(direction), head.y + Dy(direction));

      if wrapAround {
        newHead := WrapAround(newHead);
      } else if newHead.x < 0 || newHead.x >= gridWidth || newHead.y < 0 || newHead.y >= gridHeight {
        assert PlanTick(g0, gridWidth, gridHeight) == HitWall;
        TickEndIs(g0, gridWidth, gridHeight, r);
        Finish();
        return;
      }
      assert newHead == NextHead(g0, gridWidth, gridHeight);
      Land(g0, newHead, r);
    }

    /**
     * The rest of `update` once the head has a cell on the grid: a collision
     * with the body ends the game, any other cell is taken by `Advance`.
     */
    method Land(ghost g0: Game, newHead: Cell, r: Draws)
      requires TickOk(g0, gridWidth, gridHeight, r)
      requires Model() == g0.(direction := g0.nextDirection)
      requires !g0.gameOver && !g0.paused && PlanTick(g0, gridWidth, gridHeight) != HitWall
      requires newHead == NextHead(g0, gridWidth, gridHeight)
      modifies this
      ensures Model() == Tick(g0, gridWidth, gridHeight, r)
    {
      if newHead in snake {
        assert PlanTick(g0, gridWidth, gridHeight) == HitSelf;
        TickEndIs(g0, gridWidth, gridHeight, r);
        Finish();
        return;
      }
      if newHead == fruit {
        assert PlanTick(g0, gridWidth, gridHeight) == Eat(newHead);
        TickEatIs(g0, gridWidth, gridHeight, r, newHead);
      } else {
        assert PlanTick(g0, gridWidth, gridHeight) == Slide(newHead);
        TickSlideIs(g0, gridWidth, gridHeight, r, newHead);
      }
      Advance(newHead, r);
    }

    /** The wrap-around branch of `update`: a head past one edge re-enters at the opposite one. */
    method WrapAround(c: Cell) returns (c': Cell)
      ensures c' == Wrap(c, gridWidth, gridHeight)
    {
      c' := c;
      if c.x < 0 {
        c' := Cell(gridWidth - 1, c.y);
      } else if c.x >= gridWidth {
        c' := Cell(0, c.y);
      } else if c.y < 0 {
        c' := Cell(c.x, gridHeight - 1);
      } else if c.y >= gridHeight {
        c' := Cell(c.x, 0);
      }
    }

    /** A collision: the game ends and the high score is raised when beaten. */
    method Finish()
      modifies this`gameOver, this`highScore
      ensures Model() == EndGame(old(Model()))
    {
      gameOver := true;
      if score > highScore {
        highScore := score;
      }
    }

    /**
     * The rest of `update` once the head has a free cell: insert it, then
     * either score the fruit and respawn it or pop the tail; then the
     * power-up check and the power-up ageing.
     */
    method Advance(newHead: Cell, r: Draws)
      requires |snake| > 0
      requires newHead == fruit ==> CanSpawn(Grown(Model(), newHead), r)
      modifies this
      ensures newHead == old(fruit) ==> Model() == Collected(Respawn(Grown(old(Model()), newHead), r), newHead)
      ensures newHead != old(fruit) ==>
                Model() == Collected(old(Model()).(snake := [newHead] + old(snake)[..|old(snake)| - 1]), newHead)
    {
      ghost var g0 := Model();
      snake := [newHead] + snake;
      if newHead == fruit {
        score := score + FruitPoints;
        assert Model() == Grown(g0, newHead);
        SpawnFruit(r);
      } else {
        snake := snake[..|snake| - 1];
      }
      ghost var moved := Model();
      assert moved == if newHead == g0.fruit then Respawn(Grown(g0, newHead), r)
                      else g0.(snake := [newHead] + g0.snake[..|g0.snake| - 1]);
      CollectAndAge(newHead);
    }

    /** The end of `update`: the power-up check at the head, then `update_power_ups`. */
    method CollectAndAge(head: Cell)
      modifies this`powerUps, this`score
      ensures Model() == Collected(old(Model()), head)
    {
      CollectPowerUps(head);
      UpdatePowerUps();
    }

    /** `handle_restart`: only a finished game restarts, and only on the gesture "UP". */
    method HandleRestart(gesture: Option<string>, r: Draws)
      requires Valid()
      requires gameOver && gesture == Some("UP") ==>
                 ResetOk(Model(), gridWidth, gridHeight, r) && DrawsInBounds(r, gridWidth, gridHeight)
      modifies this
      ensures Valid()
      ensures old(gameOver) && gesture == Some("UP") ==> Model() == Reset(old(Model()), gridWidth, gridHeight, r)
      ensures !(old(gameOver) && gesture == Some("UP")) ==> Model() == old(Model())
    {
      if gameOver && gesture == Some("UP") {
        ResetGame(r);
      }
    }
  }
}
