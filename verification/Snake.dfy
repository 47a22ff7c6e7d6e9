/** The snake game: the body in its array, the food, and what every run of the game keeps. */
module Snake {
  import opened Bytes
  import opened Veils

  const COLS := 20
  const ROWS := 14
  const MAX := 280
  const START_STEP_MS: u32 := 160
  const FASTEST_STEP_MS: u32 := 70

  datatype Cell = Cell(x: int, y: int)

  datatype State = Ready | Running | Paused | Over

  predicate OnBoard(c: Cell) {
    0 <= c.x < COLS && 0 <= c.y < ROWS
  }

  /** The four unit steps. */
  datatype Dir = Up | Down | Left | Right

  function Plus(c: Cell, d: Dir): Cell {
    match d
    case Up => Cell(c.x, c.y - 1)
    case Down => Cell(c.x, c.y + 1)
    case Left => Cell(c.x - 1, c.y)
    case Right => Cell(c.x + 1, c.y)
  }

  function Reverse(d: Dir): Dir {
    match d
    case Up => Down
    case Down => Up
    case Left => Right
    case Right => Left
  }

  predicate Adjacent(a: Cell, b: Cell) {
    exists d: Dir :: a == Plus(b, d)
  }

  ghost predicate Linked(s: seq<Cell>) {
    && (forall i :: 0 <= i < |s| ==> OnBoard(s[i]))
    && (forall i, j :: 0 <= i < j < |s| ==> s[i] != s[j])
    && (forall i :: 0 <= i < |s| - 1 ==> Adjacent(s[i], s[i + 1]))
  }

  /** Distinct cells of the board, each next to the one after it: see `IsSnakeIs`. */
  ghost predicate IsSnake(s: seq<Cell>) {
    3 <= |s| <= MAX && Veil(Linked, s, |s|)
  }

  lemma IsSnakeIs(s: seq<Cell>)
    ensures IsSnake(s) <==> 3 <= |s| <= MAX && Linked(s)
  {
    Lift(Linked, s, |s|);
  }

  ghost predicate BoardFull(s: seq<Cell>) {
    forall c :: OnBoard(c) ==> c in s
  }

  // --- the board has a free cell until the snake is as long as it ----------

  function CellAt(i: nat): Cell {
    Cell(i % COLS, i / COLS)
  }

  function CellsBelow(n: nat): set<Cell> {
    set i | 0 <= i < n :: CellAt(i)
  }

  lemma {:induction false} CountCells(n: nat)
    ensures |CellsBelow(n)| == n
  {
    if n > 0 {
      CountCells(n - 1);
      assert CellsBelow(n) == CellsBelow(n - 1) + {CellAt(n - 1)};
      assert CellAt(n - 1) !in CellsBelow(n - 1);
    } else {
      assert CellsBelow(0) == {};
    }
  }

  lemma {:induction false} AtMost(s: seq<Cell>)
    ensures |set c | c in s| <= |s|
  {
    if s == [] {
      assert (set c | c in s) == {};
    } else {
      AtMost(s[1..]);
      assert (set c | c in s) == (set c | c in s[1..]) + {s[0]};
    }
  }

  lemma Subset(a: set<Cell>, b: set<Cell>)
    requires a <= b
    ensures |a| <= |b|
  {
    if a != {} {
      var c :| c in a;
      Subset(a - {c}, b - {c});
    }
  }

  /** A full board needs a snake of every cell. */
  lemma FullNeedsAll(s: seq<Cell>)
    requires BoardFull(s)
    ensures |s| >= MAX
  {
    var held := set c | c in s;
    forall c | c in CellsBelow(MAX)
      ensures c in held
    {
      var i :| 0 <= i < MAX && c == CellAt(i);
      assert OnBoard(c);
    }
    Subset(CellsBelow(MAX), held);
    CountCells(MAX);
    AtMost(s);
  }

  // --- one step ------------------------------------------------------------

  predicate Eats(s: seq<Cell>, food: Cell, dir: Dir)
    requires s != []
  {
    OnBoard(Plus(s[0], dir)) && Plus(s[0], dir) == food
  }

  /** The step ends the game: into the wall, or into the body. The tail cell is free unless the snake grows. */
  predicate Crashes(s: seq<Cell>, food: Cell, dir: Dir)
    requires s != []
  {
    !OnBoard(Plus(s[0], dir)) || Plus(s[0], dir) in (if Eats(s, food, dir) then s else s[..|s| - 1])
  }

  function Advanced(s: seq<Cell>, food: Cell, dir: Dir): seq<Cell>
    requires s != []
  {
    [Plus(s[0], dir)] + if Eats(s, food, dir) then s else s[..|s| - 1]
  }

  /** W, S, A and D move the head up, down, left and right, unless that is where the snake came from. */
  lemma KeysMove(s: seq<Cell>, food: Cell, dir: Dir, next: Dir, keys: Keys)
    requires s != []
    ensures var (x, y) := (s[0].x, s[0].y);
            var head := Advanced(s, food, Turned(dir, next, keys))[0];
            && (keys == Keys(true, false, false, false, false, false) && dir != Down ==> head == Cell(x, y - 1))
            && (keys == Keys(false, true, false, false, false, false) && dir != Up ==> head == Cell(x, y + 1))
            && (keys == Keys(false, false, true, false, false, false) && dir != Right ==> head == Cell(x - 1, y))
            && (keys == Keys(false, false, false, true, false, false) && dir != Left ==> head == Cell(x + 1, y))
            && (keys == Keys(false, false, false, false, false, false) ==> Turned(dir, next, keys) == next)
  {}

  /** Turning round is going back to where one came from. */
  lemma ReverseComesBack(c: Cell, d: Dir, e: Dir)
    ensures e == Reverse(d) <==> Plus(Plus(c, d), e) == c
  {}

  /** A step that does not crash keeps a snake, one longer exactly if it ate; on a full board every meal crashes. */
  lemma AdvancedIsSnake(s: seq<Cell>, food: Cell, dir: Dir)
    requires IsSnake(s) && !Crashes(s, food, dir)
    ensures IsSnake(Advanced(s, food, dir))
    ensures |Advanced(s, food, dir)| == |s| + (if Eats(s, food, dir) then 1 else 0)
  {
    var t := Advanced(s, food, dir);
    IsSnakeIs(s);
    IsSnakeIs(t);
    forall i | 0 <= i < |t| - 1
      ensures Adjacent(t[i], t[i + 1])
    {
      if i > 0 {
        assert Adjacent(s[i - 1], s[i]);
      }
    }
    if |s| == MAX {
      FullWhenLong(s);
    }
  }

  /** A snake as long as the board covers it. */
  lemma FullWhenLong(s: seq<Cell>)
    requires IsSnake(s) && |s| == MAX
    ensures BoardFull(s)
  {
    IsSnakeIs(s);
    var held := set c | c in s;
    Distinct(s);
    forall c | OnBoard(c)
      ensures c in s
    {
      if c !in s {
        forall d | d in held + {c}
          ensures d in CellsBelow(MAX)
        {
          assert d == CellAt(d.y * COLS + d.x);
        }
        Subset(held + {c}, CellsBelow(MAX));
        CountCells(MAX);
      }
    }
  }

  lemma {:induction false} Distinct(s: seq<Cell>)
    requires forall i, j :: 0 <= i < j < |s| ==> s[i] != s[j]
    ensures |set c | c in s| == |s|
  {
    if s == [] {
      assert (set c | c in s) == {};
    } else {
      Distinct(s[1..]);
      assert (set c | c in s) == (set c | c in s[1..]) + {s[0]};
    }
  }

  // --- the step time -------------------------------------------------------

  /** The subtraction is unsigned and wraps. */
  function StepFormula(score: u16): u32 {
    var ms := WrappingSub(START_STEP_MS, 4 * score);
    if ms < FASTEST_STEP_MS then FASTEST_STEP_MS else ms
  }

  function StepTime(score: u16): u32 {
    Veil(StepFormula, score, score + 3)
  }

  /** The step time stays between the two bounds exactly up to a score of 40, and never rises until then. */
  lemma StepTimeInRangeIff(score: u16)
    ensures FASTEST_STEP_MS <= StepTime(score) <= START_STEP_MS <==> score <= 40
    ensures 0 < score <= 40 ==> StepTime(score) <= StepTime(score - 1)
  {
    Lift(StepFormula, score, score + 3);
    if score > 0 {
      var fewer: u16 := score - 1;
      Lift(StepFormula, fewer, fewer + 3);
    }
  }

  /** Past 40 the step time has wrapped: the next step is due in the very next frame. */
  lemma PastFortyEveryStepIsDue(score: u16, now: u32, frame: u32)
    requires 40 < score <= MAX && frame < 1000
    ensures Due(WrappingAdd(now, frame), WrappingAdd(now, StepTime(score)))
  {
    Lift(StepFormula, score, score + 3);
    assert StepTime(score) == 0x1_0000_0000 - 4 * (score - 40);
    Lateness(now, frame, 4 * (score - 40));
  }

  lemma Lateness(now: u32, frame: u32, early: u32)
    requires frame < 1000 && 0 < early < 1000
    ensures Due(WrappingAdd(now, frame), WrappingAdd(now, 0x1_0000_0000 - early))
  {}

  // --- the random numbers --------------------------------------------------

  function XorShift(x: bv32): bv32 {
    var a := x ^ (x << 13);
    var b := a ^ (a >> 17);
    b ^ (b << 5)
  }

  lemma XorShiftNeverZero(x: bv32)
    requires x != 0
    ensures XorShift(x) != 0
  {}

  /** The numbers that follow upon 1 in the 32-bit xorshift generator. */
  lemma FirstNumbers()
    ensures XorShift(1) == 270369 && XorShift(270369) == 67634689 && XorShift(67634689) == 2647435461
  {}

  lemma WordRange(x: bv32)
    ensures 0 <= x as int < 0x1_0000_0000
  {}

  lemma WordZero(x: u32)
    ensures x as bv32 == 0 <==> x == 0
  {}

  lemma ZeroWord(x: bv32)
    ensures x as int == 0 <==> x == 0
  {}

  function ShiftFormula(x: u32): u32 {
    WordRange(XorShift(x as bv32));
    XorShift(x as bv32) as int
  }

  function Shifted(x: u32): u32 {
    Veil(ShiftFormula, x, x + 3)
  }

  /** The generator's number after `n` steps, and the cell that it throws. */
  function Rolled(rng: u32, n: nat): u32 {
    if n == 0 then rng else Shifted(Rolled(rng, n - 1))
  }

  function Thrown(rng: u32, n: nat): Cell {
    Cell(Rolled(rng, n) % 20, Rolled(rng, n) / 256 % 14)
  }

  /** The number with its lowest bit set. */
  function Odd(n: u32): u32 {
    n - n % 2 + 1
  }

  predicate AllTaken(s: seq<Cell>, rng: u32, n: nat) {
    forall j :: 1 <= j <= n ==> Thrown(rng, j) in s
  }

  predicate FirstFreeThrow(s: seq<Cell>, rng: u32, n: nat) {
    1 <= n <= 64 && Thrown(rng, n) !in s && AllTaken(s, rng, n - 1)
  }

  lemma OnlyFirst(s: seq<Cell>, rng: u32, n: nat)
    requires n >= 1 && Thrown(rng, n) !in s && AllTaken(s, rng, n - 1)
    ensures forall k :: FirstFreeThrow(s, rng, k) ==> k == n
  {}

  /** The generator never gets stuck at zero. */
  lemma NeverStuck(x: u32)
    requires x != 0
    ensures Shifted(x) != 0
  {
    Lift(ShiftFormula, x, x + 3);
    WordZero(x);
    XorShiftNeverZero(x as bv32);
    ZeroWord(XorShift(x as bv32));
  }

  // --- the game ------------------------------------------------------------

  datatype Keys = Keys(w: bool, s: bool, a: bool, d: bool, l: bool, k: bool)

  /** A new game does not take its first step at once. */
  lemma NotYetDue(now: u32)
    ensures !Due(now, WrappingAdd(now, START_STEP_MS))
  {}

  function Asked(dir: Dir, next: Dir, pressed: bool, d: Dir): Dir {
    if pressed && d != Reverse(dir) then d else next
  }

  /** Of the directions pressed, the last in the order of the keys that does not reverse the snake. */
  function Turned(dir: Dir, next: Dir, keys: Keys): Dir {
    Asked(dir, Asked(dir, Asked(dir, Asked(dir, next, keys.w, Up), keys.s, Down), keys.a, Left), keys.d, Right)
  }

  /** L sets a game going, K then pauses or resumes it. */
  function Switched(state: State, keys: Keys): State {
    var s := if keys.l then Running else state;
    if keys.k && s == Running then Paused else if keys.k && s == Paused then Running else s
  }

  /** What is on the board, and the counts beside it. */
  type Look = (seq<Cell>, Cell, Dir, u16, u16, u32)

  class Game {
    /** Head first. */
    const body: array<Cell>
    var len: nat
    var dir: Dir
    var nextDir: Dir
    var food: Cell
    var state: State
    var score: u16
    var best: u16
    var stepMs: u32
    var nextStep: u32
    var rng: u32

    function Snake(): seq<Cell>
      requires len <= body.Length
      reads `len, body
    {
      body[..len]
    }

    predicate Playing()
      reads this
    {
      state == Running || state == Paused
    }

    function Board(): Look
      requires len <= body.Length
      reads this, body
    {
      (Snake(), food, dir, score, best, stepMs)
    }

    /** The keys begin a new game. */
    predicate Begins(keys: Keys)
      reads this
    {
      keys.l && !Playing()
    }

    /** The next step's time once the keys are taken in: pausing and resuming put it off. */
    function Timer(keys: Keys, now: u32): u32
      reads this
    {
      if (keys.l && state == Paused) || (keys.k && Playing()) then WrappingAdd(now, stepMs) else nextStep
    }

    /** A game is on, and its next step is due. */
    predicate StepsNow(keys: Keys, now: u32)
      reads this
    {
      Switched(state, keys) == Running && Due(now, Timer(keys, now))
    }

    ghost predicate Valid()
      reads this, body
    {
      && body.Length == MAX && len <= MAX
      && rng != 0
      && (Playing() ==>
        && IsSnake(Snake())
        && Plus(body[1], dir) == body[0]
        && nextDir != Reverse(dir)
        && score == len - 3
        && stepMs == StepTime(score)
        && OnBoard(food)
        && (food in Snake() ==> len == MAX))
    }

    constructor ()
      ensures Valid() && state == Ready && fresh(body) && Snake() == [] && score == best == 0 && rng == 1
    {
      body := new Cell[MAX](_ => Cell(0, 0));
      len := 0;
      dir, nextDir := Right, Right;
      food := Cell(0, 0);
      state := Ready;
      score, best := 0, 0;
      stepMs, nextStep := START_STEP_MS, 0;
      rng := 1;
    }

    method Random() returns (r: nat)
      requires rng != 0
      modifies this`rng
      ensures r == rng == Shifted(old(rng)) != 0
    {
      NeverStuck(rng);
      Lift(ShiftFormula, rng, rng + 3);
      rng := ShiftFormula(rng);
      r := rng;
    }

    /**
     Puts the food on a free cell: the first one of 64 throws, if there is one among these.
     It stays where it was only if the snake covers the board: see `FullIffLong`.
     */
    method PlaceFood()
      requires body.Length == MAX && len <= MAX && rng != 0 && IsSnake(Snake())
      modifies this`food, this`rng
      ensures rng != 0
      ensures if len == MAX then food == old(food) else OnBoard(food) && food !in Snake()
      ensures forall k :: FirstFreeThrow(Snake(), old(rng), k) ==> food == Thrown(old(rng), k)
    {
      FullIffLong(Snake());
      ghost var seed := rng;
      for n := 0 to 64
        invariant food == old(food) && rng == Rolled(seed, n) != 0
        invariant AllTaken(Snake(), seed, n)
      {
        var cell := Throw(seed, n);
        if cell !in body[..len] {
          food := cell;
          OnlyFirst(Snake(), seed, n + 1);
          return;
        }
      }
      FirstFree();
    }

    /** The next random cell. */
    method Throw(ghost seed: u32, ghost n: nat) returns (cell: Cell)
      requires rng == Rolled(seed, n) != 0
      modifies this`rng
      ensures rng == Rolled(seed, n + 1) != 0 && cell == Thrown(seed, n + 1) && OnBoard(cell)
    {
      var r := Random();
      cell := Cell(r % COLS, r / 256 % ROWS);
    }

    /** A crowded board: the first free cell, row by row. */
    method FirstFree()
      requires len <= body.Length
      modifies this`food
      ensures if BoardFull(Snake()) then food == old(food) else OnBoard(food) && food !in Snake()
    {
      for y := 0 to ROWS
        invariant food == old(food)
        invariant forall c :: OnBoard(c) && c.y < y ==> c in Snake()
      {
        for x := 0 to COLS
          invariant food == old(food)
          invariant forall c :: OnBoard(c) && (c.y < y || (c.y == y && c.x < x)) ==> c in Snake()
        {
          if Cell(x, y) !in body[..len] {
            food := Cell(x, y);
            return;
          }
        }
      }
    }

    /** Three cells in the middle, heading right. */
    method LayOut()
      requires body.Length == MAX
      modifies this`len, this`dir, this`nextDir, body
      ensures len == 3 && dir == nextDir == Right && IsSnake(Snake()) && Snake() == [Cell(10, 7), Cell(9, 7), Cell(8, 7)]
    {
      len := 3;
      forall i | 0 <= i < 3 {
        body[i] := Cell(COLS / 2 - i, ROWS / 2);
      }
      dir, nextDir := Right, Right;
      IsSnakeIs(Snake());
      assert Snake() == [Cell(10, 7), Cell(9, 7), Cell(8, 7)];
      assert Cell(10, 7) == Plus(Cell(9, 7), Right) && Cell(9, 7) == Plus(Cell(8, 7), Right);
    }

    /** The time with its lowest bit set. */
    method Seed(now: u32)
      modifies this`rng
      ensures rng == Odd(now)
    {
      rng := if now % 2 == 0 then now + 1 else now;
    }

    /** The next step is one step time from now. */
    method Schedule(now: u32)
      modifies this`nextStep
      ensures nextStep == WrappingAdd(now, stepMs)
    {
      nextStep := WrappingAdd(now, stepMs);
    }

    /** A new game. */
    method Start(now: u32)
      requires Valid()
      modifies this, body
      ensures Valid() && state == Running && Snake() == [Cell(10, 7), Cell(9, 7), Cell(8, 7)] && best == old(best)
      ensures score == 0 && dir == nextDir == Right && stepMs == START_STEP_MS
      ensures forall k :: FirstFreeThrow(Snake(), Odd(now), k) ==> food == Thrown(Odd(now), k)
    {
      LayOut();
      Seed(now);
      score := 0;
      stepMs := START_STEP_MS;
      Lift(StepFormula, score, score + 3);
      PlaceFood();
      state := Running;
    }

    /** Whether a step in direction `dir` crashes, and whether it eats. */
    method LookAhead(dir: Dir) returns (crashes: bool, eats: bool)
      requires body.Length == MAX && 0 < len <= MAX
      ensures crashes == Crashes(Snake(), food, dir) && eats == Eats(Snake(), food, dir)
    {
      var n := Plus(body[0], dir);
      var hitWall := !(0 <= n.x < COLS) || !(0 <= n.y < ROWS);
      eats := !hitWall && n == food;
      assert body[..len - 1] == Snake()[..len - 1];
      var hitSelf := !hitWall && n in body[..len - if eats then 0 else 1];
      crashes := hitWall || hitSelf;
    }

    /** One step in the direction last asked for. */
    method Step()
      requires Valid() && state == Running
      modifies this, body
      ensures Valid() && dir == old(nextDir) == nextDir && nextStep == old(nextStep)
      ensures (state == Over) == old(Crashes(Snake(), food, nextDir))
      ensures state == Over ==>
        Snake() == old(Snake()) && score == old(score) && best == if old(score) > old(best) then old(score) else old(best)
      ensures state != Over ==>
        && state == Running && best == old(best)
        && Snake() == old(Advanced(Snake(), food, nextDir))
        && (!old(Eats(Snake(), food, nextDir)) ==> food == old(food) && score == old(score) && stepMs == old(stepMs))
        && (old(Eats(Snake(), food, nextDir)) ==> forall k :: FirstFreeThrow(Snake(), old(rng), k) ==> food == Thrown(old(rng), k))
    {
      dir := nextDir;
      var crashes, eats := LookAhead(dir);
      if crashes {
        state := Over;
        if score > best {
          best := score;
        }
        return;
      }
      Advance(Plus(body[0], dir), eats);
    }

    /** The step goes well: the snake moves, and grows if it ate. */
    method Advance(n: Cell, eats: bool)
      requires body.Length == MAX && len <= MAX && rng != 0 && IsSnake(Snake())
      requires !Crashes(Snake(), food, dir) && n == Plus(body[0], dir) && eats == Eats(Snake(), food, dir)
      requires score == len - 3 && stepMs == StepTime(score) && OnBoard(food)
      requires food in Snake() ==> len == MAX
      modifies this`len, this`score, this`stepMs, this`food, this`rng, body
      ensures len <= MAX && rng != 0 && IsSnake(Snake()) && Snake() == old(Advanced(Snake(), food, dir))
      ensures score == len - 3 && stepMs == StepTime(score) && OnBoard(food)
      ensures food in Snake() ==> len == MAX
      ensures !eats ==> food == old(food) && score == old(score)
      ensures eats ==> forall k :: FirstFreeThrow(Snake(), old(rng), k) ==> food == Thrown(old(rng), k)
    {
      ghost var before := Snake();
      AdvancedIsSnake(before, food, dir);
      Move(n, eats);
      if eats {
        score := score + 1;
        stepMs := StepTime(score);
        PlaceFood();
      }
    }

    /** The body follows the head; the tail stays behind if the snake grows. */
    method Move(head: Cell, grows: bool)
      requires body.Length == MAX && 0 < len && (if grows then len < MAX else len <= MAX)
      modifies this`len, body
      ensures len == old(len) + (if grows then 1 else 0)
      ensures Snake() == [head] + old(if grows then Snake() else Snake()[..len - 1])
    {
      ghost var before := Snake();
      if grows {
        len := len + 1;
      }
      forall i | 1 <= i < len {
        body[i] := body[i - 1];
      }
      body[0] := head;
    }

    /** A key asks for a direction; never for the one the snake came from. */
    method Steer(d: Dir)
      requires Valid()
      modifies this`nextDir
      ensures Valid() && nextDir == if d == Reverse(dir) then old(nextDir) else d
    {
      if d != Reverse(dir) {
        nextDir := d;
      }
    }

    method SteerByKeys(keys: Keys)
      requires Valid()
      modifies this`nextDir
      ensures Valid() && nextDir == Turned(dir, old(nextDir), keys)
    {
      if keys.w { Steer(Up); }
      if keys.s { Steer(Down); }
      if keys.a { Steer(Left); }
      if keys.d { Steer(Right); }
    }

    /** L starts, restarts or resumes. */
    method PressL(now: u32)
      requires Valid()
      modifies this, body
      ensures Valid() && state == Running && best == old(best)
      ensures old(Playing()) ==>
        Board() == old(Board()) && nextDir == old(nextDir) && nextStep == if old(state) == Paused then WrappingAdd(now, stepMs) else old(nextStep)
      ensures !old(Playing()) ==> NewGame() && nextStep == WrappingAdd(now, stepMs)
    {
      if state == Ready || state == Over {
        Start(now);
        Schedule(now);
      } else if state == Paused {
        Resume(now);
      }
    }

    method Resume(now: u32)
      requires Valid() && state == Paused
      modifies this`state, this`nextStep
      ensures Valid() && state == Running && nextStep == WrappingAdd(now, stepMs)
    {
      state := Running;
      Schedule(now);
    }

    /** K pauses and resumes. */
    method PressK(now: u32)
      requires Valid()
      modifies this`state, this`nextStep
      ensures Valid() && state == if old(state) == Running then Paused else if old(state) == Paused then Running else old(state)
      ensures nextStep == if Playing() then WrappingAdd(now, stepMs) else old(nextStep)
    {
      if Playing() {
        state := if state == Running then Paused else Running;
        Schedule(now);
      }
    }

    /** Three cells in the middle, heading right, and nothing scored. */
    predicate NewGame()
      requires len <= body.Length
      reads this, body
    {
      Snake() == [Cell(10, 7), Cell(9, 7), Cell(8, 7)] && dir == nextDir == Right && score == 0 && stepMs == START_STEP_MS
    }

    /** The keys of one frame. */
    method PressKeys(keys: Keys, now: u32)
      requires Valid()
      modifies this, body
      ensures Valid() && best == old(best) && state == Switched(old(state), keys)
      ensures old(Begins(keys)) ==> NewGame() && nextStep == WrappingAdd(now, START_STEP_MS)
      ensures !old(Begins(keys)) ==>
        Board() == old(Board()) && nextDir == Turned(dir, old(nextDir), keys) && nextStep == old(Timer(keys, now))
    {
      SteerByKeys(keys);
      if keys.l {
        PressL(now);
      }
      if keys.k {
        PressK(now);
      }
    }

    /**
     One frame. The keys turn the snake, begin, pause and resume the game; then the snake
     takes one step if it is due, and otherwise nothing on the board changes.
     */
    method Update(keys: Keys, now: u32)
      requires Valid()
      modifies this, body
      ensures Valid() && best >= old(best)
      ensures old(Begins(keys)) ==>
        NewGame() && best == old(best) && state == Switched(old(state), keys) && nextStep == WrappingAdd(now, START_STEP_MS)
      ensures !old(Begins(keys) || StepsNow(keys, now)) ==>
        && Board() == old(Board()) && state == Switched(old(state), keys)
        && nextDir == Turned(dir, old(nextDir), keys) && nextStep == old(Timer(keys, now))
      ensures !old(Begins(keys)) && old(StepsNow(keys, now)) ==>
        && dir == nextDir == Turned(old(dir), old(nextDir), keys) && nextStep == WrappingAdd(now, old(stepMs))
        && (if old(Crashes(Snake(), food, Turned(dir, nextDir, keys)))
            then state == Over && Snake() == old(Snake()) && best == if old(score) > old(best) then old(score) else old(best)
            else state == Running && best == old(best) && Snake() == old(Advanced(Snake(), food, Turned(dir, nextDir, keys))))
    {
      PressKeys(keys, now);
      NotYetDue(now);
      if state == Running && Due(now, nextStep) {
        Schedule(now);
        Step();
      }
    }

    /** Coming back to a running game pauses it. */
    method OnEnter(stored: u16)
      requires Valid()
      modifies this
      ensures Valid() && best == stored && state == if old(state) == Running then Paused else old(state)
    {
      best := stored;
      if state == Running {
        state := Paused;
      }
    }
  }

  /** There is a free cell exactly until the snake is as long as the board. */
  lemma FullIffLong(s: seq<Cell>)
    requires IsSnake(s)
    ensures BoardFull(s) <==> |s| == MAX
  {
    if |s| == MAX {
      FullWhenLong(s);
    } else {
      ShortBoardHasRoom(s);
    }
  }

  lemma ShortBoardHasRoom(s: seq<Cell>)
    requires |s| < MAX
    ensures !BoardFull(s)
  {
    if BoardFull(s) {
      FullNeedsAll(s);
    }
  }
}
