/** The ping-pong controller: a reactive program driven by polls of a timer and four push buttons. */
module PingPong {

  newtype uint32 = x: int | 0 <= x < 0x1_0000_0000

  datatype Direction = LEFT | RIGHT
  datatype PlayStatus = LATEHIT | EARLYHIT | HIT | RESET | CONTINUOUS

  const RESETBUTTON: bv32 := 4
  const STARTBUTTON: bv32 := 2
  const LEFTPADDLE: bv32 := 8
  const RIGHTPADDLE: bv32 := 1

  const LEFT_SERVE: bv8 := 8
  const RIGHT_SERVE: bv8 := 1

  /** What one look at the hardware shows. A loop that asks for one of the two ignores the other. */
  datatype Poll = Poll(expired: bool, button: bv32)

  function Increment(n: uint32): uint32 { ((n as int + 1) % 0x1_0000_0000) as uint32 }

  // ---------- The program as a machine that takes one poll per step ----------

  datatype Mode =
    | Serving              // waiting for the start button
    | Holding              // waiting for the reset button to be released
    | Rallying(ball: bv8)  // the ball is on its way
    | Returning            // hit; waiting for the timer

  datatype State = State(mode: Mode, direction: Direction, scoreleft: uint32, scoreright: uint32)

  const POWER_ON := State(Serving, RIGHT, 0, 0)

  function Opposite(d: Direction): Direction { if d == RIGHT then LEFT else RIGHT }

  function Serve(d: Direction): bv8 { if d == RIGHT then LEFT_SERVE else RIGHT_SERVE }

  /** The paddle of the player the ball flies to, which is also the ball's last place before it. */
  function Paddle(d: Direction): bv32 { if d == RIGHT then RIGHTPADDLE else LEFTPADDLE }

  function LastPlace(d: Direction): bv8 { if d == RIGHT then RIGHT_SERVE else LEFT_SERVE }

  function Move(d: Direction, ball: bv8): bv8 { if d == RIGHT then ball >> 1 else ball << 1 }

  /** The player the ball flew to has lost. */
  function Scored(s: State): State {
    if s.direction == RIGHT then s.(mode := Serving, scoreleft := Increment(s.scoreleft))
    else s.(mode := Serving, scoreright := Increment(s.scoreright))
  }

  /** How a rally goes on after one poll. */
  function Judge(d: Direction, ball: bv8, p: Poll): PlayStatus {
    if p.expired then (if ball == LastPlace(d) then LATEHIT else CONTINUOUS)
    else if p.button == Paddle(d) && ball == LastPlace(d) then HIT
    else if p.button == RESETBUTTON then RESET
    else if p.button != 0 then EARLYHIT
    else CONTINUOUS
  }

  function Step(s: State, p: Poll): State {
    match s.mode
    case Serving =>
      if p.button == RESETBUTTON then State(Holding, s.direction, 0, 0)
      else if p.button == STARTBUTTON then
        s.(mode := Rallying(Serve(Opposite(s.direction))), direction := Opposite(s.direction))
      else s
    case Holding => if p.button == RESETBUTTON then s else s.(mode := Serving)
    case Rallying(ball) =>
      (match Judge(s.direction, ball, p)
       case CONTINUOUS => if p.expired then s.(mode := Rallying(Move(s.direction, ball))) else s
       case HIT => s.(mode := Returning)
       case _ => Scored(s))
    case Returning =>
      if p.expired then s.(mode := Rallying(Serve(Opposite(s.direction))), direction := Opposite(s.direction)) else s
  }

  function Run(s: State, polls: seq<Poll>): State {
    if polls == [] then s else Step(Run(s, polls[..|polls| - 1]), polls[|polls| - 1])
  }

  // ---------- What can happen in a step ----------

  predicate Starts(s: State, p: Poll) { s.mode.Serving? && p.button == STARTBUTTON }

  predicate Resets(s: State, p: Poll) { s.mode.Serving? && p.button == RESETBUTTON }

  /** The hit ball starts its way back. */
  predicate Returns(s: State, p: Poll) { s.mode.Returning? && p.expired }

  predicate Ends(s: State, p: Poll) { s.mode.Rallying? && Judge(s.direction, s.mode.ball, p) !in {HIT, CONTINUOUS} }

  /** How often something happened since power-on. */
  function Count(happens: (State, Poll) -> bool, polls: seq<Poll>): nat {
    if polls == [] then 0
    else
      var before, p := polls[..|polls| - 1], polls[|polls| - 1];
      Count(happens, before) + if happens(Run(POWER_ON, before), p) then 1 else 0
  }

  /** The games lost by somebody since the scores were last cleared. */
  function GamesSinceReset(polls: seq<Poll>): nat {
    if polls == [] then 0
    else
      var before, p := polls[..|polls| - 1], polls[|polls| - 1];
      if Resets(Run(POWER_ON, before), p) then 0
      else GamesSinceReset(before) + if Ends(Run(POWER_ON, before), p) then 1 else 0
  }

  /** During a rally one lamp of the four is lit. */
  predicate OneHot(s: State) { s.mode.Rallying? ==> s.mode.ball in {8, 4, 2, 1} }

  lemma {:induction false} StepIsOneHot(s: State, p: Poll)
    requires OneHot(s)
    ensures OneHot(Step(s, p))
  {
    if s.mode.Rallying? {
      assert s.mode.ball == 8 || s.mode.ball == 4 || s.mode.ball == 2 || s.mode.ball == 1;
      assert (8 as bv8) >> 1 == 4 && (4 as bv8) >> 1 == 2 && (2 as bv8) >> 1 == 1;
      assert (1 as bv8) << 1 == 2 && (2 as bv8) << 1 == 4 && (4 as bv8) << 1 == 8;
    }
  }

  lemma {:induction false} BallIsOneHot(s: State, polls: seq<Poll>)
    requires OneHot(s)
    ensures OneHot(Run(s, polls))
  {
    if polls != [] {
      BallIsOneHot(s, polls[..|polls| - 1]);
      StepIsOneHot(Run(s, polls[..|polls| - 1]), polls[|polls| - 1]);
    }
  }

  /** The ball flies to the right exactly when services and returned hits add up to an even number. */
  lemma {:induction false} DirectionIsParity(polls: seq<Poll>)
    ensures Run(POWER_ON, polls).direction == RIGHT
       <==> (Count(Starts, polls) + Count(Returns, polls)) % 2 == 0
  {
    hide Step, Starts, Returns;
    if polls != [] {
      var before := polls[..|polls| - 1];
      DirectionIsParity(before);
      Turns(Run(POWER_ON, before), polls[|polls| - 1]);
    }
  }

  lemma {:induction false} Turns(s: State, p: Poll)
    ensures Step(s, p).direction == (if Starts(s, p) || Returns(s, p) then Opposite(s.direction) else s.direction)
    ensures !(Starts(s, p) && Returns(s, p))
  {
  }

  predicate Tally(s: State, games: nat) {
    (s.scoreleft as int + s.scoreright as int - games) % 0x1_0000_0000 == 0
  }

  /** No point is lost or invented, up to the wrap-around of the two counters. */
  lemma {:induction false} ScoresAreGames(polls: seq<Poll>)
    ensures Tally(Run(POWER_ON, polls), GamesSinceReset(polls))
  {
    hide Tally, Step, Ends, Resets;
    if polls == [] {
      NoGames();
    } else {
      var before := polls[..|polls| - 1];
      ScoresAreGames(before);
      TallyStep(Run(POWER_ON, before), polls[|polls| - 1], GamesSinceReset(before));
    }
  }

  /** The games since the scores were last cleared that ended while the ball flew towards the player on side `d`. */
  function LostOn(d: Direction, polls: seq<Poll>): nat {
    if polls == [] then 0
    else
      var before, p := polls[..|polls| - 1], polls[|polls| - 1];
      if Resets(Run(POWER_ON, before), p) then 0
      else LostOn(d, before) + if Ends(Run(POWER_ON, before), p) && Run(POWER_ON, before).direction == d then 1 else 0
  }

  predicate Points(s: State, left: nat, right: nat) {
    s.scoreleft as int == left % 0x1_0000_0000 && s.scoreright as int == right % 0x1_0000_0000
  }

  /** Whose point it is: the left player has the games lost on the right, and the right player those lost on the left. */
  lemma {:induction false} PointsAreLosses(polls: seq<Poll>)
    ensures Points(Run(POWER_ON, polls), LostOn(RIGHT, polls), LostOn(LEFT, polls))
  {
    hide Points, Step, Ends, Resets;
    if polls == [] {
      NoPoints();
    } else {
      var before, p := polls[..|polls| - 1], polls[|polls| - 1];
      PointsAreLosses(before);
      PointsStep(Run(POWER_ON, before), p, LostOn(RIGHT, before), LostOn(LEFT, before));
    }
  }

  lemma {:induction false} NoPoints()
    ensures Points(POWER_ON, 0, 0)
  {
  }

  lemma {:induction false} PointsStep(s: State, p: Poll, left: nat, right: nat)
    requires Points(s, left, right)
    ensures Points(Step(s, p),
                   if Resets(s, p) then 0 else left + if Ends(s, p) && s.direction == RIGHT then 1 else 0,
                   if Resets(s, p) then 0 else right + if Ends(s, p) && s.direction == LEFT then 1 else 0)
  {
    hide Judge, Move;
    OneMorePoint(left);
    OneMorePoint(right);
  }

  lemma {:induction false} OneMorePoint(n: nat)
    ensures (n % 0x1_0000_0000 + 1) % 0x1_0000_0000 == (n + 1) % 0x1_0000_0000
  {
  }

  lemma {:induction false} NoGames()
    ensures Tally(POWER_ON, 0)
  {
  }

  lemma {:induction false} TallyStep(s: State, p: Poll, games: nat)
    requires Tally(s, games)
    ensures Tally(Step(s, p), if Resets(s, p) then 0 else games + if Ends(s, p) then 1 else 0)
  {
    hide Judge, Move;
    SumWraps(s.scoreleft as int, s.scoreright as int, games);
    SumWraps(s.scoreright as int, s.scoreleft as int, games);
  }

  lemma {:induction false} SumWraps(a: int, b: int, n: int)
    requires (a + b - n) % 0x1_0000_0000 == 0
    ensures ((a + 1) % 0x1_0000_0000 + b - (n + 1)) % 0x1_0000_0000 == 0
  {
    var m := 0x1_0000_0000;
    assert a + 1 == m * ((a + 1) / m) + (a + 1) % m;
    assert a + b - n == m * ((a + b - n) / m);
    assert (a + 1) % m + b - (n + 1) == m * ((a + b - n) / m - (a + 1) / m);
  }

  // ---------- One rally ----------

  function Expirations(polls: seq<Poll>): nat {
    if polls == [] then 0
    else Expirations(polls[..|polls| - 1]) + if polls[|polls| - 1].expired then 1 else 0
  }

  /** Nobody touches a button while it is looked at. */
  predicate Quiet(polls: seq<Poll>) { forall p <- polls :: p.expired || p.button == 0 }

  /** The lamp that is lit n places from the server. */
  function Place(d: Direction, n: nat): bv8
    requires n <= 3
  {
    if d == RIGHT then [8, 4, 2, 1][n] else [1, 2, 4, 8][n]
  }

  predicate AlwaysRallying(s: State, polls: seq<Poll>) {
    forall k | 0 <= k <= |polls| :: Run(s, polls[..k]).mode.Rallying?
  }

  /** A served ball is still flying exactly as long as no button was touched and at most three periods have passed;
      the periods alone say where it is. */
  lemma {:induction false} RallyIsTimed(s: State, polls: seq<Poll>)
    requires s.mode == Rallying(Serve(s.direction))
    ensures AlwaysRallying(s, polls) <==> Quiet(polls) && Expirations(polls) <= 3
    ensures AlwaysRallying(s, polls) ==> Run(s, polls) == s.(mode := Rallying(Place(s.direction, Expirations(polls))))
  {
    hide Judge, Move, LastPlace, Place, Serve, Quiet;
    if polls == [] {
      Served(s.direction);
      assert Quiet(polls) by { NobodyYet(); }
      assert polls[..0] == [];
    } else {
      var before, p := polls[..|polls| - 1], polls[|polls| - 1];
      RallyIsTimed(s, before);
      OnePollMore(s, polls);
      if AlwaysRallying(s, before) { Flight(s.direction, Expirations(before), p); }
    }
  }

  lemma {:induction false} Served(d: Direction)
    ensures Place(d, 0) == Serve(d)
  {
  }

  lemma {:induction false} NobodyYet()
    ensures Quiet([])
  {
  }

  lemma {:induction false} OnePollMore(s: State, polls: seq<Poll>)
    requires polls != []
    ensures var before, p := polls[..|polls| - 1], polls[|polls| - 1];
            && (AlwaysRallying(s, polls) <==> AlwaysRallying(s, before) && Run(s, polls).mode.Rallying?)
            && (Quiet(polls) <==> Quiet(before) && (p.expired || p.button == 0))
            && (AlwaysRallying(s, before) ==> Run(s, before).mode.Rallying?)
  {
    hide Run;
    var before, p := polls[..|polls| - 1], polls[|polls| - 1];
    assert polls == before + [p];
    assert forall k | 0 <= k <= |before| :: polls[..k] == before[..k];
    assert polls[..|polls|] == polls && before[..|before|] == before;
  }

  lemma {:induction false} Flight(d: Direction, n: nat, p: Poll)
    requires n <= 3
    ensures Place(d, n) == LastPlace(d) <==> n == 3
    ensures n < 3 ==> Move(d, Place(d, n)) == Place(d, n + 1)
    ensures Judge(d, Place(d, n), p) == CONTINUOUS <==> if p.expired then n < 3 else p.button == 0
  {
    assert (8 as bv8) >> 1 == 4 && (4 as bv8) >> 1 == 2 && (2 as bv8) >> 1 == 1;
    assert (1 as bv8) << 1 == 2 && (2 as bv8) << 1 == 4 && (4 as bv8) << 1 == 8;
  }

  /** A ball is hit exactly when its receiver's paddle, alone, is pressed first and after the third period;
      every other touch, and a fourth period, loses the game. */
  lemma {:induction false} HitIsTimed(s: State, polls: seq<Poll>, p: Poll)
    requires s.mode == Rallying(Serve(s.direction)) && AlwaysRallying(s, polls)
    ensures Run(s, polls + [p]).mode == Returning
       <==> Expirations(polls) == 3 && !p.expired && p.button == Paddle(s.direction)
    ensures Run(s, polls + [p]).mode == Serving
       <==> if p.expired then Expirations(polls) == 3
            else p.button != 0 && (Expirations(polls) == 3 ==> p.button != Paddle(s.direction))
  {
    RallyIsTimed(s, polls);
    Flight(s.direction, Expirations(polls), p);
    assert (polls + [p])[..|polls|] == polls;
  }

  // ---------- Waiting ----------

  /** Between games nothing happens until the start or the reset button is seen alone; a reset holds as long as its
      button is seen, and the look that ends it does nothing else; a hit ball waits for the timer alone. */
  lemma {:induction false} WaitingStays(s: State, polls: seq<Poll>)
    requires s.mode.Serving? ==> forall p <- polls :: p.button != 4 && p.button != 2
    requires s.mode.Holding? ==> forall p <- polls :: p.button == 4
    requires s.mode.Returning? ==> forall p <- polls :: !p.expired
    requires !s.mode.Rallying?
    ensures Run(s, polls) == s
  {
    if polls != [] {
      var before, p := polls[..|polls| - 1], polls[|polls| - 1];
      assert p in polls && forall x <- before :: x in polls;
      WaitingStays(s, before);
    }
  }

  /** What ends the waiting, and in what state. */
  lemma {:induction false} WaitingEnds(s: State, polls: seq<Poll>, p: Poll)
    requires Run(s, polls) == s
    ensures var t := Run(s, polls + [p]);
            && (s.mode.Serving? && p.button == 4 ==> t == State(Holding, s.direction, 0, 0))
            && (s.mode.Holding? && p.button != 4 ==> t == s.(mode := Serving))
            && ((s.mode.Serving? && p.button == 2) || (s.mode.Returning? && p.expired) ==>
                  t == if s.direction == RIGHT then s.(mode := Rallying(1), direction := LEFT)
                       else s.(mode := Rallying(8), direction := RIGHT))
  {
    assert (polls + [p])[..|polls|] == polls;
  }

  // ---------- The two players are mirror images ----------

  /** The lamps seen from the other side of the table. */
  function FlipBall(b: bv8): bv8 {
    ((b & 1) << 3) | ((b & 2) << 1) | ((b & 4) >> 1) | ((b & 8) >> 3)
  }

  /** The buttons with the two paddles exchanged, whatever else is pressed with them. */
  function FlipButtons(b: bv32): bv32 {
    (b & 0xffff_fff6) | ((b & RIGHTPADDLE) << 3) | ((b & LEFTPADDLE) >> 3)
  }

  function Mirror(s: State): State {
    State(if s.mode.Rallying? then Rallying(FlipBall(s.mode.ball)) else s.mode, Opposite(s.direction),
          s.scoreright, s.scoreleft)
  }

  function MirrorPoll(p: Poll): Poll { p.(button := FlipButtons(p.button)) }

  function MirrorPolls(polls: seq<Poll>): seq<Poll> { seq(|polls|, i requires 0 <= i < |polls| => MirrorPoll(polls[i])) }

  lemma {:induction false} FlipButtonsSwaps(b: bv32)
    ensures FlipButtons(FlipButtons(b)) == b
    ensures FlipButtons(b) == RIGHTPADDLE <==> b == LEFTPADDLE
    ensures FlipButtons(b) == LEFTPADDLE <==> b == RIGHTPADDLE
    ensures b in {0, RESETBUTTON, STARTBUTTON} ==> FlipButtons(b) == b
    ensures FlipButtons(b) in {0, RESETBUTTON, STARTBUTTON} ==> b in {0, RESETBUTTON, STARTBUTTON}
  {
  }

  lemma {:induction false} FlipBallMoves(b: bv8)
    requires b in {8, 4, 2, 1}
    ensures FlipBall(b) in {8, 4, 2, 1} && FlipBall(FlipBall(b)) == b
    ensures FlipBall(b) == 1 <==> b == 8
    ensures FlipBall(b) == 8 <==> b == 1
    ensures b != 1 ==> FlipBall(b >> 1) == FlipBall(b) << 1
    ensures b != 8 ==> FlipBall(b << 1) == FlipBall(b) >> 1
  {
  }

  lemma {:induction false} JudgeMirrors(d: Direction, ball: bv8, p: Poll)
    requires ball in {8, 4, 2, 1}
    ensures Judge(Opposite(d), FlipBall(ball), MirrorPoll(p)) == Judge(d, ball, p)
    ensures Judge(d, ball, p) == CONTINUOUS && p.expired ==>
              FlipBall(Move(d, ball)) == Move(Opposite(d), FlipBall(ball))
  {
    hide FlipButtons, FlipBall;
    FlipButtonsSwaps(p.button);
    FlipBallMoves(ball);
  }

  lemma {:induction false} StepMirrors(s: State, p: Poll)
    requires OneHot(s)
    ensures Step(Mirror(s), MirrorPoll(p)) == Mirror(Step(s, p))
  {
    hide FlipButtons, FlipBall, Judge, Move;
    FlipButtonsSwaps(p.button);
    if s.mode.Rallying? { JudgeMirrors(s.direction, s.mode.ball, p); }
    FlipBallMoves(8);
    FlipBallMoves(1);
  }

  /** Played from the other side of the table, a run is the mirror image of itself. */
  lemma {:induction false} RunMirrors(s: State, polls: seq<Poll>)
    requires OneHot(s)
    ensures Run(Mirror(s), MirrorPolls(polls)) == Mirror(Run(s, polls))
  {
    if polls != [] {
      var before, p := polls[..|polls| - 1], polls[|polls| - 1];
      RunMirrors(s, before);
      BallIsOneHot(s, before);
      StepMirrors(Run(s, before), p);
      assert MirrorPolls(polls)[..|polls| - 1] == MirrorPolls(before);
    }
  }

  // ---------- The program ----------

  /** Why a rally is lost, by the last look: too late when the timer had expired, a reset or a press too early
      when not. */
  predicate Verdict(status: PlayStatus, p: Poll) {
    status == if p.expired then LATEHIT else if p.button == 4 then RESET else EARLYHIT
  }

  class Controller {
    const polls: seq<Poll>
    var pos: nat
    var ball: bv8
    var direction: Direction
    var scoreleft: uint32
    var scoreright: uint32

    ghost predicate Valid()
      reads this
    {
      pos <= |polls|
    }

    /** Where the machine stands after the polls read so far. */
    ghost function Now(): State
      reads this
      requires Valid()
    {
      Run(POWER_ON, polls[..pos])
    }

    ghost function Here(mode: Mode): State
      reads this
    {
      State(mode, direction, scoreleft, scoreright)
    }

    constructor (input: seq<Poll>)
      ensures polls == input && Valid() && pos == 0 && Now() == Here(Serving)
    {
      polls, pos, ball := input, 0, 0;
      direction, scoreleft, scoreright := RIGHT, 0, 0;
    }

    method Look() returns (p: Poll)
      requires Valid() && pos < |polls|
      modifies `pos
      ensures Valid() && pos == old(pos) + 1 && p == polls[old(pos)] && Now() == Step(old(Now()), p)
    {
      p := polls[pos];
      pos := pos + 1;
      assert polls[..pos][..pos - 1] == polls[..pos - 1];
    }

    /** The inner loop of main: until the start button is pressed. */
    method AwaitStart() returns (started: bool)
      requires Valid() && Now() == Here(Serving)
      modifies `pos, `direction, `scoreleft, `scoreright
      ensures Valid() && pos >= old(pos)
      ensures started ==> Now() == Here(Rallying(Serve(direction))) && pos > old(pos)
      ensures !started ==> pos == |polls| && (Now() == Here(Serving) || Now() == Here(Holding))
    {
      while pos < |polls|
        invariant Valid() && pos >= old(pos) && Now() == Here(Serving)
        decreases |polls| - pos
      {
        var p := Look();
        if p.button == RESETBUTTON {
          scoreright, scoreleft := 0, 0;
          while p.button == RESETBUTTON
            invariant Valid() && pos >= old(pos)
            invariant Now() == Here(if p.button == RESETBUTTON then Holding else Serving)
            decreases |polls| - pos, p.button == RESETBUTTON
          {
            if pos == |polls| { return false; }
            p := Look();
          }
        } else if p.button == STARTBUTTON {
          direction := if direction == RIGHT then LEFT else RIGHT;
          return true;
        }
      }
      return false;
    }

    /** RightPlay. A CONTINUOUS or HIT result without a new rally means that the polls have run out. */
    method RightPlay() returns (status: PlayStatus)
      requires Valid() && direction == RIGHT && Now() == Here(Rallying(LEFT_SERVE))
      modifies `pos, `ball
      ensures Valid() && pos >= old(pos)
      ensures status == CONTINUOUS ==> pos == |polls| && (Now() == Here(Rallying(ball)) || Now() == Here(Returning))
      ensures status == HIT ==> Now() == Here(Returning).(mode := Rallying(RIGHT_SERVE), direction := LEFT)
      ensures status != CONTINUOUS && status != HIT ==> Now() == Scored(Here(Serving))
      ensures status != CONTINUOUS && status != HIT ==> pos > old(pos) && Verdict(status, polls[pos - 1])
    {
      status, ball := CONTINUOUS, LEFT_SERVE;
      while status == CONTINUOUS && pos < |polls|
        invariant Valid() && pos >= old(pos) && status != HIT
        invariant status != CONTINUOUS ==> pos > old(pos) && Verdict(status, polls[pos - 1])
        invariant Now() == if status == CONTINUOUS then Here(Rallying(ball)) else Scored(Here(Serving))
        decreases |polls| - pos
      {
        var p := Look();
        if p.expired {
          if ball == RIGHT_SERVE { return LATEHIT; }
          ball := ball >> 1;
        } else if p.button == RIGHTPADDLE && ball == RIGHT_SERVE {
          ball := RIGHT_SERVE;
          status := AwaitTimer();
          return;
        } else if p.button == RESETBUTTON {
          status := RESET;
        } else if p.button != 0 {
          status := EARLYHIT;
        }
      }
    }

    /** LeftPlay, the mirror image. */
    method LeftPlay() returns (status: PlayStatus)
      requires Valid() && direction == LEFT && Now() == Here(Rallying(RIGHT_SERVE))
      modifies `pos, `ball
      ensures Valid() && pos >= old(pos)
      ensures status == CONTINUOUS ==> pos == |polls| && (Now() == Here(Rallying(ball)) || Now() == Here(Returning))
      ensures status == HIT ==> Now() == Here(Returning).(mode := Rallying(LEFT_SERVE), direction := RIGHT)
      ensures status != CONTINUOUS && status != HIT ==> Now() == Scored(Here(Serving))
      ensures status != CONTINUOUS && status != HIT ==> pos > old(pos) && Verdict(status, polls[pos - 1])
    {
      status, ball := CONTINUOUS, RIGHT_SERVE;
      while status == CONTINUOUS && pos < |polls|
        invariant Valid() && pos >= old(pos) && status != HIT
        invariant status != CONTINUOUS ==> pos > old(pos) && Verdict(status, polls[pos - 1])
        invariant Now() == if status == CONTINUOUS then Here(Rallying(ball)) else Scored(Here(Serving))
        decreases |polls| - pos
      {
        var p := Look();
        if p.expired {
          if ball == LEFT_SERVE { return LATEHIT; }
          ball := ball << 1;
        } else if p.button == LEFTPADDLE && ball == LEFT_SERVE {
          ball := LEFT_SERVE;
          status := AwaitTimer();
          return;
        } else if p.button == RESETBUTTON {
          status := RESET;
        } else if p.button != 0 {
          status := EARLYHIT;
        }
      }
    }

    /** The wait after a hit. */
    method AwaitTimer() returns (status: PlayStatus)
      requires Valid() && Now() == Here(Returning)
      modifies `pos
      ensures Valid() && pos >= old(pos)
      ensures status == HIT || status == CONTINUOUS
      ensures status == HIT ==> Now() == Step(Here(Returning), Poll(true, 0))
      ensures status == CONTINUOUS ==> pos == |polls| && Now() == Here(Returning)
    {
      while pos < |polls|
        invariant Valid() && pos >= old(pos) && Now() == Here(Returning)
        decreases |polls| - pos
      {
        var p := Look();
        if p.expired { return HIT; }
      }
      return CONTINUOUS;
    }

    /** main, as far as the polls reach: direction and scores are those of the machine. */
    method Play()
      requires Valid() && pos == 0 && Now() == Here(Serving)
      modifies this
      ensures pos == |polls|
      ensures var s := Run(POWER_ON, polls);
              s.direction == direction && s.scoreleft == scoreleft && s.scoreright == scoreright
    {
      while pos < |polls|
        invariant Valid() && (pos == |polls| || Now() == Here(Serving))
        invariant Now() == Here(Now().mode)
        decreases |polls| - pos
      {
        var playing := AwaitStart();
        var result := CONTINUOUS;
        while playing
          invariant Valid() && Now() == (if playing then Here(Rallying(Serve(direction))) else
                      if result == CONTINUOUS || result == HIT then Here(Now().mode) else Scored(Here(Serving)))
          invariant !playing && (result == CONTINUOUS || result == HIT) ==> pos == |polls|
          invariant pos > old(pos) || pos == |polls|
          decreases |polls| - pos, playing
        {
          if direction == RIGHT { result := RightPlay(); } else { result := LeftPlay(); }
          if result == HIT {
            direction := if direction == RIGHT then LEFT else RIGHT;
          } else {
            playing := false;
          }
        }
        if result != CONTINUOUS && result != HIT {
          if direction == RIGHT { scoreleft := Increment(scoreleft); } else { scoreright := Increment(scoreright); }
        }
      }
      assert polls[..pos] == polls;
    }
  }
}
