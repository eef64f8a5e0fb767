/** The turtle_cleaner node: the planar distance helper, the timed
    move-forward routine and the selector dispatch of its entry point.
    Time is an abstract clock (a sequence of readings), the publisher is the
    log of sent commands, and string parsing of numbers is a parameter. */
module TurtleCleaner {
  import opened GeometryMsgs

  datatype Option<T> = None | Some(value: T)

  // ---------------------------------------------------------------------
  // calculate_distance_2d
  // ---------------------------------------------------------------------

  /** The radicand of calculate_distance_2d: (x1 - x0)^2 + (y1 - y0)^2. */
  function SquaredDistance2D(x0: real, y0: real, x1: real, y1: real): (r: real)
    ensures r >= 0.0
  {
    (x1 - x0) * (x1 - x0) + (y1 - y0) * (y1 - y0)
  }

  /** Squares of non-negative reals keep their order. */
  lemma SquareMonotone(a: real, b: real)
    requires 0.0 <= a && 0.0 <= b
    ensures a < b ==> a * a < b * b
  {
    if a < b {
      var d := b - a;
      assert b * b == a * a + (2.0 * a + d) * d;
      assert (2.0 * a + d) * d > 0.0;
    }
  }

  lemma SquaredDistanceZeroIff(x0: real, y0: real, x1: real, y1: real)
    ensures SquaredDistance2D(x0, y0, x1, y1) == 0.0 <==> x0 == x1 && y0 == y1
  {
    var dx, dy := x1 - x0, y1 - y0;
    SquareMonotone(0.0, if dx < 0.0 then -dx else dx);
    SquareMonotone(0.0, if dy < 0.0 then -dy else dy);
  }

  /** `r` is the non-negative square root of `s`. */
  ghost predicate IsSqrt(r: real, s: real) {
    r >= 0.0 && r * r == s
  }

  /** `d` is what calculate_distance_2d(x0, y0, x1, y1) returns, in exact
      arithmetic: the square root of the squared distance. */
  ghost predicate IsDistance2D(d: real, x0: real, y0: real, x1: real, y1: real): (r: bool)
    ensures r ==> d >= Abs(x1 - x0) && d >= Abs(y1 - y0)
  {
    if d < 0.0 then false
    else
      SquareMonotone(d, Abs(x1 - x0));
      SquareMonotone(d, Abs(y1 - y0));
      IsSqrt(d, SquaredDistance2D(x0, y0, x1, y1))
  }

  /** A non-negative square root is unique, so the distance is a function
      of the two points. */
  lemma SqrtUnique(r1: real, r2: real, s: real)
    requires IsSqrt(r1, s) && IsSqrt(r2, s)
    ensures r1 == r2
  {
    SquareMonotone(r1, r2);
    SquareMonotone(r2, r1);
  }

  lemma DistanceDeterministic(d1: real, d2: real, x0: real, y0: real, x1: real, y1: real)
    requires IsDistance2D(d1, x0, y0, x1, y1) && IsDistance2D(d2, x0, y0, x1, y1)
    ensures d1 == d2
  {
    SqrtUnique(d1, d2, SquaredDistance2D(x0, y0, x1, y1));
  }

  /** distance(a, b) == distance(b, a). */
  lemma DistanceSymmetric(d: real, x0: real, y0: real, x1: real, y1: real)
    ensures IsDistance2D(d, x0, y0, x1, y1) <==> IsDistance2D(d, x1, y1, x0, y0)
  {
  }

  /** The distance is zero exactly between equal points. */
  lemma DistanceZeroIffSamePoint(d: real, x0: real, y0: real, x1: real, y1: real)
    requires IsDistance2D(d, x0, y0, x1, y1)
    ensures d == 0.0 <==> x0 == x1 && y0 == y1
  {
    SquaredDistanceZeroIff(x0, y0, x1, y1);
    SquareMonotone(0.0, d);
  }

  /** The three unit-test cases: distance((0,0),(3,3)) = sqrt(18),
      distance((0,0),(5,1)) = sqrt(26), distance((0,0),(-5,-1)) = sqrt(26). */
  lemma DistanceTestCases(d: real)
    ensures IsDistance2D(d, 0.0, 0.0, 3.0, 3.0) <==> IsSqrt(d, 18.0)
    ensures IsDistance2D(d, 0.0, 0.0, 5.0, 1.0) <==> IsSqrt(d, 26.0)
    ensures IsDistance2D(d, 0.0, 0.0, -5.0, -1.0) <==> IsSqrt(d, 26.0)
  {
  }

  // ---------------------------------------------------------------------
  // move_forward
  // ---------------------------------------------------------------------

  /** `Duration::as_secs` keeps whole seconds of a nanosecond count. */
  const NanosPerSecond: nat := 1_000_000_000

  /** One result of `t0.elapsed()`: the time since the loop started, in
      nanoseconds, or an error (the system clock stepped back behind `t0`). */
  datatype ClockReading = Elapsed(nanos: nat) | ClockError

  /** Whole seconds of an elapsed time; the sub-second part is truncated. */
  function WholeSeconds(nanos: nat): (secs: nat)
    ensures secs * NanosPerSecond <= nanos < (secs + 1) * NanosPerSecond
  {
    nanos / NanosPerSecond
  }

  function Abs(v: real): (r: real)
    ensures r >= 0.0 && (r == v || r == -v)
  {
    if v < 0.0 then -v else v
  }

  /** The command sent on every loop iteration: its linear x has magnitude
      |speed| and the sign of the direction flag; every other field keeps
      the default zero of `Twist::default()`. */
  function CruiseCommand(speed: real, moveForward: bool): (cmd: Twist)
    ensures Abs(cmd.linear.x) == Abs(speed)
    ensures moveForward ==> cmd.linear.x >= 0.0
    ensures !moveForward ==> cmd.linear.x <= 0.0
    ensures cmd.(linear := cmd.linear.(x := 0.0)) == DefaultTwist
  {
    DefaultTwist.(linear := ZeroVector3.(x := if moveForward then Abs(speed) else -Abs(speed)))
  }

  /** `r` is raw speed times the whole seconds of one of the first `k`
      successful readings. */
  ghost predicate ComesFromReading(clock: seq<ClockReading>, speed: real, k: nat, r: real)
    requires k <= |clock|
  {
    exists j :: 0 <= j < k && clock[j].Elapsed? && r == speed * (WholeSeconds(clock[j].nanos) as real)
  }

  /** The progress estimate (`current_distance`) after the first `k` loop
      iterations, iteration i having consumed `clock[i]`: starts at 0; a
      successful reading sets it to raw `speed` times whole elapsed seconds;
      a failed reading leaves it as it was. */
  function EstimateAfter(clock: seq<ClockReading>, speed: real, k: nat): (r: real)
    requires k <= |clock|
    ensures r == 0.0 || ComesFromReading(clock, speed, k, r)
  {
    if k == 0 then 0.0
    else match clock[k - 1]
      case Elapsed(nanos) => speed * (WholeSeconds(nanos) as real)
      case ClockError => EstimateAfter(clock, speed, k - 1)
  }

  /** One iteration's update of the estimate. */
  lemma EstimateStep(clock: seq<ClockReading>, speed: real, i: nat)
    requires i < |clock|
    ensures clock[i].Elapsed? ==>
      EstimateAfter(clock, speed, i + 1) == speed * (WholeSeconds(clock[i].nanos) as real)
    ensures clock[i].ClockError? ==> EstimateAfter(clock, speed, i + 1) == EstimateAfter(clock, speed, i)
  {
  }

  /** After a successful reading followed only by failed ones, the estimate
      is raw speed times that reading's whole seconds. */
  lemma {:induction false} EstimateIsLastSuccessfulReading(
    clock: seq<ClockReading>, speed: real, j: nat, k: nat, nanos: nat)
    requires j < k <= |clock| && clock[j] == Elapsed(nanos)
    requires forall i :: j < i < k ==> clock[i] == ClockError
    ensures EstimateAfter(clock, speed, k) == speed * (WholeSeconds(nanos) as real)
  {
    if k > j + 1 {
      EstimateIsLastSuccessfulReading(clock, speed, j, k - 1, nanos);
    }
  }

  /** Without any successful reading the estimate stays at its start value 0. */
  lemma {:induction false} EstimateWithoutReadingsIsZero(clock: seq<ClockReading>, speed: real, k: nat)
    requires k <= |clock|
    requires forall i :: 0 <= i < k ==> clock[i] == ClockError
    ensures EstimateAfter(clock, speed, k) == 0.0
  {
    if k > 0 {
      EstimateWithoutReadingsIsZero(clock, speed, k - 1);
    }
  }

  /** With a non-positive speed the estimate never becomes positive. */
  lemma {:induction false} EstimateNonPositive(clock: seq<ClockReading>, speed: real, k: nat)
    requires k <= |clock| && speed <= 0.0
    ensures EstimateAfter(clock, speed, k) <= 0.0
  {
    if k > 0 {
      match clock[k - 1]
      case Elapsed(nanos) =>
      case ClockError => EstimateNonPositive(clock, speed, k - 1);
    }
  }

  /** The first number of iterations, from `from` on, after which the
      estimate has reached `distance`; None when the readings run out first. */
  function FirstReached(clock: seq<ClockReading>, speed: real, distance: real, from: nat): Option<nat>
    requires from <= |clock|
    decreases |clock| - from
  {
    if EstimateAfter(clock, speed, from) >= distance then Some(from)
    else if from == |clock| then None
    else FirstReached(clock, speed, distance, from + 1)
  }

  lemma {:induction false} FirstReachedIsFirst(clock: seq<ClockReading>, speed: real, distance: real, from: nat)
    requires from <= |clock|
    ensures match FirstReached(clock, speed, distance, from)
      case Some(k) =>
        from <= k <= |clock| && EstimateAfter(clock, speed, k) >= distance &&
        forall j :: from <= j < k ==> EstimateAfter(clock, speed, j) < distance
      case None =>
        forall j :: from <= j <= |clock| ==> EstimateAfter(clock, speed, j) < distance
    decreases |clock| - from
  {
    if EstimateAfter(clock, speed, from) < distance && from < |clock| {
      FirstReachedIsFirst(clock, speed, distance, from + 1);
    }
  }

  /** How the loop of move_forward ends within the modelled readings: it
      stops after `iterations` sends, or it still has not reached `distance`
      when the readings run out (the source would loop on). */
  datatype Outcome = Stopped(iterations: nat) | ClockExhausted

  /** `k` iterations bring the estimate to `distance`, and no fewer do. */
  ghost predicate FirstReachedAt(clock: seq<ClockReading>, speed: real, distance: real, k: nat) {
    k <= |clock| && EstimateAfter(clock, speed, k) >= distance &&
    forall j :: 0 <= j < k ==> EstimateAfter(clock, speed, j) < distance
  }

  lemma FirstReachedAtUnique(clock: seq<ClockReading>, speed: real, distance: real, k1: nat, k2: nat)
    requires FirstReachedAt(clock, speed, distance, k1) && FirstReachedAt(clock, speed, distance, k2)
    ensures k1 == k2
  {
  }

  /** The loop outcome of move_forward over a clock. */
  function MoveForwardRun(clock: seq<ClockReading>, speed: real, distance: real): (r: Outcome)
    ensures r.Stopped? ==>
      r.iterations <= |clock| && EstimateAfter(clock, speed, r.iterations) >= distance
  {
    FirstReachedIsFirst(clock, speed, distance, 0);
    match FirstReached(clock, speed, distance, 0)
    case Some(k) => Stopped(k)
    case None => ClockExhausted
  }

  /** The loop exits exactly at the first iteration whose updated estimate
      is at least `distance`, and not before. */
  lemma StopsExactlyAtFirstReach(clock: seq<ClockReading>, speed: real, distance: real, k: nat)
    ensures MoveForwardRun(clock, speed, distance) == Stopped(k) <==> FirstReachedAt(clock, speed, distance, k)
  {
    FirstReachedIsFirst(clock, speed, distance, 0);
    match FirstReached(clock, speed, distance, 0)
    case Some(k') =>
      if FirstReachedAt(clock, speed, distance, k) {
        FirstReachedAtUnique(clock, speed, distance, k, k');
      }
    case None =>
  }

  /** The readings run out before the loop stops exactly when no prefix of
      them brings the estimate to `distance`. */
  lemma ExhaustedIffNeverReached(clock: seq<ClockReading>, speed: real, distance: real)
    ensures MoveForwardRun(clock, speed, distance) == ClockExhausted <==>
      forall j :: 0 <= j <= |clock| ==> EstimateAfter(clock, speed, j) < distance
  {
    FirstReachedIsFirst(clock, speed, distance, 0);
  }

  /** Everything move_forward sends, in order: the cruise command once per
      iteration, then (if the loop stopped) the command with linear x = 0. */
  function MoveForwardCommands(clock: seq<ClockReading>, speed: real, distance: real, moveForward: bool): (sent: seq<Twist>)
    ensures |sent| <= |clock| + 1
    ensures forall i :: 0 <= i < |sent| - 1 ==> sent[i] == CruiseCommand(speed, moveForward)
    ensures MoveForwardRun(clock, speed, distance).Stopped? ==> |sent| >= 1 && sent[|sent| - 1] == DefaultTwist
  {
    match MoveForwardRun(clock, speed, distance)
    case Stopped(k) => seq(k, _ => CruiseCommand(speed, moveForward)) + [DefaultTwist]
    case ClockExhausted => seq(|clock|, _ => CruiseCommand(speed, moveForward))
  }

  /** A stopped run sends iterations + 1 commands: the same unchanged cruise
      command on every iteration and the all-zero command last, whatever
      the direction flag. */
  lemma StoppedRunCommands(clock: seq<ClockReading>, speed: real, distance: real, moveForward: bool, k: nat)
    requires MoveForwardRun(clock, speed, distance) == Stopped(k)
    ensures var sent := MoveForwardCommands(clock, speed, distance, moveForward);
      |sent| == k + 1 &&
      (forall i :: 0 <= i < k ==> sent[i] == CruiseCommand(speed, moveForward)) &&
      sent[k] == DefaultTwist && sent[k].linear.x == 0.0
  {
  }

  /** A run that outlasts the readings has sent only cruise commands, one
      per reading, and no stop command yet. */
  lemma ExhaustedRunCommands(clock: seq<ClockReading>, speed: real, distance: real, moveForward: bool)
    requires MoveForwardRun(clock, speed, distance) == ClockExhausted
    ensures var sent := MoveForwardCommands(clock, speed, distance, moveForward);
      |sent| == |clock| &&
      forall i :: 0 <= i < |sent| ==> sent[i] == CruiseCommand(speed, moveForward)
  {
  }

  /** A non-positive distance skips the loop body: exactly one command, the
      zero command, is sent. */
  lemma NonPositiveDistanceSendsOnlyStop(clock: seq<ClockReading>, speed: real, distance: real, moveForward: bool)
    requires distance <= 0.0
    ensures MoveForwardRun(clock, speed, distance) == Stopped(0)
    ensures MoveForwardCommands(clock, speed, distance, moveForward) == [DefaultTwist]
  {
  }

  /** Because the estimate uses the raw speed, a non-positive speed never
      stops a run towards a positive distance, whatever the clock says. */
  lemma NonPositiveSpeedNeverStops(clock: seq<ClockReading>, speed: real, distance: real)
    requires speed <= 0.0 < distance
    ensures MoveForwardRun(clock, speed, distance) == ClockExhausted
  {
    forall j | 0 <= j <= |clock|
      ensures EstimateAfter(clock, speed, j) < distance
    {
      EstimateNonPositive(clock, speed, j);
    }
    ExhaustedIffNeverReached(clock, speed, distance);
  }

  /** The loop has stopped at the latest on the iteration that consumed the
      first reading whose whole seconds times speed reach `distance`. */
  lemma StopsByFirstSufficientReading(
    clock: seq<ClockReading>, speed: real, distance: real, j: nat, nanos: nat)
    requires j < |clock| && clock[j] == Elapsed(nanos)
    requires speed * (WholeSeconds(nanos) as real) >= distance
    ensures MoveForwardRun(clock, speed, distance).Stopped?
    ensures MoveForwardRun(clock, speed, distance).iterations <= j + 1
  {
    assert EstimateAfter(clock, speed, j + 1) >= distance;
    ExhaustedIffNeverReached(clock, speed, distance);
    var k := MoveForwardRun(clock, speed, distance).iterations;
    StopsExactlyAtFirstReach(clock, speed, distance, k);
  }

  /** Speed 2, distance 5, forward, with readings 0.5 s, a failed read,
      2.1 s, 3.0 s: the estimates are 0, 0, 4, 6, so four cruise commands
      go out and then the zero command. */
  lemma MoveForwardScenario()
    ensures var clock := [Elapsed(500_000_000), ClockError, Elapsed(2_100_000_000), Elapsed(3_000_000_000)];
      MoveForwardRun(clock, 2.0, 5.0) == Stopped(4) &&
      MoveForwardCommands(clock, 2.0, 5.0, true) ==
        [CruiseCommand(2.0, true), CruiseCommand(2.0, true), CruiseCommand(2.0, true),
         CruiseCommand(2.0, true), DefaultTwist] &&
      CruiseCommand(2.0, true).linear.x == 2.0
  {
  }

  /** move_forward: builds the cruise command, sends it once per iteration
      while the estimate is below `distance`, updating the estimate from
      the clock after each send, then zeroes linear x and sends once more.
      `clock[i]` is what `t0.elapsed()` returns on iteration i; the loop
      pacing (`rate(10.0)`, `sleep`) is not modelled. */
  method MoveForward(
    velocityPublisher: Publisher, clock: seq<ClockReading>,
    speed: real, distance: real, moveForward: bool)
    returns (outcome: Outcome)
    modifies velocityPublisher
    ensures outcome == MoveForwardRun(clock, speed, distance)
    ensures velocityPublisher.sent ==
      old(velocityPublisher.sent) + MoveForwardCommands(clock, speed, distance, moveForward)
  {
    var velocityMsg := DefaultTwist;
    if moveForward {
      velocityMsg := velocityMsg.(linear := velocityMsg.linear.(x := Abs(speed)));
    } else {
      velocityMsg := velocityMsg.(linear := velocityMsg.linear.(x := -Abs(speed)));
    }
    ghost var cruising := seq(|clock|, _ => velocityMsg);

    var currentDistance := 0.0;
    var i := 0;
    while currentDistance < distance && i < |clock|
      invariant i <= |clock|
      decreases |clock| - i
      invariant velocityMsg == CruiseCommand(speed, moveForward)
      invariant currentDistance == EstimateAfter(clock, speed, i)
      invariant forall j :: 0 <= j < i ==> EstimateAfter(clock, speed, j) < distance
      invariant velocityPublisher.sent == old(velocityPublisher.sent) + cruising[..i]
    {
      velocityPublisher.Send(velocityMsg);
      EstimateStep(clock, speed, i);
      match clock[i] {
        case Elapsed(nanos) =>
          currentDistance := speed * (WholeSeconds(nanos) as real);
        case ClockError =>
      }
      assert cruising[..i + 1] == cruising[..i] + [velocityMsg];
      i := i + 1;
    }

    if currentDistance < distance {
      // the readings ran out while the source would still be looping
      ExhaustedIffNeverReached(clock, speed, distance);
      assert cruising[..i] == cruising;
      outcome := ClockExhausted;
    } else {
      velocityMsg := velocityMsg.(linear := velocityMsg.linear.(x := 0.0));
      velocityPublisher.Send(velocityMsg);
      StopsExactlyAtFirstReach(clock, speed, distance, i);
      assert cruising[..i] == seq(i, _ => CruiseCommand(speed, moveForward));
      outcome := Stopped(i);
    }
  }

  // ---------------------------------------------------------------------
  // move_forward_caller and the selector match of main
  // ---------------------------------------------------------------------

  /** The width of the selector: `args[1].parse::<i16>()`. */
  newtype I16 = v: int | -32768 <= v < 32768

  /** Why the node panics before sending anything: an argument index past
      the end of `args`, or an argument that does not parse (`unwrap` on
      an `Err`). */
  datatype Fault = MissingArgument(index: nat) | MalformedArgument(index: nat)

  datatype Result<T> = Ok(value: T) | Err(fault: Fault)

  /** The parameters handed to move_forward. */
  datatype MoveForwardArgs = MoveForwardArgs(speed: real, distance: real, forwardFlag: bool)

  /** What the entry point does with its arguments. */
  datatype Dispatch =
    | InvokeMoveForward(params: MoveForwardArgs)
    | Unsupported(selector: I16)
    | Panic(fault: Fault)

  /** `str::parse::<bool>`: exactly "true" and "false" are accepted. */
  function ParseBool(s: string): (r: Option<bool>)
    ensures r == Some(true) <==> s == "true"
    ensures r == Some(false) <==> s == "false"
  {
    if s == "true" then Some(true) else if s == "false" then Some(false) else None
  }

  /** Index and parse argument `i` of `args` with `parse`. */
  function ArgAt<T>(args: seq<string>, i: nat, parse: string -> Option<T>): (r: Result<T>)
    ensures r.Ok? <==> i < |args| && parse(args[i]).Some?
    ensures r.Ok? ==> r.value == parse(args[i]).value
    ensures r.Err? ==> r.fault == (if i < |args| then MalformedArgument(i) else MissingArgument(i))
  {
    if i >= |args| then Err(MissingArgument(i))
    else match parse(args[i])
      case Some(v) => Ok(v)
      case None => Err(MalformedArgument(i))
  }

  /** Argument `i` of move_forward_caller (2 and 3 as f64, 4 as bool) is
      missing or malformed. */
  predicate CallerArgFails(args: seq<string>, parseF64: string -> Option<real>, i: nat) {
    if i == 4 then ArgAt(args, 4, ParseBool).Err? else ArgAt(args, i, parseF64).Err?
  }

  /** The argument handling of move_forward_caller: speed from args[2],
      distance from args[3], the direction flag from args[4], parsed in that
      order; the first failure is the panic. */
  function MoveForwardCallerArgs(args: seq<string>, parseF64: string -> Option<real>): (r: Result<MoveForwardArgs>)
    ensures r.Ok? <==> |args| >= 5 && parseF64(args[2]).Some? && parseF64(args[3]).Some? && ParseBool(args[4]).Some?
    ensures r.Ok? ==>
      r.value == MoveForwardArgs(parseF64(args[2]).value, parseF64(args[3]).value, ParseBool(args[4]).value)
    ensures r.Err? ==>
      2 <= r.fault.index <= 4 && CallerArgFails(args, parseF64, r.fault.index) &&
      (forall j :: 2 <= j < r.fault.index ==> !CallerArgFails(args, parseF64, j)) &&
      (r.fault.MissingArgument? <==> r.fault.index >= |args|)
  {
    match ArgAt(args, 2, parseF64)
    case Err(f) => Err(f)
    case Ok(speed) =>
      match ArgAt(args, 3, parseF64)
      case Err(f) => Err(f)
      case Ok(distance) =>
        match ArgAt(args, 4, ParseBool)
        case Err(f) => Err(f)
        case Ok(forwardFlag) => Ok(MoveForwardArgs(speed, distance, forwardFlag))
  }

  /** The selector match of main: args[1] as an i16; 1 routes to
      move_forward_caller, any other value is an unsupported action. */
  function Select(args: seq<string>, parseI16: string -> Option<I16>, parseF64: string -> Option<real>): (r: Dispatch)
    ensures r.Unsupported? <==> |args| >= 2 && parseI16(args[1]).Some? && parseI16(args[1]).value != 1
    ensures r.Unsupported? ==> r.selector == parseI16(args[1]).value
    ensures r.InvokeMoveForward? <==>
      |args| >= 2 && parseI16(args[1]) == Some(1) && MoveForwardCallerArgs(args, parseF64).Ok?
    ensures r.InvokeMoveForward? ==> r.params == MoveForwardCallerArgs(args, parseF64).value
    ensures r.Panic? && r.fault.index == 1 <==> ArgAt(args, 1, parseI16).Err?
    ensures r.Panic? ==>
      r.fault == (if ArgAt(args, 1, parseI16).Err? then ArgAt(args, 1, parseI16).fault
                  else MoveForwardCallerArgs(args, parseF64).fault)
  {
    match ArgAt(args, 1, parseI16)
    case Err(f) => Panic(f)
    case Ok(selector) =>
      if selector == 1 then
        match MoveForwardCallerArgs(args, parseF64)
        case Ok(params) => InvokeMoveForward(params)
        case Err(f) => Panic(f)
      else Unsupported(selector)
  }

  /** Selector 1 with well-formed arguments runs move_forward on
      (args[2], args[3], args[4]) as (speed, distance, direction flag). */
  lemma SelectorOneRoutesPositionalArgs(
    args: seq<string>, parseI16: string -> Option<I16>, parseF64: string -> Option<real>,
    speed: real, distance: real, forwardFlag: bool)
    requires |args| >= 5 && parseI16(args[1]) == Some(1)
    requires parseF64(args[2]) == Some(speed) && parseF64(args[3]) == Some(distance)
    requires ParseBool(args[4]) == Some(forwardFlag)
    ensures Select(args, parseI16, parseF64) == InvokeMoveForward(MoveForwardArgs(speed, distance, forwardFlag))
  {
  }

  /** move_forward_caller: parse the three positional parameters, then run
      move_forward with them. */
  method MoveForwardCaller(
    args: seq<string>, velocityPublisher: Publisher, clock: seq<ClockReading>,
    parseF64: string -> Option<real>)
    returns (result: Result<Outcome>)
    modifies velocityPublisher
    ensures result.Err? <==> MoveForwardCallerArgs(args, parseF64).Err?
    ensures result.Err? ==>
      (result.fault == MoveForwardCallerArgs(args, parseF64).fault &&
       velocityPublisher.sent == old(velocityPublisher.sent))
    ensures result.Ok? ==> (
      var p := MoveForwardCallerArgs(args, parseF64).value;
      result.value == MoveForwardRun(clock, p.speed, p.distance) &&
      velocityPublisher.sent ==
        old(velocityPublisher.sent) + MoveForwardCommands(clock, p.speed, p.distance, p.forwardFlag))
  {
    match MoveForwardCallerArgs(args, parseF64)
    case Err(f) =>
      result := Err(f);
    case Ok(p) =>
      var outcome := MoveForward(velocityPublisher, clock, p.speed, p.distance, p.forwardFlag);
      result := Ok(outcome);
  }

  /** The entry point after the publisher is set up: dispatch on the
      selector. An unsupported selector or a panic sends nothing. */
  method TurtleCleanerMain(
    args: seq<string>, velocityPublisher: Publisher, clock: seq<ClockReading>,
    parseI16: string -> Option<I16>, parseF64: string -> Option<real>)
    returns (dispatch: Dispatch, outcome: Option<Outcome>)
    modifies velocityPublisher
    ensures dispatch == Select(args, parseI16, parseF64)
    ensures !dispatch.InvokeMoveForward? ==>
      outcome == None && velocityPublisher.sent == old(velocityPublisher.sent)
    ensures dispatch.InvokeMoveForward? ==>
      var p := dispatch.params;
      outcome == Some(MoveForwardRun(clock, p.speed, p.distance)) &&
      velocityPublisher.sent ==
        old(velocityPublisher.sent) + MoveForwardCommands(clock, p.speed, p.distance, p.forwardFlag)
  {
    dispatch := Select(args, parseI16, parseF64);
    outcome := None;
    match ArgAt(args, 1, parseI16)
    case Err(_) =>
    case Ok(switchValue) =>
      if switchValue == 1 {
        var result := MoveForwardCaller(args, velocityPublisher, clock, parseF64);
        if result.Ok? {
          outcome := Some(result.value);
        }
      }
      // any other selector: only the "unsupported action" error is logged
  }
}
