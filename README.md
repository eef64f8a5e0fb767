# turtle_cleaner: a Dafny model

This project models the `turtle_cleaner` ROS node of the ros-tutorial
repository: the node that drives turtlesim's turtle forward by publishing
`geometry_msgs/Twist` velocity commands on `/turtle1/cmd_vel`. It covers
three parts of `src/turtle_cleaner.rs`:

- `calculate_distance_2d`, the Euclidean distance of two points, over exact
  reals;
- `move_forward`, the timed command loop. It sends one fixed cruise command
  per iteration while a time-based progress estimate is below the requested
  distance, then sends a command with linear x set to zero;
- `move_forward_caller` and the selector `match` of `main`, which route
  positional arguments into `move_forward` or report an unsupported action.

Files:

- `geometry_msgs.dfy` (module `GeometryMsgs`): the `Vector3` and `Twist`
  values with their all-zero default, and a `Publisher` class. Its only state
  is the log of the messages handed to `send`.
- `turtle_cleaner.dfy` (module `TurtleCleaner`): everything else.

How the outside world appears in the model:

- **Clock.** `t0.elapsed()` becomes a sequence of `ClockReading`s: either
  `Elapsed(nanos)` or `ClockError`. Iteration `i` of the loop consumes
  reading `i`. `Duration::as_secs` is written out as whole seconds,
  `nanos / 1_000_000_000`.
- **Finite horizon.** A finite clock sequence bounds how far a run can be
  followed. When the loop would need a reading past the end, the method
  returns `ClockExhausted` and sends nothing more; the node itself would keep
  looping.
- **Square root.** The distance has no closed form over the reals, so it is
  the predicate `IsDistance2D(d, …)`: `d` is the non-negative square root of
  the squared distance. The lemmas prove that this `d` is unique, symmetric,
  zero exactly for equal points, and equal to the square roots of 18 and 26
  in the unit-test cases. These lemmas hold for whatever `d` satisfies
  `IsDistance2D`; that such a root exists for every pair of points is not
  proved.
- **Parsing.** `str::parse::<f64>` and `str::parse::<i16>` become function
  parameters, with the selector kept in an `I16` newtype. `str::parse::<bool>`
  is written out: it accepts exactly `"true"` and `"false"`.
- **Panics.** An `args[i]` index past the end and an `unwrap` of a failed
  parse both panic in the node. The model returns them as `Panic(fault)`, and
  nothing has been sent when that happens.

Properties proved:

- **Commands sent.** Every loop iteration sends the same cruise command. Its
  linear x has magnitude |speed| and the sign of the direction flag, and every
  other field is zero. A stopped run sends `iterations + 1` commands, and the
  last one is the all-zero `Twist` whatever the direction flag. A
  non-positive distance sends exactly that one zero command.
- **Progress estimate.** The estimate equals the raw `speed` (not |speed|)
  times the whole seconds of the last successful reading. It is 0 when no
  reading has succeeded yet, and a failed read leaves it unchanged.
- **When the loop stops.** It stops exactly at the first iteration whose
  updated estimate is at least `distance`, and never before. It stops no
  later than the first reading whose whole seconds times speed reach
  `distance`. With `speed <= 0 < distance` it never stops, whatever the clock
  says: the estimate then never becomes positive.
- **Dispatch.** Selector 1 runs `move_forward` with `args[2]`, `args[3]` and
  `args[4]` as speed, distance and flag. Any other parsed selector sends
  nothing. A missing or malformed argument is reported at the first failing
  index, in the order the source parses them.

Two facts about the code's estimate: it uses whole elapsed seconds, and the
raw `speed` rather than |speed|.

## Model

| member | source | states |
|---|---|---|
| GeometryMsgs.Publisher.Send | src/turtle_cleaner.rs:38 | sending appends exactly that message to the log of sent commands |
| TurtleCleaner.SquaredDistance2D | src/turtle_cleaner.rs:14-16 | the radicand (x1-x0)^2 + (y1-y0)^2 is never negative |
| TurtleCleaner.SquaredDistanceZeroIff | src/turtle_cleaner.rs:14-16 | the squared distance is zero if and only if the two points coincide |
| TurtleCleaner.IsDistance2D | src/turtle_cleaner.rs:14-16 | the distance is the non-negative root of the squared distance, and it is at least the gap in x and at least the gap in y |
| TurtleCleaner.SqrtUnique | src/turtle_cleaner.rs:15 | the non-negative square root taken by `sqrt` is unique |
| TurtleCleaner.DistanceDeterministic | src/turtle_cleaner.rs:14-16 | two points have exactly one distance |
| TurtleCleaner.DistanceSymmetric | src/turtle_cleaner.rs:14-16 | distance(a, b) == distance(b, a) |
| TurtleCleaner.DistanceZeroIffSamePoint | src/turtle_cleaner.rs:14-16 | the distance is zero exactly when the points are equal |
| TurtleCleaner.DistanceTestCases | src/turtle_cleaner.rs:89-93 | distance((0,0),(3,3)) is sqrt(18); distance((0,0),(5,1)) and distance((0,0),(-5,-1)) are sqrt(26) |
| TurtleCleaner.WholeSeconds | src/turtle_cleaner.rs:41 | `as_secs` is the largest whole number of seconds not exceeding the elapsed time |
| TurtleCleaner.Abs | src/turtle_cleaner.rs:29-31 | `abs` is non-negative and equals v or -v |
| TurtleCleaner.CruiseCommand | src/turtle_cleaner.rs:27-32 | linear x has magnitude |speed|, is >= 0 going forward and <= 0 going backward; every other field is the default zero |
| TurtleCleaner.EstimateAfter | src/turtle_cleaner.rs:36-45 | `current_distance` after k iterations is either its initial 0 or raw speed times the whole seconds of one of the first k successful readings |
| TurtleCleaner.EstimateIsLastSuccessfulReading | src/turtle_cleaner.rs:40-45 | after a successful read followed only by failed reads, the estimate is raw speed times that read's whole seconds |
| TurtleCleaner.EstimateWithoutReadingsIsZero | src/turtle_cleaner.rs:36-45 | while every read has failed, the estimate keeps its initial value 0 |
| TurtleCleaner.EstimateNonPositive | src/turtle_cleaner.rs:36-45 | with speed <= 0 the estimate is never positive |
| TurtleCleaner.FirstReachedIsFirst | src/turtle_cleaner.rs:37-47 | the stopping search returns the least iteration count whose estimate reaches distance, or none if no count within the readings does |
| TurtleCleaner.FirstReachedAtUnique | src/turtle_cleaner.rs:37 | at most one iteration count is the first to reach distance |
| TurtleCleaner.MoveForwardRun | src/turtle_cleaner.rs:37-47 | the loop's outcome; a stopped run stops within the readings, at an iteration count whose estimate has reached distance |
| TurtleCleaner.StopsExactlyAtFirstReach | src/turtle_cleaner.rs:37-47 | the loop stops after k iterations if and only if the estimate after k reaches distance and no earlier estimate does |
| TurtleCleaner.ExhaustedIffNeverReached | src/turtle_cleaner.rs:37-47 | the readings run out with the loop still going if and only if no estimate within them reaches distance |
| TurtleCleaner.MoveForwardCommands | src/turtle_cleaner.rs:36-49 | the command log: at most one command per reading plus one; every command but the last is the cruise command; a stopped run ends with the all-zero command |
| TurtleCleaner.StoppedRunCommands | src/turtle_cleaner.rs:36-49 | a run stopping after k iterations sends k + 1 commands: k identical cruise commands, then the all-zero command |
| TurtleCleaner.ExhaustedRunCommands | src/turtle_cleaner.rs:37-47 | a run outlasting the readings has sent one cruise command per reading and no stop command |
| TurtleCleaner.NonPositiveDistanceSendsOnlyStop | src/turtle_cleaner.rs:36-49 | distance <= 0 skips the loop body and sends only the zero command |
| TurtleCleaner.NonPositiveSpeedNeverStops | src/turtle_cleaner.rs:36-45 | speed <= 0 < distance never stops, whatever the clock readings |
| TurtleCleaner.StopsByFirstSufficientReading | src/turtle_cleaner.rs:37-45 | the loop stops no later than the iteration that reads a time whose whole seconds times speed reach distance |
| TurtleCleaner.MoveForwardScenario | src/turtle_cleaner.rs:21-50 | speed 2, distance 5, forward, readings 0.5 s / error / 2.1 s / 3.0 s: four cruise commands with linear x 2, then the zero command |
| TurtleCleaner.MoveForward | src/turtle_cleaner.rs:21-50 | the method's outcome and the commands it appends to the publisher are exactly those of the loop specification above |
| TurtleCleaner.ParseBool | src/turtle_cleaner.rs:55 | the flag parses to true exactly for "true" and to false exactly for "false" |
| TurtleCleaner.ArgAt | src/turtle_cleaner.rs:53-55 | indexing then parsing succeeds exactly when the index exists and the parse succeeds; otherwise it reports a missing or a malformed argument at that index |
| TurtleCleaner.MoveForwardCallerArgs | src/turtle_cleaner.rs:52-55 | args[2], args[3], args[4] give speed, distance and flag when all three exist and parse; otherwise the fault is at the first failing index in parse order |
| TurtleCleaner.Select | src/turtle_cleaner.rs:75-81 | selector 1 with good arguments invokes move_forward with the caller's parameters; any other parsed selector is unsupported; a panic carries the fault of args[1] if that is missing or malformed, else the first failing index of args[2..4] |
| TurtleCleaner.SelectorOneRoutesPositionalArgs | src/turtle_cleaner.rs:52-62 | selector 1 runs move_forward with args[2], args[3], args[4] as speed, distance and direction flag |
| TurtleCleaner.MoveForwardCaller | src/turtle_cleaner.rs:52-63 | a parse failure sends nothing; otherwise the commands sent are those of move_forward on the parsed parameters |
| TurtleCleaner.TurtleCleanerMain | src/turtle_cleaner.rs:65-82 | an unsupported selector or a panic sends nothing; selector 1 sends exactly move_forward's commands |

## Left out

- The publisher transport, the `unwrap` on `send`, and the setup done by `rosrust::init` and `rosrust::publish` are external I/O. The publisher is only its log of sent messages.
- `rosrust::rate(10.0)` and `loop_rate.sleep()`: real-time pacing is not modelled. Readings are abstract and need not be increasing.
- `SystemTime` itself: it is replaced by the abstract sequence of readings.
- MoveForward: follows the loop only as far as the given readings reach. A run that would go on forever (for instance with `speed <= 0 < distance`) is reported as `ClockExhausted` after the last reading.
- `str::parse` for f64 and i16 is library code, so both parsers are parameters. IEEE values such as NaN or infinity, which the f64 parser accepts, have no counterpart among the reals.
- IsDistance2D: the existence of a square root for every pair of points is not proved; the distance lemmas are stated for any `d` that satisfies the predicate.
- IEEE float rounding in `powi`, `sqrt`, the multiplication of the estimate and the `as f64` conversion: the model uses exact reals.
- The logging macros (`ros_info!`, `ros_err!`): log output is not modelled. The unsupported-action case is visible only as `Unsupported(selector)` with nothing sent.
- The other source files are outside this model. They hold terminal teleoperation, OpenCV wrappers, service clients and servers, and a dummy subscriber.
