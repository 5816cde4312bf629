/** Configuration records and the progress/log/status callback plumbing
    (`core/utils.py`). */
module Config {
  import opened Base

  /** `LogLevel`: every member's value is its own name. */
  datatype LogLevel = Info | Success | Warn | Error | Fatal {
    function Value(): string {
      match this
      case Info => "INFO"
      case Success => "SUCCESS"
      case Warn => "WARN"
      case Error => "ERROR"
      case Fatal => "FATAL"
    }
  }

  /** `LogLevel(value)`: the member whose value is `s`, if any. */
  function LevelOf(s: string): Option<LogLevel> {
    if s == "INFO" then Some(Info)
    else if s == "SUCCESS" then Some(LogLevel.Success)
    else if s == "WARN" then Some(Warn)
    else if s == "ERROR" then Some(Error)
    else if s == "FATAL" then Some(Fatal)
    else None
  }

  /** The string a level forwards identifies the level: looking it up gives the
      level back, so no two levels forward the same string. */
  lemma LevelValueRoundTrip(level: LogLevel)
    ensures LevelOf(level.Value()) == Some(level)
  {
  }

  lemma {:induction false} LevelValueInjective(a: LogLevel, b: LogLevel)
    requires a.Value() == b.Value()
    ensures a == b
  {
    LevelValueRoundTrip(a);
    LevelValueRoundTrip(b);
  }

  /** A non-negative rational standing for one of the program's float settings. */
  datatype Ratio = Ratio(num: nat, den: nat)
  type Fraction = r: Ratio | r.den > 0 witness Ratio(0, 1)

  predicate Below(f: Fraction, limit: nat) { f.num < limit * f.den }
  predicate AtMost(f: Fraction, limit: nat) { f.num <= limit * f.den }

  /** `int(k * f)` for a non-negative `k`: truncation equals the floor here. */
  function Scale(k: nat, f: Fraction): (r: nat)
    ensures r * f.den <= k * f.num < (r + 1) * f.den
  {
    (k * f.num) / f.den
  }

  datatype WatermarkConfig = WatermarkConfig(
    name: string,
    path: string,
    position: string,
    opacity: Fraction,
    scale: Fraction,
    marginX: int,
    marginY: int)

  datatype CoreConfig = CoreConfig(
    inputFolder: string,
    watermark: WatermarkConfig,
    maxWorkers: int,
    timeoutSeconds: int)

  /** `WatermarkConfig(name, path)` with every other field left at its default. */
  function NewWatermarkConfig(name: string, path: string): (c: WatermarkConfig)
    ensures c.name == name && c.path == path
    ensures c.position == "top_right"
    ensures c.opacity.num * 100 == 95 * c.opacity.den
    ensures c.scale.num * 100 == 35 * c.scale.den
    ensures c.marginX == 20 && c.marginY == 20
  {
    WatermarkConfig(name, path, "top_right", Ratio(95, 100), Ratio(35, 100), 20, 20)
  }

  /** `CoreConfig(input_folder, watermark)` with the defaults. */
  function NewCoreConfig(inputFolder: string, watermark: WatermarkConfig): (c: CoreConfig)
    ensures c.inputFolder == inputFolder && c.watermark == watermark
    ensures c.maxWorkers == 8 && c.timeoutSeconds == 180
  {
    CoreConfig(inputFolder, watermark, 8, 180)
  }

  /** What reaches the caller: a callback invocation, or a line the default
      callbacks print. */
  datatype Event =
    | ProgressEvent(percent: int)
    | LogEvent(message: string, level: string)
    | StatusEvent(message: string)
    | Printed(line: string)

  /** `LoggerMixin`: whether the caller supplied callbacks or the defaults were
      installed. */
  datatype Logger = Logger(supplied: bool)

  /** `update_progress`: clamp to 0..100 and forward; the default progress
      callback does nothing. */
  function UpdateProgress(logger: Logger, value: int): (events: seq<Event>)
    ensures !logger.supplied ==> events == []
    ensures logger.supplied ==> |events| == 1 && events[0].ProgressEvent?
    ensures logger.supplied ==> 0 <= events[0].percent <= 100
    ensures logger.supplied && 0 <= value <= 100 ==> events[0].percent == value
    ensures logger.supplied && value < 0 ==> events[0].percent == 0
    ensures logger.supplied && value > 100 ==> events[0].percent == 100
  {
    if logger.supplied then [ProgressEvent(Max(0, Min(100, value)))] else []
  }

  /** `log`: forward the level's string value; the default prints `[LEVEL] message`. */
  function Log(logger: Logger, message: string, level: LogLevel): (events: seq<Event>)
    ensures |events| == 1
    ensures logger.supplied ==>
              events[0].LogEvent? && events[0].message == message && LevelOf(events[0].level) == Some(level)
    ensures !logger.supplied ==> events[0].Printed?
  {
    if logger.supplied then [LogEvent(message, level.Value())]
    else [Printed("[" + level.Value() + "] " + message)]
  }

  /** `update_status`: forward; the default prints `Status: message`. */
  function UpdateStatus(logger: Logger, message: string): (events: seq<Event>)
    ensures |events| == 1
    ensures logger.supplied ==> events == [StatusEvent(message)]
    ensures !logger.supplied ==> events == [Printed("Status: " + message)]
  {
    if logger.supplied then [StatusEvent(message)] else [Printed("Status: " + message)]
  }
}
