/**
 * The constant tables of the logger: the six severity levels, their plain
 * names and terminal colours, and the six-entry palette handed out to message
 * identifiers; plus the level-name renderer.
 */
module Tables {

  /** A pair of terminal escape codes: the one that starts a colour and the one that ends it. */
  datatype ColorPair = ColorPair(open: string, close: string)

  /** The severity levels, in the order (and with the ordinals) of the enumeration. */
  datatype LogLevel = Verbose | Debug | Info | Warn | Error | Wtf {
    /** The numeric value of the enumeration member, used to index the tables. */
    function Ordinal(): (r: nat)
      ensures r < |LevelNames| && r < |LevelColors|
    {
      match this
      case Verbose => 0
      case Debug => 1
      case Info => 2
      case Warn => 3
      case Error => 4
      case Wtf => 5
    }
  }

  /** Escape code that resets the foreground colour. */
  const Reset: string := "\U{1B}[39m"

  const LevelNames: seq<string> := ["verbose", "debug", "info", "warn", "error", "assert"]

  const LevelColors: seq<ColorPair> := [
    ColorPair("\U{1B}[97m", Reset),
    ColorPair("\U{1B}[94m", Reset),
    ColorPair("\U{1B}[92m", Reset),
    ColorPair("\U{1B}[93m", Reset),
    ColorPair("\U{1B}[91m", Reset),
    ColorPair("\U{1B}[95m", Reset)
  ]

  /** The palette for identifiers: bright red, green, yellow, blue, magenta, cyan. */
  const AvailableColors: seq<ColorPair> := [
    ColorPair("\U{1B}[91m", Reset),
    ColorPair("\U{1B}[92m", Reset),
    ColorPair("\U{1B}[93m", Reset),
    ColorPair("\U{1B}[94m", Reset),
    ColorPair("\U{1B}[95m", Reset),
    ColorPair("\U{1B}[96m", Reset)
  ]

  /** The number of palette entries, computed from the palette itself. */
  const AvailableColorsCount: nat := |AvailableColors|

  /**
   * The name of a level as printed when decoration is off: one of the six
   * names, non-empty, and free of escape characters.
   */
  function LevelName(level: LogLevel): (r: string)
    ensures r in LevelNames
    ensures |r| > 0 && '\U{1B}' !in r
  {
    LevelNames[level.Ordinal()]
  }

  /**
   * The level name as it appears in a log line: wrapped in the level's colour
   * when decoration is on, plain otherwise.
   */
  function ColoredLevelName(debug: bool, level: LogLevel): (r: string)
    ensures !debug ==> r == LevelName(level)
    ensures debug ==>
      var c := LevelColors[level.Ordinal()];
      |r| == |c.open| + |LevelName(level)| + |c.close| &&
      r[..|c.open|] == c.open &&
      r[|c.open|..|r| - |c.close|] == ColoredLevelName(false, level) &&
      r[|r| - |c.close|..] == c.close
  {
    if !debug then
      LevelName(level)
    else
      var c := LevelColors[level.Ordinal()];
      c.open + LevelName(level) + c.close
  }

  /** Every palette entry starts with an opening code that holds no closing bracket. */
  lemma PaletteOpenHasNoBracket(i: nat)
    requires i < AvailableColorsCount
    ensures ']' !in AvailableColors[i].open
  {
  }
}
