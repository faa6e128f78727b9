/**
 * The `Logger::LogLevel` enum of src/util/logger.hpp and the bit operations
 * the logger performs on its `LogFilter` (the enum's underlying `unsigned short`).
 */
module LogLevels {
  /** `Logger::LogLevel`. */
  datatype LogLevel = None | Fatal | Error | Warning | Info | Debug | Trace

  /** The enumerator's value: one bit per level, and 0 for `NONE`. */
  function Value(l: LogLevel): bv16 {
    match l
    case None => 0
    case Fatal => 1
    case Error => 2
    case Warning => 4
    case Info => 8
    case Debug => 16
    case Trace => 32
  }

  /** Position of a level in declaration order (also the order of `str2LogLevel`'s tests). */
  function Index(l: LogLevel): (k: nat)
    ensures k < 7
  {
    match l
    case None => 0
    case Fatal => 1
    case Error => 2
    case Warning => 3
    case Info => 4
    case Debug => 5
    case Trace => 6
  }

  /** `a >= b` on the enumerators. */
  function AtLeast(a: LogLevel, b: LogLevel): bool {
    Value(a) >= Value(b)
  }

  /** Comparing enumerator values is comparing declaration positions. */
  lemma AtLeastByIndex(a: LogLevel, b: LogLevel)
    ensures AtLeast(a, b) <==> Index(b) <= Index(a)
  {
  }

  /** `filter & level != 0`. */
  function Masked(f: bv16, level: LogLevel): bool {
    f & Value(level) != 0
  }

  lemma DistinctBits(a: LogLevel, b: LogLevel)
    requires a != b
    ensures Value(a) & Value(b) == 0
  {
  }

  lemma OrKeepsOtherBit(f: bv16, a: bv16, b: bv16)
    requires a & b == 0
    ensures ((f | a) & b != 0) == (f & b != 0)
  {
  }

  lemma AndNotKeepsOtherBit(f: bv16, a: bv16, b: bv16)
    requires a & b == 0
    ensures ((f & !a) & b != 0) == (f & b != 0)
  {
  }

  lemma OrOtherLevel(f: bv16, level: LogLevel, l: LogLevel)
    requires l != level
    ensures Masked(f | Value(level), l) == Masked(f, l)
  {
    DistinctBits(level, l);
    OrKeepsOtherBit(f, Value(level), Value(l));
  }

  lemma AndNotOtherLevel(f: bv16, level: LogLevel, l: LogLevel)
    requires l != level
    ensures Masked(f & !Value(level), l) == Masked(f, l)
  {
    DistinctBits(level, l);
    AndNotKeepsOtherBit(f, Value(level), Value(l));
  }

  /** `filter | level`: that level's bit set, every other level's bit kept. */
  function WithBit(f: bv16, level: LogLevel): (g: bv16)
    ensures level != None ==> Masked(g, level)
    ensures forall l :: l != level ==> Masked(g, l) == Masked(f, l)
  {
    forall l | l != level ensures Masked(f | Value(level), l) == Masked(f, l) {
      OrOtherLevel(f, level, l);
    }
    f | Value(level)
  }

  /** `filter & ~level`: that level's bit cleared, every other level's bit kept. */
  function WithoutBit(f: bv16, level: LogLevel): (g: bv16)
    ensures !Masked(g, level)
    ensures forall l :: l != level ==> Masked(g, l) == Masked(f, l)
  {
    forall l | l != level ensures Masked(f & !Value(level), l) == Masked(f, l) {
      AndNotOtherLevel(f, level, l);
    }
    f & !Value(level)
  }

  /** `NONE` has no bit: it is never masked, and setting or clearing it changes nothing. */
  lemma NoneHasNoBit(f: bv16)
    ensures !Masked(f, None)
    ensures WithBit(f, None) == f
    ensures WithoutBit(f, None) == f
  {
    WithNone(f);
    WithoutNone(f);
  }

  lemma WithNone(f: bv16)
    ensures WithBit(f, None) == f
  {
    assert f | 0 == f;
  }

  lemma WithoutNone(f: bv16)
    ensures WithoutBit(f, None) == f
  {
    assert f & !(0 as bv16) == f;
  }

  /** Clearing a bit that was just set restores the filter when it was clear before. */
  lemma WithoutAfterWith(f: bv16, level: LogLevel)
    requires !Masked(f, level)
    ensures WithoutBit(WithBit(f, level), level) == f
  {
    var v := Value(level);
    assert (f | v) & !v == f;
  }
}

/**
 * The `dvlab::utils::Logger` class of src/util/logger.hpp: level filter,
 * mask of silenced levels, indentation, the in-memory log and the
 * level/name conversions. Terminal colouring and `fmt` formatting of the
 * message arguments are not modelled: a message is an already formatted string.
 */
module Logger {
  import Wrappers
  import opened CppSize
  import opened LogLevels

  datatype Logger = Logger(
    log: seq<string>,
    logLevel: LogLevel,
    logFilter: bv16,
    indentLevel: SizeT,
    indentWidth: SizeT)

  /** A default-constructed logger: level WARNING, nothing masked, no indentation, width 2. */
  function DefaultLogger(): (lg: Logger)
    ensures lg.log == [] && lg.indentLevel == 0 && lg.indentWidth == 2
    ensures lg.logLevel == Warning && lg.logFilter == 0
  {
    Logger([], Warning, 0, 0, 2)
  }

  /** By default fatal errors, errors and warnings print; info, debug and trace do not. */
  lemma DefaultPrinting()
    ensures IsPrinting(DefaultLogger(), Fatal) && IsPrinting(DefaultLogger(), Error) && IsPrinting(DefaultLogger(), Warning)
    ensures !IsPrinting(DefaultLogger(), Info) && !IsPrinting(DefaultLogger(), Debug) && !IsPrinting(DefaultLogger(), Trace)
  {
  }

  /** `setLogLevel`. */
  function SetLogLevel(lg: Logger, level: LogLevel): (r: Logger)
    ensures r.logLevel == level && r.log == lg.log && r.logFilter == lg.logFilter
    ensures r.indentLevel == lg.indentLevel && r.indentWidth == lg.indentWidth
  {
    lg.(logLevel := level)
  }

  /** After `setLogLevel(level)` exactly the unmasked levels up to `level` print. */
  lemma SetLogLevelPrinting(lg: Logger, level: LogLevel, l: LogLevel)
    ensures IsPrinting(SetLogLevel(lg, level), l) <==> !IsMasked(lg, l) && Index(l) <= Index(level)
  {
    PrintingByIndex(SetLogLevel(lg, level), l);
  }

  /** `isMasked`. */
  function IsMasked(lg: Logger, level: LogLevel): bool {
    Masked(lg.logFilter, level)
  }

  /** `isPrinting`: not masked, and no more verbose than the current level. */
  function IsPrinting(lg: Logger, level: LogLevel): bool {
    !IsMasked(lg, level) && AtLeast(lg.logLevel, level)
  }

  /** The level test of `isPrinting` follows declaration order. */
  lemma PrintingByIndex(lg: Logger, level: LogLevel)
    ensures IsPrinting(lg, level) <==> !IsMasked(lg, level) && Index(level) <= Index(lg.logLevel)
  {
    AtLeastByIndex(lg.logLevel, level);
  }

  /** `mask(level)`: silence exactly that level. */
  function Mask(lg: Logger, level: LogLevel): (r: Logger)
    ensures r == lg.(logFilter := r.logFilter)
    ensures level != None ==> IsMasked(r, level)
    ensures forall l :: l != level ==> IsMasked(r, l) == IsMasked(lg, l)
  {
    lg.(logFilter := WithBit(lg.logFilter, level))
  }

  /** `unmask(level)`: un-silence exactly that level. */
  function Unmask(lg: Logger, level: LogLevel): (r: Logger)
    ensures r == lg.(logFilter := r.logFilter)
    ensures !IsMasked(r, level)
    ensures forall l :: l != level ==> IsMasked(r, l) == IsMasked(lg, l)
  {
    lg.(logFilter := WithoutBit(lg.logFilter, level))
  }

  /** Unmasking undoes masking on a level that was not masked before; `NONE` is never masked. */
  lemma UnmaskAfterMask(lg: Logger, level: LogLevel)
    requires !IsMasked(lg, level)
    ensures Unmask(Mask(lg, level), level) == lg
    ensures !IsMasked(lg, None) && Mask(lg, None) == lg
  {
    WithoutAfterWith(lg.logFilter, level);
    NoneHasNoBit(lg.logFilter);
  }

  /** `indent()`: a `size_t` increment, wrapping at the top. */
  function Indent(lg: Logger): (r: Logger)
    ensures r == lg.(indentLevel := r.indentLevel)
    ensures lg.indentLevel + 1 < SizeMax ==> r.indentLevel == lg.indentLevel + 1
    ensures lg.indentLevel + 1 == SizeMax ==> r.indentLevel == 0
  {
    lg.(indentLevel := AddW(lg.indentLevel, 1))
  }

  /** `unindent()`: decrement, but never below zero. */
  function Unindent(lg: Logger): (r: Logger)
    ensures r == lg.(indentLevel := r.indentLevel)
    ensures lg.indentLevel == 0 ==> r == lg
    ensures lg.indentLevel > 0 ==> r.indentLevel + 1 == lg.indentLevel
  {
    if lg.indentLevel != 0 then lg.(indentLevel := lg.indentLevel - 1) else lg
  }

  /** `unindent` undoes `indent` unless the counter wrapped. */
  lemma UnindentAfterIndent(lg: Logger)
    requires lg.indentLevel + 1 < SizeMax
    ensures Unindent(Indent(lg)) == lg
  {
  }

  /** `logLevel2Str`. */
  function LogLevel2Str(level: LogLevel): (s: string)
    ensures |s| > 0
    ensures forall c :: c in s ==> 'a' <= c <= 'z'
  {
    match level
    case None => "none"
    case Fatal => "fatal"
    case Error => "error"
    case Warning => "warning"
    case Info => "info"
    case Debug => "debug"
    case Trace => "trace"
  }

  /** ASCII lower-casing (`toLowerString`); other characters are kept. */
  function Lower(s: string): (r: string)
    ensures |r| == |s|
    ensures forall i :: 0 <= i < |s| ==> ('A' <= s[i] <= 'Z' ==> r[i] == s[i] - 'A' + 'a') && (!('A' <= s[i] <= 'Z') ==> r[i] == s[i])
  {
    seq(|s|, i requires 0 <= i < |s| => if 'A' <= s[i] <= 'Z' then (s[i] - 'A' + 'a') as char else s[i])
  }

  /** The names in the order `str2LogLevel` tries them. */
  function Level(k: nat): (l: LogLevel)
    requires k < 7
    ensures Index(l) == k
  {
    [None, Fatal, Error, Warning, Info, Debug, Trace][k]
  }

  /** `str2LogLevel` from the `k`-th test on: the first name the lower-cased input is a prefix of. */
  function MatchFrom(lowered: string, k: nat): (r: Wrappers.Option<LogLevel>)
    requires k <= 7
    ensures r.Some? ==> k <= Index(r.value) && lowered <= LogLevel2Str(r.value)
    ensures r.Some? ==> forall j :: k <= j < Index(r.value) ==> !(lowered <= LogLevel2Str(Level(j)))
    ensures r.None? ==> forall j :: k <= j < 7 ==> !(lowered <= LogLevel2Str(Level(j)))
    decreases 7 - k
  {
    if k == 7 then Wrappers.None
    else if lowered <= LogLevel2Str(Level(k)) then Wrappers.Some(Level(k))
    else MatchFrom(lowered, k + 1)
  }

  /**
   * `str2LogLevel(str)`: any case-insensitive prefix of a level name picks
   * the first such level; the empty string picks `NONE`.
   */
  function Str2LogLevel(str: string): (r: Wrappers.Option<LogLevel>)
    ensures r.Some? ==> Lower(str) <= LogLevel2Str(r.value)
    ensures r.Some? ==> forall l :: Index(l) < Index(r.value) ==> !(Lower(str) <= LogLevel2Str(l))
    ensures r.None? <==> forall l :: !(Lower(str) <= LogLevel2Str(l))
    ensures str == [] ==> r == Wrappers.Some(None)
  {
    var r := MatchFrom(Lower(str), 0);
    forall l ensures Level(Index(l)) == l {
    }
    r
  }

  /** No level's name is a prefix of another level's name. */
  lemma NamesPrefixFree(a: LogLevel, b: LogLevel)
    requires a != b
    ensures !(LogLevel2Str(a) <= LogLevel2Str(b))
  {
    if LogLevel2Str(a) <= LogLevel2Str(b) {
      assert LogLevel2Str(a)[0] == LogLevel2Str(b)[0];
      DistinctInitials(a, b);
    }
  }

  /** The seven names start with seven different letters. */
  lemma DistinctInitials(a: LogLevel, b: LogLevel)
    requires a != b
    ensures LogLevel2Str(a)[0] != LogLevel2Str(b)[0]
  {
  }

  /** The name of every level reads back as that level. */
  lemma LevelNameRoundTrip(l: LogLevel)
    ensures Str2LogLevel(LogLevel2Str(l)) == Wrappers.Some(l)
  {
    var s := LogLevel2Str(l);
    assert Lower(s) == s;
    var r := Str2LogLevel(s);
    assert r.Some?;
    if r.value != l {
      NamesPrefixFree(l, r.value);
    }
  }

  /** Where `fmt::println` sends an entry. */
  datatype Stream = Stdout | Stderr

  /** The tag inside the brackets of an entry. */
  function Tag(level: LogLevel): string
    requires level != None
  {
    match level
    case Fatal => "Fatal"
    case Error => "Error"
    case Warning => "Warning"
    case Info => "Info"
    case Debug => "Debug"
    case Trace => "Trace"
  }

  function Spaces(n: nat): (r: string)
    ensures |r| == n && forall c :: c in r ==> c == ' '
  {
    seq(n, _ => ' ')
  }

  datatype Emitted = Emitted(logger: Logger, printed: Wrappers.Option<(Stream, string)>)

  /**
   * `fatal`/`error`/`warning`/`info`/`debug`/`trace` with the message already
   * formatted: append one entry "[Tag]" + indentation + " " + msg, and print
   * it when the level is printing. FATAL, ERROR and WARNING go to standard
   * error, the rest to standard output.
   */
  function Emit(lg: Logger, level: LogLevel, msg: string): (e: Emitted)
    requires level != None
    ensures |e.logger.log| == |lg.log| + 1 && e.logger.log[..|lg.log|] == lg.log
    ensures e.logger.(log := lg.log) == lg
    ensures var entry := e.logger.log[|lg.log|];
      && |entry| == |Tag(level)| + 3 + ToSize(lg.indentLevel * lg.indentWidth) + |msg|
      && entry[..|Tag(level)| + 2] == "[" + Tag(level) + "]"
      && entry[|Tag(level)| + 2..|entry| - |msg|] == Spaces(ToSize(lg.indentLevel * lg.indentWidth)) + " "
      && entry[|entry| - |msg|..] == msg
    ensures e.printed.Some? <==> IsPrinting(lg, level)
    ensures e.printed.Some? ==> e.printed.value.1 == e.logger.log[|lg.log|]
    ensures e.printed.Some? ==> (e.printed.value.0 == Stderr <==> Index(level) <= Index(Warning))
  {
    var entry := "[" + Tag(level) + "]" + Spaces(ToSize(lg.indentLevel * lg.indentWidth)) + " " + msg;
    assert entry[..|Tag(level)| + 2] == "[" + Tag(level) + "]";
    assert entry[|Tag(level)| + 2..|entry| - |msg|] == Spaces(ToSize(lg.indentLevel * lg.indentWidth)) + " ";
    assert entry[|entry| - |msg|..] == msg;
    var stream := if level in {Fatal, Error, Warning} then Stderr else Stdout;
    Emitted(lg.(log := lg.log + [entry]), if IsPrinting(lg, level) then Wrappers.Some((stream, entry)) else Wrappers.None)
  }

  /** A silenced entry is still kept in the log. */
  lemma MaskedStillLogged(lg: Logger, level: LogLevel, msg: string)
    requires level != None
    ensures Emit(Mask(lg, level), level, msg).printed.None?
    ensures |Emit(Mask(lg, level), level, msg).logger.log| == |lg.log| + 1
  {
  }

  /**
   * `printLogs(nLogs)`: the last `nLogs` entries, or all of them. The start
   * index is `size() - nLogs` in `size_t`, so asking for more entries than
   * exist wraps past the end and prints nothing.
   */
  function PrintLogs(lg: Logger, nLogs: Wrappers.Option<SizeT>): (lines: seq<string>)
    requires |lg.log| < SizeMax
    ensures nLogs.None? ==> lines == lg.log
    ensures nLogs.Some? && nLogs.value <= |lg.log| ==> lines == lg.log[|lg.log| - nLogs.value..]
    ensures nLogs.Some? && nLogs.value > |lg.log| ==> lines == []
  {
    var n := if nLogs.None? then |lg.log| else nLogs.value;
    var start := SubW(|lg.log|, n);
    if start < |lg.log| then lg.log[start..] else []
  }
}
