/** The inner logger's `Level`: a numeric severity, its name and the syslog
    severity it corresponds to. Levels compare by the number alone. */
module LoggingLevel {
  import opened Wrappers
  import JavaNumbers
  import JavaText

  datatype Level = Level(level: int, levelStr: string, syslogEquivalent: int) {
    /** `equals`: the same numeric level; the name and syslog value are ignored. */
    predicate Equals(r: Level)
      ensures Equals(r) <==> ToInt() == r.ToInt()
    {
      level == r.level
    }

    /** `isGreaterOrEqual`: at least as severe. */
    predicate IsGreaterOrEqual(r: Level)
      ensures IsGreaterOrEqual(r) <==> ToInt() >= r.ToInt()
    {
      level >= r.level
    }

    /** `toInt`: the number, from which `toLevel(int)` finds a predefined
        level again. */
    function ToInt(): (r: int)
      ensures this in Standard ==> ToLevelIntOrDebug(r) == this
    {
      level
    }

    /** `toString`: the name, from which `toLevel(String)` finds a predefined
        level again. */
    function ToString(): (r: string)
      ensures this in Standard ==> ToLevelStringOrDebug(Some(r)) == this
    {
      if this in Standard then
        assert forall i :: 0 <= i < |levelStr| ==> 'A' <= levelStr[i] <= 'Z';
        JavaText.UpperKeepsUpperCase(levelStr);
        levelStr
      else levelStr
    }

    /** `hashCode` as written: the number, the name's hash and the syslog
        value mixed in `int` arithmetic, although `equals` looks at the
        number alone. */
    function HashCodeAsWritten(): (r: int)
      ensures JavaNumbers.Int32Min <= r <= JavaNumbers.Int32Max
    {
      var h := JavaNumbers.NarrowToInt(31 * JavaNumbers.NarrowToInt(level) + StringHash(levelStr));
      JavaNumbers.NarrowToInt(31 * h + syslogEquivalent)
    }

    /** `hashCode` consistent with `equals`: the number alone. */
    function HashCode(): (r: int)
      ensures Int32Range() ==> r == ToInt()
    {
      JavaNumbers.NarrowToInt(level)
    }

    predicate Int32Range() {
      JavaNumbers.Int32Min <= level <= JavaNumbers.Int32Max
    }
  }

  /** `String.hashCode`: `s[0]*31^(n-1) + ... + s[n-1]` in `int` arithmetic. */
  function StringHash(s: string): (r: int)
    ensures JavaNumbers.Int32Min <= r <= JavaNumbers.Int32Max
  {
    if |s| == 0 then 0 else JavaNumbers.NarrowToInt(31 * StringHash(s[..|s| - 1]) + s[|s| - 1] as int)
  }

  const OffInt: int := JavaNumbers.Int32Max
  const ErrorInt: int := 40000
  const WarnInt: int := 30000
  const InfoInt: int := 20000
  const DebugInt: int := 10000
  const AllInt: int := JavaNumbers.Int32Min

  const OFF: Level := Level(OffInt, "OFF", 0)
  const ERROR: Level := Level(ErrorInt, "ERROR", 3)
  const WARN: Level := Level(WarnInt, "WARN", 4)
  const INFO: Level := Level(InfoInt, "INFO", 6)
  const DEBUG: Level := Level(DebugInt, "DEBUG", 7)
  const ALL: Level := Level(AllInt, "ALL", 7)

  /** The six predefined levels, most severe first. */
  const Standard: seq<Level> := [OFF, ERROR, WARN, INFO, DEBUG, ALL]

  /** `toLevel(int, defaultLevel)`: the predefined level with that number,
      otherwise the default. */
  function ToLevelInt(val: int, defaultLevel: Level): (r: Level)
    ensures forall l :: l in Standard && l.level == val ==> r == l
    ensures (forall l :: l in Standard ==> l.level != val) ==> r == defaultLevel
  {
    if val == AllInt then ALL
    else if val == DebugInt then DEBUG
    else if val == InfoInt then INFO
    else if val == WarnInt then WARN
    else if val == ErrorInt then ERROR
    else if val == OffInt then OFF
    else defaultLevel
  }

  /** `toLevel(String, defaultLevel)`: null gives the default; otherwise the
      predefined level whose name equals the upper-cased text, otherwise the
      default. */
  function ToLevelString(sArg: Option<string>, defaultLevel: Level): (r: Level)
    ensures sArg.None? ==> r == defaultLevel
    ensures sArg.Some? ==> forall l :: l in Standard && l.levelStr == JavaText.Upper(sArg.value) ==> r == l
    ensures sArg.Some? && (forall l :: l in Standard ==> l.levelStr != JavaText.Upper(sArg.value)) ==>
      r == defaultLevel
  {
    if sArg.None? then defaultLevel
    else
      var s := JavaText.Upper(sArg.value);
      if s == "ALL" then ALL
      else if s == "DEBUG" then DEBUG
      else if s == "INFO" then INFO
      else if s == "WARN" then WARN
      else if s == "ERROR" then ERROR
      else if s == "OFF" then OFF
      else if s == "INFO" then INFO
      else defaultLevel
  }

  /** `toLevel(int)`: the default is DEBUG. */
  function ToLevelIntOrDebug(val: int): (r: Level)
    ensures forall l :: l in Standard && l.level == val ==> r == l
    ensures (forall l :: l in Standard ==> l.level != val) ==> r == DEBUG
    ensures r in Standard
  {
    ToLevelInt(val, DEBUG)
  }

  /** `toLevel(String)`: the default is DEBUG. */
  function ToLevelStringOrDebug(sArg: Option<string>): (r: Level)
    ensures sArg.None? ==> r == DEBUG
    ensures sArg.Some? ==> forall l :: l in Standard && l.levelStr == JavaText.Upper(sArg.value) ==> r == l
    ensures sArg.Some? && (forall l :: l in Standard ==> l.levelStr != JavaText.Upper(sArg.value)) ==>
      r == DEBUG
    ensures r in Standard
  {
    ToLevelString(sArg, DEBUG)
  }

  /** Every predefined level is found again from its number and from its name. */
  lemma StandardRoundTrips(l: Level, d: Level)
    requires l in Standard
    ensures ToLevelInt(l.ToInt(), d) == l
    ensures ToLevelString(Some(l.ToString()), d) == l
  {
    assert forall i :: 0 <= i < |l.levelStr| ==> 'A' <= l.levelStr[i] <= 'Z';
    JavaText.UpperKeepsUpperCase(l.levelStr);
  }

  /** Names are matched without regard to case. */
  lemma ToLevelStringIgnoresCase(s: string, d: Level)
    ensures ToLevelString(Some(s), d) == ToLevelString(Some(JavaText.Upper(s)), d)
  {
    JavaText.UpperIdempotent(s);
  }

  /** The predefined levels are equal under `equals` only to themselves. */
  lemma StandardLevelsDistinct(l1: Level, l2: Level)
    requires l1 in Standard && l2 in Standard
    ensures l1.Equals(l2) <==> l1 == l2
  {
  }

  /** `isGreaterOrEqual` is a total preorder whose equivalence is `equals`. */
  lemma IsGreaterOrEqualTotalPreorder(a: Level, b: Level, c: Level)
    ensures a.IsGreaterOrEqual(a)
    ensures a.IsGreaterOrEqual(b) || b.IsGreaterOrEqual(a)
    ensures a.IsGreaterOrEqual(b) && b.IsGreaterOrEqual(c) ==> a.IsGreaterOrEqual(c)
    ensures a.IsGreaterOrEqual(b) && b.IsGreaterOrEqual(a) <==> a.Equals(b)
  {
  }

  /** The predefined levels are ordered OFF, ERROR, WARN, INFO, DEBUG, ALL,
      and every level lies between ALL and OFF. */
  lemma SeverityChain(l: Level)
    requires JavaNumbers.Int32Min <= l.level <= JavaNumbers.Int32Max
    ensures forall i, j :: 0 <= i <= j < |Standard| ==> Standard[i].IsGreaterOrEqual(Standard[j])
    ensures OFF.IsGreaterOrEqual(l) && l.IsGreaterOrEqual(ALL)
  {
  }

  /** Two levels that `equals` calls equal but whose written hash codes
      differ: INFO and a copy of it with another syslog value. */
  lemma HashCodeAsWrittenBreaksEquals()
    ensures var other := INFO.(syslogEquivalent := 5);
      && INFO.Equals(other)
      && INFO.HashCodeAsWritten() != other.HashCodeAsWritten()
  {
    var other := INFO.(syslogEquivalent := 5);
    var h := JavaNumbers.NarrowToInt(31 * JavaNumbers.NarrowToInt(InfoInt) + StringHash("INFO"));
    assert other.HashCodeAsWritten() == JavaNumbers.NarrowToInt(31 * h + 5);
    assert INFO.HashCodeAsWritten() == JavaNumbers.NarrowToInt(31 * h + 6);
    NarrowToIntOfSuccessor(31 * h + 5);
  }

  /** Consecutive `long` values stay different after the `(int)` cast. */
  lemma NarrowToIntOfSuccessor(x: int)
    ensures JavaNumbers.NarrowToInt(x + 1) != JavaNumbers.NarrowToInt(x)
  {
    var a, b := JavaNumbers.NarrowToInt(x + 1), JavaNumbers.NarrowToInt(x);
    assert (x + 1 - a) % 0x1_0000_0000 == 0 && (x - b) % 0x1_0000_0000 == 0;
    if a == b {
      assert (x + 1 - a) - (x - b) == 1;
      ModDifference(x + 1 - a, x - b);
    }
  }

  lemma ModDifference(p: int, q: int)
    requires p % 0x1_0000_0000 == 0 && q % 0x1_0000_0000 == 0
    ensures p - q != 1
  {
    var m := 0x1_0000_0000;
    assert p == (p / m) * m;
    assert q == (q / m) * m;
    assert p - q == (p / m - q / m) * m;
  }

  /** The corrected hash code agrees with `equals` on every pair of `int` levels. */
  lemma HashCodeAgreesWithEquals(a: Level, b: Level)
    requires a.Int32Range() && b.Int32Range()
    ensures a.Equals(b) ==> a.HashCode() == b.HashCode()
    ensures a.HashCode() == b.HashCode() ==> a.Equals(b)
  {
  }
}
