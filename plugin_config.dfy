/**
 * The `josm { }` extension of the Gradle plugin: the settings a build script can
 * change, with their defaults, the two counters whose setters reject negative
 * values, the check whether the configured JOSM version is recent enough for
 * separate cache and user-data directories, and the fix-up applied after the
 * project has been evaluated when it is not.
 *
 * A `java.io.File` is modelled by its path string; `File(parent, child)` is
 * `Resolve(parent, child)`.
 */
module PluginConfig {
  import opened Wrappers

  const INT_MIN: int := -0x8000_0000
  const INT_MAX: int := 0x7fff_ffff

  /** Kotlin's `Int`. */
  type Int32 = v: int | INT_MIN <= v <= INT_MAX

  /** The first JOSM version that keeps its cache and user data apart from its preferences. */
  const SEPARATE_DIRS_SINCE: int := 7841

  const DEFAULT_MAX_PLUGIN_DEPENDENCY_DEPTH: Int32 := 10
  const DEFAULT_JOSM_VERSION_FUZZINESS: Int32 := 30

  // ---------------------------------------------------------------------------
  // Decimal integers (Kotlin's `String.toIntOrNull` and `Int.toString`)
  // ---------------------------------------------------------------------------

  predicate IsDigit(c: char) {
    '0' <= c <= '9'
  }

  predicate AllDigits(s: string) {
    forall i :: 0 <= i < |s| ==> IsDigit(s[i])
  }

  /** The value of a string of decimal digits, the last digit least significant. */
  function DigitsValue(s: string): nat
    requires AllDigits(s)
    decreases |s|
  {
    if s == [] then 0
    else DigitsValue(s[..|s| - 1]) * 10 + (s[|s| - 1] as int - '0' as int)
  }

  /** The decimal digits of `n`, without leading zeros (`"0"` for zero). */
  function Digits(n: nat): (s: string)
    ensures |s| >= 1 && AllDigits(s)
    ensures |s| > 1 ==> s[0] != '0'
    decreases n
  {
    var last := (n % 10 + '0' as int) as char;
    if n < 10 then [last] else Digits(n / 10) + [last]
  }

  /** `n.toString()`: a minus sign for negative numbers, then the digits of the magnitude. */
  function DecimalString(n: int): (s: string)
    ensures |s| >= 1
    ensures s[0] == '-' <==> n < 0
  {
    if n < 0 then "-" + Digits(-n) else Digits(n)
  }

  /**
   * `s.toIntOrNull()` in radix 10: an optional `+` or `-`, then at least one
   * digit and nothing else, with a value that fits an `Int`; `None` otherwise.
   */
  function ToIntOrNull(s: string): (r: Option<Int32>)
    ensures r.Some? ==> |s| >= 1 && (IsDigit(s[0]) || s[0] == '-' || s[0] == '+')
    ensures r.Some? && s[0] == '-' ==> r.value <= 0
    ensures r.Some? && s[0] != '-' ==> r.value >= 0
  {
    if |s| == 0 then None
    else
      var digits := if s[0] == '-' || s[0] == '+' then s[1..] else s;
      if digits == [] || !AllDigits(digits) then None
      else
        var v: int := if s[0] == '-' then 0 - (DigitsValue(digits) as int) else DigitsValue(digits);
        if INT_MIN <= v <= INT_MAX then Some(v) else None
  }

  /** The digits of `n` have the value `n`. */
  lemma {:induction false} DigitsRoundTrip(n: nat)
    ensures DigitsValue(Digits(n)) == n
    decreases n
  {
    var last := (n % 10 + '0' as int) as char;
    if n >= 10 {
      var front := Digits(n / 10);
      assert (front + [last])[..|front|] == front;
      DigitsRoundTrip(n / 10);
    }
  }

  /** Every `Int` parses back from its decimal string. */
  lemma ToIntOrNullDecimal(n: Int32)
    ensures ToIntOrNull(DecimalString(n)) == Some(n)
  {
    var s := DecimalString(n);
    if n < 0 {
      var m: nat := -(n as int);
      assert s[1..] == Digits(m);
      DigitsRoundTrip(m);
    } else {
      DigitsRoundTrip(n);
    }
  }

  /** A plus sign in front of a non-negative number's digits is accepted and changes nothing. */
  lemma ToIntOrNullPlus(n: Int32)
    requires n >= 0
    ensures ToIntOrNull("+" + DecimalString(n)) == Some(n)
  {
    assert ("+" + DecimalString(n))[1..] == Digits(n);
    DigitsRoundTrip(n);
  }

  // ---------------------------------------------------------------------------
  // Paths and the version check
  // ---------------------------------------------------------------------------

  /** `File(parent, child).path` for a relative `child`. */
  function Resolve(parent: string, child: string): (r: string)
    ensures |r| == |parent| + 1 + |child|
    ensures r[..|parent|] == parent && r[|parent|] == '/' && r[|parent| + 1..] == child
  {
    parent + "/" + child
  }

  /**
   * `useSeparateTmpJosmDirs()`: true unless the compile version is set and reads as
   * an `Int` below `SEPARATE_DIRS_SINCE`.
   */
  function UseSeparateTmpJosmDirs(josmCompileVersion: Option<string>): (r: bool)
    ensures !r <==> josmCompileVersion.Some? && ToIntOrNull(josmCompileVersion.value).Some?
                    && ToIntOrNull(josmCompileVersion.value).value < SEPARATE_DIRS_SINCE
  {
    match josmCompileVersion
    case None => true
    case Some(v) =>
      match ToIntOrNull(v)
      case None => true
      case Some(n) => n >= SEPARATE_DIRS_SINCE
  }

  /**
   * For a compile version written as a decimal number, separate directories are used
   * exactly from version 7841 on; with no compile version, or one that is not a
   * number, they are used too.
   */
  lemma SeparateDirsThreshold(n: Int32, other: string)
    requires ToIntOrNull(other) == None
    ensures UseSeparateTmpJosmDirs(Some(DecimalString(n))) <==> n >= SEPARATE_DIRS_SINCE
    ensures UseSeparateTmpJosmDirs(Some(other)) && UseSeparateTmpJosmDirs(None)
  {
    ToIntOrNullDecimal(n);
  }

  /** The three default directories `<buildDir>/.josm/pref`, `…/cache` and `…/userdata` are distinct. */
  lemma DefaultDirsDistinct(buildDir: string)
    ensures Resolve(buildDir, ".josm/pref") != Resolve(buildDir, ".josm/cache")
    ensures Resolve(buildDir, ".josm/pref") != Resolve(buildDir, ".josm/userdata")
    ensures Resolve(buildDir, ".josm/cache") != Resolve(buildDir, ".josm/userdata")
  {
    var k := |buildDir| + 7;
    assert Resolve(buildDir, ".josm/pref")[k] == 'p';
    assert Resolve(buildDir, ".josm/cache")[k] == 'c';
    assert Resolve(buildDir, ".josm/userdata")[k] == 'u';
  }

  // ---------------------------------------------------------------------------
  // The extension object
  // ---------------------------------------------------------------------------

  /** Kotlin's `require` failure: an `IllegalArgumentException` with its message. */
  datatype ConfigError = IllegalArgument(message: string)

  /**
   * The check both counter setters make before storing: non-negative values pass,
   * negative ones are refused with a message naming the property and the value.
   */
  function RequireNonNegative(property: string, value: Int32): (r: Result<Int32, ConfigError>)
    ensures r.Success? <==> value >= 0
    ensures r.Success? ==> r.value == value
    ensures r.Failure? ==> |r.error.message| > 14 + |property| + |DecimalString(value)|
    ensures r.Failure? ==> r.error.message[14..14 + |property|] == property
    ensures r.Failure? ==>
      var m := r.error.message; m[|m| - |DecimalString(value)| - 1..] == DecimalString(value) + "."
  {
    if value >= 0 then Success(value)
    else
      Failure(IllegalArgument("For property `" + property
        + "` only nonnegative integer values are allowed! You are trying to set it to "
        + DecimalString(value) + "."))
  }

  class JosmPluginExtension {
    var josmCompileVersion: Option<string>
    var logSkippedTasks: bool
    var logJacocoCoverage: bool
    var logTaskDuration: bool
    var tmpJosmPrefDir: string
    var tmpJosmCacheDir: string
    var tmpJosmUserdataDir: string
    var maxPluginDependencyDepth: Int32
    var josmVersionFuzziness: Int32
    var versionWithoutLeadingV: bool

    /** Both counters are non-negative, which the setters keep. */
    predicate Valid()
      reads this
    {
      maxPluginDependencyDepth >= 0 && josmVersionFuzziness >= 0
    }

    /**
     * The extension of a project with build directory `buildDir` whose property
     * `plugin.compile.version` is `compileVersionProperty`.
     */
    constructor (buildDir: string, compileVersionProperty: Option<string>)
      ensures Valid()
      ensures josmCompileVersion == compileVersionProperty
      ensures logSkippedTasks && logJacocoCoverage && logTaskDuration && versionWithoutLeadingV
      ensures tmpJosmPrefDir == Resolve(buildDir, ".josm/pref")
      ensures tmpJosmCacheDir == Resolve(buildDir, ".josm/cache")
      ensures tmpJosmUserdataDir == Resolve(buildDir, ".josm/userdata")
      ensures tmpJosmPrefDir != tmpJosmCacheDir && tmpJosmPrefDir != tmpJosmUserdataDir
      ensures tmpJosmCacheDir != tmpJosmUserdataDir
      ensures maxPluginDependencyDepth == DEFAULT_MAX_PLUGIN_DEPENDENCY_DEPTH
      ensures josmVersionFuzziness == DEFAULT_JOSM_VERSION_FUZZINESS
    {
      josmCompileVersion := compileVersionProperty;
      logSkippedTasks := true;
      logJacocoCoverage := true;
      logTaskDuration := true;
      tmpJosmPrefDir := Resolve(buildDir, ".josm/pref");
      tmpJosmCacheDir := Resolve(buildDir, ".josm/cache");
      tmpJosmUserdataDir := Resolve(buildDir, ".josm/userdata");
      maxPluginDependencyDepth := DEFAULT_MAX_PLUGIN_DEPENDENCY_DEPTH;
      josmVersionFuzziness := DEFAULT_JOSM_VERSION_FUZZINESS;
      versionWithoutLeadingV := true;
      DefaultDirsDistinct(buildDir);
    }

    /** The setter of `maxPluginDependencyDepth`: stores a non-negative value, refuses a negative one. */
    method SetMaxPluginDependencyDepth(value: Int32) returns (r: Result<(), ConfigError>)
      requires Valid()
      modifies this`maxPluginDependencyDepth
      ensures Valid()
      ensures r.Success? <==> value >= 0
      ensures r.Failure? ==> r.error == RequireNonNegative("maxPluginDependencyDepth", value).error
      ensures maxPluginDependencyDepth == if value >= 0 then value else old(maxPluginDependencyDepth)
    {
      var checked := RequireNonNegative("maxPluginDependencyDepth", value);
      if checked.Failure? {
        return Failure(checked.error);
      }
      maxPluginDependencyDepth := checked.value;
      r := Success(());
    }

    /** The setter of `josmVersionFuzziness`: stores a non-negative value, refuses a negative one. */
    method SetJosmVersionFuzziness(value: Int32) returns (r: Result<(), ConfigError>)
      requires Valid()
      modifies this`josmVersionFuzziness
      ensures Valid()
      ensures r.Success? <==> value >= 0
      ensures r.Failure? ==> r.error == RequireNonNegative("josmVersionFuzziness", value).error
      ensures josmVersionFuzziness == if value >= 0 then value else old(josmVersionFuzziness)
    {
      var checked := RequireNonNegative("josmVersionFuzziness", value);
      if checked.Failure? {
        return Failure(checked.error);
      }
      josmVersionFuzziness := checked.value;
      r := Success(());
    }

    /**
     * The `afterEvaluate` action of the extension: for a JOSM version too old for
     * separate directories, the cache moves to `<tmpJosmPrefDir>/cache` and the user
     * data to the preference directory itself; otherwise nothing changes.
     */
    method AfterEvaluate()
      modifies this`tmpJosmCacheDir, this`tmpJosmUserdataDir
      ensures UseSeparateTmpJosmDirs(josmCompileVersion) ==>
        tmpJosmCacheDir == old(tmpJosmCacheDir) && tmpJosmUserdataDir == old(tmpJosmUserdataDir)
      ensures !UseSeparateTmpJosmDirs(josmCompileVersion) ==>
        tmpJosmCacheDir == Resolve(tmpJosmPrefDir, "cache") && tmpJosmUserdataDir == tmpJosmPrefDir
    {
      if !UseSeparateTmpJosmDirs(josmCompileVersion) {
        tmpJosmCacheDir := Resolve(tmpJosmPrefDir, "cache");
        tmpJosmUserdataDir := tmpJosmPrefDir;
      }
    }
  }
}
