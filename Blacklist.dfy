/**
 * Which integration tests are skipped on the current platform.
 *
 * The blacklist table maps a test class's qualified name either to `True`
 * (every test method of the class) or to a list of method names.  Only the
 * Windows table has entries; every other platform has an empty table.
 */
module Blacklist {

  /** A table value: `True` for the whole class, or the blacklisted method names. */
  datatype ClassEntry = AllMethods | Methods(names: seq<string>)

  type Table = map<string, ClassEntry>

  /** The parts of a `unittest.TestCase` the decision looks at. */
  datatype TestCase = TestCase(moduleName: string, className: string, methodName: string)

  datatype Decision = Run | Skip(reason: string)

  const WIN32: string := "win32"
  const OVERRIDE_VARIABLE: string := "EDEN_RUN_BLACKLISTED_TESTS"
  const STRIP_PREFIX: string := "eden.integration."
  const SKIP_REASON: string := "this test is currently unsupported on this platform"

  /** The table in effect: the Windows table on "win32", empty elsewhere. */
  function PlatformTable(platform: string, win32Table: Table): (t: Table)
    ensures platform != WIN32 ==> t == map[]
    ensures platform == WIN32 ==> t == win32Table
  {
    if platform == WIN32 then win32Table else map[]
  }

  /** `os.environ.get(name, "")`. */
  function EnvGet(env: map<string, string>, name: string): (v: string)
    ensures name in env ==> v == env[name]
    ensures name !in env ==> v == ""
  {
    if name in env then env[name] else ""
  }

  /** The class's `module.Class` name with one leading "eden.integration." removed. */
  function ClassKey(test: TestCase): (key: string)
    ensures var full := test.moduleName + "." + test.className;
      (STRIP_PREFIX <= full && STRIP_PREFIX + key == full) || (!(STRIP_PREFIX <= full) && key == full)
  {
    var full := test.moduleName + "." + test.className;
    if STRIP_PREFIX <= full then full[|STRIP_PREFIX|..] else full
  }

  function IsBlacklisted(table: Table, env: map<string, string>, test: TestCase): (b: bool)
    ensures table == map[] ==> !b
    ensures EnvGet(env, OVERRIDE_VARIABLE) == "1" ==> !b
    ensures ClassKey(test) !in table ==> !b
    ensures table != map[] && EnvGet(env, OVERRIDE_VARIABLE) != "1" && ClassKey(test) in table ==>
      (b <==> match table[ClassKey(test)]
               case AllMethods => true
               case Methods(names) => test.methodName in names)
  {
    if table == map[] then false
    else if EnvGet(env, OVERRIDE_VARIABLE) == "1" then false
    else
      var key := ClassKey(test);
      if key !in table then false
      else match table[key]
        case AllMethods => true
        case Methods(names) => test.methodName in names
  }

  /** Skip the test, with the fixed reason, exactly when it is blacklisted. */
  function SkipTestIfBlacklisted(table: Table, env: map<string, string>, test: TestCase): (d: Decision)
    ensures d.Skip? <==> IsBlacklisted(table, env, test)
    ensures d.Skip? ==> d.reason == SKIP_REASON
  {
    if IsBlacklisted(table, env, test) then Skip(SKIP_REASON) else Run
  }

  /** Off Windows no test is ever skipped. */
  lemma NothingSkippedOffWindows(platform: string, win32Table: Table, env: map<string, string>, test: TestCase)
    requires platform != WIN32
    ensures SkipTestIfBlacklisted(PlatformTable(platform, win32Table), env, test) == Run
  {
  }

  /** The prefix is removed once only: a doubled prefix keeps its second copy. */
  lemma PrefixStrippedOnce()
    ensures ClassKey(TestCase("eden.integration.eden.integration.hg", "StatusTest", "test_x"))
      == "eden.integration.hg.StatusTest"
  {
    var full := "eden.integration.eden.integration.hg" + "." + "StatusTest";
    assert full[..|STRIP_PREFIX|] == STRIP_PREFIX;
    assert full[|STRIP_PREFIX|..] == "eden.integration.hg.StatusTest";
  }
}
