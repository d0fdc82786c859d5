/** Test suites, extras/beast/unit_test/suite_info.hpp. */
module Suites {
  /** What a suite does while it runs, as calls on its runner. */
  datatype Action = TestCase(name: string) | Pass | Fail(reason: string) | Log(text: string)

  /** suite_info; running the suite performs the actions. */
  datatype SuiteInfo = SuiteInfo(
    name: string, moduleName: string, library: string, manual: bool, actions: seq<Action>)
  {
    function FullName(): string { library + "." + moduleName + "." + name }
  }

  /** A suite and the time it takes. */
  datatype Timed = Timed(info: SuiteInfo, elapsed: int)
}
