/**
 * The first lesson's final-test reducer: each named test is Default until the
 * program shows it passed (Completed); when the run ends, every test still at
 * Default becomes Failed; compiling or resetting puts all back to Default.
 * Also the full-demo wrapper that intercepts the DNS-name action.
 */
module FinalTests {
  import opened Wrappers
  import opened Actions

  datatype TestState = Default | Completed | Failed

  /** The state object: test name to status. */
  type Statuses = map<string, TestState>

  const SENT_DNS: string := "SentDns"
  const SENT_MESSAGE: string := "SentMessage"
  const RECVD_MESSAGE: string := "RecvdMessage"

  /** The three test names, the keys of the default state. */
  const TEST_NAMES: set<string> := {SENT_DNS, SENT_MESSAGE, RECVD_MESSAGE}

  /** The default state: every test Default. */
  function DefaultTestState(): (r: Statuses)
    ensures r.Keys == TEST_NAMES
    ensures forall k | k in r :: r[k] == Default
  {
    map[SENT_DNS := Default, SENT_MESSAGE := Default, RECVD_MESSAGE := Default]
  }

  /**
   * `FinalTest[test]`: the enum's name for 1, 2 and 3. Any other number has
   * no name, and the computed key becomes the string "undefined".
   */
  function TestKey(test: int): (k: string)
    ensures 1 <= test <= 3 <==> k in TEST_NAMES
  {
    if test == 1 then SENT_DNS
    else if test == 2 then SENT_MESSAGE
    else if test == 3 then RECVD_MESSAGE
    else "undefined"
  }

  /** The three tests have distinct names. */
  lemma TestKeysDistinct(t: int, u: int)
    requires 1 <= t <= 3 && 1 <= u <= 3
    ensures TestKey(t) == TestKey(u) <==> t == u
  {
  }

  /** Marks a test passed. */
  function MarkCompleted(s: Statuses, test: int): (r: Statuses)
    ensures r.Keys == s.Keys + {TestKey(test)}
    ensures r[TestKey(test)] == Completed
    ensures forall k | k in s && k != TestKey(test) :: r[k] == s[k]
  {
    s[TestKey(test) := Completed]
  }

  /** The end of a run: tests still at Default have failed; the others keep their status. */
  function FailUnfinished(s: Statuses): (r: Statuses)
    ensures r.Keys == s.Keys
    ensures forall k | k in s :: r[k] != Default
    ensures forall k | k in s && s[k] != Default :: r[k] == s[k]
  {
    map k | k in s :: if s[k] == Default then Failed else s[k]
  }

  /** Back to Default for every test; no test is added or dropped. */
  function ResetAll(s: Statuses): (r: Statuses)
    ensures r.Keys == s.Keys
    ensures forall k | k in r :: r[k] == Default
  {
    map k | k in s :: Default
  }

  /** `finalTestReducer`: an absent state is the default one. */
  function FinalTestReducer(state: Option<Statuses>, action: Action): (r: Statuses)
    ensures action.MarkTestCompleted? ==> r == MarkCompleted(Or(state), action.test)
    ensures action.ExecutionSucceeded? || action.ExecutionFailed? ==> r == FailUnfinished(Or(state))
    ensures action.CompileRequest? || action.ResetTestsStatus? ==> r == ResetAll(Or(state))
    ensures !ChangesTests(action) ==> r == Or(state)
  {
    var s := Or(state);
    match action
    case MarkTestCompleted(test) => MarkCompleted(s, test)
    case ExecutionSucceeded => FailUnfinished(s)
    case ExecutionFailed => FailUnfinished(s)
    case CompileRequest => ResetAll(s)
    case ResetTestsStatus => ResetAll(s)
    case _ => s
  }

  /** The actions the reducer reacts to. */
  predicate ChangesTests(a: Action)
  {
    a.MarkTestCompleted? || a.ExecutionSucceeded? || a.ExecutionFailed? || a.CompileRequest? || a.ResetTestsStatus?
  }

  /** The state a reducer starts from when none is given. */
  function Or(state: Option<Statuses>): Statuses
  {
    if state.Some? then state.value else DefaultTestState()
  }

  /** The reducer as a step on states that are present. */
  function Step(s: Statuses, a: Action): Statuses
  {
    FinalTestReducer(Some(s), a)
  }

  /** Failing the unfinished tests twice is failing them once. */
  lemma FailUnfinishedIdempotent(s: Statuses)
    ensures FailUnfinished(FailUnfinished(s)) == FailUnfinished(s)
  {
  }

  /** A Completed test stays Completed under every action except a reset. */
  lemma CompletedIsKept(s: Statuses, a: Action, k: string)
    requires k in s && s[k] == Completed
    requires !a.CompileRequest? && !a.ResetTestsStatus?
    ensures k in Step(s, a) && Step(s, a)[k] == Completed
  {
  }

  /** Actions that mark one of the three named tests, if any. */
  predicate NamedMarks(actions: seq<Action>)
  {
    forall i | 0 <= i < |actions| :: actions[i].MarkTestCompleted? ==> 1 <= actions[i].test <= 3
  }

  /**
   * As long as only the three named tests are marked, the state keeps
   * exactly the three test names, whatever the order of actions.
   */
  lemma {:induction false} KeysStayNamed(s: Statuses, actions: seq<Action>)
    requires s.Keys == TEST_NAMES && NamedMarks(actions)
    ensures Run(Step, s, actions).Keys == TEST_NAMES
    decreases |actions|
  {
    if |actions| > 0 {
      var a := actions[0];
      assert Step(s, a).Keys == TEST_NAMES by {
        if a.MarkTestCompleted? {
          assert TestKey(a.test) in TEST_NAMES;
        }
      }
      assert NamedMarks(actions[1..]) by {
        forall i | 0 <= i < |actions[1..]|
          ensures actions[1..][i].MarkTestCompleted? ==> 1 <= actions[1..][i].test <= 3
        {
          assert actions[1..][i] == actions[i + 1];
        }
      }
      KeysStayNamed(Step(s, a), actions[1..]);
    }
  }

  /** Marking a number other than 1, 2 or 3 adds an "undefined" entry next to the three tests. */
  lemma UnnamedMarkAddsKey(test: int)
    requires !(1 <= test <= 3)
    ensures Step(DefaultTestState(), MarkTestCompleted(test)).Keys == TEST_NAMES + {"undefined"}
    ensures "undefined" !in TEST_NAMES
  {
  }

  /**
   * A whole round: compile, the program completes test `t`, the run ends.
   * Test `t` is then Completed and the other two tests Failed.
   */
  lemma RoundOutcome(s: Statuses, t: int)
    requires s.Keys == TEST_NAMES && 1 <= t <= 3
    ensures var r := Run(Step, s, [CompileRequest, MarkTestCompleted(t), ExecutionSucceeded]);
      && r.Keys == TEST_NAMES
      && r[TestKey(t)] == Completed
      && forall k | k in TEST_NAMES && k != TestKey(t) :: r[k] == Failed
  {
    var s1 := Step(s, CompileRequest);
    var s2 := Step(s1, MarkTestCompleted(t));
    var s3 := Step(s2, ExecutionSucceeded);
    var xs := [CompileRequest, MarkTestCompleted(t), ExecutionSucceeded];
    assert Run(Step, s, xs) == s3 by {
      assert xs[1..] == [MarkTestCompleted(t), ExecutionSucceeded];
      assert xs[1..][1..] == [ExecutionSucceeded];
      assert Run(Step, s3, []) == s3;
      assert Run(Step, s2, [ExecutionSucceeded]) == Run(Step, s3, [ExecutionSucceeded][1..]);
      assert Run(Step, s1, xs[1..]) == Run(Step, s2, xs[1..][1..]);
      assert Run(Step, s, xs) == Run(Step, s1, xs[1..]);
    }
  }

  /**
   * `wrapFullDemoReducer`: `ApplyDnsRequest` rewrites the code (a regular
   * expression substitution, given here as `applyDns`); every other action
   * goes to the wrapped reducer untouched.
   */
  function WrapFullDemo<S>(primary: (S, Action) -> S, applyDns: (S, string) -> S, s: S, a: Action): (r: S)
    ensures a.ApplyDnsRequest? ==> r == applyDns(s, a.domain)
    ensures !a.ApplyDnsRequest? ==> r == primary(s, a)
  {
    if a.ApplyDnsRequest? then applyDns(s, a.domain) else primary(s, a)
  }

  /** On any run without a DNS request the wrapper is invisible. */
  lemma {:induction false} WrapTransparent<S>(primary: (S, Action) -> S, applyDns: (S, string) -> S, s: S, actions: seq<Action>)
    requires forall i | 0 <= i < |actions| :: !actions[i].ApplyDnsRequest?
    ensures Run((x, a) => WrapFullDemo(primary, applyDns, x, a), s, actions) == Run(primary, s, actions)
    decreases |actions|
  {
    if |actions| > 0 {
      assert !actions[0].ApplyDnsRequest?;
      forall i | 0 <= i < |actions[1..]|
        ensures !actions[1..][i].ApplyDnsRequest?
      {
        assert actions[1..][i] == actions[i + 1];
      }
      WrapTransparent(primary, applyDns, primary(s, actions[0]), actions[1..]);
    }
  }
}
