/**
 * The Redux actions the playground reducers react to, and how a reducer is
 * run over a sequence of them.
 */
module Actions {
  import opened Wrappers
  import opened Bytes

  /**
   * An action as the reducers see it. `OtherAction` stands for any action
   * whose type is none of the named ones (navigation, compile results,
   * `"@@APP_INIT"` and so on); its type string matters only to the router.
   * An `OtherAction` carrying a named type string, such as "EditCode", does
   * not stand for any action of the code: the named actions are built only
   * through their own constructors.
   */
  datatype Action =
    | PlaygroundAction(playgroundId: string, inner: Action)
    | EditCode(code: Option<string>)
    | MarkTestCompleted(test: int)
    | ResetTestsStatus
    | ApplyDnsRequest(domain: string)
    | CompileRequest
    | ExecutionSucceeded
    | ExecutionFailed
    | SendNetworkFrame(frame: seq<byte>)
    | OtherAction(typeName: string)

  const PLAYGROUND_PREFIX: string := "Playground"

  /** The action's `type` string; a playground action's is `Playground.<inner type>`. */
  function TypeName(a: Action): string
  {
    match a
    case PlaygroundAction(_, inner) => PLAYGROUND_PREFIX + "." + TypeName(inner)
    case EditCode(_) => "EditCode"
    case MarkTestCompleted(_) => "MarkTestCompleted"
    case ResetTestsStatus => "ResetTestsStatus"
    case ApplyDnsRequest(_) => "ApplyDnsRequest"
    case CompileRequest => "CompileRequest"
    case ExecutionSucceeded => "ExecutionSucceeded"
    case ExecutionFailed => "ExecutionFailed"
    case SendNetworkFrame(_) => "SendNetworkFrame"
    case OtherAction(t) => t
  }

  /** `s.startsWith(prefix)`. */
  predicate StartsWith(s: string, prefix: string)
  {
    |prefix| <= |s| && s[..|prefix|] == prefix
  }

  /** Exactly the playground actions, and the unnamed ones spelt like them, have types starting with `Playground`. */
  lemma PlaygroundTypes(a: Action)
    ensures a.PlaygroundAction? ==> StartsWith(TypeName(a), PLAYGROUND_PREFIX)
    ensures !a.PlaygroundAction? && !a.OtherAction? ==> !StartsWith(TypeName(a), PLAYGROUND_PREFIX)
  {
    if a.PlaygroundAction? {
      assert (PLAYGROUND_PREFIX + "." + TypeName(a.inner))[..|PLAYGROUND_PREFIX|] == PLAYGROUND_PREFIX;
    } else if !a.OtherAction? {
      assert TypeName(a)[0] != 'P';
      NotPrefixed(TypeName(a));
    }
  }

  /** A string whose first letter is not `P` does not start with `Playground`. */
  lemma NotPrefixed(t: string)
    requires |t| > 0 && t[0] != 'P'
    ensures !StartsWith(t, PLAYGROUND_PREFIX)
  {
    assert PLAYGROUND_PREFIX[0] == 'P';
    assert |PLAYGROUND_PREFIX| <= |t| ==> t[..|PLAYGROUND_PREFIX|][0] == t[0];
  }

  /** The state after dispatching `actions` one after the other, starting from `s`. */
  function Run<S>(step: (S, Action) -> S, s: S, actions: seq<Action>): S
    decreases |actions|
  {
    if |actions| == 0 then s else Run(step, step(s, actions[0]), actions[1..])
  }

  /** Running two batches is running their concatenation. */
  lemma {:induction false} RunAppend<S>(step: (S, Action) -> S, s: S, xs: seq<Action>, ys: seq<Action>)
    ensures Run(step, s, xs + ys) == Run(step, Run(step, s, xs), ys)
    decreases |xs|
  {
    if |xs| > 0 {
      assert (xs + ys)[0] == xs[0] && (xs + ys)[1..] == xs[1..] + ys;
      RunAppend(step, step(s, xs[0]), xs[1..], ys);
    } else {
      assert xs + ys == ys;
    }
  }
}
