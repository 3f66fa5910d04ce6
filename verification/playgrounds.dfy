/**
 * The reducers that hold all playgrounds of a lesson page: each playground's
 * own reducer is a combination of named slice reducers, and the page
 * reducer routes `Playground.*` actions to the playground they name.
 *
 * Slice states are of one type `V` here; what a slice holds is up to its
 * reducer. A slice reducer receives `None` when its slice is absent, as a
 * Redux reducer receives `undefined`.
 */
module Playgrounds {
  import opened Wrappers
  import opened Actions

  /** A reducer of one slice or one playground. */
  type Reducer<!V> = (Option<V>, Action) -> V

  const CODE: string := "code"
  const OUTPUT: string := "output"
  const POSITION: string := "position"
  const SELECTION: string := "selection"

  /** The slices every playground has. */
  const STANDARD_SLICES: set<string> := {CODE, OUTPUT, POSITION, SELECTION}

  /**
   * The slice reducers of `createPlaygroundReducer`: the extras first, then
   * the four standard slices written over any extra of the same name.
   */
  function PlaygroundSlices<R>(extras: map<string, R>, code: R, output: R, position: R, selection: R): (r: map<string, R>)
    ensures r.Keys == extras.Keys + STANDARD_SLICES
    ensures r[CODE] == code && r[OUTPUT] == output && r[POSITION] == position && r[SELECTION] == selection
    ensures forall k | k in extras && k !in STANDARD_SLICES :: r[k] == extras[k]
  {
    extras + map[CODE := code, OUTPUT := output, POSITION := position, SELECTION := selection]
  }

  /**
   * Redux's `combineReducers`: every slice reducer sees its own slice (absent
   * slices as `None`) and the same action; the result has exactly the
   * reducers' slices.
   */
  function CombineReducers<V>(slices: map<string, Reducer<V>>, state: Option<map<string, V>>, action: Action): (r: map<string, V>)
    ensures r.Keys == slices.Keys
    ensures forall k | k in slices :: r[k] == slices[k](SliceOf(state, k), action)
  {
    map k | k in slices :: slices[k](SliceOf(state, k), action)
  }

  /** The slice `k` of a state that may itself be absent. */
  function SliceOf<V>(state: Option<map<string, V>>, k: string): (r: Option<V>)
    ensures r.Some? <==> state.Some? && k in state.value
    ensures r.Some? ==> r.value == state.value[k]
  {
    if state.Some? && k in state.value then Some(state.value[k]) else None
  }

  /** `createDefaultPlaygroundsReducers`: the same playground reducer under every id. */
  function DefaultPlaygroundReducers<R>(ids: seq<string>, reducer: R): (r: map<string, R>)
    ensures forall k :: k in r <==> k in ids
    ensures forall k | k in r :: r[k] == reducer
  {
    map k | k in ids :: reducer
  }

  /** The action Redux dispatches while the store is created. */
  const APP_INIT: Action := OtherAction("@@APP_INIT")

  /** `initDefaultPlaygroundsState`: each playground's reducer run on an absent state. */
  function InitialState<V>(reducers: map<string, Reducer<V>>): (r: map<string, V>)
    ensures r.Keys == reducers.Keys
    ensures forall k | k in reducers :: r[k] == reducers[k](None, APP_INIT)
  {
    map k | k in reducers :: reducers[k](None, APP_INIT)
  }

  /** Why routing a `Playground.*` action throws. */
  datatype RouteError =
    | NoPlaygroundId      // a type starting with `Playground` but no id or inner action
    | UnknownPlayground   // no reducer under the id: calling `undefined`

  /**
   * The page reducer `playgrounds`: an action whose type starts with
   * `Playground` goes to the reducer of its playground, with the
   * playground's entry and the inner action, and the result replaces that
   * entry; every other action leaves the page as it is.
   */
  function Route<V>(reducers: map<string, Reducer<V>>, state: map<string, V>, action: Action): (r: Result<map<string, V>, RouteError>)
    ensures !StartsWith(TypeName(action), PLAYGROUND_PREFIX) ==> r == Success(state)
    ensures r.Failure? <==> StartsWith(TypeName(action), PLAYGROUND_PREFIX)
                            && (!action.PlaygroundAction? || action.playgroundId !in reducers)
    ensures action.PlaygroundAction? ==> (r.Success? <==> action.playgroundId in reducers)
    ensures r.Success? && action.PlaygroundAction? ==>
      var id := action.playgroundId;
      && r.value.Keys == state.Keys + {id}
      && r.value[id] == reducers[id](if id in state then Some(state[id]) else None, action.inner)
      && forall k | k in state && k != id :: r.value[k] == state[k]
  {
    PlaygroundTypes(action);
    if !StartsWith(TypeName(action), PLAYGROUND_PREFIX) then Success(state)
    else if !action.PlaygroundAction? then Failure(NoPlaygroundId)
    else
      var id := action.playgroundId;
      if id !in reducers then Failure(UnknownPlayground)
      else Success(state[id := reducers[id](if id in state then Some(state[id]) else None, action.inner)])
  }

  /**
   * A playground built by `createPlaygroundReducer` always has the four
   * standard slices, and its code slice is whatever the code reducer makes
   * of the old code slice, whatever the extras.
   */
  lemma PlaygroundHasStandardSlices<V>(extras: map<string, Reducer<V>>, code: Reducer<V>, output: Reducer<V>,
                                       position: Reducer<V>, selection: Reducer<V>, state: Option<map<string, V>>, a: Action)
    ensures var r := CombineReducers(PlaygroundSlices(extras, code, output, position, selection), state, a);
      && STANDARD_SLICES <= r.Keys
      && r[CODE] == code(SliceOf(state, CODE), a)
  {
  }

  /** Routing keeps the page's playgrounds the ones that have reducers. */
  lemma RouteKeepsPlaygrounds<V>(reducers: map<string, Reducer<V>>, state: map<string, V>, action: Action)
    requires state.Keys == reducers.Keys
    ensures Route(reducers, state, action).Success? ==> Route(reducers, state, action).value.Keys == reducers.Keys
  {
  }

  /** From the initial page, an action for a known playground always goes through. */
  lemma InitialStateRoutes<V>(reducers: map<string, Reducer<V>>, id: string, inner: Action)
    requires id in reducers
    ensures var r := Route(reducers, InitialState(reducers), PlaygroundAction(id, inner));
      && r.Success? && r.value.Keys == reducers.Keys
      && r.value[id] == reducers[id](Some(reducers[id](None, APP_INIT)), inner)
  {
  }

  /** Actions for two different playgrounds can be handled in either order. */
  lemma RoutesCommute<V>(reducers: map<string, Reducer<V>>, state: map<string, V>, x: string, ax: Action, y: string, ay: Action)
    requires x in reducers && y in reducers && x != y
    ensures var p, q := PlaygroundAction(x, ax), PlaygroundAction(y, ay);
      Route(reducers, Route(reducers, state, p).value, q) == Route(reducers, Route(reducers, state, q).value, p)
  {
    var p, q := PlaygroundAction(x, ax), PlaygroundAction(y, ay);
    var pq := Route(reducers, Route(reducers, state, p).value, q);
    var qp := Route(reducers, Route(reducers, state, q).value, p);
    assert pq.Success? && qp.Success?;
    assert pq.value == qp.value;
  }
}
