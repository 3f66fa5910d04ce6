/**
 * The code-editor reducer of every playground: the text being edited, and
 * the lesson's original text that an empty edit restores.
 */
module CodeEditor {
  import opened Wrappers
  import opened Actions

  /** `{ default, current }`: the lesson's text and the text in the editor. */
  datatype Code = Code(defaultCode: string, current: string)

  /** The state before any lesson text is loaded. */
  const DEFAULT_CODE: Code := Code("", "")

  /**
   * `code`: `EditCode` puts the new text in the editor, and a missing or
   * empty text (which JavaScript's `||` treats as false) brings back the
   * lesson's text; every other action leaves the state alone.
   */
  function CodeReducer(state: Option<Code>, action: Action): (r: Code)
    ensures var s := if state.Some? then state.value else DEFAULT_CODE;
      && r.defaultCode == s.defaultCode
      && (action.EditCode? && action.code.Some? && action.code.value != "" ==> r.current == action.code.value)
      && (action.EditCode? && (action.code.None? || action.code.value == "") ==> r.current == s.defaultCode)
      && (!action.EditCode? ==> r == s)
  {
    var s := if state.Some? then state.value else DEFAULT_CODE;
    match action
    case EditCode(code) =>
      Code(s.defaultCode, if code.Some? && code.value != "" then code.value else s.defaultCode)
    case _ => s
  }

  /** The reducer as a step on states that are present. */
  function Step(s: Code, a: Action): Code
  {
    CodeReducer(Some(s), a)
  }

  /** No sequence of actions ever changes the lesson's text. */
  lemma {:induction false} DefaultNeverChanges(s: Code, actions: seq<Action>)
    ensures Run(Step, s, actions).defaultCode == s.defaultCode
    decreases |actions|
  {
    if |actions| > 0 {
      DefaultNeverChanges(Step(s, actions[0]), actions[1..]);
    }
  }

  /**
   * Whatever came before, the editor shows the text of the last edit, or the
   * lesson's text when that edit was empty; later non-edit actions do not
   * disturb it.
   */
  lemma {:induction false} LastEditWins(s: Code, before: seq<Action>, code: Option<string>, after: seq<Action>)
    requires forall i | 0 <= i < |after| :: !after[i].EditCode?
    ensures var r := Run(Step, s, before + [EditCode(code)] + after);
      r.current == if code.Some? && code.value != "" then code.value else s.defaultCode
  {
    RunAppend(Step, s, before + [EditCode(code)], after);
    RunAppend(Step, s, before, [EditCode(code)]);
    var m := Run(Step, s, before);
    DefaultNeverChanges(s, before);
    assert Run(Step, m, [EditCode(code)]) == Step(m, EditCode(code)) by {
      assert [EditCode(code)][1..] == [];
    }
    NonEditsKeep(Step(m, EditCode(code)), after);
  }

  /** Actions that are not edits leave the state exactly as it was. */
  lemma {:induction false} NonEditsKeep(s: Code, actions: seq<Action>)
    requires forall i | 0 <= i < |actions| :: !actions[i].EditCode?
    ensures Run(Step, s, actions) == s
    decreases |actions|
  {
    if |actions| > 0 {
      assert !actions[0].EditCode?;
      forall i | 0 <= i < |actions[1..]|
        ensures !actions[1..][i].EditCode?
      {
        assert actions[1..][i] == actions[i + 1];
      }
      NonEditsKeep(s, actions[1..]);
    }
  }
}
