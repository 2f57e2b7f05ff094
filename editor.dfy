/** The editor's state and its transitions as functions of the old state.
    The component class in module `Creator` is proved to follow them. */
module Editor {
  import opened Goals
  import opened GoalList
  import opened Suggestions

  /** The four state hooks of the component. */
  datatype EditorState = EditorState(
    goals: seq<Goal>,
    currentGoal: string,
    editingGoalId: Option<int>,
    isLoading: bool)

  /** The state on mount. */
  const Initial := EditorState([], "", None, false)

  /** The state after an add whose request produced `resp`, with `now` as
      the clock reading used for the new id. An empty input returns at once;
      otherwise the request runs (leaving `isLoading` cleared), the new goal
      is appended and the input is cleared. The edit target is not touched. */
  function AfterAdd(s: EditorState, resp: Response, now: int): (r: EditorState)
    ensures s.currentGoal == "" ==> r == s
    ensures s.currentGoal != "" ==>
      && |r.goals| == |s.goals| + 1
      && r.goals[..|s.goals|] == s.goals
      && r.goals[|s.goals|] == Goal(now, s.currentGoal, SuggestionOf(resp))
      && r.currentGoal == ""
      && r.editingGoalId == s.editingGoalId
      && !r.isLoading
  {
    if s.currentGoal == "" then s
    else
      s.(goals := Append(s.goals, Goal(now, s.currentGoal, SuggestionOf(resp))),
         currentGoal := "",
         isLoading := false)
  }

  /** The state after an edit whose request produced `resp`. An empty input
      returns at once; otherwise every record whose id equals the edit target
      gets the input text and the new suggestion, every other record and
      every id stays as it was, and the editor returns to create mode. */
  function AfterEdit(s: EditorState, resp: Response): (r: EditorState)
    ensures s.currentGoal == "" ==> r == s
    ensures s.currentGoal != "" ==>
      && |r.goals| == |s.goals|
      && (forall i :: 0 <= i < |s.goals| ==> r.goals[i].id == s.goals[i].id)
      && (forall i :: 0 <= i < |s.goals| && Matches(s.goals[i], s.editingGoalId) ==>
            r.goals[i].text == s.currentGoal && r.goals[i].suggestions == SuggestionOf(resp))
      && (forall i :: 0 <= i < |s.goals| && !Matches(s.goals[i], s.editingGoalId) ==>
            r.goals[i] == s.goals[i])
      && r.currentGoal == ""
      && r.editingGoalId == None
      && !r.isLoading
  {
    if s.currentGoal == "" then s
    else
      s.(goals := ReplaceById(s.goals, s.editingGoalId, s.currentGoal, SuggestionOf(resp)),
         currentGoal := "",
         editingGoalId := None,
         isLoading := false)
  }

  /** The state after deleting `id`: no record with that id is left, every
      other record is kept in its relative order, and the input and the edit
      target are untouched, so the target may be left pointing at a deleted
      goal. */
  function AfterDelete(s: EditorState, id: int): (r: EditorState)
    ensures !HasId(r.goals, id)
    ensures forall g :: g in r.goals <==> g in s.goals && g.id != id
    ensures IsSubseq(r.goals, s.goals)
    ensures |r.goals| == |s.goals| - CountId(s.goals, id)
    ensures r.currentGoal == s.currentGoal && r.editingGoalId == s.editingGoalId
    ensures r.isLoading == s.isLoading
  {
    RemoveLength(s.goals, id);
    RemoveIsSubseq(s.goals, id);
    s.(goals := RemoveById(s.goals, id))
  }

  /** The state after the pencil button of goal `g`: the input holds the
      goal's text and the edit target is its id; the list is untouched. */
  function AfterStartEditing(s: EditorState, g: Goal): (r: EditorState)
    ensures r.goals == s.goals && r.isLoading == s.isLoading
    ensures r.currentGoal == g.text && r.editingGoalId == Some(g.id)
  {
    s.(currentGoal := g.text, editingGoalId := Some(g.id))
  }

  /** The state after the user types `text` into the input. */
  function AfterInput(s: EditorState, text: string): (r: EditorState)
    ensures r.currentGoal == text
    ensures r.goals == s.goals && r.editingGoalId == s.editingGoalId && r.isLoading == s.isLoading
  {
    s.(currentGoal := text)
  }

  /** The submit button is disabled while the input is empty or a request is
      in flight. */
  predicate SubmitDisabled(s: EditorState) {
    s.currentGoal == "" || s.isLoading
  }

  /** The submit button runs the edit handler when the edit target is truthy:
      present and not the number 0. */
  predicate DispatchesToEdit(s: EditorState) {
    s.editingGoalId.Some? && s.editingGoalId.value != 0
  }

  /** The state after a click on the submit button. A disabled button ignores
      the click; otherwise the edit handler runs in edit mode and the add
      handler in create mode. */
  function AfterSubmit(s: EditorState, resp: Response, now: int): EditorState {
    if SubmitDisabled(s) then s
    else if DispatchesToEdit(s) then AfterEdit(s, resp)
    else AfterAdd(s, resp, now)
  }

  // ---------------------------------------------------------------------
  // Properties of the transitions

  /** A failed request stores exactly the fallback text. */
  lemma AddAfterFailure(s: EditorState, now: int)
    requires s.currentGoal != ""
    ensures AfterAdd(s, Threw, now).goals[|s.goals|].suggestions == Some(Fallback)
  {
  }

  /** What a click on the submit button does. A disabled button changes
      nothing. An accepted click leaves no request in flight and empties the
      input; it grows the list by one exactly when the edit target is falsy,
      and otherwise keeps the list's length and ids and ends edit mode. */
  lemma SubmitRule(s: EditorState, resp: Response, now: int)
    ensures SubmitDisabled(s) ==> AfterSubmit(s, resp, now) == s
    ensures !SubmitDisabled(s) ==>
      var r := AfterSubmit(s, resp, now);
      && !r.isLoading
      && r.currentGoal == ""
      && (|r.goals| == |s.goals| + 1 <==> !DispatchesToEdit(s))
      && (DispatchesToEdit(s) ==> Ids(r.goals) == Ids(s.goals) && r.editingGoalId == None)
      && (!DispatchesToEdit(s) ==> r.goals == s.goals + [Goal(now, s.currentGoal, SuggestionOf(resp))]
                                   && r.editingGoalId == s.editingGoalId)
  {
    if !SubmitDisabled(s) && DispatchesToEdit(s) {
      ReplaceKeepsIds(s.goals, s.editingGoalId, s.currentGoal, SuggestionOf(resp));
    }
  }

  /** An edit leaves the list unchanged when no record carries the target id,
      in particular when there is no target. */
  lemma EditOfAbsentTarget(s: EditorState, resp: Response)
    requires s.editingGoalId.None? || !HasId(s.goals, s.editingGoalId.value)
    ensures AfterEdit(s, resp).goals == s.goals
  {
    if s.currentGoal != "" {
      ReplaceAbsent(s.goals, s.editingGoalId, s.currentGoal, SuggestionOf(resp));
    }
  }

  /** Every transition keeps ids unique. Only an add, directly or through
      the submit button, needs the clock reading to be an id not already in
      the list. */
  lemma TransitionsKeepUnique(s: EditorState, resp: Response, now: int, id: int, g: Goal, text: string)
    requires UniqueIds(s.goals)
    ensures !HasId(s.goals, now) ==> UniqueIds(AfterAdd(s, resp, now).goals)
    ensures UniqueIds(AfterEdit(s, resp).goals)
    ensures UniqueIds(AfterDelete(s, id).goals)
    ensures UniqueIds(AfterStartEditing(s, g).goals)
    ensures UniqueIds(AfterInput(s, text).goals)
    ensures !HasId(s.goals, now) ==> UniqueIds(AfterSubmit(s, resp, now).goals)
  {
    if s.currentGoal != "" {
      AppendUnique(s.goals, Goal(now, s.currentGoal, SuggestionOf(resp)));
      ReplaceKeepsUnique(s.goals, s.editingGoalId, s.currentGoal, SuggestionOf(resp));
    }
    RemoveKeepsUnique(s.goals, id);
  }

  /** Every listed goal has non-empty text. */
  predicate TextsNonEmpty(gs: seq<Goal>) {
    forall i :: 0 <= i < |gs| ==> gs[i].text != ""
  }

  /** Listed goals never have empty text: the add and edit handlers return
      early on an empty input, so only a non-empty input is ever stored, and
      no other transition writes a text. */
  lemma TransitionsKeepTextsNonEmpty(s: EditorState, resp: Response, now: int, id: int, g: Goal, text: string)
    requires TextsNonEmpty(s.goals)
    ensures TextsNonEmpty(Initial.goals)
    ensures TextsNonEmpty(AfterAdd(s, resp, now).goals)
    ensures TextsNonEmpty(AfterEdit(s, resp).goals)
    ensures TextsNonEmpty(AfterDelete(s, id).goals)
    ensures TextsNonEmpty(AfterStartEditing(s, g).goals)
    ensures TextsNonEmpty(AfterInput(s, text).goals)
    ensures TextsNonEmpty(AfterSubmit(s, resp, now).goals)
  {
    var d := AfterDelete(s, id).goals;
    forall i | 0 <= i < |d| ensures d[i].text != "" {
      assert d[i] in s.goals;
    }
  }

  /** Starting to edit a listed goal with non-zero id and then submitting
      rewrites that goal in place, and only it when ids are unique. The
      goal's text is non-empty in every reachable state, by
      `TransitionsKeepTextsNonEmpty`. */
  lemma EditRoundTrip(s: EditorState, k: int, resp: Response, now: int)
    requires UniqueIds(s.goals)
    requires 0 <= k < |s.goals|
    requires s.goals[k].text != "" && s.goals[k].id != 0 && !s.isLoading
    ensures var r := AfterSubmit(AfterStartEditing(s, s.goals[k]), resp, now);
      && |r.goals| == |s.goals|
      && r.goals[k] == s.goals[k].(suggestions := SuggestionOf(resp))
      && (forall i :: 0 <= i < |s.goals| && i != k ==> r.goals[i] == s.goals[i])
      && r.currentGoal == "" && r.editingGoalId == None
  {
    var t := AfterStartEditing(s, s.goals[k]);
    assert !SubmitDisabled(t) && DispatchesToEdit(t);
    forall i | 0 <= i < |s.goals| && i != k ensures !Matches(s.goals[i], t.editingGoalId) {
      if i < k {
        assert s.goals[i].id != s.goals[k].id;
      } else {
        assert s.goals[k].id != s.goals[i].id;
      }
    }
  }

  /** A goal whose id is 0 cannot be edited through the submit button: the
      target 0 is falsy, so the click adds a new goal instead. */
  lemma ZeroIdEditAdds(s: EditorState, g: Goal, resp: Response, now: int)
    requires g.id == 0 && g.text != "" && !s.isLoading
    ensures var r := AfterSubmit(AfterStartEditing(s, g), resp, now);
      && |r.goals| == |s.goals| + 1
      && r.goals[|s.goals|] == Goal(now, g.text, SuggestionOf(resp))
      && r.editingGoalId == Some(0)
  {
  }

  /** Deleting the goal being edited and then submitting loses the typed
      text: the list is left as the deletion made it, the input is cleared
      and the editor returns to create mode. */
  lemma DeleteTargetThenSubmit(s: EditorState, resp: Response, now: int)
    requires s.editingGoalId.Some? && s.editingGoalId.value != 0
    requires s.currentGoal != "" && !s.isLoading
    ensures var d := AfterDelete(s, s.editingGoalId.value);
      var r := AfterSubmit(d, resp, now);
      && r.goals == d.goals
      && r.currentGoal == ""
      && r.editingGoalId == None
  {
    DeletedTargetIsUnmatched(s.goals, s.editingGoalId.value, s.currentGoal, SuggestionOf(resp));
  }
}
