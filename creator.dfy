/** The goal creator component: its state hooks as fields, and its handlers
    as methods that update them in the order the handlers call the setters.
    The request to the suggestion service is replaced by the `Response` it
    produced, and the clock by the reading `now`. */
module Creator {
  import opened Goals
  import opened GoalList
  import opened Suggestions
  import opened Editor

  class GoalCreator {
    var goals: seq<Goal>
    var currentGoal: string
    var editingGoalId: Option<int>
    var isLoading: bool

    /** The component's state as a value. */
    function View(): EditorState
      reads this
    {
      EditorState(goals, currentGoal, editingGoalId, isLoading)
    }

    /** Mounting: an empty list, an empty input, create mode, idle. */
    constructor ()
      ensures View() == Initial
    {
      goals := [];
      currentGoal := "";
      editingGoalId := None;
      isLoading := false;
    }

    /** Sets the busy flag, obtains the suggestion from the response and
        clears the busy flag again, whether or not the request threw. */
    method GenerateGoalSuggestions(resp: Response) returns (suggestions: Option<string>)
      modifies this
      ensures suggestions == SuggestionOf(resp)
      ensures View() == old(View()).(isLoading := false)
    {
      isLoading := true;
      match resp {
        case Replied(message) =>
          suggestions := message;
        case Threw =>
          suggestions := Some(Fallback);
      }
      isLoading := false;
    }

    /** Appends a goal made of the input, the clock reading and the
        suggestion, then clears the input; does nothing on an empty input. */
    method HandleAddGoal(resp: Response, now: int)
      modifies this
      ensures View() == AfterAdd(old(View()), resp, now)
    {
      if currentGoal == "" {
        return;
      }
      var suggestions := GenerateGoalSuggestions(resp);
      var newGoal := Goal(now, currentGoal, suggestions);
      goals := Append(goals, newGoal);
      currentGoal := "";
    }

    /** Rewrites the records whose id is the edit target, then clears the
        input and the target; does nothing on an empty input. */
    method HandleEditGoal(resp: Response)
      modifies this
      ensures View() == AfterEdit(old(View()), resp)
    {
      if currentGoal == "" {
        return;
      }
      var suggestions := GenerateGoalSuggestions(resp);
      goals := ReplaceById(goals, editingGoalId, currentGoal, suggestions);
      currentGoal := "";
      editingGoalId := None;
    }

    /** Drops the records whose id is `id`. */
    method HandleDeleteGoal(id: int)
      modifies this
      ensures View() == AfterDelete(old(View()), id)
    {
      goals := RemoveById(goals, id);
    }

    /** Copies a goal's text into the input and makes its id the target. */
    method StartEditing(g: Goal)
      modifies this
      ensures View() == AfterStartEditing(old(View()), g)
    {
      currentGoal := g.text;
      editingGoalId := Some(g.id);
    }

    /** The input's change handler. */
    method OnInputChange(text: string)
      modifies this
      ensures View() == AfterInput(old(View()), text)
    {
      currentGoal := text;
    }

    /** A click on the submit button: ignored while disabled, otherwise
        dispatched on the truthiness of the edit target. */
    method OnSubmitClick(resp: Response, now: int)
      modifies this
      ensures View() == AfterSubmit(old(View()), resp, now)
    {
      if currentGoal == "" || isLoading {
        return;
      }
      if editingGoalId.Some? && editingGoalId.value != 0 {
        HandleEditGoal(resp);
      } else {
        HandleAddGoal(resp, now);
      }
    }
  }
}
