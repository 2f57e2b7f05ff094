# Goal creator: a verified model of the goal-list editor

The repository is a single React component, `GoalCreator`
(`frontend/src/App.tsx`). It keeps a list of goals, each with an id, a text
and an AI-generated suggestion, and one input field. The same field is used
to create a goal and to edit one. Submitting calls a suggestion service over
HTTP and then appends a goal or rewrites the goal being edited. Goals are
deleted by id.

This project models that component in Dafny:

- `goals.dfy` (module `Goals`): the `Goal` record. It also has an `Option`
  for the nullable edit target and for a suggestion that is `undefined`.
- `goal_list.dfy` (module `GoalList`): the three list transforms passed to
  the `goals` setter. These are spread-append (`Append`), map-replace-by-id
  (`ReplaceById`) and filter-by-id (`RemoveById`). The module proves their
  properties: order, length, ids, idempotence, uniqueness of ids, and a
  characterisation of the filter.
- `suggestions.dfy` (module `Suggestions`): the value the suggestion fetch
  resolves to, given what the request produced.
- `editor.dfy` (module `Editor`): the component's four state hooks as a
  value, `EditorState`. Each handler is a transition function on it, and
  lemmas relate several steps.
- `creator.dfy` (module `Creator`): the component as a class
  `GoalCreator`. Its fields are the four state hooks. Its methods are the
  handlers, which update the fields step by step. Each method is proved to
  produce exactly the state its `Editor` transition describes.

Ids are not assumed to be unique, because `Date.now()` does not guarantee it.
The list lemmas hold with duplicate ids: an edit rewrites every record
carrying the target id, and a delete removes all of them. Where a property
needs unique ids, it says so in a `requires` clause. `TransitionsKeepUnique`
shows that every transition preserves uniqueness, provided an add draws a
fresh id.

Behaviour of the code worth knowing:

- Only a thrown error becomes the fallback text
  `"Unable to generate suggestions."`. An error is thrown by a network
  failure, by a body that is not JSON, and by a body that is the JSON
  literal `null`, since reading `Message` from it raises a TypeError inside
  the `try`. A reply with a non-success status is not an error. Its body's
  `Message` is passed through. A reply object without `Message` stores
  `undefined` (modelled as `None`), not the fallback.
- Goal ids are not unique by construction: the model takes the clock
  reading as a parameter, and two adds may use the same one.
- The submit button picks the edit handler by the truthiness of the edit
  target. A goal whose id is `0` would therefore be re-added rather than
  edited (`ZeroIdEditAdds`).
- Deleting the goal being edited does not reset the edit target. A later
  submit then rewrites nothing, and the typed text is lost
  (`DeleteTargetThenSubmit`).

## Model

| member | source | states |
|---|---|---|
| `GoalList.Append` | frontend/src/App.tsx:50 | the result is one longer, keeps every earlier record at its index and ends with the new goal |
| `GoalList.AppendCount` | frontend/src/App.tsx:44-50 | an append adds exactly one occurrence of the new goal's id and leaves every other id's count alone |
| `GoalList.AppendUnique` | frontend/src/App.tsx:44-50 | ids stay unique after an append if and only if they were unique and the new id was absent |
| `GoalList.Matches` | frontend/src/App.tsx:61 | a record matches the edit target exactly when the target is present and strictly equal to the record's id; a null target matches nothing (its behaviour is stated through `ReplaceById`'s contract) |
| `GoalList.ReplaceById` | frontend/src/App.tsx:59-65 | length is kept; each record whose id strictly equals the target gets the new text and suggestions with its id and other fields kept; every other record is identical; a null target matches nothing |
| `GoalList.ReplaceKeepsIds` | frontend/src/App.tsx:60-64 | the sequence of ids, and so every record's position, is unchanged by an edit |
| `GoalList.ReplaceAbsent` | frontend/src/App.tsx:59-65 | when no record carries the target id, or there is no target, the list is returned unchanged |
| `GoalList.ReplaceTouchesAtMostOne` | frontend/src/App.tsx:60-64 | with unique ids, at most one position is changed by an edit |
| `GoalList.ReplaceKeepsUnique` | frontend/src/App.tsx:59-65 | an edit keeps ids unique |
| `GoalList.RemoveById` | frontend/src/App.tsx:72 | no record with the id remains, a record is kept exactly when it was present and carries another id, and the list never grows |
| `GoalList.RemoveLength` | frontend/src/App.tsx:72 | the length drops by exactly the number of records carrying the id |
| `GoalList.RemoveIsSubseq` | frontend/src/App.tsx:72 | the remaining records keep their relative order |
| `GoalList.RemoveUnique` | frontend/src/App.tsx:72 | any order-preserving selection that drops exactly the records with the id equals the filter's result |
| `GoalList.RemoveAbsent` | frontend/src/App.tsx:72 | deleting an id no record carries leaves the list unchanged |
| `GoalList.RemoveIdempotent` | frontend/src/App.tsx:72 | deleting the same id twice equals deleting it once |
| `GoalList.RemoveKeepsUnique` | frontend/src/App.tsx:72 | a delete keeps ids unique |
| `GoalList.DeletedTargetIsUnmatched` | frontend/src/App.tsx:59-72 | after an id is deleted, an edit aimed at that id rewrites nothing |
| `Suggestions.SuggestionOf` | frontend/src/App.tsx:19-37 | a thrown error yields exactly the fallback text; a reply's message passes through; the result is undefined exactly for a reply without a message |
| `Editor.AfterAdd` | frontend/src/App.tsx:39-52 | an empty input changes nothing; otherwise the list grows by one with the earlier records unchanged and in order, the new last goal has the given id, the input text and the suggestion, the input is cleared, the edit target is unchanged and no request is in flight |
| `Editor.AfterEdit` | frontend/src/App.tsx:54-69 | an empty input changes nothing; otherwise length and ids are kept, matching records get the input text and the suggestion, all others are identical, the input is cleared, the target becomes null and no request is in flight |
| `Editor.AfterDelete` | frontend/src/App.tsx:71-73 | no goal with the id remains, a goal is kept exactly when it was listed with another id, the kept goals keep their relative order, the length drops by the number of goals with the id, and the input, edit target and busy flag are untouched |
| `Editor.AfterStartEditing` | frontend/src/App.tsx:75-78 | the input holds the goal's text and the target is its id; the list and busy flag are untouched |
| `Editor.AfterInput` | frontend/src/App.tsx:91 | typing sets the input and changes nothing else |
| `Editor.SubmitDisabled` | frontend/src/App.tsx:96 | the button is disabled exactly when the input is empty or a request is in flight (its behaviour is stated through `SubmitRule`) |
| `Editor.DispatchesToEdit` | frontend/src/App.tsx:95 | the edit handler is chosen exactly when the edit target is truthy: present and not 0 (its behaviour is stated through `SubmitRule` and `ZeroIdEditAdds`) |
| `Editor.AfterSubmit` | frontend/src/App.tsx:94-96 | the click on the submit button, dispatching to `AfterEdit` or `AfterAdd`; it has no contract of its own, and `SubmitRule` states its behaviour |
| `Editor.TransitionsKeepTextsNonEmpty` | frontend/src/App.tsx:39-78 | the initial list has no goal with empty text, and every transition keeps every listed goal's text non-empty, because the add and edit handlers return early on an empty input |
| `Editor.AddAfterFailure` | frontend/src/App.tsx:32-48 | an add whose request threw stores exactly the fallback text as the new goal's suggestion |
| `Editor.SubmitRule` | frontend/src/App.tsx:94-96 | a disabled button (empty input or request in flight) changes nothing; an accepted click ends idle with the input cleared, and grows the list by one if and only if the edit target is falsy; in edit mode it keeps the ids and ends edit mode; in create mode it appends and keeps the target |
| `Editor.EditOfAbsentTarget` | frontend/src/App.tsx:59-65 | an edit whose target is null or absent from the list leaves the list unchanged |
| `Editor.TransitionsKeepUnique` | frontend/src/App.tsx:39-78 | every handler keeps ids unique; only an add, directly or through the submit button, needs an id not already present |
| `Editor.EditRoundTrip` | frontend/src/App.tsx:54-78 | starting to edit a listed goal with a non-zero id and submitting rewrites that goal's suggestion in place, keeps every other goal, clears the input and ends edit mode |
| `Editor.ZeroIdEditAdds` | frontend/src/App.tsx:94-98 | editing a goal whose id is 0 and submitting appends a new goal and leaves the target at 0 |
| `Editor.DeleteTargetThenSubmit` | frontend/src/App.tsx:54-73 | deleting the goal being edited and then submitting leaves the list as the delete made it, clears the input and ends edit mode |
| `Creator.GoalCreator.constructor` | frontend/src/App.tsx:14-17 | the initial state is an empty list, an empty input, no target and not loading |
| `Creator.GoalCreator.GenerateGoalSuggestions` | frontend/src/App.tsx:19-37 | returns the suggestion for the response (the fallback when it threw) and clears the busy flag, leaving the other fields unchanged |
| `Creator.GoalCreator.HandleAddGoal` | frontend/src/App.tsx:39-52 | the new state is `AfterAdd` of the old one |
| `Creator.GoalCreator.HandleEditGoal` | frontend/src/App.tsx:54-69 | the new state is `AfterEdit` of the old one |
| `Creator.GoalCreator.HandleDeleteGoal` | frontend/src/App.tsx:71-73 | the new state is `AfterDelete` of the old one |
| `Creator.GoalCreator.StartEditing` | frontend/src/App.tsx:75-78 | the new state is `AfterStartEditing` of the old one |
| `Creator.GoalCreator.OnInputChange` | frontend/src/App.tsx:91 | the new state is `AfterInput` of the old one |
| `Creator.GoalCreator.OnSubmitClick` | frontend/src/App.tsx:94-96 | the new state is `AfterSubmit` of the old one: ignored while disabled, otherwise the edit or add handler by the truthiness of the target |

## Left out

- The HTTP request (`fetch`, headers, `JSON.stringify`, `response.json()`, frontend/src/App.tsx:22-30) is I/O. Its outcome is a `Response` parameter: a parsed body with or without `Message`, or a thrown error.
- `Date.now()` (frontend/src/App.tsx:45) reads the clock. The add handler takes the reading as the parameter `now`.
- Asynchrony: each handler runs to completion as one step. The model does not show the moment, while the request is pending, when `isLoading` is true and the button is disabled. Only the flag's value before and after the request is modelled. The model also leaves out input typed during a pending request, which the handler's captured `currentGoal` would ignore, and React's batching of setter calls.
- A hung request, which leaves `isLoading` set for good, is not modelled: every `Response` resolves.
- The reply body is untyped, so a `Message` that is not a string (a number, an object, `null`) is stored as it is. `Replied` carries only a string or an absent message, so such values are not modelled.
- Ids are JavaScript numbers. They are modelled as unbounded integers, so `NaN`, fractions and the 2^53 precision limit are not modelled. A clock reading is always a safe integer.
- Rendering and styling (frontend/src/App.tsx:80-138) are not modelled, apart from the submit button's handler and disabled rule and the input's change handler.
- backend/goals-maker/goals_maker/main.py only forwards the goal text to a hosted language model. It has no logic of its own and is not part of this model.
