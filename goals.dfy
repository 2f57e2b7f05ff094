/** The record the goal list holds, and the optional value used for the
    component's nullable fields. */
module Goals {

  /** A value that may be absent: JavaScript's `null` or `undefined`. */
  datatype Option<+T> = None | Some(value: T)

  /** One entry of the goal list. `id` is a JavaScript number taken from the
      clock when the goal is added; `suggestions` is `None` when the
      suggestion service's reply carried no `Message` field, so the stored
      value is `undefined`. */
  datatype Goal = Goal(id: int, text: string, suggestions: Option<string>)
}
