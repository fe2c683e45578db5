/**
 * The new-task form (components/AddTodo.tsx): one text field, submitted only
 * when its trimmed value is non-empty, and cleared after a submission.
 */
module AddTodo {
  import opened Wrappers
  import opened JsString

  class AddTodoForm {
    /** The controlled input's value. */
    var text: string

    constructor ()
      ensures text == []
    {
      text := [];
    }

    /** The input's change handler stores what was typed. */
    method Change(value: string)
      modifies this
      ensures text == value
    {
      text := value;
    }

    /**
     * The Add button is disabled exactly when the trimmed text is empty, that
     * is when the field holds nothing but white space.
     */
    function SubmitDisabled(): (disabled: bool)
      reads this
      ensures disabled <==> forall i :: 0 <= i < |text| ==> IsWhiteSpace(text[i])
    {
      Trim(text) == []
    }

    /**
     * The form's submit handler. `added` is the argument passed to `onAdd`,
     * or `None` when `onAdd` is not called. It is called exactly when the
     * button would be enabled, with the trimmed text, after which the field
     * is cleared; otherwise the field is left as it was.
     */
    method Submit() returns (added: Option<string>)
      modifies this
      ensures added.Some? <==> !old(SubmitDisabled())
      ensures added.Some? ==> added.value == Trim(old(text)) && text == []
      ensures added.Some? ==>
                added.value != [] &&
                !IsWhiteSpace(added.value[0]) && !IsWhiteSpace(added.value[|added.value| - 1])
      ensures added.None? ==> text == old(text)
    {
      var trimmed := Trim(text);
      if trimmed != [] {
        added := Some(trimmed);
        text := [];
      } else {
        added := None;
      }
    }
  }
}
