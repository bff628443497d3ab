/** The add-item form (src/features/shopping/components/AddItemForm.tsx): a
    collapsed "Add item..." button that expands into a form with a title, a
    quantity and a category; submitting hands a cleaned-up request to the list. */
module AddItemForm {
  import opened Wrappers
  import opened Text

  /** The arguments of the `onAdd` callback: the trimmed title, the selected
      category id or null, and the trimmed quantity or undefined. */
  datatype AddRequest = AddRequest(title: string, categoryId: Option<string>, quantity: Option<string>)

  /** What a submit of the given field values hands to `onAdd`: nothing when the
      title trims to nothing; otherwise the trimmed title, the category unless
      none is selected, and the trimmed quantity unless it trims to nothing. */
  function SubmitRequest(title: string, quantity: string, categoryId: string): (call: Option<AddRequest>)
    ensures call.None? <==> Trim(title) == []
    ensures call.Some? ==> call.value.title == Trim(title) != []
    ensures call.Some? ==> (call.value.categoryId.None? <==> categoryId == "")
    ensures call.Some? && call.value.categoryId.Some? ==> call.value.categoryId.value == categoryId
    ensures call.Some? ==> (call.value.quantity.None? <==> Trim(quantity) == [])
    ensures call.Some? && call.value.quantity.Some? ==> call.value.quantity.value == Trim(quantity) != []
  {
    var t := Trim(title);
    if t == [] then None
    else
      var q := Trim(quantity);
      Some(AddRequest(t,
                      if categoryId == "" then None else Some(categoryId),
                      if q == [] then None else Some(q)))
  }

  /** The form sends nothing exactly when the title is blank (empty or only
      white space), and sends no quantity exactly when the quantity is blank. */
  lemma BlankFieldsAreDropped(title: string, quantity: string, categoryId: string)
    ensures SubmitRequest(title, quantity, categoryId).None? <==> AllSpace(title)
    ensures SubmitRequest(title, quantity, categoryId).Some? ==>
      (SubmitRequest(title, quantity, categoryId).value.quantity.None? <==> AllSpace(quantity))
  {
    TrimEmptyIffAllSpace(title);
    TrimEmptyIffAllSpace(quantity);
  }

  /** A request the form produced comes back unchanged when its own values are
      typed into the form and submitted again: the clean-up is complete after one
      pass. */
  lemma {:induction false} SubmitRequestStable(title: string, quantity: string, categoryId: string)
    requires SubmitRequest(title, quantity, categoryId).Some?
    ensures var r := SubmitRequest(title, quantity, categoryId).value;
      SubmitRequest(r.title, r.quantity.GetOr(""), r.categoryId.GetOr("")) == Some(r)
  {
    var r := SubmitRequest(title, quantity, categoryId).value;
    TrimIdempotent(title);
    if r.quantity.Some? {
      TrimIdempotent(quantity);
    }
  }

  /** The form's state. The text fields and the select hold strings; the empty
      category id is the "No category" option. */
  class AddItemFormState {
    var title: string
    var quantity: string
    var categoryId: string
    var isExpanded: bool

    /** The form starts collapsed with every field empty. */
    constructor ()
      ensures title == "" && quantity == "" && categoryId == "" && !isExpanded
    {
      title, quantity, categoryId, isExpanded := "", "", "", false;
    }

    /** Whether the Add button is enabled: the title is not blank. */
    function CanSubmit(): (enabled: bool)
      reads this
      ensures enabled <==> !AllSpace(title)
      ensures enabled <==> SubmitRequest(title, quantity, categoryId).Some?
    {
      BlankFieldsAreDropped(title, quantity, categoryId);
      Trim(title) != []
    }

    /** The collapsed button expands the form; the fields keep their values. */
    method Expand()
      requires !isExpanded
      modifies this
      ensures isExpanded
      ensures title == old(title) && quantity == old(quantity) && categoryId == old(categoryId)
    {
      isExpanded := true;
    }

    method EditTitle(value: string)
      requires isExpanded
      modifies this
      ensures title == value
      ensures quantity == old(quantity) && categoryId == old(categoryId) && isExpanded
    {
      title := value;
    }

    method EditQuantity(value: string)
      requires isExpanded
      modifies this
      ensures quantity == value
      ensures title == old(title) && categoryId == old(categoryId) && isExpanded
    {
      quantity := value;
    }

    method SelectCategory(value: string)
      requires isExpanded
      modifies this
      ensures categoryId == value
      ensures title == old(title) && quantity == old(quantity) && isExpanded
    {
      categoryId := value;
    }

    /** Submitting a blank title does nothing. Otherwise the request goes to
        `onAdd`, the title and quantity are cleared, and the category stays
        selected and the form open for the next item. */
    method Submit() returns (call: Option<AddRequest>)
      requires isExpanded
      modifies this
      ensures call == SubmitRequest(old(title), old(quantity), old(categoryId))
      ensures call.None? ==> unchanged(this)
      ensures call.Some? ==> title == "" && quantity == "" && categoryId == old(categoryId) && isExpanded
    {
      call := SubmitRequest(title, quantity, categoryId);
      if call.Some? {
        title := "";
        quantity := "";
      }
    }

    /** Escape collapses the form and clears the title and quantity; the category
        stays selected. Any other key does nothing. */
    method KeyDown(key: string)
      requires isExpanded
      modifies this
      ensures key == "Escape" ==> !isExpanded && title == "" && quantity == "" && categoryId == old(categoryId)
      ensures key != "Escape" ==> unchanged(this)
    {
      if key == "Escape" {
        isExpanded := false;
        title := "";
        quantity := "";
      }
    }

    /** Cancel does what Escape does. */
    method Cancel()
      requires isExpanded
      modifies this
      ensures !isExpanded && title == "" && quantity == "" && categoryId == old(categoryId)
    {
      isExpanded := false;
      title := "";
      quantity := "";
    }
  }
}
