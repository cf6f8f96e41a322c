/**
 * The browser client's page state and the handlers that change it:
 * rendering the fetched list, adding a control, entering edit mode and
 * submitting an edit. Each asynchronous continuation is one synchronous
 * step whose inputs are what the server answered; `confirm` answers are
 * parameters too. The text each handler passes to `alert` is returned;
 * where a `catch` receives an error, the error's message (which goes to the
 * console) is returned as an `Outcome` beside it.
 */
module ClientPage {
  import opened Wrappers
  import opened Text
  import opened ControlOrder

  /** The four input fields of the form. */
  datatype Form = Form(mainID: string, mainDescription: string, domain: string, scope: string)

  const EmptyForm := Form("", "", "", "")

  /**
   * One row of the table body: the control it shows, whether it carries the
   * `edit-highlight` class, and whether its Delete button is disabled.
   */
  datatype Row = Row(control: Control, highlighted: bool, deleteDisabled: bool)

  /** Which of the "Add Control" and "Update" buttons is displayed. */
  datatype Action = AddShown | UpdateShown

  /** The decoded body of a list response: an array of controls, or any other JSON value. */
  datatype Payload = ControlArray(items: seq<Control>) | NotAnArray

  /** A list response: not ok, or ok with its decoded body. */
  datatype ListResponse = ListFailed | ListOk(payload: Payload)

  /** How a continuation ends: normally, or with the message of the error its `catch` logs. */
  datatype Outcome = Done | Failed(message: string)

  const NotAnArrayError := "data.find is not a function"
  const DuplicateIdMessage := "Duplicate main ID. Please choose a different one."
  const UpdateFailedMessage := "Failed to update control"
  /** What the `catch` of `fetchControls` shows, whatever the error. */
  const FetchControlsAlert := "Error fetching controls. Please check server logs."
  /** What the `catch` of `updateData` shows, whatever the error. */
  const FetchControlDataAlert := "Error fetching control data. Please check server logs."

  /** The text of a row's first cell. */
  function FirstCell(row: Row): string {
    row.control.mainID
  }

  /** The rows `innerHTML +=` appends for a list: plain, with Delete enabled. */
  function Rendered(cs: seq<Control>): (rows: seq<Row>)
    ensures |rows| == |cs|
    ensures forall i :: 0 <= i < |cs| ==> rows[i] == Row(cs[i], false, false)
  {
    seq(|cs|, i requires 0 <= i < |cs| => Row(cs[i], false, false))
  }

  function Controls(rows: seq<Row>): seq<Control> {
    seq(|rows|, i requires 0 <= i < |rows| => rows[i].control)
  }

  /**
   * A valid list renders one plain row per control, as many rows as
   * controls, ordered by the comparator.
   */
  lemma RenderedList(items: seq<Control>)
    ensures var rows := Rendered(SortControls(items));
      && multiset(Controls(rows)) == multiset(items)
      && Sorted(Controls(rows))
      && forall i :: 0 <= i < |rows| ==> !rows[i].highlighted && !rows[i].deleteDisabled
  {
    SortControlsCorrect(items);
    var rows := Rendered(SortControls(items));
    assert Controls(rows) == SortControls(items);
  }

  /** `data.find(control => control.mainID === id)`, as the index of the first match. */
  function FindIndex(cs: seq<Control>, id: string): (r: Option<nat>)
    ensures r.Some? ==> r.value < |cs| && cs[r.value].mainID == id
    ensures r.Some? ==> forall j :: 0 <= j < r.value ==> cs[j].mainID != id
    ensures r.None? ==> forall j :: 0 <= j < |cs| ==> cs[j].mainID != id
  {
    if cs == [] then None
    else if cs[0].mainID == id then Some(0)
    else
      match FindIndex(cs[1..], id)
      case None => None
      case Some(k) => Some(k + 1)
  }

  /** The body `AddData` sends: the form with its `mainID` lower-cased. */
  function NewControl(form: Form): Control {
    Control(ToLower(form.mainID), form.mainDescription, form.domain, form.scope)
  }

  /** `AddData` always sends a lower-case id, and the other fields as typed. */
  lemma NewControlLowerCase(form: Form)
    ensures IsLowerCase(NewControl(form).mainID)
    ensures NewControl(form).mainID == ToLower(form.mainID)
    ensures |NewControl(form).mainID| == |form.mainID|
    ensures IsLowerCase(form.mainID) ==> NewControl(form).mainID == form.mainID
    ensures NewControl(form).mainDescription == form.mainDescription
    ensures NewControl(form).domain == form.domain && NewControl(form).scope == form.scope
  {
    ToLowerIsLowerCase(form.mainID);
    if IsLowerCase(form.mainID) {
      ToLowerOfLowerCase(form.mainID);
    }
  }

  /** The gate of `updateControl`: all four fields non-empty. */
  predicate AllFilled(form: Form) {
    form.mainID != "" && form.mainDescription != "" && form.domain != "" && form.scope != ""
  }

  /** What `updateControl` does before any network traffic. */
  datatype Submission = Rejected(alert: string) | Sent(pathId: string, body: Control)

  /** An ok status is a 2xx one. */
  predicate IsOk(status: int) {
    200 <= status <= 299
  }

  /**
   * The error an update response raises: none for an ok status, the
   * duplicate-id message for 409, a generic failure for any other status.
   */
  function UpdateFailure(status: int): (r: Option<string>)
    ensures r.None? <==> IsOk(status)
    ensures r == Some(DuplicateIdMessage) <==> status == 409
    ensures r == Some(UpdateFailedMessage) <==> !IsOk(status) && status != 409
  {
    if IsOk(status) then None
    else if status == 409 then Some(DuplicateIdMessage)
    else Some(UpdateFailedMessage)
  }

  /** The page's DOM state that the handlers read and change. */
  class Page {
    var rows: seq<Row>
    var form: Form
    var mainIDDisabled: bool
    var shown: Action

    constructor ()
      ensures rows == [] && form == EmptyForm && !mainIDDisabled && shown == AddShown
    {
      rows, form, mainIDDisabled, shown := [], EmptyForm, false, AddShown;
    }

    /**
     * The continuation of `fetchControls`: a failed response leaves the table
     * alone; otherwise the body is cleared first, so a non-array payload
     * leaves it empty, and an array is sorted and rendered row by row. Any
     * failure shows the same fixed alert.
     */
    method ShowControls(response: ListResponse) returns (outcome: Outcome, alert: Option<string>)
      modifies this
      ensures alert == if outcome.Done? then None else Some(FetchControlsAlert)
      ensures response.ListFailed? ==> outcome == Failed("Network response was not ok") && rows == old(rows)
      ensures response == ListOk(NotAnArray) ==> outcome == Failed("Expected an array of controls") && rows == []
      ensures response.ListOk? && response.payload.ControlArray? ==>
        outcome == Done && rows == Rendered(SortControls(response.payload.items))
      ensures form == old(form) && mainIDDisabled == old(mainIDDisabled) && shown == old(shown)
    {
      if response.ListFailed? {
        return Failed("Network response was not ok"), Some(FetchControlsAlert);
      }
      rows := [];
      if response.payload.NotAnArray? {
        return Failed("Expected an array of controls"), Some(FetchControlsAlert);
      }
      var data := SortControls(response.payload.items);
      var body: seq<Row> := [];
      var i := 0;
      while i < |data|
        invariant 0 <= i <= |data|
        invariant body == Rendered(data[..i])
      {
        body := body + [Row(data[i], false, false)];
        i := i + 1;
      }
      assert data[..|data|] == data;
      rows := body;
      outcome, alert := Done, None;
    }

    /**
     * The response handling of `AddData`: on success the form is cleared and
     * the list is to be fetched again; on failure the server's message is shown.
     */
    method FinishAdd(ok: bool, errorMessage: string) returns (alert: string, refresh: bool)
      modifies this
      ensures ok ==> alert == "Control added successfully!" && refresh && form == EmptyForm
      ensures !ok ==> alert == "Error adding control: " + errorMessage && !refresh && form == old(form)
      ensures rows == old(rows) && mainIDDisabled == old(mainIDDisabled) && shown == old(shown)
    {
      if !ok {
        return "Error adding control: " + errorMessage, false;
      }
      alert := "Control added successfully!";
      form := EmptyForm;
      refresh := true;
    }

    /**
     * `updateData(id)`: after confirmation and a fresh list, finds the control,
     * fills and locks the form, highlights exactly the rows whose first cell
     * is `id`, disables every Delete button and shows "Update". Any failure,
     * including an unknown id, changes nothing and shows the same fixed
     * alert; no confirmation, no request.
     */
    method EnterEdit(id: string, confirmed: bool, response: ListResponse)
      returns (outcome: Option<Outcome>, alert: Option<string>)
      modifies this
      ensures alert == if outcome.Some? && outcome.value.Failed? then Some(FetchControlDataAlert) else None
      ensures !confirmed ==> outcome.None?
      ensures confirmed && response.ListFailed? ==> outcome == Some(Failed("Failed to fetch controls"))
      ensures confirmed && response == ListOk(NotAnArray) ==> outcome == Some(Failed(NotAnArrayError))
      ensures confirmed && response.ListOk? && response.payload.ControlArray? ==>
        var data := response.payload.items;
        && (FindIndex(data, id).None? ==> outcome == Some(Failed("Control not found")))
        && (FindIndex(data, id).Some? ==>
              && outcome == Some(Done)
              && form == (var c := data[FindIndex(data, id).value];
                          Form(c.mainID, c.mainDescription, c.domain, c.scope)))
      ensures outcome != Some(Done) ==>
        rows == old(rows) && form == old(form) && mainIDDisabled == old(mainIDDisabled) && shown == old(shown)
      ensures outcome == Some(Done) ==>
        && mainIDDisabled && shown == UpdateShown
        && |rows| == |old(rows)|
        && forall i :: 0 <= i < |rows| ==>
             && rows[i].control == old(rows[i].control)
             && rows[i].highlighted == (FirstCell(old(rows[i])) == id)
             && rows[i].deleteDisabled
    {
      if !confirmed {
        return None, None;
      }
      if response.ListFailed? {
        return Some(Failed("Failed to fetch controls")), Some(FetchControlDataAlert);
      }
      if response.payload.NotAnArray? {
        return Some(Failed(NotAnArrayError)), Some(FetchControlDataAlert);
      }
      var data := response.payload.items;
      var found := FindIndex(data, id);
      if found.None? {
        return Some(Failed("Control not found")), Some(FetchControlDataAlert);
      }
      var control := data[found.value];
      form := Form(control.mainID, control.mainDescription, control.domain, control.scope);
      mainIDDisabled := true;

      var rs := rows;
      var i := 0;
      while i < |rs|
        invariant 0 <= i <= |rs| && |rs| == |old(rows)|
        invariant forall k :: 0 <= k < |rs| ==> rs[k].control == old(rows[k].control)
        invariant forall k :: 0 <= k < i ==> rs[k].highlighted == (FirstCell(old(rows[k])) == id)
        invariant forall k :: i <= k < |rs| ==> rs[k] == old(rows[k])
      {
        rs := rs[i := rs[i].(highlighted := FirstCell(rs[i]) == id)];
        i := i + 1;
      }

      i := 0;
      while i < |rs|
        invariant 0 <= i <= |rs| && |rs| == |old(rows)|
        invariant forall k :: 0 <= k < |rs| ==> rs[k].control == old(rows[k].control)
        invariant forall k :: 0 <= k < |rs| ==> rs[k].highlighted == (FirstCell(old(rows[k])) == id)
        invariant forall k :: 0 <= k < i ==> rs[k].deleteDisabled
      {
        rs := rs[i := rs[i].(deleteDisabled := true)];
        i := i + 1;
      }
      rows := rs;
      shown := UpdateShown;
      outcome, alert := Some(Done), None;
    }

    /** The client-side gate of `updateControl`: nothing is sent unless all four fields are filled. */
    method SubmitEdit() returns (submission: Submission)
      ensures submission.Rejected? <==> !AllFilled(form)
      ensures submission.Rejected? ==> submission.alert == "Please fill in all fields."
      ensures submission.Sent? ==>
        && submission.pathId == form.mainID
        && submission.body == Control(form.mainID, form.mainDescription, form.domain, form.scope)
    {
      var updated := Control(form.mainID, form.mainDescription, form.domain, form.scope);
      if !AllFilled(form) {
        return Rejected("Please fill in all fields.");
      }
      submission := Sent(updated.mainID, updated);
    }

    /**
     * The response handling of `updateControl`: a failure shows its message
     * and stays in edit mode; success asks for a fresh list, clears the form,
     * removes every highlight, enables every Delete button, shows "Add
     * Control" and unlocks `mainID`.
     */
    method FinishEdit(status: int) returns (alert: string, refresh: bool)
      modifies this
      ensures UpdateFailure(status).Some? ==>
        && alert == UpdateFailure(status).value && !refresh
        && rows == old(rows) && form == old(form) && mainIDDisabled == old(mainIDDisabled) && shown == old(shown)
      ensures UpdateFailure(status).None? ==>
        && alert == "Control updated successfully." && refresh
        && form == EmptyForm && !mainIDDisabled && shown == AddShown
        && |rows| == |old(rows)|
        && forall i :: 0 <= i < |rows| ==>
             rows[i] == Row(old(rows[i]).control, false, false)
    {
      var failure := UpdateFailure(status);
      if failure.Some? {
        return failure.value, false;
      }
      alert := "Control updated successfully.";
      refresh := true;
      form := EmptyForm;

      var rs := rows;
      var i := 0;
      while i < |rs|
        invariant 0 <= i <= |rs| && |rs| == |old(rows)|
        invariant forall k :: 0 <= k < i ==> rs[k] == old(rows[k]).(highlighted := false)
        invariant forall k :: i <= k < |rs| ==> rs[k] == old(rows[k])
      {
        rs := rs[i := rs[i].(highlighted := false)];
        i := i + 1;
      }

      i := 0;
      while i < |rs|
        invariant 0 <= i <= |rs| && |rs| == |old(rows)|
        invariant forall k :: 0 <= k < i ==> rs[k] == Row(old(rows[k]).control, false, false)
        invariant forall k :: i <= k < |rs| ==> rs[k] == old(rows[k]).(highlighted := false)
      {
        rs := rs[i := rs[i].(deleteDisabled := false)];
        i := i + 1;
      }
      rows := rs;
      shown := AddShown;
      mainIDDisabled := false;
    }
  }

  /**
   * With distinct ids shown, edit mode on a listed id highlights exactly one
   * row: the one showing that id.
   */
  lemma HighlightIsUnique(rows: seq<Row>, id: string, k: nat)
    requires forall i, j :: 0 <= i < j < |rows| ==> FirstCell(rows[i]) != FirstCell(rows[j])
    requires forall i :: 0 <= i < |rows| ==> rows[i].highlighted == (FirstCell(rows[i]) == id)
    requires k < |rows| && FirstCell(rows[k]) == id
    ensures forall i :: 0 <= i < |rows| ==> (rows[i].highlighted <==> i == k)
  {
  }
}
