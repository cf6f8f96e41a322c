/**
 * What the client's requests do once they reach the handler: the body the
 * client sends, read as the handler's field list, and three consequences.
 */
module EndToEnd {
  import opened Wrappers
  import opened Text
  import opened ControlOrder
  import opened LambdaHandler
  import opened LambdaHandlerProofs
  import opened LambdaRoutes
  import opened ClientPage

  /** `JSON.stringify` of a control, decoded by `json.loads`: its four fields in declaration order. */
  function RequestBody(c: Control): seq<Field> {
    [Field("mainID", c.mainID), Field("mainDescription", c.mainDescription),
     Field("domain", c.domain), Field("scope", c.scope)]
  }

  lemma RequestBodyLookup(c: Control)
    ensures DistinctNames(RequestBody(c))
    ensures Lookup(RequestBody(c), "mainID") == Some(c.mainID)
    ensures Lookup(RequestBody(c), "mainDescription") == Some(c.mainDescription)
    ensures Lookup(RequestBody(c), "domain") == Some(c.domain)
    ensures Lookup(RequestBody(c), "scope") == Some(c.scope)
  {
    var b := RequestBody(c);
    assert b[0].name[0] == 'm' && b[1].name[0] == 'm' && b[2].name[0] == 'd' && b[3].name[0] == 's';
    assert b[0].name[4] == 'I' && b[1].name[4] == 'D';
    LookupDistinct(b, 0);
    LookupDistinct(b, 1);
    LookupDistinct(b, 2);
    LookupDistinct(b, 3);
  }

  /**
   * The handler never answers an update with 409, so the client's
   * duplicate-id message cannot appear: a failed update always reads
   * "Failed to update control".
   */
  lemma UpdateNeverReportsDuplicate(items: Items, pathId: Option<string>, body: Option<seq<Field>>)
    ensures var status := Handle(items, Event(PostRoute, pathId, body)).0.statusCode;
      && UpdateFailure(status) != Some(DuplicateIdMessage)
      && (UpdateFailure(status).Some? ==> UpdateFailure(status) == Some(UpdateFailedMessage))
  {
    StatusCodes(items, Event(PostRoute, pathId, body));
  }

  /**
   * Two additions whose ids differ only in letter case: the client lower-cases
   * both, so once the first is stored the second is refused as a duplicate.
   */
  lemma AddsCollideIgnoringCase(items: Items, f1: Form, f2: Form)
    requires WellKeyed(items)
    requires AllFilled(f1) && f2.mainDescription != "" && f2.domain != "" && f2.scope != ""
    requires ToLower(f1.mainID) == ToLower(f2.mainID)
    requires ToLower(f1.mainID) !in items
    ensures var (first, items1) := Handle(items, Event(PutRoute, None, Some(RequestBody(NewControl(f1)))));
      && first.statusCode == 201
      && var (second, items2) := Handle(items1, Event(PutRoute, None, Some(RequestBody(NewControl(f2)))));
      && second == Response(400, Message("Duplicate mainID found: " + ToLower(f2.mainID)))
      && items2 == items1
  {
    var b1 := RequestBody(NewControl(f1));
    var b2 := RequestBody(NewControl(f2));
    RequestBodyLookup(NewControl(f1));
    RequestBodyLookup(NewControl(f2));
    assert |ToLower(f1.mainID)| == |f1.mainID|;
    PutStoresNewItem(items, None, b1);
    var items1 := Handle(items, Event(PutRoute, None, Some(b1))).1;
    PutRejectsDuplicate(items1, None, b2);
  }

  /**
   * An edit that passes the client's gate is answered "Updated item <id>",
   * and the stored control becomes the old one with its three descriptive
   * fields replaced by the form's; its key and every other item stay.
   */
  lemma SubmittedEditUpdatesItem(items: Items, form: Form)
    requires AllFilled(form) && form.mainID in items
    ensures var c := Control(form.mainID, form.mainDescription, form.domain, form.scope);
      Handle(items, Event(PostRoute, Some(form.mainID), Some(RequestBody(c))))
      == (Response(200, Str("Updated item " + form.mainID)),
          items[form.mainID := items[form.mainID]
            + map["mainDescription" := form.mainDescription, "domain" := form.domain, "scope" := form.scope]])
  {
    var c := Control(form.mainID, form.mainDescription, form.domain, form.scope);
    RequestBodyUpdates(c);
    RequestBodyAssignments(c);
    assert Handle(items, Event(PostRoute, Some(form.mainID), Some(RequestBody(c))))
      == Post(items, form.mainID, RequestBody(c));
  }

  /** The fields a POST of a control's request body updates: all but `mainID`, in order. */
  lemma RequestBodyUpdates(c: Control)
    ensures UpdatedFields(RequestBody(c))
      == [Field("mainDescription", c.mainDescription), Field("domain", c.domain), Field("scope", c.scope)]
  {
    var key := Field("mainID", c.mainID);
    var f1 := Field("mainDescription", c.mainDescription);
    var f2 := Field("domain", c.domain);
    var f3 := Field("scope", c.scope);
    var rest := [f1, f2, f3];
    assert RequestBody(c) == [key] + rest;
    UpdatedFieldsAppend([key], rest);
    assert [key][..0] == [] && rest[..2] == [f1, f2] && [f1, f2][..1] == [f1] && [f1][..0] == [];
    assert f2.name[0] == 'd';
    assert UpdatedFields([key]) == [];
    assert UpdatedFields([f1]) == [f1];
    assert UpdatedFields([f1, f2]) == [f1, f2];
  }

  /** Those three fields are set to the control's values, and nothing else is set. */
  lemma RequestBodyAssignments(c: Control)
    ensures Assignments(UpdatedFields(RequestBody(c)))
      == map["mainDescription" := c.mainDescription, "domain" := c.domain, "scope" := c.scope]
  {
    var f1 := Field("mainDescription", c.mainDescription);
    var f2 := Field("domain", c.domain);
    var f3 := Field("scope", c.scope);
    var rest := [f1, f2, f3];
    RequestBodyUpdates(c);
    assert rest[..2] == [f1, f2] && [f1, f2][..1] == [f1] && [f1][..0] == [];
    assert Assignments([f1]) == map["mainDescription" := c.mainDescription];
    assert Assignments([f1, f2]) == map["mainDescription" := c.mainDescription, "domain" := c.domain];
  }
}
