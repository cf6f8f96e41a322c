/**
 * The AWS Lambda backend: `lambda_handler` over the DynamoDB table
 * `SecurityControls`, keyed by the string attribute `mainID`.
 *
 * The request event is reduced to its route key, the optional path
 * parameter `mainID` and the optional JSON body, already decoded into an
 * ordered list of string fields (Python dicts keep insertion order). A body
 * of `None` stands for a missing or undecodable body, where `json.loads`
 * raises. Response bodies are kept as values before `json.dumps`.
 */
module LambdaHandler {
  import opened Wrappers
  import opened Text

  /** A stored item: attribute name to string value. */
  type Record = map<string, string>

  /** The table's contents: partition key `mainID` to item. */
  type Items = map<string, Record>

  datatype Field = Field(name: string, value: string)

  datatype Event = Event(routeKey: string, pathId: Option<string>, body: Option<seq<Field>>)

  datatype ResponseBody =
    | Str(text: string)          // a JSON string
    | Item(item: Record)         // one item, `{}` when absent
    | AllItems(items: Items)     // the scanned items
    | Message(message: string)   // `{"message": ...}`
    | ErrorText                  // "An error occurred: <exception text>"

  datatype Response = Response(statusCode: int, body: ResponseBody)

  const DeleteRoute := "DELETE /items/{mainID}"
  const GetRoute := "GET /items/{mainID}"
  const ScanRoute := "GET /items"
  const PutRoute := "PUT /items"
  const PostRoute := "POST /items/{mainID}"

  const RequiredFields: seq<string> := ["mainID", "mainDescription", "domain", "scope"]

  /** What the `except Exception` clause answers. */
  const ServerError := Response(500, ErrorText)

  /** Every item holds its own key under `mainID`, as DynamoDB items hold their key attribute. */
  predicate WellKeyed(items: Items) {
    forall k :: k in items ==> "mainID" in items[k] && items[k]["mainID"] == k
  }

  /** A Python dict has no repeated key. */
  predicate DistinctNames(body: seq<Field>) {
    forall i, j :: 0 <= i < j < |body| ==> body[i].name != body[j].name
  }

  // ---------------------------------------------------------------------------
  // PUT /items

  /** `request_body[name]` when the key is present. */
  function Lookup(body: seq<Field>, name: string): (r: Option<string>)
    ensures r.Some? <==> exists i :: 0 <= i < |body| && body[i].name == name
    ensures r.Some? ==> exists i :: 0 <= i < |body| && body[i].name == name && body[i].value == r.value
  {
    if body == [] then None
    else if body[0].name == name then Some(body[0].value)
    else Lookup(body[1..], name)
  }

  /** With distinct names, looking up a field's own name gives that field's value. */
  lemma {:induction false} LookupDistinct(body: seq<Field>, i: nat)
    requires DistinctNames(body) && i < |body|
    ensures Lookup(body, body[i].name) == Some(body[i].value)
  {
    if i > 0 {
      assert body[1..][i - 1] == body[i];
      LookupDistinct(body[1..], i - 1);
    }
  }

  /** The field is present and truthy (a non-empty string). */
  predicate Filled(body: seq<Field>, name: string) {
    Lookup(body, name).Some? && Lookup(body, name).value != ""
  }

  /** The names among `fields` that the body leaves absent or empty, in the order of `fields`. */
  function Missing(fields: seq<string>, body: seq<Field>): seq<string> {
    if fields == [] then []
    else (if Filled(body, fields[0]) then [] else [fields[0]]) + Missing(fields[1..], body)
  }

  /** A name is reported missing exactly when it is required and absent or empty. */
  lemma {:induction false} MissingMembers(fields: seq<string>, body: seq<Field>)
    ensures forall f :: f in Missing(fields, body) <==> f in fields && !Filled(body, f)
    ensures |Missing(fields, body)| <= |fields|
  {
    if fields != [] {
      MissingMembers(fields[1..], body);
      assert fields == [fields[0]] + fields[1..];
    }
  }

  function MissingFields(body: seq<Field>): seq<string> {
    Missing(RequiredFields, body)
  }

  /** The missing fields are listed in the fixed order mainID, mainDescription, domain, scope. */
  lemma MissingInFixedOrder(body: seq<Field>)
    ensures MissingFields(body) ==
      (if Filled(body, "mainID") then [] else ["mainID"]) +
      (if Filled(body, "mainDescription") then [] else ["mainDescription"]) +
      (if Filled(body, "domain") then [] else ["domain"]) +
      (if Filled(body, "scope") then [] else ["scope"])
  {
    var fs := RequiredFields;
    var a: seq<string> := if Filled(body, "mainID") then [] else ["mainID"];
    var b: seq<string> := if Filled(body, "mainDescription") then [] else ["mainDescription"];
    var c: seq<string> := if Filled(body, "domain") then [] else ["domain"];
    var d: seq<string> := if Filled(body, "scope") then [] else ["scope"];
    assert fs[1..][1..][1..][1..] == [];
    assert Missing(fs[1..][1..][1..], body) == d by {
      assert fs[1..][1..][1..] == ["scope"];
    }
    assert Missing(fs[1..][1..], body) == c + d by {
      assert fs[1..][1..] == ["domain", "scope"];
    }
    assert Missing(fs[1..], body) == b + (c + d) by {
      assert fs[1..] == ["mainDescription", "domain", "scope"];
    }
    assert Missing(fs, body) == a + (b + (c + d));
    assert a + (b + (c + d)) == a + b + c + d;
  }

  /** Every required field is present and non-empty. */
  predicate Complete(body: seq<Field>) {
    Filled(body, "mainID") && Filled(body, "mainDescription") && Filled(body, "domain") && Filled(body, "scope")
  }

  lemma MissingFieldsEmpty(body: seq<Field>)
    ensures MissingFields(body) == [] <==> Complete(body)
  {
    MissingInFixedOrder(body);
  }

  /** The item written by a successful PUT: the four required fields and nothing else. */
  function NewItem(body: seq<Field>): Record
    requires Complete(body)
  {
    map["mainID" := Lookup(body, "mainID").value,
        "domain" := Lookup(body, "domain").value,
        "mainDescription" := Lookup(body, "mainDescription").value,
        "scope" := Lookup(body, "scope").value]
  }

  datatype DuplicateCheck = NoDuplicate | Duplicate | KeyMissing

  /**
   * `existing_item and existing_item['mainID'].lower() == main_id_lower`:
   * an absent or empty item is no duplicate, a stored item without `mainID`
   * raises `KeyError`.
   */
  function CheckDuplicate(items: Items, id: string): DuplicateCheck {
    if id !in items || items[id] == map[] then NoDuplicate
    else if "mainID" !in items[id] then KeyMissing
    else if ToLower(items[id]["mainID"]) == ToLower(id) then Duplicate
    else NoDuplicate
  }

  function Put(items: Items, body: seq<Field>): (Response, Items) {
    var missing := MissingFields(body);
    MissingFieldsEmpty(body);
    if missing != [] then
      (Response(400, Message("Missing required fields: " + Join(missing, ", "))), items)
    else
      var id := Lookup(body, "mainID").value;
      match CheckDuplicate(items, id)
      case KeyMissing => (ServerError, items)
      case Duplicate => (Response(400, Message("Duplicate mainID found: " + id)), items)
      case NoDuplicate => (Response(201, Str("Put item " + id)), items[id := NewItem(body)])
  }

  // ---------------------------------------------------------------------------
  // POST /items/{mainID}

  /** The body's fields other than `mainID`, in body order. */
  function UpdatedFields(body: seq<Field>): seq<Field> {
    if body == [] then []
    else
      var last := body[|body| - 1];
      UpdatedFields(body[..|body| - 1]) + (if last.name == "mainID" then [] else [last])
  }

  function Clause(name: string): string {
    "#" + name + " = :" + name
  }

  /** The clauses of the update expression, one per updated field, in order. */
  function Clauses(fields: seq<Field>): seq<string> {
    seq(|fields|, i requires 0 <= i < |fields| => Clause(fields[i].name))
  }

  /** `ExpressionAttributeNames` as the loop fills it. */
  function NameMap(fields: seq<Field>): map<string, string> {
    if fields == [] then map[]
    else
      var last := fields[|fields| - 1];
      NameMap(fields[..|fields| - 1])["#" + last.name := last.name]
  }

  /** `ExpressionAttributeValues` as the loop fills it. */
  function ValueMap(fields: seq<Field>): map<string, string> {
    if fields == [] then map[]
    else
      var last := fields[|fields| - 1];
      ValueMap(fields[..|fields| - 1])[":" + last.name := last.value]
  }

  /** The attributes the update sets, each to its value (a later field wins). */
  function Assignments(fields: seq<Field>): map<string, string> {
    if fields == [] then map[]
    else
      var last := fields[|fields| - 1];
      Assignments(fields[..|fields| - 1])[last.name := last.value]
  }

  /**
   * What `update_item` does with `SET #k = :k, ...`: each attribute named in
   * `names` gets the value bound to its `:` placeholder.
   */
  function Interpret(names: map<string, string>, values: map<string, string>): map<string, string> {
    map n | n in names.Values && ":" + n in values :: values[":" + n]
  }

  /**
   * The item `update_item` starts from: the stored one, or, as DynamoDB
   * upserts, a new item holding only its key.
   */
  function Base(items: Items, id: string): Record {
    if id in items then items[id] else map["mainID" := id]
  }

  function Post(items: Items, id: string, body: seq<Field>): (Response, Items) {
    var updates := UpdatedFields(body);
    if updates == [] then (Response(200, Str("No updates for item " + id)), items)
    else (Response(200, Str("Updated item " + id)), items[id := Base(items, id) + Assignments(updates)])
  }

  // ---------------------------------------------------------------------------
  // The whole handler

  /** The response and the table's new contents for one event. */
  function Handle(items: Items, event: Event): (Response, Items) {
    if event.routeKey == DeleteRoute then
      match event.pathId
      case None => (ServerError, items)
      case Some(id) => (Response(200, Str("Deleted item " + id)), items - {id})
    else if event.routeKey == GetRoute then
      match event.pathId
      case None => (ServerError, items)
      case Some(id) => (Response(200, Item(if id in items then items[id] else map[])), items)
    else if event.routeKey == ScanRoute then
      (Response(200, AllItems(items)), items)
    else if event.routeKey == PutRoute then
      match event.body
      case None => (ServerError, items)
      case Some(body) => Put(items, body)
    else if event.routeKey == PostRoute then
      if event.body.None? || event.pathId.None? then (ServerError, items)
      else Post(items, event.pathId.value, event.body.value)
    else
      (Response(400, Str("Unsupported route: " + event.routeKey)), items)
  }
}

module LambdaHandlerProofs {
  import opened Wrappers
  import opened Text
  import opened LambdaHandler

  // ---------------------------------------------------------------------------
  // POST: which fields are updated

  lemma {:induction false} UpdatedFieldsAppend(a: seq<Field>, b: seq<Field>)
    ensures UpdatedFields(a + b) == UpdatedFields(a) + UpdatedFields(b)
    decreases |b|
  {
    if b == [] {
      assert a + b == a;
    } else {
      var b' := b[..|b| - 1];
      assert (a + b)[..|a + b| - 1] == a + b';
      UpdatedFieldsAppend(a, b');
    }
  }

  /** The updated fields are the body's fields other than `mainID`, filtered in body order. */
  lemma {:induction false} UpdatedFieldsMembers(body: seq<Field>)
    ensures forall f :: f in UpdatedFields(body) <==> f in body && f.name != "mainID"
  {
    if body != [] {
      var init := body[..|body| - 1];
      UpdatedFieldsMembers(init);
      assert body == init + [body[|body| - 1]];
    }
  }

  lemma {:induction false} DistinctUpdatedFields(body: seq<Field>)
    requires DistinctNames(body)
    ensures DistinctNames(UpdatedFields(body))
  {
    if body != [] {
      var init := body[..|body| - 1];
      DistinctUpdatedFields(init);
      UpdatedFieldsMembers(init);
      var u := UpdatedFields(init);
      var last := body[|body| - 1];
      forall i | 0 <= i < |u| ensures u[i].name != last.name {
        assert u[i] in init;
      }
    }
  }

  // ---------------------------------------------------------------------------
  // POST: the maps built for update_item

  lemma PrefixInjective(p: string, a: string, b: string)
    requires p + a == p + b
    ensures a == b
  {
    assert (p + a)[|p|..] == a;
    assert (p + b)[|p|..] == b;
  }

  /** Each updated field contributes the placeholder `#name` mapped back to its name. */
  lemma {:induction false} NameMapSpec(fields: seq<Field>)
    ensures forall k :: k in NameMap(fields) <==> exists i :: 0 <= i < |fields| && k == "#" + fields[i].name
    ensures forall k :: k in NameMap(fields) ==> k == "#" + NameMap(fields)[k]
  {
    if fields != [] {
      var init := fields[..|fields| - 1];
      NameMapSpec(init);
      forall k | k in NameMap(fields)
        ensures exists i :: 0 <= i < |fields| && k == "#" + fields[i].name
      {
        if k != "#" + fields[|fields| - 1].name {
          assert k in NameMap(init);
          var i :| 0 <= i < |init| && k == "#" + init[i].name;
          assert fields[i] == init[i];
        }
      }
      forall k, i | 0 <= i < |fields| && k == "#" + fields[i].name
        ensures k in NameMap(fields)
      {
        if i < |init| {
          assert init[i] == fields[i];
        }
      }
    }
  }

  /** Each updated field contributes the placeholder `:name`, bound to the field's value. */
  lemma {:induction false} ValueMapSpec(fields: seq<Field>)
    ensures forall k :: k in ValueMap(fields) <==> exists i :: 0 <= i < |fields| && k == ":" + fields[i].name
    ensures DistinctNames(fields) ==>
      forall i :: 0 <= i < |fields| ==> ValueMap(fields)[":" + fields[i].name] == fields[i].value
  {
    if fields != [] {
      var init := fields[..|fields| - 1];
      var last := fields[|fields| - 1];
      ValueMapSpec(init);
      forall k | k in ValueMap(fields)
        ensures exists i :: 0 <= i < |fields| && k == ":" + fields[i].name
      {
        if k != ":" + last.name {
          assert k in ValueMap(init);
          var i :| 0 <= i < |init| && k == ":" + init[i].name;
          assert fields[i] == init[i];
        }
      }
      forall k, i | 0 <= i < |fields| && k == ":" + fields[i].name
        ensures k in ValueMap(fields)
      {
        if i < |init| {
          assert init[i] == fields[i];
        }
      }
      if DistinctNames(fields) {
        assert DistinctNames(init);
        forall i | 0 <= i < |fields|
          ensures ValueMap(fields)[":" + fields[i].name] == fields[i].value
        {
          if i < |init| {
            assert init[i] == fields[i];
            if ":" + fields[i].name == ":" + last.name {
              PrefixInjective(":", fields[i].name, last.name);
            }
          }
        }
      }
    }
  }

  /** Every attribute name in `names` sits under its own `#` placeholder and has a `:` value. */
  predicate Paired(names: map<string, string>, values: map<string, string>) {
    forall k :: k in names ==> k == "#" + names[k] && ":" + names[k] in values
  }

  lemma {:induction false} BuiltMapsPaired(fields: seq<Field>)
    ensures Paired(NameMap(fields), ValueMap(fields))
  {
    if fields != [] {
      var init := fields[..|fields| - 1];
      var last := fields[|fields| - 1];
      BuiltMapsPaired(init);
    }
  }

  /** Adding the placeholder `#n` for `n` adds `n`, and only `n`, to the attribute names. */
  lemma NamesStep(names: map<string, string>, n: string)
    requires forall k :: k in names ==> k == "#" + names[k]
    ensures names["#" + n := n].Values == names.Values + {n}
  {
    var names' := names["#" + n := n];
    forall m | m in names.Values ensures m in names'.Values {
      var k :| k in names && names[k] == m;
      if k == "#" + n {
        PrefixInjective("#", m, n);
        assert names'["#" + n] == m;
      } else {
        assert k in names' && names'[k] == m;
      }
    }
    assert names'["#" + n] == n;
  }

  /** The attributes among `attrs` that have a `:` value, each set to that value. */
  function Selected(attrs: set<string>, values: map<string, string>): map<string, string> {
    map m | m in attrs && ":" + m in values :: values[":" + m]
  }

  /** Selecting one more attribute, bound to `v`, sets it to `v` and changes nothing else. */
  lemma SelectedStep(attrs: set<string>, values: map<string, string>, n: string, v: string)
    ensures Selected(attrs + {n}, values[":" + n := v]) == Selected(attrs, values)[n := v]
  {
    var after := Selected(attrs + {n}, values[":" + n := v]);
    var before := Selected(attrs, values)[n := v];
    forall m | m != n
      ensures m in after <==> m in before
      ensures m in after ==> after[m] == before[m]
    {
      if ":" + m == ":" + n {
        PrefixInjective(":", m, n);
      }
    }
    assert after.Keys == before.Keys;
  }

  /** One more `#n`/`:n` pair sets one more attribute. */
  lemma InterpretStep(names: map<string, string>, values: map<string, string>, n: string, v: string)
    requires Paired(names, values)
    ensures Interpret(names["#" + n := n], values[":" + n := v]) == Interpret(names, values)[n := v]
  {
    NamesStep(names, n);
    SelectedStep(names.Values, values, n, v);
    assert Interpret(names, values) == Selected(names.Values, values);
    assert Interpret(names["#" + n := n], values[":" + n := v]) == Selected(names.Values + {n}, values[":" + n := v]);
  }

  /** `update_item` with the maps the loop builds sets exactly the updated fields. */
  lemma {:induction false} InterpretBuilt(fields: seq<Field>)
    ensures Interpret(NameMap(fields), ValueMap(fields)) == Assignments(fields)
  {
    if fields != [] {
      var init := fields[..|fields| - 1];
      var last := fields[|fields| - 1];
      InterpretBuilt(init);
      BuiltMapsPaired(init);
      InterpretStep(NameMap(init), ValueMap(init), last.name, last.value);
    }
  }

  lemma {:induction false} AssignmentsKeys(fields: seq<Field>)
    ensures forall n :: n in Assignments(fields) <==> exists i :: 0 <= i < |fields| && fields[i].name == n
  {
    if fields != [] {
      var init := fields[..|fields| - 1];
      AssignmentsKeys(init);
      forall n | n in Assignments(fields)
        ensures exists i :: 0 <= i < |fields| && fields[i].name == n
      {
        if n != fields[|fields| - 1].name {
          assert n in Assignments(init);
          var i :| 0 <= i < |init| && init[i].name == n;
          assert fields[i] == init[i];
        }
      }
      forall n, i | 0 <= i < |fields| && fields[i].name == n
        ensures n in Assignments(fields)
      {
        if i < |init| {
          assert init[i] == fields[i];
        }
      }
    }
  }

  /** POST never sets `mainID`: it is part of the key. */
  lemma MainIDNeverAssigned(body: seq<Field>)
    ensures "mainID" !in Assignments(UpdatedFields(body))
  {
    var u := UpdatedFields(body);
    AssignmentsKeys(u);
    UpdatedFieldsMembers(body);
  }
}

module LambdaRoutes {
  import opened Wrappers
  import opened Text
  import opened LambdaHandler
  import opened LambdaHandlerProofs

  /** A route key the handler does not serve. */
  predicate Unsupported(routeKey: string) {
    routeKey !in {DeleteRoute, GetRoute, ScanRoute, PutRoute, PostRoute}
  }

  /** DELETE removes exactly the path key, present or not, and confirms it. */
  lemma DeleteRemovesKey(items: Items, id: string, body: Option<seq<Field>>)
    ensures var (resp, items') := Handle(items, Event(DeleteRoute, Some(id), body));
      && resp == Response(200, Str("Deleted item " + id))
      && id !in items'
      && forall k :: k != id ==> (k in items' <==> k in items) && (k in items ==> items'[k] == items[k])
  {
  }

  /** GET by id answers the stored item, or `{}`, and changes nothing. */
  lemma GetReturnsStored(items: Items, id: string, body: Option<seq<Field>>)
    ensures var (resp, items') := Handle(items, Event(GetRoute, Some(id), body));
      && items' == items
      && resp.statusCode == 200
      && (id in items ==> resp.body == Item(items[id]))
      && (id !in items ==> resp.body == Item(map[]))
  {
  }

  /** A scan answers every item and changes nothing. */
  lemma ScanReturnsAll(items: Items, pathId: Option<string>, body: Option<seq<Field>>)
    ensures Handle(items, Event(ScanRoute, pathId, body)) == (Response(200, AllItems(items)), items)
  {
  }

  /** Any other route key is refused with 400 and changes nothing. */
  lemma UnsupportedRouteRefused(items: Items, event: Event)
    requires Unsupported(event.routeKey)
    ensures var (resp, items') := Handle(items, event);
      items' == items && resp == Response(400, Str("Unsupported route: " + event.routeKey))
  {
  }

  /** A route that needs a path id or a body it lacks raises, and the handler answers 500. */
  lemma MissingInputIsServerError(items: Items, event: Event)
    requires
      || (event.routeKey in {DeleteRoute, GetRoute} && event.pathId.None?)
      || (event.routeKey == PutRoute && event.body.None?)
      || (event.routeKey == PostRoute && (event.pathId.None? || event.body.None?))
    ensures Handle(items, event) == (ServerError, items)
  {
  }

  /**
   * PUT with a required field absent or empty is refused with 400, the
   * message lists the missing fields in their fixed order, and nothing changes.
   */
  lemma PutRejectsIncomplete(items: Items, pathId: Option<string>, body: seq<Field>)
    requires !Complete(body)
    ensures var (resp, items') := Handle(items, Event(PutRoute, pathId, Some(body)));
      && items' == items
      && resp == Response(400, Message("Missing required fields: " + Join(MissingFields(body), ", ")))
      && MissingFields(body) != []
      && forall f :: f in MissingFields(body) <==> f in RequiredFields && !Filled(body, f)
  {
    MissingFieldsEmpty(body);
    MissingMembers(RequiredFields, body);
  }

  /** On a well-keyed table the case-insensitive duplicate check is plain key membership. */
  lemma DuplicateIsKeyPresence(items: Items, id: string)
    requires WellKeyed(items)
    ensures CheckDuplicate(items, id) == if id in items then Duplicate else NoDuplicate
  {
    if id in items {
      assert "mainID" in items[id];
    }
  }

  /** PUT of a complete body whose key is stored is refused with 400 and changes nothing. */
  lemma PutRejectsDuplicate(items: Items, pathId: Option<string>, body: seq<Field>)
    requires WellKeyed(items) && Complete(body)
    requires Lookup(body, "mainID").value in items
    ensures Handle(items, Event(PutRoute, pathId, Some(body)))
      == (Response(400, Message("Duplicate mainID found: " + Lookup(body, "mainID").value)), items)
  {
    MissingFieldsEmpty(body);
    DuplicateIsKeyPresence(items, Lookup(body, "mainID").value);
  }

  /**
   * PUT of a complete body with a new key answers 201 and stores `NewItem`
   * (the four required fields, see `NewItemFields`) under that key; no other
   * key changes, and the table stays well-keyed.
   */
  lemma PutStoresNewItem(items: Items, pathId: Option<string>, body: seq<Field>)
    requires WellKeyed(items) && Complete(body)
    requires Lookup(body, "mainID").value !in items
    ensures var id := Lookup(body, "mainID").value;
      Handle(items, Event(PutRoute, pathId, Some(body)))
      == (Response(201, Str("Put item " + id)), items[id := NewItem(body)])
    ensures WellKeyed(Handle(items, Event(PutRoute, pathId, Some(body))).1)
  {
    MissingFieldsEmpty(body);
    DuplicateIsKeyPresence(items, Lookup(body, "mainID").value);
  }

  /** The item a PUT writes holds the four required fields, each with the body's value. */
  lemma NewItemFields(body: seq<Field>)
    requires Complete(body)
    ensures NewItem(body).Keys == {"mainID", "mainDescription", "domain", "scope"}
    ensures forall f :: f in NewItem(body) ==> NewItem(body)[f] == Lookup(body, f).value
  {
  }

  /** On a well-keyed table a PUT succeeds exactly when the body is complete and its key is new. */
  lemma PutSucceedsIff(items: Items, pathId: Option<string>, body: seq<Field>)
    requires WellKeyed(items)
    ensures Handle(items, Event(PutRoute, pathId, Some(body))).0.statusCode == 201
      <==> Complete(body) && Lookup(body, "mainID").value !in items
  {
    MissingFieldsEmpty(body);
    if Complete(body) {
      DuplicateIsKeyPresence(items, Lookup(body, "mainID").value);
    }
  }

  /** POST with no field besides `mainID` answers "No updates" and changes nothing. */
  lemma PostWithoutUpdates(items: Items, id: string, body: seq<Field>)
    requires forall i :: 0 <= i < |body| ==> body[i].name == "mainID"
    ensures Handle(items, Event(PostRoute, Some(id), Some(body)))
      == (Response(200, Str("No updates for item " + id)), items)
  {
    UpdatedFieldsMembers(body);
  }

  /**
   * POST sets each body field other than `mainID` on the item named by the
   * path, keeps the item's other attributes and its `mainID`, and changes no
   * other item.
   */
  lemma PostUpdatesFields(items: Items, id: string, body: seq<Field>)
    requires DistinctNames(body)
    requires exists i :: 0 <= i < |body| && body[i].name != "mainID"
    ensures var (resp, items') := Handle(items, Event(PostRoute, Some(id), Some(body)));
      && resp == Response(200, Str("Updated item " + id))
      && items'.Keys == items.Keys + {id}
      && (forall k :: k in items && k != id ==> items'[k] == items[k])
      && (forall i :: 0 <= i < |body| && body[i].name != "mainID" ==>
            body[i].name in items'[id] && items'[id][body[i].name] == body[i].value)
      && (forall a :: a in Base(items, id) && (a == "mainID" || forall i :: 0 <= i < |body| ==> body[i].name != a) ==>
            a in items'[id] && items'[id][a] == Base(items, id)[a])
  {
    var u := UpdatedFields(body);
    var a := Assignments(u);
    var item := Base(items, id) + a;
    UpdatedFieldsMembers(body);
    var i0 :| 0 <= i0 < |body| && body[i0].name != "mainID";
    assert body[i0] in u;
    assert Handle(items, Event(PostRoute, Some(id), Some(body))) == (Response(200, Str("Updated item " + id)), items[id := item]);
    AssignedExactly(body);
    forall n | n in Base(items, id) && (n == "mainID" || forall i :: 0 <= i < |body| ==> body[i].name != n)
      ensures n in item && item[n] == Base(items, id)[n]
    {
      assert n !in a;
    }
  }

  /** The attributes a POST assigns: each non-key body field, with its value, and nothing else. */
  lemma AssignedExactly(body: seq<Field>)
    requires DistinctNames(body)
    ensures var a := Assignments(UpdatedFields(body));
      && (forall i :: 0 <= i < |body| && body[i].name != "mainID" ==>
            body[i].name in a && a[body[i].name] == body[i].value)
      && (forall n :: n in a ==> n != "mainID" && exists i :: 0 <= i < |body| && body[i].name == n)
  {
    var u := UpdatedFields(body);
    var a := Assignments(u);
    UpdatedFieldsMembers(body);
    AssignmentsKeys(u);
    MainIDNeverAssigned(body);
    DistinctUpdatedFields(body);
    AssignmentsValues(u);
    forall i | 0 <= i < |body| && body[i].name != "mainID"
      ensures body[i].name in a && a[body[i].name] == body[i].value
    {
      assert body[i] in u;
      var j :| 0 <= j < |u| && u[j] == body[i];
    }
    forall n | n in a
      ensures exists i :: 0 <= i < |body| && body[i].name == n
    {
      var j :| 0 <= j < |u| && u[j].name == n;
      assert u[j] in body;
    }
  }

  /** With distinct names, each updated field's value is the one assigned. */
  lemma {:induction false} AssignmentsValues(fields: seq<Field>)
    requires DistinctNames(fields)
    ensures forall i :: 0 <= i < |fields| ==>
      fields[i].name in Assignments(fields) && Assignments(fields)[fields[i].name] == fields[i].value
  {
    if fields != [] {
      var init := fields[..|fields| - 1];
      AssignmentsValues(init);
      forall i | 0 <= i < |fields|
        ensures fields[i].name in Assignments(fields) && Assignments(fields)[fields[i].name] == fields[i].value
      {
        if i < |init| {
          assert init[i] == fields[i];
        }
      }
    }
  }

  /** Every event keeps each item's `mainID` equal to its key. */
  lemma HandlePreservesWellKeyed(items: Items, event: Event)
    requires WellKeyed(items)
    ensures WellKeyed(Handle(items, event).1)
  {
    if event.routeKey == PutRoute && event.body.Some? {
      PutPreservesWellKeyed(items, event.body.value);
    } else if event.routeKey == PostRoute && event.body.Some? && event.pathId.Some? {
      PostPreservesWellKeyed(items, event.pathId.value, event.body.value);
    }
  }

  /** A PUT writes its item under the item's own `mainID`. */
  lemma PutPreservesWellKeyed(items: Items, body: seq<Field>)
    requires WellKeyed(items)
    ensures WellKeyed(Put(items, body).1)
  {
    MissingFieldsEmpty(body);
    if Complete(body) {
      DuplicateIsKeyPresence(items, Lookup(body, "mainID").value);
    }
  }

  /** A POST never sets `mainID`, so the item keeps its key attribute (or gets it, when upserted). */
  lemma PostPreservesWellKeyed(items: Items, id: string, body: seq<Field>)
    requires WellKeyed(items)
    ensures WellKeyed(Post(items, id, body).1)
  {
    MainIDNeverAssigned(body);
  }

  /** The handler answers only 200, 201, 400 or 500; a POST only 200 or 500. */
  lemma StatusCodes(items: Items, event: Event)
    ensures Handle(items, event).0.statusCode in {200, 201, 400, 500}
    ensures event.routeKey == PostRoute ==> Handle(items, event).0.statusCode in {200, 500}
  {
  }
}
