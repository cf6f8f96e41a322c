/**
 * The handler as the source runs it: a mutable table object standing for
 * boto3's `Table`, the loop that builds the POST update, and
 * `lambda_handler` itself, each proved against the functions of
 * `LambdaHandler`.
 */
module LambdaRuntime {
  import opened Wrappers
  import opened Text
  import opened LambdaHandler
  import opened LambdaHandlerProofs

  /** The `SecurityControls` table; its methods are the boto3 calls the handler makes. */
  class Table {
    var items: Items

    constructor (initial: Items)
      ensures items == initial
    {
      items := initial;
    }

    /** `get_item(Key=...)`, with `.get('Item')` folded in: `None` when the key is absent. */
    method GetItem(key: string) returns (item: Option<Record>)
      ensures item.Some? <==> key in items
      ensures item.Some? ==> item.value == items[key]
    {
      item := if key in items then Some(items[key]) else None;
    }

    /** `scan()` read to the end: every item. */
    method Scan() returns (all: Items)
      ensures all == items
    {
      all := items;
    }

    /** `put_item(Item=...)`: replaces whatever is stored under the item's key. */
    method PutItem(item: Record)
      requires "mainID" in item
      modifies this
      ensures items == old(items)[item["mainID"] := item]
    {
      items := items[item["mainID"] := item];
    }

    /** `delete_item(Key=...)`: removing an absent key is no error. */
    method DeleteItem(key: string)
      modifies this
      ensures items == old(items) - {key}
    {
      items := items - {key};
    }

    /**
     * `update_item` with `UpdateExpression=expression`, for the expressions
     * the handler builds: `SET #k = :k, ...`, one clause per field of
     * `fields`, with the placeholder maps built from the same fields. Each
     * clause sets its attribute to its field's value; a missing item is
     * created holding only its key.
     */
    method UpdateItem(key: string, expression: string, names: map<string, string>, values: map<string, string>,
                      ghost fields: seq<Field>)
      requires fields != []
      requires expression == "SET " + Join(Clauses(fields), ", ")
      requires names == NameMap(fields) && values == ValueMap(fields)
      modifies this
      ensures items == old(items)[key := Base(old(items), key) + Assignments(fields)]
    {
      InterpretBuilt(fields);
      items := items[key := Base(items, key) + Interpret(names, values)];
    }
  }

  /**
   * The POST loop over `request_body.items()`: skips `mainID`, and for every
   * other key appends `#k = :k` and records both placeholders.
   */
  method BuildUpdate(body: seq<Field>) returns (clauses: seq<string>, names: map<string, string>, values: map<string, string>)
    ensures clauses == Clauses(UpdatedFields(body))
    ensures names == NameMap(UpdatedFields(body))
    ensures values == ValueMap(UpdatedFields(body))
  {
    clauses, names, values := [], map[], map[];
    var i := 0;
    while i < |body|
      invariant 0 <= i <= |body|
      invariant clauses == Clauses(UpdatedFields(body[..i]))
      invariant names == NameMap(UpdatedFields(body[..i]))
      invariant values == ValueMap(UpdatedFields(body[..i]))
    {
      var key, value := body[i].name, body[i].value;
      UpdatedFieldsStep(body, i);
      if key != "mainID" {
        BuiltMapsStep(UpdatedFields(body[..i]), body[i]);
        var placeholder := "#" + key;
        names := names[placeholder := key];
        clauses := clauses + [placeholder + " = :" + key];
        values := values[":" + key := value];
      }
      i := i + 1;
    }
    assert body[..|body|] == body;
  }

  /** One more body field extends the updated fields by itself, unless it is `mainID`. */
  lemma UpdatedFieldsStep(body: seq<Field>, i: nat)
    requires i < |body|
    ensures body[i].name == "mainID" ==> UpdatedFields(body[..i + 1]) == UpdatedFields(body[..i])
    ensures body[i].name != "mainID" ==> UpdatedFields(body[..i + 1]) == UpdatedFields(body[..i]) + [body[i]]
  {
    assert body[..i + 1][..i] == body[..i];
  }

  /** One more updated field adds its clause and its two placeholders. */
  lemma BuiltMapsStep(done: seq<Field>, f: Field)
    ensures Clauses(done + [f]) == Clauses(done) + [Clause(f.name)]
    ensures NameMap(done + [f]) == NameMap(done)["#" + f.name := f.name]
    ensures ValueMap(done + [f]) == ValueMap(done)[":" + f.name := f.value]
  {
    assert (done + [f])[..|done|] == done;
  }

  /** `lambda_handler`: one event, one response, and the table's new contents. */
  method LambdaHandlerStep(table: Table, event: Event) returns (response: Response)
    modifies table
    ensures (response, table.items) == Handle(old(table.items), event)
  {
    if event.routeKey == DeleteRoute {
      if event.pathId.None? {
        return ServerError;
      }
      var id := event.pathId.value;
      table.DeleteItem(id);
      response := Response(200, Str("Deleted item " + id));
    } else if event.routeKey == GetRoute {
      if event.pathId.None? {
        return ServerError;
      }
      var item := table.GetItem(event.pathId.value);
      response := Response(200, Item(item.GetOr(map[])));
    } else if event.routeKey == ScanRoute {
      var all := table.Scan();
      response := Response(200, AllItems(all));
    } else if event.routeKey == PutRoute {
      if event.body.None? {
        return ServerError;
      }
      var body := event.body.value;
      var missing := MissingFields(body);
      if missing != [] {
        return Response(400, Message("Missing required fields: " + Join(missing, ", ")));
      }
      MissingFieldsEmpty(body);
      var id := Lookup(body, "mainID").value;
      var mainIdLower := ToLower(id);
      var existing := table.GetItem(id);
      if existing.Some? && existing.value != map[] {
        if "mainID" !in existing.value {
          return ServerError;
        }
        if ToLower(existing.value["mainID"]) == mainIdLower {
          return Response(400, Message("Duplicate mainID found: " + id));
        }
      }
      table.PutItem(NewItem(body));
      response := Response(201, Str("Put item " + id));
    } else if event.routeKey == PostRoute {
      if event.body.None? || event.pathId.None? {
        return ServerError;
      }
      var body := event.body.value;
      var mainId := event.pathId.value;
      var clauses, names, values := BuildUpdate(body);
      if clauses != [] {
        var expression := "SET " + Join(clauses, ", ");
        table.UpdateItem(mainId, expression, names, values, UpdatedFields(body));
        response := Response(200, Str("Updated item " + mainId));
      } else {
        response := Response(200, Str("No updates for item " + mainId));
      }
    } else {
      response := Response(400, Str("Unsupported route: " + event.routeKey));
    }
  }
}
