# Security control inventory: handler and client rules in Dafny

This project models the rules under a small serverless CRUD application for
"controls" (records of security-control metadata keyed by `mainID`):

- the AWS Lambda request handler (`Lambda_Function.py`), as a state machine
  over the DynamoDB table `SecurityControls`, seen as a map from `mainID` to
  item;
- the browser client (`scriptAPI.js`): the list ordering, the table rendering,
  the CSV export, and the add/edit/submit rules.

Files and modules:

| file | module | what it holds |
|---|---|---|
| `wrappers.dfy` | `Wrappers` | `Option` |
| `text.dfy` | `Text` | ASCII lower-casing, character replacement, join, split, terminated lists, counting |
| `lambda_handler.dfy` | `LambdaHandler`, `LambdaHandlerProofs`, `LambdaRoutes` | the handler as a function `Handle(items, event)` returning the response and the new table, and the properties of each route |
| `lambda_runtime.dfy` | `LambdaRuntime` | the table as a mutable object, the POST loop `BuildUpdate`, and the handler method `LambdaHandlerStep`, proved equal to `Handle` |
| `control_order.dfy` | `ControlOrder` | `parseInt`, the sort comparator and the sort |
| `csv_export.dfy` | `CsvExport` | `downloadCSV`: the nested loops and the shape of their output |
| `client_page.dfy` | `ClientPage` | the page's DOM state (`Page`) and the handlers that change it |
| `end_to_end.dfy` | `EndToEnd` | what the client's requests do at the handler |

Modelling choices:

- An event is its route key, an optional path `mainID`, and an optional body.
  The body is the decoded JSON object as an ordered list of string fields,
  because Python dicts keep insertion order and the POST clauses follow it.
  A missing or undecodable body is `None`; there `json.loads` raises, and the
  handler answers 500. Response bodies are kept as values, before `json.dumps`.
- `update_item` is taken to upsert. On a missing key it creates an item that
  holds only `mainID`, then sets the attributes (`LambdaHandler.Base`).
- The PUT duplicate check is modelled as written. An empty stored item does
  not count as a duplicate. A stored item without `mainID` raises `KeyError`
  (answer 500). The lemmas then assume the table is `WellKeyed`: every item
  holds its own key under `mainID`, as DynamoDB items do. Under that
  assumption the case-insensitive comparison adds nothing to key membership
  (`LambdaRoutes.DuplicateIsKeyPresence`).
- Each asynchronous client continuation is one synchronous step. Its inputs
  are what the server answered and what `confirm` returned. The text each
  step passes to `alert` is returned, and "fetch the list again" is a
  returned flag. Where a `catch` receives an error, the error's message,
  which goes to the console, is returned too, as an `Outcome`. The alert
  beside it is the handler's fixed text, for example "Error fetching
  controls. Please check server logs." (scriptAPI.js:45, 142).
- The sort key of a control is `Option<int>`. `None` stands for
  `Infinity` (no integer prefix). It sorts after every integer and compares
  equal to another `None`, because `Infinity - Infinity` is `NaN` and
  `Array.prototype.sort` reads `NaN` as `+0`.
- `updateControl(id)` ignores its `id` argument. The request goes to the
  `mainID` field of the form (`ClientPage.Page.SubmitEdit`).
- The code empties the table body (scriptAPI.js:13) before it checks that
  the payload is an array (scriptAPI.js:16). So a non-array payload leaves
  the table empty (`ClientPage.Page.ShowControls`).
- The handler never answers 409. A POST is answered only with 200 or 500. So
  the client's duplicate-id message for an update cannot appear against this
  backend (`EndToEnd.UpdateNeverReportsDuplicate`).

## Model

| member | source | states |
|---|---|---|
| `Text.ToLower` | Lambda_Function.py:58 | lower-casing keeps the length and maps each character to its lower-case form |
| `Text.ToLowerIsLowerCase` | scriptAPI.js:53 | a lower-cased id has no upper-case letter, and lower-casing twice changes nothing |
| `Text.Replace` | scriptAPI.js:267 | every comma (in general every `from`) is replaced, position by position; nothing else changes |
| `Text.ReplaceRemoves` | scriptAPI.js:267 | after the replacement no comma is left in a cell |
| `LambdaHandler.Lookup` | Lambda_Function.py:46 | a body field is found exactly when the body has a field of that name, and the value returned is that field's |
| `LambdaHandler.LookupDistinct` | Lambda_Function.py:46 | in a body with distinct keys, `request_body[k]` for a present key `k` is the value of that field |
| `LambdaHandler.MissingMembers` | Lambda_Function.py:45-46 | a field is reported missing exactly when it is required and absent or empty |
| `LambdaHandler.MissingInFixedOrder` | Lambda_Function.py:45-46 | the missing fields are listed in the fixed order mainID, mainDescription, domain, scope |
| `LambdaHandler.MissingFieldsEmpty` | Lambda_Function.py:46-48 | nothing is missing exactly when all four required fields are present and non-empty |
| `LambdaRoutes.DeleteRemovesKey` | Lambda_Function.py:20-24 | DELETE answers 200 "Deleted item <id>", removes the key whether present or not, and keeps every other item |
| `LambdaRoutes.GetReturnsStored` | Lambda_Function.py:27-31 | GET by id answers the stored item, or `{}` when absent, and leaves the table unchanged |
| `LambdaRoutes.ScanReturnsAll` | Lambda_Function.py:34-37 | the scan answers all items and leaves the table unchanged |
| `LambdaRoutes.PutRejectsIncomplete` | Lambda_Function.py:44-54 | PUT with a required field absent or empty answers 400 and lists exactly the missing fields; the table is unchanged |
| `LambdaRoutes.DuplicateIsKeyPresence` | Lambda_Function.py:56-65 | on a well-keyed table the case-insensitive duplicate check is exact key membership |
| `LambdaRoutes.PutRejectsDuplicate` | Lambda_Function.py:58-71 | PUT of a complete body whose key is stored answers 400 "Duplicate mainID found: <id>"; the table is unchanged |
| `LambdaRoutes.PutStoresNewItem` | Lambda_Function.py:73-88 | a complete PUT with a new key answers 201 and changes the table only by storing the new item under that key; the table stays well-keyed |
| `LambdaRoutes.NewItemFields` | Lambda_Function.py:74-81 | the item PUT writes has exactly the four required attributes, each with the body's value, so extra body fields are dropped |
| `LambdaRoutes.PutSucceedsIff` | Lambda_Function.py:40-88 | on a well-keyed table a PUT answers 201 exactly when the body is complete and its key is new |
| `LambdaHandlerProofs.UpdatedFieldsMembers` | Lambda_Function.py:106-109 | the updated fields are exactly the body fields other than `mainID` |
| `LambdaHandlerProofs.UpdatedFieldsAppend` | Lambda_Function.py:106-109 | the selection of updated fields works field by field, so it keeps body order |
| `LambdaHandlerProofs.DistinctUpdatedFields` | Lambda_Function.py:106-109 | a body with distinct keys yields updated fields with distinct names |
| `LambdaHandlerProofs.NameMapSpec` | Lambda_Function.py:111-113 | the names map holds exactly one `#name` placeholder per updated field, and each maps back to its name |
| `LambdaHandlerProofs.ValueMapSpec` | Lambda_Function.py:115-117 | the values map holds exactly one `:name` placeholder per updated field, bound to that field's value |
| `LambdaHandlerProofs.InterpretStep` | Lambda_Function.py:111-117 | adding one `#k`/`:k` placeholder pair to the maps sets one more attribute `k` and changes no other |
| `LambdaHandlerProofs.InterpretBuilt` | Lambda_Function.py:119-129 | applying the built names and values maps sets exactly the updated fields to their values |
| `LambdaHandlerProofs.AssignmentsKeys` | Lambda_Function.py:124-129 | the attributes set are exactly the names of the updated fields |
| `LambdaHandlerProofs.MainIDNeverAssigned` | Lambda_Function.py:107-109 | POST never sets `mainID` |
| `LambdaRoutes.AssignedExactly` | Lambda_Function.py:106-129 | POST sets each non-key body field to its value, and sets nothing else |
| `LambdaRoutes.PostWithoutUpdates` | Lambda_Function.py:119-135 | POST whose body holds only `mainID` answers "No updates for item <id>" and leaves the table unchanged |
| `LambdaRoutes.PostUpdatesFields` | Lambda_Function.py:93-132 | POST answers "Updated item <id>", sets every non-key body field on the item, keeps its other attributes and its `mainID`, and keeps every other item |
| `LambdaRoutes.UnsupportedRouteRefused` | Lambda_Function.py:139-142 | an unknown route answers 400 "Unsupported route: <route>" and leaves the table unchanged |
| `LambdaRoutes.MissingInputIsServerError` | Lambda_Function.py:144-147 | a route that lacks the path id or the body it reads raises, and the handler answers 500 with the table unchanged |
| `LambdaRoutes.PutPreservesWellKeyed` | Lambda_Function.py:40-88 | PUT keeps every item's `mainID` equal to its key |
| `LambdaRoutes.PostPreservesWellKeyed` | Lambda_Function.py:93-135 | POST keeps every item's `mainID` equal to its key, because it never sets `mainID` |
| `LambdaRoutes.HandlePreservesWellKeyed` | Lambda_Function.py:12-147 | every event keeps every item's `mainID` equal to its key |
| `LambdaRoutes.StatusCodes` | Lambda_Function.py:12-157 | the handler answers only 200, 201, 400 or 500, and a POST only 200 or 500 |
| `LambdaRuntime.Table.GetItem` | Lambda_Function.py:29-31 | `get_item` finds an item exactly when its key is stored, and returns that item |
| `LambdaRuntime.Table.Scan` | Lambda_Function.py:36-37 | `scan` returns every stored item |
| `LambdaRuntime.Table.PutItem` | Lambda_Function.py:74-81 | `put_item` replaces what is stored under the item's key and nothing else |
| `LambdaRuntime.Table.DeleteItem` | Lambda_Function.py:22-23 | `delete_item` removes the key and nothing else |
| `LambdaRuntime.Table.UpdateItem` | Lambda_Function.py:119-129 | for an expression `SET #k = :k, ...` with one clause per field, and the placeholder maps of the same fields, `update_item` sets each field's attribute to its value on the stored item, or on a new item holding only its key |
| `LambdaRuntime.BuildUpdate` | Lambda_Function.py:100-117 | the loop yields one clause `#k = :k` per non-key body field in body order, and the names and values maps of those fields |
| `LambdaRuntime.LambdaHandlerStep` | Lambda_Function.py:12-157 | the handler's response and the table's new contents are those of `Handle` for every event |
| `ControlOrder.ParseIntOfDecimal` | scriptAPI.js:22-23 | `parseInt` reads back a decimal id, whatever non-digit text follows it |
| `ControlOrder.ParseIntOfNegativeDecimal` | scriptAPI.js:22-23 | the same with a leading minus sign |
| `ControlOrder.ParseIntWithoutDigits` | scriptAPI.js:22-23 | an id that starts with no sign, digit or white space parses to `NaN` (`None`) |
| `ControlOrder.Compare` | scriptAPI.js:21-25 | the comparator is zero exactly for equal keys, and negative exactly when the first key is an integer and the second is `Infinity` or a larger integer |
| `ControlOrder.ComparatorConsistent` | scriptAPI.js:21-25 | the comparator is antisymmetric in sign, total and transitive |
| `ControlOrder.SortByCorrect` | scriptAPI.js:21-25 | sorting by the comparator gives a permutation of the input in comparator order |
| `ControlOrder.SortControlsCorrect` | scriptAPI.js:20-25 | the sorted controls are a permutation of the fetched ones, in comparator order |
| `ControlOrder.SortedMeaning` | scriptAPI.js:20-25 | in sorted order the parsed ids never decrease, and ids without an integer come after all ids with one |
| `CsvExport.AppendHeaderRow` | scriptAPI.js:251-255 | the header loop appends each header cell as it is, a comma after each, then a newline |
| `CsvExport.AppendBodyRow` | scriptAPI.js:263-270 | the inner loop appends each cell with its commas replaced by spaces, a comma after each, then a newline |
| `CsvExport.DownloadCsv` | scriptAPI.js:242-271 | the nested loops build exactly the header line (if any), then one line per body row |
| `CsvExport.EscapedCells` | scriptAPI.js:265-268 | escaped body cells hold no comma, and gain no newline |
| `CsvExport.BodyLineCells` | scriptAPI.js:262-271 | a body line holds exactly one comma per cell, and splits back on commas into the escaped cells plus an empty piece |
| `CsvExport.HeaderLineCells` | scriptAPI.js:250-255 | header cells are written unchanged, each followed by one comma; without commas in its cells a header line holds one comma per cell and splits back on commas into its cells plus an empty piece |
| `CsvExport.CsvLines` | scriptAPI.js:247-271 | when no cell holds a newline, the output splits on newlines into the header line (if any) and one line per body row, in order; so it holds one newline per row plus one for a header, and without a header it holds only body lines |
| `CsvExport.NewlineInCellAddsLines` | scriptAPI.js:262-271 | a body cell that holds a newline gives the output more newlines than the header and rows together, so the one-line-per-row shape is lost |
| `Text.CountTerminatedAll` | scriptAPI.js:268-270 | a character occurs in a terminated list as often as in its parts, plus once per part when it is the terminator |
| `CsvExport.CommaInCellExample` | scriptAPI.js:250-271 | body cells "a,b" and "c" are written `a b,c,`; a header cell "a,b" is written `a,b,` |
| `ClientPage.Rendered` | scriptAPI.js:28-41 | rendering gives one plain row, with Delete enabled, per control, in list order |
| `ClientPage.RenderedList` | scriptAPI.js:20-41 | a valid list renders as many rows as controls, with the same controls, in comparator order, none highlighted or disabled |
| `ClientPage.Page.ShowControls` | scriptAPI.js:4-46 | a failed response leaves the rows alone; a non-array payload empties them; an array replaces them with the sorted rendering; every failure shows "Error fetching controls. Please check server logs." and success shows no alert |
| `ClientPage.FindIndex` | scriptAPI.js:105-109 | the lookup finds the first control whose `mainID` is exactly the id, or reports that none has it |
| `ClientPage.NewControlLowerCase` | scriptAPI.js:52-63 | `AddData` sends the id lower-cased, with the same length, and the other fields as typed |
| `ClientPage.Page.FinishAdd` | scriptAPI.js:72-85 | after an add, success clears the form and asks for a fresh list; failure shows the server message and keeps the form |
| `ClientPage.Page.EnterEdit` | scriptAPI.js:93-145 | entering edit mode needs confirmation; on a found id it fills and locks the form, highlights exactly the rows whose first cell is the id, disables every Delete button and shows "Update"; any failure changes nothing and shows "Error fetching control data. Please check server logs." |
| `ClientPage.HighlightIsUnique` | scriptAPI.js:120-127 | with distinct ids shown, exactly one row is highlighted: the one showing the id |
| `ClientPage.Page.SubmitEdit` | scriptAPI.js:147-167 | nothing is sent unless all four fields are filled; otherwise the form goes to the form's `mainID` |
| `ClientPage.UpdateFailure` | scriptAPI.js:168-176 | an ok status gives no error, 409 gives the duplicate-id message, any other status gives "Failed to update control" |
| `ClientPage.Page.FinishEdit` | scriptAPI.js:168-212 | a failed update keeps edit mode; a successful one clears the form, removes every highlight, enables every Delete button, shows "Add Control" and unlocks `mainID` |
| `EndToEnd.RequestBodyLookup` | scriptAPI.js:58-70 | the body the client sends holds the four fields under their names, once each |
| `EndToEnd.UpdateNeverReportsDuplicate` | scriptAPI.js:169-175 | against this handler a failed update is always "Failed to update control", never the duplicate-id message |
| `EndToEnd.AddsCollideIgnoringCase` | scriptAPI.js:53-70 | two adds whose ids differ only in case: the first is stored and the second is refused as a duplicate |
| `EndToEnd.SubmittedEditUpdatesItem` | scriptAPI.js:147-167 | an edit of a stored control that passes the gate is answered "Updated item <id>", and the stored item becomes the old one with its three descriptive fields replaced by the form's; its key, its other attributes and every other item stay |
| `EndToEnd.RequestBodyUpdates` | Lambda_Function.py:106-109 | the fields a POST of the client's body updates are mainDescription, domain and scope, in that order |
| `EndToEnd.RequestBodyAssignments` | Lambda_Function.py:111-129 | a POST of the client's body sets exactly mainDescription, domain and scope, to the form's values |

## Left out

- HTTP, `fetch` and promise chaining are not modelled. Each continuation is one step whose inputs are the server's answer.
- URL encoding is not modelled. `updateControl` puts the id into the URL without encoding it (scriptAPI.js:161). The path id equals the form's `mainID` only when the id holds no `/`, `?` or `#`. `EndToEnd.SubmittedEditUpdatesItem` takes the path id to be the form's `mainID`.
- `alert`, `confirm` and `console` are not modelled as effects. `confirm` answers are parameters. Alert texts and logged error messages are returned values.
- Out-of-order completion of concurrent list refreshes is not modelled. That is asynchronous concurrency, and each step here is synchronous.
- In `updateControl`, `return fetchControls()` returns `undefined`. So the form and highlights are reset as soon as the refresh starts, not after it finishes. The model does the reset in the same step that asks for the refresh.
- DOM details are not modelled: `innerHTML` templating (including HTML in ids), `classList`, `style.display`, and the difference between `innerText` and `textContent`. A row's first cell text is taken to be the control's `mainID`.
- The CSV download itself (Blob, object URL, link click, `setTimeout`) is not modelled. The export is modelled on the cell texts the table holds.
- The client's `deleteControl` is not modelled. It is a confirmation, a DELETE request, an alert and a refresh, and it changes no page state.
- The hard-coded API URL and the `print(event)` logging are not modelled.
- JSON encoding and decoding are not modelled. Bodies are string fields, and responses are values before `json.dumps`.
- Non-string JSON values are not modelled. A body that decodes to a non-object, such as a list or a string, is read as missing, and the model answers 500. The source answers 500 for POST, because `.items()` fails. For PUT the source first tests `field not in request_body` (Lambda_Function.py:46), which works on a list or a string. So a PUT body that is a list or a string without the field names is answered 400, listing all four fields.
- Bodies that repeat a key are not modelled faithfully. `json.loads` never produces them: it keeps the last value of a repeated key. For PUT, the model's `Lookup` reads the first value. For POST, `Assignments` keeps the last value, as the dict does. The lemmas about the client's requests use bodies with distinct keys.
- Numeric attributes are not modelled. DynamoDB returns them as `Decimal`, which `json.dumps` outside the `try` block cannot encode.
- Scan pagination and scan order are not modelled. The scan answers the whole map.
- DynamoDB's checks on placeholder names are not modelled. Keys with characters DynamoDB refuses in placeholders make `update_item` raise.
- The text of a caught exception is not modelled. The 500 answer carries `ErrorText` in its place.
- An event without `routeKey` is not modelled. Every modelled event has one.
- `Text.ToLower`: lower-cases ASCII letters only. `str.lower()` and `toLowerCase()` also map other Unicode letters.
- `ControlOrder.ParseInt`: skips ASCII white space, NBSP, BOM and the line and paragraph separators. Other Unicode space separators are not skipped. Values past 2^53 are exact, where JavaScript numbers would lose precision.
- `ControlOrder.SortControls`: the browser's sort algorithm is not visible, so the model uses an insertion sort. Only its result is specified: a permutation in comparator order. Stability is not proved.
- `LambdaRoutes.PutRejectsDuplicate`, `LambdaRoutes.PutStoresNewItem`, `LambdaRoutes.PutSucceedsIff`: stated for well-keyed tables only. On other tables, `Put` gives the handler's literal behaviour, but no lemma states it.
- `CsvExport.CsvLines`: stated only for cells without newline characters, and the page's own rows break this condition. Every rendered row has an Edit/Delete cell, and that cell's `textContent` holds the template's newlines (scriptAPI.js:35-38). So for any export with a body row, the one-line-per-row shape does not hold. `CsvExport.NewlineInCellAddsLines` proves the newline count then exceeds the number of lines.
- `LambdaRuntime.Table.UpdateItem`: only the update expressions the handler builds are modelled: one `#k = :k` clause per field, with the placeholder maps built from the same fields. Other expressions, such as `SET #a = :b`, are not.
- `CsvExport.HeaderLineCells`: stated only for header cells without commas. Header commas are written as they are, so such a header splits into more pieces.
- `ControlOrder.ParseIntOfDecimal`, `ControlOrder.ParseIntOfNegativeDecimal`: stated only when the following text does not start with a digit or `x`. After a lone `0`, an `x` starts a hexadecimal prefix.
