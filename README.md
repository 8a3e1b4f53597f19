# djangoql saved queries, modelled in Dafny

This project models the saved-query feature of djangoql. It has two halves:

- The browser widget (`djangoql/static/djangoql/js/save_query.js`) lets an admin user save
  the current search as a named query, recall one by clicking it, filter the list, and delete
  their own queries. It tracks the recalled query in the module-level `selectedQuery` and marks
  the list element as changed once the search input drifts from it.
- The three admin views (`djangoql/admin.py`) behind it: `query_list`, `save_query` and
  `delete_query`, over the `SavedQuery` table (`djangoql/models.py`).

Files:

- `wire.dfy` (module `Wire`): the JSON bodies and query-string parameters the two halves
  exchange, written as jQuery writes them.
- `text.dfy` (module `Text`): `toUpperCase` and `indexOf`.
- `markup.dfy` (module `Markup`): how a query's text passes through the item template's
  `query_text` attribute and is read back by `.attr('query_text')`.
- `query_items.dfy` (module `QueryItems`): the rendered list as a sequence of items. Each item
  has `{id, name, text, own, visible, selected, changed}`. The module holds the pure functions
  that specify each list update, and the lemmas about them.
- `save_query.dfy` (module `SaveQuery`): the widget as the class `Widget`. Its fields are
  `selectedQuery`, the search, name and filter inputs, the public checkbox, the save button's
  disabled flag and the list. Each handler is a method; the ones that walk the list use
  loops, proved against the functions of `QueryItems`. The class invariant `Widget.Valid`
  says that no two items share an id, at most one item is highlighted, and nothing is
  marked changed before a query has been selected. Every handler and every
  continuation keeps it. Two helpers promise less: `Widget.Populate` appends to a list that
  is being rebuilt and promises only the appended items, and `Widget.MarkAsChanged` keeps
  the invariant when a query is selected, which is the only way its caller runs it.
- `admin.dfy` (module `Admin`): `_serialize_query` and `query_list` as functions. The table is
  the class `Store`, and `save_query` and `delete_query` are its methods.
- `session.dfy` (module `Session`): a gesture followed end to end through the widget, the view
  and the list refresh. It cross-checks the two halves.

Modelling choices:

- An AJAX request is the parameter map a handler returns. Its `.done` continuation is a
  separate method, run as one atomic step. jQuery runs `.done` only for a 2xx or 304 status
  (`Wire.IsSuccess`). A 400 or 404 response therefore runs no continuation.
- The table is a sequence of rows in ascending primary-key order. A new row always gets a key
  above every existing one (`Store.Valid`). `order_by('-id')` is the filtered rows read back
  to front.
- `textWithoutChildren` reads the element's first text node. An item with an empty name has
  none, so the call throws a TypeError and `filterQueries` stops at that item.
- A list refresh assumes a response in which no id appears twice, which
  `Admin.ListedIdsDistinct` proves of every `query_list` response.
- The save handler runs only while the save button is enabled, since a disabled button
  receives no click.
- Ticking `#public-query` has no handler in the widget: the checkbox is only read when a
  save starts, so the model sets `Widget.isPublic` by assignment.
- `confirm` is a boolean parameter. The truthiness of the value `QuerySet.delete()` returns
  depends on the Django version, so it is a parameter function of the number of rows deleted.
- In `selectQuery` the selected id is read from the element's `query_id` attribute, which is
  a string. After a save it is the number from the response. Both address the same elements
  through the attribute selector, so the model keeps one number. The store hands out keys
  from 1, so the truthiness test `if (selectedQuery.id)` is the same as "an id is set".

Behaviour of the code that the model keeps, though it may surprise:

- The changed marker is not recomputed on each keystroke. `checkSelectedQuyeryChanged` only
  ever adds `changed-query`. Only a click on an item or a list rebuild removes it, so typing
  the stored text back leaves the marker in place (`QueryItems.DriftOnlyAdds`).
- The drift check compares the input with the selected element's `query_text` attribute.
  `selectedQuery.text` is written but never read.
- A confirmed delete refreshes the list only when the response is a success (204). When
  `QuerySet.delete()` returns a falsy value the view answers 404 and no refresh happens.
- After a save, the list refresh highlights by id. It does not touch `selectedQuery`.

## Model

| member | source | states |
|---|---|---|
| `Wire.EncodeBool` | djangoql/static/djangoql/js/save_query.js:91 | the `is_public` parameter is the text "true" exactly when the checkbox is checked |
| `Wire.ShowNat` | djangoql/static/djangoql/js/save_query.js:59-67 | the `query_id` attribute text is a non-empty string of decimal digits ending in the id's last digit |
| `Wire.IsSuccess` | djangoql/static/djangoql/js/save_query.js:92 | the statuses for which jQuery runs a request's `.done` continuation: 2xx and 304; a 400 or 404 runs none |
| `Wire.SaveParams` | djangoql/static/djangoql/js/save_query.js:91 | the save request carries the search input as `query`, the name field as `name` and the checkbox, written as jQuery writes a boolean, as `is_public` |
| `Wire.DeleteParams` | djangoql/static/djangoql/js/save_query.js:109-115 | the delete request carries the element's `query_id` attribute, the id's decimal text |
| `Text.Upper` | djangoql/static/djangoql/js/save_query.js:26 | `toUpperCase`, one character at a time, ASCII letters only |
| `Text.IndexOf` | djangoql/static/djangoql/js/save_query.js:30 | `indexOf` returns the first position where the needle occurs, and it is greater than -1 exactly when the needle occurs somewhere |
| `Markup.EscapeAttribute` | djangoql/static/djangoql/js/save_query.js:59 | the escaped attribute value contains no double quote, so the value cannot end early |
| `Markup.PlainTextEndsAtQuote` | djangoql/static/djangoql/js/save_query.js:59 | a text without quote or ampersand reads back as it stands, up to the quote that closes it |
| `Markup.TextAsWritten` | djangoql/static/djangoql/js/save_query.js:59 | the template as written pastes the text between the quotes unescaped; the value read back is the text up to its first double quote, with only `&amp;` and `&quot;` decoded |
| `Markup.QuotedLiteralIsCut` | djangoql/static/djangoql/js/save_query.js:59 | with the template as written, the query text `name = "foo"` reads back as `name = ` |
| `Markup.EscapedReadsBack` | djangoql/static/djangoql/js/save_query.js:59 | an escaped text reads back as itself, whatever markup follows its closing quote |
| `Markup.TextRendered` | djangoql/static/djangoql/js/save_query.js:59 | with the escaped template, the `query_text` an element reads back is the stored text |
| `QueryItems.RenderedAll` | djangoql/static/djangoql/js/save_query.js:74-79 | `populate` produces one element per entry, in order, displayed and without classes |
| `QueryItems.Rebuilt` | djangoql/static/djangoql/js/save_query.js:146-148 | the container is emptied, then the own entries and then the public entries are appended |
| `QueryItems.RebuiltIsClean` | djangoql/static/djangoql/js/save_query.js:146-148 | a rebuild from a response without repeated ids has distinct ids, nothing highlighted and nothing marked |
| `QueryItems.RebuiltIsSnapshot` | djangoql/static/djangoql/js/save_query.js:140-148 | after a rebuild the list is exactly the own entries then the public entries in response order; only own items are deletable; nothing is highlighted or marked |
| `QueryItems.Highlighted` | djangoql/static/djangoql/js/save_query.js:44-51 | highlighting changes only the `selected-query` flags and keeps the length |
| `QueryItems.HighlightElementIsOnly` | djangoql/static/djangoql/js/save_query.js:44-51 | highlighting a clicked element leaves exactly that element highlighted |
| `QueryItems.HighlightIdIsOnly` | djangoql/static/djangoql/js/save_query.js:44-51 | with distinct ids, highlighting an item's id leaves exactly that item highlighted |
| `QueryItems.HighlightAbsentIdSelectsNone` | djangoql/static/djangoql/js/save_query.js:44-51 | highlighting an id that no item has leaves nothing highlighted |
| `QueryItems.HighlightLeavesOne` | djangoql/static/djangoql/js/save_query.js:44-51 | with distinct ids, any highlight leaves at most one item highlighted and the ids distinct |
| `QueryItems.HighlightIdempotent` | djangoql/static/djangoql/js/save_query.js:44-51 | highlighting twice is the same as highlighting once |
| `QueryItems.Unmarked` | djangoql/static/djangoql/js/save_query.js:130 | removing `changed-query` clears every marker and changes nothing else |
| `QueryItems.ClickedIsOnlySelection` | djangoql/static/djangoql/js/save_query.js:124-135 | after a click the clicked item is the only highlighted one and no item is marked changed |
| `QueryItems.Filtered` | djangoql/static/djangoql/js/save_query.js:25-37 | filtering changes only the display flags; the item count and every other field stay the same |
| `QueryItems.FilterKeepsFlags` | djangoql/static/djangoql/js/save_query.js:25-37 | filtering keeps every id, highlight and marker, so distinct ids and a single highlight survive it |
| `QueryItems.FilterShowsMatches` | djangoql/static/djangoql/js/save_query.js:25-37 | when every item is named, an item is displayed iff its upper-cased name contains the upper-cased filter |
| `QueryItems.EmptyFilterShowsAll` | djangoql/static/djangoql/js/save_query.js:25-37 | an empty filter displays every named item again, so hidden items were never removed |
| `QueryItems.FilterStopsAtUnnamed` | djangoql/static/djangoql/js/save_query.js:8-12 | an item without a name text node stops the filter, and it and every later item keep their display |
| `QueryItems.FirstWithIdFrom` | djangoql/static/djangoql/js/save_query.js:171-172 | the attribute selector's first element is the first item with that id, or there is none |
| `QueryItems.MarkedAsChanged` | djangoql/static/djangoql/js/save_query.js:161-166 | an item is marked afterwards iff it was, or it carries the id and no item with the id was marked; nothing else changes |
| `QueryItems.DriftChecked` | djangoql/static/djangoql/js/save_query.js:168-176 | an item is marked afterwards iff it was, or it carries the selected id, the first item with that id holds a text other than the input (or none has it), and no item with the id was marked yet; nothing else changes |
| `QueryItems.DriftOnlyAdds` | djangoql/static/djangoql/js/save_query.js:161-176 | the drift check never clears a marker, marks only items carrying the selected id, and changes nothing else |
| `QueryItems.DriftIdempotent` | djangoql/static/djangoql/js/save_query.js:161-176 | running the drift check twice is the same as running it once |
| `QueryItems.DriftAbsentIdChangesNothing` | djangoql/static/djangoql/js/save_query.js:168-176 | with no selected id, or a selected id that no item has, nothing changes |
| `QueryItems.DriftMarksSelected` | djangoql/static/djangoql/js/save_query.js:168-176 | with distinct ids, the selected item is marked iff it was marked or its stored text differs from the input; no other item changes |
| `QueryItems.NoDriftAfterClick` | djangoql/static/djangoql/js/save_query.js:124-135 | right after a click the input holds the stored text, so the drift check marks nothing |
| `SaveQuery.Widget.constructor` | djangoql/static/djangoql/js/save_query.js:6 | `selectedQuery` starts as `{null, ''}`, the save button starts disabled and the list starts empty |
| `SaveQuery.Widget.CheckSaveAvailability` | djangoql/static/djangoql/js/save_query.js:14-23 | the save button is disabled iff the name field is empty |
| `SaveQuery.Widget.HighlightQuery` | djangoql/static/djangoql/js/save_query.js:44-51 | the loop leaves the list equal to `Highlighted` of the old list |
| `SaveQuery.Widget.ClearChangedMarkers` | djangoql/static/djangoql/js/save_query.js:130 | the loop leaves the list equal to `Unmarked` of the old list |
| `SaveQuery.Widget.SelectQuery` | djangoql/static/djangoql/js/save_query.js:124-138 | a click writes the stored text into the input, highlights only that item, clears all markers, and sets `selectedQuery` to the item's id and text |
| `SaveQuery.Widget.FilterQueries` | djangoql/static/djangoql/js/save_query.js:25-37 | the loop leaves the list equal to `Filtered` with the upper-cased filter; it completes iff every item is named |
| `SaveQuery.Widget.FindFirstWithId` | djangoql/static/djangoql/js/save_query.js:171-172 | returns the first item carrying the id, or none |
| `SaveQuery.Widget.HasChangedWithId` | djangoql/static/djangoql/js/save_query.js:163 | `hasClass` is true iff some item with the id carries the marker |
| `SaveQuery.Widget.MarkAsChanged` | djangoql/static/djangoql/js/save_query.js:161-166 | unless one of them is already marked, every item with the id gets the marker |
| `SaveQuery.Widget.CheckSelectedQueryChanged` | djangoql/static/djangoql/js/save_query.js:168-176 | the list becomes `DriftChecked` of the old list, the selected id and the input; the widget invariant is kept |
| `SaveQuery.Widget.SaveQuery` | djangoql/static/djangoql/js/save_query.js:81-105 | run only from the enabled button; an empty input sends nothing; otherwise the request carries the input, the name and the encoded checkbox; no state changes |
| `SaveQuery.Widget.OnSaveDone` | djangoql/static/djangoql/js/save_query.js:92-98 | a response with both fields sets `selectedQuery`, clears the name field and requests a refresh that will highlight that id; a response missing either field changes nothing |
| `SaveQuery.Widget.DeleteQuery` | djangoql/static/djangoql/js/save_query.js:107-122 | a request carrying the item's id is sent only when the user confirms; no state changes |
| `SaveQuery.Widget.Populate` | djangoql/static/djangoql/js/save_query.js:74-79 | the loop appends the rendered entries after the old list |
| `SaveQuery.Widget.Rebuild` | djangoql/static/djangoql/js/save_query.js:144-148 | the loop-built list equals `Rebuilt` of the response, and the widget invariant holds for it |
| `SaveQuery.Widget.RefreshQueries` | djangoql/static/djangoql/js/save_query.js:140-159 | the list is rebuilt from the response and then the callback runs; `selectedQuery` is not touched; the widget invariant, including at most one highlighted item, is kept |
| `SaveQuery.Widget.EditSearchText` | djangoql/static/djangoql/js/save_query.js:199 | a keystroke in the search input runs the drift check on the new text |
| `SaveQuery.Widget.EditName` | djangoql/static/djangoql/js/save_query.js:197 | a keystroke in the name field re-evaluates the save button |
| `SaveQuery.Widget.EditFilter` | djangoql/static/djangoql/js/save_query.js:196 | a keystroke in the filter field re-applies the filter with the new text |
| `Admin.SerializeQuery` | djangoql/admin.py:97-101 | each row becomes `{id, name, text = query}`, keeping length and order |
| `Admin.ListQueries` | djangoql/admin.py:103-109 | the response body: the serialised own list and the serialised public list |
| `Admin.Listing` | djangoql/admin.py:104-105 | a list holds exactly the table's rows that are the user's own, or that are other users' public rows |
| `Admin.ListingDescending` | djangoql/admin.py:104-105 | over the table's key order, each list is in strictly descending id order |
| `Admin.SerializedListing` | djangoql/admin.py:97-109 | with unique keys, a row's entry is in a serialised list iff the row belongs to it, and every entry comes from such a row |
| `Admin.QueryListPartition` | djangoql/admin.py:103-109 | `own` holds exactly the user's rows, `public` exactly other users' public rows, and no id is in both; the user's own public rows appear only in `own` |
| `Admin.QueryListSorted` | djangoql/admin.py:104-105 | both lists of the response are in strictly descending id order |
| `Admin.ListedIdsDistinct` | djangoql/admin.py:103-109 | no id appears twice in own followed by public |
| `Admin.ListingAppend` | djangoql/admin.py:104-105 | a row with the highest key comes first in every list it belongs to |
| `Admin.SavedQueryListedFirst` | djangoql/admin.py:124-126 | a newly created row is the first entry of its owner's `own` list, with the saved name and text |
| `Admin.SaveAccepted` | djangoql/admin.py:118-123 | the gate in front of the create: an AJAX request, a non-empty query and name, an authenticated user |
| `Admin.PublicFlag` | djangoql/admin.py:121 | the row is public only when `is_public` is exactly the text "true" |
| `Admin.PublicFlagDecodes` | djangoql/admin.py:121 | the saved row is public exactly when the widget's checkbox was checked; an absent parameter gives a private row |
| `Admin.WidgetSaveAccepted` | djangoql/admin.py:118-123 | a save request from the widget passes the gate iff the name is non-empty and the user is authenticated |
| `Admin.PkArgOf` | djangoql/admin.py:142-143 | how `query_id` reaches `filter(pk=...)`: absent, a decimal number, or text that is not one |
| `Admin.DigitsValueShowNat` | djangoql/admin.py:142-143 | reading back the decimal text of an id gives the id |
| `Admin.PkRoundTrip` | djangoql/admin.py:142-143 | the `query_id` the widget sends is the key the view filters on |
| `Admin.Without` | djangoql/admin.py:143 | the delete removes exactly the rows with that key owned by the requesting user and keeps the key order |
| `Admin.Store.constructor` | djangoql/models.py:5-9 | the table starts empty with valid keys |
| `Admin.Store.QueryList` | djangoql/admin.py:103-113 | status 200 and the own and public lists of the requesting user |
| `Admin.Store.SaveQuery` | djangoql/admin.py:115-136 | when the gate passes, exactly one row is created, owned by the user and public only for "true", and the response is 201 with its key and text; otherwise 400, an empty object, and the table is unchanged |
| `Admin.Store.DeleteQuery` | djangoql/admin.py:138-145 | a non-AJAX request gets 400 and deletes nothing; otherwise the user's rows with that key are deleted, with 204 or 404 as the delete result is truthy or not |
| `Session.DeletedNotListed` | djangoql/admin.py:143 | a deleted row no longer appears in its owner's `own` list |
| `Session.SavedQueryHighlighted` | djangoql/static/djangoql/js/save_query.js:97 | after a save, the rebuilt list shows the new row first and highlighting its id leaves it the only highlighted item |
| `Session.UnescapedSaveMarkedOnKeystroke` | djangoql/static/djangoql/js/save_query.js:92-97 | with the templates as written, a just-saved query holding a string literal is rebuilt with its text cut while the input holds the whole text, so the next keystroke marks it changed |
| `Session.Open` | djangoql/static/djangoql/js/save_query.js:179-194 | the first refresh displays the whole snapshot with nothing selected or marked; the search input keeps its text, the name and filter inputs are empty and the checkbox is unticked |
| `Session.SaveAndRefresh` | djangoql/static/djangoql/js/save_query.js:81-105 | from the enabled button: an empty input changes nothing; a refused save (400) changes nothing in the widget or the table. An accepted save appends the row, selects it, clears the name without re-evaluating the button, and the list becomes the rebuilt list of the new table with the new query highlighted, first and the only highlighted one. The search and filter inputs, the checkbox and the button keep their state |
| `Session.SaveDoneAndRefresh` | djangoql/static/djangoql/js/save_query.js:92-98 | the continuation of an accepted save selects the new row, clears the name, and the refresh highlights that row, which is first and the only highlighted item; nothing else in the widget changes |
| `Session.DeleteAndRefresh` | djangoql/static/djangoql/js/save_query.js:107-122 | a confirmed delete removes the user's row. On 204 one refresh rebuilds the list and re-filters it with the filter text as it was, without the deleted query; on 404 nothing happens. `selectedQuery`, every input, the checkbox, the button and the key counter stay as they were |
| `Session.DeleteDoneAndRefresh` | djangoql/static/djangoql/js/save_query.js:116-118 | the continuation of a delete rebuilds and re-filters the list; no own item carries the deleted id, and only the list changes |

## Left out

- Widget markup and menu toggling (`DjangoQL.DOMReady` apart from its first refresh,
  `toggleSaveMenu`, the rest of the HTML templates): presentation.
- The templates escape nothing. For the query text the model uses the escaped template
  (see Findings). Names are pasted into the element's text unescaped as well, and the
  model assumes names without `<` or `&`, which is where the name an element shows could
  differ from the stored one.
- jQuery event delegation, `unbind`/`on` re-binding and click propagation: DOM event
  plumbing. A click on an item is `SelectQuery`, a click on its delete control is
  `DeleteQuery`.
- AJAX transport, out-of-order completion and the stale-list race: these are concurrency.
  Each continuation is one atomic step, and a failed transport is a step that never happens.
- `alert` and `confirm` dialogs: the alert has no effect on state, and the confirmation is
  a boolean parameter.
- Unicode case mapping: `Text.Upper` maps only the ASCII letters.
- `get_search_results`, `media`, `get_urls` and `introspect` in djangoql/admin.py: search
  plumbing and Django configuration. `apply_search` and `DjangoQLSchema` are not part of
  this model.
- The `max_length=100` on the name (djangoql/models.py:6): a database constraint that
  `save_query` does not check.
- The exact value `QuerySet.delete()` returns: `resultTruthy` stands for its truthiness, so
  the model does not say that a missing id gives 404.
- `Admin.PkArgOf` reads only plain decimal digit strings as keys. Django's integer coercion
  of `query_id` also accepts the spellings Python's `int` takes (`" 5"`, `"+5"`, `"-5"`),
  for which `Store.DeleteQuery` answers 500 instead of filtering. The widget only ever
  sends digit strings (`Admin.PkRoundTrip`).
- `admin_view`'s login redirect: the user is a parameter of each view.
- Repeated GET parameters: a request's parameters are a map, one value per key.

## Findings

| source | as written | input that shows it | evidently intended | confidence | as-written member | corrected member |
|---|---|---|---|---|---|---|
| djangoql/static/djangoql/js/save_query.js:59 | both templates (lines 59 and 67) paste `query.text` between the double quotes of `query_text` unescaped, so the attribute ends at the text's first `"`; clicking the item writes the cut text into the search input (lines 126-128). After a save (lines 92-97) the input still holds the whole text while the rebuilt item reads back the cut one, so the next keystroke marks the just-saved query changed (line 172) | a saved query whose text is `name = "foo"` (any DjangoQL string literal) reads back as `name = ` | the attribute reads back the stored text, so `"` and `&` are written as character references | not executed | `Markup.QuotedLiteralIsCut` | `Markup.EscapedReadsBack` |
