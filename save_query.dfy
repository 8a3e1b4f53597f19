// The saved-query widget of djangoql/static/djangoql/js/save_query.js as a class: the
// module-level `selectedQuery`, the three text inputs, the save button's disabled flag and
// the rendered list are its fields, and each handler is a method. An AJAX request is
// modelled by what the handler sends (a returned parameter map); its `.done` continuation
// is a separate method, run as one atomic step when the response arrives.

module SaveQuery {
  import opened Wire
  import opened Text
  import opened QueryItems

  /** The callback `refreshQueries` runs after it has rebuilt the list. */
  datatype Callback =
    | NoCallback               // the initial refresh
    | HighlightSaved(id: QueryId)   // `highlightQuery(null, query_id)` after a save
    | Refilter                 // `filterQueries` after a delete

  function AfterCallback(items: seq<Item>, cb: Callback, upperFilter: string): seq<Item>
  {
    match cb
    case NoCallback => items
    case HighlightSaved(id) => Highlighted(items, WithId(id))
    case Refilter => Filtered(items, upperFilter)
  }

  class Widget {
    var selectedId: Option<QueryId>   // `selectedQuery.id`
    var selectedText: string          // `selectedQuery.text`
    var searchText: string            // `textarea[name=q]`
    var nameText: string              // `#save-query-name`
    var filterText: string            // `#save-query-filter`
    var isPublic: bool                // `#public-query` checkbox
    var saveDisabled: bool            // `#save-query` button's `disabled`
    var items: seq<Item>              // the `a.query` elements inside `#queries`

    /** The list holds no two elements with the same `query_id` (the server never lists a
        key twice), at most one element is highlighted, and until a query has been clicked
        or saved `selectedQuery` keeps its initial value and no element is marked changed. */
    ghost predicate Valid()
      reads this
    {
      && DistinctIds(items)
      && AtMostOneSelected(items)
      && (selectedId.None? ==> selectedText == "" && forall k :: 0 <= k < |items| ==> !items[k].changed)
    }

    /** The state once the widget markup is in place: `selectedQuery` is `{null, ''}`, the
        save button is disabled and the list is still empty. */
    constructor (search: string)
      ensures Valid()
      ensures selectedId == None && selectedText == ""
      ensures searchText == search && nameText == "" && filterText == "" && !isPublic
      ensures saveDisabled && items == []
    {
      selectedId, selectedText := None, "";
      searchText, nameText, filterText := search, "", "";
      isPublic, saveDisabled := false, true;
      items := [];
    }

    /** `checkSaveAvailability`: the button is enabled iff the name field is non-empty. */
    method CheckSaveAvailability()
      requires Valid()
      modifies this`saveDisabled
      ensures Valid()
      ensures saveDisabled <==> nameText == ""
    {
      saveDisabled := |nameText| == 0;
    }

    /** `highlightQuery`: `selected-query` removed from every element, added to the target. */
    method HighlightQuery(t: Target)
      requires Valid()
      modifies this`items
      ensures Valid()
      ensures items == Highlighted(old(items), t)
    {
      ghost var before := items;
      var k := 0;
      while k < |items|
        invariant k <= |items| == |before|
        invariant forall j :: 0 <= j < k ==> items[j] == before[j].(selected := Hit(t, before, j))
        invariant forall j :: k <= j < |items| ==> items[j] == before[j]
      {
        var hit := match t
          case Element(i) => k == i
          case WithId(id) => items[k].id == id;
        items := items[k := items[k].(selected := hit)];
        k := k + 1;
      }
      HighlightLeavesOne(before, t);
    }

    /** `$('a.query').removeClass('changed-query')`. */
    method ClearChangedMarkers()
      requires Valid()
      modifies this`items
      ensures Valid()
      ensures items == Unmarked(old(items))
    {
      ghost var before := items;
      var k := 0;
      while k < |items|
        invariant k <= |items| == |before|
        invariant forall j :: 0 <= j < k ==> items[j] == before[j].(changed := false)
        invariant forall j :: k <= j < |items| ==> items[j] == before[j]
      {
        items := items[k := items[k].(changed := false)];
        k := k + 1;
      }
    }

    /** `selectQuery`: a click on element `i` writes its stored text into the search input,
        makes it the only highlighted element, clears every changed marker and records
        the element's id and text as the selected query. */
    method SelectQuery(i: nat)
      requires Valid() && i < |items|
      modifies this`items, this`searchText, this`selectedId, this`selectedText
      ensures Valid()
      ensures searchText == old(items[i].text)
      ensures items == Unmarked(Highlighted(old(items), Element(i)))
      ensures selectedId == Some(old(items[i].id)) && selectedText == old(items[i].text)
    {
      var text := items[i].text;
      searchText := text;
      HighlightQuery(Element(i));
      ClearChangedMarkers();
      selectedId, selectedText := Some(items[i].id), text;
    }

    /** `filterQueries`: each element is displayed iff its upper-cased name contains the
        upper-cased filter text. An element without a name text node makes
        `textWithoutChildren` throw, which ends the loop there (`completed` is false). */
    method FilterQueries() returns (completed: bool)
      requires Valid()
      modifies this`items
      ensures Valid()
      ensures items == Filtered(old(items), Upper(filterText))
      ensures completed <==> NamedUpTo(old(items), |old(items)|)
    {
      var filter := Upper(filterText);
      ghost var before := items;
      var k := 0;
      while k < |items|
        invariant k <= |items| == |before|
        invariant NamedUpTo(before, k)
        invariant forall j :: 0 <= j < k ==> items[j] == before[j].(visible := Shown(before[j], filter))
        invariant forall j :: k <= j < |items| ==> items[j] == before[j]
      {
        if items[k].name == "" {
          FilterStopsAtUnnamed(before, filter, k);
          assert items == Filtered(before, filter);
          FilterKeepsFlags(before, filter);
          return false;
        }
        var shown := IndexOf(Upper(items[k].name), filter) > -1;
        items := items[k := items[k].(visible := shown)];
        k := k + 1;
      }
      assert items == Filtered(before, filter);
      FilterKeepsFlags(before, filter);
      return true;
    }

    /** The first element whose `query_id` is `id`, as the jQuery attribute selector finds it. */
    method FindFirstWithId(id: QueryId) returns (r: Option<nat>)
      ensures r == FirstWithId(items, id)
      ensures r.Some? ==> r.value < |items| && items[r.value].id == id
    {
      var k := 0;
      while k < |items|
        invariant k <= |items|
        invariant forall j :: 0 <= j < k ==> items[j].id != id
      {
        if items[k].id == id {
          assert FirstWithIdFrom(items, id, 0) == Some(k);
          return Some(k);
        }
        k := k + 1;
      }
      return None;
    }

    /** `hasClass('changed-query')` on the elements whose `query_id` is `id`. */
    method HasChangedWithId(id: QueryId) returns (b: bool)
      ensures b == AnyChangedWithId(items, id)
    {
      var k := 0;
      while k < |items|
        invariant k <= |items|
        invariant forall j :: 0 <= j < k ==> !(items[j].id == id && items[j].changed)
      {
        if items[k].id == id && items[k].changed {
          return true;
        }
        k := k + 1;
      }
      return false;
    }

    /** `markAsChanged`: unless one of the elements with this id already has
        `changed-query`, every one of them gets it. */
    method MarkAsChanged(id: QueryId)
      requires Valid()
      modifies this`items
      ensures selectedId.Some? ==> Valid()
      ensures items == MarkedAsChanged(old(items), id)
    {
      var has := HasChangedWithId(id);
      if !has {
        ghost var before := items;
        var k := 0;
        while k < |items|
          invariant k <= |items| == |before|
          invariant forall j :: 0 <= j < k ==>
            items[j] == if before[j].id == id then before[j].(changed := true) else before[j]
          invariant forall j :: k <= j < |items| ==> items[j] == before[j]
        {
          if items[k].id == id {
            items := items[k := items[k].(changed := true)];
          }
          k := k + 1;
        }
      }
    }

    /** `checkSelectedQuyeryChanged`: when a query is selected and its element's stored text
        differs from the search input, the element is marked changed. */
    method CheckSelectedQueryChanged()
      requires Valid()
      modifies this`items
      ensures Valid()
      ensures items == DriftChecked(old(items), selectedId, searchText)
    {
      if selectedId.Some? {
        var id := selectedId.value;
        var first := FindFirstWithId(id);
        if first.None? || items[first.value].text != searchText {
          MarkAsChanged(id);
        }
      }
    }

    /** `saveQuery` up to the request, run by a click on the save button, which a disabled
        button does not receive: with an empty search input nothing is sent (the user sees an
        alert); otherwise the request carries the input, the name and the checkbox. Nothing
        in the widget changes until the response arrives. */
    method SaveQuery() returns (request: Option<map<string, string>>)
      requires !saveDisabled
      ensures request.None? <==> searchText == ""
      ensures request.Some? ==> request.value == SaveParams(searchText, nameText, isPublic)
    {
      if |searchText| > 0 {
        request := Some(SaveParams(searchText, nameText, isPublic));
      } else {
        request := None;
      }
    }

    /** The `.done` continuation of the save request. A response with both `query_id` and
        `query_text` selects the saved query, clears the name field (without re-evaluating
        the save button) and starts a list refresh that will highlight that id; any other
        response changes nothing. */
    method OnSaveDone(body: SaveBody) returns (refresh: Option<Callback>)
      requires Valid()
      modifies this`selectedId, this`selectedText, this`nameText
      ensures Valid()
      ensures body.queryId.Some? && body.queryText.Some? ==>
        && selectedId == Some(body.queryId.value) && selectedText == body.queryText.value
        && nameText == "" && refresh == Some(HighlightSaved(body.queryId.value))
      ensures !(body.queryId.Some? && body.queryText.Some?) ==>
        && selectedId == old(selectedId) && selectedText == old(selectedText)
        && nameText == old(nameText) && refresh == None
    {
      if body.queryId.Some? && body.queryText.Some? {
        selectedId, selectedText := Some(body.queryId.value), body.queryText.value;
        nameText := "";
        refresh := Some(HighlightSaved(body.queryId.value));
      } else {
        refresh := None;
      }
    }

    /** `deleteQuery` up to the request: the delete control of own element `i` was clicked;
        only when the user confirms is a request sent, carrying the element's `query_id`.
        Nothing in the widget changes until the response arrives. */
    method DeleteQuery(i: nat, confirmed: bool) returns (request: Option<map<string, string>>)
      requires i < |items| && items[i].own
      ensures request == if confirmed then Some(DeleteParams(items[i].id)) else None
    {
      if confirmed {
        request := Some(DeleteParams(items[i].id));
      } else {
        request := None;
      }
    }

    /** `populate`: one element appended per entry, in order. */
    method Populate(data: seq<Entry>, own: bool)
      modifies this`items
      ensures items == old(items) + RenderedAll(data, own)
    {
      ghost var before := items;
      var k := 0;
      while k < |data|
        invariant k <= |data|
        invariant |items| == |before| + k && items[..|before|] == before
        invariant forall j :: 0 <= j < k ==> items[|before| + j] == Rendered(data[j], own)
      {
        items := items + [Rendered(data[k], own)];
        k := k + 1;
      }
      assert items == before + RenderedAll(data, own);
    }

    /** The first part of a list refresh: the container is emptied, then the own entries
        and then the public entries are appended. */
    method Rebuild(body: ListBody)
      requires Valid() && EntryIdsDistinct(body.own + body.public)
      modifies this`items
      ensures Valid()
      ensures items == Rebuilt(body)
    {
      items := [];
      Populate(body.own, true);
      assert items == RenderedAll(body.own, true);
      Populate(body.public, false);
      RebuiltIsClean(body);
    }

    /** The `.done` continuation of a list request: the list is rebuilt and the callback
        runs last. `selectedQuery` is not touched. */
    method RefreshQueries(body: ListBody, cb: Callback)
      requires Valid() && EntryIdsDistinct(body.own + body.public)
      modifies this`items
      ensures Valid()
      ensures items == AfterCallback(Rebuilt(body), cb, Upper(filterText))
    {
      Rebuild(body);
      match cb {
        case NoCallback =>
        case HighlightSaved(id) =>
          HighlightQuery(WithId(id));
        case Refilter =>
          var _ := FilterQueries();
      }
    }

    /** A keystroke in the search input: the new text, then the drift check. */
    method EditSearchText(text: string)
      requires Valid()
      modifies this`searchText, this`items
      ensures Valid()
      ensures searchText == text && items == DriftChecked(old(items), selectedId, text)
    {
      searchText := text;
      CheckSelectedQueryChanged();
    }

    /** A keystroke in the name field: the new text, then the save-button check. */
    method EditName(name: string)
      requires Valid()
      modifies this`nameText, this`saveDisabled
      ensures Valid()
      ensures nameText == name && (saveDisabled <==> name == "")
    {
      nameText := name;
      CheckSaveAvailability();
    }

    /** A keystroke in the filter field: the new text, then the filter. */
    method EditFilter(filter: string) returns (completed: bool)
      requires Valid()
      modifies this`filterText, this`items
      ensures Valid()
      ensures filterText == filter && items == Filtered(old(items), Upper(filter))
      ensures completed <==> NamedUpTo(old(items), |old(items)|)
    {
      filterText := filter;
      completed := FilterQueries();
    }
  }
}
