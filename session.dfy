// The widget and the admin views together: each user gesture that reaches the server,
// followed through the response and, when jQuery runs the `.done` continuation, through
// the list refresh it starts. Every continuation is one atomic step; a response whose
// status jQuery treats as a failure runs no continuation.

module Session {
  import opened Wire
  import opened Text
  import opened QueryItems
  import opened SaveQuery
  import opened Admin
  import Markup

  /** A deleted row is gone from its owner's `own` list. */
  lemma DeletedNotListed(rows: seq<SavedQuery>, id: QueryId, u: UserId)
    ensures forall e :: e in ListQueries(Without(rows, Number(id), u), u).own ==> e.id != id
  {
    var ls := Listing(Without(rows, Number(id), u), u, true);
    var es := SerializeQuery(ls);
    forall e | e in es ensures e.id != id {
      var k :| 0 <= k < |es| && es[k] == e;
      assert ls[k] in ls;
    }
  }

  /** The cross-check behind the highlight after a save: once the store has appended a row
      with the highest key, the rebuilt list shows it first, and highlighting its id leaves
      it the only highlighted item. */
  lemma SavedQueryHighlighted(rows: seq<SavedQuery>, q: SavedQuery)
    requires IdsAscending(rows + [q])
    ensures var r := Highlighted(Rebuilt(ListQueries(rows + [q], q.user)), WithId(q.id));
      && |r| > 0 && r[0] == Item(q.id, q.name, q.query, true, true, true, false)
      && forall k :: 0 < k < |r| ==> !r[k].selected
  {
    var list := ListQueries(rows + [q], q.user);
    SavedQueryListedFirst(rows, q);
    ListedIdsDistinct(rows + [q], q.user);
    RebuiltIsSnapshot(list);
    var r := Rebuilt(list);
    assert DistinctIds(r) by {
      forall i, j | 0 <= i < j < |r| ensures r[i].id != r[j].id {
        assert r[i].id == (list.own + list.public)[i].id;
        assert r[j].id == (list.own + list.public)[j].id;
      }
    }
    assert r[0] == Rendered(list.own[0], true);
    HighlightIdIsOnly(r, 0);
  }

  /** With the templates as written, a saved query holding a string literal is rebuilt with
      its text cut at the first quote while the search input still holds the whole text, so
      the next keystroke in the input marks the just-saved query changed. */
  lemma UnescapedSaveMarkedOnKeystroke()
    ensures var e := Entry(1, "by name", "name = \"foo\"");
      var items := [Item(e.id, e.name, Markup.TextAsWritten(e), true, true, true, false)];
      DriftChecked(items, Some(e.id), e.text)[0].changed
  {
    Markup.QuotedLiteralIsCut();
  }

  /** The widget's first list refresh, with no callback: every query of the snapshot is
      displayed and none is highlighted or marked; the name and filter inputs are empty and
      the checkbox is unticked, as the markup creates them. */
  method Open(s: Store, user: User, search: string) returns (w: Widget)
    requires s.Valid()
    ensures fresh(w) && w.Valid()
    ensures w.selectedId == None && w.selectedText == "" && w.saveDisabled
    ensures w.searchText == search && w.nameText == "" && w.filterText == "" && !w.isPublic
    ensures w.items == Rebuilt(ListQueries(s.rows, user.id))
  {
    w := new Widget(search);
    var status, list := s.QueryList(Request(true, map[], user));
    ListedIdsDistinct(s.rows, user.id);
    w.RefreshQueries(list, NoCallback);
  }

  /** The enabled save button clicked: with an empty search input nothing is sent.
      Otherwise the server creates the query when the name is non-empty and the user is
      authenticated, the widget selects it and clears the name field, and the refresh
      rebuilds the list from the new table and highlights the new query, which is the first
      item and the only highlighted one. The save button keeps its state, so it stays
      enabled with an empty name. When the server refuses (400) nothing changes. */
  method SaveAndRefresh(w: Widget, s: Store, user: User)
    requires w.Valid() && s.Valid() && !w.saveDisabled
    modifies w, s
    ensures w.Valid() && s.Valid()
    ensures w.searchText == old(w.searchText) && w.filterText == old(w.filterText)
    ensures w.isPublic == old(w.isPublic) && w.saveDisabled == old(w.saveDisabled)
    ensures old(w.searchText) == "" || !(old(w.nameText) != "" && user.isAuthenticated) ==>
      && s.rows == old(s.rows) && s.nextId == old(s.nextId) && w.items == old(w.items)
      && w.selectedId == old(w.selectedId) && w.selectedText == old(w.selectedText)
      && w.nameText == old(w.nameText)
    ensures old(w.searchText) != "" && old(w.nameText) != "" && user.isAuthenticated ==>
      && s.rows == old(s.rows) + [SavedQuery(old(s.nextId), old(w.nameText), old(w.searchText),
                                             user.id, old(w.isPublic))]
      && s.nextId > old(s.nextId)
      && w.selectedId == Some(old(s.nextId)) && w.selectedText == old(w.searchText)
      && w.nameText == ""
      && w.items == Highlighted(Rebuilt(ListQueries(s.rows, user.id)), WithId(old(s.nextId)))
      && |w.items| > 0
      && w.items[0] == Item(old(s.nextId), old(w.nameText), old(w.searchText), true, true, true, false)
      && (forall k :: 0 < k < |w.items| ==> !w.items[k].selected)
  {
    var request := w.SaveQuery();
    if request.None? {
      return;
    }
    WidgetSaveAccepted(w.searchText, w.nameText, w.isPublic, user);
    PublicFlagDecodes(w.searchText, w.nameText, w.isPublic);
    var status, body := s.SaveQuery(Request(true, request.value, user));
    if IsSuccess(status) {
      ghost var q := s.rows[|s.rows| - 1];
      SaveDoneAndRefresh(w, s, user, body, q);
    }
  }

  /** The `.done` continuation of an accepted save, with the list refresh it starts: the
      widget selects the row the store has just appended, clears the name field, and the
      rebuilt list highlights that row, which comes first and is the only highlighted item. */
  method SaveDoneAndRefresh(w: Widget, s: Store, user: User, body: SaveBody, ghost q: SavedQuery)
    requires w.Valid() && s.Valid()
    requires |s.rows| > 0 && s.rows[|s.rows| - 1] == q && q.user == user.id
    requires body == SaveBody(Some(q.id), Some(q.query))
    modifies w
    ensures w.Valid()
    ensures w.searchText == old(w.searchText) && w.filterText == old(w.filterText)
    ensures w.isPublic == old(w.isPublic) && w.saveDisabled == old(w.saveDisabled)
    ensures w.selectedId == Some(q.id) && w.selectedText == q.query && w.nameText == ""
    ensures w.items == Highlighted(Rebuilt(ListQueries(s.rows, user.id)), WithId(q.id))
    ensures |w.items| > 0 && w.items[0] == Item(q.id, q.name, q.query, true, true, true, false)
    ensures forall k :: 0 < k < |w.items| ==> !w.items[k].selected
  {
    var refresh := w.OnSaveDone(body);
    var listStatus, list := s.QueryList(Request(true, map[], user));
    ListedIdsDistinct(s.rows, user.id);
    assert s.rows == s.rows[..|s.rows| - 1] + [q];
    SavedQueryHighlighted(s.rows[..|s.rows| - 1], q);
    w.RefreshQueries(list, refresh.value);
  }

  /** The delete control of own item `i` clicked. Without confirmation nothing happens.
      With it, the server deletes the user's row with that id; when the response is a
      success (204) the one list refresh rebuilds the list and re-applies the filter, and
      the deleted query is no longer among the own items; after a 404 jQuery runs no
      continuation. Either way `selectedQuery`, the inputs, the checkbox and the save button
      are left as they were, even when the deleted query was the selected one. */
  method DeleteAndRefresh(w: Widget, s: Store, i: nat, confirmed: bool, user: User,
                          resultTruthy: nat -> bool)
    requires w.Valid() && s.Valid() && i < |w.items| && w.items[i].own
    modifies w, s
    ensures w.Valid() && s.Valid()
    ensures w.selectedId == old(w.selectedId) && w.selectedText == old(w.selectedText)
    ensures w.searchText == old(w.searchText) && w.nameText == old(w.nameText)
    ensures w.filterText == old(w.filterText) && w.isPublic == old(w.isPublic)
    ensures w.saveDisabled == old(w.saveDisabled) && s.nextId == old(s.nextId)
    ensures !confirmed ==> s.rows == old(s.rows) && w.items == old(w.items)
    ensures confirmed ==> s.rows == Without(old(s.rows), Number(old(w.items[i].id)), user.id)
    ensures confirmed && resultTruthy(|old(s.rows)| - |s.rows|) ==>
      && w.items == Filtered(Rebuilt(ListQueries(s.rows, user.id)), Upper(old(w.filterText)))
      && forall k :: 0 <= k < |w.items| && w.items[k].own ==> w.items[k].id != old(w.items[i].id)
    ensures confirmed && !resultTruthy(|old(s.rows)| - |s.rows|) ==> w.items == old(w.items)
  {
    ghost var id := w.items[i].id;
    var request := w.DeleteQuery(i, confirmed);
    if request.None? {
      return;
    }
    PkRoundTrip(id);
    var status := s.DeleteQuery(Request(true, request.value, user), resultTruthy);
    if IsSuccess(status) {
      DeleteDoneAndRefresh(w, s, user, old(s.rows), id);
    }
  }

  /** The `.done` continuation of a delete: one list refresh that rebuilds the list from the
      table without the deleted row and re-applies the filter. No own item carries the
      deleted id, and nothing but the list changes. */
  method DeleteDoneAndRefresh(w: Widget, s: Store, user: User, ghost before: seq<SavedQuery>,
                              ghost id: QueryId)
    requires w.Valid() && s.Valid() && s.rows == Without(before, Number(id), user.id)
    modifies w
    ensures w.Valid()
    ensures w.selectedId == old(w.selectedId) && w.selectedText == old(w.selectedText)
    ensures w.searchText == old(w.searchText) && w.nameText == old(w.nameText)
    ensures w.filterText == old(w.filterText) && w.isPublic == old(w.isPublic)
    ensures w.saveDisabled == old(w.saveDisabled)
    ensures w.items == Filtered(Rebuilt(ListQueries(s.rows, user.id)), Upper(w.filterText))
    ensures forall k :: 0 <= k < |w.items| && w.items[k].own ==> w.items[k].id != id
  {
    var listStatus, list := s.QueryList(Request(true, map[], user));
    ListedIdsDistinct(s.rows, user.id);
    w.RefreshQueries(list, Refilter);
    DeletedNotListed(before, id, user.id);
    RebuiltIsSnapshot(list);
  }
}
