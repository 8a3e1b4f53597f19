// The saved-query list as the widget renders it (djangoql/static/djangoql/js/save_query.js):
// one `a.query` element per saved query, and the pure transformations the widget's
// handlers apply to that list. The class in save_query.dfy is proved against these.

module QueryItems {
  import opened Wire
  import opened Text
  import opened Markup

  /** One rendered `a.query` element: its `query_id` and `query_text` attributes, its name
      (the element's own text node), whether it carries the delete control (own queries
      only), whether it is displayed, and whether it has the `selected-query` and
      `changed-query` classes. */
  datatype Item = Item(id: QueryId, name: string, text: string, own: bool,
                       visible: bool, selected: bool, changed: bool)

  predicate DistinctIds(items: seq<Item>)
  {
    forall i, j :: 0 <= i < j < |items| ==> items[i].id != items[j].id
  }

  /** At most one element carries `selected-query`. */
  predicate AtMostOneSelected(items: seq<Item>)
  {
    forall i, j :: 0 <= i < j < |items| ==> !(items[i].selected && items[j].selected)
  }

  // ---------------------------------------------------------------------------
  // Rebuild (`refreshQueries` / `populate`)

  /** The element a template produces for one entry: displayed, without classes, its
      `query_text` attribute read back through the escaped markup. */
  function Rendered(e: Entry, own: bool): Item
  {
    Item(e.id, e.name, TextRendered(e), own, true, false, false)
  }

  /** The elements `populate` appends for a list of entries, in order. */
  function RenderedAll(es: seq<Entry>, own: bool): (r: seq<Item>)
    ensures |r| == |es|
    ensures forall k :: 0 <= k < |es| ==> r[k] == Rendered(es[k], own)
  {
    if es == [] then [] else [Rendered(es[0], own)] + RenderedAll(es[1..], own)
  }

  /** The container after a rebuild: emptied, then own entries, then public entries. */
  function Rebuilt(body: ListBody): seq<Item>
  {
    RenderedAll(body.own, true) + RenderedAll(body.public, false)
  }

  /** A rebuild holds exactly the snapshot's entries in response order, only the own ones
      deletable, none highlighted or marked changed, all displayed. */
  lemma RebuiltIsSnapshot(body: ListBody)
    ensures var r := Rebuilt(body);
      && |r| == |body.own| + |body.public|
      && (forall k :: 0 <= k < |r| ==>
            var e := (body.own + body.public)[k];
            r[k].id == e.id && r[k].name == e.name && r[k].text == e.text
            && (r[k].own <==> k < |body.own|)
            && r[k].visible && !r[k].selected && !r[k].changed)
  {
    var r := Rebuilt(body);
    forall k | 0 <= k < |r|
      ensures r[k] == Rendered((body.own + body.public)[k], k < |body.own|)
    {
      if k >= |body.own| {
        assert (body.own + body.public)[k] == body.public[k - |body.own|];
      }
    }
  }

  /** A rebuild from a response without repeated ids has distinct ids, nothing highlighted
      and nothing marked changed. */
  lemma RebuiltIsClean(body: ListBody)
    requires EntryIdsDistinct(body.own + body.public)
    ensures var r := Rebuilt(body);
      && DistinctIds(r) && AtMostOneSelected(r)
      && forall k :: 0 <= k < |r| ==> !r[k].changed
  {
    var r := Rebuilt(body);
    RebuiltIsSnapshot(body);
    forall i, j | 0 <= i < j < |r| ensures r[i].id != r[j].id {
      assert r[i].id == (body.own + body.public)[i].id;
      assert r[j].id == (body.own + body.public)[j].id;
    }
  }

  // ---------------------------------------------------------------------------
  // Highlight (`highlightQuery`)

  /** What `highlightQuery` adds `selected-query` to: the clicked element itself, or
      (when called with a null target) every element whose `query_id` is `id`. */
  datatype Target = Element(index: nat) | WithId(id: QueryId)

  predicate Hit(t: Target, items: seq<Item>, k: nat)
    requires k < |items|
  {
    match t
    case Element(i) => k == i
    case WithId(id) => items[k].id == id
  }

  /** The class is removed from every element and added to the target. */
  function Highlighted(items: seq<Item>, t: Target): (r: seq<Item>)
    ensures |r| == |items|
    ensures forall k :: 0 <= k < |items| ==> r[k] == items[k].(selected := r[k].selected)
  {
    seq(|items|, k requires 0 <= k < |items| => items[k].(selected := Hit(t, items, k)))
  }

  /** Highlighting the clicked element leaves it the only highlighted one. */
  lemma HighlightElementIsOnly(items: seq<Item>, i: nat)
    requires i < |items|
    ensures forall k :: 0 <= k < |items| ==> (Highlighted(items, Element(i))[k].selected <==> k == i)
  {
  }

  /** With distinct ids, highlighting by the id of item `k` leaves item `k` the only
      highlighted one. */
  lemma HighlightIdIsOnly(items: seq<Item>, k: nat)
    requires DistinctIds(items) && k < |items|
    ensures forall j :: 0 <= j < |items| ==>
      (Highlighted(items, WithId(items[k].id))[j].selected <==> j == k)
  {
  }

  /** Highlighting an id no item carries leaves nothing highlighted. */
  lemma HighlightAbsentIdSelectsNone(items: seq<Item>, id: QueryId)
    requires forall k :: 0 <= k < |items| ==> items[k].id != id
    ensures forall k :: 0 <= k < |items| ==> !Highlighted(items, WithId(id))[k].selected
  {
  }

  /** With distinct ids, every highlight leaves at most one element highlighted. */
  lemma HighlightLeavesOne(items: seq<Item>, t: Target)
    requires DistinctIds(items)
    ensures DistinctIds(Highlighted(items, t)) && AtMostOneSelected(Highlighted(items, t))
  {
  }

  lemma HighlightIdempotent(items: seq<Item>, t: Target)
    ensures Highlighted(Highlighted(items, t), t) == Highlighted(items, t)
  {
  }

  // ---------------------------------------------------------------------------
  // Selection bookkeeping (`selectQuery`)

  /** `changed-query` removed from every element. */
  function Unmarked(items: seq<Item>): (r: seq<Item>)
    ensures |r| == |items|
    ensures forall k :: 0 <= k < |items| ==> !r[k].changed && r[k] == items[k].(changed := r[k].changed)
  {
    seq(|items|, k requires 0 <= k < |items| => items[k].(changed := false))
  }

  /** After a click on item `i`, it is the only highlighted item and no item is marked. */
  lemma ClickedIsOnlySelection(items: seq<Item>, i: nat)
    requires i < |items|
    ensures var r := Unmarked(Highlighted(items, Element(i)));
      forall k :: 0 <= k < |r| ==> (r[k].selected <==> k == i) && !r[k].changed
  {
  }

  // ---------------------------------------------------------------------------
  // Filter (`filterQueries`, `textWithoutChildren`)

  /** The first `n` elements all have a name text node. An element whose name is empty has
      none, so `textWithoutChildren` throws a TypeError on it and the filter loop stops. */
  predicate NamedUpTo(items: seq<Item>, n: nat)
    requires n <= |items|
  {
    forall i :: 0 <= i < n ==> items[i].name != ""
  }

  predicate Shown(item: Item, upperFilter: string)
  {
    IndexOf(Upper(item.name), upperFilter) > -1
  }

  /** Display of each element set from the upper-cased filter, up to the first element
      without a name; that one and those after it keep their display. */
  function Filtered(items: seq<Item>, upperFilter: string): (r: seq<Item>)
    ensures |r| == |items|
    ensures forall k :: 0 <= k < |items| ==> r[k] == items[k].(visible := r[k].visible)
  {
    seq(|items|, k requires 0 <= k < |items| =>
      if NamedUpTo(items, k + 1) then items[k].(visible := Shown(items[k], upperFilter))
      else items[k])
  }

  /** Filtering keeps ids, highlight and markers, and with them the widget's invariants. */
  lemma FilterKeepsFlags(items: seq<Item>, upperFilter: string)
    ensures var r := Filtered(items, upperFilter);
      && (DistinctIds(items) ==> DistinctIds(r))
      && (AtMostOneSelected(items) ==> AtMostOneSelected(r))
      && forall k :: 0 <= k < |r| ==> r[k].changed == items[k].changed
  {
    var r := Filtered(items, upperFilter);
    assert forall k :: 0 <= k < |r| ==> r[k].id == items[k].id && r[k].selected == items[k].selected;
  }

  /** When every element is named, an element is displayed iff its upper-cased name
      contains the upper-cased filter text. */
  lemma FilterShowsMatches(items: seq<Item>, filter: string)
    requires NamedUpTo(items, |items|)
    ensures forall k :: 0 <= k < |items| ==>
      (Filtered(items, Upper(filter))[k].visible <==> Contains(Upper(items[k].name), Upper(filter)))
  {
  }

  /** An empty filter displays every (named) element again: the filter hides, never removes. */
  lemma EmptyFilterShowsAll(items: seq<Item>)
    requires NamedUpTo(items, |items|)
    ensures var r := Filtered(items, Upper(""));
      |r| == |items| && forall k :: 0 <= k < |r| ==> r[k] == items[k].(visible := true)
  {
    forall k | 0 <= k < |items|
      ensures Shown(items[k], Upper(""))
    {
      assert Upper("") == "";
      EmptyOccursEverywhere(Upper(items[k].name));
    }
  }

  /** An element without a name stops the filter: it and every later element keep
      their display. */
  lemma FilterStopsAtUnnamed(items: seq<Item>, filter: string, u: nat)
    requires u < |items| && items[u].name == ""
    ensures forall k :: u <= k < |items| ==> Filtered(items, filter)[k] == items[k]
  {
    forall k | u <= k < |items|
      ensures Filtered(items, filter)[k] == items[k]
    {
      assert !NamedUpTo(items, k + 1) by { assert items[u].name == ""; }
    }
  }

  // ---------------------------------------------------------------------------
  // Drift marker (`checkSelectedQuyeryChanged`, `markAsChanged`)

  /** The first element with `query_id` equal to `id` at or after `from`: what
      `.attr('query_text')` of the jQuery selection reads. */
  function FirstWithIdFrom(items: seq<Item>, id: QueryId, from: nat): (r: Option<nat>)
    requires from <= |items|
    ensures r.Some? ==> from <= r.value < |items| && items[r.value].id == id
                        && forall j :: from <= j < r.value ==> items[j].id != id
    ensures r.None? ==> forall j :: from <= j < |items| ==> items[j].id != id
    decreases |items| - from
  {
    if from == |items| then None
    else if items[from].id == id then Some(from)
    else FirstWithIdFrom(items, id, from + 1)
  }

  function FirstWithId(items: seq<Item>, id: QueryId): Option<nat>
  {
    FirstWithIdFrom(items, id, 0)
  }

  /** `hasClass('changed-query')` on the selection of elements with this id. */
  predicate AnyChangedWithId(items: seq<Item>, id: QueryId)
  {
    exists k :: 0 <= k < |items| && items[k].id == id && items[k].changed
  }

  /** `addClass('changed-query')` on every element with this id. */
  function MarkedWithId(items: seq<Item>, id: QueryId): seq<Item>
  {
    seq(|items|, k requires 0 <= k < |items| =>
      if items[k].id == id then items[k].(changed := true) else items[k])
  }

  /** `markAsChanged`: adds the class only when no selected element has it yet. An element
      is marked afterwards iff it was, or it carries the id and none of those was marked. */
  function MarkedAsChanged(items: seq<Item>, id: QueryId): (r: seq<Item>)
    ensures |r| == |items|
    ensures forall k :: 0 <= k < |items| ==>
      && r[k] == items[k].(changed := r[k].changed)
      && (r[k].changed <==> items[k].changed || (items[k].id == id && !AnyChangedWithId(items, id)))
  {
    if AnyChangedWithId(items, id) then items else MarkedWithId(items, id)
  }

  /** The stored text of the first element with this id differs from the input. When no
      element has the id the attribute is undefined, which differs from every string. */
  predicate Drifted(items: seq<Item>, id: QueryId, input: string)
  {
    var first := FirstWithId(items, id);
    first.None? || items[first.value].text != input
  }

  /** `checkSelectedQuyeryChanged` for the selected id `sel` and input text `input`: an
      element is marked afterwards iff it was, or it carries the selected id, the stored
      text has drifted from the input and no element with the id was marked yet. Marking
      an empty selection does nothing. */
  function DriftChecked(items: seq<Item>, sel: Option<QueryId>, input: string): (r: seq<Item>)
    ensures |r| == |items|
    ensures forall k :: 0 <= k < |items| ==>
      && r[k] == items[k].(changed := r[k].changed)
      && (r[k].changed <==>
            || items[k].changed
            || (sel == Some(items[k].id) && Drifted(items, items[k].id, input)
                && !AnyChangedWithId(items, items[k].id)))
  {
    if sel.None? || !Drifted(items, sel.value, input) then items
    else MarkedAsChanged(items, sel.value)
  }

  /** The drift check only adds markers, only to elements carrying the selected id, and
      changes nothing else: typing the stored text back does not clear a marker. */
  lemma DriftOnlyAdds(items: seq<Item>, sel: Option<QueryId>, input: string)
    ensures var r := DriftChecked(items, sel, input);
      && |r| == |items|
      && forall k :: 0 <= k < |items| ==>
           && r[k] == items[k].(changed := r[k].changed)
           && (items[k].changed ==> r[k].changed)
           && (r[k].changed && !items[k].changed ==> sel == Some(items[k].id))
  {
  }

  /** Running the drift check twice is the same as running it once. */
  lemma DriftIdempotent(items: seq<Item>, sel: Option<QueryId>, input: string)
    ensures DriftChecked(DriftChecked(items, sel, input), sel, input) == DriftChecked(items, sel, input)
  {
    if sel.Some? {
      var id := sel.value;
      var first := FirstWithId(items, id);
      if !(first.Some? && items[first.value].text == input) && !AnyChangedWithId(items, id) {
        var m := MarkedWithId(items, id);
        assert forall k :: 0 <= k < |items| ==> m[k].id == items[k].id && m[k].text == items[k].text;
        if first.Some? {
          assert FirstWithId(m, id) == first by {
            assert forall k :: 0 <= k < |m| ==> (m[k].id == id <==> items[k].id == id);
            FirstWithIdFromSameIds(items, m, id, 0);
          }
          assert m[first.value].changed;
          assert AnyChangedWithId(m, id);
        } else {
          assert m == items;
        }
      }
    }
  }

  /** The first match depends only on the ids. */
  lemma {:induction false} FirstWithIdFromSameIds(a: seq<Item>, b: seq<Item>, id: QueryId, from: nat)
    requires |a| == |b| && from <= |a|
    requires forall k :: 0 <= k < |a| ==> (a[k].id == id <==> b[k].id == id)
    ensures FirstWithIdFrom(a, id, from) == FirstWithIdFrom(b, id, from)
    decreases |a| - from
  {
    if from < |a| && a[from].id != id {
      FirstWithIdFromSameIds(a, b, id, from + 1);
    }
  }

  /** Nothing is selected, or no element has the selected id: the check changes nothing. */
  lemma DriftAbsentIdChangesNothing(items: seq<Item>, sel: Option<QueryId>, input: string)
    requires sel.Some? ==> forall k :: 0 <= k < |items| ==> items[k].id != sel.value
    ensures DriftChecked(items, sel, input) == items
  {
    if sel.Some? {
      assert MarkedWithId(items, sel.value) == items;
    }
  }

  /** With distinct ids and item `k` selected, the check marks item `k` exactly when its
      stored text differs from the input, keeps an existing marker, and leaves every
      other item as it was. */
  lemma DriftMarksSelected(items: seq<Item>, k: nat, input: string)
    requires DistinctIds(items) && k < |items|
    ensures var r := DriftChecked(items, Some(items[k].id), input);
      && (r[k].changed <==> items[k].changed || items[k].text != input)
      && forall j :: 0 <= j < |items| && j != k ==> r[j] == items[j]
  {
    var id := items[k].id;
    var first := FirstWithId(items, id);
    assert first == Some(k);
  }

  /** Right after a click on item `i`, typing nothing new (the input holds the stored text)
      marks nothing. */
  lemma NoDriftAfterClick(items: seq<Item>, i: nat)
    requires DistinctIds(items) && i < |items|
    ensures var r := Unmarked(Highlighted(items, Element(i)));
      DriftChecked(r, Some(items[i].id), items[i].text) == r
  {
    var r := Unmarked(Highlighted(items, Element(i)));
    assert DistinctIds(r);
    DriftMarksSelected(r, i, items[i].text);
  }
}
