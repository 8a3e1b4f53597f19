// The saved-query endpoints of `DjangoQLSearchMixin` (djangoql/admin.py) over the
// SavedQuery table (djangoql/models.py). The table is held as its rows in ascending
// primary-key order, which is how an auto-increment key lays them out: a new row gets a
// key above every existing one. `order_by('-id')` over such a table is the filtered rows
// read back to front.

module Admin {
  import opened Wire

  type UserId = nat

  /** `request.user`: its primary key and `is_authenticated`. */
  datatype User = User(id: UserId, isAuthenticated: bool)

  /** One SavedQuery row: `id`, `name`, `query`, `user` and `is_public`. */
  datatype SavedQuery = SavedQuery(id: QueryId, name: string, query: string, user: UserId, isPublic: bool)

  /** What the views read of a request: `is_ajax()`, the GET parameters and the user. */
  datatype Request = Request(isAjax: bool, get: map<string, string>, user: User)

  predicate IdsAscending(rows: seq<SavedQuery>)
  {
    forall i, j :: 0 <= i < j < |rows| ==> rows[i].id < rows[j].id
  }

  predicate IdsDescending(rows: seq<SavedQuery>)
  {
    forall i, j :: 0 <= i < j < |rows| ==> rows[i].id > rows[j].id
  }

  predicate EntryIdsDescending(es: seq<Entry>)
  {
    forall i, j :: 0 <= i < j < |es| ==> es[i].id > es[j].id
  }

  // ---------------------------------------------------------------------------
  // query_list

  function Serialized(q: SavedQuery): Entry
  {
    Entry(q.id, q.name, q.query)
  }

  /** `_serialize_query`: `{id, name, text = query}` for each row, same length, same order. */
  function SerializeQuery(qs: seq<SavedQuery>): (r: seq<Entry>)
    ensures |r| == |qs|
    ensures forall k :: 0 <= k < |qs| ==> r[k].id == qs[k].id && r[k].name == qs[k].name && r[k].text == qs[k].query
  {
    if qs == [] then [] else [Serialized(qs[0])] + SerializeQuery(qs[1..])
  }

  /** The rows `query_list` puts in a list: the user's own rows, or other users' public ones. */
  predicate Listed(q: SavedQuery, u: UserId, own: bool)
  {
    if own then q.user == u else q.user != u && q.isPublic
  }

  /** `SavedQuery.objects.filter(user=u)` (own) or `.exclude(user=u).filter(is_public=True)`
      (public), then `.order_by('-id')`. */
  function Listing(rows: seq<SavedQuery>, u: UserId, own: bool): (r: seq<SavedQuery>)
    ensures |r| <= |rows|
    ensures forall q :: q in r <==> q in rows && Listed(q, u, own)
  {
    if rows == [] then []
    else Listing(rows[1..], u, own) + (if Listed(rows[0], u, own) then [rows[0]] else [])
  }

  /** Over a table in ascending key order, a listing is in strictly descending key order. */
  lemma {:induction false} ListingDescending(rows: seq<SavedQuery>, u: UserId, own: bool)
    requires IdsAscending(rows)
    ensures IdsDescending(Listing(rows, u, own))
  {
    if rows != [] {
      var rest := Listing(rows[1..], u, own);
      ListingDescending(rows[1..], u, own);
      forall q | q in rest ensures q.id > rows[0].id {
        var k :| 0 <= k < |rows[1..]| && rows[1..][k] == q;
        assert rows[k + 1] == q;
      }
      var r := Listing(rows, u, own);
      if Listed(rows[0], u, own) {
        assert r == rest + [rows[0]];
        forall i, j | 0 <= i < j < |r| ensures r[i].id > r[j].id {
          if j == |rest| {
            assert r[i] in rest;
          } else {
            assert r[i] == rest[i] && r[j] == rest[j];
          }
        }
      } else {
        assert r == rest;
      }
    }
  }

  /** The body of `query_list`'s response for user `u`. */
  function ListQueries(rows: seq<SavedQuery>, u: UserId): ListBody
  {
    ListBody(SerializeQuery(Listing(rows, u, true)), SerializeQuery(Listing(rows, u, false)))
  }

  /** One list of `query_list`, in a table with unique keys: a row's entry is in it iff the
      row is listed, and every entry in it comes from a listed row. */
  lemma SerializedListing(rows: seq<SavedQuery>, u: UserId, own: bool)
    requires IdsAscending(rows)
    ensures var es := SerializeQuery(Listing(rows, u, own));
      && (forall q :: q in rows ==> (Serialized(q) in es <==> Listed(q, u, own)))
      && (forall e :: e in es ==> exists q :: q in rows && Listed(q, u, own) && Serialized(q) == e)
  {
    var ls := Listing(rows, u, own);
    var es := SerializeQuery(ls);
    forall q | q in rows
      ensures Serialized(q) in es <==> Listed(q, u, own)
    {
      if Serialized(q) in es {
        var k :| 0 <= k < |es| && es[k] == Serialized(q);
        assert ls[k] in ls;
        SameIdSameRow(rows, ls[k], q);
      }
      if Listed(q, u, own) {
        var k :| 0 <= k < |ls| && ls[k] == q;
        assert es[k] == Serialized(q);
      }
    }
    forall e | e in es
      ensures exists q :: q in rows && Listed(q, u, own) && Serialized(q) == e
    {
      var k :| 0 <= k < |es| && es[k] == e;
      assert ls[k] in ls && Serialized(ls[k]) == e;
    }
  }

  /** In a table with unique keys, a row's entry is in `own` iff the row is the user's and in
      `public` iff it is another user's public row, every listed entry comes from such a
      row, and no id is in both lists (the user's own public rows appear only in `own`). */
  lemma QueryListPartition(rows: seq<SavedQuery>, u: UserId)
    requires IdsAscending(rows)
    ensures var l := ListQueries(rows, u);
      && (forall q :: q in rows ==> (Serialized(q) in l.own <==> q.user == u))
      && (forall q :: q in rows ==> (Serialized(q) in l.public <==> q.user != u && q.isPublic))
      && (forall e :: e in l.own ==> exists q :: q in rows && q.user == u && Serialized(q) == e)
      && (forall e :: e in l.public ==> exists q :: q in rows && q.user != u && q.isPublic && Serialized(q) == e)
      && (forall i, j :: 0 <= i < |l.own| && 0 <= j < |l.public| ==> l.own[i].id != l.public[j].id)
  {
    var l := ListQueries(rows, u);
    SerializedListing(rows, u, true);
    SerializedListing(rows, u, false);
    forall i, j | 0 <= i < |l.own| && 0 <= j < |l.public|
      ensures l.own[i].id != l.public[j].id
    {
      var a := Listing(rows, u, true)[i];
      var b := Listing(rows, u, false)[j];
      assert a in Listing(rows, u, true) && b in Listing(rows, u, false);
      if a.id == b.id {
        SameIdSameRow(rows, a, b);
      }
    }
  }

  /** Keys are unique in the table. */
  lemma SameIdSameRow(rows: seq<SavedQuery>, a: SavedQuery, b: SavedQuery)
    requires IdsAscending(rows) && a in rows && b in rows && a.id == b.id
    ensures a == b
  {
    var i :| 0 <= i < |rows| && rows[i] == a;
    var j :| 0 <= j < |rows| && rows[j] == b;
    assert i == j;
  }

  /** Both lists of `query_list` are in strictly descending id order. */
  lemma QueryListSorted(rows: seq<SavedQuery>, u: UserId)
    requires IdsAscending(rows)
    ensures EntryIdsDescending(ListQueries(rows, u).own)
    ensures EntryIdsDescending(ListQueries(rows, u).public)
  {
    ListingDescending(rows, u, true);
    ListingDescending(rows, u, false);
  }

  /** No id appears twice in the list the widget renders (own entries, then public ones). */
  lemma ListedIdsDistinct(rows: seq<SavedQuery>, u: UserId)
    requires IdsAscending(rows)
    ensures var l := ListQueries(rows, u); EntryIdsDistinct(l.own + l.public)
  {
    var l := ListQueries(rows, u);
    var all := l.own + l.public;
    QueryListPartition(rows, u);
    QueryListSorted(rows, u);
    assert EntryIdsDescending(l.own) && EntryIdsDescending(l.public);
    forall i, j | 0 <= i < j < |all|
      ensures all[i].id != all[j].id
    {
      if j < |l.own| {
        assert all[i] == l.own[i] && all[j] == l.own[j];
      } else if i >= |l.own| {
        assert all[i] == l.public[i - |l.own|] && all[j] == l.public[j - |l.own|];
      } else {
        assert all[i] == l.own[i] && all[j] == l.public[j - |l.own|];
      }
    }
  }

  /** A row appended at the end of the table (the highest key) is listed first. */
  lemma {:induction false} ListingAppend(rows: seq<SavedQuery>, x: SavedQuery, u: UserId, own: bool)
    ensures Listing(rows + [x], u, own) == (if Listed(x, u, own) then [x] else []) + Listing(rows, u, own)
    decreases |rows|
  {
    if rows == [] {
      assert [x][1..] == [];
    } else {
      assert (rows + [x])[1..] == rows[1..] + [x];
      ListingAppend(rows[1..], x, u, own);
    }
  }

  /** A row saved with a key above every existing one is the first entry of its owner's
      `own` list, with the saved name and text, and is not in the owner's `public` list. */
  lemma SavedQueryListedFirst(rows: seq<SavedQuery>, q: SavedQuery)
    ensures var l := ListQueries(rows + [q], q.user);
      |l.own| > 0 && l.own[0] == Entry(q.id, q.name, q.query)
      && forall e :: e in l.public ==> e.id != q.id || exists p :: p in rows && p.id == q.id
  {
    ListingAppend(rows, q, q.user, true);
    var l := ListQueries(rows + [q], q.user);
    forall e | e in l.public
      ensures e.id != q.id || exists p :: p in rows && p.id == q.id
    {
      var ls := Listing(rows + [q], q.user, false);
      var k :| 0 <= k < |l.public| && l.public[k] == e;
      assert ls[k] in ls;
      assert ls[k] in rows + [q] && ls[k] != q;
      assert ls[k] in rows;
    }
  }

  // ---------------------------------------------------------------------------
  // save_query

  /** `request.GET.get(key)` is truthy: present and non-empty. */
  predicate Truthy(get: map<string, string>, key: string)
  {
    key in get && get[key] != ""
  }

  /** `request.GET.get('is_public', False) == 'true'`. */
  predicate PublicFlag(get: map<string, string>)
  {
    "is_public" in get && get["is_public"] == "true"
  }

  /** The gate in front of the create: an AJAX request, a non-empty query and name, and an
      authenticated user. */
  predicate SaveAccepted(req: Request)
  {
    req.isAjax && Truthy(req.get, "query") && Truthy(req.get, "name") && req.user.isAuthenticated
  }

  /** The widget's `is_public` parameter reaches the row as the checkbox state it encodes;
      a missing parameter or any other spelling gives a private row. */
  lemma PublicFlagDecodes(query: string, name: string, isPublic: bool)
    ensures PublicFlag(SaveParams(query, name, isPublic)) == isPublic
    ensures !PublicFlag(map[])
  {
  }

  /** The widget's save request passes the gate iff its name is non-empty and the user is
      authenticated (it is only sent with a non-empty query). */
  lemma WidgetSaveAccepted(query: string, name: string, isPublic: bool, user: User)
    requires query != ""
    ensures SaveAccepted(Request(true, SaveParams(query, name, isPublic), user))
        <==> name != "" && user.isAuthenticated
  {
  }

  // ---------------------------------------------------------------------------
  // delete_query

  /** How the `query_id` parameter reaches `filter(pk=...)`: absent (`pk=None` matches no
      row), a decimal number, or text that is not one (Django raises ValueError). */
  datatype PkArg = Absent | Number(n: nat) | NotANumber

  predicate AllDigits(s: string)
  {
    forall i :: 0 <= i < |s| ==> '0' <= s[i] <= '9'
  }

  function DigitsValue(s: string): nat
    requires AllDigits(s)
  {
    if s == [] then 0 else DigitsValue(s[..|s| - 1]) * 10 + (s[|s| - 1] as int - '0' as int)
  }

  function PkArgOf(get: map<string, string>): PkArg
  {
    if "query_id" !in get then Absent
    else if get["query_id"] != "" && AllDigits(get["query_id"]) then Number(DigitsValue(get["query_id"]))
    else NotANumber
  }

  /** Reading back the decimal text of a number gives the number. */
  lemma {:induction false} DigitsValueShowNat(n: nat)
    ensures AllDigits(ShowNat(n)) && DigitsValue(ShowNat(n)) == n
  {
    var s := ShowNat(n);
    if n >= 10 {
      DigitsValueShowNat(n / 10);
      assert s[..|s| - 1] == ShowNat(n / 10);
    }
  }

  /** The id the widget sends in a delete request is the id the view filters on. */
  lemma PkRoundTrip(id: QueryId)
    ensures PkArgOf(DeleteParams(id)) == Number(id)
  {
    DigitsValueShowNat(id);
  }

  /** The rows `filter(pk=query_id, user=request.user)` selects. */
  predicate Doomed(q: SavedQuery, pk: PkArg, u: UserId)
  {
    pk.Number? && q.id == pk.n && q.user == u
  }

  /** The table after `.delete()` on that selection. */
  function Without(rows: seq<SavedQuery>, pk: PkArg, u: UserId): (r: seq<SavedQuery>)
    ensures |r| <= |rows|
    ensures forall q :: q in r <==> q in rows && !Doomed(q, pk, u)
    ensures IdsAscending(rows) ==> IdsAscending(r)
  {
    if rows == [] then []
    else
      var rest := Without(rows[1..], pk, u);
      assert IdsAscending(rows) ==> forall q :: q in rest ==> q.id > rows[0].id by {
        if IdsAscending(rows) {
          forall q | q in rest ensures q.id > rows[0].id {
            var k :| 0 <= k < |rows[1..]| && rows[1..][k] == q;
            assert rows[k + 1] == q;
          }
        }
      }
      (if Doomed(rows[0], pk, u) then [] else [rows[0]]) + rest
  }

  // ---------------------------------------------------------------------------
  // The table

  class Store {
    var rows: seq<SavedQuery>
    var nextId: QueryId

    /** Keys are positive, unique, in ascending order, and below the next key to allocate. */
    ghost predicate Valid()
      reads this
    {
      nextId >= 1 && IdsAscending(rows) && forall k :: 0 <= k < |rows| ==> 1 <= rows[k].id < nextId
    }

    constructor ()
      ensures Valid() && rows == [] && nextId == 1
    {
      rows, nextId := [], 1;
    }

    /** `query_list`: status 200 and the own and public lists of the requesting user. */
    method QueryList(req: Request) returns (status: int, body: ListBody)
      ensures status == 200 && body == ListQueries(rows, req.user.id)
    {
      status, body := 200, ListQueries(rows, req.user.id);
    }

    /** `save_query`: when the gate passes, one row is created (owned by the requesting
        user, public only for the exact text "true") and the response is 201 with its key
        and stored text; otherwise 400 with an empty object and the table unchanged. */
    method SaveQuery(req: Request) returns (status: int, body: SaveBody)
      requires Valid()
      modifies this
      ensures Valid()
      ensures SaveAccepted(req) ==>
        && status == 201 && body == SaveBody(Some(old(nextId)), Some(req.get["query"]))
        && rows == old(rows) + [SavedQuery(old(nextId), req.get["name"], req.get["query"],
                                           req.user.id, PublicFlag(req.get))]
        && nextId > old(nextId)
      ensures !SaveAccepted(req) ==>
        status == 400 && body == SaveBody(None, None) && rows == old(rows) && nextId == old(nextId)
    {
      status, body := 400, SaveBody(None, None);
      if req.isAjax {
        var isPublic := PublicFlag(req.get);
        if Truthy(req.get, "query") && Truthy(req.get, "name") && req.user.isAuthenticated {
          var created := SavedQuery(nextId, req.get["name"], req.get["query"], req.user.id, isPublic);
          rows, nextId := rows + [created], nextId + 1;
          body := SaveBody(Some(created.id), Some(created.query));
          status := 201;
        }
      }
    }

    /** `delete_query`: a non-AJAX request gets 400 and deletes nothing. Otherwise the rows
        with the given key that belong to the requesting user are deleted, and the status
        is 204 or 404 as the value `.delete()` returns is truthy or not; `resultTruthy`
        says which, for the number of rows deleted. A `query_id` that is not a number
        raises inside the ORM (500, nothing deleted). */
    method DeleteQuery(req: Request, resultTruthy: nat -> bool) returns (status: int)
      requires Valid()
      modifies this
      ensures Valid() && nextId == old(nextId)
      ensures !req.isAjax ==> status == 400 && rows == old(rows)
      ensures req.isAjax && PkArgOf(req.get).NotANumber? ==> status == 500 && rows == old(rows)
      ensures req.isAjax && !PkArgOf(req.get).NotANumber? ==>
        && rows == Without(old(rows), PkArgOf(req.get), req.user.id)
        && status == if resultTruthy(|old(rows)| - |rows|) then 204 else 404
    {
      status := 400;
      if req.isAjax {
        var pk := PkArgOf(req.get);
        if pk.NotANumber? {
          return 500;
        }
        var remaining := Without(rows, pk, req.user.id);
        forall k | 0 <= k < |remaining| ensures 1 <= remaining[k].id < nextId {
          assert remaining[k] in remaining;
          var j :| 0 <= j < |rows| && rows[j] == remaining[k];
        }
        var count := |rows| - |remaining|;
        rows := remaining;
        status := if resultTruthy(count) then 204 else 404;
      }
    }
  }
}
