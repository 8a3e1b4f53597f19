// The shapes that travel between the saved-query widget and the admin views:
// the JSON bodies of the three endpoints and the query-string parameters the
// widget sends, written the way jQuery writes them.

module Wire {

  datatype Option<T> = None | Some(value: T)

  /** Primary key of a saved query (Django's auto-increment `id`). */
  type QueryId = nat

  /** One serialised saved query, `{id, name, text}`. */
  datatype Entry = Entry(id: QueryId, name: string, text: string)

  /** No two entries share an id. */
  predicate EntryIdsDistinct(es: seq<Entry>)
  {
    forall i, j :: 0 <= i < j < |es| ==> es[i].id != es[j].id
  }

  /** The body of the query-list response: the user's own queries, then other users' public ones. */
  datatype ListBody = ListBody(own: seq<Entry>, public: seq<Entry>)

  /** The body of the save response; a key the JSON object lacks is `None`. */
  datatype SaveBody = SaveBody(queryId: Option<QueryId>, queryText: Option<string>)

  /** jQuery runs a request's `.done` continuation only for these statuses. */
  predicate IsSuccess(status: int)
  {
    200 <= status < 300 || status == 304
  }

  /** How jQuery writes a boolean into a query string. */
  function EncodeBool(b: bool): (r: string)
    ensures r == "true" <==> b
  {
    if b then "true" else "false"
  }

  function Digit(d: nat): (c: char)
    requires d < 10
  {
    ('0' as int + d) as char
  }

  /** Decimal text of a number, as JavaScript writes it when it concatenates it into a string. */
  function ShowNat(n: nat): (r: string)
    ensures |r| > 0
    ensures forall i :: 0 <= i < |r| ==> '0' <= r[i] <= '9'
    ensures r[|r| - 1] == Digit(n % 10)
  {
    if n < 10 then [Digit(n)] else ShowNat(n / 10) + [Digit(n % 10)]
  }

  /** The GET parameters the widget's save request carries. */
  function SaveParams(query: string, name: string, isPublic: bool): map<string, string>
  {
    map["query" := query, "name" := name, "is_public" := EncodeBool(isPublic)]
  }

  /** The GET parameters the widget's delete request carries: the item's `query_id` attribute. */
  function DeleteParams(id: QueryId): map<string, string>
  {
    map["query_id" := ShowNat(id)]
  }
}
