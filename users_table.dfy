/**
 * The `users` table of the attendance server and its `/api/users`
 * handlers: list, register, update and delete, with the required-field
 * checks and the trim-or-null normalisation of the optional fields.
 */
module UsersTable {
  import opened Wrappers
  import opened Text
  import opened Sorting

  /** A row of `users`: the primary key `id`, the required `name` and three optional texts. */
  datatype User = User(id: string, name: string, email: Option<string>,
                       standardSlot: Option<string>, standardSeat: Option<string>)

  function NameOf(u: User): string {
    u.name
  }

  /** A JSON request body; a missing or non-text field is `None`. */
  datatype Body = Body(id: Option<string>, name: Option<string>, email: Option<string>,
                       standardSlot: Option<string>, standardSeat: Option<string>)

  datatype Rejection =
    | IdAndNameRequired   // 400 「IDと名前は必須です。」
    | IdInUse             // 400 「そのIDは既に使用されています。」
    | NameRequired        // 400 「名前は必須です。」

  datatype Reply =
    | Created(user: User)        // 201 with the stored row
    | Updated                    // 200
    | Deleted                    // 200
    | BadRequest(reason: Rejection)
    | NotFound                   // 404 「指定されたIDのユーザーが見つかりません。」

  /** The table after a request and the reply sent. */
  datatype Outcome = Outcome(reply: Reply, rows: map<string, User>)

  // ----- trim-or-null -----

  /** `x && x.trim() !== '' ? x.trim() : null`. */
  function Normalize(field: Option<string>): (r: Option<string>)
    ensures r.None? <==> field.None? || forall i :: 0 <= i < |field.value| ==> IsSpace(field.value[i])
    ensures r.Some? ==> r.value == Trim(field.value) && r.value != ""
  {
    TrimEmptyIffAllSpace(field.GetOr(""));
    if Truthy(field) && Trim(field.value) != "" then Some(Trim(field.value)) else None
  }

  /** A stored value has no white space at either end, so normalising it again changes nothing. */
  lemma NormalizeIdempotent(field: Option<string>)
    ensures var r := Normalize(field);
      && Normalize(r) == r
      && (r.Some? ==> !IsSpace(r.value[0]) && !IsSpace(r.value[|r.value| - 1]))
  {
    var r := Normalize(field);
    if r.Some? {
      var t := Trim(field.value);
      TrimEnds(field.value);
      assert r.value == t;
      NormalizeTrimmed(t);
    }
  }

  /** A non-empty text with no white space at either end is stored as it is. */
  lemma NormalizeTrimmed(t: string)
    requires t != [] && !IsSpace(t[0]) && !IsSpace(t[|t| - 1])
    ensures Normalize(Some(t)) == Some(t)
  {
    TrimStartOfNoSpace(t);
    TrimEndOfNoSpace(t);
  }

  // ----- the table and its invariant -----

  /** Each row sits under its own id, which is non-empty, and has a non-empty name. */
  ghost predicate TableValid(rows: map<string, User>) {
    forall k :: k in rows ==> rows[k].id == k && k != "" && rows[k].name != ""
  }

  /** The row a request body stores under `id`: id and name as sent, the rest normalised. */
  function Stored(id: string, body: Body): User
    requires Truthy(body.name)
  {
    User(id, body.name.value, Normalize(body.email), Normalize(body.standardSlot), Normalize(body.standardSeat))
  }

  /** `POST /api/users`. */
  function PostOn(rows: map<string, User>, body: Body): (o: Outcome)
    ensures o.reply == BadRequest(IdAndNameRequired) <==> !Truthy(body.id) || !Truthy(body.name)
    ensures o.reply == BadRequest(IdInUse) <==> Truthy(body.id) && Truthy(body.name) && body.id.value in rows
    ensures o.reply.Created? <==> Truthy(body.id) && Truthy(body.name) && body.id.value !in rows
    ensures o.reply.BadRequest? || o.reply.Created?
    ensures !o.reply.Created? ==> o.rows == rows
  {
    if !Truthy(body.id) || !Truthy(body.name) then Outcome(BadRequest(IdAndNameRequired), rows)
    else if body.id.value in rows then Outcome(BadRequest(IdInUse), rows)
    else
      var u := Stored(body.id.value, body);
      Outcome(Created(u), rows[body.id.value := u])
  }

  /**
   * A successful registration adds exactly one row, under the new id, and
   * replies with that row; every other row is as before.
   */
  lemma PostAddsOne(rows: map<string, User>, body: Body)
    requires PostOn(rows, body).reply.Created?
    ensures var o := PostOn(rows, body);
      && o.rows.Keys == rows.Keys + {body.id.value}
      && |o.rows| == |rows| + 1
      && o.rows[body.id.value] == o.reply.user == Stored(body.id.value, body)
      && (forall k :: k in rows ==> o.rows[k] == rows[k])
  {
  }

  /** `PUT /api/users/:id`. */
  function PutOn(rows: map<string, User>, id: string, body: Body): (o: Outcome)
    ensures o.reply == BadRequest(NameRequired) <==> !Truthy(body.name)
    ensures o.reply == NotFound <==> Truthy(body.name) && id !in rows
    ensures o.reply == Updated <==> Truthy(body.name) && id in rows
    ensures o.reply != Updated ==> o.rows == rows
  {
    if !Truthy(body.name) then Outcome(BadRequest(NameRequired), rows)
    else if id !in rows then Outcome(NotFound, rows)
    else Outcome(Updated, rows[id := Stored(id, body)])
  }

  /** An update replaces the fields of that one row and leaves the set of ids and the other rows alone. */
  lemma PutChangesOne(rows: map<string, User>, id: string, body: Body)
    requires PutOn(rows, id, body).reply == Updated
    ensures var o := PutOn(rows, id, body);
      && o.rows.Keys == rows.Keys
      && o.rows[id] == Stored(id, body)
      && (forall k :: k in rows && k != id ==> o.rows[k] == rows[k])
  {
  }

  /** `DELETE /api/users/:id`. */
  function DeleteOn(rows: map<string, User>, id: string): (o: Outcome)
    ensures o.reply == Deleted <==> id in rows
    ensures o.reply != Deleted ==> o.reply == NotFound && o.rows == rows
    ensures o.rows.Keys == rows.Keys - {id}
    ensures forall k :: k in o.rows ==> o.rows[k] == rows[k]
  {
    if id in rows then Outcome(Deleted, rows - {id}) else Outcome(NotFound, rows)
  }

  /** Every handler keeps the table's invariant. */
  lemma HandlersKeepValid(rows: map<string, User>, id: string, body: Body)
    requires TableValid(rows)
    ensures TableValid(PostOn(rows, body).rows)
    ensures TableValid(PutOn(rows, id, body).rows)
    ensures TableValid(DeleteOn(rows, id).rows)
  {
  }

  /** Deleting a user just registered gives back the table as it was. */
  lemma DeleteUndoesPost(rows: map<string, User>, body: Body)
    requires PostOn(rows, body).reply.Created?
    ensures DeleteOn(PostOn(rows, body).rows, body.id.value) == Outcome(Deleted, rows)
  {
    var o := PostOn(rows, body);
    assert o.rows - {body.id.value} == rows;
  }

  /** A second registration of the same body is refused and changes nothing. */
  lemma PostTwiceRefused(rows: map<string, User>, body: Body)
    requires PostOn(rows, body).reply.Created?
    ensures var o := PostOn(rows, body);
      PostOn(o.rows, body) == Outcome(BadRequest(IdInUse), o.rows)
  {
  }

  /** `users` lists every row exactly once (each value with multiplicity 1), and no other value. */
  ghost predicate Lists(users: seq<User>, rows: map<string, User>) {
    forall u :: multiset(users)[u] == if u.id in rows && rows[u.id] == u then 1 else 0
  }

  lemma ListsMembers(users: seq<User>, rows: map<string, User>, u: User)
    requires Lists(users, rows)
    ensures u in users <==> u.id in rows && rows[u.id] == u
  {
    assert u in users <==> u in multiset(users);
  }

  /** The users table of one server, changed in place by the handlers. */
  class Table {
    var rows: map<string, User>

    ghost predicate Valid()
      reads this
    {
      TableValid(rows)
    }

    constructor()
      ensures Valid() && rows == map[]
    {
      rows := map[];
    }

    /** `GET /api/users`: `SELECT * FROM users ORDER BY name`. */
    method Get() returns (users: seq<User>)
      requires Valid()
      ensures SortedBy(users, NameOf)
      ensures Lists(users, rows)
    {
      users := [];
      var keys := rows.Keys;
      while keys != {}
        invariant keys <= rows.Keys
        invariant SortedBy(users, NameOf)
        invariant forall u :: multiset(users)[u] == if u.id in rows && u.id !in keys && rows[u.id] == u then 1 else 0
        decreases keys
      {
        var k :| k in keys;
        users := Insert(users, rows[k], NameOf);
        keys := keys - {k};
      }
    }

    method Post(body: Body) returns (reply: Reply)
      requires Valid()
      modifies this
      ensures Valid()
      ensures reply == PostOn(old(rows), body).reply && rows == PostOn(old(rows), body).rows
    {
      var o := PostOn(rows, body);
      HandlersKeepValid(rows, "", body);
      reply, rows := o.reply, o.rows;
    }

    method Put(id: string, body: Body) returns (reply: Reply)
      requires Valid()
      modifies this
      ensures Valid()
      ensures reply == PutOn(old(rows), id, body).reply && rows == PutOn(old(rows), id, body).rows
    {
      var o := PutOn(rows, id, body);
      HandlersKeepValid(rows, id, body);
      reply, rows := o.reply, o.rows;
    }

    method Delete(id: string) returns (reply: Reply)
      requires Valid()
      modifies this
      ensures Valid()
      ensures reply == DeleteOn(old(rows), id).reply && rows == DeleteOn(old(rows), id).rows
    {
      var o := DeleteOn(rows, id);
      HandlersKeepValid(rows, id, Body(None, None, None, None, None));
      reply, rows := o.reply, o.rows;
    }
  }
}
