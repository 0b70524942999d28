/**
 * The stand-alone user management app: a `users` table whose `id` is the
 * primary key and whose `email` is `NOT NULL UNIQUE`, and its
 * `/api/users` handlers.
 */
module UserAppTable {
  import opened Wrappers
  import opened Text
  import opened Sorting

  /** A row of `users`: all three columns are required. */
  datatype AppUser = AppUser(id: string, name: string, email: string)

  function NameOf(u: AppUser): string {
    u.name
  }

  /** A JSON request body; a missing or non-text field is `None`. */
  datatype Body = Body(id: Option<string>, name: Option<string>, email: Option<string>)

  datatype Rejection =
    | AllRequired          // 400 「ID、名前、メールアドレスは必須です。」
    | IdOrEmailInUse       // 400 「そのIDまたはメールアドレスは既に使用されています。」
    | NameAndEmailRequired // 400 「名前とメールアドレスは必須です。」
    | EmailInUse           // 400 「そのメールアドレスは既に使用されています。」

  datatype Reply =
    | Created(user: AppUser)     // 201 echoing `{ id, name, email }`
    | Updated                    // 200
    | Deleted                    // 200
    | BadRequest(reason: Rejection)
    | NotFound                   // 404

  datatype Outcome = Outcome(reply: Reply, rows: map<string, AppUser>)

  /** The two constraints of the schema: each row under its own id, and no email used twice. */
  ghost predicate TableValid(rows: map<string, AppUser>) {
    && (forall k :: k in rows ==> rows[k].id == k && k != "" && rows[k].name != "" && rows[k].email != "")
    && (forall j, k :: j in rows && k in rows && j != k ==> rows[j].email != rows[k].email)
  }

  /** Some row other than `except` has the email `email`. */
  predicate EmailUsed(rows: map<string, AppUser>, email: string, except: Option<string>) {
    exists k :: k in rows && Some(k) != except && rows[k].email == email
  }

  /** `POST /api/users`: any failed insert, a taken id or a taken email, is the same 400. */
  function PostOn(rows: map<string, AppUser>, body: Body): (o: Outcome)
    ensures o.reply == BadRequest(AllRequired) <==> !Truthy(body.id) || !Truthy(body.name) || !Truthy(body.email)
    ensures o.reply == BadRequest(IdOrEmailInUse) <==>
      && Truthy(body.id) && Truthy(body.name) && Truthy(body.email)
      && (body.id.value in rows || EmailUsed(rows, body.email.value, None))
    ensures o.reply.Created? || o.reply.BadRequest?
    ensures !o.reply.Created? ==> o.rows == rows
    ensures o.reply.Created? ==>
      && o.reply.user == AppUser(body.id.value, body.name.value, body.email.value)
      && o.rows == rows[body.id.value := o.reply.user]
  {
    if !Truthy(body.id) || !Truthy(body.name) || !Truthy(body.email) then Outcome(BadRequest(AllRequired), rows)
    else if body.id.value in rows || EmailUsed(rows, body.email.value, None) then Outcome(BadRequest(IdOrEmailInUse), rows)
    else
      var u := AppUser(body.id.value, body.name.value, body.email.value);
      Outcome(Created(u), rows[u.id := u])
  }

  /**
   * `PUT /api/users/:id`: the update touches no row when the id is absent,
   * so the missing row is reported before any email clash.
   */
  function PutOn(rows: map<string, AppUser>, id: string, body: Body): (o: Outcome)
    ensures o.reply == BadRequest(NameAndEmailRequired) <==> !Truthy(body.name) || !Truthy(body.email)
    ensures o.reply == NotFound <==> Truthy(body.name) && Truthy(body.email) && id !in rows
    ensures o.reply == BadRequest(EmailInUse) <==>
      Truthy(body.name) && Truthy(body.email) && id in rows && EmailUsed(rows, body.email.value, Some(id))
    ensures o.reply != Updated ==> o.rows == rows
    ensures o.reply == Updated ==> o.rows == rows[id := AppUser(id, body.name.value, body.email.value)]
  {
    if !Truthy(body.name) || !Truthy(body.email) then Outcome(BadRequest(NameAndEmailRequired), rows)
    else if id !in rows then Outcome(NotFound, rows)
    else if EmailUsed(rows, body.email.value, Some(id)) then Outcome(BadRequest(EmailInUse), rows)
    else Outcome(Updated, rows[id := AppUser(id, body.name.value, body.email.value)])
  }

  /** `DELETE /api/users/:id`. */
  function DeleteOn(rows: map<string, AppUser>, id: string): (o: Outcome)
    ensures o.reply == Deleted <==> id in rows
    ensures o.reply != Deleted ==> o.reply == NotFound && o.rows == rows
    ensures o.rows.Keys == rows.Keys - {id}
    ensures forall k :: k in o.rows ==> o.rows[k] == rows[k]
  {
    if id in rows then Outcome(Deleted, rows - {id}) else Outcome(NotFound, rows)
  }

  /** Every handler keeps both constraints: ids and emails stay unique. */
  lemma HandlersKeepValid(rows: map<string, AppUser>, id: string, body: Body)
    requires TableValid(rows)
    ensures TableValid(PostOn(rows, body).rows)
    ensures TableValid(PutOn(rows, id, body).rows)
    ensures TableValid(DeleteOn(rows, id).rows)
  {
    var p := PostOn(rows, body);
    if p.reply.Created? {
      var u := p.reply.user;
      forall j, k | j in p.rows && k in p.rows && j != k ensures p.rows[j].email != p.rows[k].email {
        if j == u.id {
          assert !(rows[k].email == u.email);
        } else if k == u.id {
          assert !(rows[j].email == u.email);
        }
      }
    }
    var q := PutOn(rows, id, body);
    if q.reply == Updated {
      var u := q.rows[id];
      forall j, k | j in q.rows && k in q.rows && j != k ensures q.rows[j].email != q.rows[k].email {
        if j == id {
          assert !(rows[k].email == u.email);
        } else if k == id {
          assert !(rows[j].email == u.email);
        }
      }
    }
  }

  /** A user can resubmit their own email unchanged: it is not a clash with themselves. */
  lemma PutOwnEmail(rows: map<string, AppUser>, id: string, name: string)
    requires TableValid(rows) && id in rows && name != ""
    ensures PutOn(rows, id, Body(None, Some(name), Some(rows[id].email))).reply == Updated
  {
  }

  /** Deleting a user just registered gives back the table as it was. */
  lemma DeleteUndoesPost(rows: map<string, AppUser>, body: Body)
    requires PostOn(rows, body).reply.Created?
    ensures DeleteOn(PostOn(rows, body).rows, body.id.value) == Outcome(Deleted, rows)
  {
    var o := PostOn(rows, body);
    assert o.rows - {body.id.value} == rows;
  }

  /** `users` lists every row exactly once and no other value. */
  ghost predicate Lists(users: seq<AppUser>, rows: map<string, AppUser>) {
    forall u :: multiset(users)[u] == if u.id in rows && rows[u.id] == u then 1 else 0
  }

  class Table {
    var rows: map<string, AppUser>

    ghost predicate Valid()
      reads this
    {
      TableValid(rows)
    }

    constructor()
      ensures Valid() && rows == map[]
    {
      rows := map[];
    }

    /** `GET /api/users`: `SELECT * FROM users ORDER BY name`. */
    method Get() returns (users: seq<AppUser>)
      requires Valid()
      ensures SortedBy(users, NameOf)
      ensures Lists(users, rows)
    {
      users := [];
      var keys := rows.Keys;
      while keys != {}
        invariant keys <= rows.Keys
        invariant SortedBy(users, NameOf)
        invariant forall u :: multiset(users)[u] == if u.id in rows && u.id !in keys && rows[u.id] == u then 1 else 0
        decreases keys
      {
        var k :| k in keys;
        users := Insert(users, rows[k], NameOf);
        keys := keys - {k};
      }
    }

    method Post(body: Body) returns (reply: Reply)
      requires Valid()
      modifies this
      ensures Valid()
      ensures reply == PostOn(old(rows), body).reply && rows == PostOn(old(rows), body).rows
    {
      var o := PostOn(rows, body);
      HandlersKeepValid(rows, "", body);
      reply, rows := o.reply, o.rows;
    }

    method Put(id: string, body: Body) returns (reply: Reply)
      requires Valid()
      modifies this
      ensures Valid()
      ensures reply == PutOn(old(rows), id, body).reply && rows == PutOn(old(rows), id, body).rows
    {
      var o := PutOn(rows, id, body);
      HandlersKeepValid(rows, id, body);
      reply, rows := o.reply, o.rows;
    }

    method Delete(id: string) returns (reply: Reply)
      requires Valid()
      modifies this
      ensures Valid()
      ensures reply == DeleteOn(old(rows), id).reply && rows == DeleteOn(old(rows), id).rows
    {
      var o := DeleteOn(rows, id);
      HandlersKeepValid(rows, id, Body(None, None, None));
      reply, rows := o.reply, o.rows;
    }
  }
}
