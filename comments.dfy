/**
 * `/api/comments`: the threaded listing of a video's comments, and the
 * CSRF-guarded creation, deletion and editing of comments, where only a
 * comment's author may delete or edit it.
 */
module Comments {
  import opened Wrappers
  import opened Text
  import opened Jwt
  import opened Sanitize
  import opened Http
  import opened CsrfGuard
  import opened Api

  /** A row of `comments`; `createdAt` orders rows as the `created_at` text does. */
  datatype CommentRow = CommentRow(id: int, videoId: int, userId: int, parentId: Option<int>,
                                   content: string, pinned: bool, createdAt: int)

  /** A top-level comment with its replies, as the listing returns it. */
  datatype Thread = Thread(comment: CommentRow, replies: seq<CommentRow>)

  /** `ORDER BY is_pinned DESC, created_at DESC` for top-level comments, `ORDER BY created_at ASC` for replies. */
  datatype Order = PinnedNewest | Oldest

  predicate InOrder(ord: Order, a: CommentRow, b: CommentRow) {
    match ord
    case PinnedNewest => (a.pinned && !b.pinned) || (a.pinned == b.pinned && a.createdAt >= b.createdAt)
    case Oldest => a.createdAt <= b.createdAt
  }

  predicate Sorted(ord: Order, s: seq<CommentRow>) {
    forall i, j :: 0 <= i < j < |s| ==> InOrder(ord, s[i], s[j])
  }

  /** Both orders are total preorders. */
  lemma InOrderTotal(ord: Order, a: CommentRow, b: CommentRow)
    ensures InOrder(ord, a, b) || InOrder(ord, b, a)
  {
  }

  lemma InOrderTransitive(ord: Order, a: CommentRow, b: CommentRow, c: CommentRow)
    requires InOrder(ord, a, b) && InOrder(ord, b, c)
    ensures InOrder(ord, a, c)
  {
  }

  /** Places `x` into the sorted `s`. */
  function Insert(ord: Order, x: CommentRow, s: seq<CommentRow>): (r: seq<CommentRow>)
    requires Sorted(ord, s)
    ensures Sorted(ord, r) && multiset(r) == multiset(s) + multiset{x}
  {
    if s == [] then [x]
    else if InOrder(ord, x, s[0]) then
      InsertFront(ord, x, s);
      [x] + s
    else
      InOrderTotal(ord, x, s[0]);
      var rest := Insert(ord, x, s[1..]);
      InsertBehind(ord, s[0], x, s[1..], rest);
      assert s == [s[0]] + s[1..];
      [s[0]] + rest
  }

  lemma InsertFront(ord: Order, x: CommentRow, s: seq<CommentRow>)
    requires Sorted(ord, s) && |s| > 0 && InOrder(ord, x, s[0])
    ensures Sorted(ord, [x] + s)
  {
    var r := [x] + s;
    forall i, j | 0 <= i < j < |r| ensures InOrder(ord, r[i], r[j]) {
      if i == 0 && j > 1 {
        InOrderTransitive(ord, x, s[0], s[j - 1]);
      }
    }
  }

  lemma InsertBehind(ord: Order, head: CommentRow, x: CommentRow, tail: seq<CommentRow>, rest: seq<CommentRow>)
    requires Sorted(ord, [head] + tail) && InOrder(ord, head, x)
    requires Sorted(ord, rest) && multiset(rest) == multiset(tail) + multiset{x}
    ensures Sorted(ord, [head] + rest)
  {
    var r := [head] + rest;
    var full := [head] + tail;
    assert full[0] == head;
    forall j | 0 < j < |r| ensures InOrder(ord, head, r[j]) {
      var c := rest[j - 1];
      assert r[j] == c;
      assert c in multiset(rest);
      if c != x {
        assert c in multiset(tail);
        var k :| 0 <= k < |tail| && tail[k] == c;
        assert full[k + 1] == c;
      }
    }
  }

  /** The rows of `s` in the order `ord`. */
  function SortBy(ord: Order, s: seq<CommentRow>): (r: seq<CommentRow>)
    ensures Sorted(ord, r) && multiset(r) == multiset(s)
  {
    if s == [] then []
    else
      assert s == [s[0]] + s[1..];
      Insert(ord, s[0], SortBy(ord, s[1..]))
  }

  /** The rows satisfying `p`, each as often as `rows` holds it. */
  function Select(rows: seq<CommentRow>, p: CommentRow -> bool): (r: seq<CommentRow>)
    ensures forall c :: multiset(r)[c] == if p(c) then multiset(rows)[c] else 0
  {
    if rows == [] then []
    else
      assert rows == [rows[0]] + rows[1..];
      if p(rows[0]) then [rows[0]] + Select(rows[1..], p) else Select(rows[1..], p)
  }

  /** A comment of the video that answers nobody. */
  predicate TopLevelOf(videoId: int, c: CommentRow) {
    c.videoId == videoId && c.parentId.None?
  }

  function Heads(threads: seq<Thread>): seq<CommentRow> {
    seq(|threads|, i requires 0 <= i < |threads| => threads[i].comment)
  }

  /**
   * `GET /api/comments?videoId=…`: exactly the video's top-level comments,
   * pinned first and then newest first, each carrying exactly its replies,
   * oldest first. `videoId` is `None` when the parameter is missing or empty.
   */
  function ListComments(videoId: Option<int>, rows: seq<CommentRow>): (r: Response<seq<Thread>>)
    ensures r.Failure? <==> videoId.None?
    ensures r.Failure? ==> r == Failure(400, "Video ID is required")
    ensures r.Json? ==> (r.status == 200 && Sorted(PinnedNewest, Heads(r.value))
      && forall c :: multiset(Heads(r.value))[c] == if TopLevelOf(videoId.value, c) then multiset(rows)[c] else 0)
    ensures r.Json? ==> forall i :: 0 <= i < |r.value| ==> (Sorted(Oldest, r.value[i].replies)
      && forall c :: multiset(r.value[i].replies)[c] == if c.parentId == Some(r.value[i].comment.id) then multiset(rows)[c] else 0)
  {
    if videoId.None? then Failure(400, "Video ID is required")
    else
      var tops := SortBy(PinnedNewest, Select(rows, (c: CommentRow) => TopLevelOf(videoId.value, c)));
      var threads := seq(|tops|, i requires 0 <= i < |tops| =>
        Thread(tops[i], SortBy(Oldest, Select(rows, (c: CommentRow) => c.parentId == Some(tops[i].id)))));
      assert Heads(threads) == tops;
      Json(200, threads)
  }

  /** The 403 of a failed CSRF check: its error, or 'CSRF validation failed' when it has none. */
  function CsrfRefusal(req: Request): (e: Option<(int, string)>)
    ensures e.None? <==> ValidateCsrfForRequest(req) == Valid
    ensures e.Some? ==> e.value.0 == 403 && e.value.1 == ValidateCsrfForRequest(req).error
  {
    match ValidateCsrfForRequest(req)
    case Valid => None
    case Invalid(error) => Some((403, if error != "" then error else "CSRF validation failed"))
  }

  /** The index of the comment with this id, or `|rows|`. */
  function FindComment(rows: seq<CommentRow>, id: int): (k: nat)
    ensures k <= |rows|
    ensures forall i :: 0 <= i < k ==> rows[i].id != id
    ensures k < |rows| ==> rows[k].id == id
  {
    FirstIndex(rows, (r: CommentRow) => r.id == id)
  }

  /** The PRIMARY KEY of `comments` and its AUTOINCREMENT counter. */
  predicate ValidRows(rows: seq<CommentRow>, lastId: int) {
    lastId >= 0
    && (forall i :: 0 <= i < |rows| ==> 0 < rows[i].id <= lastId)
    && forall i, j :: 0 <= i < j < |rows| ==> rows[i].id != rows[j].id
  }

  /** The JSON body of a new comment; a field that is missing or `null` is `None`. */
  datatype CommentBody = CommentBody(videoId: Option<int>, content: Option<string>, parentId: Option<int>)

  /**
   * The checks of `POST /api/comments` in their order: CSRF, then the user,
   * then the body (`None` when `request.json()` throws), then the content
   * cut to 5000 characters.
   */
  function PostRefusal(req: Request, user: Option<Claims>, body: Option<CommentBody>): (e: Option<(int, string)>)
    ensures ValidateCsrfForRequest(req).Invalid? ==> e == CsrfRefusal(req)
    ensures ValidateCsrfForRequest(req) == Valid && user.None? ==> e == Some((401, "Unauthorized"))
    ensures ValidateCsrfForRequest(req) == Valid && user.Some? && body.None? ==> e == Some((500, "Failed to create comment"))
    ensures ValidateCsrfForRequest(req) == Valid && user.Some? && body.Some?
      && !(body.value.videoId.Some? && body.value.videoId.value != 0 && Truthy(body.value.content))
      ==> e == Some((400, "Video ID and content are required"))
    ensures ValidateCsrfForRequest(req) == Valid && user.Some? && body.Some?
      && body.value.videoId.Some? && body.value.videoId.value != 0 && Truthy(body.value.content)
      && Trim(SanitizeInput(body.value.content.value, 5000)) == ""
      ==> e == Some((400, "Comment content cannot be empty"))
    ensures e.None? <==> (ValidateCsrfForRequest(req) == Valid && user.Some? && body.Some?
      && body.value.videoId.Some? && body.value.videoId.value != 0 && Truthy(body.value.content)
      && Trim(SanitizeInput(body.value.content.value, 5000)) != "")
  {
    if CsrfRefusal(req).Some? then CsrfRefusal(req)
    else if user.None? then Some((401, "Unauthorized"))
    else if body.None? then Some((500, "Failed to create comment"))
    else
      var b := body.value;
      if b.videoId.None? || b.videoId.value == 0 || !Truthy(b.content) then Some((400, "Video ID and content are required"))
      else if Trim(SanitizeInput(b.content.value, 5000)) == "" then Some((400, "Comment content cannot be empty"))
      else None
  }

  /** `parentId || null`: a missing or zero parent makes a top-level comment. */
  function ParentOf(parentId: Option<int>): (p: Option<int>)
    ensures p.Some? <==> parentId.Some? && parentId.value != 0
    ensures p.Some? ==> p == parentId
  {
    if parentId.Some? && parentId.value != 0 then parentId else None
  }

  /**
   * `POST /api/comments` over the rows and the counter `lastId`, at time
   * `now`: the answer, and the rows afterwards. An accepted comment is
   * appended under the next id, authored by the user, holding the cut content.
   */
  function PostEffect(req: Request, user: Option<Claims>, body: Option<CommentBody>,
                      rows: seq<CommentRow>, lastId: int, now: int): (o: (Response<CommentRow>, seq<CommentRow>))
    ensures o.0.Failure? <==> PostRefusal(req, user, body).Some?
    ensures o.0.Failure? ==> (o.0.status, o.0.error) == PostRefusal(req, user, body).value && o.1 == rows
    ensures o.0.Json? ==> (o.0.status == 201 && user.Some? && body.Some? && body.value.content.Some?
      && o.1 == rows + [o.0.value] && o.0.value.id == lastId + 1 && o.0.value.userId == user.value.id
      && o.0.value.content == SanitizeInput(body.value.content.value, 5000)
      && o.0.value.parentId == ParentOf(body.value.parentId) && !o.0.value.pinned)
  {
    if PostRefusal(req, user, body).Some? then
      var e := PostRefusal(req, user, body).value;
      (Failure(e.0, e.1), rows)
    else
      var b := body.value;
      var row := CommentRow(lastId + 1, b.videoId.value, user.value.id, ParentOf(b.parentId),
                            SanitizeInput(b.content.value, 5000), false, now);
      (Json(201, row), rows + [row])
  }

  /** Appending a row under the next id keeps ids unique and below the counter. */
  lemma AppendFresh(rows: seq<CommentRow>, lastId: int, row: CommentRow)
    requires ValidRows(rows, lastId) && row.id == lastId + 1
    ensures ValidRows(rows + [row], lastId + 1)
  {
    var after := rows + [row];
    assert forall i :: 0 <= i < |rows| ==> after[i] == rows[i];
  }

  /** Posting keeps ids unique and below the counter, which moves on by one exactly when a row is inserted. */
  lemma PostKeepsValid(req: Request, user: Option<Claims>, body: Option<CommentBody>,
                       rows: seq<CommentRow>, lastId: int, now: int)
    requires ValidRows(rows, lastId)
    ensures var o := PostEffect(req, user, body, rows, lastId, now);
      ValidRows(o.1, if o.0.Json? then lastId + 1 else lastId)
  {
    var o := PostEffect(req, user, body, rows, lastId, now);
    if o.0.Json? {
      AppendFresh(rows, lastId, o.0.value);
    }
  }

  /**
   * The checks of `DELETE /api/comments?id=…` in their order; `id` is `None`
   * when the parameter is missing or empty. The last two are the lookup
   * and the ownership check.
   */
  function DeleteRefusal(req: Request, user: Option<Claims>, id: Option<int>, rows: seq<CommentRow>): (e: Option<(int, string)>)
    ensures ValidateCsrfForRequest(req).Invalid? ==> e == CsrfRefusal(req)
    ensures ValidateCsrfForRequest(req) == Valid && user.None? ==> e == Some((401, "Unauthorized"))
    ensures ValidateCsrfForRequest(req) == Valid && user.Some? && id.None? ==> e == Some((400, "Comment ID required"))
    ensures ValidateCsrfForRequest(req) == Valid && user.Some? && id.Some? && FindComment(rows, id.value) == |rows|
      ==> e == Some((404, "Comment not found"))
    ensures ValidateCsrfForRequest(req) == Valid && user.Some? && id.Some? && FindComment(rows, id.value) < |rows|
      && rows[FindComment(rows, id.value)].userId != user.value.id
      ==> e == Some((403, "Not authorized to delete this comment"))
    ensures e.None? <==> (ValidateCsrfForRequest(req) == Valid && user.Some? && id.Some?
      && FindComment(rows, id.value) < |rows| && rows[FindComment(rows, id.value)].userId == user.value.id)
  {
    if CsrfRefusal(req).Some? then CsrfRefusal(req)
    else if user.None? then Some((401, "Unauthorized"))
    else if id.None? then Some((400, "Comment ID required"))
    else
      var k := FindComment(rows, id.value);
      if k == |rows| then Some((404, "Comment not found"))
      else if rows[k].userId != user.value.id then Some((403, "Not authorized to delete this comment"))
      else None
  }

  /** `DELETE /api/comments?id=…`: the answer `{ success: true }` or the refusal, and the rows afterwards. */
  function DeleteEffect(req: Request, user: Option<Claims>, id: Option<int>, rows: seq<CommentRow>)
    : (o: (Response<bool>, seq<CommentRow>))
    ensures o.0.Failure? <==> DeleteRefusal(req, user, id, rows).Some?
    ensures o.0.Failure? ==> (o.0.status, o.0.error) == DeleteRefusal(req, user, id, rows).value && o.1 == rows
    ensures o.0.Json? ==> o.0 == Json(200, true)
  {
    if DeleteRefusal(req, user, id, rows).Some? then
      var e := DeleteRefusal(req, user, id, rows).value;
      (Failure(e.0, e.1), rows)
    else
      var k := FindComment(rows, id.value);
      (Json(200, true), rows[..k] + rows[k + 1..])
  }

  /** Cutting the row at `k` out keeps every other row, in its order, and the table valid. */
  lemma RemoveAt(rows: seq<CommentRow>, k: nat, lastId: int)
    requires ValidRows(rows, lastId) && k < |rows|
    ensures var after := rows[..k] + rows[k + 1..];
      |after| == |rows| - 1 && ValidRows(after, lastId)
      && forall c :: c in after <==> c in rows && c.id != rows[k].id
  {
    var after := rows[..k] + rows[k + 1..];
    assert forall i :: 0 <= i < k ==> after[i] == rows[i];
    assert forall i :: k <= i < |after| ==> after[i] == rows[i + 1];
    forall c ensures c in after <==> c in rows && c.id != rows[k].id {
      if c in rows && c.id != rows[k].id {
        var i :| 0 <= i < |rows| && rows[i] == c;
        if i < k {
          assert after[i] == c;
        } else {
          assert after[i - 1] == c;
        }
      }
    }
  }

  /**
   * An accepted delete removes the one row with that id, which belongs to
   * the user, and keeps every other row.
   */
  lemma DeleteRemovesOwnComment(req: Request, user: Option<Claims>, id: Option<int>, rows: seq<CommentRow>, lastId: int)
    requires ValidRows(rows, lastId)
    requires DeleteEffect(req, user, id, rows).0.Json?
    ensures var after := DeleteEffect(req, user, id, rows).1;
      |after| == |rows| - 1
      && (exists k :: 0 <= k < |rows| && rows[k].id == id.value && rows[k].userId == user.value.id)
      && (forall c :: c in after <==> c in rows && c.id != id.value)
      && ValidRows(after, lastId)
  {
    var k := FindComment(rows, id.value);
    RemoveAt(rows, k, lastId);
  }

  /** The JSON body of an edit. */
  datatype EditBody = EditBody(content: Option<string>)

  /**
   * The checks of `PUT /api/comments?id=…` in their order: the id and the
   * content are validated before the lookup and the ownership check.
   */
  function EditRefusal(req: Request, user: Option<Claims>, id: Option<int>, body: Option<EditBody>, rows: seq<CommentRow>)
    : (e: Option<(int, string)>)
    ensures ValidateCsrfForRequest(req).Invalid? ==> e == CsrfRefusal(req)
    ensures ValidateCsrfForRequest(req) == Valid && user.None? ==> e == Some((401, "Unauthorized"))
    ensures ValidateCsrfForRequest(req) == Valid && user.Some? && body.None? ==> e == Some((500, "Failed to edit comment"))
    ensures ValidateCsrfForRequest(req) == Valid && user.Some? && body.Some? && !(id.Some? && Truthy(body.value.content))
      ==> e == Some((400, "Comment ID and content required"))
    ensures ValidateCsrfForRequest(req) == Valid && user.Some? && body.Some? && id.Some? && Truthy(body.value.content)
      ==> var k := FindComment(rows, id.value);
      && (Trim(SanitizeInput(body.value.content.value, 5000)) == "" ==> e == Some((400, "Comment content cannot be empty")))
      && (Trim(SanitizeInput(body.value.content.value, 5000)) != "" && k == |rows| ==> e == Some((404, "Comment not found")))
      && (Trim(SanitizeInput(body.value.content.value, 5000)) != "" && k < |rows| && rows[k].userId != user.value.id
          ==> e == Some((403, "Not authorized to edit this comment")))
    ensures e.None? <==> (ValidateCsrfForRequest(req) == Valid && user.Some? && body.Some? && id.Some?
      && Truthy(body.value.content) && Trim(SanitizeInput(body.value.content.value, 5000)) != ""
      && FindComment(rows, id.value) < |rows| && rows[FindComment(rows, id.value)].userId == user.value.id)
  {
    if CsrfRefusal(req).Some? then CsrfRefusal(req)
    else if user.None? then Some((401, "Unauthorized"))
    else if body.None? then Some((500, "Failed to edit comment"))
    else if id.None? || !Truthy(body.value.content) then Some((400, "Comment ID and content required"))
    else if Trim(SanitizeInput(body.value.content.value, 5000)) == "" then Some((400, "Comment content cannot be empty"))
    else
      var k := FindComment(rows, id.value);
      if k == |rows| then Some((404, "Comment not found"))
      else if rows[k].userId != user.value.id then Some((403, "Not authorized to edit this comment"))
      else None
  }

  /**
   * `PUT /api/comments?id=…`: the answer, and the rows afterwards. An
   * accepted edit replaces the content of the user's own comment with the
   * cut text and changes nothing else.
   */
  function EditEffect(req: Request, user: Option<Claims>, id: Option<int>, body: Option<EditBody>, rows: seq<CommentRow>)
    : (o: (Response<bool>, seq<CommentRow>))
    ensures o.0.Failure? <==> EditRefusal(req, user, id, body, rows).Some?
    ensures o.0.Failure? ==> (o.0.status, o.0.error) == EditRefusal(req, user, id, body, rows).value && o.1 == rows
    ensures o.0.Json? ==> (o.0 == Json(200, true) && |o.1| == |rows|
      && var k := FindComment(rows, id.value);
      k < |rows| && rows[k].userId == user.value.id
      && o.1[k] == rows[k].(content := SanitizeInput(body.value.content.value, 5000))
      && forall i :: 0 <= i < |rows| && i != k ==> o.1[i] == rows[i])
  {
    if EditRefusal(req, user, id, body, rows).Some? then
      var e := EditRefusal(req, user, id, body, rows).value;
      (Failure(e.0, e.1), rows)
    else
      var k := FindComment(rows, id.value);
      (Json(200, true), rows[k := rows[k].(content := SanitizeInput(body.value.content.value, 5000))])
  }

  /** Editing never touches ids, so the table stays valid. */
  lemma EditKeepsValid(req: Request, user: Option<Claims>, id: Option<int>, body: Option<EditBody>, rows: seq<CommentRow>, lastId: int)
    requires ValidRows(rows, lastId)
    ensures ValidRows(EditEffect(req, user, id, body, rows).1, lastId)
  {
    var o := EditEffect(req, user, id, body, rows);
    if o.0.Json? {
      assert forall i :: 0 <= i < |rows| ==> o.1[i].id == rows[i].id;
    }
  }

  /**
   * Someone else's comment is never deleted or edited: once the CSRF check,
   * the sign-in and the input checks pass, the request is refused with 403
   * and the rows stay as they were.
   */
  lemma ForeignCommentUntouched(req: Request, user: Claims, k: nat, body: Option<EditBody>, rows: seq<CommentRow>)
    requires k < |rows| && rows[k].userId != user.id && (forall i :: 0 <= i < k ==> rows[i].id != rows[k].id)
    ensures DeleteEffect(req, Some(user), Some(rows[k].id), rows).1 == rows
    ensures EditEffect(req, Some(user), Some(rows[k].id), body, rows).1 == rows
    ensures ValidateCsrfForRequest(req) == Valid ==>
      DeleteEffect(req, Some(user), Some(rows[k].id), rows).0 == Failure(403, "Not authorized to delete this comment")
  {
    assert FindComment(rows, rows[k].id) == k;
  }

  /** A failed CSRF check answers 403 before the user or the body is looked at. */
  lemma CsrfCheckedFirst(req: Request, user: Option<Claims>, id: Option<int>, post: Option<CommentBody>,
                         edit: Option<EditBody>, rows: seq<CommentRow>, lastId: int, now: int)
    requires ValidateCsrfForRequest(req).Invalid?
    ensures PostEffect(req, user, post, rows, lastId, now).0.status == 403
    ensures DeleteEffect(req, user, id, rows).0.status == 403
    ensures EditEffect(req, user, id, edit, rows).0.status == 403
  {
  }

  /** The `comments` table and its AUTOINCREMENT counter. */
  class CommentsTable {
    var rows: seq<CommentRow>
    var lastId: int

    predicate Valid()
      reads this
    {
      ValidRows(rows, lastId)
    }

    constructor()
      ensures rows == [] && lastId == 0 && Valid()
    {
      rows := [];
      lastId := 0;
    }

    /** `POST /api/comments` at time `now`. */
    method Post(req: Request, user: Option<Claims>, body: Option<CommentBody>, now: int) returns (r: Response<CommentRow>)
      requires Valid()
      modifies this
      ensures Valid()
      ensures (r, rows) == PostEffect(req, user, body, old(rows), old(lastId), now)
      ensures lastId == if r.Json? then old(lastId) + 1 else old(lastId)
    {
      var before, last := rows, lastId;
      var o := PostEffect(req, user, body, before, last, now);
      PostKeepsValid(req, user, body, before, last, now);
      var next := if o.0.Json? then last + 1 else last;
      assert ValidRows(o.1, next);
      r, rows, lastId := o.0, o.1, next;
    }

    /** `DELETE /api/comments?id=…`. */
    method Delete(req: Request, user: Option<Claims>, id: Option<int>) returns (r: Response<bool>)
      requires Valid()
      modifies this
      ensures Valid() && lastId == old(lastId)
      ensures (r, rows) == DeleteEffect(req, user, id, old(rows))
    {
      var o := DeleteEffect(req, user, id, rows);
      if o.0.Json? {
        DeleteRemovesOwnComment(req, user, id, rows, lastId);
      }
      assert ValidRows(o.1, lastId);
      r, rows := o.0, o.1;
    }

    /** `PUT /api/comments?id=…`. */
    method Edit(req: Request, user: Option<Claims>, id: Option<int>, body: Option<EditBody>) returns (r: Response<bool>)
      requires Valid()
      modifies this
      ensures Valid() && lastId == old(lastId)
      ensures (r, rows) == EditEffect(req, user, id, body, old(rows))
    {
      var o := EditEffect(req, user, id, body, rows);
      EditKeepsValid(req, user, id, body, rows, lastId);
      assert ValidRows(o.1, lastId);
      r, rows := o.0, o.1;
    }
  }
}
