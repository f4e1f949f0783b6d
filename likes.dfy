/**
 * `POST /api/likes` and `GET /api/likes`: one vote per (video, user) in the
 * `likes` table, which casting the same vote again takes back.
 */
module Likes {
  import opened Wrappers
  import opened Jwt
  import opened Api

  /** The `type` column, which the schema restricts to 'like' and 'dislike'. */
  datatype Vote = Like | Dislike

  function VoteName(v: Vote): string {
    match v
    case Like => "like"
    case Dislike => "dislike"
  }

  /** The `type` of a request, accepted only when it is exactly 'like' or 'dislike'. */
  function ParseVote(t: Option<string>): (v: Option<Vote>)
    ensures v.Some? <==> t == Some("like") || t == Some("dislike")
    ensures v.Some? ==> t == Some(VoteName(v.value))
  {
    if t == Some("like") then Some(Like)
    else if t == Some("dislike") then Some(Dislike)
    else None
  }

  /** The rows of `likes` keyed by (video_id, user_id): UNIQUE(video_id, user_id) makes the table a map. */
  type Votes = map<(int, int), Vote>

  /** The `action` of the reply. */
  datatype Action = Added | Removed | Updated

  function ActionName(a: Action): string {
    match a
    case Added => "added"
    case Removed => "removed"
    case Updated => "updated"
  }

  /** The reply `{ action, type }`. */
  datatype LikeReply = LikeReply(action: Action, vote: Vote)

  /** The JSON body `{ videoId, type }`; a field that is missing or `null` is `None`. */
  datatype LikeBody = LikeBody(videoId: Option<int>, kind: Option<string>)

  /**
   * What a vote `v` by the pair `key` does to the table: a first vote is
   * added, the same vote again is taken back, the other vote replaces it.
   * Every other pair keeps its row.
   */
  function Toggle(votes: Votes, key: (int, int), v: Vote): (o: (Action, Votes))
    ensures forall k :: k != key ==> (k in o.1 <==> k in votes)
    ensures forall k :: k != key && k in votes ==> o.1[k] == votes[k]
    ensures o.0 == Added <==> key !in votes
    ensures o.0 == Removed <==> key in votes && votes[key] == v
    ensures key in o.1 <==> o.0 != Removed
    ensures key in o.1 ==> o.1[key] == v
  {
    if key !in votes then (Added, votes[key := v])
    else if votes[key] == v then (Removed, votes - {key})
    else (Updated, votes[key := v])
  }

  /**
   * Casting the same vote twice gives the table back exactly when the pair
   * had no vote or had that very vote; a like cast over a dislike, twice,
   * leaves no vote at all.
   */
  lemma ToggleTwice(votes: Votes, key: (int, int), v: Vote)
    ensures Toggle(Toggle(votes, key, v).1, key, v).1 == votes <==> key !in votes || votes[key] == v
  {
    var once := Toggle(votes, key, v).1;
    var twice := Toggle(once, key, v).1;
    if key !in votes || votes[key] == v {
      assert twice.Keys == votes.Keys;
    } else {
      assert key !in twice;
    }
  }

  /**
   * The checks of `POST /api/likes` in their order; `body` is `None` when
   * `request.json()` throws. A video id of 0 is falsy.
   */
  function LikeRefusal(hasDb: bool, user: Option<Claims>, body: Option<LikeBody>): (e: Option<(int, string)>)
    ensures !hasDb ==> e == Some((500, "Database connection failed (D1 binding missing)"))
    ensures hasDb && user.None? ==> e == Some((401, "Unauthorized"))
    ensures hasDb && user.Some? && body.None? ==> e == Some((500, "Failed to process like"))
    ensures hasDb && user.Some? && body.Some? ==>
      (e == Some((400, "Invalid request")) <==>
        (body.value.videoId.None? || body.value.videoId.value == 0 || ParseVote(body.value.kind).None?))
    ensures e.None? <==> (hasDb && user.Some? && body.Some? && body.value.videoId.Some?
      && body.value.videoId.value != 0 && ParseVote(body.value.kind).Some?)
  {
    if !hasDb then Some((500, "Database connection failed (D1 binding missing)"))
    else if user.None? then Some((401, "Unauthorized"))
    else if body.None? then Some((500, "Failed to process like"))
    else if body.value.videoId.None? || body.value.videoId.value == 0 || ParseVote(body.value.kind).None? then
      Some((400, "Invalid request"))
    else None
  }

  /**
   * `GET /api/likes?videoId=…`: the stored vote of the signed-in user, or
   * `null` when the database, the user or the video id is missing.
   */
  function LikeOf(hasDb: bool, user: Option<Claims>, videoId: Option<int>, votes: Votes): (v: Option<Vote>)
    ensures v.Some? <==> hasDb && user.Some? && videoId.Some? && (videoId.value, user.value.id) in votes
    ensures v.Some? ==> v.value == votes[(videoId.value, user.value.id)]
  {
    if !hasDb || user.None? || videoId.None? then None
    else if (videoId.value, user.value.id) in votes then Some(votes[(videoId.value, user.value.id)])
    else None
  }

  /** The `likes` table. */
  class LikesTable {
    var votes: Votes

    constructor(initial: Votes)
      ensures votes == initial
    {
      votes := initial;
    }

    /**
     * `POST /api/likes` by `user`: a refused request changes nothing; an
     * accepted one toggles the pair (video, user) and reports what it did.
     */
    method Post(hasDb: bool, user: Option<Claims>, body: Option<LikeBody>) returns (r: Response<LikeReply>)
      modifies this
      ensures r.Failure? <==> LikeRefusal(hasDb, user, body).Some?
      ensures r.Failure? ==> (r.status, r.error) == LikeRefusal(hasDb, user, body).value && votes == old(votes)
      ensures r.Json? ==> (r.status == 200
        && var key, v := (body.value.videoId.value, user.value.id), ParseVote(body.value.kind).value;
        r.value == LikeReply(Toggle(old(votes), key, v).0, v) && votes == Toggle(old(votes), key, v).1)
    {
      var refusal := LikeRefusal(hasDb, user, body);
      if refusal.Some? {
        return Failure(refusal.value.0, refusal.value.1);
      }
      var key := (body.value.videoId.value, user.value.id);
      var v := ParseVote(body.value.kind).value;
      var action: Action;
      if key in votes {
        if votes[key] == v {
          votes := votes - {key};
          action := Removed;
        } else {
          votes := votes[key := v];
          action := Updated;
        }
      } else {
        votes := votes[key := v];
        action := Added;
      }
      r := Json(200, LikeReply(action, v));
    }
  }

  /**
   * After an accepted vote, `GET /api/likes` for that video and user shows
   * the vote, unless the vote was taken back, when it shows `null`.
   */
  lemma PostThenGet(votes: Votes, user: Claims, videoId: int, v: Vote)
    requires videoId != 0
    ensures var o := Toggle(votes, (videoId, user.id), v);
      LikeOf(true, Some(user), Some(videoId), o.1) == if o.0 == Removed then None else Some(v)
  {
  }
}
