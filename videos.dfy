/**
 * `/api/videos`: the listing query with its bound parameters, and the upload
 * of a video, which stores the file (and its thumbnail) in the bucket and
 * inserts a row pointing at them.
 */
module Videos {
  import opened Wrappers
  import opened Text
  import opened Jwt
  import opened Sanitize
  import opened Api

  /** A bound parameter: text, or what `parseInt` gave, `None` standing for `NaN`. */
  datatype Param = Str(s: string) | Num(n: Option<int>)

  /** The listing's SELECT, white space collapsed: the columns, the like and dislike counts, and the JOIN with the author. */
  const COLUMNS := "SELECT v.*, u.username, "
    + "u.avatar as user_avatar, "
    + "u.banner, "
  const LIKE_COUNT := "(SELECT COUNT(*) FROM likes "
    + "WHERE video_id = v.id AND "
    + "type = 'like') as likes, "
  const DISLIKE_COUNT := "(SELECT COUNT(*) FROM likes "
    + "WHERE video_id = v.id AND "
    + "type = 'dislike') as dislikes "
  const FROM_JOIN := "FROM videos v JOIN users u ON "
    + "v.user_id = u.id"
  const SELECT_VIDEOS := COLUMNS + LIKE_COUNT + DISLIKE_COUNT + FROM_JOIN

  /** A placeholder. */
  const MARK := "?"
  const BY_USER := " WHERE v.user_id = " + MARK
  const BY_SEARCH := " WHERE v.title LIKE " + MARK + " OR v.description LIKE " + MARK
  const PAGE := " ORDER BY v.created_at DESC LIMIT " + MARK + " OFFSET " + MARK

  /**
   * `parseInt(param || '<fallback>')`, `None` standing for `NaN`; the
   * fallback numeral reads back as `fallback` (see `DefaultPage`).
   */
  function PageParam(param: Option<string>, fallback: nat): Option<int> {
    if Truthy(param) then ParseInt(param.value) else Some(fallback)
  }

  /** The WHERE clause the listing adds: by author if a user id is given, else by search text if any, else none. */
  function Filter(userId: Option<string>, search: string): string {
    if Truthy(userId) then BY_USER else if search != "" then BY_SEARCH else ""
  }

  lemma NoMarkInColumns()
    ensures Occurrences(COLUMNS, '?') == 0
  {
    assert '?' !in "SELECT v.*, u.username, ";
    assert '?' !in "u.avatar as user_avatar, ";
    assert '?' !in "u.banner, ";
    OccurrencesAbsent(COLUMNS, '?');
  }

  lemma NoMarkInLikeCount()
    ensures Occurrences(LIKE_COUNT, '?') == 0
  {
    assert '?' !in "(SELECT COUNT(*) FROM likes ";
    assert '?' !in "WHERE video_id = v.id AND ";
    assert '?' !in "type = 'like') as likes, ";
    OccurrencesAbsent(LIKE_COUNT, '?');
  }

  lemma NoMarkInDislikeCount()
    ensures Occurrences(DISLIKE_COUNT, '?') == 0
  {
    assert '?' !in "(SELECT COUNT(*) FROM likes ";
    assert '?' !in "WHERE video_id = v.id AND ";
    assert '?' !in "type = 'dislike') as dislikes ";
    OccurrencesAbsent(DISLIKE_COUNT, '?');
  }

  lemma NoMarkInFromJoin()
    ensures Occurrences(FROM_JOIN, '?') == 0
  {
    assert '?' !in "FROM videos v JOIN users u ON ";
    assert '?' !in "v.user_id = u.id";
    OccurrencesAbsent(FROM_JOIN, '?');
  }

  /** The SELECT binds nothing. */
  lemma NoMarkInSelect()
    ensures Occurrences(SELECT_VIDEOS, '?') == 0
  {
    NoMarkInColumns();
    NoMarkInLikeCount();
    NoMarkInDislikeCount();
    NoMarkInFromJoin();
    OccurrencesConcat(COLUMNS, LIKE_COUNT, '?');
    OccurrencesConcat(COLUMNS + LIKE_COUNT, DISLIKE_COUNT, '?');
    OccurrencesConcat(COLUMNS + LIKE_COUNT + DISLIKE_COUNT, FROM_JOIN, '?');
  }

  lemma OneMark()
    ensures Occurrences(MARK, '?') == 1
  {
    assert MARK[1..] == "";
  }

  /** A piece of SQL around a placeholder adds only that placeholder. */
  lemma AroundMark(before: string, after: string)
    requires '?' !in before && '?' !in after
    ensures Occurrences(before + MARK + after, '?') == 1
  {
    OneMark();
    OccurrencesAbsent(before, '?');
    OccurrencesAbsent(after, '?');
    OccurrencesConcat(before, MARK, '?');
    OccurrencesConcat(before + MARK, after, '?');
  }

  lemma UserClauseMarks()
    ensures Occurrences(BY_USER, '?') == 1
  {
    AroundMark(" WHERE v.user_id = ", "");
    assert BY_USER == " WHERE v.user_id = " + MARK + "";
  }

  lemma SearchClauseMarks()
    ensures Occurrences(BY_SEARCH, '?') == 2
  {
    var a, b := " WHERE v.title LIKE ", " OR v.description LIKE ";
    AroundMark(a, b);
    OneMark();
    OccurrencesConcat(a + MARK + b, MARK, '?');
  }

  lemma PageClauseMarks()
    ensures Occurrences(PAGE, '?') == 2
  {
    var a, b := " ORDER BY v.created_at DESC LIMIT ", " OFFSET ";
    AroundMark(a, b);
    OneMark();
    OccurrencesConcat(a + MARK + b, MARK, '?');
  }

  /** The listing query has one placeholder per filter value, and two for the paging. */
  lemma QueryMarks(userId: Option<string>, search: string)
    ensures Occurrences(SELECT_VIDEOS + Filter(userId, search) + PAGE, '?')
      == (if Truthy(userId) then 1 else if search != "" then 2 else 0) + 2
  {
    NoMarkInSelect();
    UserClauseMarks();
    SearchClauseMarks();
    PageClauseMarks();
    OccurrencesConcat(SELECT_VIDEOS, Filter(userId, search), '?');
    OccurrencesConcat(SELECT_VIDEOS + Filter(userId, search), PAGE, '?');
  }

  /**
   * `GET /api/videos?limit=…&offset=…&search=…&userId=…`: the query text and
   * its parameters, built up as the handler builds them. Every `?` has
   * exactly one parameter; a user id outranks the search text, which is
   * bound twice wrapped in `%`; limit and offset are always the last two.
   */
  method ListVideosQuery(hasDb: bool, limitParam: Option<string>, offsetParam: Option<string>,
                         searchParam: Option<string>, userIdParam: Option<string>)
    returns (r: Response<(string, seq<Param>)>)
    ensures r.Failure? <==> !hasDb
    ensures r.Failure? ==> r == Failure(500, "Database connection failed")
    ensures r.Json? ==> (r.status == 200 && Occurrences(r.value.0, '?') == |r.value.1|
      && r.value.0 == SELECT_VIDEOS + Filter(userIdParam, OrEmpty(searchParam)) + PAGE)
    ensures r.Json? ==> (|r.value.1| >= 2
      && r.value.1[|r.value.1| - 2..] == [Num(PageParam(limitParam, 20)), Num(PageParam(offsetParam, 0))])
    ensures r.Json? && Truthy(userIdParam) ==> |r.value.1| == 3 && r.value.1[0] == Str(userIdParam.value)
    ensures r.Json? && !Truthy(userIdParam) && Truthy(searchParam) ==>
      (var pattern := Str("%" + searchParam.value + "%");
      |r.value.1| == 4 && r.value.1[0] == pattern && r.value.1[1] == pattern)
    ensures r.Json? && !Truthy(userIdParam) && !Truthy(searchParam) ==> |r.value.1| == 2
  {
    if !hasDb {
      return Failure(500, "Database connection failed");
    }
    var limit := PageParam(limitParam, 20);
    var offset := PageParam(offsetParam, 0);
    var search := OrEmpty(searchParam);
    var query := SELECT_VIDEOS;
    var params: seq<Param> := [];
    if Truthy(userIdParam) {
      query := query + BY_USER;
      params := params + [Str(userIdParam.value)];
    } else if search != "" {
      query := query + BY_SEARCH;
      params := params + [Str("%" + search + "%"), Str("%" + search + "%")];
    } else {
      assert query == SELECT_VIDEOS + "";
    }
    query := query + PAGE;
    params := params + [Num(limit), Num(offset)];
    QueryMarks(userIdParam, search);
    r := Json(200, (query, params));
  }

  /**
   * A missing parameter reads as its fallback numeral would: without
   * parameters a page is the first 20 videos, from offset 0.
   */
  lemma DefaultPage(fallback: nat)
    ensures PageParam(None, fallback) == ParseInt(IntToString(fallback))
    ensures PageParam(Some(""), fallback) == Some(fallback)
  {
    ParseIntRoundTrip(fallback);
  }

  /** The fields of the upload form; a missing field is `None`. */
  datatype VideoForm = VideoForm(title: Option<string>, description: Option<string>, duration: Option<string>,
                                 video: Option<Upload>, thumbnail: Option<Upload>)

  /** A row of `videos`. */
  datatype VideoRow = VideoRow(id: int, userId: int, title: string, description: string, videoUrl: string,
                               thumbnailUrl: Option<string>, thumbnail: Option<string>, duration: int, createdAt: int)

  /**
   * The checks of `POST /api/videos` in their order; `configured` says the
   * database and the bucket are both bound, `form` is `None` when the form
   * cannot be read.
   */
  function UploadRefusal(configured: bool, user: Option<Claims>, form: Option<VideoForm>): (e: Option<(int, string)>)
    ensures !configured ==> e == Some((500, "Server configuration error: Database or Storage missing"))
    ensures configured && user.None? ==> e == Some((401, "Unauthorized"))
    ensures configured && user.Some? && form.None? ==> e == Some((500, "Upload failed"))
    ensures configured && user.Some? && form.Some? && (!Truthy(form.value.title) || form.value.video.None?)
      ==> e == Some((400, "Title and video are required"))
    ensures (configured && user.Some? && form.Some? && Truthy(form.value.title) && form.value.video.Some?
      && Trim(SanitizeInput(form.value.title.value, 200)) == "") ==> e == Some((400, "Title cannot be empty"))
    ensures e.None? <==> (configured && user.Some? && form.Some? && Truthy(form.value.title)
      && form.value.video.Some? && Trim(SanitizeInput(form.value.title.value, 200)) != "")
  {
    if !configured then Some((500, "Server configuration error: Database or Storage missing"))
    else if user.None? then Some((401, "Unauthorized"))
    else if form.None? then Some((500, "Upload failed"))
    else if !Truthy(form.value.title) || form.value.video.None? then Some((400, "Title and video are required"))
    else if Trim(SanitizeInput(form.value.title.value, 200)) == "" then Some((400, "Title cannot be empty"))
    else None
  }

  /** `videos/{userId}/{timestamp}.{ext}`: under the user's folder, keeping the extension of the uploaded file. */
  function VideoKey(userId: int, timestamp: int, file: Upload): (key: string)
    ensures StartsWith(key, "videos/" + IntToString(userId) + "/")
    ensures Extension(key) == Extension(file.name)
  {
    var folder := "videos/" + IntToString(userId) + "/";
    var stem := folder + IntToString(timestamp);
    ExtensionOf(stem, Extension(file.name));
    assert (stem + "." + Extension(file.name))[..|folder|] == folder;
    stem + "." + Extension(file.name)
  }

  /** `thumbnails/{userId}/{timestamp}.{ext}`, or `null` without a thumbnail. */
  function ThumbnailKey(userId: int, timestamp: int, file: Option<Upload>): (key: Option<string>)
    ensures key.Some? <==> file.Some?
  {
    if file.Some? then Some("thumbnails/" + IntToString(userId) + "/" + IntToString(timestamp) + "." + Extension(file.value.name))
    else None
  }

  /**
   * `parseInt(durationStr) || 0`: `NaN`, which a missing field also gives,
   * becomes 0; a field of digits is read as the number it denotes.
   */
  function Duration(field: Option<string>): (n: int)
    ensures field.None? ==> n == 0
    ensures field.Some? && ParseInt(field.value).None? ==> n == 0
    ensures field.Some? && field.value != "" && AllDigits(field.value, 10) ==> n == ValueOf(field.value, 10)
  {
    DigitsRead(field);
    if field.None? then 0
    else match ParseInt(field.value)
      case None => 0
      case Some(n) => n
  }

  /** A field of decimal digits is read in full by `parseInt`. */
  lemma DigitsRead(field: Option<string>)
    ensures field.Some? && field.value != "" && AllDigits(field.value, 10) ==> ParseInt(field.value) == Some(ValueOf(field.value, 10))
  {
    if field.Some? && field.value != "" && AllDigits(field.value, 10) {
      var s := field.value;
      DigitPrefixAll(s, 10);
      assert s[..|s|] == s;
      assert !(|s| >= 2 && s[0] == '0' && (s[1] == 'x' || s[1] == 'X'));
      ParseIntUnsigned(s, ValueOf(s, 10));
    }
  }

  /** A duration sent as a plain numeral is stored as that number; one that is not a number is stored as 0. */
  lemma DurationReadBack(n: int)
    ensures Duration(Some(IntToString(n))) == n
  {
    ParseIntRoundTrip(n);
  }

  /** The keys an upload writes: the video's, and the thumbnail's when one was sent. */
  function NewKeys(id: int, nowMs: int, video: Upload, thumbnail: Option<Upload>): set<string> {
    {VideoKey(id, nowMs, video)} + if thumbnail.Some? then {ThumbnailKey(id, nowMs, thumbnail).value} else {}
  }

  /**
   * The bucket after the `put` of the video and, when one was sent, of the
   * thumbnail: both files under their keys, every other object as it was.
   */
  function Stored(objects: map<string, Upload>, id: int, nowMs: int, video: Upload, thumbnail: Option<Upload>)
    : (m: map<string, Upload>)
    ensures m.Keys == objects.Keys + NewKeys(id, nowMs, video, thumbnail)
    ensures forall k :: k in objects && k !in NewKeys(id, nowMs, video, thumbnail) ==> m[k] == objects[k]
    ensures m[VideoKey(id, nowMs, video)] == video
    ensures thumbnail.Some? ==> m[ThumbnailKey(id, nowMs, thumbnail).value] == thumbnail.value
  {
    var withVideo := objects[VideoKey(id, nowMs, video) := video];
    if thumbnail.Some? then
      ThumbnailKeyDiffers(id, nowMs, video, thumbnail.value);
      withVideo[ThumbnailKey(id, nowMs, thumbnail).value := thumbnail.value]
    else withVideo
  }

  /**
   * `POST /api/videos` at time `nowMs`, over the rows, the counter `lastId`
   * and the bucket's objects: the answer, the rows and the objects afterwards.
   */
  function UploadEffect(configured: bool, user: Option<Claims>, form: Option<VideoForm>,
                        rows: seq<VideoRow>, lastId: int, objects: map<string, Upload>, nowMs: int)
    : (o: (Response<VideoRow>, seq<VideoRow>, map<string, Upload>))
    ensures o.0.Failure? <==> UploadRefusal(configured, user, form).Some?
    ensures o.0.Failure? ==> ((o.0.status, o.0.error) == UploadRefusal(configured, user, form).value
      && o.1 == rows && o.2 == objects)
    ensures o.0.Json? ==> o.0.status == 201 && o.1 == rows + [o.0.value] && o.0.value.id == lastId + 1
    ensures o.0.Json? ==> (form.Some? && form.value.video.Some? && user.Some?
      && o.2 == Stored(objects, user.value.id, nowMs, form.value.video.value, form.value.thumbnail))
  {
    if UploadRefusal(configured, user, form).Some? then
      var e := UploadRefusal(configured, user, form).value;
      (Failure(e.0, e.1), rows, objects)
    else
      var f, id := form.value, user.value.id;
      var videoKey := VideoKey(id, nowMs, f.video.value);
      var thumbnailKey := ThumbnailKey(id, nowMs, f.thumbnail);
      var stored := Stored(objects, id, nowMs, f.video.value, f.thumbnail);
      var thumbnailUrl := if thumbnailKey.Some? then Some(R2Url(thumbnailKey.value)) else None;
      var row := VideoRow(lastId + 1, id, SanitizeInput(f.title.value, 200), SanitizeInput(OrEmpty(f.description), 5000),
                          R2Url(videoKey), thumbnailUrl, thumbnailUrl, Duration(f.duration), nowMs);
      (Json(201, row), rows + [row], stored)
  }

  /**
   * An accepted upload inserts a row of the user with a non-blank title of at
   * most 200 characters and a description of at most 5000, whose URLs name
   * the objects just stored: the video always, the thumbnail exactly when
   * one was sent, in both thumbnail columns.
   */
  lemma UploadPointsAtStoredObjects(configured: bool, user: Option<Claims>, form: Option<VideoForm>,
                                    rows: seq<VideoRow>, lastId: int, objects: map<string, Upload>, nowMs: int)
    requires UploadEffect(configured, user, form, rows, lastId, objects, nowMs).0.Json?
    ensures var o := UploadEffect(configured, user, form, rows, lastId, objects, nowMs);
      var row, f, id := o.0.value, form.value, user.value.id;
      && row.userId == id && row.createdAt == nowMs
      && row.title == SanitizeInput(f.title.value, 200) && row.description == SanitizeInput(OrEmpty(f.description), 5000)
      && Trim(row.title) != "" && |row.title| <= 200 && |row.description| <= 5000
      && row.duration == Duration(f.duration)
      && row.videoUrl == R2Url(VideoKey(id, nowMs, f.video.value))
      && VideoKey(id, nowMs, f.video.value) in o.2 && o.2[VideoKey(id, nowMs, f.video.value)] == f.video.value
      && (row.thumbnailUrl.Some? <==> f.thumbnail.Some?) && row.thumbnail == row.thumbnailUrl
      && (f.thumbnail.Some? ==> (var key := ThumbnailKey(id, nowMs, f.thumbnail).value;
           row.thumbnailUrl == Some(R2Url(key)) && key in o.2 && o.2[key] == f.thumbnail.value))
  {
    var f, id := form.value, user.value.id;
    if f.thumbnail.Some? {
      ThumbnailKeyDiffers(id, nowMs, f.video.value, f.thumbnail.value);
    }
  }

  /** The video and its thumbnail never share a key, so storing the thumbnail keeps the video. */
  lemma ThumbnailKeyDiffers(id: int, nowMs: int, video: Upload, thumbnail: Upload)
    ensures VideoKey(id, nowMs, video) != ThumbnailKey(id, nowMs, Some(thumbnail)).value
  {
    var v, t := VideoKey(id, nowMs, video), ThumbnailKey(id, nowMs, Some(thumbnail)).value;
    assert v[0] == 'v' && t[0] == 't';
  }

  /** The PRIMARY KEY of `videos` and its AUTOINCREMENT counter. */
  predicate ValidRows(rows: seq<VideoRow>, lastId: int) {
    lastId >= 0
    && (forall i :: 0 <= i < |rows| ==> 0 < rows[i].id <= lastId)
    && forall i, j :: 0 <= i < j < |rows| ==> rows[i].id != rows[j].id
  }

  /** Appending a row under the next id keeps ids unique and below the counter. */
  lemma AppendFresh(rows: seq<VideoRow>, lastId: int, row: VideoRow)
    requires ValidRows(rows, lastId) && row.id == lastId + 1
    ensures ValidRows(rows + [row], lastId + 1)
  {
    var after := rows + [row];
    assert forall i :: 0 <= i < |rows| ==> after[i] == rows[i];
  }

  lemma UploadKeepsValid(configured: bool, user: Option<Claims>, form: Option<VideoForm>,
                         rows: seq<VideoRow>, lastId: int, objects: map<string, Upload>, nowMs: int)
    requires ValidRows(rows, lastId)
    ensures var o := UploadEffect(configured, user, form, rows, lastId, objects, nowMs);
      ValidRows(o.1, if o.0.Json? then lastId + 1 else lastId)
  {
    var o := UploadEffect(configured, user, form, rows, lastId, objects, nowMs);
    if o.0.Json? {
      AppendFresh(rows, lastId, o.0.value);
    }
  }

  /** The `videos` table, its counter, and the media bucket. */
  class VideoStore {
    var rows: seq<VideoRow>
    var lastId: int
    var objects: map<string, Upload>

    predicate Valid()
      reads this
    {
      ValidRows(rows, lastId)
    }

    constructor()
      ensures rows == [] && lastId == 0 && objects == map[] && Valid()
    {
      rows := [];
      lastId := 0;
      objects := map[];
    }

    /** `POST /api/videos` at time `nowMs`. */
    method Upload(configured: bool, user: Option<Claims>, form: Option<VideoForm>, nowMs: int) returns (r: Response<VideoRow>)
      requires Valid()
      modifies this
      ensures Valid()
      ensures (r, rows, objects) == UploadEffect(configured, user, form, old(rows), old(lastId), old(objects), nowMs)
      ensures lastId == if r.Json? then old(lastId) + 1 else old(lastId)
    {
      var before, last := rows, lastId;
      var o := UploadEffect(configured, user, form, before, last, objects, nowMs);
      UploadKeepsValid(configured, user, form, before, last, objects, nowMs);
      var next := if o.0.Json? then last + 1 else last;
      assert ValidRows(o.1, next);
      r, rows, lastId, objects := o.0, o.1, next, o.2;
    }
  }
}
