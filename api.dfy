/** What the route handlers share: their JSON responses, uploaded files and storage URLs. */
module Api {
  import opened Wrappers
  import opened Text

  /** `json(value, { status })` on success, `json({ error }, { status })` on failure. */
  datatype Response<T> = Json(status: int, value: T) | Failure(status: int, error: string)

  /** A request field or query parameter used as a condition: a missing value, `null` and "" are all falsy. */
  predicate Truthy(v: Option<string>) {
    v.Some? && v.value != ""
  }

  /** `value || ''`. */
  function OrEmpty(v: Option<string>): string {
    if v.Some? then v.value else ""
  }

  /**
   * `SELECT … WHERE <p> … .first()` over rows in table order: the index of
   * the first row satisfying `p`, or `|rows|` when none does.
   */
  function FirstIndex<T>(rows: seq<T>, p: T -> bool): (k: nat)
    ensures k <= |rows|
    ensures forall i :: 0 <= i < k ==> !p(rows[i])
    ensures k < |rows| ==> p(rows[k])
  {
    if |rows| == 0 then 0
    else if p(rows[0]) then 0
    else 1 + FirstIndex(rows[1..], p)
  }

  /** A `File` of a form: its name and size in bytes. */
  datatype Upload = Upload(name: string, size: int)

  /**
   * `name.split('.').pop()`: the text after the last dot, or the whole name
   * when it has none.
   */
  function Extension(name: string): (ext: string)
    ensures '.' !in ext
    ensures '.' !in name ==> ext == name
    ensures '.' in name ==> |ext| < |name| && name == name[..|name| - |ext| - 1] + "." + ext
  {
    SplitLast(name, '.');
    var parts := Split(name, '.');
    assert '.' in name ==> name == name[..|name| - |parts[|parts| - 1]| - 1] + "." + parts[|parts| - 1];
    Last(parts)
  }

  /** A key written as `prefix.ext`, with `ext` free of dots, has extension `ext`: the key keeps the file's extension. */
  lemma ExtensionOf(prefix: string, ext: string)
    requires '.' !in ext
    ensures Extension(prefix + "." + ext) == ext
  {
    var key := prefix + "." + ext;
    var e := Extension(key);
    assert key[|key| - |ext| - 1] == '.';
    assert '.' in key;
    assert |e| == |ext| by {
      assert forall i :: |key| - |ext| <= i < |key| ==> key[i] != '.';
      assert forall i :: |key| - |e| <= i < |key| ==> key[i] != '.';
      assert key[|key| - |e| - 1] == '.';
    }
    assert key[|key| - |e|..] == e && key[|key| - |ext|..] == ext;
  }

  /** The URL under which the Worker serves an R2 object. */
  function R2Url(key: string): (url: string)
    ensures StartsWith(url, "/r2/") && url[4..] == key
  {
    "/r2/" + key
  }
}
