/**
  The record key of a like, read from its `at://` URI before the like
  record is deleted. The URI has the form `at://<repo>/<collection>/<rkey>`.
  A record key is valid as the AT Protocol's record-key syntax says: 1 to
  512 characters from `A-Z a-z 0-9 . - _ : ~`, and neither `.` nor `..`.
 */
module AtUri {
  import opened Wrappers
  import opened Text

  const Scheme: string := "at://"

  /** Why no record key could be read from a URI. */
  datatype RkeyError =
    | InvalidPrefix   // the URI does not start with `at://`
    | MissingRkey     // fewer than three `/`-separated parts
    | InvalidRkey     // the third part is not a valid record key

  /** The leftmost `c` in `s` at or after `from`. */
  function IndexOf(s: string, c: char, from: nat): (r: Option<nat>)
    ensures r.Some? ==> from <= r.value < |s| && s[r.value] == c
                        && forall k :: from <= k < r.value ==> s[k] != c
    ensures r.None? ==> forall k :: from <= k < |s| ==> s[k] != c
    decreases |s| - from
  {
    if from >= |s| then None
    else if s[from] == c then Some(from)
    else IndexOf(s, c, from + 1)
  }

  /** `str::splitn(3, '/')`: split at the first two `/`, the last part
      keeping any further ones. */
  function SplitN3(s: string): (parts: seq<string>)
    ensures 1 <= |parts| <= 3
    ensures |parts| < 3 ==> forall k :: 0 <= k < |parts| ==> '/' !in parts[k]
  {
    match IndexOf(s, '/', 0)
    case None => [s]
    case Some(i) =>
      match IndexOf(s, '/', i + 1)
      case None => [s[..i], s[i + 1..]]
      case Some(j) => [s[..i], s[i + 1..j], s[j + 1..]]
  }

  predicate RkeyChar(c: char) {
    ('A' <= c <= 'Z') || ('a' <= c <= 'z') || ('0' <= c <= '9')
    || c == '.' || c == '-' || c == '_' || c == ':' || c == '~'
  }

  /** `RecordKey`'s syntax. */
  predicate ValidRkey(k: string) {
    1 <= |k| <= 512 && (forall i :: 0 <= i < |k| ==> RkeyChar(k[i])) && k != "." && k != ".."
  }

  /** The prefix check, the split and the record-key parse of
      `bluesky_delete_older_favs`. */
  function Rkey(uri: string): (r: Result<string, RkeyError>)
    ensures r == Err(InvalidPrefix) <==> !StartsWith(uri, Scheme)
    ensures r.Ok? ==> ValidRkey(r.value) && '/' !in r.value
  {
    if !StartsWith(uri, Scheme) then Err(InvalidPrefix)
    else
      var parts := SplitN3(uri[|Scheme|..]);
      if |parts| < 3 then Err(MissingRkey)
      else if ValidRkey(parts[2]) then Ok(parts[2])
      else Err(InvalidRkey)
  }

  /** The URI of a record. */
  function RecordUri(repo: string, collection: string, rkey: string): string {
    Scheme + repo + "/" + collection + "/" + rkey
  }

  /** The `c` after a part without one is the first from where the part
      starts. */
  lemma FirstAfterPart(pre: string, part: string, c: char, tail: string)
    requires c !in part
    ensures IndexOf(pre + part + [c] + tail, c, |pre|) == Some(|pre| + |part|)
  {
    var s := pre + part + [c] + tail;
    var r := IndexOf(s, c, |pre|);
    assert s[|pre| + |part|] == c;
    forall k | |pre| <= k < |pre| + |part|
      ensures s[k] != c
    {
      assert s[k] == part[k - |pre|];
    }
  }

  /** Three parts, the first two without `/`, split back into
      themselves. */
  lemma SplitOfParts(repo: string, collection: string, rkey: string)
    requires '/' !in repo && '/' !in collection
    ensures SplitN3(repo + "/" + collection + "/" + rkey) == [repo, collection, rkey]
  {
    var rest := repo + "/" + collection + "/" + rkey;
    var i := |repo|;
    var j := |repo| + 1 + |collection|;
    FirstAfterPart([], repo, '/', collection + "/" + rkey);
    assert [] + repo + ['/'] + (collection + "/" + rkey) == rest;
    FirstAfterPart(repo + "/", collection, '/', rkey);
    assert repo + "/" + collection + ['/'] + rkey == rest;
    assert rest[..i] == repo && rest[i + 1..j] == collection && rest[j + 1..] == rkey;
  }

  /** The record key is found again in the URI it is part of. */
  lemma RkeyOfRecordUri(repo: string, collection: string, rkey: string)
    requires '/' !in repo && '/' !in collection
    ensures Rkey(RecordUri(repo, collection, rkey)) == if ValidRkey(rkey) then Ok(rkey) else Err(InvalidRkey)
  {
    var uri := RecordUri(repo, collection, rkey);
    var rest := repo + "/" + collection + "/" + rkey;
    assert uri == Scheme + rest;
    assert uri[..|Scheme|] == Scheme && uri[|Scheme|..] == rest;
    SplitOfParts(repo, collection, rkey);
  }
}
