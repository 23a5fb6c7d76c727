/**
 * The YouTube side: the video id of a watch or short URL, the cache file of
 * a video and its one-hour freshness, and `get_video_comments`, which
 * answers from a fresh non-empty cache or pages through the comment
 * threads. The file system is a map from path to parsed JSON contents, the
 * clock is the parameter `now`, and the API's answers are a finite sequence
 * of responses: the k-th page request gets the k-th response, and a request
 * beyond the last one fails.
 */
module YoutubeApi {
  import opened Wrappers
  import opened PyStr

  // -------------------------------------------------------------- video id

  const WatchMarker := "youtube.com/watch?v="
  const ShortMarker := "youtu.be/"

  /** An occurrence of the watch marker holds an occurrence of `v=`. */
  lemma WatchHasV(url: string)
    requires Contains(url, WatchMarker)
    ensures Contains(url, "v=")
  {
    var i: nat :| i <= |url| && OccursAt(url, WatchMarker, i);
    OccursWithin(url, WatchMarker, i, 18, "v=");
    assert OccursAt(url, "v=", i + 18);
  }

  /** `url.split('v=')[1].split('&')[0]` for a URL that holds `v=`. */
  function WatchId(url: string): string
    requires Contains(url, "v=")
  {
    Split(Split(url, "v=")[1], "&")[0]
  }

  /**
   * `get_video_id`: a watch URL gives the text after its first `v=`, cut at
   * the first `&`; otherwise a short URL gives its last `/`-separated
   * segment; any other URL gives `None`.
   */
  function GetVideoId(url: string): (id: Option<string>)
    ensures id.None? <==> !Contains(url, WatchMarker) && !Contains(url, ShortMarker)
  {
    if Contains(url, WatchMarker) then
      WatchHasV(url);
      Some(WatchId(url))
    else if Contains(url, ShortMarker) then
      var parts := Split(url, "/");
      Some(parts[|parts| - 1])
    else None
  }

  /** The watch branch cuts the text after the first `v=` at the next `v=` and then at the first `&`. */
  lemma WatchIdIsCut(url: string)
    requires Contains(url, "v=")
    ensures Find(url, "v=").value + 2 <= |url|
    ensures WatchId(url) == Split(Split(url[Find(url, "v=").value + 2..], "v=")[0], "&")[0]
  {
    var i := Find(url, "v=").value;
    assert Split(url, "v=")[1] == Split(url[i + 2..], "v=")[0];
  }

  /** The text before the first `v=`, cut at the first `&`: a prefix with neither, ending where one of them starts. */
  lemma CutShape(s: string)
    ensures Split(Split(s, "v=")[0], "&")[0] <= s
    ensures !Contains(Split(Split(s, "v=")[0], "&")[0], "&")
    ensures !Contains(Split(Split(s, "v=")[0], "&")[0], "v=")
    ensures var e := |Split(Split(s, "v=")[0], "&")[0]|;
      e == |s| || s[e] == '&' || OccursAt(s, "v=", e)
  {
    var h := Split(s, "v=")[0];
    SplitHead(s, "v=");
    var id := Split(h, "&")[0];
    SplitHead(h, "&");
    NotContainsPrefix(id, h, "v=");
    if |id| < |h| {
      assert h[|id|..|id| + 1] == "&";
      assert s[|id|] == h[|id|] == '&';
    }
  }

  /**
   * A URL holding the watch marker takes the watch branch, whatever else it
   * holds. Its id starts right after the first `v=` of the URL, contains no
   * `&` and no `v=`, and ends at the end of the URL, at an `&` or at the next
   * `v=`.
   */
  lemma WatchIdShape(url: string)
    requires Contains(url, WatchMarker)
    ensures Contains(url, "v=") && GetVideoId(url).Some?
    ensures Find(url, "v=").value + 2 <= |url|
    ensures GetVideoId(url).value <= url[Find(url, "v=").value + 2..]
    ensures !Contains(GetVideoId(url).value, "&") && !Contains(GetVideoId(url).value, "v=")
    ensures var e := Find(url, "v=").value + 2 + |GetVideoId(url).value|;
      e == |url| || url[e] == '&' || OccursAt(url, "v=", e)
  {
    WatchHasV(url);
    WatchIdIsCut(url);
    var p := Find(url, "v=").value + 2;
    var tail := url[p..];
    CutShape(tail);
    var id := GetVideoId(url).value;
    if p + |id| < |url| && url[p + |id|] != '&' {
      assert OccursAt(tail, "v=", |id|);
      OccursInSuffix(url, "v=", p, |id|);
    }
  }

  /** In a canonical watch URL the first `v=` is the one of the marker. */
  lemma CanonicalWatchUrl(tail: string)
    ensures Contains("https://www.youtube.com/watch?v=" + tail, WatchMarker)
    ensures Find("https://www.youtube.com/watch?v=" + tail, "v=") == Some(30)
    ensures ("https://www.youtube.com/watch?v=" + tail)[32..] == tail
  {
    CanonicalHasMarker(tail);
    CanonicalFirstV(tail);
  }

  lemma CanonicalHasMarker(tail: string)
    ensures Contains("https://www.youtube.com/watch?v=" + tail, WatchMarker)
  {
    assert "https://www.youtube.com/watch?v=" == "https://www." + WatchMarker;
    assert "https://www.youtube.com/watch?v=" + tail == "https://www." + WatchMarker + tail;
    OccursAfter("https://www.", WatchMarker, tail);
  }

  lemma CanonicalFirstV(tail: string)
    ensures Find("https://www.youtube.com/watch?v=" + tail, "v=") == Some(30)
  {
    var x := "https://www.youtube.com/watch?";
    assert x + "v=" + tail == "https://www.youtube.com/watch?v=" + tail;
    FindAfterFree(x, "v=", tail);
  }

  /** A prefix of `vid + query` longer than `vid` holds the `&` that starts `query`. */
  lemma PastIdHasAmp(vid: string, query: string, id: string)
    requires query == "" || query[0] == '&'
    requires id <= vid + query
    ensures |id| > |vid| ==> OccursAt(id, "&", |vid|)
  {
    if |id| > |vid| {
      assert id[|vid|] == query[0];
      assert id[|vid|..|vid| + 1] == "&";
    }
  }

  /** Inside an id without `&` and `=`, neither an `&` nor a `v=` starts. */
  lemma InsideIdNoCut(vid: string, query: string, e: nat)
    requires forall k :: 0 <= k < |vid| ==> vid[k] != '&' && vid[k] != '='
    requires query == "" || query[0] == '&'
    ensures e < |vid| ==> (vid + query)[e] != '&' && !OccursAt(vid + query, "v=", e)
  {
    if e < |vid| {
      var s := vid + query;
      assert s[e] == vid[e];
      if e + 2 <= |s| {
        assert s[e..e + 2][1] == s[e + 1];
        if e + 1 < |vid| {
          assert s[e + 1] == vid[e + 1];
        } else {
          assert s[e + 1] == query[0];
        }
      }
    }
  }

  /** An id without `&` and `=`, followed by nothing or by an `&`, is what the cut keeps. */
  lemma CutOfId(vid: string, query: string)
    requires forall k :: 0 <= k < |vid| ==> vid[k] != '&' && vid[k] != '='
    requires query == "" || query[0] == '&'
    ensures Split(Split(vid + query, "v=")[0], "&")[0] == vid
  {
    var s := vid + query;
    CutShape(s);
    var id := Split(Split(s, "v=")[0], "&")[0];
    PastIdHasAmp(vid, query, id);
    InsideIdNoCut(vid, query, |id|);
    assert |id| == |vid|;
    assert id == s[..|vid|] == vid;
  }

  /** A canonical watch URL gives back the id it was built from. */
  lemma WatchUrlId(vid: string, query: string)
    requires forall k :: 0 <= k < |vid| ==> vid[k] != '&' && vid[k] != '='
    requires query == "" || query[0] == '&'
    ensures GetVideoId("https://www.youtube.com/watch?v=" + vid + query) == Some(vid)
  {
    var url := "https://www.youtube.com/watch?v=" + (vid + query);
    assert url == "https://www.youtube.com/watch?v=" + vid + query;
    CanonicalWatchUrl(vid + query);
    WatchHasV(url);
    WatchIdIsCut(url);
    CutOfId(vid, query);
  }

  /**
   * A URL without the watch marker but with the short marker gives its last
   * `/`-separated segment: a suffix of the URL without `/`, which is the
   * whole URL or follows its last `/`. It may be empty, and it keeps any
   * query string.
   */
  lemma ShortIdShape(url: string)
    requires !Contains(url, WatchMarker) && Contains(url, ShortMarker)
    ensures GetVideoId(url).Some?
    ensures |GetVideoId(url).value| <= |url|
    ensures GetVideoId(url).value == url[|url| - |GetVideoId(url).value|..]
    ensures !Contains(GetVideoId(url).value, "/")
    ensures GetVideoId(url).value == url || url[|url| - |GetVideoId(url).value| - 1] == '/'
  {
    SplitLast(url, "/");
    SplitPartsAvoidSep(url, "/");
    var t := GetVideoId(url).value;
    if |t| < |url| {
      assert url[|url| - |t| - 1..|url| - |t|] == "/";
      assert url[|url| - |t| - 1..|url| - |t|][0] == url[|url| - |t| - 1];
    } else {
      assert url[0..] == url;
    }
  }

  /** A short URL whose path has no `/` does not hold the watch marker. */
  lemma ShortUrlNotWatch(vid: string)
    requires forall k :: 0 <= k < |vid| ==> vid[k] != '/'
    ensures !Contains("https://youtu.be/" + vid, WatchMarker)
    ensures Contains("https://youtu.be/" + vid, ShortMarker)
  {
    var head := "https://youtu.be/";
    var url := head + vid;
    forall j: nat | j <= |url|
      ensures !OccursAt(url, WatchMarker, j)
    {
      if j + |WatchMarker| <= |url| {
        if j + 11 >= |head| {
          assert url[j + 11] == vid[j + 11 - |head|];
          assert url[j..j + |WatchMarker|][11] != WatchMarker[11];
        } else {
          assert url[j] == head[j] && head[j] != 'y';
          assert url[j..j + |WatchMarker|][0] != WatchMarker[0];
        }
      }
    }
    assert url[8..8 + |ShortMarker|] == ShortMarker;
    assert OccursAt(url, ShortMarker, 8);
  }

  /** A suffix of `head + vid` longer than `vid` holds the final `/` of `head`. */
  lemma PastSegmentHasSlash(head: string, vid: string, t: string)
    requires head != [] && head[|head| - 1] == '/'
    requires |t| <= |head + vid| && t == (head + vid)[|head + vid| - |t|..]
    ensures |t| > |vid| ==> OccursAt(t, "/", |t| - |vid| - 1)
  {
    if |t| > |vid| {
      var url := head + vid;
      assert t[|t| - |vid| - 1] == url[|head| - 1];
      assert t[|t| - |vid| - 1..|t| - |vid|] == "/";
    }
  }

  /** A suffix of `head + vid` shorter than `vid` does not follow a `/`. */
  lemma InsideSegmentNoSlash(head: string, vid: string, n: nat)
    requires forall k :: 0 <= k < |vid| ==> vid[k] != '/'
    ensures n < |vid| ==> (head + vid)[|head + vid| - n - 1] != '/'
  {
    if n < |vid| {
      assert (head + vid)[|head + vid| - n - 1] == vid[|vid| - n - 1];
    }
  }

  /** After a final `/`, a segment without `/` is the last piece of the split. */
  lemma LastSegment(head: string, vid: string)
    requires head != [] && head[|head| - 1] == '/'
    requires forall k :: 0 <= k < |vid| ==> vid[k] != '/'
    ensures Split(head + vid, "/")[|Split(head + vid, "/")| - 1] == vid
  {
    var url := head + vid;
    SplitLast(url, "/");
    SplitPartsAvoidSep(url, "/");
    var parts := Split(url, "/");
    var t := parts[|parts| - 1];
    PastSegmentHasSlash(head, vid, t);
    InsideSegmentNoSlash(head, vid, |t|);
    if |t| < |url| {
      assert url[|url| - |t| - 1..|url| - |t|][0] == url[|url| - |t| - 1];
    }
    assert |t| == |vid|;
    assert t == url[|head|..] == vid;
  }

  /** A short URL gives back its path segment, query string included. */
  lemma ShortUrlId(vid: string)
    requires forall k :: 0 <= k < |vid| ==> vid[k] != '/'
    ensures GetVideoId("https://youtu.be/" + vid) == Some(vid)
  {
    ShortUrlNotWatch(vid);
    LastSegment("https://youtu.be/", vid);
  }

  // ----------------------------------------------------------------- cache

  const CacheDir := ".cache/youtube_comments"

  /** `os.path.join(a, b)` on POSIX: an absolute `b` replaces `a`. */
  function PathJoin(a: string, b: string): string
  {
    if b != [] && b[0] == '/' then b
    else if a == [] || a[|a| - 1] == '/' then a + b
    else a + "/" + b
  }

  /** `get_cache_file_path`: the `.json` file named after the video in the cache directory. */
  function CachePath(videoId: string): string
  {
    PathJoin(CacheDir, videoId + ".json")
  }

  /** The cache file sits in the cache directory, unless the id starts with `/`, which makes the path absolute. */
  lemma CachePathShape(videoId: string)
    ensures videoId != [] && videoId[0] == '/' ==> CachePath(videoId) == videoId + ".json"
    ensures videoId == [] || videoId[0] != '/' ==> CachePath(videoId) == CacheDir + "/" + videoId + ".json"
  {
  }

  /** Different videos never share a cache file. */
  lemma CachePathInjective(a: string, b: string)
    requires CachePath(a) == CachePath(b)
    ensures a == b
  {
    CachePathShape(a);
    CachePathShape(b);
    var path := CachePath(a);
    var n := |CacheDir| + 1;
    if a != [] && a[0] == '/' && b != [] && b[0] == '/' {
      assert a == path[..|path| - 5] == b;
    } else if (a == [] || a[0] != '/') && (b == [] || b[0] != '/') {
      assert a == path[n..|path| - 5] == b;
    }
  }

  /** A cache file as `json.load` reads it: the time it was written and the comments it holds. */
  datatype CacheFile = CacheFile(timestamp: real, comments: seq<string>)

  /** The file system: an existing path maps to its contents, `None` when they are not such a record. */
  type CacheFiles = map<string, Option<CacheFile>>

  /** Cached data younger than one hour is used: `time.time() - timestamp < 3600`. */
  predicate Fresh(now: real, timestamp: real)
  {
    now - timestamp < 3600.0
  }

  /** `get_cached_comments`: the comments of a fresh, readable cache file, else `None`. */
  function CachedComments(files: CacheFiles, now: real, videoId: string): Option<seq<string>>
  {
    var path := CachePath(videoId);
    if path in files && files[path].Some? && Fresh(now, files[path].value.timestamp) then Some(files[path].value.comments)
    else None
  }

  // ------------------------------------------------------------- paging

  /** One `commentThreads().list(...)` call: the video, the page size and the page token. */
  datatype PageRequest = PageRequest(videoId: string, maxResults: int, pageToken: Option<string>)

  /** The answer to a request: the comment texts of the page and its next-page token, or a raised error. */
  datatype Response = Page(items: seq<string>, nextPageToken: Option<string>) | Failure

  /** `if not next_page_token`: a page without a token, or with an empty one, is the last. */
  predicate Last(r: Response)
    requires r.Page?
  {
    !Truthy(r.nextPageToken)
  }

  /** Response `j` is a page with a next token: the loop goes on after it. */
  predicate Continues(pages: seq<Response>, j: int)
  {
    0 <= j < |pages| && pages[j].Page? && !Last(pages[j])
  }

  /** The comment texts of the pages, concatenated in page order. */
  function ItemsOf(pages: seq<Response>): seq<string>
  {
    if pages == [] then []
    else
      var last := pages[|pages| - 1];
      ItemsOf(pages[..|pages| - 1]) + (if last.Page? then last.items else [])
  }

  /** The requests a paging run sends, and the comments it collects unless a request fails. */
  datatype Fetch = Fetch(requests: seq<PageRequest>, comments: Option<seq<string>>)

  /**
   * The paging loop from response `k` on, with `acc` collected so far and
   * `token` the token of the next request.
   */
  function Paging(videoId: string, maxResults: int, pages: seq<Response>, k: nat, acc: seq<string>, token: Option<string>): Fetch
    decreases |pages| - k
  {
    if |acc| >= maxResults then Fetch([], Some(acc))
    else
      var request := PageRequest(videoId, Min(100, maxResults - |acc|), token);
      if k >= |pages| || pages[k].Failure? then Fetch([request], None)
      else
        var collected := acc + pages[k].items;
        if Last(pages[k]) then Fetch([request], Some(collected))
        else
          var rest := Paging(videoId, maxResults, pages, k + 1, collected, pages[k].nextPageToken);
          Fetch([request] + rest.requests, rest.comments)
  }

  /** The whole paging loop: no comments yet and no token. */
  function FetchAll(videoId: string, maxResults: int, pages: seq<Response>): Fetch
  {
    Paging(videoId, maxResults, pages, 0, [], None)
  }

  /** What `get_video_comments` returns, the requests it sends, and the comments it writes to the cache. */
  datatype Outcome = Outcome(comments: Option<seq<string>>, requests: seq<PageRequest>, stored: Option<seq<string>>)

  /** `get_video_comments(video_url, max_results)` with `YOUTUBE_API_KEY` set to `apiKey`. */
  function VideoComments(apiKey: Option<string>, url: string, maxResults: int, files: CacheFiles, now: real, pages: seq<Response>): Outcome
  {
    if !Truthy(apiKey) then Outcome(None, [], None)
    else
      var id := GetVideoId(url);
      if !Truthy(id) then Outcome(None, [], None)
      else
        var cached := CachedComments(files, now, id.value);
        if cached.Some? && cached.value != [] then Outcome(Some(SliceTo(cached.value, maxResults)), [], None)
        else
          var f := FetchAll(id.value, maxResults, pages);
          Outcome(if f.comments.Some? then Some(SliceTo(f.comments.value, maxResults)) else None, f.requests, f.comments)
  }

  /** `f` with `requests` sent before it. */
  function After(requests: seq<PageRequest>, f: Fetch): Fetch
  {
    Fetch(requests + f.requests, f.comments)
  }

  /** One page of the recursion: the request it makes and what follows it. */
  lemma PagingStep(videoId: string, maxResults: int, pages: seq<Response>, k: nat, acc: seq<string>, token: Option<string>)
    requires |acc| < maxResults
    ensures k >= |pages| || pages[k].Failure? ==>
      Paging(videoId, maxResults, pages, k, acc, token) == Fetch([PageRequest(videoId, Min(100, maxResults - |acc|), token)], None)
    ensures k < |pages| && pages[k].Page? && Last(pages[k]) ==>
      Paging(videoId, maxResults, pages, k, acc, token) == Fetch([PageRequest(videoId, Min(100, maxResults - |acc|), token)], Some(acc + pages[k].items))
    ensures k < |pages| && pages[k].Page? && !Last(pages[k]) ==>
      Paging(videoId, maxResults, pages, k, acc, token)
      == After([PageRequest(videoId, Min(100, maxResults - |acc|), token)], Paging(videoId, maxResults, pages, k + 1, acc + pages[k].items, pages[k].nextPageToken))
  {
  }

  /** The recursion stops without a request once `max_results` comments are in. */
  lemma PagingDone(videoId: string, maxResults: int, pages: seq<Response>, k: nat, acc: seq<string>, token: Option<string>)
    requires |acc| >= maxResults
    ensures Paging(videoId, maxResults, pages, k, acc, token) == Fetch([], Some(acc))
  {
  }

  lemma AfterAppend(requests: seq<PageRequest>, request: PageRequest, f: Fetch)
    ensures After(requests, After([request], f)) == After(requests + [request], f)
  {
    assert requests + ([request] + f.requests) == requests + [request] + f.requests;
  }

  lemma ItemsOfStep(pages: seq<Response>, k: nat)
    requires k < |pages| && pages[k].Page?
    ensures ItemsOf(pages[..k + 1]) == ItemsOf(pages[..k]) + pages[k].items
  {
    assert pages[..k + 1][..k] == pages[..k];
  }

  /**
   * `r` is what request `i` of a paging run from response `k` must be: it
   * asks for the page of response `k + i`, for the video, with
   * `min(100, max_results - len(comments))` and the token of the page
   * before, and it is sent only while fewer than `max_results` comments have
   * been collected.
   */
  predicate IsRequestFor(r: PageRequest, videoId: string, maxResults: int, pages: seq<Response>, k: nat, token: Option<string>, i: nat)
  {
    && k + i <= |pages|
    && (i > 0 ==> pages[k + i - 1].Page?)
    && |ItemsOf(pages[..k + i])| < maxResults
    && r == PageRequest(videoId, Min(100, maxResults - |ItemsOf(pages[..k + i])|), if i == 0 then token else pages[k + i - 1].nextPageToken)
  }

  /** Every request of a paging run from response `k` is the one its position calls for. */
  lemma {:induction false} PagingRequests(videoId: string, maxResults: int, pages: seq<Response>, k: nat, acc: seq<string>, token: Option<string>)
    requires k <= |pages| && acc == ItemsOf(pages[..k])
    ensures forall i :: 0 <= i < |Paging(videoId, maxResults, pages, k, acc, token).requests| ==>
      IsRequestFor(Paging(videoId, maxResults, pages, k, acc, token).requests[i], videoId, maxResults, pages, k, token, i)
    decreases |pages| - k
  {
    var f := Paging(videoId, maxResults, pages, k, acc, token);
    if |acc| < maxResults && k < |pages| && pages[k].Page? && !Last(pages[k]) {
      ItemsOfStep(pages, k);
      var collected := acc + pages[k].items;
      PagingRequests(videoId, maxResults, pages, k + 1, collected, pages[k].nextPageToken);
      var rest := Paging(videoId, maxResults, pages, k + 1, collected, pages[k].nextPageToken);
      assert f.requests == [PageRequest(videoId, Min(100, maxResults - |acc|), token)] + rest.requests;
      forall i | 0 <= i < |f.requests|
        ensures IsRequestFor(f.requests[i], videoId, maxResults, pages, k, token, i)
      {
        if i == 0 {
          assert pages[..k + i] == pages[..k];
        } else {
          assert f.requests[i] == rest.requests[i - 1];
          assert IsRequestFor(rest.requests[i - 1], videoId, maxResults, pages, k + 1, pages[k].nextPageToken, i - 1);
          assert (k + 1) + (i - 1) == k + i;
        }
      }
    } else if |acc| < maxResults {
      assert f.requests == [PageRequest(videoId, Min(100, maxResults - |acc|), token)];
      assert pages[..k + 0] == pages[..k];
    }
  }

  /**
   * How a paging run from response `k` ends: it sends nothing exactly when
   * `max_results` comments are already there; every page but the one of the
   * last request is a page with a next token; a run that succeeds collects
   * the items of the pages it requested, in page order, and stops at a last
   * page or at `max_results` comments; a run that fails stops at a failing
   * response or at a request beyond the responses.
   */
  lemma {:induction false} PagingOutcome(videoId: string, maxResults: int, pages: seq<Response>, k: nat, acc: seq<string>, token: Option<string>)
    requires k <= |pages| && acc == ItemsOf(pages[..k])
    ensures |Paging(videoId, maxResults, pages, k, acc, token).requests| == 0 <==> |acc| >= maxResults
    ensures k + |Paging(videoId, maxResults, pages, k, acc, token).requests| <= |pages| + 1
    ensures forall j :: k <= j < k + |Paging(videoId, maxResults, pages, k, acc, token).requests| - 1 ==> Continues(pages, j)
    ensures Paging(videoId, maxResults, pages, k, acc, token).comments.Some? ==>
      var n := k + |Paging(videoId, maxResults, pages, k, acc, token).requests|;
      && n <= |pages|
      && Paging(videoId, maxResults, pages, k, acc, token).comments.value == ItemsOf(pages[..n])
      && (n > k ==> pages[n - 1].Page? && (Last(pages[n - 1]) || |ItemsOf(pages[..n])| >= maxResults))
    ensures Paging(videoId, maxResults, pages, k, acc, token).comments.None? ==>
      var n := k + |Paging(videoId, maxResults, pages, k, acc, token).requests|;
      n > k && (n - 1 == |pages| || pages[n - 1].Failure?)
    decreases |pages| - k
  {
    if |acc| < maxResults && k < |pages| && pages[k].Page? {
      ItemsOfStep(pages, k);
      if !Last(pages[k]) {
        var collected := acc + pages[k].items;
        var f := Paging(videoId, maxResults, pages, k, acc, token);
        PagingOutcome(videoId, maxResults, pages, k + 1, collected, pages[k].nextPageToken);
        var rest := Paging(videoId, maxResults, pages, k + 1, collected, pages[k].nextPageToken);
        assert f.requests == [PageRequest(videoId, Min(100, maxResults - |acc|), token)] + rest.requests;
      }
    }
  }

  /** The cache does not answer: no fresh readable file, or one holding no comments. */
  predicate CacheMiss(files: CacheFiles, now: real, videoId: string)
  {
    var cached := CachedComments(files, now, videoId);
    cached.None? || cached.value == []
  }

  /** Without a key, or without a usable video id, there is no result, no request and no cache write. */
  lemma RejectedWithoutKeyOrId(apiKey: Option<string>, url: string, maxResults: int, files: CacheFiles, now: real, pages: seq<Response>)
    requires !Truthy(apiKey) || !Truthy(GetVideoId(url))
    ensures VideoComments(apiKey, url, maxResults, files, now, pages) == Outcome(None, [], None)
  {
  }

  /** A fresh cache file with comments answers alone: its first `max_results` comments, no request, no write. */
  lemma CacheHit(apiKey: Option<string>, url: string, maxResults: int, files: CacheFiles, now: real, pages: seq<Response>, cached: CacheFile)
    requires Truthy(apiKey) && Truthy(GetVideoId(url))
    requires CachePath(GetVideoId(url).value) in files && files[CachePath(GetVideoId(url).value)] == Some(cached)
    requires Fresh(now, cached.timestamp) && cached.comments != []
    ensures VideoComments(apiKey, url, maxResults, files, now, pages) == Outcome(Some(SliceTo(cached.comments, maxResults)), [], None)
  {
  }

  /** A cache file that cannot be read, is an hour old or older, or holds no comments counts as no file at all. */
  lemma UnusableCacheIgnored(apiKey: Option<string>, url: string, maxResults: int, files: CacheFiles, now: real, pages: seq<Response>)
    requires Truthy(GetVideoId(url)) && CachePath(GetVideoId(url).value) in files
    requires var file := files[CachePath(GetVideoId(url).value)];
      file.None? || now - file.value.timestamp >= 3600.0 || file.value.comments == []
    ensures VideoComments(apiKey, url, maxResults, files, now, pages)
      == VideoComments(apiKey, url, maxResults, files - {CachePath(GetVideoId(url).value)}, now, pages)
  {
  }

  /**
   * On a cache miss there is at most one request more than there are
   * responses, and every page request is for the video and asks for
   * `min(100, max_results - len(comments))` comments, between 1 and 100; it
   * is sent only while fewer than `max_results` comments are collected; the
   * first carries no token, and each later one follows a page with a next
   * token and carries that token.
   */
  lemma MissRequests(apiKey: Option<string>, url: string, maxResults: int, files: CacheFiles, now: real, pages: seq<Response>)
    requires Truthy(apiKey) && Truthy(GetVideoId(url)) && CacheMiss(files, now, GetVideoId(url).value)
    ensures |VideoComments(apiKey, url, maxResults, files, now, pages).requests| <= |pages| + 1
    ensures var o := VideoComments(apiKey, url, maxResults, files, now, pages);
      forall i :: 0 <= i < |o.requests| ==>
        && o.requests[i].videoId == GetVideoId(url).value
        && 1 <= o.requests[i].maxResults <= 100
        && o.requests[i].maxResults == Min(100, maxResults - |ItemsOf(pages[..i])|)
    ensures var o := VideoComments(apiKey, url, maxResults, files, now, pages);
      forall i :: 0 <= i < |o.requests| ==> |ItemsOf(pages[..i])| < maxResults
    ensures var o := VideoComments(apiKey, url, maxResults, files, now, pages);
      |o.requests| > 0 ==> o.requests[0].pageToken == None
    ensures var o := VideoComments(apiKey, url, maxResults, files, now, pages);
      forall j :: 0 <= j < |o.requests| - 1 ==> Continues(pages, j) && o.requests[j + 1].pageToken == pages[j].nextPageToken
  {
    var videoId := GetVideoId(url).value;
    var o := VideoComments(apiKey, url, maxResults, files, now, pages);
    assert o.requests == FetchAll(videoId, maxResults, pages).requests;
    PagingRequests(videoId, maxResults, pages, 0, [], None);
    PagingOutcome(videoId, maxResults, pages, 0, [], None);
    forall i | 0 <= i < |o.requests|
      ensures IsRequestFor(o.requests[i], videoId, maxResults, pages, 0, None, i)
    {
    }
    forall j | 0 <= j < |o.requests| - 1
      ensures o.requests[j + 1].pageToken == pages[j].nextPageToken
    {
      assert IsRequestFor(o.requests[j + 1], videoId, maxResults, pages, 0, None, j + 1);
    }
  }

  /**
   * On a cache miss the loop makes no request exactly when `max_results` is
   * not positive. If no
   * request fails, the comments written to the cache are the items of the
   * requested pages in page order, the loop stopped at a last page or at
   * `max_results` comments, and the result is their first `max_results` —
   * a prefix of all the pages' items, never longer than `max_results`. If
   * one fails, it is the last request, for a failing response or for one
   * beyond the responses, and nothing is returned or cached.
   */
  lemma MissOutcome(apiKey: Option<string>, url: string, maxResults: int, files: CacheFiles, now: real, pages: seq<Response>)
    requires Truthy(apiKey) && Truthy(GetVideoId(url)) && CacheMiss(files, now, GetVideoId(url).value)
    ensures var o := VideoComments(apiKey, url, maxResults, files, now, pages);
      && (|o.requests| == 0 <==> maxResults <= 0)
      && (o.comments.Some? <==> o.stored.Some?)
    ensures var o := VideoComments(apiKey, url, maxResults, files, now, pages);
      o.stored.Some? ==>
        && |o.requests| <= |pages|
        && o.stored.value == ItemsOf(pages[..|o.requests|])
        && (|o.requests| > 0 ==> pages[|o.requests| - 1].Page? && (Last(pages[|o.requests| - 1]) || |o.stored.value| >= maxResults))
        && o.comments.value == SliceTo(o.stored.value, maxResults)
        && o.comments.value <= ItemsOf(pages)
        && (maxResults >= 0 ==> |o.comments.value| <= maxResults)
    ensures var o := VideoComments(apiKey, url, maxResults, files, now, pages);
      o.stored.None? ==> 1 <= |o.requests| <= |pages| + 1 && (|o.requests| - 1 == |pages| || pages[|o.requests| - 1].Failure?)
  {
    var videoId := GetVideoId(url).value;
    var o := VideoComments(apiKey, url, maxResults, files, now, pages);
    assert o.requests == FetchAll(videoId, maxResults, pages).requests;
    assert o.stored == FetchAll(videoId, maxResults, pages).comments;
    PagingOutcome(videoId, maxResults, pages, 0, [], None);
    if o.stored.Some? {
      ItemsOfPrefix(pages, |o.requests|);
    }
  }

  /** The items of the first `n` pages lead the items of all of them. */
  lemma {:induction false} ItemsOfPrefix(pages: seq<Response>, n: nat)
    requires n <= |pages|
    ensures ItemsOf(pages[..n]) <= ItemsOf(pages)
    decreases |pages| - n
  {
    if n < |pages| {
      ItemsOfPrefix(pages, n + 1);
      assert pages[..n + 1][..n] == pages[..n];
    } else {
      assert pages[..n] == pages;
    }
  }

  /** The `while` loop of `get_video_comments`: page requests until a last page, a failure or enough comments. */
  method FetchComments(videoId: string, maxResults: int, pages: seq<Response>)
    returns (requests: seq<PageRequest>, fetched: Option<seq<string>>)
    ensures Fetch(requests, fetched) == FetchAll(videoId, maxResults, pages)
  {
    ghost var all := FetchAll(videoId, maxResults, pages);
    var comments: seq<string> := [];
    var token: Option<string> := None;
    var k := 0;
    requests := [];
    while |comments| < maxResults
      invariant 0 <= k <= |pages|
      invariant comments == ItemsOf(pages[..k])
      invariant all == After(requests, Paging(videoId, maxResults, pages, k, comments, token))
      decreases |pages| - k
    {
      var request := PageRequest(videoId, Min(100, maxResults - |comments|), token);
      PagingStep(videoId, maxResults, pages, k, comments, token);
      ghost var prior := requests;
      requests := requests + [request];
      if k >= |pages| || pages[k].Failure? {
        return requests, None;
      }
      var response := pages[k];
      ghost var before := comments;
      for j := 0 to |response.items|
        invariant comments == before + response.items[..j]
      {
        comments := comments + [response.items[j]];
      }
      assert response.items[..|response.items|] == response.items;
      ItemsOfStep(pages, k);
      token := response.nextPageToken;
      k := k + 1;
      if Last(response) {
        return requests, Some(comments);
      }
      AfterAppend(prior, request, Paging(videoId, maxResults, pages, k, comments, token));
    }
    PagingDone(videoId, maxResults, pages, k, comments, token);
    assert requests + [] == requests;
    fetched := Some(comments);
  }

  /** `get_video_comments`: the key and id checks, a fresh non-empty cache, else the paging loop. */
  method GetVideoComments(apiKey: Option<string>, url: string, maxResults: int, files: CacheFiles, now: real, pages: seq<Response>)
    returns (comments: Option<seq<string>>, requests: seq<PageRequest>, stored: Option<seq<string>>)
    ensures Outcome(comments, requests, stored) == VideoComments(apiKey, url, maxResults, files, now, pages)
  {
    if !Truthy(apiKey) {
      return None, [], None;
    }
    var id := GetVideoId(url);
    if !Truthy(id) {
      return None, [], None;
    }
    var videoId := id.value;
    var cached := CachedComments(files, now, videoId);
    if cached.Some? && cached.value != [] {
      return Some(SliceTo(cached.value, maxResults)), [], None;
    }
    var fetched;
    requests, fetched := FetchComments(videoId, maxResults, pages);
    stored := fetched;
    comments := if fetched.Some? then Some(SliceTo(fetched.value, maxResults)) else None;
  }
}
