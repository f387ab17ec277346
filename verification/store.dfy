/**
 * The two request handlers' decision logic: `fetch_video` (backend.py, lines
 * 272-322) runs the extractor, probes its candidates and writes the valid
 * ones into `video_cache`; `download_video` (lines 324-345) looks an entry up
 * again and decides, before any request, whether it can be streamed.
 */
module VideoStore {
  import opened Wrappers
  import opened PyText
  import opened ProbeRanker

  /** What the page extractor returns: the candidate URLs it collected, an
      error message, and the page metadata dictionary. */
  datatype Extraction = Extraction(
    mediaUrls: seq<string>,
    error: Option<string>,
    metadata: Option<map<string, string>>)

  /** One `video_cache` entry. */
  datatype VideoRecord = VideoRecord(title: string, thumbnail: string, qualities: seq<ProbeResult>)

  datatype FetchError =
    | NoUrlProvided               // 400
    | ExtractionFailed(message: string)  // 500
    | NoVideoUrlsFound            // 404
    | NoValidVideoUrls            // 404

  /** One element of the `qualities` list in the JSON reply. */
  datatype QualityView = QualityView(quality: string, size: SizeLabel, kind: string, isHls: bool, index: nat)

  datatype FetchResponse =
    | FetchFailed(error: FetchError)
    | FetchSucceeded(videoId: string, title: string, thumbnail: string, qualities: seq<QualityView>)

  /** How a `fetch_video` call ends: rejected, or with an entry to store under an id. */
  datatype Outcome = Rejected(error: FetchError) | Stored(videoId: string, record: VideoRecord)

  /** `metadata.get('title', 'Video') if metadata else 'Video'`. */
  function TitleOf(metadata: Option<map<string, string>>): string {
    if metadata.Some? && "title" in metadata.value then metadata.value["title"] else "Video"
  }

  /** `metadata.get('thumbnail', '') if metadata else ''`. */
  function ThumbnailOf(metadata: Option<map<string, string>>): string {
    if metadata.Some? && "thumbnail" in metadata.value then metadata.value["thumbnail"] else ""
  }

  /** `[p for p in probed if p['is_valid']]`. */
  function ValidOnly(rs: seq<ProbeResult>): seq<ProbeResult> {
    if rs == [] then []
    else (if rs[0].isValid then [rs[0]] else []) + ValidOnly(rs[1..])
  }

  /** Keeping the valid entries keeps exactly those (ValidOnlyWithKey says
      that their order is kept). */
  lemma {:induction false} ValidOnlyMembers(rs: seq<ProbeResult>)
    ensures forall x :: x in ValidOnly(rs) <==> x in rs && x.isValid
  {
    if rs != [] {
      ValidOnlyMembers(rs[1..]);
      assert rs == [rs[0]] + rs[1..];
    }
  }

  /** Filtering a list sorted by descending key leaves it sorted. */
  lemma {:induction false} ValidOnlySorted(rs: seq<ProbeResult>, key: ProbeResult -> nat)
    requires NonIncreasing(rs, key)
    ensures NonIncreasing(ValidOnly(rs), key)
  {
    if rs != [] {
      var tail := rs[1..];
      ValidOnlySorted(tail, key);
      ValidOnlyMembers(tail);
      var v := ValidOnly(rs);
      var w := ValidOnly(tail);
      if rs[0].isValid {
        assert v == [rs[0]] + w;
        forall j, k | 0 <= j < k < |v| ensures key(v[j]) >= key(v[k]) {
          assert v[k] == w[k - 1];
          if j == 0 {
            assert w[k - 1] in tail;
            var m :| 0 <= m < |tail| && tail[m] == v[k];
            assert rs[m + 1] == v[k];
          } else {
            assert v[j] == w[j - 1];
          }
        }
      }
    }
  }

  /** The filter keeps order: among the entries with any one key, the valid
      ones come out in the order they came in. */
  lemma {:induction false} ValidOnlyWithKey(rs: seq<ProbeResult>, key: ProbeResult -> nat, k: nat)
    ensures WithKey(ValidOnly(rs), key, k) == ValidOnly(WithKey(rs, key, k))
  {
    if rs != [] {
      var x := rs[0];
      var tail := rs[1..];
      ValidOnlyWithKey(tail, key, k);
      var v := ValidOnly(tail);
      var w := WithKey(tail, key, k);
      if x.isValid {
        assert ValidOnly(rs) == [x] + v;
        assert ([x] + v)[1..] == v;
      } else {
        assert ValidOnly(rs) == v;
      }
      if key(x) == k {
        assert WithKey(rs, key, k) == [x] + w;
        assert ([x] + w)[1..] == w;
      } else {
        assert WithKey(rs, key, k) == w;
      }
    }
  }

  /** Filtering a list without repeated URLs keeps it so. */
  lemma {:induction false} ValidOnlyDistinct(rs: seq<ProbeResult>)
    requires DistinctUrls(rs)
    ensures DistinctUrls(ValidOnly(rs))
  {
    if rs != [] {
      var tail := rs[1..];
      ValidOnlyDistinct(tail);
      ValidOnlyMembers(tail);
      var v := ValidOnly(rs);
      var w := ValidOnly(tail);
      if rs[0].isValid {
        assert v == [rs[0]] + w;
        forall j, k | 0 <= j < k < |v| ensures v[j].url != v[k].url {
          assert v[k] == w[k - 1];
          if j == 0 {
            assert w[k - 1] in tail;
            var m :| 0 <= m < |tail| && tail[m] == v[k];
            assert rs[m + 1] == v[k];
          } else {
            assert v[j] == w[j - 1];
          }
        }
      }
    }
  }

  /** The decision chain of `fetch_video` for a request whose `url` field is
      `rawUrl`: empty input, extractor error, no candidates, no valid
      candidate, else the entry to store. `extract` stands for the page
      extractor, `head` for the HEAD request and `idOf` for `str(hash(url))`. */
  function FetchOutcome(
    rawUrl: string,
    extract: string -> Extraction,
    head: string -> HeadReply,
    idOf: string -> string): Outcome
  {
    var url := Strip(rawUrl);
    if url == "" then Rejected(NoUrlProvided)
    else
      var ex := extract(url);
      // `if error:` is a truth test: an empty message does not count as an error.
      if ex.error.Some? && ex.error.value != "" then Rejected(ExtractionFailed(ex.error.value))
      else if ex.mediaUrls == [] then Rejected(NoVideoUrlsFound)
      else
        var valid := ValidOnly(ProbeAndRank(ex.mediaUrls, head));
        if valid == [] then Rejected(NoValidVideoUrls)
        else Stored(idOf(url), VideoRecord(TitleOf(ex.metadata), ThumbnailOf(ex.metadata), valid))
  }

  /** The `qualities` list of the reply: entry `i` is shown with index `i`. */
  function Views(qs: seq<ProbeResult>): (vs: seq<QualityView>)
    ensures |vs| == |qs|
    ensures forall i :: 0 <= i < |qs| ==>
              vs[i].index == i && vs[i].quality == qs[i].quality &&
              vs[i].isHls == qs[i].isHls && vs[i].size == qs[i].sizeReadable &&
              vs[i].kind == (if qs[i].isHls then "HLS" else "MP4")
  {
    seq(|qs|, i requires 0 <= i < |qs| =>
      QualityView(qs[i].quality, qs[i].sizeReadable, if qs[i].isHls then "HLS" else "MP4", qs[i].isHls, i))
  }

  /** The JSON reply for an outcome. */
  function Respond(outcome: Outcome): FetchResponse {
    match outcome
    case Rejected(e) => FetchFailed(e)
    case Stored(id, rec) => FetchSucceeded(id, rec.title, rec.thumbnail, Views(rec.qualities))
  }

  /** The checks run in order and the first failing one decides: blank input
      is rejected before the extractor is consulted, and an extractor error
      wins even when candidate URLs were collected. */
  lemma FetchChecksInOrder(
    rawUrl: string,
    extract: string -> Extraction,
    other: string -> Extraction,
    head: string -> HeadReply,
    idOf: string -> string)
    ensures (forall k :: 0 <= k < |rawUrl| ==> IsSpace(rawUrl[k])) ==>
              FetchOutcome(rawUrl, extract, head, idOf) == Rejected(NoUrlProvided) ==
              FetchOutcome(rawUrl, other, head, idOf)
    ensures var ex := extract(Strip(rawUrl));
            Strip(rawUrl) != "" && ex.error.Some? && ex.error.value != "" ==>
              FetchOutcome(rawUrl, extract, head, idOf) == Rejected(ExtractionFailed(ex.error.value))
    ensures var ex := extract(Strip(rawUrl));
            Strip(rawUrl) != "" && (ex.error.None? || ex.error.value == "") && ex.mediaUrls == [] ==>
              FetchOutcome(rawUrl, extract, head, idOf) == Rejected(NoVideoUrlsFound)
  {
  }

  /** What a stored entry holds: it is keyed by the id of the stripped URL,
      its title and thumbnail come from the metadata with their defaults, and
      its qualities are exactly the valid probe results of the candidates,
      each the probe of its own URL, at least one, sorted by descending
      quality, with no URL twice. */
  lemma StoredRecordContents(
    rawUrl: string,
    extract: string -> Extraction,
    head: string -> HeadReply,
    idOf: string -> string)
    requires FetchOutcome(rawUrl, extract, head, idOf).Stored?
    ensures var out := FetchOutcome(rawUrl, extract, head, idOf);
            var ex := extract(Strip(rawUrl));
            var qs := out.record.qualities;
            Strip(rawUrl) != "" && out.videoId == idOf(Strip(rawUrl)) &&
            (ex.error.None? || ex.error.value == "") &&
            out.record.title == TitleOf(ex.metadata) &&
            out.record.thumbnail == ThumbnailOf(ex.metadata) &&
            qs != [] && NonIncreasing(qs, Key) && DistinctUrls(qs) &&
            (forall q :: q in qs ==> q.isValid && q.url in ex.mediaUrls && ProbeOne(q.url, head) == Some(q)) &&
            (forall u :: u in ex.mediaUrls && ProbeOne(u, head).Some? && ProbeOne(u, head).value.isValid ==>
               ProbeOne(u, head).value in qs)
  {
    var ex := extract(Strip(rawUrl));
    var ranked := ProbeAndRank(ex.mediaUrls, head);
    ProbeAndRankContract(ex.mediaUrls, head);
    ValidOnlyMembers(ranked);
    ValidOnlySorted(ranked, Key);
    ValidOnlyDistinct(ranked);
  }

  /** The stored qualities with equal keys keep probe order: for each key,
      they are the valid entries of that key in the order their URLs first
      occur among the candidates (see ProbeOrder), so the reply index of each
      is fixed. */
  lemma StoredRecordOrder(
    rawUrl: string,
    extract: string -> Extraction,
    head: string -> HeadReply,
    idOf: string -> string)
    requires FetchOutcome(rawUrl, extract, head, idOf).Stored?
    ensures var ex := extract(Strip(rawUrl));
            var qs := FetchOutcome(rawUrl, extract, head, idOf).record.qualities;
            forall k :: WithKey(qs, Key, k) == ValidOnly(WithKey(ProbeEach(Dedup(ex.mediaUrls), ProbeWith(head)), Key, k))
  {
    var ex := extract(Strip(rawUrl));
    var probeOrder := ProbeEach(Dedup(ex.mediaUrls), ProbeWith(head));
    var ranked := ProbeAndRank(ex.mediaUrls, head);
    assert FetchOutcome(rawUrl, extract, head, idOf).record.qualities == ValidOnly(ranked);
    forall k ensures WithKey(ValidOnly(ranked), Key, k) == ValidOnly(WithKey(probeOrder, Key, k)) {
      SortStable(probeOrder, Key, k);
      ValidOnlyWithKey(ranked, Key, k);
    }
  }

  /** Candidates were collected but none is valid: every one of them either
      failed its probe or was found too small. */
  lemma NoValidMeansAllRejected(
    rawUrl: string,
    extract: string -> Extraction,
    head: string -> HeadReply,
    idOf: string -> string)
    requires FetchOutcome(rawUrl, extract, head, idOf) == Rejected(NoValidVideoUrls)
    ensures var ex := extract(Strip(rawUrl));
            ex.mediaUrls != [] &&
            forall u :: u in ex.mediaUrls ==> ProbeOne(u, head).None? || !ProbeOne(u, head).value.isValid
  {
    var ex := extract(Strip(rawUrl));
    ProbeAndRankContract(ex.mediaUrls, head);
    ValidOnlyMembers(ProbeAndRank(ex.mediaUrls, head));
  }

  // ---------------------------------------------------------------------
  // download_video, up to the first network access

  datatype DownloadPlan =
    | VideoNotFound                                // 404
    | InvalidQualityIndex                          // 400
    | HlsNeedsExternalTool(url: string)            // 400, with the URL
    | StreamFile(url: string, filename: string)    // GET the URL and stream it

  /** The checks `download_video` makes on the cache before any request.
      `qualityIndex` comes through Flask's `int` converter, so it is never
      negative. */
  function PlanDownload(cache: map<string, VideoRecord>, videoId: string, qualityIndex: nat): (plan: DownloadPlan)
    ensures plan == VideoNotFound <==> videoId !in cache
    ensures plan == InvalidQualityIndex <==>
              videoId in cache && qualityIndex >= |cache[videoId].qualities|
    ensures plan.HlsNeedsExternalTool? <==>
              videoId in cache && qualityIndex < |cache[videoId].qualities| &&
              cache[videoId].qualities[qualityIndex].isHls
    ensures plan.HlsNeedsExternalTool? || plan.StreamFile? ==>
              plan.url == cache[videoId].qualities[qualityIndex].url
    ensures plan.StreamFile? ==>
              plan.filename == "video_" + cache[videoId].qualities[qualityIndex].quality + ".mp4"
  {
    if videoId !in cache then VideoNotFound
    else
      var info := cache[videoId];
      if qualityIndex >= |info.qualities| then InvalidQualityIndex
      else
        var entry := info.qualities[qualityIndex];
        if entry.isHls then HlsNeedsExternalTool(entry.url)
        else StreamFile(entry.url, "video_" + entry.quality + ".mp4")
  }

  /** After a successful fetch has been stored, every index shown in its reply
      selects the stored entry at that position, HLS entries are refused with
      their URL, and every larger index is invalid. */
  lemma DownloadAfterFetch(
    cache: map<string, VideoRecord>,
    rawUrl: string,
    extract: string -> Extraction,
    head: string -> HeadReply,
    idOf: string -> string)
    requires FetchOutcome(rawUrl, extract, head, idOf).Stored?
    ensures var out := FetchOutcome(rawUrl, extract, head, idOf);
            var after := cache[out.videoId := out.record];
            var qs := out.record.qualities;
            var reply := Respond(out);
            reply.FetchSucceeded? && |reply.qualities| == |qs| &&
            (forall v :: v in reply.qualities ==>
               v.index < |qs| && v.quality == qs[v.index].quality &&
               PlanDownload(after, out.videoId, v.index) ==
                 (if qs[v.index].isHls then HlsNeedsExternalTool(qs[v.index].url)
                  else StreamFile(qs[v.index].url, "video_" + qs[v.index].quality + ".mp4"))) &&
            (forall i: nat :: i >= |qs| ==> PlanDownload(after, out.videoId, i) == InvalidQualityIndex)
  {
    var out := FetchOutcome(rawUrl, extract, head, idOf);
    var after := cache[out.videoId := out.record];
    var reply := Respond(out);
    forall v | v in reply.qualities
      ensures v.index < |out.record.qualities|
    {
      var i :| 0 <= i < |reply.qualities| && reply.qualities[i] == v;
    }
  }

  /** `video_cache` and the `fetch_video` handler that writes it. */
  class ResultStore {
    var videoCache: map<string, VideoRecord>

    constructor ()
      ensures videoCache == map[]
    {
      videoCache := map[];
    }

    /** `fetch_video`: on success the entry is written under its id,
        replacing any earlier one; on every failure the cache is unchanged. */
    method FetchVideo(
      rawUrl: string,
      extract: string -> Extraction,
      head: string -> HeadReply,
      idOf: string -> string)
      returns (resp: FetchResponse)
      modifies this
      ensures resp == Respond(FetchOutcome(rawUrl, extract, head, idOf))
      ensures var out := FetchOutcome(rawUrl, extract, head, idOf);
              videoCache == if out.Stored? then old(videoCache)[out.videoId := out.record] else old(videoCache)
    {
      var url := Strip(rawUrl);
      if url == "" {
        return FetchFailed(NoUrlProvided);
      }
      var ex := extract(url);
      if ex.error.Some? && ex.error.value != "" {
        return FetchFailed(ExtractionFailed(ex.error.value));
      }
      if ex.mediaUrls == [] {
        return FetchFailed(NoVideoUrlsFound);
      }
      var probed := ProbeUrls(ex.mediaUrls, head);
      var validVideos := ValidOnly(probed);
      if validVideos == [] {
        return FetchFailed(NoValidVideoUrls);
      }
      var videoId := idOf(url);
      videoCache := videoCache[videoId := VideoRecord(TitleOf(ex.metadata), ThumbnailOf(ex.metadata), validVideos)];
      resp := FetchSucceeded(videoId, videoCache[videoId].title, videoCache[videoId].thumbnail, Views(validVideos));
    }
  }
}
