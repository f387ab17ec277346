# Video downloader backend: a verified model of its core

The backend (`backend.py`) is a small web service. Given a page URL, it
renders the page in a headless browser and collects candidate media URLs from
the network responses the page triggers. It then probes every candidate for
its size and quality with a one-byte range request, keeps the valid ones, and
stores them under a video id. A later download request selects one stored
quality by its index.

This project models the decision logic of that pipeline in Dafny and proves
what it guarantees:

- `ResponseClassifier` (`classifier.dfy`) covers the per-response rules of
  `handle_response`:
  - ad filtering by case-insensitive substring;
  - the media-extension pattern, including how `$` behaves before a final newline;
  - the scan of XHR/fetch bodies for media-CDN `.mp4` URLs, followed by undoing the JSON `\/` escape.

  The `MediaCollector` class holds the `media_urls` list. Its `HandleResponse`
  method appends exactly what the rules select.
- `ProbeRanker` (`prober.dfy`) covers `probe_urls`:
  - first-occurrence deduplication through the `seen_urls` set;
  - the quality label;
  - HLS manifests, which are never requested;
  - the size, read from `Content-Range` (section 14.4 of RFC 9110) or else from `Content-Length`;
  - the 1 MiB validity threshold;
  - the stable descending sort by quality.

  The HEAD request is a function parameter `head` that either raises or returns the two headers.
- `VideoStore` (`store.dfy`) covers `fetch_video` and `download_video`:
  - `fetch_video` is the `ResultStore` class. Its `videoCache` map is written
    only on success. The checks run in source order, and the reply lists the
    stored qualities with their indices.
  - The checks that `download_video` makes before any request are the pure
    function `PlanDownload`.

  The page extractor is the parameter `extract`. `str(hash(url))` is the parameter `idOf`.
- `PyText` (`pytext.dfy`) holds the Python primitives the rules are built
  from: `str.isspace`/`strip`, `lower`, substring search, `int()` on a header
  value, and the leftmost-position scan of `re.search`. `int()` follows
  CPython 3.11, and 3.7.14, 3.8.14, 3.9.14 and 3.10.7 onward: it skips the whitespace `str.strip()` removes except
  the information separators U+001C to U+001F, which make it raise, and it
  refuses more than 4300 digits.

Where the code's behaviour is easy to misread, the model follows the code:

- An XHR/fetch response is scanned even when its own URL already matched the
  extension pattern, so it can contribute both its URL and body matches.
- `if error:` is a truth test: an extractor error message that is the empty
  string does not fail the request.
- The HEAD reply's status code is never examined: a 404 reply that carries a
  `Content-Length` is sized like any other.
- The stored qualities are the valid probe results only. Invalid ones are
  dropped before storage, so the reply indices count valid entries.

## Model

| member | source | states |
|---|---|---|
| PyText.Strip | backend.py:276 | `str.strip()` yields "" exactly when the input is all whitespace; otherwise it neither starts nor ends with whitespace |
| PyText.Lower | backend.py:67 | `str.lower()` on ASCII letters: the result has the input's length and changes only `A`-`Z`, each to its lower-case letter |
| PyText.Contains | backend.py:67 | the substring test `p in s`: some position of `s` holds `p` |
| PyText.StripSlice | backend.py:276 | the stripped string is the slice of the input that starts after its leading whitespace, and only whitespace follows it |
| PyText.StripMiddle | backend.py:276 | conversely, any split of the input into whitespace, a part that neither starts nor ends with whitespace, and whitespace strips to that part |
| PyText.ParseInt | backend.py:243-245 | `int()` of a header value: surrounding whitespace other than U+001C to U+001F, an optional sign, digit groups joined by single underscores, at most 4300 digits; anything else is a ValueError (`None`) |
| PyText.ParseDecimal | backend.py:243-245 | `int()` reads a decimal byte count back as itself when it has at most 4300 digits, and raises ValueError on a longer one |
| PyText.DecimalLength | backend.py:243-245 | a number has at most k decimal digits iff it is below 10^k, which turns the digit limit into a bound on the size |
| PyText.ParseBlank | backend.py:243-245 | `int()` of an empty or all-whitespace header is a ValueError |
| PyText.ParseDigits | backend.py:243-245 | `int()` of a plain digit run is its decimal value, or a ValueError past 4300 digits |
| PyText.ParsePadded | backend.py:243-245 | digits with whitespace other than U+001C to U+001F around them read as their value, or a ValueError past 4300 digits |
| PyText.ParseRejectsSeparator | backend.py:243-245 | a character U+001C to U+001F anywhere in the value makes `int()` raise, although `str.strip()` would remove one at either end |
| PyText.DecimalValue | backend.py:242-243 | a number's decimal digits denote that number |
| PyText.FirstMatch | backend.py:221 | `re.search` reports the leftmost start position where the pattern matches, or none when no position matches |
| ResponseClassifier.IsAd | backend.py:60-68 | the lower-cased URL contains one of the fifteen ad patterns |
| ResponseClassifier.IsVideoCdn | backend.py:71-78 | the lower-cased URL contains one of the six CDN patterns; it only selects the debug message |
| ResponseClassifier.IsApiExchange | backend.py:88-90 | the lower-cased resource type is `xhr` or `fetch` |
| ResponseClassifier.ScannedUrls | backend.py:87-98 | the unescaped body matches, in `findall` order, of an XHR/fetch response whose body could be read; nothing otherwise |
| ResponseClassifier.HasMediaExtension | backend.py:77 | `.mp4`, `.m3u8` or `.m4s`, in any case, followed by `?`, the end, or a final newline |
| ResponseClassifier.Unescape | backend.py:94 | every `\/` becomes `/`, scanning left to right; the result is never longer |
| ResponseClassifier.Observed | backend.py:55-101 | what one response contributes: nothing for an ad; otherwise its URL when it has a media extension, then the unescaped body matches of an XHR/fetch response |
| ResponseClassifier.MediaCollector.HandleResponse | backend.py:55-101 | appends to `media_urls` exactly `Observed(resp)`, after the earlier contents |
| ResponseClassifier.MediaCollector.AppendIfMedia | backend.py:77-85 | appends the response URL exactly when it has a media extension; the CDN test changes nothing |
| ResponseClassifier.MediaCollector.ScanBody | backend.py:87-98 | an XHR/fetch response with a readable body has its unescaped body matches appended in order; any other response appends nothing |
| ResponseClassifier.MediaCollector.AppendUnescaped | backend.py:92-94 | the loop over the body matches appends each one with `\/` undone, in match order, after the earlier contents |
| ResponseClassifier.ObservedOrigins | backend.py:67-95 | an ad response contributes nothing, not even body matches; every other contribution is the response URL with a media extension or a body match |
| ResponseClassifier.ResponseUrlVerdict | backend.py:67-85 | a non-XHR/fetch response contributes `[url]` iff it is not an ad and has a media extension, else nothing; the CDN test makes no difference |
| ResponseClassifier.AdMediaDropped | backend.py:60-68 | `https://ads.example/x.mp4` matches the media pattern yet is dropped as an ad, whatever its type and body |
| ResponseClassifier.ScannedOrigins | backend.py:89-95 | every URL scanned from a body comes from an XHR/fetch response, is the unescaped form of a full match of the CDN `.mp4` pattern, and is no longer than that match |
| ResponseClassifier.FindCdnMp4Urls | backend.py:93 | every `findall` match is a full match of the CDN `.mp4` pattern: scheme, URL characters, `phncdn.com` and then `.mp4` |
| ResponseClassifier.CdnMp4MatchAt | backend.py:93 | a match starting at a position ends inside the text, is a full match of the pattern, and runs to the end of the URL characters there |
| ResponseClassifier.MatchAtIsLongest | backend.py:93 | every full match that starts at a position is found there, and the reported end is the furthest one; so no match is reported only when none starts there |
| ResponseClassifier.FindsDelimitedMatch | backend.py:92-93 | `findall` returns every full match that a non-URL character or the edge of the body delimits on both sides, such as a quoted JSON string value, whatever precedes it |
| ResponseClassifier.ScanReaches | backend.py:93 | the scan reaches a position that no earlier match runs past, so everything found from there is in the result |
| ResponseClassifier.UnescapeEscapeSolidus | backend.py:94 | the replace inverts an encoder that escapes only `/`, as `\/` |
| ResponseClassifier.UnescapeAfterFullJsonEscape | backend.py:94 | for a full JSON encoder, which also escapes `\`, the replace is no inverse: `\/` is encoded as `\\\/` and comes back as `\\/` |
| ResponseClassifier.EscapeSolidus | backend.py:94 | the `/`-only encoder leaves no bare `/` |
| ResponseClassifier.UnescapeUnchangedIff | backend.py:94 | the replacement leaves a match unchanged iff it contains no `\/` |
| ResponseClassifier.UnescapeWithoutEscapes | backend.py:94 | a match without `\/` is recorded unchanged |
| ResponseClassifier.UnescapeShortensEscapes | backend.py:94 | a match holding `\/` is recorded strictly shorter |
| ResponseClassifier.IsHls | backend.py:218 | `.m3u8`, in any case, followed by `?`, the end, or a final newline |
| ProbeRanker.QualityMatch | backend.py:221 | the leftmost position where `\d{3,4}[pP]` matches, or none when it matches nowhere |
| ProbeRanker.QualityDigitsAt | backend.py:221 | the pattern captures four digits when it can, else three, each followed by `p` or `P` |
| ProbeRanker.QualityLabel | backend.py:221-222 | "Unknown" iff no position matches; otherwise the digits captured at the leftmost match, 3 or 4 of them, followed by a lower-case `p` |
| ProbeRanker.QualityLabelKey | backend.py:221-222 | the sort key of a URL's label is the number in the label, or 0 for "Unknown" |
| ProbeRanker.RangeTotal | backend.py:242 | the group `/(\d+)` captures is a non-empty run of digits, or there is none |
| ProbeRanker.RangeTotalAt | backend.py:241-243 | the captured group is the whole digit run after the first `/` that a digit follows; an earlier `/` without a digit after it is skipped |
| ProbeRanker.RangeTotalAbsent | backend.py:241-245 | nothing is captured from `Content-Range`, so `Content-Length` is used, exactly when no `/` in it is followed by a digit |
| ProbeRanker.SizeFromHeaders | backend.py:238-245 | `int()` of the captured group when `Content-Range` is non-empty and captures one, else `int()` of `Content-Length` (default "0") |
| ProbeRanker.RangeTotalSkipsBareSlash | backend.py:242 | `a/b/12` captures `12` |
| ProbeRanker.RangeTotalOfProbeReply | backend.py:238-243 | the reply `bytes 0-0/N` to the one-byte range request captures exactly the digits of N |
| ProbeRanker.UnknownRangeFallsBack | backend.py:241-243 | `bytes 0-0/*` falls back to `int(Content-Length)` |
| ProbeRanker.MegabytesFit | backend.py:247 | `size / (1024 * 1024)` yields a float exactly when the size lies strictly between minus and plus `SizeOverflowBound`, 2^1044 - 2^990 |
| ProbeRanker.ProbeOne | backend.py:217-261 | the entry recorded for one URL carries that URL; it is absent when the HEAD request, `int()` or the division raises |
| ProbeRanker.HlsNeverProbed | backend.py:218-232 | an HLS URL's result does not depend on the network and is a valid stream of size 0 |
| ProbeRanker.SizedProbe | backend.py:236-256 | a non-HLS URL whose headers report N bytes, N below the float-overflow bound, is recorded with size N, as MP4, valid iff N > 1048576 |
| ProbeRanker.OversizedProbeDropped | backend.py:236-260 | when the reported size is 2^1044 - 2^990 or more, `size / (1024 * 1024)` raises OverflowError and the URL is dropped |
| ProbeRanker.HeadersReportSize | backend.py:238-245 | a `bytes 0-0/N` range, or no range and a `Content-Length` of N, gives size N when N has at most 4300 digits, and a ValueError otherwise |
| ProbeRanker.LongRangeDropped | backend.py:236-261 | a range total of more than 4300 digits makes `int()` raise, and the URL is dropped |
| ProbeRanker.OverflowBoundWithinDigitLimit | backend.py:243-247 | every size below the float-overflow bound has at most 4300 digits, so the digit limit drops no URL the division would accept |
| ProbeRanker.FailedProbeDropped | backend.py:258-260 | a non-HLS URL whose HEAD request raises is dropped |
| ProbeRanker.Dedup | backend.py:210-215 | the URLs in the order the `seen_urls` test lets them through |
| ProbeRanker.FirstIndex | backend.py:211-215 | the position of a URL's first occurrence |
| ProbeRanker.DedupFirstOccurrences | backend.py:210-215 | deduplication keeps every URL, each once, in order of first occurrence |
| ProbeRanker.Probed | backend.py:217-261 | the loop body's contribution for one unseen URL: its entry, or nothing when the probe drops it |
| ProbeRanker.ProbeEach | backend.py:211-261 | the entries the loop appends for the distinct URLs, in their order |
| ProbeRanker.ProbeEachSound | backend.py:211-260 | every result in probe order is the successful probe of one of the URLs |
| ProbeRanker.ProbeEachComplete | backend.py:211-260 | every URL whose probe succeeds has its result in probe order |
| ProbeRanker.ProbeEachKeepsOrder | backend.py:211-260 | the probe-order list follows the order of the URLs it was built from |
| ProbeRanker.ProbeOrder | backend.py:210-260 | before sorting: one result per distinct URL whose probe succeeds, in first-occurrence order |
| ProbeRanker.SortDescending | backend.py:269 | `list.sort(key=..., reverse=True)` as a stable insertion by descending key |
| ProbeRanker.SortSortedPermutation | backend.py:264-269 | for any key, the sort yields a permutation of its input ordered by non-increasing key |
| ProbeRanker.SortStable | backend.py:269 | results with equal keys keep their relative order (the sort is stable even with `reverse=True`) |
| ProbeRanker.SortDistinct | backend.py:269 | sorting keeps the URLs distinct and keeps exactly the same entries |
| ProbeRanker.InsertPermutes | backend.py:269 | inserting one entry adds exactly that entry, which lands at the front or behind the old first entry |
| ProbeRanker.InsertSorted | backend.py:269 | inserting into a list sorted by descending key keeps it sorted |
| ProbeRanker.InsertWithKey | backend.py:269 | inserting into a sorted list puts the new entry ahead of every old entry with its key and leaves the other keys' runs unchanged |
| ProbeRanker.Key | backend.py:264-267 | `quality_sort_key`: the sort key of an entry is `SortKey` of its quality label |
| ProbeRanker.SortKey | backend.py:264-267 | the number of the first digit run in the label, or 0 when it has none |
| ProbeRanker.LabelKey | backend.py:264-267 | a label of digits and `p` sorts by its number |
| ProbeRanker.UnknownKey | backend.py:264-267 | "Unknown" sorts with key 0 |
| ProbeRanker.RankFour | backend.py:269 | four results with distinct keys come out in descending key order, whatever the key function |
| ProbeRanker.RankingExample | backend.py:264-269 | results labelled 480p, 1080p, Unknown, 720p are ranked 1080p, 720p, 480p, Unknown |
| ProbeRanker.ProbeAndRank | backend.py:201-270 | what `probe_urls` returns: the entries of the distinct URLs in probe order, sorted by descending key |
| ProbeRanker.ProbeAndRankContract | backend.py:201-270 | the returned list is sorted by descending key, stable and a permutation of the probe-order list, with no URL twice; it holds exactly the successful probes of the candidates |
| ProbeRanker.ProbeUrl | backend.py:217-261 | the loop body for an unseen URL computes exactly `ProbeOne(url, head)` |
| ProbeRanker.ProbeUrls | backend.py:201-270 | the loop with its `seen_urls` set, followed by the sort, returns exactly `ProbeAndRank(urls, head)` |
| VideoStore.TitleOf | backend.py:304 | the metadata title, or `Video` when there is no metadata or no title |
| VideoStore.ThumbnailOf | backend.py:305 | the metadata thumbnail, or "" when there is no metadata or no thumbnail |
| VideoStore.ValidOnly | backend.py:296 | the list comprehension keeping the entries with `is_valid` set, in order |
| VideoStore.ValidOnlyMembers | backend.py:296 | the filter keeps exactly the valid results |
| VideoStore.ValidOnlySorted | backend.py:296 | the filter keeps the list sorted |
| VideoStore.ValidOnlyDistinct | backend.py:296 | the filter keeps URLs distinct |
| VideoStore.ValidOnlyWithKey | backend.py:296 | the filter keeps order: for each key, the kept entries of that key come out in their original order |
| VideoStore.FetchChecksInOrder | backend.py:276-290 | blank input is rejected whatever the extractor would do; an extractor error beats collected URLs; no URLs gives "No video URLs found" |
| VideoStore.StoredRecordContents | backend.py:272-307 | a stored entry is keyed by the id of the stripped URL, carries the metadata title and thumbnail with their defaults, and holds exactly the valid successful probes of the candidates: non-empty, sorted, without repeated URLs |
| VideoStore.StoredRecordOrder | backend.py:269-302 | for each key, the stored qualities with that key are the valid ones in probe order, i.e. in the order their URLs first occur among the candidates |
| VideoStore.NoValidMeansAllRejected | backend.py:293-299 | "No valid video URLs" means every candidate failed its probe or was 1 MiB or smaller |
| VideoStore.FetchOutcome | backend.py:276-307 | the decision chain of `fetch_video`: blank URL, extractor error, no URLs, no valid URLs, or the entry to store under the id |
| VideoStore.Respond | backend.py:309-322 | the reply for an outcome: the error it carries, or the id, title, thumbnail and the quality views |
| VideoStore.Views | backend.py:311-321 | the reply lists each stored quality at its position, with that index, label, size label, HLS flag and kind `HLS` or `MP4` |
| VideoStore.PlanDownload | backend.py:324-359 | not found iff the id is not cached; invalid index iff the index is past the end; HLS refusal with the URL iff the entry is HLS; otherwise stream that entry's URL as `video_<quality>.mp4` |
| VideoStore.DownloadAfterFetch | backend.py:272-359 | after a successful fetch is stored, each index in the reply selects the stored entry at that position, and every larger index is invalid |
| VideoStore.ResultStore.FetchVideo | backend.py:272-322 | the reply is the one the decision chain prescribes; the cache gains or replaces the entry on success and is unchanged on every failure |

## Left out

- Browser automation is not part of this model: Playwright, page navigation, the JavaScript run in the page, the metadata scraping, and the redirect handling. The extractor is a function parameter.
- `requests` traffic other than the HEAD probe is not modelled. That includes the download stream and its 500 "Download failed" path. `PlanDownload` stops where the GET would be sent.
- The HEAD request's headers, timeout and redirect following are not modelled. Only its outcome is: it raises, or it answers with two optional headers.
- The value of `size_mb` and the `"{:.1f} MB"` text are not modelled, since they are floating point. The size label keeps the byte count instead. Only whether computing `size_mb` raises OverflowError is modelled (`ProbeRanker.SizeOverflowBound`).
- `hash(url)` is the parameter `idOf`. Python salts string hashes per process, so the id is arbitrary but fixed for a run.
- Flask routing, status codes, JSON encoding, CORS, the `index` route, `__main__` and every `print` are left out. The error kinds carry the meaning of the status codes.
- A request body without a JSON object, which raises before `url` is read, is not modelled. A missing `url` key counts as "".
- The `ImportError` path of the extractor, which returns a 2-tuple and would make the caller raise, is not modelled.
- ResponseClassifier.IsAd, ResponseClassifier.HasMediaExtension, ResponseClassifier.SchemeLength, ResponseClassifier.CdnMp4MatchAt: `lower()` and IGNORECASE fold ASCII letters only. The few non-ASCII characters that Python folds to ASCII letters are not modelled, such as `ſ` (U+017F), which IGNORECASE matches against the `s` of `https?`.
- ProbeRanker.QualityLabel, ProbeRanker.SortKey, ProbeRanker.RangeTotal, ProbeRanker.RangeTotalAt, ProbeRanker.RangeTotalAbsent, ProbeRanker.HeadersReportSize, PyText.ParseInt: `\d` and `int()` accept ASCII digits only. Python also accepts other Unicode decimal digits (Arabic-Indic, Devanagari and so on), and `int()` reads them as their values; a header carrying such digits is not modelled.
- PyText.ParseInt, PyText.ParseDigits, PyText.ParseDecimal: the 4300-digit limit is the default of CPython 3.11, and of 3.7.14, 3.8.14, 3.9.14 and 3.10.7 onward; older releases have no limit. Also, `sys.set_int_max_str_digits` and PYTHONINTMAXSTRDIGITS, which change it, are not modelled.
- ProbeRanker.SortKey: reads the digit run without `int()`'s digit limit. The labels it is applied to have at most four digits.
- ProbeRanker.ProbeUrls: `list.sort` is a library routine, so the sort is modelled as a function (stable insertion) and is not done in place.
- ResponseClassifier.MediaCollector.HandleResponse: an exception raised while reading the URL or the resource type is not modelled. Failure to read the body is modelled as an absent body.
- ResponseClassifier.MediaCollector.HandleResponse: which responses a page triggers, and their order, is not modelled. Playwright's synchronous API runs the callback on the calling thread, one response at a time, and the model handles any sequence the same way.
- VideoStore.ResultStore.FetchVideo, VideoStore.DownloadAfterFetch: Flask's development server runs each request on its own thread. Two concurrent `fetch_video` calls that hash to the same id can interleave between the cache write (backend.py:303-307) and the re-read of title and thumbnail (backend.py:313-314), so one reply can mix two extractions. The model runs each request to completion.
