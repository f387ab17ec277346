/**
 * `probe_urls` (backend.py, lines 201-270): every distinct candidate URL is
 * given a quality label taken from the URL; HLS manifests are recorded as
 * streams without a request; every other URL is sized by a one-byte range
 * request (`Range: bytes=0-0`, section 14.2 of RFC 9110), reading the total
 * length after the `/` of `Content-Range` (section 14.4 of RFC 9110) or else
 * `Content-Length`; the results are finally sorted by quality, descending and
 * stable.
 */
module ProbeRanker {
  import opened Wrappers
  import opened PyText
  import opened ResponseClassifier

  /** The size a probed file must exceed to be valid: 1 MiB. */
  const MinValidSize: int := 1024 * 1024

  /** `size_readable`: "Stream", or the size shown in MB (the float
      formatting itself is not modelled). */
  datatype SizeLabel = StreamLabel | Megabytes(bytes: int)

  /** One entry of the list `probe_urls` returns. */
  datatype ProbeResult = ProbeResult(
    url: string,
    quality: string,
    size: int,
    sizeReadable: SizeLabel,
    isHls: bool,
    isValid: bool)

  /** What the HEAD request does: raise, or answer with its `Content-Range`
      and `Content-Length` headers, each possibly absent. The status code is
      not looked at. */
  datatype HeadReply = HeadRaised | HeadReplied(contentRange: Option<string>, contentLength: Option<string>)

  // ---------------------------------------------------------------------
  // Quality label: `re.search(r'(\d{3,4})[pP]', url)`

  predicate IsP(c: char) {
    c == 'p' || c == 'P'
  }

  /** `n` digits followed by `p` or `P` start at `i`. */
  predicate DigitsThenPAt(s: string, i: nat, n: nat) {
    i + n < |s| && AllDigits(s[i..i + n]) && IsP(s[i + n])
  }

  /** How many digits the pattern captures when its match starts at `i`:
      four if it can (the quantifier is greedy), else three, 0 for no match. */
  function QualityDigitsAt(s: string, i: nat): (n: nat)
    ensures n == 0 || n == 3 || n == 4
    ensures n > 0 ==> DigitsThenPAt(s, i, n)
    ensures n == 3 ==> !DigitsThenPAt(s, i, 4)
    ensures n == 0 ==> !DigitsThenPAt(s, i, 4) && !DigitsThenPAt(s, i, 3)
  {
    if DigitsThenPAt(s, i, 4) then 4
    else if DigitsThenPAt(s, i, 3) then 3
    else 0
  }

  /** The leftmost match position of the quality pattern, if any. */
  function QualityMatch(url: string): (r: Option<nat>)
    ensures r.None? ==> forall i :: 0 <= i < |url| ==> QualityDigitsAt(url, i) == 0
    ensures r.Some? ==> r.value < |url| && QualityDigitsAt(url, r.value) > 0
    ensures r.Some? ==> forall i :: 0 <= i < r.value ==> QualityDigitsAt(url, i) == 0
  {
    var matches := (i: nat) => QualityDigitsAt(url, i) > 0;
    var r := FirstMatch(0, |url|, matches);
    assert r.None? ==> forall i :: 0 <= i < |url| ==> QualityDigitsAt(url, i) == 0 by {
      if r.None? {
        forall i | 0 <= i < |url| ensures QualityDigitsAt(url, i) == 0 {
          assert !matches(i);
        }
      }
    }
    assert r.Some? ==> forall i :: 0 <= i < r.value ==> QualityDigitsAt(url, i) == 0 by {
      if r.Some? {
        forall i | 0 <= i < r.value ensures QualityDigitsAt(url, i) == 0 {
          assert !matches(i);
        }
      }
    }
    r
  }

  /** The quality label: the captured digits followed by a lower-case `p`,
      taken from the leftmost match, or "Unknown" when the URL has none. */
  function QualityLabel(url: string): (q: string)
    ensures q == "Unknown" <==> forall i :: 0 <= i < |url| ==> QualityDigitsAt(url, i) == 0
    ensures q != "Unknown" ==>
              (|q| == 4 || |q| == 5) && q[|q| - 1] == 'p' && AllDigits(q[..|q| - 1])
    ensures q != "Unknown" ==>
              exists p :: 0 <= p < |url| && QualityDigitsAt(url, p) == |q| - 1 &&
                url[p..p + |q| - 1] == q[..|q| - 1] &&
                forall i :: 0 <= i < p ==> QualityDigitsAt(url, i) == 0
  {
    match QualityMatch(url)
    case None => "Unknown"
    case Some(p) =>
      var n := QualityDigitsAt(url, p);
      var q := url[p..p + n] + "p";
      assert q[..|q| - 1] == url[p..p + n];
      assert QualityDigitsAt(url, p) == |q| - 1;
      q
  }

  // ---------------------------------------------------------------------
  // Sort key: `re.search(r'(\d+)', quality)`, else 0

  /** The value of the leftmost run of digits in `quality`, or 0 if it has none. */
  function SortKey(quality: string): nat {
    match FirstMatch(0, |quality|, (i: nat) => i < |quality| && IsDigit(quality[i]))
    case None => 0
    case Some(p) => DigitsValue(quality[p..DigitRunEnd(quality, p)])
  }

  function Key(r: ProbeResult): nat {
    SortKey(r.quality)
  }

  /** A URL's sort key is the number in its quality label, and 0 for "Unknown". */
  lemma QualityLabelKey(url: string)
    ensures var q := QualityLabel(url);
            SortKey(q) == if q == "Unknown" then 0 else DigitsValue(q[..|q| - 1])
  {
    var q := QualityLabel(url);
    var isDigitAt := (i: nat) => i < |q| && IsDigit(q[i]);
    if q == "Unknown" {
      assert forall i :: 0 <= i < |q| ==> !isDigitAt(i);
    } else {
      assert isDigitAt(0);
      var p := FirstMatch(0, |q|, isDigitAt).value;
      assert p == 0;
      assert !IsDigit(q[|q| - 1]);
      var e := DigitRunEnd(q, 0);
      assert e == |q| - 1;
    }
  }

  // ---------------------------------------------------------------------
  // Size: `re.search(r'/(\d+)', content_range)`, else `int(content_length)`

  predicate SlashDigitAt(s: string, i: nat) {
    i + 1 < |s| && s[i] == '/' && IsDigit(s[i + 1])
  }

  /** `match.group(1)`: the run of digits after the first `/` that is
      followed by a digit, or `None` when the search fails. */
  function RangeTotal(contentRange: string): (r: Option<string>)
    ensures r.Some? ==> r.value != [] && AllDigits(r.value)
  {
    match FirstMatch(0, |contentRange|, (i: nat) => SlashDigitAt(contentRange, i))
    case None => None
    case Some(p) => Some(contentRange[p + 1..DigitRunEnd(contentRange, p + 1)])
  }

  /** `size`: `int()` of the range's digits when `Content-Range` is not empty
      and has them, else `int()` of `Content-Length`; `None` when `int()`
      raises. Digits that `int()` rejects raise; they do not fall back to
      `Content-Length`. */
  function SizeFromHeaders(contentRange: string, contentLength: string): Option<int> {
    if contentRange != "" then
      match RangeTotal(contentRange)
      case Some(ds) => ParseInt(ds)
      case None => ParseInt(contentLength)
    else ParseInt(contentLength)
  }

  /** The total is read after the first `/` that a digit follows; a `/`
      before it that no digit follows is skipped. */
  lemma RangeTotalAt(s: string, p: nat)
    requires SlashDigitAt(s, p)
    requires forall i :: 0 <= i < p ==> !SlashDigitAt(s, i)
    ensures RangeTotal(s) == Some(s[p + 1..DigitRunEnd(s, p + 1)])
  {
    var slashDigit := (i: nat) => SlashDigitAt(s, i);
    assert slashDigit(p);
    var r := FirstMatch(0, |s|, slashDigit);
    assert r.value <= p;
    assert slashDigit(r.value);
  }

  /** There is no total exactly when no `/` is followed by a digit; then the
      size falls back to `Content-Length`. */
  lemma RangeTotalAbsent(s: string)
    ensures RangeTotal(s).None? <==> forall i :: 0 <= i < |s| ==> !SlashDigitAt(s, i)
  {
    var slashDigit := (i: nat) => SlashDigitAt(s, i);
    if RangeTotal(s).None? {
      assert FirstMatch(0, |s|, slashDigit).None?;
      forall i | 0 <= i < |s| ensures !SlashDigitAt(s, i) {
        assert !slashDigit(i);
      }
    } else {
      var p := FirstMatch(0, |s|, slashDigit).value;
      assert slashDigit(p);
    }
  }

  /** A `/` that no digit follows is passed over: `a/b/12` yields the digits `12`. */
  lemma RangeTotalSkipsBareSlash()
    ensures RangeTotal("a/b/12") == Some("12")
  {
    var s := "a/b/12";
    RangeTotalAt(s, 3);
    var e := DigitRunEnd(s, 4);
    assert e == 6;
    assert s[4..e] == "12";
  }

  /** The reply `bytes 0-0/` + `ds` to a one-byte range request yields the
      digits `ds`. */
  lemma RangeTotalOfProbeReply(ds: string)
    requires ds != [] && AllDigits(ds)
    ensures RangeTotal("bytes 0-0/" + ds) == Some(ds)
  {
    var prefix := "bytes 0-0/";
    var s := prefix + ds;
    assert forall i :: 0 <= i < |prefix| ==> s[i] == prefix[i];
    assert forall i :: 0 <= i < 9 ==> prefix[i] != '/';
    assert s[10..] == ds;
    assert s[9] == '/' && s[10] == ds[0];
    RangeTotalAt(s, 9);
    assert forall k :: 10 <= k < |s| ==> IsDigit(s[k]);
    var e := DigitRunEnd(s, 10);
    assert e == |s|;
    assert s[10..e] == s[10..];
  }

  /** A `Content-Range` whose length is unknown (`*`) falls back to `Content-Length`. */
  lemma UnknownRangeFallsBack(contentLength: string)
    ensures SizeFromHeaders("bytes 0-0/*", contentLength) == ParseInt(contentLength)
  {
    var s := "bytes 0-0/*";
    var slashDigit := (i: nat) => SlashDigitAt(s, i);
    assert forall i :: 0 <= i < |s| ==> !slashDigit(i);
  }

  // ---------------------------------------------------------------------
  // One candidate

  /** `size / (1024 * 1024)` divides two ints: Python rounds the exact
      quotient to the nearest double and raises OverflowError when the
      rounded value is past the largest finite double, (2^53 - 1) * 2^971.
      That happens once the quotient reaches 2^1024 - 2^970 (the tie rounds
      to the even neighbour 2^1024), that is, once the magnitude of `size`
      reaches this bound, 2^1044 - 2^990 (a number of 315 decimal digits). */
  const SizeOverflowBound: int := 0xf_ffff_ffff_ffff_c000_0000_0000_0000_0000_0000_0000_0000_0000_0000_0000_0000_0000_0000_0000_0000_0000_0000_0000_0000_0000_0000_0000_0000_0000_0000_0000_0000_0000_0000_0000_0000_0000_0000_0000_0000_0000_0000_0000_0000_0000_0000_0000_0000_0000_0000_0000_0000_0000_0000_0000_0000_0000_0000_0000_0000_0000_0000_0000_0000_0000_0000

  /** `size / (1024 * 1024)` yields a float without raising. */
  predicate MegabytesFit(size: int) {
    -SizeOverflowBound < size < SizeOverflowBound
  }

  /** The entry `probe_urls` records for one URL, or `None` when the probe
      raises and the URL is dropped: the HEAD request, `int()` or the
      division that yields `size_mb`. `head` is the HEAD request. */
  function ProbeOne(url: string, head: string -> HeadReply): (r: Option<ProbeResult>)
    ensures r.Some? ==> r.value.url == url
  {
    var quality := QualityLabel(url);
    if IsHls(url) then Some(ProbeResult(url, quality, 0, StreamLabel, true, true))
    else match head(url)
      case HeadRaised => None
      case HeadReplied(contentRange, contentLength) =>
        match SizeFromHeaders(contentRange.GetOr(""), contentLength.GetOr("0"))
        case None => None
        case Some(size) =>
          if !MegabytesFit(size) then None
          else Some(ProbeResult(url, quality, size, Megabytes(size), false, size > MinValidSize))
  }

  /** An HLS manifest is a valid stream of size 0 whatever the network would
      answer: no request is made for it. */
  lemma HlsNeverProbed(url: string, head: string -> HeadReply, other: string -> HeadReply)
    requires IsHls(url)
    ensures ProbeOne(url, head) == ProbeOne(url, other)
    ensures ProbeOne(url, head) == Some(ProbeResult(url, QualityLabel(url), 0, StreamLabel, true, true))
  {
  }

  /** Any other URL whose probe reports a total of `n` bytes, in
      `Content-Range` or (with no range) in `Content-Length`, is recorded
      with size `n` and is valid exactly when `n` exceeds 1 MiB (below the
      bound where computing `size_mb` raises, see OversizedProbeDropped;
      such an `n` has far fewer digits than `int()` accepts). */
  lemma SizedProbe(url: string, head: string -> HeadReply, n: nat)
    requires !IsHls(url)
    requires head(url).HeadReplied?
    requires head(url).contentRange == Some("bytes 0-0/" + Decimal(n)) ||
             (head(url).contentRange.GetOr("") == "" && head(url).contentLength == Some(Decimal(n)))
    requires n < SizeOverflowBound
    ensures ProbeOne(url, head) == Some(ProbeResult(url, QualityLabel(url), n, Megabytes(n), false, n > 1048576))
  {
    var reply := head(url);
    HeadersReportSize(reply.contentRange, reply.contentLength, n);
    OverflowBoundWithinDigitLimit();
    ProbeOfSize(url, head, n);
  }

  /** A non-HLS URL whose headers give `size` is recorded with it, unless
      `size_mb` cannot be computed. */
  lemma ProbeOfSize(url: string, head: string -> HeadReply, size: int)
    requires !IsHls(url) && head(url).HeadReplied?
    requires SizeFromHeaders(head(url).contentRange.GetOr(""), head(url).contentLength.GetOr("0")) == Some(size)
    ensures ProbeOne(url, head) ==
            if MegabytesFit(size) then Some(ProbeResult(url, QualityLabel(url), size, Megabytes(size), false, size > MinValidSize))
            else None
  {
  }

  /** A reported size too large for `size / (1024 * 1024)` to be a float
      makes the division raise, and the URL is dropped (from `10^4300` on,
      `int()` raises first). */
  lemma OversizedProbeDropped(url: string, head: string -> HeadReply, n: nat)
    requires !IsHls(url)
    requires head(url).HeadReplied?
    requires head(url).contentRange == Some("bytes 0-0/" + Decimal(n)) ||
             (head(url).contentRange.GetOr("") == "" && head(url).contentLength == Some(Decimal(n)))
    requires n >= SizeOverflowBound
    ensures ProbeOne(url, head) == None
  {
    var reply := head(url);
    HeadersReportSize(reply.contentRange, reply.contentLength, n);
  }

  /** Either header reporting `n` in the form a server writes it gives size
      `n`, unless `n` has more digits than `int()` converts, which raises. */
  lemma HeadersReportSize(contentRange: Option<string>, contentLength: Option<string>, n: nat)
    requires contentRange == Some("bytes 0-0/" + Decimal(n)) ||
             (contentRange.GetOr("") == "" && contentLength == Some(Decimal(n)))
    ensures SizeFromHeaders(contentRange.GetOr(""), contentLength.GetOr("0")) ==
            if n < Pow10(MaxStrDigits) then Some(n) else None
  {
    if contentRange == Some("bytes 0-0/" + Decimal(n)) {
      RangeTotalOfProbeReply(Decimal(n));
    }
    ParseDecimal(n);
  }

  /** A total of more than `MaxStrDigits` digits, leading zeros included,
      makes `int()` raise, and the URL is dropped rather than sized from
      `Content-Length`. */
  lemma LongRangeDropped(url: string, head: string -> HeadReply, ds: string)
    requires !IsHls(url)
    requires head(url).HeadReplied? && head(url).contentRange == Some("bytes 0-0/" + ds)
    requires ds != [] && AllDigits(ds) && |ds| > MaxStrDigits
    ensures ProbeOne(url, head) == None
  {
    RangeTotalOfProbeReply(ds);
    ParseDigits(ds);
  }

  /** Every size below the float-overflow bound has fewer than
      `MaxStrDigits` digits. */
  lemma OverflowBoundWithinDigitLimit()
    ensures SizeOverflowBound < Pow10(MaxStrDigits)
  {
    OverflowBoundBelow320();
    Pow10Monotone(320, MaxStrDigits);
  }

  /** `SizeOverflowBound < 10^320`, by squaring `10^10` five times. */
  lemma OverflowBoundBelow320()
    ensures SizeOverflowBound < Pow10(320)
  {
    var p := Pow10(10);
    assert p == 10000000000;
    Pow10Square(10, p);
    Pow10Square(20, p * p);
    var q := p * p * (p * p);
    Pow10Square(40, q);
    Pow10Square(80, q * q);
    Pow10Square(160, q * q * (q * q));
  }

  lemma FailedProbeDropped(url: string, head: string -> HeadReply)
    requires !IsHls(url) && head(url) == HeadRaised
    ensures ProbeOne(url, head) == None
  {
  }

  // ---------------------------------------------------------------------
  // Deduplication in first-occurrence order

  /** Index of the first occurrence of `u` in `s`. */
  function FirstIndex(s: seq<string>, u: string): (i: nat)
    requires u in s
    ensures i < |s| && s[i] == u
    ensures forall j :: 0 <= j < i ==> s[j] != u
  {
    if s[0] == u then 0 else 1 + FirstIndex(s[1..], u)
  }

  lemma FirstIndexInPrefix(s: seq<string>, n: nat, u: string)
    requires n <= |s| && u in s[..n]
    ensures FirstIndex(s, u) == FirstIndex(s[..n], u)
  {
    var i := FirstIndex(s[..n], u);
    var j := FirstIndex(s, u);
    assert s[..n][j] == s[j] || j >= n;
  }

  /** The URLs of `s` in the order the loop first meets them, each once. */
  function Dedup(s: seq<string>): seq<string> {
    if s == [] then []
    else
      var init := s[..|s| - 1];
      if s[|s| - 1] in init then Dedup(init) else Dedup(init) + [s[|s| - 1]]
  }

  /** Deduplication keeps every URL, and lists them in strictly increasing
      order of first occurrence (so each at most once). */
  lemma {:induction false} DedupFirstOccurrences(s: seq<string>)
    ensures forall u :: u in Dedup(s) <==> u in s
    ensures forall j, k :: 0 <= j < k < |Dedup(s)| ==>
              FirstIndex(s, Dedup(s)[j]) < FirstIndex(s, Dedup(s)[k])
  {
    if s != [] {
      var init := s[..|s| - 1];
      DedupFirstOccurrences(init);
      assert s == init + [s[|s| - 1]];
      DedupOrderStep(init, s[|s| - 1]);
    }
  }

  /** The order of first occurrence survives one more URL. */
  lemma DedupOrderStep(init: seq<string>, x: string)
    requires forall u :: u in Dedup(init) <==> u in init
    requires forall j, k :: 0 <= j < k < |Dedup(init)| ==>
               FirstIndex(init, Dedup(init)[j]) < FirstIndex(init, Dedup(init)[k])
    ensures forall j, k :: 0 <= j < k < |Dedup(init + [x])| ==>
              FirstIndex(init + [x], Dedup(init + [x])[j]) < FirstIndex(init + [x], Dedup(init + [x])[k])
  {
    var s := init + [x];
    assert s[..|s| - 1] == init && s[|s| - 1] == x;
    var d := Dedup(s);
    var di := Dedup(init);
    forall j, k | 0 <= j < k < |d|
      ensures FirstIndex(s, d[j]) < FirstIndex(s, d[k])
    {
      assert d[j] == di[j] && d[j] in init;
      FirstIndexInPrefix(s, |s| - 1, d[j]);
      if k < |di| {
        assert d[k] == di[k] && d[k] in init;
        FirstIndexInPrefix(s, |s| - 1, d[k]);
      } else {
        assert x !in init && d[k] == x;
        assert FirstIndex(s, x) == |s| - 1;
      }
    }
  }

  // ---------------------------------------------------------------------
  // The probing loop, as a specification

  /** `ProbeOne` with the HEAD request fixed: the probe of one URL. */
  function ProbeWith(head: string -> HeadReply): (probe: string -> Option<ProbeResult>)
    ensures KeepsUrl(probe)
  {
    url => ProbeOne(url, head)
  }

  // The lemmas below hold for any probe of one URL whose entry carries that
  // URL; `probe_urls` uses `ProbeWith(head)`.

  /** An entry, when there is one, is recorded under the URL probed. */
  ghost predicate KeepsUrl(probe: string -> Option<ProbeResult>) {
    forall u :: probe(u).Some? ==> probe(u).value.url == u
  }

  /** A probe's outcome as a list of zero or one entries. */
  function Probed(url: string, probe: string -> Option<ProbeResult>): seq<ProbeResult> {
    match probe(url)
    case Some(r) => [r]
    case None => []
  }

  /** The entries recorded for the distinct URLs `us`, in their order. */
  function ProbeEach(us: seq<string>, probe: string -> Option<ProbeResult>): seq<ProbeResult> {
    if us == [] then [] else ProbeEach(us[..|us| - 1], probe) + Probed(us[|us| - 1], probe)
  }

  /** Every entry is the probe of its own URL, which is one of `us`. */
  lemma {:induction false} ProbeEachSound(us: seq<string>, probe: string -> Option<ProbeResult>)
    requires KeepsUrl(probe)
    ensures forall x :: x in ProbeEach(us, probe) ==> x.url in us && probe(x.url) == Some(x)
  {
    if us != [] {
      var init := us[..|us| - 1];
      var last := us[|us| - 1];
      ProbeEachSound(init, probe);
      forall x | x in ProbeEach(us, probe)
        ensures x.url in us && probe(x.url) == Some(x)
      {
        if x !in ProbeEach(init, probe) {
          assert x in Probed(last, probe);
        } else {
          assert x.url in init;
        }
      }
    }
  }

  /** Every URL of `us` whose probe succeeds has its entry. */
  lemma {:induction false} ProbeEachComplete(us: seq<string>, probe: string -> Option<ProbeResult>)
    ensures forall u :: u in us && probe(u).Some? ==> probe(u).value in ProbeEach(us, probe)
  {
    if us != [] {
      var init := us[..|us| - 1];
      var last := us[|us| - 1];
      ProbeEachComplete(init, probe);
      var before := ProbeEach(init, probe);
      var added := Probed(last, probe);
      assert ProbeEach(us, probe) == before + added;
      assert us == init + [last];
      forall u | u in us && probe(u).Some?
        ensures probe(u).value in before + added
      {
        var v := probe(u).value;
        if u == last {
          assert added == [v];
        } else {
          assert u in init;
          assert v in before;
        }
      }
    }
  }

  /** Entries keep the order of their URLs in `us`, measured by first
      occurrence in the original list `urls`. */
  lemma {:induction false} ProbeEachKeepsOrder(urls: seq<string>, us: seq<string>, probe: string -> Option<ProbeResult>)
    requires KeepsUrl(probe)
    requires forall u :: u in us ==> u in urls
    requires forall j, k :: 0 <= j < k < |us| ==> FirstIndex(urls, us[j]) < FirstIndex(urls, us[k])
    ensures forall x :: x in ProbeEach(us, probe) ==> x.url in urls
    ensures forall j, k :: 0 <= j < k < |ProbeEach(us, probe)| ==>
              FirstIndex(urls, ProbeEach(us, probe)[j].url) < FirstIndex(urls, ProbeEach(us, probe)[k].url)
  {
    ProbeEachSound(us, probe);
    if us != [] {
      var init := us[..|us| - 1];
      var last := us[|us| - 1];
      ProbeEachKeepsOrder(urls, init, probe);
      ProbeEachSound(init, probe);
      var before := ProbeEach(init, probe);
      var r := ProbeEach(us, probe);
      forall j, k | 0 <= j < k < |r|
        ensures FirstIndex(urls, r[j].url) < FirstIndex(urls, r[k].url)
      {
        if k >= |before| {
          assert r[k].url == last;
          assert r[j] == before[j] && before[j] in before;
          var m :| 0 <= m < |init| && init[m] == r[j].url;
          assert us[m] == init[m];
        }
      }
    }
  }

  // ---------------------------------------------------------------------
  // `results.sort(key=quality_sort_key, reverse=True)`: a stable sort by
  // descending key, stated for any key function and used with `Key`

  /** Puts `x` before the first entry whose key is not above its own. */
  function Insert(x: ProbeResult, s: seq<ProbeResult>, key: ProbeResult -> nat): seq<ProbeResult> {
    if s == [] || key(x) >= key(s[0]) then [x] + s else [s[0]] + Insert(x, s[1..], key)
  }

  /** `list.sort(key=key, reverse=True)`, as a stable insertion sort. */
  function SortDescending(rs: seq<ProbeResult>, key: ProbeResult -> nat): seq<ProbeResult> {
    if rs == [] then [] else Insert(rs[0], SortDescending(rs[1..], key), key)
  }

  predicate NonIncreasing(s: seq<ProbeResult>, key: ProbeResult -> nat) {
    forall j, k :: 0 <= j < k < |s| ==> key(s[j]) >= key(s[k])
  }

  /** The entries of `s` whose key is `k`, in order. */
  function WithKey(s: seq<ProbeResult>, key: ProbeResult -> nat, k: nat): seq<ProbeResult> {
    if s == [] then []
    else (if key(s[0]) == k then [s[0]] else []) + WithKey(s[1..], key, k)
  }

  predicate DistinctUrls(s: seq<ProbeResult>) {
    forall j, k :: 0 <= j < k < |s| ==> s[j].url != s[k].url
  }

  /** Inserting adds exactly the one entry. */
  lemma {:induction false} InsertPermutes(x: ProbeResult, s: seq<ProbeResult>, key: ProbeResult -> nat)
    ensures multiset(Insert(x, s, key)) == multiset(s) + multiset{x}
    ensures Insert(x, s, key) != [] && (Insert(x, s, key)[0] == x || Insert(x, s, key)[0] == s[0])
  {
    if s != [] && key(x) < key(s[0]) {
      InsertPermutes(x, s[1..], key);
      assert s == [s[0]] + s[1..];
    }
  }

  /** Inserting into a list sorted by descending key keeps it sorted. */
  lemma {:induction false} InsertSorted(x: ProbeResult, s: seq<ProbeResult>, key: ProbeResult -> nat)
    requires NonIncreasing(s, key)
    ensures NonIncreasing(Insert(x, s, key), key)
  {
    if s != [] && key(x) < key(s[0]) {
      var t := Insert(x, s[1..], key);
      InsertSorted(x, s[1..], key);
      InsertPermutes(x, s[1..], key);
      var r := [s[0]] + t;
      assert Insert(x, s, key) == r;
      assert key(t[0]) <= key(s[0]) by {
        if t[0] != x {
          assert t[0] == s[1];
        }
      }
      forall j, k | 0 <= j < k < |r| ensures key(r[j]) >= key(r[k]) {
        assert r[k] == t[k - 1];
        if j > 0 {
          assert r[j] == t[j - 1];
        } else if k > 1 {
          assert key(t[0]) >= key(t[k - 1]);
        }
      }
    }
  }

  lemma {:induction false} InsertWithKey(x: ProbeResult, s: seq<ProbeResult>, key: ProbeResult -> nat, k: nat)
    requires NonIncreasing(s, key)
    ensures WithKey(Insert(x, s, key), key, k) ==
            if key(x) == k then [x] + WithKey(s, key, k) else WithKey(s, key, k)
  {
    if s != [] && key(x) < key(s[0]) {
      InsertWithKey(x, s[1..], key, k);
      assert [s[0]] + Insert(x, s[1..], key) == Insert(x, s, key);
      assert ([s[0]] + Insert(x, s[1..], key))[1..] == Insert(x, s[1..], key);
    } else {
      assert ([x] + s)[1..] == s;
    }
  }

  lemma {:induction false} InsertDistinct(x: ProbeResult, s: seq<ProbeResult>, key: ProbeResult -> nat)
    requires DistinctUrls(s) && forall y :: y in s ==> y.url != x.url
    ensures DistinctUrls(Insert(x, s, key))
    ensures forall y :: y in Insert(x, s, key) <==> y == x || y in s
  {
    if s != [] && key(x) < key(s[0]) {
      InsertDistinct(x, s[1..], key);
      var t := Insert(x, s[1..], key);
      assert Insert(x, s, key) == [s[0]] + t;
      forall y | y in t ensures y.url != s[0].url {
        if y != x {
          var k :| 0 <= k < |s[1..]| && s[1..][k] == y;
          assert s[k + 1] == y;
        }
      }
    }
  }

  /** The sort yields a list sorted by descending key that is a permutation
      of its input. */
  lemma {:induction false} SortSortedPermutation(rs: seq<ProbeResult>, key: ProbeResult -> nat)
    ensures NonIncreasing(SortDescending(rs, key), key)
    ensures multiset(SortDescending(rs, key)) == multiset(rs)
  {
    if rs != [] {
      var t := SortDescending(rs[1..], key);
      SortSortedPermutation(rs[1..], key);
      InsertSorted(rs[0], t, key);
      InsertPermutes(rs[0], t, key);
      assert rs == [rs[0]] + rs[1..];
    }
  }

  /** Entries with equal keys keep their relative order (the sort is stable,
      also under `reverse=True`). */
  lemma {:induction false} SortStable(rs: seq<ProbeResult>, key: ProbeResult -> nat, k: nat)
    ensures WithKey(SortDescending(rs, key), key, k) == WithKey(rs, key, k)
  {
    if rs != [] {
      var t := SortDescending(rs[1..], key);
      SortStable(rs[1..], key, k);
      SortSortedPermutation(rs[1..], key);
      InsertWithKey(rs[0], t, key, k);
      assert SortDescending(rs, key) == Insert(rs[0], t, key);
      assert WithKey(rs, key, k) == (if key(rs[0]) == k then [rs[0]] else []) + WithKey(rs[1..], key, k);
    }
  }

  lemma {:induction false} SortDistinct(rs: seq<ProbeResult>, key: ProbeResult -> nat)
    requires DistinctUrls(rs)
    ensures DistinctUrls(SortDescending(rs, key))
    ensures forall y :: y in SortDescending(rs, key) <==> y in rs
  {
    if rs != [] {
      var t := SortDescending(rs[1..], key);
      assert DistinctUrls(rs[1..]);
      SortDistinct(rs[1..], key);
      forall y | y in t ensures y.url != rs[0].url {
        var k :| 0 <= k < |rs[1..]| && rs[1..][k] == y;
        assert rs[k + 1] == y;
      }
      InsertDistinct(rs[0], t, key);
      assert rs == [rs[0]] + rs[1..];
    }
  }

  /** A label of digits followed by 'p' sorts by that number. */
  lemma LabelKey(ds: string)
    requires ds != [] && AllDigits(ds)
    ensures SortKey(ds + "p") == DigitsValue(ds)
  {
    var q := ds + "p";
    var isDigitAt := (i: nat) => i < |q| && IsDigit(q[i]);
    assert isDigitAt(0);
    assert FirstMatch(0, |q|, isDigitAt) == Some(0);
    assert q[|ds|] == 'p';
    var e := DigitRunEnd(q, 0);
    assert q[0..e] == ds;
  }

  /** "Unknown" has no digit, so it sorts last. */
  lemma UnknownKey()
    ensures SortKey("Unknown") == 0
  {
    var u := "Unknown";
    var isDigitAt := (i: nat) => i < |u| && IsDigit(u[i]);
    assert forall i :: 0 <= i < |u| ==> !isDigitAt(i);
  }

  /** The keys of the labels in the ranking example below. */
  lemma Key480()
    ensures SortKey("480p") == 480
  {
    LabelKey("480");
    assert "480" + "p" == "480p";
    assert "480"[..2] == "48" && "48"[..1] == "4" && "4"[..0] == "";
  }

  lemma Key1080()
    ensures SortKey("1080p") == 1080
  {
    LabelKey("1080");
    assert "1080" + "p" == "1080p";
    assert "1080"[..3] == "108" && "108"[..2] == "10" && "10"[..1] == "1" && "1"[..0] == "";
  }

  lemma Key720()
    ensures SortKey("720p") == 720
  {
    LabelKey("720");
    assert "720" + "p" == "720p";
    assert "720"[..2] == "72" && "72"[..1] == "7" && "7"[..0] == "";
  }

  /** Four results with distinct keys come out in descending key order. */
  lemma RankFour(a: ProbeResult, b: ProbeResult, c: ProbeResult, d: ProbeResult, key: ProbeResult -> nat)
    requires key(b) > key(d) > key(a) > key(c)
    ensures SortDescending([a, b, c, d], key) == [b, d, a, c]
  {
    assert [a, b, c, d][1..] == [b, c, d];
    assert [b, c, d][1..] == [c, d];
    assert [c, d][1..] == [d];
    assert SortDescending([d], key) == [d];
    assert [d][1..] == [];
    assert Insert(c, [], key) == [c];
    assert Insert(c, [d], key) == [d, c];
    assert SortDescending([c, d], key) == [d, c];
    assert [d, c][1..] == [c];
    assert SortDescending([b, c, d], key) == [b, d, c];
    assert [b, d, c][1..] == [d, c];
    assert Insert(a, [c], key) == [a, c];
    assert Insert(a, [d, c], key) == [d, a, c];
    assert Insert(a, [b, d, c], key) == [b, d, a, c];
  }

  /** Labels 480p, 1080p, Unknown, 720p are ranked 1080p, 720p, 480p, Unknown. */
  lemma RankingExample(a: ProbeResult, b: ProbeResult, c: ProbeResult, d: ProbeResult)
    requires a.quality == "480p" && b.quality == "1080p" && c.quality == "Unknown" && d.quality == "720p"
    ensures SortDescending([a, b, c, d], Key) == [b, d, a, c]
  {
    Key480();
    Key1080();
    Key720();
    UnknownKey();
    RankFour(a, b, c, d, Key);
  }

  // ---------------------------------------------------------------------
  // probe_urls

  /** What `probe_urls(urls)` returns. */
  function ProbeAndRank(urls: seq<string>, head: string -> HeadReply): seq<ProbeResult> {
    SortDescending(ProbeEach(Dedup(urls), ProbeWith(head)), Key)
  }

  /** The probe-order list has one entry per distinct URL whose probe
      succeeds, each the probe of its own URL, in order of first occurrence
      in `urls`. */
  lemma ProbeOrder(urls: seq<string>, head: string -> HeadReply)
    ensures var probeOrder := ProbeEach(Dedup(urls), ProbeWith(head));
            (forall x :: x in probeOrder ==> x.url in urls && ProbeOne(x.url, head) == Some(x)) &&
            (forall u :: u in urls && ProbeOne(u, head).Some? ==> ProbeOne(u, head).value in probeOrder) &&
            (forall j, k :: 0 <= j < k < |probeOrder| ==>
               FirstIndex(urls, probeOrder[j].url) < FirstIndex(urls, probeOrder[k].url))
  {
    var d := Dedup(urls);
    DedupFirstOccurrences(urls);
    ProbeEachSound(d, ProbeWith(head));
    ProbeEachComplete(d, ProbeWith(head));
    ProbeEachKeepsOrder(urls, d, ProbeWith(head));
  }

  /** What `probe_urls` returns: the probe-order list (see ProbeOrder) sorted
      by descending quality key, as a permutation in which entries with equal
      keys keep probe order; no URL appears twice. */
  lemma ProbeAndRankContract(urls: seq<string>, head: string -> HeadReply)
    ensures var r := ProbeAndRank(urls, head);
            NonIncreasing(r, Key) && DistinctUrls(r) &&
            (forall x :: x in r ==> x.url in urls && ProbeOne(x.url, head) == Some(x)) &&
            (forall u :: u in urls && ProbeOne(u, head).Some? ==> ProbeOne(u, head).value in r)
    ensures var probeOrder := ProbeEach(Dedup(urls), ProbeWith(head));
            multiset(ProbeAndRank(urls, head)) == multiset(probeOrder) &&
            forall k :: WithKey(ProbeAndRank(urls, head), Key, k) == WithKey(probeOrder, Key, k)
  {
    var probeOrder := ProbeEach(Dedup(urls), ProbeWith(head));
    ProbeOrder(urls, head);
    assert DistinctUrls(probeOrder) by {
      forall j, k | 0 <= j < k < |probeOrder| ensures probeOrder[j].url != probeOrder[k].url {
        assert probeOrder[j] in probeOrder && probeOrder[k] in probeOrder;
      }
    }
    SortSortedPermutation(probeOrder, Key);
    SortDistinct(probeOrder, Key);
    forall k ensures WithKey(ProbeAndRank(urls, head), Key, k) == WithKey(probeOrder, Key, k) {
      SortStable(probeOrder, Key, k);
    }
  }

  // ---------------------------------------------------------------------
  // The loop of `probe_urls`

  /** The URL at `i` is appended to the distinct URLs exactly when it has
      not been seen before. */
  lemma DedupStep(urls: seq<string>, i: nat)
    requires i < |urls|
    ensures Dedup(urls[..i + 1]) ==
            if urls[i] in urls[..i] then Dedup(urls[..i]) else Dedup(urls[..i]) + [urls[i]]
  {
    var s := urls[..i + 1];
    assert s[..|s| - 1] == urls[..i] && s[|s| - 1] == urls[i];
  }

  lemma ProbeEachAppend(us: seq<string>, u: string, probe: string -> Option<ProbeResult>)
    ensures ProbeEach(us + [u], probe) == ProbeEach(us, probe) + Probed(u, probe)
  {
    var d := us + [u];
    assert d[..|d| - 1] == us && d[|d| - 1] == u;
  }

  /** The contents of `seen_urls` after the loop has passed over `s`. */
  function Seen(s: seq<string>): (r: set<string>)
    ensures forall u :: u in r <==> u in s
  {
    set u | u in s
  }

  lemma SeenAppend(s: seq<string>, x: string)
    ensures Seen(s + [x]) == Seen(s) + {x}
  {
    assert forall u :: u in s + [x] <==> u in s || u == x;
  }

  /** One step over the URL at `i`: `seen_urls` gains it, and the list gains
      its probe exactly when it was not seen before. */
  lemma LoopStep(urls: seq<string>, i: nat, probe: string -> Option<ProbeResult>)
    requires i < |urls|
    ensures Seen(urls[..i + 1]) == Seen(urls[..i]) + {urls[i]}
    ensures ProbeEach(Dedup(urls[..i + 1]), probe) ==
            if urls[i] in Seen(urls[..i]) then ProbeEach(Dedup(urls[..i]), probe)
            else ProbeEach(Dedup(urls[..i]), probe) + Probed(urls[i], probe)
  {
    DedupStep(urls, i);
    assert urls[..i + 1] == urls[..i] + [urls[i]];
    SeenAppend(urls[..i], urls[i]);
    ProbeEachAppend(Dedup(urls[..i]), urls[i], probe);
  }

  /** A URL already in `seen_urls` leaves the loop state as it is. */
  lemma SeenStep(urls: seq<string>, i: nat, probe: string -> Option<ProbeResult>, seen: set<string>, results: seq<ProbeResult>)
    requires i < |urls| && urls[i] in seen
    requires seen == Seen(urls[..i]) && results == ProbeEach(Dedup(urls[..i]), probe)
    ensures seen == Seen(urls[..i + 1]) && results == ProbeEach(Dedup(urls[..i + 1]), probe)
  {
    LoopStep(urls, i, probe);
  }

  /** A URL not yet in `seen_urls` is added to it, and its entry, if the
      probe yields one, is appended. */
  lemma UnseenStep(urls: seq<string>, i: nat, probe: string -> Option<ProbeResult>, seen: set<string>,
                   results: seq<ProbeResult>, entry: Option<ProbeResult>)
    requires i < |urls| && urls[i] !in seen && entry == probe(urls[i])
    requires seen == Seen(urls[..i]) && results == ProbeEach(Dedup(urls[..i]), probe)
    ensures seen + {urls[i]} == Seen(urls[..i + 1])
    ensures (if entry.Some? then results + [entry.value] else results) == ProbeEach(Dedup(urls[..i + 1]), probe)
  {
    LoopStep(urls, i, probe);
    if entry.None? {
      assert results + Probed(urls[i], probe) == results;
    }
  }

  /** The body of the `probe_urls` loop for one unseen URL: HLS manifests
      are recorded without a request; otherwise the HEAD reply is sized, and
      a request or `int()` that raises drops the URL. It restates `ProbeOne`
      step by step, and its `ensures` is the bridge from the loop to that
      function. */
  method ProbeUrl(url: string, head: string -> HeadReply) returns (entry: Option<ProbeResult>)
    ensures entry == ProbeOne(url, head)
  {
    var isHls := IsHls(url);
    var quality := QualityLabel(url);
    if isHls {
      return Some(ProbeResult(url, quality, 0, StreamLabel, true, true));
    }
    var reply := head(url);
    if reply.HeadRaised? {
      return None;
    }
    var contentRange := reply.contentRange.GetOr("");
    var contentLength := reply.contentLength.GetOr("0");
    var size := SizeFromHeaders(contentRange, contentLength);
    if size.None? {
      return None;
    }
    if !MegabytesFit(size.value) {
      // `size / (1024 * 1024)` raises OverflowError.
      return None;
    }
    var isValid := size.value > MinValidSize;
    entry := Some(ProbeResult(url, quality, size.value, Megabytes(size.value), false, isValid));
  }

  /** `probe_urls`: the loop over `urls` with its `seen_urls` set, then the sort. */
  method ProbeUrls(urls: seq<string>, head: string -> HeadReply) returns (results: seq<ProbeResult>)
    ensures results == ProbeAndRank(urls, head)
  {
    results := [];
    var seenUrls: set<string> := {};
    for i := 0 to |urls|
      invariant seenUrls == Seen(urls[..i])
      invariant results == ProbeEach(Dedup(urls[..i]), ProbeWith(head))
    {
      var url := urls[i];
      if url !in seenUrls {
        var entry := ProbeUrl(url, head);
        UnseenStep(urls, i, ProbeWith(head), seenUrls, results, entry);
        seenUrls := seenUrls + {url};
        if entry.Some? {
          results := results + [entry.value];
        }
      } else {
        SeenStep(urls, i, ProbeWith(head), seenUrls, results);
      }
    }
    assert urls[..|urls|] == urls;
    results := SortDescending(results, Key);
  }
}
