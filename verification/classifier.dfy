/**
 * The rules `handle_response` applies to every network response observed while
 * the page is rendered (backend.py, lines 55-101): ad filtering, the media
 * file-extension test, and the scan of XHR/fetch bodies for media-CDN `.mp4`
 * URLs whose escaped solidus (`\/`) is undone before they are recorded.
 */
module ResponseClassifier {
  import opened Wrappers
  import opened PyText

  /** Substrings that mark a response URL as ad or tracking traffic. */
  const AdPatterns: seq<string> := [
    "trafficjunky", "adtng", "doubleclick", "googlesyndication",
    "adserver", "ads.", "adcdn", "exoclick", "juicyads",
    "adnium", "contentabc", "propellerads", "popads",
    "vcmdiawe.com", "galleryn"
  ]

  /** Substrings of the known video CDNs; they only change the debug message. */
  const VideoCdnPatterns: seq<string> := [
    "phncdn.com", "pornhub.com", "phcdn", "cv.phncdn.com",
    "di.phncdn.com", "ev.phncdn.com"
  ]

  /** Any ad pattern occurs in the lower-cased URL. */
  predicate IsAd(url: string) {
    exists k :: 0 <= k < |AdPatterns| && Contains(Lower(url), AdPatterns[k])
  }

  predicate IsVideoCdn(url: string) {
    exists k :: 0 <= k < |VideoCdnPatterns| && Contains(Lower(url), VideoCdnPatterns[k])
  }

  // ---------------------------------------------------------------------
  // `\.(mp4|m3u8|m4s)(?:\?|$)` and `\.m3u8(?:\?|$)`, both with IGNORECASE

  /** `$` without MULTILINE: the end of the string, or the position of a
      newline that ends it. */
  predicate EndAnchorAt(s: string, j: nat) {
    j == |s| || (j + 1 == |s| && s[j] == '\n')
  }

  /** `.ext` (any case) starts at `i` and is followed by `?` or `$`. */
  predicate ExtensionAt(s: string, i: nat, ext: string) {
    var j := i + 1 + |ext|;
    j <= |s| && Lower(s[i..j]) == "." + ext &&
    ((j < |s| && s[j] == '?') || EndAnchorAt(s, j))
  }

  predicate MediaExtensionAt(s: string, i: nat) {
    ExtensionAt(s, i, "mp4") || ExtensionAt(s, i, "m3u8") || ExtensionAt(s, i, "m4s")
  }

  /** `re.search(r'\.(mp4|m3u8|m4s)(?:\?|$)', url, re.IGNORECASE)` succeeds. */
  predicate HasMediaExtension(url: string) {
    exists i :: 0 <= i < |url| && MediaExtensionAt(url, i)
  }

  /** `re.search(r'\.m3u8(?:\?|$)', url, re.IGNORECASE)` succeeds: an HLS manifest. */
  predicate IsHls(url: string) {
    exists i :: 0 <= i < |url| && ExtensionAt(url, i, "m3u8")
  }

  // ---------------------------------------------------------------------
  // `https?://[^\s"'<>]+phncdn\.com[^\s"'<>]+\.mp4[^\s"'<>]*` with IGNORECASE

  /** A character of the class `[^\s"'<>]`. */
  predicate IsUrlChar(c: char) {
    !IsSpace(c) && c != '"' && c != '\'' && c != '<' && c != '>'
  }

  /** End of the run of URL characters that starts at `i`. */
  function UrlRunEnd(t: string, i: nat): (e: nat)
    requires i <= |t|
    decreases |t| - i
    ensures i <= e <= |t|
    ensures forall k :: i <= k < e ==> IsUrlChar(t[k])
    ensures e == |t| || !IsUrlChar(t[e])
  {
    if i < |t| && IsUrlChar(t[i]) then UrlRunEnd(t, i + 1) else i
  }

  /** Length of `https://` (8) or `http://` (7), in any case, at `i`; 0 if neither. */
  function SchemeLength(t: string, i: nat): nat {
    if i + 8 <= |t| && Lower(t[i..i + 8]) == "https://" then 8
    else if i + 7 <= |t| && Lower(t[i..i + 7]) == "http://" then 7
    else 0
  }

  /** After the scheme, the lower-cased run splits as X `phncdn.com` Y `.mp4` Z
      with X and Y non-empty. */
  predicate CdnMp4Tail(r: string) {
    exists a, b :: 1 <= a && a + 10 < b && b + 4 <= |r| &&
      OccursAt(r, "phncdn.com", a) && OccursAt(r, ".mp4", b)
  }

  /** A string that the body pattern matches in full. */
  predicate IsCdnMp4Url(m: string) {
    var k := SchemeLength(m, 0);
    k > 0 && k <= |m| && (forall j :: k <= j < |m| ==> IsUrlChar(m[j])) && CdnMp4Tail(Lower(m[k..]))
  }

  /** Where a match that starts at `i` ends, if one does. The trailing
      `[^\s"'<>]*` is greedy and nothing follows it, so every match runs to
      the end of the URL-character run. */
  function CdnMp4MatchAt(t: string, i: nat): (e: Option<nat>)
    requires i <= |t|
    ensures e.Some? ==> i < e.value <= |t| && IsCdnMp4Url(t[i..e.value])
    ensures e.Some? ==> (forall j :: i <= j < e.value ==> IsUrlChar(t[j])) &&
                        (e.value == |t| || !IsUrlChar(t[e.value]))
  {
    var k := SchemeLength(t, i);
    if k == 0 then None
    else
      var e := UrlRunEnd(t, i + k);
      if CdnMp4Tail(Lower(t[i + k..e])) then
        SchemeLengthOfSlice(t, i, e);
        SchemeUrlChars(t, i);
        assert t[i..e][k..] == t[i + k..e];
        Some(e)
      else None
  }

  /** The scheme consists of URL characters. */
  lemma SchemeUrlChars(t: string, i: nat)
    ensures forall j :: i <= j < i + SchemeLength(t, i) ==> IsUrlChar(t[j])
  {
    var k := SchemeLength(t, i);
    forall j | i <= j < i + k ensures IsUrlChar(t[j]) {
      var scheme := if k == 8 then "https://" else "http://";
      assert Lower(t[i..i + k]) == scheme;
      assert LowerChar(t[j]) == scheme[j - i];
    }
  }

  /** A string that starts with a scheme has the same scheme in any text
      that holds it at `i`. */
  lemma SchemeOfPrefix(t: string, i: nat, j: nat)
    requires i <= j <= |t| && SchemeLength(t[i..j], 0) > 0
    ensures SchemeLength(t, i) == SchemeLength(t[i..j], 0)
  {
    var m := t[i..j];
    if i + 8 <= j {
      assert m[0..8] == t[i..i + 8];
    }
    if i + 7 <= j {
      assert m[0..7] == t[i..i + 7];
    }
    if SchemeLength(m, 0) == 7 {
      assert LowerChar(t[i + 4]) == Lower(t[i..i + 7])[4] == ':';
      if i + 8 <= |t| {
        assert Lower(t[i..i + 8])[4] == ':';
      }
    }
  }

  /** Extending a string keeps the `phncdn.com` ... `.mp4` split of its prefix. */
  lemma TailExtends(r: string, r2: string)
    requires |r| <= |r2| && r == r2[..|r|] && CdnMp4Tail(r)
    ensures CdnMp4Tail(r2)
  {
    var a, b :| 1 <= a && a + 10 < b && b + 4 <= |r| &&
      OccursAt(r, "phncdn.com", a) && OccursAt(r, ".mp4", b);
    assert r2[a..a + 10] == r[a..a + 10];
    assert r2[b..b + 4] == r[b..b + 4];
    assert OccursAt(r2, "phncdn.com", a) && OccursAt(r2, ".mp4", b);
  }

  /** Every full match of the pattern that starts at `i` is found there, and
      the end reported is the furthest one: the trailing `[^\s"'<>]*` is
      greedy. So `None` means that no match starts at `i`. */
  lemma MatchAtIsLongest(t: string, i: nat, j: nat)
    requires i < j <= |t| && IsCdnMp4Url(t[i..j])
    ensures CdnMp4MatchAt(t, i).Some? && j <= CdnMp4MatchAt(t, i).value
  {
    var m := t[i..j];
    var k := SchemeLength(m, 0);
    SchemeOfPrefix(t, i, j);
    var e := UrlRunEnd(t, i + k);
    forall x | i + k <= x < j ensures IsUrlChar(t[x]) {
      assert t[x] == m[x - i];
    }
    assert j <= e;
    var r := Lower(m[k..]);
    var r2 := Lower(t[i + k..e]);
    assert m[k..] == t[i + k..j];
    assert r == r2[..|r|] by {
      forall x | 0 <= x < |r| ensures r[x] == r2[x] {
        assert r[x] == LowerChar(t[i + k + x]);
      }
    }
    TailExtends(r, r2);
  }

  lemma SchemeLengthOfSlice(t: string, i: nat, e: nat)
    requires i + SchemeLength(t, i) <= e <= |t|
    ensures SchemeLength(t[i..e], 0) == SchemeLength(t, i)
  {
    var m := t[i..e];
    if i + 8 <= e { assert m[0..8] == t[i..i + 8]; }
    if i + 7 <= e { assert m[0..7] == t[i..i + 7]; }
  }

  /** `re.findall` of the body pattern over `t[i..]`: matches do not overlap,
      and the scan resumes where the last match ended. */
  function FindCdnMp4Urls(t: string, i: nat): (ms: seq<string>)
    requires i <= |t|
    decreases |t| - i
    ensures forall m :: m in ms ==> IsCdnMp4Url(m)
  {
    if i == |t| then []
    else match CdnMp4MatchAt(t, i)
      case Some(e) => [t[i..e]] + FindCdnMp4Urls(t, e)
      case None => FindCdnMp4Urls(t, i + 1)
  }

  /** The scan reaches position `p` when no match that starts before `p`
      runs past it: whatever is found from `p` is found from `i`. */
  lemma {:induction false} ScanReaches(t: string, i: nat, p: nat)
    requires i <= p <= |t|
    requires forall q :: i <= q < p && CdnMp4MatchAt(t, q).Some? ==> CdnMp4MatchAt(t, q).value <= p
    ensures forall x :: x in FindCdnMp4Urls(t, p) ==> x in FindCdnMp4Urls(t, i)
    decreases p - i
  {
    if i < p {
      match CdnMp4MatchAt(t, i)
      case Some(e) =>
        ScanReaches(t, e, p);
      case None =>
        ScanReaches(t, i + 1, p);
    }
  }

  /** A full match of the pattern that a non-URL character (or the edge of
      the body) delimits on both sides, as a quoted JSON string value is, is
      found by the scan, whatever precedes it. */
  lemma FindsDelimitedMatch(pre: string, m: string, post: string)
    requires IsCdnMp4Url(m)
    requires pre == [] || !IsUrlChar(pre[|pre| - 1])
    requires post == [] || !IsUrlChar(post[0])
    ensures m in FindCdnMp4Urls(pre + m + post, 0)
  {
    var t := pre + m + post;
    var p := |pre|;
    assert t[p..p + |m|] == m;
    forall q | 0 <= q < p && CdnMp4MatchAt(t, q).Some? ensures CdnMp4MatchAt(t, q).value <= p {
      assert t[p - 1] == pre[p - 1];
    }
    ScanReaches(t, 0, p);
    MatchAtIsLongest(t, p, p + |m|);
    var e := CdnMp4MatchAt(t, p).value;
    assert e == p + |m| by {
      if p + |m| < |t| {
        assert t[p + |m|] == post[0];
      }
    }
    assert FindCdnMp4Urls(t, p) == [m] + FindCdnMp4Urls(t, e);
  }

  // ---------------------------------------------------------------------
  // `m.replace('\\/', '/')`: the escaped solidus of JSON strings

  /** Replaces every `\/` by `/`, scanning left to right without overlap. */
  function Unescape(s: string): (r: string)
    decreases |s|
    ensures |r| <= |s|
  {
    if s == [] then []
    else if |s| >= 2 && s[0] == '\\' && s[1] == '/' then "/" + Unescape(s[2..])
    else [s[0]] + Unescape(s[1..])
  }

  /** How an encoder that escapes only the solidus writes `s`: every `/`
      becomes `\/` and nothing else changes. */
  function EscapeSolidus(s: string): (r: string)
    ensures forall k :: 0 <= k < |r| && r[k] == '/' ==> k > 0 && r[k - 1] == '\\'
  {
    if s == [] then []
    else (if s[0] == '/' then "\\/" else [s[0]]) + EscapeSolidus(s[1..])
  }

  /** Unescaping undoes the encoder's escaping. */
  lemma {:induction false} UnescapeEscapeSolidus(s: string)
    ensures Unescape(EscapeSolidus(s)) == s
  {
    if s != [] {
      UnescapeEscapeSolidus(s[1..]);
      var rest := EscapeSolidus(s[1..]);
      if s[0] == '/' {
        assert EscapeSolidus(s) == "\\/" + rest;
        assert EscapeSolidus(s)[2..] == rest;
      } else {
        assert EscapeSolidus(s) == [s[0]] + rest;
        assert rest == [] || rest[0] != '/';
        assert EscapeSolidus(s)[1..] == rest;
      }
    }
  }

  /** A full JSON encoder (section 7 of RFC 8259) also escapes the reverse
      solidus, and for it the replace is no inverse: the string `\/` is
      encoded as `\\\/`, which the replace turns into `\\/`. */
  lemma UnescapeAfterFullJsonEscape()
    ensures Unescape("\\\\\\/") == "\\\\/" != "\\/"
  {
    var e := "\\\\\\/";
    assert e[1..] == "\\\\/" && e[1..][1..] == "\\/" && e[1..][1..][2..] == [];
  }

  lemma OccursInTail(s: string, p: string, i: nat)
    requires s != [] && OccursAt(s[1..], p, i)
    ensures OccursAt(s, p, i + 1)
  {
    assert s[i + 1..i + 1 + |p|] == s[1..][i..i + |p|];
  }

  /** A match without `\/` is recorded unchanged. */
  lemma {:induction false} UnescapeWithoutEscapes(s: string)
    requires !Contains(s, "\\/")
    ensures Unescape(s) == s
  {
    if s != [] {
      if |s| >= 2 && s[0] == '\\' && s[1] == '/' {
        assert OccursAt(s, "\\/", 0);
        assert false;
      }
      if Contains(s[1..], "\\/") {
        var i :| 0 <= i <= |s[1..]| - 2 && OccursAt(s[1..], "\\/", i);
        OccursInTail(s, "\\/", i);
        assert false;
      }
      UnescapeWithoutEscapes(s[1..]);
    }
  }

  /** A match holding `\/` is recorded strictly shorter. */
  lemma {:induction false} UnescapeShortensEscapes(s: string)
    requires Contains(s, "\\/")
    ensures |Unescape(s)| < |s|
  {
    if |s| >= 2 && s[0] == '\\' && s[1] == '/' {
    } else {
      var i :| 0 <= i <= |s| - 2 && OccursAt(s, "\\/", i);
      assert i != 0;
      assert s[1..][i - 1..i + 1] == s[i..i + 2];
      assert OccursAt(s[1..], "\\/", i - 1);
      UnescapeShortensEscapes(s[1..]);
    }
  }

  /** A match is recorded unchanged exactly when it holds no `\/`. */
  lemma UnescapeUnchangedIff(s: string)
    ensures Unescape(s) == s <==> !Contains(s, "\\/")
  {
    if Contains(s, "\\/") {
      UnescapeShortensEscapes(s);
    } else {
      UnescapeWithoutEscapes(s);
    }
  }

  // ---------------------------------------------------------------------
  // One observed response

  /** A network response as `handle_response` sees it. `body` is `None` when
      reading the text raises; that exception is swallowed. */
  datatype Response = Response(url: string, resourceType: string, body: Option<string>)

  /** The request was an XHR or fetch exchange. */
  predicate IsApiExchange(resp: Response) {
    Lower(resp.resourceType) == "xhr" || Lower(resp.resourceType) == "fetch"
  }

  /** Every match with `\/` undone, in order. */
  function UnescapeAll(ms: seq<string>): (r: seq<string>)
    ensures |r| == |ms| && forall k :: 0 <= k < |ms| ==> r[k] == Unescape(ms[k])
  {
    seq(|ms|, k requires 0 <= k < |ms| => Unescape(ms[k]))
  }

  /** The media-CDN URLs found in an XHR/fetch body, unescaped, in text order. */
  function ScannedUrls(resp: Response): seq<string> {
    if IsApiExchange(resp) && resp.body.Some? then UnescapeAll(FindCdnMp4Urls(resp.body.value, 0))
    else []
  }

  /** Everything `handle_response` appends for one response, in order. */
  function Observed(resp: Response): seq<string> {
    if IsAd(resp.url) then []
    else (if HasMediaExtension(resp.url) then [resp.url] else []) + ScannedUrls(resp)
  }

  /** Each scanned URL is the unescaped form of a full match of the body
      pattern, and no longer than that match. */
  lemma ScannedOrigins(resp: Response, u: string)
    requires u in ScannedUrls(resp)
    ensures IsApiExchange(resp) && resp.body.Some?
    ensures exists m ::
              m in FindCdnMp4Urls(resp.body.value, 0) && IsCdnMp4Url(m) &&
              u == Unescape(m) && |u| <= |m|
  {
    var ms := FindCdnMp4Urls(resp.body.value, 0);
    var k :| 0 <= k < |ScannedUrls(resp)| && ScannedUrls(resp)[k] == u;
    assert ms[k] in ms && u == Unescape(ms[k]);
  }

  /** Every candidate a response contributes comes from one of the two rules:
      the response URL itself, when it is not an ad and has a media extension,
      or a body match of the CDN pattern (see ScannedOrigins); an ad response
      contributes nothing and its body is not scanned. */
  lemma ObservedOrigins(resp: Response)
    ensures IsAd(resp.url) ==> Observed(resp) == []
    ensures forall u :: u in Observed(resp) ==>
              !IsAd(resp.url) &&
              ((u == resp.url && HasMediaExtension(resp.url)) || u in ScannedUrls(resp))
  {
  }

  /** A response that is not an XHR/fetch exchange contributes its own URL
      exactly when it is not an ad and has a media extension, and nothing
      else; whether its host is a known video CDN plays no part. */
  lemma ResponseUrlVerdict(resp: Response)
    requires !IsApiExchange(resp)
    ensures Observed(resp) == (if !IsAd(resp.url) && HasMediaExtension(resp.url) then [resp.url] else [])
  {
  }

  /** An ad host is dropped even though its URL names an MP4 file, whatever
      the resource type and body of the response. */
  lemma AdMediaDropped(resp: Response)
    requires resp.url == "https://ads.example/x.mp4"
    ensures HasMediaExtension(resp.url) && IsAd(resp.url)
    ensures Observed(resp) == []
  {
    AdExampleIsAd(resp.url);
    AdExampleIsMedia(resp.url);
  }

  lemma AdExampleIsAd(u: string)
    requires u == "https://ads.example/x.mp4"
    ensures IsAd(u)
  {
    var l := Lower(u);
    assert l[8..12] == "ads." by {
      assert l[8] == 'a' && l[9] == 'd' && l[10] == 's' && l[11] == '.';
    }
    assert OccursAt(l, AdPatterns[5], 8);
  }

  lemma AdExampleIsMedia(u: string)
    requires u == "https://ads.example/x.mp4"
    ensures HasMediaExtension(u)
  {
    assert Lower(u[21..25]) == ".mp4" by {
      assert u[21..25] == ".mp4";
    }
    assert |u| == 25 && EndAnchorAt(u, 25);
    assert ExtensionAt(u, 21, "mp4") && MediaExtensionAt(u, 21);
  }

  /** The list of candidate URLs that the response handler appends to. */
  class MediaCollector {
    var mediaUrls: seq<string>

    constructor ()
      ensures mediaUrls == []
    {
      mediaUrls := [];
    }

    /** The loop over the body matches: each is appended with `\/` undone. */
    method AppendUnescaped(ms: seq<string>)
      modifies this
      ensures mediaUrls == old(mediaUrls) + UnescapeAll(ms)
    {
      ghost var scanned := UnescapeAll(ms);
      for j := 0 to |ms|
        invariant mediaUrls == old(mediaUrls) + scanned[..j]
      {
        var m := Unescape(ms[j]);
        assert scanned[..j + 1] == scanned[..j] + [m];
        mediaUrls := mediaUrls + [m];
      }
      assert scanned[..|ms|] == scanned;
    }

    /** `handle_response` for one response. */
    method HandleResponse(resp: Response)
      modifies this
      ensures mediaUrls == old(mediaUrls) + Observed(resp)
    {
      if IsAd(resp.url) {
        return;
      }
      ghost var before := mediaUrls;
      AppendIfMedia(resp.url);
      ghost var middle := mediaUrls;
      ScanBody(resp);
      assert middle + ScannedUrls(resp) == before + Observed(resp);
    }

    /** The response URL is appended when it has a media extension. */
    method AppendIfMedia(rurl: string)
      modifies this
      ensures mediaUrls == old(mediaUrls) + (if HasMediaExtension(rurl) then [rurl] else [])
    {
      if HasMediaExtension(rurl) {
        // The CDN test only selects the debug message; both branches append.
        var isVideoCdn := IsVideoCdn(rurl);
        if isVideoCdn {
          mediaUrls := mediaUrls + [rurl];
        } else {
          mediaUrls := mediaUrls + [rurl];
        }
      }
    }

    /** An XHR/fetch response with a readable body has its matches appended. */
    method ScanBody(resp: Response)
      modifies this
      ensures mediaUrls == old(mediaUrls) + ScannedUrls(resp)
    {
      if IsApiExchange(resp) && resp.body.Some? {
        var ms := FindCdnMp4Urls(resp.body.value, 0);
        AppendUnescaped(ms);
      }
    }
  }
}
