/** `video_id_from_url` and `VIDEO_ID_RX`: the 11-character video id at the start of a
    YouTube link, matched case-sensitively and anchored at the start only. */
module VideoId {
  import opened Wrappers
  import opened Text

  /** The length of a video id. */
  const IdLength := 11

  /** The id alphabet `[A-Za-z0-9_-]`. */
  predicate IsIdChar(c: char) {
    || 'A' <= c <= 'Z'
    || 'a' <= c <= 'z'
    || '0' <= c <= '9'
    || c == '_'
    || c == '-'
  }

  predicate IsVideoId(s: string) {
    |s| == IdLength && forall i :: 0 <= i < |s| ==> IsIdChar(s[i])
  }

  /** The alternatives of `(?:https?://)?`. */
  const Schemes: seq<string> := ["https://", "http://", ""]

  /** The alternatives of `(?:www\.)?`. */
  const Wwws: seq<string> := ["www.", ""]

  /** The alternatives of `(?:youtu\.be/|youtube\.com/(?:watch\?v=|embed/|v/))`. */
  const Hosts: seq<string> := ["youtu.be/", "youtube.com/watch?v=", "youtube.com/embed/", "youtube.com/v/"]

  /** `url` starts with `prefix` followed by the id `id`. */
  predicate MatchesWith(url: string, prefix: string, id: string) {
    IsVideoId(id) && StartsWith(url, prefix + id)
  }

  /** The regular expression read as a language: some choice of scheme, `www.` and
      host, then the 11 id characters; whatever follows is not looked at. */
  ghost predicate RegexMatches(url: string, id: string) {
    exists s, w, h :: MatchesVia(url, s, w, h, id)
  }

  /** The match that takes the `s`-th scheme, `w`-th `www.` and `h`-th host alternative. */
  predicate MatchesVia(url: string, s: int, w: int, h: int, id: string) {
    0 <= s < |Schemes| && 0 <= w < |Wwws| && 0 <= h < |Hosts| && MatchesWith(url, Schemes[s] + Wwws[w] + Hosts[h], id)
  }

  /** `(?:https?://)?`: consumes `https://` or else `http://` when present. */
  function DropScheme(url: string): string {
    if StartsWith(url, Schemes[0]) then url[|Schemes[0]|..]
    else if StartsWith(url, Schemes[1]) then url[|Schemes[1]|..]
    else url
  }

  /** `(?:www\.)?`: consumes `www.` when present. */
  function DropWww(s: string): string {
    if StartsWith(s, Wwws[0]) then s[|Wwws[0]|..] else s
  }

  /** What follows the host alternative `s` starts with, if any. */
  function AfterHost(s: string): Option<string> {
    if StartsWith(s, Hosts[0]) then Some(s[|Hosts[0]|..])
    else if StartsWith(s, Hosts[1]) then Some(s[|Hosts[1]|..])
    else if StartsWith(s, Hosts[2]) then Some(s[|Hosts[2]|..])
    else if StartsWith(s, Hosts[3]) then Some(s[|Hosts[3]|..])
    else None
  }

  /** The 11 id characters at the front of `rest`, if they are there. */
  function TakeId(rest: string): Option<string> {
    if |rest| >= IdLength && IsVideoId(rest[..IdLength]) then Some(rest[..IdLength]) else None
  }

  /** `video_id_from_url`: consume an optional scheme, an optional `www.` and a host,
      then take the 11 id characters; the result is exactly the id the regular
      expression matches, and there is at most one. */
  function VideoIdFromUrl(url: string): (r: Option<string>)
    ensures r.Some? ==> IsVideoId(r.value)
    ensures forall id :: RegexMatches(url, id) <==> r == Some(id)
  {
    var r := match AfterHost(DropWww(DropScheme(url)))
      case None => None
      case Some(rest) => TakeId(rest);
    LemmaMatcherSound(url);
    forall id | RegexMatches(url, id)
      ensures r == Some(id)
    {
      LemmaMatcherComplete(url, id);
    }
    r
  }

  lemma LemmaSchemeStep(s: int, t: string)
    requires 0 <= s < |Schemes|
    requires t != [] && (t[0] == 'w' || t[0] == 'y')
    ensures DropScheme(Schemes[s] + t) == t
  {
    var u := Schemes[s] + t;
    if s == 0 {
      assert StartsWith(u, Schemes[0]);
    } else if s == 1 {
      assert u[4] == ':';
      assert !StartsWith(u, Schemes[0]);
      assert StartsWith(u, Schemes[1]);
    } else {
      assert u == t;
      assert !StartsWith(u, Schemes[0]) && !StartsWith(u, Schemes[1]);
    }
  }

  lemma LemmaWwwStep(w: int, t: string)
    requires 0 <= w < |Wwws|
    requires t != [] && t[0] == 'y'
    ensures DropWww(Wwws[w] + t) == t
  {
    var u := Wwws[w] + t;
    if w == 0 {
      assert StartsWith(u, Wwws[0]);
    } else {
      assert u == t;
      assert !StartsWith(u, Wwws[0]);
    }
  }

  lemma LemmaHostStep(h: int, t: string)
    requires 0 <= h < |Hosts|
    ensures AfterHost(Hosts[h] + t) == Some(t)
  {
    var u := Hosts[h] + t;
    assert StartsWith(u, Hosts[h]);
    if h > 0 {
      assert u[5] == 'b';
      assert !StartsWith(u, Hosts[0]);
    }
    if h > 1 {
      assert u[12] != 'w';
      assert !StartsWith(u, Hosts[1]);
    }
    if h > 2 {
      assert u[12] != 'e';
      assert !StartsWith(u, Hosts[2]);
    }
  }

  lemma LemmaSplitPrefix(url: string, a: string, b: string, c: string, d: string)
    requires StartsWith(url, a + b + c + d)
    ensures url == a + (b + (c + (d + url[|a| + |b| + |c| + |d|..])))
  {
    assert url == url[..|a + b + c + d|] + url[|a + b + c + d|..];
  }

  lemma LemmaJoinPrefix(url: string, a: string, b: string, c: string, d: string, e: string)
    requires url == a + (b + (c + (d + e)))
    ensures StartsWith(url, a + b + c + d)
  {
    assert url == (a + b + c + d) + e;
  }

  lemma LemmaDropSplits(url: string, p: string)
    requires StartsWith(url, p)
    ensures url == p + url[|p|..]
  {
  }

  /** Every id the regular expression matches is the one the matcher takes. */
  lemma LemmaMatcherComplete(url: string, id: string)
    requires RegexMatches(url, id)
    ensures (match AfterHost(DropWww(DropScheme(url))) case None => None case Some(rest) => TakeId(rest)) == Some(id)
  {
    var s, w, h :| MatchesVia(url, s, w, h, id);
    LemmaSplitPrefix(url, Schemes[s], Wwws[w], Hosts[h], id);
    var rest := id + url[|Schemes[s]| + |Wwws[w]| + |Hosts[h]| + |id|..];
    var afterWww := Hosts[h] + rest;
    var afterScheme := Wwws[w] + afterWww;
    assert url == Schemes[s] + afterScheme;
    LemmaHostStep(h, rest);
    assert afterWww[0] == Hosts[h][0] == 'y';
    LemmaWwwStep(w, afterWww);
    assert afterScheme[0] == 'w' || afterScheme[0] == 'y';
    LemmaSchemeStep(s, afterScheme);
    assert rest[..IdLength] == id;
  }

  /** The id the matcher takes is one the regular expression matches. */
  lemma LemmaMatcherSound(url: string)
    ensures
      var r := match AfterHost(DropWww(DropScheme(url))) case None => None case Some(rest) => TakeId(rest);
      r.Some? ==> IsVideoId(r.value) && RegexMatches(url, r.value)
  {
    var a := DropScheme(url);
    var s := if StartsWith(url, Schemes[0]) then 0 else if StartsWith(url, Schemes[1]) then 1 else 2;
    LemmaDropSplits(url, Schemes[s]);
    assert url == Schemes[s] + a;
    var b := DropWww(a);
    var w := if StartsWith(a, Wwws[0]) then 0 else 1;
    LemmaDropSplits(a, Wwws[w]);
    assert a == Wwws[w] + b;
    match AfterHost(b)
    case None =>
    case Some(rest) =>
      var h := if StartsWith(b, Hosts[0]) then 0 else if StartsWith(b, Hosts[1]) then 1
               else if StartsWith(b, Hosts[2]) then 2 else 3;
      LemmaDropSplits(b, Hosts[h]);
      assert b == Hosts[h] + rest;
      if TakeId(rest).Some? {
        var id := rest[..IdLength];
        assert rest == id + rest[IdLength..];
        LemmaJoinPrefix(url, Schemes[s], Wwws[w], Hosts[h], id, rest[IdLength..]);
        assert MatchesVia(url, s, w, h, id);
      }
  }

  /** The match is anchored at the start only: text after the id is never looked at. */
  lemma LemmaTrailingTextIgnored(url: string, more: string)
    requires VideoIdFromUrl(url).Some?
    ensures VideoIdFromUrl(url + more) == VideoIdFromUrl(url)
  {
    var id := VideoIdFromUrl(url).value;
    assert RegexMatches(url, id);
    var s, w, h :| MatchesVia(url, s, w, h, id);
    var p := Schemes[s] + Wwws[w] + Hosts[h] + id;
    assert (url + more)[..|p|] == url[..|p|];
    assert MatchesVia(url + more, s, w, h, id);
  }

  /** `dQw4w9WgXcQ`: a well-formed video id. */
  const ExampleId := "dQw4w9WgXcQ"

  /** `https://youtu.be/dQw4w9WgXcQ?t=42`: a short link with a timestamp after the id. */
  const ShortLinkExample := Schemes[0] + Hosts[0] + ExampleId + "?t=42"

  /** The id is read off the short link and the timestamp is ignored. */
  lemma LemmaExampleShortLink()
    ensures VideoIdFromUrl(ShortLinkExample) == Some(ExampleId)
  {
    var scheme, www, host, query := Schemes[0], Wwws[1], Hosts[0], "?t=42";
    assert www == [];
    assert ShortLinkExample == scheme + (www + (host + (ExampleId + query)));
    LemmaJoinPrefix(ShortLinkExample, scheme, www, host, ExampleId, query);
    assert IsVideoId(ExampleId);
    assert MatchesVia(ShortLinkExample, 0, 1, 0, ExampleId);
  }

  /** `https://` is consumed whatever follows it. */
  lemma LemmaDropHttps(t: string)
    ensures DropScheme(Schemes[0] + t) == t
  {
    assert StartsWith(Schemes[0] + t, Schemes[0]);
  }

  /** Every `www.` and host alternative starts with a lower-case `w` or `y`, so text
      starting with anything else names no host. */
  lemma LemmaNoHostAfter(t: string)
    requires t != [] && t[0] != 'w' && t[0] != 'y'
    ensures AfterHost(DropWww(t)) == None
  {
    assert DropWww(t) == t;
    forall h | 0 <= h < |Hosts|
      ensures !StartsWith(t, Hosts[h])
    {
      assert Hosts[h][0] == 'y';
    }
  }

  /** Matching is case-sensitive: an upper-case host is not recognised. */
  lemma LemmaExampleUpperCaseHost()
    ensures VideoIdFromUrl("https://YOUTU.BE/dQw4w9WgXcQ") == None
  {
    var a := "YOUTU.BE/dQw4w9WgXcQ";
    assert "https://YOUTU.BE/dQw4w9WgXcQ" == Schemes[0] + a;
    LemmaDropHttps(a);
    LemmaNoHostAfter(a);
  }
}
